/** The generator itself: it downloads dnsmasq domain lists, gathers the
    domains they route into a set, refuses to go on when the set is
    suspiciously small, and writes an AdGuard Home upstream file that sends
    those domains to the China resolvers and everything else to the trusted
    ones. Downloads are looked up in `web` (a URL it does not hold stands for
    a request that fails); the extra file is `Some(text)` when it exists. */
module AdGuardHome {
  import opened Wrappers
  import opened Strings
  import opened DomainList
  import opened Config

  /** Fewer records than this after all downloads means something went wrong. */
  const ExpectedMinLength: nat := 70000

  datatype Error =
    | FetchError(url: string)                 // the download of `url` failed
    | TooFewRecords(found: nat, expected: nat) // the sanity threshold was not met

  datatype Outcome = Pass | Fail(error: Error)

  datatype Result<T> = Success(value: T) | Failure(error: Error)

  /** The bodies downloaded from `urls`, in order, up to the first URL whose
      download fails. */
  function Downloaded(urls: seq<string>, web: map<string, seq<string>>): (docs: seq<seq<string>>)
    ensures |docs| <= |urls|
    ensures forall i :: 0 <= i < |docs| ==> urls[i] in web && docs[i] == web[urls[i]]
    ensures |docs| < |urls| ==> urls[|docs|] !in web
  {
    if urls == [] || urls[0] !in web then [] else [web[urls[0]]] + Downloaded(urls[1..], web)
  }

  /** When no line of the downloaded bodies holds a newline (as after `splitlines`), the
      output written for the records of a run that started empty reads back as
      one line per trusted resolver, then one directive per record, then
      nothing. */
  lemma RunOutputLines(trusted: seq<string>, chinaDns: seq<string>, urls: seq<string>,
                       web: map<string, seq<string>>, order: seq<string>)
    requires forall i :: 0 <= i < |trusted| ==> '\n' !in trusted[i]
    requires forall i :: 0 <= i < |chinaDns| ==> '\n' !in chinaDns[i]
    requires forall k, i :: 0 <= k < |Downloaded(urls, web)| && 0 <= i < |Downloaded(urls, web)[k]| ==>
               '\n' !in Downloaded(urls, web)[k][i]
    requires IsEnumeration(order, AllDomains(Downloaded(urls, web)))
    ensures |order| == |AllDomains(Downloaded(urls, web))|
    ensures Split(Render(Join(trusted, "\n"), Join(chinaDns, " "), order, None), '\n')
         == TrustedLines(trusted) + RecordLineSeq(order, Join(chinaDns, " ")) + [""]
  {
    var docs := Downloaded(urls, web);
    AllDomainsAvoid(docs, '\n');
    GeneratedLines(trusted, chinaDns, order, AllDomains(docs));
  }

  /** The state of one run of the generator. */
  class ChinaDnsAdguardHome {
    var configUrls: seq<string>
    /** The China resolvers, joined by single spaces. */
    var chinaDns: string
    /** The trusted resolvers, one per line. */
    var trustedDns: string
    /** The domains gathered so far. */
    var records: set<string>

    /** Every record is a token found between two `/`, so none holds a `/`. */
    ghost predicate Valid()
      reads this
    {
      forall d :: d in records ==> '/' !in d
    }

    constructor (configUrls: seq<string>, chinaDns: seq<string>, trustedDns: seq<string>)
      ensures Valid()
      ensures this.configUrls == configUrls
      ensures this.chinaDns == Join(chinaDns, " ")
      ensures this.trustedDns == Join(trustedDns, "\n")
      ensures records == {}
    {
      this.configUrls := configUrls;
      this.chinaDns := Join(chinaDns, " ");
      this.trustedDns := Join(trustedDns, "\n");
      records := {};
    }

    /** Download `url` and add the domain of every `server=` line to the
        records; lines that are not `server=` lines or lack two `/` add
        nothing. A failed download leaves the records as they were. */
    method FetchAndProcessOne(url: string, web: map<string, seq<string>>) returns (r: Outcome)
      requires Valid()
      modifies this`records
      ensures Valid()
      ensures r == if url in web then Pass else Fail(FetchError(url))
      ensures records == if url in web then old(records) + Domains(web[url]) else old(records)
    {
      if url !in web {
        return Fail(FetchError(url));
      }
      var lines := web[url];
      var i := 0;
      while i < |lines|
        invariant 0 <= i <= |lines|
        invariant records == old(records) + Domains(lines[..i])
      {
        var line := lines[i];
        ghost var before := records;
        match ParseLine(line) {
          case Server(d) =>
            records := records + {d};
          case _ =>
        }
        assert records == before + LineDomains(line);
        UnionOfStep(lines, i, LineDomains);
        i := i + 1;
      }
      assert lines[..|lines|] == lines;
      DomainsHaveNoSlash(lines);
      return Pass;
    }

    /** Download every configured URL in order, then check the threshold. The
        first failed download stops the run, after the lists before it were
        added. */
    method FetchAndProcess(web: map<string, seq<string>>) returns (r: Outcome)
      requires Valid()
      modifies this`records
      ensures Valid()
      ensures records == old(records) + AllDomains(Downloaded(configUrls, web))
      ensures var n := |Downloaded(configUrls, web)|;
        r == if n < |configUrls| then Fail(FetchError(configUrls[n]))
             else if |records| < ExpectedMinLength then Fail(TooFewRecords(|records|, ExpectedMinLength))
             else Pass
    {
      ghost var docs := Downloaded(configUrls, web);
      var i := 0;
      while i < |configUrls|
        invariant i <= |docs|
        invariant records == old(records) + AllDomains(docs[..i])
        invariant Valid()
      {
        r := FetchAndProcessOne(configUrls[i], web);
        if r.Fail? {
          assert docs[..i] == docs;
          return;
        }
        UnionOfStep(docs, i, Domains);
        i := i + 1;
      }
      assert docs[..i] == docs;
      if |records| < ExpectedMinLength {
        return Fail(TooFewRecords(|records|, ExpectedMinLength));
      }
      return Pass;
    }

    /** The text of the output file: the trusted resolvers and a newline, one
        directive per record in the order the set is iterated (returned as
        `order`), then the extra file's text, as read, when it exists. */
    method Write(extra: Option<string>) returns (out: string, order: seq<string>)
      requires Valid()
      ensures IsEnumeration(order, records)
      ensures out == Render(trustedDns, chinaDns, order, extra)
      ensures forall i :: 0 <= i < |order| ==> BetweenSlashes(RecordLine(order[i], chinaDns)) == Some(order[i])
    {
      out := trustedDns + "\n";
      order := [];
      var rest := records;
      while rest != {}
        invariant NoDuplicates(order)
        invariant forall d :: d in order ==> d in records && d !in rest
        invariant forall d :: d in records ==> d in order || d in rest
        invariant rest <= records
        invariant out == trustedDns + "\n" + RecordLines(order, chinaDns)
        decreases rest
      {
        var domain :| domain in rest;
        RecordLinesSnoc(order, domain, chinaDns);
        out := out + RecordLine(domain, chinaDns) + "\n";
        order := order + [domain];
        rest := rest - {domain};
      }
      forall i | 0 <= i < |order|
        ensures BetweenSlashes(RecordLine(order[i], chinaDns)) == Some(order[i])
      {
        assert order[i] in order;
        RecordLineNamesDomain(order[i], chinaDns);
      }
      match extra
      case Some(text) =>
        out := out + text;
      case None =>
    }

    /** One whole run: gather the records, and write the output only when
        every download succeeded and the threshold is met. */
    method Run(web: map<string, seq<string>>, extra: Option<string>) returns (r: Result<string>)
      requires Valid()
      modifies this`records
      ensures Valid()
      ensures records == old(records) + AllDomains(Downloaded(configUrls, web))
      ensures var n := |Downloaded(configUrls, web)|;
        r.Success? <==> n == |configUrls| && |records| >= ExpectedMinLength
      ensures var n := |Downloaded(configUrls, web)|;
        r.Failure? ==> r.error == if n < |configUrls| then FetchError(configUrls[n])
                                  else TooFewRecords(|records|, ExpectedMinLength)
      ensures r.Success? ==>
        exists order :: IsEnumeration(order, records) && r.value == Render(trustedDns, chinaDns, order, extra)
    {
      var outcome := FetchAndProcess(web);
      if outcome.Fail? {
        return Failure(outcome.error);
      }
      var out, order := Write(extra);
      return Success(out);
    }
  }
}
