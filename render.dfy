/** The text of the AdGuard Home upstream configuration the generator writes:
    the trusted resolvers first, then one `[/domain/]resolvers` line per
    record, then the extra file's text. */
module Config {
  import opened Wrappers
  import opened Strings
  import opened DomainList

  /** The directive sending queries for `domain` to the China resolvers
      (without its newline). */
  function RecordLine(domain: string, chinaDns: string): string {
    "[/" + domain + "/]" + chinaDns
  }

  /** A character other than the brackets and `/` that occurs neither in the
      domain nor in the resolver list does not occur in the directive. */
  lemma RecordLineAvoids(domain: string, chinaDns: string, c: char)
    requires c != '[' && c != '/' && c != ']'
    requires c !in domain && c !in chinaDns
    ensures c !in RecordLine(domain, chinaDns)
  {
  }

  /** The directives for `order`, in that order, each ended by a newline. */
  function RecordLines(order: seq<string>, chinaDns: string): string {
    if order == [] then ""
    else RecordLine(order[0], chinaDns) + "\n" + RecordLines(order[1..], chinaDns)
  }

  /** The directives for `order` as a sequence of lines: one per element, in
      the same order. */
  function RecordLineSeq(order: seq<string>, chinaDns: string): (lines: seq<string>)
    ensures |lines| == |order|
    ensures forall i :: 0 <= i < |order| ==> lines[i] == RecordLine(order[i], chinaDns)
  {
    if order == [] then []
    else [RecordLine(order[0], chinaDns)] + RecordLineSeq(order[1..], chinaDns)
  }

  /** The output file for the records enumerated by `order`: the trusted
      resolvers and a newline, the directives, then the text read from the
      extra file when it exists. */
  function Render(trustedDns: string, chinaDns: string, order: seq<string>, extra: Option<string>): string {
    var generated := trustedDns + "\n" + RecordLines(order, chinaDns);
    match extra
    case None => generated
    case Some(text) => generated + text
  }

  /** The output starts with the trusted block and a newline; the text read
      from the extra file, when it exists, is its suffix; without it the output
      ends with the newline of the last generated line. */
  lemma RenderShape(trustedDns: string, chinaDns: string, order: seq<string>, extra: Option<string>)
    ensures var r := Render(trustedDns, chinaDns, order, extra);
      |r| > |trustedDns| && r[..|trustedDns| + 1] == trustedDns + "\n"
    ensures var r := Render(trustedDns, chinaDns, order, extra);
      extra.Some? ==> |r| >= |extra.value| && r[|r| - |extra.value|..] == extra.value
    ensures var r := Render(trustedDns, chinaDns, order, extra);
      extra.None? ==> r[|r| - 1] == '\n'
  {
    var generated := trustedDns + "\n" + RecordLines(order, chinaDns);
    assert generated[..|trustedDns| + 1] == trustedDns + "\n";
    if order != [] {
      EndsWithNewline(order, chinaDns);
    }
    assert generated[|generated| - 1] == '\n';
    if extra.Some? {
      assert (generated + extra.value)[..|trustedDns| + 1] == generated[..|trustedDns| + 1];
    }
  }

  /** Non-empty directive text always ends with a newline. */
  lemma {:induction false} EndsWithNewline(order: seq<string>, chinaDns: string)
    requires order != []
    ensures var s := RecordLines(order, chinaDns); |s| > 0 && s[|s| - 1] == '\n'
    decreases |order|
  {
    if |order| > 1 {
      EndsWithNewline(order[1..], chinaDns);
    }
  }

  /** Writing the directives one record at a time: appending a record to the
      enumeration appends its line. */
  lemma {:induction false} RecordLinesSnoc(order: seq<string>, domain: string, chinaDns: string)
    ensures RecordLines(order + [domain], chinaDns) == RecordLines(order, chinaDns) + RecordLine(domain, chinaDns) + "\n"
    decreases |order|
  {
    if order == [] {
      assert [domain][1..] == [];
    } else {
      assert (order + [domain])[1..] == order[1..] + [domain];
      RecordLinesSnoc(order[1..], domain, chinaDns);
    }
  }

  /** Read back line by line, the directive text is one line per record, in
      the order written, followed by the empty remainder after the last
      newline. */
  lemma {:induction false} RecordLinesSplit(order: seq<string>, chinaDns: string)
    requires '\n' !in chinaDns
    requires forall i :: 0 <= i < |order| ==> '\n' !in order[i]
    ensures Split(RecordLines(order, chinaDns), '\n') == RecordLineSeq(order, chinaDns) + [""]
    decreases |order|
  {
    if order == [] {
      SplitWithout("", '\n');
    } else {
      var line := RecordLine(order[0], chinaDns);
      var rest := RecordLines(order[1..], chinaDns);
      RecordLinesSplit(order[1..], chinaDns);
      RecordLineAvoids(order[0], chinaDns, '\n');
      SplitWithout(line, '\n');
      SplitAround(line, rest, '\n');
      assert RecordLines(order, chinaDns) == line + ['\n'] + rest;
    }
  }

  /** The output without an extra file, read back line by line: the lines of
      the trusted block, then exactly one directive per element of `order`, then
      nothing after the final newline. */
  lemma OutputLines(trustedDns: string, chinaDns: string, order: seq<string>)
    requires '\n' !in chinaDns
    requires forall i :: 0 <= i < |order| ==> '\n' !in order[i]
    ensures Split(Render(trustedDns, chinaDns, order, None), '\n')
         == Split(trustedDns, '\n') + RecordLineSeq(order, chinaDns) + [""]
  {
    var body := RecordLines(order, chinaDns);
    assert Render(trustedDns, chinaDns, order, None) == trustedDns + ['\n'] + body;
    RecordLinesSplit(order, chinaDns);
    SplitAround(trustedDns, body, '\n');
  }

  /** The lines of the trusted block: the resolvers themselves, or one empty
      line when there are none. */
  function TrustedLines(trusted: seq<string>): seq<string> {
    if trusted == [] then [""] else trusted
  }

  /** The output without an extra file, for resolvers given as lists and
      records enumerated by `order`, read back line by line: one line per
      trusted resolver, then exactly one directive per record in the order
      written, then nothing after the final newline. */
  lemma GeneratedLines(trusted: seq<string>, chinaDns: seq<string>, order: seq<string>, records: set<string>)
    requires forall i :: 0 <= i < |trusted| ==> '\n' !in trusted[i]
    requires forall i :: 0 <= i < |chinaDns| ==> '\n' !in chinaDns[i]
    requires forall d :: d in records ==> '\n' !in d
    requires IsEnumeration(order, records)
    ensures |order| == |records|
    ensures var lines := Split(Render(Join(trusted, "\n"), Join(chinaDns, " "), order, None), '\n');
      lines == TrustedLines(trusted) + RecordLineSeq(order, Join(chinaDns, " ")) + [""]
  {
    var c := Join(chinaDns, " ");
    JoinAvoids(chinaDns, " ", '\n');
    assert forall i :: 0 <= i < |order| ==> '\n' !in order[i] by {
      forall i | 0 <= i < |order| ensures '\n' !in order[i] {
        assert order[i] in order;
      }
    }
    OutputLines(Join(trusted, "\n"), c, order);
    if trusted == [] {
      SplitWithout("", '\n');
    } else {
      JoinThenSplit(trusted, '\n');
    }
    EnumerationSize(order, records);
  }

  /** Each generated line names its record between its first two `/`, the
      same place the downloaded `server=/domain/...` line had it. */
  lemma RecordLineNamesDomain(domain: string, chinaDns: string)
    requires '/' !in domain
    ensures BetweenSlashes(RecordLine(domain, chinaDns)) == Some(domain)
  {
    assert RecordLine(domain, chinaDns) == "[" + "/" + domain + "/" + ("]" + chinaDns);
    BetweenSlashesOf("[", domain, "]" + chinaDns);
  }

  /** No record is listed twice. */
  predicate NoDuplicates(order: seq<string>) {
    forall i, j :: 0 <= i < j < |order| ==> order[i] != order[j]
  }

  /** `order` lists every element of `records` exactly once: one way of
      iterating over the set. */
  predicate IsEnumeration(order: seq<string>, records: set<string>) {
    && NoDuplicates(order)
    && (forall d :: d in order ==> d in records)
    && (forall d :: d in records ==> d in order)
  }

  /** An enumeration has exactly as many elements as the set. */
  lemma {:induction false} EnumerationSize(order: seq<string>, records: set<string>)
    requires IsEnumeration(order, records)
    ensures |order| == |records|
    decreases |order|
  {
    if order == [] {
      assert records == {};
    } else {
      var n := |order| - 1;
      var init := order[..n];
      assert forall d :: d in init <==> d in records - {order[n]} by {
        forall d ensures d in init <==> d in records - {order[n]} {
          if d in init {
            var i :| 0 <= i < n && init[i] == d;
            assert order[i] == d;
          }
          if d in records - {order[n]} {
            var i :| 0 <= i < |order| && order[i] == d;
            assert i != n;
            assert init[i] == d;
          }
        }
      }
      EnumerationSize(init, records - {order[n]});
    }
  }
}
