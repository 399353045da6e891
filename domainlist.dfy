/** The domain lists the generator downloads are dnsmasq configuration files:
    every line that matters reads `server=/<domain>/<resolver>`. This module
    states which domain one line contributes and which domains a whole
    document, or a series of documents, contributes. */
module DomainList {
  import opened Wrappers
  import opened Strings

  /** Only lines that start with this prefix (after stripping) route a domain;
      everything else, comments included, is passed over. */
  const ServerPrefix := "server="

  /** `t` holds a `/` at two different positions. */
  predicate HasTwoSlashes(t: string) {
    exists i, j :: 0 <= i < j < |t| && t[i] == '/' && t[j] == '/'
  }

  /** The text strictly between the first and the second `/` of `t`, when `t`
      has two (`line[first_slash + 1 : second_slash]`). */
  function BetweenSlashes(t: string): Option<string> {
    var first := Find(t, '/', 0);
    if first == -1 then None
    else
      var second := Find(t, '/', first + 1);
      if second == -1 then None else Some(t[first + 1..second])
  }

  /** There is a token exactly when `t` has two `/`; the token never holds a
      `/` itself (it may be empty), and its characters come from `t`. */
  lemma BetweenSlashesCases(t: string)
    ensures BetweenSlashes(t).Some? <==> HasTwoSlashes(t)
    ensures BetweenSlashes(t).Some? ==> '/' !in BetweenSlashes(t).value
    ensures BetweenSlashes(t).Some? ==> forall ch :: ch in BetweenSlashes(t).value ==> ch in t
  {
    var first := Find(t, '/', 0);
    FindCases(t, '/', 0);
    if first != -1 {
      var second := Find(t, '/', first + 1);
      FindCases(t, '/', first + 1);
      if second == -1 {
        forall i, j | 0 <= i < j < |t| && t[i] == '/'
          ensures t[j] != '/'
        {
          assert first <= i;
        }
      } else {
        SliceChars(t, first + 1, second - first - 1);
      }
    }
  }

  /** Whatever precedes the first `/` and whatever follows the second, the
      token between them is what `BetweenSlashes` returns. */
  lemma BetweenSlashesOf(pre: string, domain: string, post: string)
    requires '/' !in pre && '/' !in domain
    ensures BetweenSlashes(pre + "/" + domain + "/" + post) == Some(domain)
  {
    var t := pre + "/" + domain + "/" + post;
    var first, second := |pre|, |pre| + 1 + |domain|;
    assert t[first] == '/' && t[second] == '/';
    assert forall k :: 0 <= k < first ==> t[k] == pre[k];
    assert forall k :: first < k < second ==> t[k] == domain[k - first - 1];
    FindIs(t, '/', 0, first);
    FindIs(t, '/', first + 1, second);
    assert t == (pre + "/") + domain + ("/" + post);
    MiddleOf(pre + "/", domain, "/" + post);
  }

  /** Conversely, a token found by `BetweenSlashes` sits right after the first
      `/` of `t` and right before the next one. */
  lemma BetweenSlashesParts(t: string) returns (pre: string, post: string)
    requires BetweenSlashes(t).Some?
    ensures '/' !in pre
    ensures t == pre + "/" + BetweenSlashes(t).value + "/" + post
  {
    var first := Find(t, '/', 0);
    FindCases(t, '/', 0);
    var second := Find(t, '/', first + 1);
    FindCases(t, '/', first + 1);
    pre, post := t[..first], t[second + 1..];
    assert forall k :: 0 <= k < |pre| ==> pre[k] == t[k];
    CutTwice(t, first, second);
  }

  /** What one line of a downloaded list amounts to. */
  datatype Parsed =
    | NotServer              // does not start with `server=`: passed over silently
    | Malformed              // a `server=` line without two `/`: skipped with a diagnostic
    | Server(domain: string) // the domain it routes

  /** The per-line step of the download loop: strip the line, pass it over
      unless it starts with `server=`, and take the token between its first
      two `/` (no check that the token is non-empty). */
  function ParseLine(line: string): Parsed {
    var t := Strip(line);
    if !StartsWith(t, ServerPrefix) then NotServer
    else
      match BetweenSlashes(t)
      case None => Malformed
      case Some(d) => Server(d)
  }

  /** A line is passed over exactly when its stripped text does not start
      with `server=`, and skipped as malformed exactly when it does but holds
      fewer than two `/`; a routed domain holds no `/` and only characters of
      the line. */
  lemma ParseLineCases(line: string)
    ensures ParseLine(line).NotServer? <==> !StartsWith(Strip(line), ServerPrefix)
    ensures ParseLine(line).Malformed? <==> StartsWith(Strip(line), ServerPrefix) && !HasTwoSlashes(Strip(line))
    ensures ParseLine(line).Server? ==> '/' !in ParseLine(line).domain
    ensures ParseLine(line).Server? ==> forall ch :: ch in ParseLine(line).domain ==> ch in line
  {
    var t := Strip(line);
    StripCases(line);
    SliceChars(line, |line| - |StripLeft(line)|, |t|);
    BetweenSlashesCases(t);
  }

  /** Stripping leading whitespace, a text starting with `s` and ending in `/`,
      and a tail only trims the whitespace ends. */
  lemma StripOfDirective(lead: string, p: string, rest: string)
    requires AllSpace(lead) && p != [] && p[0] == 's' && p[|p| - 1] == '/'
    ensures Strip(lead + p + rest) == p + StripRight(rest)
  {
    assert lead + p + rest == lead + (p + rest);
    StripLeftSkips(lead, p + rest);
    StripRightKeeps(p, rest);
  }

  /** A well-formed directive, with any leading whitespace and anything at all
      after the second `/`, yields exactly the domain between the slashes. */
  lemma ServerLineYieldsDomain(lead: string, domain: string, rest: string)
    requires AllSpace(lead) && '/' !in domain
    ensures ParseLine(lead + ServerPrefix + "/" + domain + "/" + rest) == Server(domain)
  {
    var p := ServerPrefix + "/" + domain + "/";
    var line := lead + ServerPrefix + "/" + domain + "/" + rest;
    assert line == lead + p + rest;
    StripOfDirective(lead, p, rest);
    DirectiveToken(domain, StripRight(rest));
    ParseStripped(line, p + StripRight(rest), domain);
  }

  /** The token of a stripped `server=/domain/...` directive. */
  lemma DirectiveToken(domain: string, tail: string)
    requires '/' !in domain
    ensures var t := ServerPrefix + "/" + domain + "/" + tail;
      StartsWith(t, ServerPrefix) && BetweenSlashes(t) == Some(domain)
  {
    var t := ServerPrefix + "/" + domain + "/" + tail;
    assert t[..|ServerPrefix|] == ServerPrefix;
    BetweenSlashesOf(ServerPrefix, domain, tail);
  }

  /** A line whose stripped text is a `server=` directive with a token yields
      that token. */
  lemma ParseStripped(line: string, t: string, domain: string)
    requires Strip(line) == t && StartsWith(t, ServerPrefix) && BetweenSlashes(t) == Some(domain)
    ensures ParseLine(line) == Server(domain)
  {
  }

  /** The domains one line contributes: none, or the one it routes. */
  function LineDomains(line: string): set<string> {
    match ParseLine(line)
    case Server(d) => {d}
    case _ => {}
  }

  /** The union of `f(x)` over the elements of `xs`, gathered left to right the
      way the download loops add to the record set. */
  function UnionOf<T>(xs: seq<T>, f: T -> set<string>): set<string> {
    if xs == [] then {}
    else UnionOf(xs[..|xs| - 1], f) + f(xs[|xs| - 1])
  }

  /** One more element adds what it contributes. */
  lemma UnionOfSnoc<T>(xs: seq<T>, x: T, f: T -> set<string>)
    ensures UnionOf(xs + [x], f) == UnionOf(xs, f) + f(x)
  {
    assert (xs + [x])[..|xs|] == xs;
  }

  /** Going one element further into `xs` adds what that element contributes:
      the step of a loop over `xs`. */
  lemma UnionOfStep<T>(xs: seq<T>, i: nat, f: T -> set<string>)
    requires i < |xs|
    ensures UnionOf(xs[..i + 1], f) == UnionOf(xs[..i], f) + f(xs[i])
  {
    assert xs[..i + 1] == xs[..i] + [xs[i]];
    UnionOfSnoc(xs[..i], xs[i], f);
  }

  /** A value is gathered exactly when some element contributes it. */
  lemma {:induction false} UnionOfMembers<T>(xs: seq<T>, f: T -> set<string>, d: string)
    ensures d in UnionOf(xs, f) <==> exists i :: 0 <= i < |xs| && d in f(xs[i])
    decreases |xs|
  {
    if xs != [] {
      var n := |xs| - 1;
      var init := xs[..n];
      UnionOfMembers(init, f, d);
      if d in UnionOf(xs, f) && d in UnionOf(init, f) {
        var i :| 0 <= i < |init| && d in f(init[i]);
        assert xs[i] == init[i];
      }
      if i :| 0 <= i < |xs| && d in f(xs[i]) {
        if i < n {
          assert init[i] == xs[i];
        }
      }
    }
  }

  /** Gathering over two sequences one after the other gives the union of the
      two: the set only grows, and duplicates collapse. */
  lemma {:induction false} UnionOfConcat<T>(a: seq<T>, b: seq<T>, f: T -> set<string>)
    ensures UnionOf(a + b, f) == UnionOf(a, f) + UnionOf(b, f)
    decreases |b|
  {
    if b == [] {
      assert a + b == a;
    } else {
      var b0 := b[..|b| - 1];
      UnionOfConcat(a, b0, f);
      assert (a + b)[..|a + b| - 1] == a + b0;
    }
  }

  /** Only which elements occur matters, not their order or how often they repeat. */
  lemma UnionOfSameElements<T>(a: seq<T>, b: seq<T>, f: T -> set<string>)
    requires forall x :: x in a <==> x in b
    ensures UnionOf(a, f) == UnionOf(b, f)
  {
    forall d ensures d in UnionOf(a, f) <==> d in UnionOf(b, f) {
      UnionOfMembers(a, f, d);
      UnionOfMembers(b, f, d);
      if i :| 0 <= i < |a| && d in f(a[i]) {
        assert a[i] in b;
        var j :| 0 <= j < |b| && b[j] == a[i];
      }
      if j :| 0 <= j < |b| && d in f(b[j]) {
        assert b[j] in a;
        var i :| 0 <= i < |a| && a[i] == b[j];
      }
    }
  }

  /** The domains a whole document contributes, line by line in order. */
  function Domains(lines: seq<string>): set<string> {
    UnionOf(lines, LineDomains)
  }

  /** Every domain of a document is free of `/`. */
  lemma DomainsHaveNoSlash(lines: seq<string>)
    ensures forall d :: d in Domains(lines) ==> '/' !in d
  {
    forall d | d in Domains(lines) ensures '/' !in d {
      UnionOfMembers(lines, LineDomains, d);
      var i :| 0 <= i < |lines| && d in LineDomains(lines[i]);
      ParseLineCases(lines[i]);
    }
  }

  /** A character that occurs in no line of a document occurs in none of its
      domains. */
  lemma DomainsAvoid(lines: seq<string>, c: char)
    requires forall i :: 0 <= i < |lines| ==> c !in lines[i]
    ensures forall d :: d in Domains(lines) ==> c !in d
  {
    forall d | d in Domains(lines) ensures c !in d {
      UnionOfMembers(lines, LineDomains, d);
      var i :| 0 <= i < |lines| && d in LineDomains(lines[i]);
      ParseLineCases(lines[i]);
    }
  }

  /** A line that routes nothing (not a `server=` line, or one with fewer than
      two `/`) can be removed from a document without changing its domains. */
  lemma SkippedLineAddsNothing(a: seq<string>, line: string, b: seq<string>)
    requires !ParseLine(line).Server?
    ensures Domains(a + [line] + b) == Domains(a + b)
  {
    UnionOfConcat(a + [line], b, LineDomains);
    UnionOfConcat(a, b, LineDomains);
    assert (a + [line])[..|a|] == a;
  }

  /** The domains of several documents processed in order. */
  function AllDomains(docs: seq<seq<string>>): set<string> {
    UnionOf(docs, Domains)
  }

  /** The order in which the documents are processed, and fetching one twice,
      does not change the final set. */
  lemma AllDomainsOfSameDocs(docs: seq<seq<string>>, others: seq<seq<string>>)
    requires forall doc :: doc in docs <==> doc in others
    ensures AllDomains(docs) == AllDomains(others)
  {
    UnionOfSameElements(docs, others, Domains);
  }

  /** Every domain gathered from a series of documents is free of `/`. */
  lemma AllDomainsHaveNoSlash(docs: seq<seq<string>>)
    ensures forall d :: d in AllDomains(docs) ==> '/' !in d
  {
    forall d | d in AllDomains(docs) ensures '/' !in d {
      UnionOfMembers(docs, Domains, d);
      var k :| 0 <= k < |docs| && d in Domains(docs[k]);
      DomainsHaveNoSlash(docs[k]);
    }
  }

  /** A character that occurs in no line of any of the documents occurs in
      none of the domains gathered from them. */
  lemma AllDomainsAvoid(docs: seq<seq<string>>, c: char)
    requires forall k, i :: 0 <= k < |docs| && 0 <= i < |docs[k]| ==> c !in docs[k][i]
    ensures forall d :: d in AllDomains(docs) ==> c !in d
  {
    forall d | d in AllDomains(docs) ensures c !in d {
      UnionOfMembers(docs, Domains, d);
      var k :| 0 <= k < |docs| && d in Domains(docs[k]);
      DomainsAvoid(docs[k], c);
    }
  }

  /** A `server=` line with no surrounding blanks gives its domain. */
  lemma ExampleServerLine(domain: string, rest: string)
    requires '/' !in domain
    ensures ParseLine("server=/" + domain + "/" + rest) == Server(domain)
  {
    assert "" + ServerPrefix + "/" + domain + "/" + rest == "server=/" + domain + "/" + rest;
    ServerLineYieldsDomain("", domain, rest);
  }

  /** Nothing rejects an empty domain: `server=//x` yields the empty token. */
  lemma EmptyDomainKept(rest: string)
    ensures ParseLine("server=//" + rest) == Server("")
  {
    assert "server=/" + "" + "/" + rest == "server=//" + rest;
    ExampleServerLine("", rest);
  }

  /** A line that is not a directive is not a `server=` line. */
  lemma ExampleOtherLine()
    ensures ParseLine("bad-line") == NotServer
  {
    var l := "bad-line";
    StripLeftSkips("", l);
    assert "" + l == l;
    assert Strip(l) == l;
    assert l[..|ServerPrefix|] != ServerPrefix;
  }

  /** Two `server=` lines around a line that is not one give exactly their
      two domains. */
  lemma TwoServerLines(a: string, ra: string, other: string, b: string, rb: string)
    requires '/' !in a && '/' !in b
    requires !ParseLine(other).Server?
    ensures Domains(["server=/" + a + "/" + ra, other, "server=/" + b + "/" + rb]) == {a, b}
  {
    ExampleServerLine(a, ra);
    ExampleServerLine(b, rb);
    ThreeLines("server=/" + a + "/" + ra, other, "server=/" + b + "/" + rb, a, b);
  }

  /** A line routing `a`, a line routing nothing and a line routing `b`
      contribute exactly `a` and `b`. */
  lemma ThreeLines(l0: string, l1: string, l2: string, a: string, b: string)
    requires ParseLine(l0) == Server(a) && !ParseLine(l1).Server? && ParseLine(l2) == Server(b)
    ensures Domains([l0, l1, l2]) == {a, b}
  {
    UnionOfSnoc([], l0, LineDomains);
    UnionOfSnoc([l0], l1, LineDomains);
    UnionOfSnoc([l0, l1], l2, LineDomains);
    assert [] + [l0] == [l0];
    assert [l0] + [l1] == [l0, l1];
    assert [l0, l1] + [l2] == [l0, l1, l2];
  }

  /** A short list: two `server=` lines and one line that is not a directive
      give the two domains. */
  lemma ExampleList()
    ensures Domains(["server=/" + "example.cn" + "/" + "1.2.3.4", "bad-line", "server=/" + "foo.com" + "/" + "5.6.7.8"])
         == {"example.cn", "foo.com"}
  {
    ExampleOtherLine();
    TwoServerLines("example.cn", "1.2.3.4", "bad-line", "foo.com", "5.6.7.8");
  }
}
