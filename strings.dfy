/** The Python `str` operations the configuration generator calls (`strip()`,
    `startswith`, `find` and `join`), stated over `seq<char>`, and `Split`, a
    line reader used only to state what the generated text looks like when it
    is read back line by line.
    The functions carry at most simple bounds as postconditions. What `strip`
    and `find` compute is stated by the `...Cases` lemmas next to them, so that
    unfolding a function somewhere does not drag its whole specification
    along; `join` is described by `JoinThenSplit` and `JoinAvoids`. */
module Strings {

  /** Python's `str.isspace()` for one character: the characters CPython's
      whitespace table lists (what `str.strip()` with no argument removes). */
  predicate IsSpace(c: char) {
    || ('\t' <= c <= '\r')
    || ('\U{1C}' <= c <= ' ')
    || c == '\U{85}' || c == '\U{A0}' || c == '\U{1680}'
    || ('\U{2000}' <= c <= '\U{200A}')
    || c == '\U{2028}' || c == '\U{2029}' || c == '\U{202F}' || c == '\U{205F}'
    || c == '\U{3000}'
  }

  /** Every character of `s` is whitespace. */
  predicate AllSpace(s: string) {
    forall k :: 0 <= k < |s| ==> IsSpace(s[k])
  }

  /** A non-empty text is its first character followed by the rest. */
  lemma HeadAndTail(s: string)
    requires s != []
    ensures s == [s[0]] + s[1..]
  {
  }

  /** A non-empty text is everything but its last character, then that one. */
  lemma InitAndLast(s: string)
    requires s != []
    ensures s == s[..|s| - 1] + [s[|s| - 1]]
  {
  }

  /** Two whitespace-only texts make a whitespace-only text. */
  lemma AllSpaceConcat(x: string, y: string)
    requires AllSpace(x) && AllSpace(y)
    ensures AllSpace(x + y)
  {
  }

  /** Slicing `a + x` at an index within `x`. */
  lemma ConcatSlices(a: string, x: string, n: nat)
    requires n <= |x|
    ensures (a + x)[..|a| + n] == a + x[..n] && (a + x)[|a| + n..] == x[n..]
  {
  }

  /** `s` with its leading whitespace removed (`str.lstrip()`). */
  function StripLeft(s: string): (r: string)
    ensures |r| <= |s|
  {
    if s != [] && IsSpace(s[0]) then StripLeft(s[1..]) else s
  }

  /** `lstrip` keeps a suffix of `s`, cuts only whitespace, and leaves no
      whitespace in front. */
  lemma {:induction false} StripLeftCases(s: string)
    ensures var r := StripLeft(s);
      |r| <= |s| && r == s[|s| - |r|..] && AllSpace(s[..|s| - |r|]) && (r == [] || !IsSpace(r[0]))
    decreases |s|
  {
    if s != [] && IsSpace(s[0]) {
      var rest := s[1..];
      StripLeftCases(rest);
      var n := |rest| - |StripLeft(rest)|;
      HeadAndTail(s);
      ConcatSlices([s[0]], rest, n);
      AllSpaceConcat([s[0]], rest[..n]);
    }
  }

  /** `s` with its trailing whitespace removed (`str.rstrip()`). */
  function StripRight(s: string): (r: string)
    ensures |r| <= |s|
  {
    if s != [] && IsSpace(s[|s| - 1]) then StripRight(s[..|s| - 1]) else s
  }

  /** `rstrip` keeps a prefix of `s`, cuts only whitespace, and leaves no
      whitespace at the end. */
  lemma {:induction false} StripRightCases(s: string)
    ensures var r := StripRight(s);
      |r| <= |s| && r == s[..|r|] && AllSpace(s[|r|..]) && (r == [] || !IsSpace(r[|r| - 1]))
    decreases |s|
  {
    if s != [] && IsSpace(s[|s| - 1]) {
      var init := s[..|s| - 1];
      StripRightCases(init);
      var m := |StripRight(init)|;
      InitAndLast(s);
      PrefixOfConcat(init, [s[|s| - 1]], m);
      AllSpaceConcat(init[m..], [s[|s| - 1]]);
    }
  }

  /** `r` is what remains of `s` once the whitespace-only `s[..lead]` and the
      whitespace-only tail after `r` are cut away. */
  predicate TrimmedAt(s: string, r: string, lead: nat) {
    && lead + |r| <= |s|
    && r == s[lead..lead + |r|]
    && AllSpace(s[..lead])
    && AllSpace(s[lead + |r|..])
  }

  /** Python's `str.strip()`. */
  function Strip(s: string): string {
    StripRight(StripLeft(s))
  }

  /** The stripped text is a slice of `s`, everything cut away on either side
      is whitespace, and the result neither starts nor ends with whitespace. */
  lemma StripCases(s: string)
    ensures var r := Strip(s);
      r == [] || (!IsSpace(r[0]) && !IsSpace(r[|r| - 1]))
    ensures TrimmedAt(s, Strip(s), |s| - |StripLeft(s)|)
  {
    var l := StripLeft(s);
    var r := StripRight(l);
    StripLeftCases(s);
    StripRightCases(l);
    assert r != [] ==> r[0] == l[0];
    TrimBothEnds(s, l, r);
  }

  /** Cutting a whitespace prefix and then a whitespace suffix leaves a slice
      trimmed at the length of the prefix. */
  lemma TrimBothEnds(s: string, l: string, r: string)
    requires |l| <= |s| && l == s[|s| - |l|..] && AllSpace(s[..|s| - |l|])
    requires |r| <= |l| && r == l[..|r|] && AllSpace(l[|r|..])
    ensures TrimmedAt(s, r, |s| - |l|)
  {
    var lead := |s| - |l|;
    SliceOfSlice(s, lead, |r|);
    assert s[lead + |r|..] == l[|r|..];
  }

  /** The first `n` characters, and the rest, of the suffix of `s` from `i` on. */
  lemma SliceOfSlice(s: string, i: nat, n: nat)
    requires i + n <= |s|
    ensures s[i..][..n] == s[i..i + n] && s[i..][n..] == s[i + n..]
  {
  }

  /** Every character of a slice occurs in the whole. */
  lemma SliceChars(s: string, i: nat, n: nat)
    requires i + n <= |s|
    ensures forall ch :: ch in s[i..i + n] ==> ch in s
  {
    forall ch | ch in s[i..i + n] ensures ch in s {
      var k :| 0 <= k < n && s[i..i + n][k] == ch;
      assert s[i + k] == ch;
    }
  }

  /** Leading whitespace in front of a non-blank start is all that `lstrip` removes. */
  lemma {:induction false} StripLeftSkips(lead: string, t: string)
    requires AllSpace(lead)
    requires t == [] || !IsSpace(t[0])
    ensures StripLeft(lead + t) == t
    decreases |lead|
  {
    if lead != [] {
      assert (lead + t)[1..] == lead[1..] + t;
      StripLeftSkips(lead[1..], t);
    } else {
      assert lead + t == t;
    }
  }

  /** `rstrip` never reaches back past a non-blank character: it only trims `q`. */
  lemma {:induction false} StripRightKeeps(p: string, q: string)
    requires p != [] && !IsSpace(p[|p| - 1])
    ensures StripRight(p + q) == p + StripRight(q)
    decreases |q|
  {
    if q == [] {
      assert p + q == p;
    } else if IsSpace(q[|q| - 1]) {
      assert (p + q)[..|p + q| - 1] == p + q[..|q| - 1];
      StripRightKeeps(p, q[..|q| - 1]);
    }
  }

  /** Python's `s.startswith(p)`. */
  predicate StartsWith(s: string, p: string) {
    |p| <= |s| && s[..|p|] == p
  }

  /** Python's `s.find(c, start)` for a one-character needle. */
  function Find(s: string, c: char, start: nat): (r: int)
    ensures -1 <= r < |s| && (r >= 0 ==> start <= r)
    decreases |s| - start
  {
    if start >= |s| then -1
    else if s[start] == c then start
    else Find(s, c, start + 1)
  }

  /** `find` answers the first index at or after `start` holding `c`, or -1
      when there is none. */
  lemma {:induction false} FindCases(s: string, c: char, start: nat)
    ensures var r := Find(s, c, start);
      && -1 <= r < |s|
      && (r == -1 <==> forall k :: start <= k < |s| ==> s[k] != c)
      && (r >= 0 ==> start <= r && s[r] == c)
      && (r >= 0 ==> forall k :: start <= k < r ==> s[k] != c)
    decreases |s| - start
  {
    if start < |s| && s[start] != c {
      FindCases(s, c, start + 1);
    }
  }

  /** Any index answering the description of `find` is what `find` answers. */
  lemma FindIs(s: string, c: char, start: nat, r: int)
    requires -1 <= r < |s|
    requires r == -1 ==> forall k :: start <= k < |s| ==> s[k] != c
    requires r >= 0 ==> start <= r && s[r] == c && forall k :: start <= k < r ==> s[k] != c
    ensures Find(s, c, start) == r
  {
    FindCases(s, c, start);
  }

  /** Python's `sep.join(parts)`. */
  function Join(parts: seq<string>, sep: string): string {
    if |parts| == 0 then ""
    else if |parts| == 1 then parts[0]
    else parts[0] + sep + Join(parts[1..], sep)
  }

  /** Python's `s.split(c)` for a one-character separator: the pieces between
      the occurrences of `c`; there is always at least one piece, and no piece
      holds `c`. */
  function Split(s: string, c: char): (r: seq<string>)
    ensures |r| >= 1
    ensures forall i :: 0 <= i < |r| ==> c !in r[i]
    decreases |s|
  {
    FindCases(s, c, 0);
    var i := Find(s, c, 0);
    if i < 0 then [s] else [s[..i]] + Split(s[i + 1..], c)
  }

  /** A text without the separator splits into itself alone. */
  lemma SplitWithout(s: string, c: char)
    requires c !in s
    ensures Split(s, c) == [s]
  {
    FindIs(s, c, 0, -1);
  }

  /** Splitting `a`, a separator and `b` gives the pieces of `a` followed by
      the pieces of `b`. */
  lemma {:induction false} SplitAround(a: string, b: string, c: char)
    ensures Split(a + [c] + b, c) == Split(a, c) + Split(b, c)
    decreases |a|
  {
    FindCases(a, c, 0);
    var i := Find(a, c, 0);
    if i >= 0 {
      SplitAround(a[i + 1..], b, c);
      SplitAroundFirst(a, b, c, i);
    } else {
      SplitAroundPlain(a, b, c);
    }
  }

  /** The step of `SplitAround` when `a` holds the separator, first at `i`:
      both splits cut off the same first piece `a[..i]`. */
  lemma SplitAroundFirst(a: string, b: string, c: char, i: nat)
    requires i < |a| && Find(a, c, 0) == i
    requires Split(a[i + 1..] + [c] + b, c) == Split(a[i + 1..], c) + Split(b, c)
    ensures Split(a + [c] + b, c) == Split(a, c) + Split(b, c)
  {
    var rest := a[i + 1..];
    var tail := [c] + b;
    SplitFront(a, tail, c, i);
    SplitAt(a, c, i);
    Associative(a, [c], b);
    Associative(rest, [c], b);
    Associative([a[..i]], Split(rest, c), Split(b, c));
  }

  /** Concatenation is associative. */
  lemma Associative<T>(x: seq<T>, y: seq<T>, z: seq<T>)
    ensures x + y + z == x + (y + z)
  {
  }

  /** Splitting `a + x` where `a` holds the separator first at `i` cuts off
      `a[..i]` and goes on with the rest of `a` followed by `x`. */
  lemma SplitFront(a: string, x: string, c: char, i: nat)
    requires i < |a| && Find(a, c, 0) == i
    ensures Split(a + x, c) == [a[..i]] + Split(a[i + 1..] + x, c)
  {
    FindInFront(a, x, c, i);
    SplitAt(a + x, c, i);
    PrefixOfConcat(a, x, i);
    PrefixOfConcat(a, x, i + 1);
  }

  /** A separator found in `a` is found at the same place in `a + x`. */
  lemma FindInFront(a: string, x: string, c: char, i: nat)
    requires i < |a| && Find(a, c, 0) == i
    ensures Find(a + x, c, 0) == i
  {
    FindCases(a, c, 0);
    PrefixOfConcat(a, x, i);
    FindIs(a + x, c, 0, i);
  }

  /** The step of `SplitAround` when `a` does not hold the separator: `a` is
      the first piece, and the rest is the split of `b`. */
  lemma SplitAroundPlain(a: string, b: string, c: char)
    requires forall k :: 0 <= k < |a| ==> a[k] != c
    ensures Split(a + [c] + b, c) == Split(a, c) + Split(b, c)
  {
    var s := a + [c] + b;
    assert forall k :: 0 <= k < |a| ==> s[k] == a[k];
    assert s[|a|] == c;
    FindIs(s, c, 0, |a|);
    FindIs(a, c, 0, -1);
    assert s[..|a|] == a && s[|a| + 1..] == b;
  }

  /** Where `find` answers `i`, the split cuts off `s[..i]` and goes on
      after `i`. */
  lemma SplitAt(s: string, c: char, i: nat)
    requires i < |s| && Find(s, c, 0) == i
    ensures Split(s, c) == [s[..i]] + Split(s[i + 1..], c)
  {
  }

  /** Slicing `a + x` at an index within `a`. */
  lemma PrefixOfConcat(a: string, x: string, i: nat)
    requires i <= |a|
    ensures (a + x)[..i] == a[..i] && (a + x)[i..] == a[i..] + x
    ensures forall k :: 0 <= k < i ==> (a + x)[k] == a[k]
  {
  }

  /** A text cut around two of its positions `i < j`. */
  lemma CutTwice(t: string, i: nat, j: nat)
    requires i < j < |t|
    ensures t == t[..i] + [t[i]] + t[i + 1..j] + [t[j]] + t[j + 1..]
  {
    assert t[i..] == [t[i]] + t[i + 1..j] + [t[j]] + t[j + 1..];
    assert t == t[..i] + t[i..];
  }

  /** The middle part of a concatenation of three texts. */
  lemma MiddleOf(a: string, b: string, c: string)
    ensures (a + b + c)[|a|..|a| + |b|] == b
  {
  }

  /** Splitting a join recovers the parts, provided there is at least one
      part and no part holds the separator. */
  lemma {:induction false} JoinThenSplit(parts: seq<string>, c: char)
    requires |parts| >= 1
    requires forall i :: 0 <= i < |parts| ==> c !in parts[i]
    ensures Split(Join(parts, [c]), c) == parts
    decreases |parts|
  {
    var head := parts[0];
    SplitWithout(head, c);
    if |parts| > 1 {
      var tail := parts[1..];
      JoinThenSplit(tail, c);
      SplitAround(head, Join(tail, [c]), c);
      assert Join(parts, [c]) == head + [c] + Join(tail, [c]);
      assert parts == [head] + tail;
    }
  }

  /** A character found in neither the parts nor the separator is not in
      their join. */
  lemma {:induction false} JoinAvoids(parts: seq<string>, sep: string, c: char)
    requires c !in sep
    requires forall i :: 0 <= i < |parts| ==> c !in parts[i]
    ensures c !in Join(parts, sep)
    decreases |parts|
  {
    if |parts| > 1 {
      JoinAvoids(parts[1..], sep, c);
    }
  }
}
