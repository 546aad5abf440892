/**
 * The parts of Rust's `str` API the parsers use: `split` on a string pattern and
 * `trim`, plus the join that `split` inverts.
 */
module Strings {
  import opened Chars
  import opened Wrappers

  /** `t` occurs in `s` starting at index `i`. */
  predicate OccursAt(s: string, t: string, i: nat) {
    i + |t| <= |s| && s[i..i + |t|] == t
  }

  predicate Contains(s: string, t: string) {
    exists i: nat :: i <= |s| && OccursAt(s, t, i)
  }

  /** No character of `s` is a character of `sep`, so `sep` cannot start inside `s`. */
  predicate AvoidsChars(s: string, sep: string) {
    forall k :: 0 <= k < |s| ==> s[k] !in sep
  }

  /** The leftmost occurrence of `sep` in `s` at or after `from`. */
  function FindFrom(s: string, sep: string, from: nat): (r: Option<nat>)
    requires from <= |s|
    ensures r.Some? ==> from <= r.value <= |s| && OccursAt(s, sep, r.value)
    ensures r.Some? ==> forall j: nat :: from <= j < r.value ==> !OccursAt(s, sep, j)
    ensures r.None? ==> forall j: nat :: from <= j <= |s| ==> !OccursAt(s, sep, j)
    decreases |s| - from
  {
    if OccursAt(s, sep, from) then Some(from)
    else if from == |s| then None
    else FindFrom(s, sep, from + 1)
  }

  /**
   * `s.split(sep)`: the pieces between the non-overlapping occurrences of `sep`
   * found left to right. There is always at least one piece.
   */
  function Split(s: string, sep: string): (parts: seq<string>)
    requires |sep| > 0
    ensures |parts| >= 1
    ensures forall k :: 0 <= k < |parts| ==> !Contains(parts[k], sep)
    ensures FindFrom(s, sep, 0).None? ==> parts == [s]
    ensures FindFrom(s, sep, 0).Some? ==> parts[0] == s[..FindFrom(s, sep, 0).value]
    decreases |s|
  {
    match FindFrom(s, sep, 0)
    case None =>
      [s]
    case Some(i) =>
      var head := s[..i];
      assert !Contains(head, sep) by {
        forall j: nat | j <= |head| && OccursAt(head, sep, j)
          ensures false
        {
          assert head[j..j + |sep|] == s[j..j + |sep|];
          assert j < i && OccursAt(s, sep, j);
        }
      }
      [head] + Split(s[i + |sep|..], sep)
  }

  /** The inverse of `Split`: the pieces with `sep` between them. */
  function Join(parts: seq<string>, sep: string): string
    requires |parts| >= 1
  {
    if |parts| == 1 then parts[0] else parts[0] + sep + Join(parts[1..], sep)
  }

  /** Where `sep` first occurs, the split cuts: the text before it, then the split of the rest. */
  lemma SplitStep(s: string, sep: string, i: nat)
    requires |sep| > 0 && FindFrom(s, sep, 0) == Some(i)
    ensures i + |sep| <= |s| && s == s[..i] + sep + s[i + |sep|..]
    ensures Split(s, sep) == [s[..i]] + Split(s[i + |sep|..], sep)
  {
    assert s[i..i + |sep|] == sep;
    assert s == s[..i] + s[i..i + |sep|] + s[i + |sep|..];
  }

  /** Joining a piece in front of a non-empty list puts the separator after it. */
  lemma JoinCons(h: string, tail: seq<string>, sep: string)
    requires |tail| >= 1
    ensures Join([h] + tail, sep) == h + sep + Join(tail, sep)
  {
    assert ([h] + tail)[1..] == tail;
  }

  /** Joining the pieces of a split gives back the original string. */
  lemma {:induction false} JoinSplit(s: string, sep: string)
    requires |sep| > 0
    ensures Join(Split(s, sep), sep) == s
    decreases |s|
  {
    match FindFrom(s, sep, 0)
    case None =>
    case Some(i) =>
      var rest := s[i + |sep|..];
      SplitStep(s, sep, i);
      JoinSplit(rest, sep);
      JoinCons(s[..i], Split(rest, sep), sep);
  }

  /** A string none of whose characters belong to `sep` splits into itself. */
  lemma SplitAvoiding(a: string, sep: string)
    requires |sep| > 0 && AvoidsChars(a, sep)
    ensures Split(a, sep) == [a]
  {
    forall j: nat | j <= |a|
      ensures !OccursAt(a, sep, j)
    {
      if j + |sep| <= |a| {
        assert a[j..j + |sep|][0] == a[j] && a[j] !in sep;
      }
    }
    assert FindFrom(a, sep, 0) == None;
  }

  /** Splitting `a + sep + b`, where `sep` cannot start inside `a`, peels off `a`. */
  lemma SplitConcat(a: string, sep: string, b: string)
    requires |sep| > 0 && AvoidsChars(a, sep)
    ensures Split(a + sep + b, sep) == [a] + Split(b, sep)
  {
    var s := a + sep + b;
    assert OccursAt(s, sep, |a|);
    forall j: nat | j < |a|
      ensures !OccursAt(s, sep, j)
    {
      assert s[j] == a[j];
    }
    assert FindFrom(s, sep, 0) == Some(|a|);
    assert s[..|a|] == a;
    assert s[|a| + |sep|..] == b;
  }

  /** Splitting the join of pieces that avoid the separator's characters gives back the pieces. */
  lemma {:induction false} SplitJoin(parts: seq<string>, sep: string)
    requires |sep| > 0 && |parts| >= 1
    requires forall k :: 0 <= k < |parts| ==> AvoidsChars(parts[k], sep)
    ensures Split(Join(parts, sep), sep) == parts
  {
    if |parts| == 1 {
      SplitAvoiding(parts[0], sep);
    } else {
      SplitConcat(parts[0], sep, Join(parts[1..], sep));
      SplitJoin(parts[1..], sep);
    }
  }

  /** A string avoids the separator's characters exactly when both halves do. */
  lemma AvoidsConcat(a: string, b: string, sep: string)
    ensures AvoidsChars(a + b, sep) <==> AvoidsChars(a, sep) && AvoidsChars(b, sep)
  {
    assert forall k :: 0 <= k < |a| ==> a[k] == (a + b)[k];
    assert forall k :: 0 <= k < |b| ==> b[k] == (a + b)[|a| + k];
  }

  /** Text without `sep`, in which no character belongs to `sep`, has no occurrence of it. */
  lemma AvoidsNotContains(s: string, sep: string)
    requires |sep| > 0 && AvoidsChars(s, sep)
    ensures !Contains(s, sep)
  {
    forall j: nat | j + |sep| <= |s|
      ensures !OccursAt(s, sep, j)
    {
      assert s[j..j + |sep|][0] == s[j];
    }
  }

  /**
   * No occurrence of `sep` starts inside `p` when `sep` follows it: in `p + sep` the
   * leftmost occurrence is the appended one, so a split cuts exactly after `p`.
   */
  predicate EndsClear(p: string, sep: string) {
    forall j: nat :: j < |p| ==> !OccursAt(p + sep, sep, j)
  }

  /**
   * For a separator that repeats one character (`|||`, `###`), a piece is clear of it when
   * it holds no occurrence and does not end with that character.
   */
  lemma UniformClear(p: string, sep: string)
    requires |sep| > 0 && forall k :: 0 <= k < |sep| ==> sep[k] == sep[0]
    requires !Contains(p, sep) && (p == [] || p[|p| - 1] != sep[0])
    ensures EndsClear(p, sep)
  {
    forall j: nat | j < |p|
      ensures !OccursAt(p + sep, sep, j)
    {
      if j + |sep| <= |p| {
        assert (p + sep)[j..j + |sep|] == p[j..j + |sep|];
        assert !OccursAt(p, sep, j);
      } else {
        var k := |p| - 1 - j;
        assert (p + sep)[j..j + |sep|][k] == p[|p| - 1];
      }
    }
  }

  /** A piece clear of `sep`, then `sep`: the split cuts right after the piece. */
  lemma SplitConcatClear(a: string, sep: string, b: string)
    requires |sep| > 0 && EndsClear(a, sep)
    ensures Split(a + sep + b, sep) == [a] + Split(b, sep)
  {
    var s := a + sep + b;
    assert OccursAt(s, sep, |a|);
    forall j: nat | j < |a|
      ensures !OccursAt(s, sep, j)
    {
      assert !OccursAt(a + sep, sep, j);
      assert s[j..j + |sep|] == (a + sep)[j..j + |sep|];
    }
    assert FindFrom(s, sep, 0) == Some(|a|);
    assert s[..|a|] == a;
    assert s[|a| + |sep|..] == b;
  }

  /** Text without `sep` is a single piece. */
  lemma SplitWhole(p: string, sep: string)
    requires |sep| > 0 && !Contains(p, sep)
    ensures Split(p, sep) == [p]
  {
    assert FindFrom(p, sep, 0).None?;
  }

  /** A piece clear of `sep` holds no occurrence of it. */
  lemma ClearNotContains(p: string, sep: string)
    requires |sep| > 0 && EndsClear(p, sep)
    ensures !Contains(p, sep)
  {
    forall j: nat | j + |sep| <= |p|
      ensures !OccursAt(p, sep, j)
    {
      assert !OccursAt(p + sep, sep, j);
      assert (p + sep)[j..j + |sep|] == p[j..j + |sep|];
    }
  }

  /** Splitting a join gives back the pieces when every piece is clear of `sep`. */
  lemma {:induction false} SplitJoinClear(parts: seq<string>, sep: string)
    requires |sep| > 0 && |parts| >= 1
    requires forall k :: 0 <= k < |parts| ==> EndsClear(parts[k], sep)
    ensures Split(Join(parts, sep), sep) == parts
  {
    if |parts| == 1 {
      ClearNotContains(parts[0], sep);
      SplitWhole(parts[0], sep);
    } else {
      SplitConcatClear(parts[0], sep, Join(parts[1..], sep));
      SplitJoinClear(parts[1..], sep);
    }
  }

  /** Joining one more piece appends the separator and the piece. */
  lemma {:induction false} JoinSnoc(parts: seq<string>, x: string, sep: string)
    requires |parts| >= 1
    ensures Join(parts + [x], sep) == Join(parts, sep) + sep + x
  {
    if |parts| == 1 {
      assert (parts + [x])[1..] == [x];
    } else {
      assert (parts + [x])[1..] == parts[1..] + [x];
      JoinSnoc(parts[1..], x, sep);
      assert Join(parts + [x], sep) == parts[0] + sep + (Join(parts[1..], sep) + sep + x);
    }
  }

  /** With `sep` after the last piece too, the split ends with an empty piece. */
  lemma SplitJoinTrailing(parts: seq<string>, sep: string)
    requires |sep| > 0 && |parts| >= 1
    requires forall k :: 0 <= k < |parts| ==> EndsClear(parts[k], sep)
    ensures Split(Join(parts, sep) + sep, sep) == parts + [""]
  {
    JoinSnoc(parts, "", sep);
    assert Join(parts, sep) + sep == Join(parts + [""], sep);
    forall k | 0 <= k < |parts + [""]|
      ensures EndsClear((parts + [""])[k], sep)
    {
      if k < |parts| {
        assert (parts + [""])[k] == parts[k];
      }
    }
    SplitJoinClear(parts + [""], sep);
  }

  /**
   * An occurrence of `sep` in `a + x + b` lies inside `a` or inside `b` when no
   * character of the non-empty middle `x` belongs to `sep`.
   */
  lemma ContainsAcross(a: string, x: string, b: string, sep: string)
    requires |sep| > 0 && |x| > 0 && AvoidsChars(x, sep)
    ensures Contains(a + x + b, sep) ==> Contains(a, sep) || Contains(b, sep)
  {
    var s := a + x + b;
    if !Contains(a, sep) && !Contains(b, sep) {
      forall j: nat | j <= |s|
        ensures !OccursAt(s, sep, j)
      {
        if j + |sep| > |s| {
        } else if j + |sep| <= |a| {
          assert s[j..j + |sep|] == a[j..j + |sep|];
          assert !OccursAt(a, sep, j);
        } else if j >= |a| + |x| {
          assert s[j..j + |sep|] == b[j - |a| - |x|..j - |a| - |x| + |sep|];
          assert !OccursAt(b, sep, j - |a| - |x|);
        } else {
          var q := if j < |a| then |a| else j;
          assert s[q] == x[q - |a|] && x[q - |a|] !in sep;
          assert s[j..j + |sep|][q - j] == s[q];
        }
      }
    }
  }

  /** `xs` are occurrences of `sep` in `s`, in order and without overlap. */
  ghost predicate DisjointOccurrences(s: string, sep: string, xs: seq<nat>) {
    && (forall k :: 0 <= k < |xs| ==> OccursAt(s, sep, xs[k]))
    && (forall j, k :: 0 <= j < k < |xs| ==> xs[j] + |sep| <= xs[k])
  }

  /**
   * Cutting at the leftmost occurrence each time finds at least as many occurrences as
   * any set of non-overlapping ones: the split has more pieces than there are of them.
   */
  lemma {:induction false} SplitCountsOccurrences(s: string, sep: string, xs: seq<nat>)
    requires |sep| > 0 && DisjointOccurrences(s, sep, xs)
    ensures |Split(s, sep)| > |xs|
    decreases |s|
  {
    if xs != [] {
      assert OccursAt(s, sep, xs[0]);
      var f := FindFrom(s, sep, 0).value;
      assert f <= xs[0];
      var d := f + |sep|;
      var later := xs[1..];
      assert forall k :: 0 <= k < |later| ==> d <= later[k] && OccursAt(s, sep, later[k]);
      assert forall j, k :: 0 <= j < k < |later| ==> later[j] + |sep| <= later[k];
      DisjointAfter(s, sep, later, d);
      SplitCountsOccurrences(s[d..], sep, ShiftDown(later, d));
      SplitStep(s, sep, f);
    }
  }

  /** Positions `xs`, counted from `d` instead of from the start. */
  function ShiftDown(xs: seq<nat>, d: nat): (ys: seq<nat>)
    requires forall k :: 0 <= k < |xs| ==> d <= xs[k]
    ensures |ys| == |xs| && forall k :: 0 <= k < |xs| ==> ys[k] == xs[k] - d
  {
    seq(|xs|, k requires 0 <= k < |xs| => (xs[k] - d) as nat)
  }

  /** Non-overlapping occurrences at or after `d` stay non-overlapping occurrences in `s[d..]`. */
  lemma DisjointAfter(s: string, sep: string, xs: seq<nat>, d: nat)
    requires d <= |s| && forall k :: 0 <= k < |xs| ==> d <= xs[k] && OccursAt(s, sep, xs[k])
    requires forall j, k :: 0 <= j < k < |xs| ==> xs[j] + |sep| <= xs[k]
    ensures DisjointOccurrences(s[d..], sep, ShiftDown(xs, d))
  {
    var ys := ShiftDown(xs, d);
    forall k | 0 <= k < |ys|
      ensures OccursAt(s[d..], sep, ys[k])
    {
      assert s[d..][ys[k]..ys[k] + |sep|] == s[xs[k]..xs[k] + |sep|];
    }
  }

  /** The join of three pieces, written out. */
  lemma JoinThree(a: string, b: string, c: string, sep: string)
    ensures Join([a, b, c], sep) == a + sep + (b + sep + c)
  {
    assert [a, b, c][1..] == [b, c] && [b, c][1..] == [c];
    assert Join([b, c], sep) == b + sep + c;
  }

  /** A join begins with its first piece and ends with its last. */
  lemma {:induction false} JoinEnds(parts: seq<string>, sep: string)
    requires |parts| >= 1
    ensures StartsWith(Join(parts, sep), parts[0])
    ensures EndsWith(Join(parts, sep), parts[|parts| - 1])
  {
    if |parts| > 1 {
      var tail := Join(parts[1..], sep);
      JoinEnds(parts[1..], sep);
      var head := parts[0] + sep;
      assert Join(parts, sep) == head + tail;
      assert (head + tail)[|head| + |tail| - |parts[|parts| - 1]|..] == tail[|tail| - |parts[|parts| - 1]|..];
    }
  }

  /** A join starts with the first character of its first piece and ends with the last character of its last. */
  lemma JoinEndChars(parts: seq<string>, sep: string)
    requires |parts| >= 1 && parts[0] != [] && parts[|parts| - 1] != []
    ensures var t := Join(parts, sep);
      t != [] && t[0] == parts[0][0] && t[|t| - 1] == parts[|parts| - 1][|parts[|parts| - 1]| - 1]
  {
    var t := Join(parts, sep);
    var last := parts[|parts| - 1];
    JoinEnds(parts, sep);
    assert t[0] == t[..|parts[0]|][0];
    assert t[|t| - 1] == t[|t| - |last|..][|last| - 1];
  }

  /** `trim_start`: drops the leading whitespace. */
  function TrimStart(s: string): (r: string)
    ensures |r| <= |s| && r == s[|s| - |r|..]
    ensures forall k :: 0 <= k < |s| - |r| ==> IsWhitespace(s[k])
    ensures r == [] || !IsWhitespace(r[0])
  {
    if s != [] && IsWhitespace(s[0]) then TrimStart(s[1..]) else s
  }

  /** `trim_end`: drops the trailing whitespace. */
  function TrimEnd(s: string): (r: string)
    ensures |r| <= |s| && r == s[..|r|]
    ensures forall k :: |r| <= k < |s| ==> IsWhitespace(s[k])
    ensures r == [] || !IsWhitespace(r[|r| - 1])
  {
    if s != [] && IsWhitespace(s[|s| - 1]) then TrimEnd(s[..|s| - 1]) else s
  }

  /** `trim`: drops leading and trailing whitespace. */
  function Trim(s: string): (t: string)
    ensures |t| <= |s|
    ensures t == [] || (!IsWhitespace(t[0]) && !IsWhitespace(t[|t| - 1]))
    ensures t == [] <==> forall k :: 0 <= k < |s| ==> IsWhitespace(s[k])
  {
    TrimEnd(TrimStart(s))
  }

  /** A string that neither starts nor ends with whitespace is its own trim. */
  lemma TrimUnchanged(s: string)
    requires s == [] || (!IsWhitespace(s[0]) && !IsWhitespace(s[|s| - 1]))
    ensures Trim(s) == s
  {
  }

  /** Text that neither starts nor ends with whitespace, with a line break after it, trims to itself. */
  lemma TrimNewline(s: string)
    requires s == [] || (!IsWhitespace(s[0]) && !IsWhitespace(s[|s| - 1]))
    ensures Trim(s + "\n") == s
  {
    var t := s + "\n";
    if s == [] {
      assert TrimStart(t) == TrimStart(t[1..]) && t[1..] == [];
    } else {
      assert t[0] == s[0];
      assert TrimStart(t) == t;
      assert t[..|t| - 1] == s;
    }
  }

  /** `t` begins with `p`. */
  predicate StartsWith(t: string, p: string) {
    |p| <= |t| && t[..|p|] == p
  }

  /** `t` ends with `p`. */
  predicate EndsWith(t: string, p: string) {
    |p| <= |t| && t[|t| - |p|..] == p
  }

  /** Every character of `s[lo..hi]` belongs to class `k`. */
  predicate AllIn(s: string, lo: nat, hi: nat, k: CharClass)
    requires lo <= hi <= |s|
  {
    forall j :: lo <= j < hi ==> InClass(s[j], k)
  }

  /** The length of the longest prefix of `t` made of class-`k` characters (a greedy `+` or `*`). */
  function Span(t: string, k: CharClass): (n: nat)
    ensures n <= |t| && AllIn(t, 0, n, k)
    ensures n == |t| || !InClass(t[n], k)
  {
    if |t| > 0 && InClass(t[0], k) then 1 + Span(t[1..], k) else 0
  }

  /** A class-`k` prefix followed by the end or by another character is the longest one. */
  lemma {:induction false} SpanExact(t: string, n: nat, k: CharClass)
    requires n <= |t| && AllIn(t, 0, n, k)
    requires n == |t| || !InClass(t[n], k)
    ensures Span(t, k) == n
  {
    if n > 0 {
      assert InClass(t[0], k);
      SpanExact(t[1..], n - 1, k);
    }
  }

  /** The span of class-`k` text `x` followed by `y` that does not continue it is `x`. */
  lemma SpanOver(x: string, y: string, k: CharClass)
    requires AllIn(x, 0, |x|, k)
    requires y == [] || !InClass(y[0], k)
    ensures Span(x + y, k) == |x|
  {
    SpanExact(x + y, |x|, k);
  }
}
