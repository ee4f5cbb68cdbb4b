/**
 `common_lcs`, common.cpp:1467-1514. The comments there speak of the longest common subsequence; what
 the code computes is the longest common run of neighbouring tokens, and that is what is stated here,
 together with how far the two are apart.
 */
module Lcs {

  /** The first `i` and `j` tokens end in a common run of `n`. */
  ghost predicate EndsInRun(a: seq<int>, b: seq<int>, i: nat, j: nat, n: nat) {
    n <= i <= |a| && n <= j <= |b| && a[i - n..i] == b[j - n..j]
  }

  /** There is a run of `n` tokens in both. */
  ghost predicate CommonRun(a: seq<int>, b: seq<int>, n: nat) {
    exists i: nat, j: nat :: EndsInRun(a, b, i, j, n)
  }

  /** `n` is the length of the longest common run. */
  ghost predicate IsLongest(a: seq<int>, b: seq<int>, n: nat) {
    CommonRun(a, b, n) && forall m: nat :: CommonRun(a, b, m) ==> m <= n
  }

  /** The full two-dimensional recurrence. */
  function Cell(a: seq<int>, b: seq<int>, i: nat, j: nat): nat
    requires i <= |a| && j <= |b|
  {
    if i == 0 || j == 0 || a[i - 1] != b[j - 1] then 0 else Cell(a, b, i - 1, j - 1) + 1
  }

  /** A cell holds the length of the longest common run that ends there. */
  lemma {:induction false} CellIsRun(a: seq<int>, b: seq<int>, i: nat, j: nat, n: nat)
    requires i <= |a| && j <= |b|
    ensures EndsInRun(a, b, i, j, n) <==> n <= Cell(a, b, i, j)
    decreases i
  {
    if n == 0 {
      assert a[i..i] == b[j..j];
    } else if i > 0 && j > 0 {
      CellIsRun(a, b, i - 1, j - 1, n - 1);
      if n <= i && n <= j {
        var x, y := a[i - n..i], b[j - n..j];
        assert x == a[i - n..i - 1] + [a[i - 1]] && y == b[j - n..j - 1] + [b[j - 1]];
        assert x[n - 1] == a[i - 1] && y[n - 1] == b[j - 1];
        assert x[..n - 1] == a[i - n..i - 1] && y[..n - 1] == b[j - n..j - 1];
      }
    }
  }

  /** The greatest cell so far: the rows before `i`, and of row `i` the columns up to `j`. */
  ghost predicate IsGreatest(a: seq<int>, b: seq<int>, i: nat, j: nat, n: nat)
    requires i <= |a| && j <= |b|
  {
    && (forall k: nat, l: nat :: Before(a, b, k, l, i, j) ==> Cell(a, b, k, l) <= n)
    && exists k: nat, l: nat :: Before(a, b, k, l, i, j) && Cell(a, b, k, l) == n
  }

  ghost predicate Before(a: seq<int>, b: seq<int>, k: nat, l: nat, i: nat, j: nat) {
    k <= |a| && l <= |b| && (k < i || (k == i && l <= j))
  }

  method CommonLcs(a: seq<int>, b: seq<int>) returns (maxLength: nat)
    ensures IsLongest(a, b, maxLength)
    ensures a != [] && b != [] ==> IsGreatest(a, b, |a|, |b|, maxLength)
  {
    if a == [] || b == [] {
      OnlyEmptyRuns(a, b);
      return 0;
    }
    maxLength := 0;
    var prevRow := new nat[|b| + 1](_ => 0);
    var currRow := new nat[|b| + 1](_ => 0);
    assert Before(a, b, 0, |b|, 0, |b|) && Cell(a, b, 0, |b|) == 0;
    for i := 1 to |a| + 1
      invariant fresh(prevRow) && fresh(currRow) && prevRow != currRow
      invariant prevRow.Length == currRow.Length == |b| + 1 && currRow[0] == 0
      invariant forall j :: 0 <= j <= |b| ==> prevRow[j] == Cell(a, b, i - 1, j)
      invariant IsGreatest(a, b, i - 1, |b|, maxLength)
    {
      NextRow(a, b, i, maxLength);
      for j := 1 to |b| + 1
        invariant currRow[0] == 0
        invariant forall k :: 0 <= k < j ==> currRow[k] == Cell(a, b, i, k)
        invariant forall k :: 0 <= k <= |b| ==> prevRow[k] == Cell(a, b, i - 1, k)
        invariant IsGreatest(a, b, i, j - 1, maxLength)
      {
        if a[i - 1] == b[j - 1] {
          if i == 1 || j == 1 {
            currRow[j] := 1;
          } else {
            currRow[j] := prevRow[j - 1] + 1;
          }
          NextColumn(a, b, i, j, maxLength);
          if currRow[j] > maxLength {
            maxLength := currRow[j];
          }
        } else {
          NextColumn(a, b, i, j, maxLength);
          currRow[j] := 0;
        }
      }
      forall k | 0 <= k <= |b| {
        prevRow[k] := currRow[k];
      }
    }
    GreatestIsLongest(a, b, maxLength);
  }

  lemma NextRow(a: seq<int>, b: seq<int>, i: nat, n: nat)
    requires 0 < i <= |a| && IsGreatest(a, b, i - 1, |b|, n)
    ensures IsGreatest(a, b, i, 0, n)
  {
    forall k: nat, l: nat | Before(a, b, k, l, i, 0)
      ensures Cell(a, b, k, l) <= n
    {
      assert k < i ==> Before(a, b, k, l, i - 1, |b|);
    }
    var k, l :| Before(a, b, k, l, i - 1, |b|) && Cell(a, b, k, l) == n;
    assert Before(a, b, k, l, i, 0);
  }

  lemma {:induction false} NextColumn(a: seq<int>, b: seq<int>, i: nat, j: nat, n: nat)
    requires 0 < i <= |a| && 0 < j <= |b| && IsGreatest(a, b, i, j - 1, n)
    ensures IsGreatest(a, b, i, j, if Cell(a, b, i, j) > n then Cell(a, b, i, j) else n)
  {
    var m := if Cell(a, b, i, j) > n then Cell(a, b, i, j) else n;
    forall k: nat, l: nat | Before(a, b, k, l, i, j)
      ensures Cell(a, b, k, l) <= m
    {
      assert k < i || l < j ==> Before(a, b, k, l, i, j - 1);
    }
    assert Before(a, b, i, j, i, j);
    var k, l :| Before(a, b, k, l, i, j - 1) && Cell(a, b, k, l) == n;
    assert Before(a, b, k, l, i, j);
  }

  lemma OnlyEmptyRuns(a: seq<int>, b: seq<int>)
    requires a == [] || b == []
    ensures IsLongest(a, b, 0)
  {
    assert EndsInRun(a, b, 0, 0, 0);
  }

  /** The greatest cell is the length of the longest run anywhere. */
  lemma GreatestIsLongest(a: seq<int>, b: seq<int>, n: nat)
    requires IsGreatest(a, b, |a|, |b|, n)
    ensures IsLongest(a, b, n)
  {
    var k, l :| Before(a, b, k, l, |a|, |b|) && Cell(a, b, k, l) == n;
    CellIsRun(a, b, k, l, n);
    forall m: nat | CommonRun(a, b, m)
      ensures m <= n
    {
      var i, j :| EndsInRun(a, b, i, j, m);
      CellIsRun(a, b, i, j, m);
      assert Before(a, b, i, j, |a|, |b|);
    }
  }

  /** The two arguments can change places. */
  lemma Symmetric(a: seq<int>, b: seq<int>, n: nat)
    requires IsLongest(a, b, n)
    ensures IsLongest(b, a, n)
  {
    forall m: nat
      ensures CommonRun(a, b, m) <==> CommonRun(b, a, m)
    {
      if CommonRun(a, b, m) {
        var i, j :| EndsInRun(a, b, i, j, m);
        assert EndsInRun(b, a, j, i, m);
      }
      if CommonRun(b, a, m) {
        var i, j :| EndsInRun(b, a, i, j, m);
        assert EndsInRun(a, b, j, i, m);
      }
    }
  }

  // ----- The longest common subsequence, which is something else

  /** `s` can be had from `a` by leaving tokens out. */
  predicate Subsequence(s: seq<int>, a: seq<int>) {
    if s == [] then true
    else if a == [] then false
    else (s[0] == a[0] && Subsequence(s[1..], a[1..])) || Subsequence(s, a[1..])
  }

  ghost predicate CommonSubsequence(a: seq<int>, b: seq<int>, s: seq<int>) {
    Subsequence(s, a) && Subsequence(s, b)
  }

  /** `n` is the length of the longest common subsequence. */
  ghost predicate IsLongestSubsequence(a: seq<int>, b: seq<int>, n: nat) {
    && (exists s :: CommonSubsequence(a, b, s) && |s| == n)
    && forall s :: CommonSubsequence(a, b, s) ==> |s| <= n
  }

  /** The length the comments speak of, by the usual recurrence. */
  function LongestOf(a: seq<int>, b: seq<int>): nat
    decreases |a| + |b|
  {
    if a == [] || b == [] then 0
    else if a[0] == b[0] then LongestOf(a[1..], b[1..]) + 1
    else
      var x, y := LongestOf(a[1..], b), LongestOf(a, b[1..]);
      if x > y then x else y
  }

  /** A subsequence without its first token needs the first token of the text no more. */
  lemma {:induction false} DropBoth(s: seq<int>, a: seq<int>)
    requires s != [] && Subsequence(s, a)
    ensures a != [] && Subsequence(s[1..], a[1..])
    decreases |a|
  {
    if !(s[0] == a[0] && Subsequence(s[1..], a[1..])) {
      DropBoth(s, a[1..]);
    }
  }

  lemma {:induction false} SomeOfThatLength(a: seq<int>, b: seq<int>) returns (s: seq<int>)
    ensures CommonSubsequence(a, b, s) && |s| == LongestOf(a, b)
    decreases |a| + |b|
  {
    if a == [] || b == [] {
      s := [];
    } else if a[0] == b[0] {
      var rest := SomeOfThatLength(a[1..], b[1..]);
      s := [a[0]] + rest;
      assert s[1..] == rest;
    } else if LongestOf(a[1..], b) > LongestOf(a, b[1..]) {
      s := SomeOfThatLength(a[1..], b);
    } else {
      s := SomeOfThatLength(a, b[1..]);
    }
  }

  lemma {:induction false} NoneLonger(a: seq<int>, b: seq<int>, s: seq<int>)
    requires CommonSubsequence(a, b, s)
    ensures |s| <= LongestOf(a, b)
    decreases |a| + |b|
  {
    if s != [] {
      if a[0] == b[0] {
        DropBoth(s, a);
        DropBoth(s, b);
        NoneLonger(a[1..], b[1..], s[1..]);
      } else if s[0] != a[0] {
        NoneLonger(a[1..], b, s);
      } else {
        NoneLonger(a, b[1..], s);
      }
    }
  }

  /** The recurrence gives the length of the longest common subsequence. */
  lemma {:induction false} LongestOfIsLongest(a: seq<int>, b: seq<int>)
    ensures IsLongestSubsequence(a, b, LongestOf(a, b))
  {
    hide Subsequence;
    var s := SomeOfThatLength(a, b);
    forall t | CommonSubsequence(a, b, t)
      ensures |t| <= LongestOf(a, b)
    {
      NoneLonger(a, b, t);
    }
  }

  lemma {:induction false} SubsequenceLonger(s: seq<int>, a: seq<int>, before: seq<int>)
    requires Subsequence(s, a)
    ensures Subsequence(s, before + a)
    decreases |before|
  {
    if before == [] {
      assert before + a == a;
    } else {
      SubsequenceLonger(s, a, before[1..]);
      assert (before + a)[1..] == before[1..] + a;
    }
  }

  lemma {:induction false} PrefixIsSubsequence(s: seq<int>, rest: seq<int>)
    ensures Subsequence(s, s + rest)
  {
    if s != [] {
      PrefixIsSubsequence(s[1..], rest);
      assert (s + rest)[1..] == s[1..] + rest;
    }
  }

  lemma {:induction false} RunIsSubsequence(a: seq<int>, i: nat, n: nat)
    requires n <= i <= |a|
    ensures Subsequence(a[i - n..i], a)
  {
    PrefixIsSubsequence(a[i - n..i], a[i..]);
    SubsequenceLonger(a[i - n..i], a[i - n..i] + a[i..], a[..i - n]);
    assert a == a[..i - n] + (a[i - n..i] + a[i..]);
  }

  lemma RunIsCommon(a: seq<int>, b: seq<int>, i: nat, j: nat, n: nat)
    requires EndsInRun(a, b, i, j, n)
    ensures CommonSubsequence(a, b, a[i - n..i])
  {
    RunIsSubsequence(a, i, n);
    RunIsSubsequence(b, j, n);
  }

  /** What the code computes is never more than the length of the longest common subsequence. */
  lemma {:induction false} RunAgainstSubsequence(a: seq<int>, b: seq<int>, run: nat)
    requires IsLongest(a, b, run)
    ensures run <= LongestOf(a, b)
  {
    hide Subsequence;
    var i: nat, j: nat :| EndsInRun(a, b, i, j, run);
    RunIsCommon(a, b, i, j, run);
    NoneLonger(a, b, a[i - run..i]);
  }

  /** The numbers up to `n`, with `x` behind each of them. */
  function Spaced(n: nat, x: int): (r: seq<int>)
    ensures |r| == 2 * n && forall k :: 0 <= k < n ==> r[2 * k] == k + 1 && r[2 * k + 1] == x
  {
    if n == 0 then [] else Spaced(n - 1, x) + [n, x]
  }

  function Numbers(n: nat): (r: seq<int>)
    ensures |r| == n
  {
    if n == 0 then [] else Numbers(n - 1) + [n]
  }

  lemma {:induction false} SubsequenceBoth(s: seq<int>, a: seq<int>, c: int, x: int)
    requires Subsequence(s, a)
    ensures Subsequence(s + [c], a + [c, x])
    decreases |a|
  {
    if a == [] {
      assert s + [c] == [c] && a + [c, x] == [c, x] && [c][1..] == [];
    } else {
      var t, w := s + [c], a + [c, x];
      assert w[1..] == a[1..] + [c, x] && w[0] == a[0];
      if s == [] || !(s[0] == a[0] && Subsequence(s[1..], a[1..])) {
        SubsequenceBoth(s, a[1..], c, x);
      } else {
        SubsequenceBoth(s[1..], a[1..], c, x);
        assert t[1..] == s[1..] + [c] && t[0] == s[0];
      }
    }
  }

  lemma {:induction false} NumbersInSpaced(n: nat, x: int)
    ensures Subsequence(Numbers(n), Spaced(n, x))
  {
    if n > 0 {
      NumbersInSpaced(n - 1, x);
      SubsequenceBoth(Numbers(n - 1), Spaced(n - 1, x), n, x);
    }
  }

  lemma {:induction false} SpacedAt(n: nat, x: int, k: nat)
    requires k < 2 * n
    ensures Spaced(n, x)[k] == if k % 2 == 0 then k / 2 + 1 else x
  {
    assert Spaced(n, x)[2 * (k / 2)] == k / 2 + 1 && Spaced(n, x)[2 * (k / 2) + 1] == x;
  }

  /** Of two neighbours in the one text, one is not in the other. */
  lemma {:induction false} SpacedApart(n: nat, i: nat, j: nat)
    requires 2 <= i <= 2 * n && 2 <= j <= 2 * n
    ensures Spaced(n, -1)[i - 1] != Spaced(n, -2)[j - 1] || Spaced(n, -1)[i - 2] != Spaced(n, -2)[j - 2]
  {
    SpacedAt(n, -1, i - 1);
    SpacedAt(n, -1, i - 2);
    SpacedAt(n, -2, j - 1);
    SpacedAt(n, -2, j - 2);
  }

  lemma LastTwo(a: seq<int>, b: seq<int>, i: nat, j: nat, m: nat)
    requires EndsInRun(a, b, i, j, m) && m >= 2
    ensures a[i - 1] == b[j - 1] && a[i - 2] == b[j - 2]
  {
    var x, y := a[i - m..i], b[j - m..j];
    assert x[m - 1] == a[i - 1] && x[m - 2] == a[i - 2] && y[m - 1] == b[j - 1] && y[m - 2] == b[j - 2];
  }

  lemma {:induction false} ShortRuns(n: nat, i: nat, j: nat, m: nat)
    requires EndsInRun(Spaced(n, -1), Spaced(n, -2), i, j, m)
    ensures m <= 1
  {
    if m > 1 {
      SpacedApart(n, i, j);
      LastTwo(Spaced(n, -1), Spaced(n, -2), i, j, m);
    }
  }

  /** There is no bound on how far the two are apart: a run of one token against a subsequence of any length. */
  lemma {:induction false} RunFallsBehind(n: nat)
    requires n > 0
    ensures IsLongest(Spaced(n, -1), Spaced(n, -2), 1) && LongestOf(Spaced(n, -1), Spaced(n, -2)) >= n
  {
    var a, b := Spaced(n, -1), Spaced(n, -2);
    SpacedAt(n, -1, 0);
    SpacedAt(n, -2, 0);
    assert a[0..1] == [1] && b[0..1] == [1];
    assert EndsInRun(a, b, 1, 1, 1);
    forall m: nat | CommonRun(a, b, m)
      ensures m <= 1
    {
      var i: nat, j: nat :| EndsInRun(a, b, i, j, m);
      ShortRuns(n, i, j, m);
    }
    NumbersInSpaced(n, -1);
    NumbersInSpaced(n, -2);
    NoneLonger(a, b, Numbers(n));
  }

  /** The two differ: of these, one has the whole other as a subsequence, but no two tokens together. */
  lemma RunIsShorter()
    ensures IsLongest([1, 2, 3], [1, 3], 1) && IsLongestSubsequence([1, 2, 3], [1, 3], 2)
  {
    var a, b := [1, 2, 3], [1, 3];
    assert EndsInRun(a, b, 1, 1, 1) by {
      assert a[0..1] == [1] && b[0..1] == [1];
    }
    forall n: nat | CommonRun(a, b, n)
      ensures n <= 1
    {
      var i: nat, j: nat :| EndsInRun(a, b, i, j, n);
      CellIsRun(a, b, i, j, n);
      SmallCells(i, j);
    }
    assert b[1..] == [3] && b[1..][1..] == [] && a[1..] == [2, 3] && a[1..][1..] == [3] && a[1..][1..][1..] == [];
    assert Subsequence([3], a[1..][1..]) && Subsequence([3], a[1..]) && Subsequence(b, a);
    assert Subsequence([3], b[1..]) && Subsequence(b, b);
    assert CommonSubsequence(a, b, b);
    forall s | CommonSubsequence(a, b, s)
      ensures |s| <= 2
    {
      SubsequenceLength(s, b);
    }
  }

  lemma {:induction false} SmallCells(i: nat, j: nat)
    requires i <= 3 && j <= 2
    ensures Cell([1, 2, 3], [1, 3], i, j) <= 1
  {
    if i > 0 && j > 0 {
      assert Cell([1, 2, 3], [1, 3], i - 1, j - 1) > 0 ==> i == 2 && j == 2;
    }
  }

  lemma {:induction false} SubsequenceLength(s: seq<int>, a: seq<int>)
    requires Subsequence(s, a)
    ensures |s| <= |a|
    decreases |a|
  {
    if s != [] {
      if s[0] == a[0] && Subsequence(s[1..], a[1..]) {
        SubsequenceLength(s[1..], a[1..]);
      } else {
        SubsequenceLength(s, a[1..]);
      }
    }
  }
}
