/**
 The n-gram cache, ngram-cache.h:15-58 and ngram-cache.cpp:12-52 and 261-286: for each n-gram, how
 often each token was seen after it. Tokens and counts are integers without a width; `CountBound`
 says how large a count can get.
 */
module NgramCache {

  type Token = int

  const NULL_TOKEN: Token := -1
  const NGRAM_MAX := 4

  /** `common_ngram::tokens`, a buffer of fixed size; two n-grams are equal when all of it is. */
  type Ngram = s: seq<Token> | |s| == NGRAM_MAX witness [-1, -1, -1, -1]

  type Part = map<Token, int>

  type Parts = map<Ngram, Part>

  /** The n-gram of `size` tokens from `start` on, padded; what is beyond the buffer is cut off. */
  function NgramAt(input: seq<Token>, start: int, size: nat): (g: Ngram)
    requires 0 <= start && start + size <= |input|
  {
    seq(NGRAM_MAX, i requires 0 <= i < NGRAM_MAX => if i < size then input[start + i] else NULL_TOKEN)
  }

  /** The constructor: the buffer is filled in a loop. */
  method MakeNgram(input: seq<Token>, start: nat, size: nat) returns (g: Ngram)
    requires start + size <= |input|
    ensures g == NgramAt(input, start, size)
  {
    var tokens := new Token[NGRAM_MAX](_ => NULL_TOKEN);
    for i := 0 to NGRAM_MAX
      invariant forall k :: 0 <= k < i ==> tokens[k] == NgramAt(input, start, size)[k]
    {
      tokens[i] := if i < size then input[start + i] else NULL_TOKEN;
    }
    g := tokens[..];
    assert g == NgramAt(input, start, size);
  }

  // ---- counting ----

  function Count(parts: Parts, g: Ngram, t: Token): int {
    if g in parts && t in parts[g] then parts[g][t] else 0
  }

  /** Whether the token at `i` is `t` and the `size` tokens before it make up `g`. */
  predicate OccursAt(input: seq<Token>, size: nat, i: int, g: Ngram, t: Token)
    requires i < |input|
  {
    size <= i && input[i] == t && NgramAt(input, i - size, size) == g
  }

  /** At how many positions from `lo` up to `hi` that is so. */
  ghost function Occurrences(input: seq<Token>, size: nat, lo: int, hi: int, g: Ngram, t: Token): nat
    requires hi <= |input|
    decreases hi - lo
  {
    if hi <= lo then 0
    else Occurrences(input, size, lo, hi - 1, g, t) + if OccursAt(input, size, hi - 1, g, t) then 1 else 0
  }

  /** For n-grams of the sizes from `min` up to, but not including, `end`. */
  ghost function OccurrencesOfSizes(input: seq<Token>, min: nat, end: int, lo: int, g: Ngram, t: Token): nat
    decreases end - min
  {
    if end <= min then 0
    else OccurrencesOfSizes(input, min, end - 1, lo, g, t) + Occurrences(input, end - 1, lo, |input|, g, t)
  }

  /** No entry is without counts and every count is positive. */
  ghost predicate Tidy(parts: Parts) {
    forall g :: g in parts ==> (exists t :: t in parts[g]) && forall t :: t in parts[g] ==> parts[g][t] > 0
  }

  /** The cache counts just what there is in `input`. */
  ghost predicate Counts(parts: Parts, input: seq<Token>, min: nat, max: int) {
    Tidy(parts) && forall g: Ngram, t: Token :: Count(parts, g, t) == OccurrencesOfSizes(input, min, max + 1, 0, g, t)
  }

  /** A cache is nothing but its counts. */
  lemma SameCountsSame(a: Parts, b: Parts)
    requires Tidy(a) && Tidy(b) && forall g: Ngram, t: Token :: Count(a, g, t) == Count(b, g, t)
    ensures a == b
  {
    SameCountsWithin(a, b);
    SameCountsWithin(b, a);
    forall g | g in a
      ensures a[g] == b[g]
    {
      forall t: Token
        ensures t in a[g] <==> t in b[g]
        ensures t in a[g] ==> a[g][t] == b[g][t]
      {
        assert Count(a, g, t) == Count(b, g, t);
      }
    }
  }

  lemma SameCountsWithin(a: Parts, b: Parts)
    requires Tidy(a) && Tidy(b) && forall g: Ngram, t: Token :: Count(a, g, t) == Count(b, g, t)
    ensures forall g :: g in a ==> g in b
  {
    forall g | g in a
      ensures g in b
    {
      var t :| t in a[g];
      assert Count(a, g, t) > 0 && Count(b, g, t) > 0;
    }
  }

  function Bump(parts: Parts, g: Ngram, t: Token): Parts {
    parts[g := if g !in parts then map[t := 1]
               else if t !in parts[g] then parts[g][t := 1]
               else parts[g][t := parts[g][t] + 1]]
  }

  lemma BumpCounts(parts: Parts, g: Ngram, t: Token, h: Ngram, u: Token)
    ensures Count(Bump(parts, g, t), h, u) == Count(parts, h, u) + if h == g && u == t then 1 else 0
  {
  }

  lemma BumpTidy(parts: Parts, g: Ngram, t: Token)
    requires Tidy(parts)
    ensures Tidy(Bump(parts, g, t))
  {
    assert t in Bump(parts, g, t)[g];
  }

  /** Every count has grown by its occurrences: all of the sizes below `size`, and up to `i` for `size`. */
  ghost predicate Tallied(before: Parts, parts: Parts, input: seq<Token>, min: nat, size: nat, lo: int, i: int)
    requires i <= |input|
  {
    forall g: Ngram, t: Token ::
      Count(parts, g, t)
      == Count(before, g, t) + OccurrencesOfSizes(input, min, size, lo, g, t) + Occurrences(input, size, lo, i, g, t)
  }

  lemma TallyOne(before: Parts, parts: Parts, input: seq<Token>, min: nat, size: nat, lo: int, i: int)
    requires size <= i < |input| && lo <= i
    requires Tallied(before, parts, input, min, size, lo, i)
    ensures Tallied(before, Bump(parts, NgramAt(input, i - size, size), input[i]), input, min, size, lo, i + 1)
  {
    hide Count, Bump, OccurrencesOfSizes;
    var after := Bump(parts, NgramAt(input, i - size, size), input[i]);
    forall g: Ngram, t: Token
      ensures Count(after, g, t)
              == Count(before, g, t) + OccurrencesOfSizes(input, min, size, lo, g, t) + Occurrences(input, size, lo, i + 1, g, t)
    {
      BumpCounts(parts, NgramAt(input, i - size, size), input[i], g, t);
    }
  }

  /** Positions with too few tokens before them do not count. */
  lemma {:induction false} TooShort(input: seq<Token>, size: nat, lo: int, hi: int, g: Ngram, t: Token)
    requires hi <= |input| && hi <= size
    ensures Occurrences(input, size, lo, hi, g, t) == 0
    decreases hi - lo
  {
    if hi > lo {
      TooShort(input, size, lo, hi - 1, g, t);
    }
  }

  /** The loop over positions starts where `lo` says, or where there are enough tokens before. */
  lemma TallyStart(before: Parts, parts: Parts, input: seq<Token>, min: nat, size: nat, lo: int, from: int)
    requires from <= |input| && (from <= lo || from <= size)
    requires TalliedSizes(before, parts, input, min, size, lo)
    ensures Tallied(before, parts, input, min, size, lo, from)
  {
    hide Count, OccurrencesOfSizes;
    forall g: Ngram, t: Token
      ensures Occurrences(input, size, lo, from, g, t) == 0
    {
      if from <= size {
        TooShort(input, size, lo, from, g, t);
      }
    }
  }

  lemma TallySize(before: Parts, parts: Parts, input: seq<Token>, min: nat, size: nat, lo: int)
    requires min <= size && Tallied(before, parts, input, min, size, lo, |input|)
    ensures TalliedSizes(before, parts, input, min, size + 1, lo)
  {
    hide Count, Occurrences;
  }

  /** All the sizes below `size` are done. */
  ghost predicate TalliedSizes(before: Parts, parts: Parts, input: seq<Token>, min: nat, size: int, lo: int) {
    forall g: Ngram, t: Token ::
      Count(parts, g, t) == Count(before, g, t) + OccurrencesOfSizes(input, min, size, lo, g, t)
  }

  // ---- appending ----

  lemma {:induction false} SplitOccurrences(input: seq<Token>, size: nat, lo: int, mid: int, hi: int, g: Ngram, t: Token)
    requires lo <= mid <= hi <= |input|
    ensures Occurrences(input, size, lo, hi, g, t)
            == Occurrences(input, size, lo, mid, g, t) + Occurrences(input, size, mid, hi, g, t)
    decreases hi - mid
  {
    if hi > mid {
      SplitOccurrences(input, size, lo, mid, hi - 1, g, t);
    }
  }

  /** What comes later does not change what was counted. */
  lemma {:induction false} PrefixOccurrences(input: seq<Token>, n: nat, size: nat, lo: int, hi: int, g: Ngram, t: Token)
    requires hi <= n <= |input|
    ensures Occurrences(input, size, lo, hi, g, t) == Occurrences(input[..n], size, lo, hi, g, t)
    decreases hi - lo
  {
    if hi > lo {
      PrefixOccurrences(input, n, size, lo, hi - 1, g, t);
      if 0 <= size <= hi - 1 {
        assert NgramAt(input, hi - 1 - size, size) == NgramAt(input[..n], hi - 1 - size, size);
      }
    }
  }

  lemma {:induction false} AppendOccurrences(input: seq<Token>, n: nat, min: nat, end: int, g: Ngram, t: Token)
    requires n <= |input|
    ensures OccurrencesOfSizes(input, min, end, 0, g, t)
            == OccurrencesOfSizes(input[..n], min, end, 0, g, t) + OccurrencesOfSizes(input, min, end, n, g, t)
    decreases end - min
  {
    if end > min {
      AppendOccurrences(input, n, min, end - 1, g, t);
      SplitOccurrences(input, end - 1, 0, n, |input|, g, t);
      PrefixOccurrences(input, n, end - 1, 0, n, g, t);
    }
  }

  /** Counting what was appended, on top of a cache that was right, makes it right again. */
  lemma AppendKeepsCounts(before: Parts, parts: Parts, input: seq<Token>, n: nat, min: nat, max: int)
    requires n <= |input| && Counts(before, input[..n], min, max) && Tidy(parts)
    requires TalliedSizes(before, parts, input, min, max + 1, n)
    ensures Counts(parts, input, min, max)
  {
    hide Count, Tidy, OccurrencesOfSizes;
    forall g: Ngram, t: Token
      ensures Count(parts, g, t) == OccurrencesOfSizes(input, min, max + 1, 0, g, t)
    {
      AppendOccurrences(input, n, min, max + 1, g, t);
    }
  }

  lemma {:induction false} OccurrencesBound(input: seq<Token>, size: nat, lo: int, hi: int, g: Ngram, t: Token)
    requires 0 <= lo && hi <= |input|
    ensures Occurrences(input, size, lo, hi, g, t) <= if lo < hi then hi - lo else 0
    decreases hi - lo
  {
    if lo < hi {
      OccurrencesBound(input, size, lo, hi - 1, g, t);
    }
  }

  /** No count is more than the tokens there are, once for each size. */
  lemma {:induction false} CountBound(input: seq<Token>, min: nat, end: nat, g: Ngram, t: Token)
    requires min <= end
    ensures OccurrencesOfSizes(input, min, end, 0, g, t) <= |input| * (end - min)
    decreases end
  {
    if min < end {
      CountBound(input, min, end - 1, g, t);
      OccurrencesBound(input, end - 1, 0, |input|, g, t);
      assert |input| * (end - min) == |input| * (end - 1 - min) + |input|;
    }
  }

  /** How many tokens of a padded n-gram are real. */
  function SizeOf(g: Ngram): (n: nat)
    ensures n <= NGRAM_MAX
  {
    if g[0] == NULL_TOKEN then 0 else if g[1] == NULL_TOKEN then 1
    else if g[2] == NULL_TOKEN then 2 else if g[3] == NULL_TOKEN then 3 else 4
  }

  lemma {:induction false} OtherSizes(input: seq<Token>, size: nat, lo: int, hi: int, g: Ngram, t: Token)
    requires NULL_TOKEN !in input && size <= NGRAM_MAX && size != SizeOf(g) && hi <= |input|
    ensures Occurrences(input, size, lo, hi, g, t) == 0
    decreases hi - lo
  {
    if hi > lo {
      OtherSizes(input, size, lo, hi - 1, g, t);
      if 0 <= size <= hi - 1 {
        var h := NgramAt(input, hi - 1 - size, size);
        assert forall k :: 0 <= k < NGRAM_MAX ==> h[k] == if k < size then input[hi - 1 - size + k] else NULL_TOKEN;
        assert SizeOf(h) == size;
      }
    }
  }

  /**
   While the null token is not among the tokens, sizes never mix: a count is the number of positions
   where just this n-gram comes before just this token.
   */
  lemma {:induction false} SizesApart(input: seq<Token>, min: nat, end: int, g: Ngram, t: Token)
    requires NULL_TOKEN !in input && end <= NGRAM_MAX + 1
    ensures OccurrencesOfSizes(input, min, end, 0, g, t)
            == if min <= SizeOf(g) < end then Occurrences(input, SizeOf(g), 0, |input|, g, t) else 0
    decreases end - min
  {
    if end > min {
      SizesApart(input, min, end - 1, g, t);
      if end - 1 != SizeOf(g) {
        OtherSizes(input, end - 1, 0, |input|, g, t);
      }
    }
  }

  /** At `i` comes `t`, right after the tokens of `gram`. */
  predicate There(input: seq<Token>, i: int, gram: seq<Token>, t: Token)
    requires i < |input|
  {
    |gram| <= i && input[i - |gram|..i] == gram && input[i] == t
  }

  /** The places below `hi` where that is so. */
  ghost function Places(input: seq<Token>, hi: int, gram: seq<Token>, t: Token): set<int>
    requires hi <= |input|
  {
    set i | 0 <= i < hi && There(input, i, gram, t)
  }

  /** `g` is `gram`, padded to four tokens. */
  predicate Padded(gram: seq<Token>, g: Ngram) {
    |gram| <= 4 && forall k :: 0 <= k < 4 ==> g[k] == if k < |gram| then gram[k] else -1
  }

  lemma OnePlaceMore(input: seq<Token>, hi: int, gram: seq<Token>, t: Token)
    requires 0 < hi <= |input|
    ensures |Places(input, hi, gram, t)| == |Places(input, hi - 1, gram, t)| + if There(input, hi - 1, gram, t) then 1 else 0
  {
    hide There;
    var here := if There(input, hi - 1, gram, t) then {hi - 1} else {};
    assert Places(input, hi, gram, t) == Places(input, hi - 1, gram, t) + here;
  }

  lemma {:induction false} OccurrencesArePlaces(input: seq<Token>, hi: int, gram: seq<Token>, g: Ngram, t: Token)
    requires hi <= |input| && Padded(gram, g)
    ensures Occurrences(input, |gram|, 0, hi, g, t) == |Places(input, hi, gram, t)|
    decreases hi
  {
    hide OccursAt, Padded, There;
    if hi <= 0 {
      assert Places(input, hi, gram, t) == {};
    } else {
      OccurrencesArePlaces(input, hi - 1, gram, g, t);
      OccursIffThere(input, hi - 1, gram, g, t);
      OnePlaceMore(input, hi, gram, t);
    }
  }

  lemma OccursIffThere(input: seq<Token>, i: int, gram: seq<Token>, g: Ngram, t: Token)
    requires 0 <= i < |input| && Padded(gram, g)
    ensures OccursAt(input, |gram|, i, g, t) <==> There(input, i, gram, t)
  {
    var n := |gram|;
    if n <= i {
      var h := NgramAt(input, i - n, n);
      if h == g {
        forall k | 0 <= k < n
          ensures input[i - n..i][k] == gram[k]
        {
          assert h[k] == g[k];
        }
      }
      if input[i - n..i] == gram {
        forall k | 0 <= k < 4
          ensures h[k] == g[k]
        {
          assert k < n ==> input[i - n..i][k] == gram[k];
        }
      }
    }
  }

  /** What a cache counts: the places where the token comes right after the n-gram, for sizes from `min` to `max`. */
  lemma CountsPlaces(parts: Parts, input: seq<Token>, min: nat, max: int, gram: seq<Token>, g: Ngram, t: Token)
    requires Counts(parts, input, min, max) && max <= 4
    requires -1 !in input && -1 !in gram && Padded(gram, g)
    ensures (if g in parts && t in parts[g] then parts[g][t] else 0)
            == if min <= |gram| <= max then |Places(input, |input|, gram, t)| else 0
  {
    hide Tidy;
    SizesApart(input, min, max + 1, g, t);
    assert forall k :: 0 <= k < |gram| ==> g[k] == gram[k] && gram[k] in gram;
    assert SizeOf(g) == |gram|;
    assert Count(parts, g, t) == OccurrencesOfSizes(input, min, max + 1, 0, g, t);
    OccurrencesArePlaces(input, |input|, gram, g, t);
  }

  // ---- merging ----

  function MergePart(a: Part, b: Part): Part {
    map t | t in a.Keys + b.Keys :: (if t in a then a[t] else 0) + (if t in b then b[t] else 0)
  }

  function Merge(a: Parts, b: Parts): Parts {
    map g | g in a.Keys + b.Keys :: if g !in a then b[g] else if g !in b then a[g] else MergePart(a[g], b[g])
  }

  /** Merging gives the sums of the counts. */
  lemma MergeCounts(a: Parts, b: Parts, g: Ngram, t: Token)
    ensures Count(Merge(a, b), g, t) == Count(a, g, t) + Count(b, g, t)
  {
  }

  lemma MergeTidy(a: Parts, b: Parts)
    requires Tidy(a) && Tidy(b)
    ensures Tidy(Merge(a, b))
  {
    forall g | g in a && g in b
      ensures exists t :: t in MergePart(a[g], b[g])
    {
      var t :| t in a[g];
      assert t in MergePart(a[g], b[g]);
    }
  }

  /** The order of merges does not matter. */
  lemma MergeCommutes(a: Parts, b: Parts)
    ensures Merge(a, b) == Merge(b, a)
  {
    forall g | g in a && g in b
      ensures MergePart(a[g], b[g]) == MergePart(b[g], a[g])
    {
    }
  }

  lemma MergeAssociates(a: Parts, b: Parts, c: Parts)
    ensures Merge(Merge(a, b), c) == Merge(a, Merge(b, c))
  {
    hide MergePart, Merge;
    var left, right := Merge(Merge(a, b), c), Merge(a, Merge(b, c));
    forall g: Ngram
      ensures g in left <==> g in right
      ensures g in left ==> left[g] == right[g]
    {
      MergeAt(a, b, g);
      MergeAt(b, c, g);
      MergeAt(Merge(a, b), c, g);
      MergeAt(a, Merge(b, c), g);
      if g in a && g in b && g in c {
        PartAssociates(a[g], b[g], c[g]);
      }
    }
  }

  lemma MergeAt(a: Parts, b: Parts, g: Ngram)
    ensures g in Merge(a, b) <==> g in a || g in b
    ensures g in a && g !in b ==> Merge(a, b)[g] == a[g]
    ensures g !in a && g in b ==> Merge(a, b)[g] == b[g]
    ensures g in a && g in b ==> Merge(a, b)[g] == MergePart(a[g], b[g])
  {
  }

  lemma PartAssociates(a: Part, b: Part, c: Part)
    ensures MergePart(MergePart(a, b), c) == MergePart(a, MergePart(b, c))
  {
  }

  /** Merged caches of two streams count what there is in both. */
  lemma {:induction false} MergeOfStreams(a: Parts, b: Parts, x: seq<Token>, y: seq<Token>, min: nat, max: int, g: Ngram, t: Token)
    requires Counts(a, x, min, max) && Counts(b, y, min, max)
    ensures Count(Merge(a, b), g, t)
            == OccurrencesOfSizes(x, min, max + 1, 0, g, t) + OccurrencesOfSizes(y, min, max + 1, 0, g, t)
  {
    hide Merge, OccurrencesOfSizes, Tidy;
    MergeCounts(a, b, g, t);
  }
}
