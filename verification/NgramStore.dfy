/**
 The cache object and the two operations that change it: `common_ngram_cache_update` and
 `common_ngram_cache_merge`, ngram-cache.cpp:12-52 and 261-286.
 */
module NgramStore {
  import opened NgramCache

  class Cache {
    var parts: Parts

    constructor ()
      ensures parts == map[]
    {
      parts := map[];
    }

    /** One occurrence of `token` after `ngram`. */
    method Increment(ngram: Ngram, token: Token)
      modifies this
      ensures parts == Bump(old(parts), ngram, token)
    {
      if ngram !in parts {
        var part: Part := map[];
        part := part[token := 1];
        parts := parts[ngram := part];
      } else if token !in parts[ngram] {
        parts := parts[ngram := parts[ngram][token := 1]];
      } else {
        parts := parts[ngram := parts[ngram][token := parts[ngram][token] + 1]];
      }
    }

    /** Counts the last `nnew` tokens of `inp`: every count grows by its occurrences among them. */
    method Update(ngramMin: nat, ngramMax: int, inp: seq<Token>, nnew: int)
      modifies this
      ensures TalliedSizes(old(parts), parts, inp, ngramMin, ngramMax + 1, |inp| - nnew)
      ensures Tidy(old(parts)) ==> Tidy(parts)
    {
      hide Count, Tidy, OccurrencesOfSizes, Occurrences, Tallied, Bump;
      ghost var before := parts;
      ghost var lo := |inp| - nnew;
      NoSizes(before, inp, ngramMin, ngramMin, lo);
      var size := ngramMin;
      while size <= ngramMax
        invariant ngramMin <= size && (size <= ngramMax + 1 || (size == ngramMin && parts == before))
        invariant TalliedSizes(before, parts, inp, ngramMin, size, lo)
        invariant Tidy(before) ==> Tidy(parts)
      {
        UpdateSize(ngramMin, size, inp, nnew, before);
        size := size + 1;
      }
      if size > ngramMax + 1 {
        NoSizes(before, inp, ngramMin, ngramMax + 1, lo);
      }
    }

    /** The inner loop: the n-grams of one size. */
    method UpdateSize(ghost ngramMin: nat, size: nat, inp: seq<Token>, nnew: int, ghost before: Parts)
      requires ngramMin <= size && TalliedSizes(before, parts, inp, ngramMin, size, |inp| - nnew)
      modifies this
      ensures TalliedSizes(before, parts, inp, ngramMin, size + 1, |inp| - nnew)
      ensures Tidy(old(parts)) ==> Tidy(parts)
    {
      hide Count, Tidy, OccurrencesOfSizes, Occurrences, Tallied, Bump;
      ghost var lo := |inp| - nnew;
      var start := if |inp| - nnew > size then |inp| - nnew else size;
      ghost var from := if start <= |inp| then start else |inp|;
      TallyStart(before, parts, inp, ngramMin, size, lo, from);
      var i := start;
      while i < |inp|
        invariant start <= i && (i <= |inp| || i == start)
        invariant Tallied(before, parts, inp, ngramMin, size, lo, if i <= |inp| then i else |inp|)
        invariant Tidy(old(parts)) ==> Tidy(parts)
      {
        var ngram := MakeNgram(inp, i - size, size);
        TallyOne(before, parts, inp, ngramMin, size, lo, i);
        if Tidy(parts) {
          BumpTidy(parts, ngram, inp[i]);
        }
        Increment(ngram, inp[i]);
        i := i + 1;
      }
      TallySize(before, parts, inp, ngramMin, size, lo);
    }

    /** Adds the counts of another cache, in any order; also of itself. */
    method MergeFrom(add: Cache)
      requires forall g :: g in add.parts && g in parts ==> forall t :: t in add.parts[g] ==> add.parts[g][t] > 0
      modifies this
      ensures parts == Merge(old(parts), old(add.parts))
    {
      parts := MergeMaps(parts, add.parts);
    }
  }

  /** The n-grams one by one, in any order. */
  method MergeMaps(target: Parts, add: Parts) returns (merged: Parts)
    requires forall g :: g in add && g in target ==> forall t :: t in add[g] ==> add[g][t] > 0
    ensures merged == Merge(target, add)
  {
    assert target == Merge(target, add - add.Keys);
    hide *;
    merged := target;
    var todo := add.Keys;
    while todo != {}
      invariant todo <= add.Keys && merged == Merge(target, add - todo)
      decreases |todo|
    {
      var ngram :| ngram in todo;
      MergeStep(target, add, todo, ngram);
      todo := todo - {ngram};
      if ngram !in merged {
        merged := merged[ngram := add[ngram]];
      } else {
        var part := MergeInto(merged[ngram], add[ngram]);
        merged := merged[ngram := part];
      }
    }
    assert add - {} == add;
  }

  lemma NoSizes(before: Parts, inp: seq<Token>, min: nat, end: int, lo: int)
    requires end <= min
    ensures TalliedSizes(before, before, inp, min, end, lo)
  {
  }

  /** The counts of one n-gram, token by token in any order. */
  method MergeInto(target: Part, part: Part) returns (merged: Part)
    ensures merged == MergePart(target, part)
  {
    assert target == MergePart(target, part - part.Keys);
    hide MergePart;
    merged := target;
    var todo := part.Keys;
    while todo != {}
      invariant todo <= part.Keys && merged == MergePart(target, part - todo)
      decreases |todo|
    {
      SomeMember(todo);
      var token :| token in todo;
      MergePartStep(target, part, todo, token);
      todo := todo - {token};
      if token !in merged {
        merged := merged[token := part[token]];
      } else {
        merged := merged[token := merged[token] + part[token]];
      }
    }
    assert part - {} == part;
  }

  lemma SomeMember(s: set<Token>)
    ensures s != {} ==> exists t :: t in s
  {
    if forall t: Token :: t !in s {
      assert s == {};
    }
  }

  lemma MergePartStep(target: Part, part: Part, todo: set<Token>, token: Token)
    requires token in todo && todo <= part.Keys
    ensures var merged := MergePart(target, part - todo);
            MergePart(target, part - (todo - {token}))
            == merged[token := if token in merged then merged[token] + part[token] else part[token]]
  {
    var merged, after := MergePart(target, part - todo), MergePart(target, part - (todo - {token}));
    assert token !in part - todo;
    forall t: Token
      ensures t in after <==> t in merged || t == token
      ensures t in after && t != token ==> after[t] == merged[t]
    {
      assert t != token ==> (t in part - todo <==> t in part - (todo - {token}));
    }
  }

  lemma MergeStep(a: Parts, b: Parts, todo: set<Ngram>, ngram: Ngram)
    requires ngram in todo && todo <= b.Keys
    ensures ngram in Merge(a, b - todo) <==> ngram in a
    ensures ngram in a ==> Merge(a, b - todo)[ngram] == a[ngram]
    ensures Merge(a, b - (todo - {ngram}))
            == Merge(a, b - todo)[ngram := if ngram in a then MergePart(a[ngram], b[ngram]) else b[ngram]]
  {
    hide Merge, MergePart;
    var before, rest := b - todo, b - (todo - {ngram});
    forall g: Ngram
      ensures g in Merge(a, rest) <==> g in Merge(a, before) || g == ngram
      ensures g in Merge(a, before) && g != ngram ==> Merge(a, rest)[g] == Merge(a, before)[g]
    {
      MergeAt(a, before, g);
      MergeAt(a, rest, g);
      assert g != ngram ==> (g in before <==> g in rest);
    }
    MergeAt(a, before, ngram);
    MergeAt(a, rest, ngram);
  }

  // ---- a series of appends ----

  /** What one call of `Update` ensures, for a cache that was at `n` tokens of `input`. */
  ghost predicate Updated(before: Parts, after: Parts, input: seq<Token>, min: nat, max: int, n: nat) {
    TalliedSizes(before, after, input, min, max + 1, n) && (Tidy(before) ==> Tidy(after))
  }

  lemma CountsTidy(parts: Parts, input: seq<Token>, min: nat, max: int)
    requires Counts(parts, input, min, max)
    ensures Tidy(parts)
  {
  }

  lemma EmptyCounts(min: nat, max: int)
    ensures Counts(map[], [], min, max)
  {
    forall g: Ngram, t: Token
      ensures Count(map[], g, t) == OccurrencesOfSizes([], min, max + 1, 0, g, t)
    {
      NothingOccurs(min, max + 1, g, t);
    }
  }

  lemma {:induction false} NothingOccurs(min: nat, end: int, g: Ngram, t: Token)
    ensures OccurrencesOfSizes([], min, end, 0, g, t) == 0
    decreases end - min
  {
    if end > min {
      NothingOccurs(min, end - 1, g, t);
    }
  }

  /** After any series of appends, each followed by an update, every count is right. */
  lemma {:induction false} SeriesCounts(caches: seq<Parts>, inputs: seq<seq<Token>>, min: nat, max: int, k: nat)
    requires |caches| == |inputs| && k < |caches| && caches[0] == map[] && inputs[0] == []
    requires forall i :: 0 <= i < |caches| - 1 ==>
               inputs[i] <= inputs[i + 1] && Updated(caches[i], caches[i + 1], inputs[i + 1], min, max, |inputs[i]|)
    ensures Counts(caches[k], inputs[k], min, max)
    decreases k
  {
    hide Counts, Tidy, TalliedSizes;
    if k == 0 {
      EmptyCounts(min, max);
    } else {
      var i := k - 1;
      SeriesCounts(caches, inputs, min, max, i);
      assert inputs[i + 1][..|inputs[i]|] == inputs[i];
      assert Updated(caches[i], caches[i + 1], inputs[i + 1], min, max, |inputs[i]|);
      CountsTidy(caches[i], inputs[i], min, max);
      AppendKeepsCounts(caches[i], caches[i + 1], inputs[i + 1], |inputs[i]|, min, max);
    }
  }

  /** So the cache that followed along is the one counted from scratch. */
  lemma IncrementalIsRebuild(caches: seq<Parts>, inputs: seq<seq<Token>>, min: nat, max: int, k: nat, rebuilt: Parts)
    requires |caches| == |inputs| && k < |caches| && caches[0] == map[] && inputs[0] == []
    requires forall i :: 0 <= i < |caches| - 1 ==>
               inputs[i] <= inputs[i + 1] && Updated(caches[i], caches[i + 1], inputs[i + 1], min, max, |inputs[i]|)
    requires Updated(map[], rebuilt, inputs[k], min, max, 0)
    ensures caches[k] == rebuilt
  {
    assert TalliedSizes(map[], rebuilt, inputs[k], min, max + 1, 0) && Tidy(rebuilt);
    hide TalliedSizes, OccurrencesOfSizes, Updated;
    SeriesCounts(caches, inputs, min, max, k);
    EmptyCounts(min, max);
    assert inputs[k][..0] == [];
    AppendKeepsCounts(map[], rebuilt, inputs[k], 0, min, max);
    SameCountsSame(caches[k], rebuilt);
  }
}
