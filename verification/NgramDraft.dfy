/**
 Drafting tokens from the caches, ngram-cache.cpp:54-198: `get_token`, both `try_draft` functions as
 loops, and the greedy loop of `common_ngram_cache_draft`. `order` is how a map is walked.
 */
module NgramDraft {
  import opened NgramCache
  import opened NgramPick

  const NGRAM_STATIC := 2

  const MIN_SAMPLE_SIZE_LAX: seq<int> := [2, 2, 1, 1]
  const MIN_PERCENT_LAX: seq<int> := [66, 50, 50, 50]
  const MIN_SAMPLE_SIZE_STRICT: seq<int> := [4, 3, 2, 2]
  const MIN_PERCENT_STRICT: seq<int> := [75, 66, 66, 66]

  /** The text so far, with what was drafted behind it; the first token of a draft was there before. */
  function Extended(inp: seq<Token>, draft: seq<Token>): seq<Token>
    requires draft != []
  {
    inp + draft[1..]
  }

  function GetToken(inp: seq<Token>, draft: seq<Token>, i: nat): (t: Token)
    requires draft != [] && i < |inp| + |draft| - 1
    ensures t == Extended(inp, draft)[i]
  {
    if i < |inp| then inp[i] else draft[1 + i - |inp|]
  }

  /** The last `size` tokens. */
  function Suffix(inp: seq<Token>, draft: seq<Token>, size: nat): Ngram
    requires draft != [] && size <= |inp|
  {
    var s := Extended(inp, draft);
    NgramAt(s, |s| - size, size)
  }

  /** One n-gram for each size, the smallest first. */
  function Suffixes(inp: seq<Token>, draft: seq<Token>, min: nat, max: nat): (r: seq<Ngram>)
    requires draft != [] && max <= |inp|
    ensures |r| == if min <= max then max + 1 - min else 0
    ensures forall i :: 0 <= i < |r| ==> r[i] == Suffix(inp, draft, min + i)
    decreases max + 1 - min
  {
    if max < min then [] else [Suffix(inp, draft, min)] + Suffixes(inp, draft, min + 1, max)
  }

  function PickFrom(nc: Parts, g: Ngram, weight: Token -> int, minSample: int, minPercent: int, order: Part -> seq<Token>): Token
    requires ValidOrder(order)
  {
    if g in nc then Pick(order(nc[g]), nc[g], weight, minSample, minPercent) else NULL_TOKEN
  }

  function StaticPick(ncStatic: Parts, g: Ngram, order: Part -> seq<Token>): Token
    requires ValidOrder(order)
  {
    PickFrom(ncStatic, g, _ => 1, MIN_SAMPLE_SIZE_LAX[NGRAM_STATIC - 1], MIN_PERCENT_LAX[NGRAM_STATIC - 1], order)
  }

  /** The longest of the first `n` n-grams from which something is picked. */
  function PrimaryPick(nc: Parts, ngrams: seq<Ngram>, n: nat, partStatic: Part, minSample: seq<int>, minPercent: seq<int>,
                       order: Part -> seq<Token>): Token
    requires n <= |ngrams| <= |minSample| && |ngrams| <= |minPercent| && ValidOrder(order)
  {
    if n == 0 then NULL_TOKEN else
    var t := PickFrom(nc, ngrams[n - 1], t => StaticWeight(partStatic, t), minSample[n - 1], minPercent[n - 1], order);
    if t != NULL_TOKEN then t else PrimaryPick(nc, ngrams, n - 1, partStatic, minSample, minPercent, order)
  }

  datatype Caches = Caches(context: Parts, dyn: Parts, stat: Parts)

  /** The thresholds for the n-grams in a list, by place: the laxer ones and the stricter ones. */
  datatype Limits = Limits(sampleLax: seq<int>, percentLax: seq<int>, sampleStrict: seq<int>, percentStrict: seq<int>) {
    predicate Cover(n: int) {
      n <= |sampleLax| && n <= |percentLax| && n <= |sampleStrict| && n <= |percentStrict|
    }
  }

  const LIMITS := Limits(MIN_SAMPLE_SIZE_LAX, MIN_PERCENT_LAX, MIN_SAMPLE_SIZE_STRICT, MIN_PERCENT_STRICT)

  /** The token that follows: from the context, else from earlier generations, else from the corpus. */
  function NextWith(inp: seq<Token>, draft: seq<Token>, min: nat, max: nat, nc: Caches, order: Part -> seq<Token>, limits: Limits): Token
    requires draft != [] && 1 <= min && max <= |inp| && NGRAM_STATIC <= |inp| && ValidOrder(order)
    requires limits.Cover(max + 1 - min) && limits.Cover(0)
  {
    var gs, g := Suffixes(inp, draft, min, max), Suffix(inp, draft, NGRAM_STATIC);
    var partStatic := if g in nc.stat then nc.stat[g] else map[];
    var c := PrimaryPick(nc.context, gs, |gs|, partStatic, limits.sampleLax, limits.percentLax, order);
    if c != NULL_TOKEN then c else
    var d := PrimaryPick(nc.dyn, gs, |gs|, partStatic, limits.sampleStrict, limits.percentStrict, order);
    if d != NULL_TOKEN then d else StaticPick(nc.stat, g, order)
  }

  function NextToken(inp: seq<Token>, draft: seq<Token>, min: nat, max: nat, nc: Caches, order: Part -> seq<Token>): Token
    requires draft != [] && 1 <= min && max <= NGRAM_MAX && max <= |inp| && NGRAM_STATIC <= |inp| && ValidOrder(order)
  {
    NextWith(inp, draft, min, max, nc, order, LIMITS)
  }

  /** The draft continued greedily until it holds `n` new tokens or nothing follows. */
  function Continue(inp: seq<Token>, draft: seq<Token>, n: int, min: nat, max: nat, nc: Caches, order: Part -> seq<Token>): (r: seq<Token>)
    requires draft != [] && 1 <= min && max <= NGRAM_MAX && max <= |inp| && NGRAM_STATIC <= |inp| && ValidOrder(order)
    decreases n - |draft|
  {
    if |draft| - 1 >= n then draft else
    var t := NextToken(inp, draft, min, max, nc, order);
    if t == NULL_TOKEN then draft else Continue(inp, draft + [t], n, min, max, nc, order)
  }

  // ---- the loops ----

  method TryDraftStatic(ncStatic: Parts, ngramStatic: Ngram, order: Part -> seq<Token>) returns (token: Token)
    requires ValidOrder(order)
    ensures token == StaticPick(ncStatic, ngramStatic, order)
  {
    if ngramStatic !in ncStatic {
      return NULL_TOKEN;
    }
    var part := ncStatic[ngramStatic];
    var ts := order(part);
    var maxCount, sumCount, maxToken := 0, 0, NULL_TOKEN;
    for i := 0 to |ts|
      invariant var b := Scan(ts[..i], part, _ => 1);
                maxToken == b.token && maxCount == BestHeft(b) == b.primary && sumCount == Total(ts[..i], part)
    {
      assert ts[..i + 1][..i] == ts[..i];
      var token, count := ts[i], part[ts[i]];
      if count > maxCount {
        maxToken := token;
        maxCount := count;
      }
      sumCount := sumCount + count;
    }
    assert ts[..|ts|] == ts;
    if sumCount < MIN_SAMPLE_SIZE_LAX[NGRAM_STATIC - 1] {
      return NULL_TOKEN;
    }
    if 100 * maxCount < MIN_PERCENT_LAX[NGRAM_STATIC - 1] * sumCount {
      return NULL_TOKEN;
    }
    return maxToken;
  }

  method TryDraftPrimary(ncPrimary: Parts, ngramsPrimary: seq<Ngram>, partStatic: Part, minSampleSize: seq<int>,
                         minPercent: seq<int>, order: Part -> seq<Token>) returns (draftedToken: Token)
    requires |ngramsPrimary| <= |minSampleSize| && |ngramsPrimary| <= |minPercent| && ValidOrder(order)
    ensures draftedToken == PrimaryPick(ncPrimary, ngramsPrimary, |ngramsPrimary|, partStatic, minSampleSize, minPercent, order)
  {
    draftedToken := NULL_TOKEN;
    var i := |ngramsPrimary| - 1;
    while i >= 0 && draftedToken == NULL_TOKEN
      invariant -1 <= i < |ngramsPrimary|
      invariant PrimaryPick(ncPrimary, ngramsPrimary, |ngramsPrimary|, partStatic, minSampleSize, minPercent, order)
                == if draftedToken != NULL_TOKEN then draftedToken
                   else PrimaryPick(ncPrimary, ngramsPrimary, i + 1, partStatic, minSampleSize, minPercent, order)
    {
      if ngramsPrimary[i] in ncPrimary {
        draftedToken := PickWeighted(ncPrimary[ngramsPrimary[i]], partStatic, minSampleSize[i], minPercent[i], order);
      }
      i := i - 1;
    }
  }

  /** One pass of the loop above, over the tokens seen after one n-gram. */
  method PickWeighted(part: Part, partStatic: Part, minSampleSize: int, minPercent: int, order: Part -> seq<Token>) returns (token: Token)
    requires ValidOrder(order)
    ensures token == Pick(order(part), part, t => StaticWeight(partStatic, t), minSampleSize, minPercent)
  {
    var ts := order(part);
    var maxPrimary, maxStatic, sumPrimary, maxToken := 0, 0, 0, NULL_TOKEN;
    for i := 0 to |ts|
      invariant Scan(ts[..i], part, t => StaticWeight(partStatic, t)) == Best(maxToken, maxPrimary, maxStatic)
      invariant sumPrimary == Total(ts[..i], part)
    {
      assert ts[..i + 1][..i] == ts[..i];
      var t := ts[i];
      var countPrimary := part[t];
      var countStatic := if t in partStatic then 100 * partStatic[t] else 1;
      if countPrimary * countStatic > maxPrimary * maxStatic {
        maxToken := t;
        maxPrimary := countPrimary;
        maxStatic := countStatic;
      }
      sumPrimary := sumPrimary + countPrimary;
    }
    assert ts[..|ts|] == ts;
    if sumPrimary < minSampleSize {
      return NULL_TOKEN;
    }
    if 100 * maxPrimary < minPercent * sumPrimary {
      return NULL_TOKEN;
    }
    return maxToken;
  }

  /** The n-gram of the last `size` tokens, read one by one through `get_token`. */
  method SuffixNgram(inp: seq<Token>, draft: seq<Token>, size: nat) returns (g: Ngram)
    requires draft != [] && size <= |inp| && size <= NGRAM_MAX
    ensures g == Suffix(inp, draft, size)
  {
    var tokens := new Token[NGRAM_MAX](_ => NULL_TOKEN);
    var start := |inp| - size + |draft| - 1;
    for j := start to start + size
      invariant forall k :: 0 <= k < NGRAM_MAX ==> tokens[k] == if k < j - start then Extended(inp, draft)[start + k] else NULL_TOKEN
    {
      tokens[j - start] := GetToken(inp, draft, j);
    }
    g := tokens[..];
    assert g == Suffix(inp, draft, size);
  }

  method SuffixNgrams(inp: seq<Token>, draft: seq<Token>, min: nat, max: nat) returns (ngrams: seq<Ngram>)
    requires draft != [] && max <= NGRAM_MAX && max <= |inp|
    ensures ngrams == Suffixes(inp, draft, min, max)
  {
    ngrams := [];
    var size := min;
    while size <= max
      invariant min <= size && |ngrams| == size - min && (size <= max + 1 || size == min)
      invariant forall i :: 0 <= i < |ngrams| ==> ngrams[i] == Suffix(inp, draft, min + i)
    {
      var g := SuffixNgram(inp, draft, size);
      ngrams := ngrams + [g];
      size := size + 1;
    }
  }

  /** The draft is continued greedily; with fewer than two tokens there is nothing to go by. */
  method Draft(inp: seq<Token>, draft0: seq<Token>, n: int, min: nat, max: nat, nc: Caches, order: Part -> seq<Token>)
    returns (draft: seq<Token>)
    requires |draft0| == 1 && 1 <= min && max <= NGRAM_MAX && max <= |inp| && ValidOrder(order)
    ensures draft == if |inp| < NGRAM_STATIC then draft0 else Continue(inp, draft0, n, min, max, nc, order)
  {
    hide Suffix, Suffixes, PrimaryPick, StaticPick;
    draft := draft0;
    if |inp| < NGRAM_STATIC {
      return;
    }
    while |draft| - 1 < n
      invariant draft != []
      invariant Continue(inp, draft, n, min, max, nc, order) == Continue(inp, draft0, n, min, max, nc, order)
      decreases n - |draft|
    {
      var ngramStatic := SuffixNgram(inp, draft, NGRAM_STATIC);
      var partStatic: Part := map[];
      if ngramStatic in nc.stat {
        partStatic := nc.stat[ngramStatic];
      }
      var ngrams := SuffixNgrams(inp, draft, min, max);
      var token := TryDraftPrimary(nc.context, ngrams, partStatic, MIN_SAMPLE_SIZE_LAX, MIN_PERCENT_LAX, order);
      if token == NULL_TOKEN {
        token := TryDraftPrimary(nc.dyn, ngrams, partStatic, MIN_SAMPLE_SIZE_STRICT, MIN_PERCENT_STRICT, order);
      }
      if token == NULL_TOKEN {
        token := TryDraftStatic(nc.stat, ngramStatic, order);
      }
      assert token == NextToken(inp, draft, min, max, nc, order);
      if token == NULL_TOKEN {
        break;
      }
      draft := draft + [token];
    }
  }

  // ---- what a draft is ----

  /** Every drafted token is the one that follows what is before it, and no more than `n` are added. */
  lemma {:induction false} DraftIsGreedy(inp: seq<Token>, draft: seq<Token>, n: int, min: nat, max: nat, nc: Caches, order: Part -> seq<Token>)
    requires draft != [] && 1 <= min && max <= NGRAM_MAX && max <= |inp| && NGRAM_STATIC <= |inp| && ValidOrder(order)
    ensures var r := Continue(inp, draft, n, min, max, nc, order);
            && draft <= r && |r| - 1 <= (if n > |draft| - 1 then n else |draft| - 1)
            && (forall k :: |draft| <= k < |r| ==>
                  r[k] == NextToken(inp, r[..k], min, max, nc, order) && r[k] != NULL_TOKEN)
            && (|r| - 1 < n ==> NextToken(inp, r, min, max, nc, order) == NULL_TOKEN)
    decreases n - |draft|
  {
    hide NextToken;
    if |draft| - 1 < n {
      var t := NextToken(inp, draft, min, max, nc, order);
      if t != NULL_TOKEN {
        DraftIsGreedy(inp, draft + [t], n, min, max, nc, order);
        var r := Continue(inp, draft, n, min, max, nc, order);
        assert r == Continue(inp, draft + [t], n, min, max, nc, order);
        assert r[..|draft|] == draft && r[|draft|] == t;
      }
    }
  }

  /** Asking for fewer tokens gives a beginning of what asking for more gives. */
  lemma {:induction false} DraftPrefix(inp: seq<Token>, draft: seq<Token>, n: int, m: int, min: nat, max: nat, nc: Caches, order: Part -> seq<Token>)
    requires draft != [] && 1 <= min && max <= NGRAM_MAX && max <= |inp| && NGRAM_STATIC <= |inp| && ValidOrder(order)
    requires n <= m
    ensures Continue(inp, draft, n, min, max, nc, order) <= Continue(inp, draft, m, min, max, nc, order)
    decreases m - |draft|
  {
    hide NextToken;
    if |draft| - 1 >= n {
      DraftIsGreedy(inp, draft, m, min, max, nc, order);
    } else {
      var t := NextToken(inp, draft, min, max, nc, order);
      if t != NULL_TOKEN {
        DraftPrefix(inp, draft + [t], n, m, min, max, nc, order);
      }
    }
  }

  /**
   A primary pick comes from one of the n-grams, has the greatest count times static weight there and
   meets the thresholds at its place in the list; and nothing was picked from any longer n-gram.
   */
  lemma {:induction false} PrimaryIsTop(nc: Parts, ngrams: seq<Ngram>, n: nat, partStatic: Part, minSample: seq<int>, minPercent: seq<int>,
                                        order: Part -> seq<Token>) returns (i: nat)
    requires n <= |ngrams| <= |minSample| && |ngrams| <= |minPercent| && ValidOrder(order)
    requires PrimaryPick(nc, ngrams, n, partStatic, minSample, minPercent, order) != NULL_TOKEN
    ensures var t := PrimaryPick(nc, ngrams, n, partStatic, minSample, minPercent, order);
            && i < n && ngrams[i] in nc && Top(nc[ngrams[i]], u => StaticWeight(partStatic, u), t)
            && Passes(nc[ngrams[i]][t], Total(order(nc[ngrams[i]]), nc[ngrams[i]]), minSample[i], minPercent[i])
            && forall j :: i < j < n ==>
                 PickFrom(nc, ngrams[j], u => StaticWeight(partStatic, u), minSample[j], minPercent[j], order) == NULL_TOKEN
    decreases n
  {
    hide Pick, Top, Passes, Total;
    var g := ngrams[n - 1];
    var t := PickFrom(nc, g, u => StaticWeight(partStatic, u), minSample[n - 1], minPercent[n - 1], order);
    if t != NULL_TOKEN {
      i := n - 1;
      PickIsTop(order(nc[g]), nc[g], u => StaticWeight(partStatic, u), minSample[i], minPercent[i], order(nc[g]));
    } else {
      i := PrimaryIsTop(nc, ngrams, n - 1, partStatic, minSample, minPercent, order);
    }
  }

  // ---- thresholds by place and by size ----

  /** The thresholds of the sizes from `min` on: those of a size stand at the place one below it. */
  function OfSizes(min: nat): Limits
    requires 1 <= min <= NGRAM_MAX
  {
    Limits(MIN_SAMPLE_SIZE_LAX[min - 1..], MIN_PERCENT_LAX[min - 1..], MIN_SAMPLE_SIZE_STRICT[min - 1..], MIN_PERCENT_STRICT[min - 1..])
  }

  /** Whatever the text and the caches, the token is the one that thresholds of the n-grams' sizes give. */
  ghost predicate GoesBySize(min: nat, max: nat, order: Part -> seq<Token>)
    requires 1 <= min <= max <= NGRAM_MAX && ValidOrder(order)
  {
    forall inp, draft, nc :: draft != [] && max <= |inp| && NGRAM_STATIC <= |inp| ==>
      NextToken(inp, draft, min, max, nc, order) == NextWith(inp, draft, min, max, nc, order, OfSizes(min))
  }

  /** The thresholds are looked up by place in the list, which is what their sizes want exactly when the list starts with size one. */
  lemma PlaceIsSizeIff(min: nat, max: nat, order: Part -> seq<Token>)
    requires 1 <= min <= max <= NGRAM_MAX && ValidOrder(order)
    ensures GoesBySize(min, max, order) <==> min == 1
  {
    if min == 1 {
      assert OfSizes(1) == LIMITS;
    } else {
      PlaceMatters(min, max, order);
    }
  }

  const TEXT: seq<Token> := [1, 2, 3, 4]

  /** After these tokens 5 came three times and 6 twice: enough for any size above one, but not at the first place. */
  function ThreeToTwo(min: nat): Caches
    requires min <= |TEXT|
  {
    Caches(map[Suffix(TEXT, [0], min) := map[5 := 3, 6 := 2]], map[], map[])
  }

  lemma PlaceMatters(min: nat, max: nat, order: Part -> seq<Token>)
    requires 1 < min <= max <= NGRAM_MAX && ValidOrder(order)
    ensures NextToken(TEXT, [0], min, max, ThreeToTwo(min), order) == NULL_TOKEN
    ensures NextWith(TEXT, [0], min, max, ThreeToTwo(min), order, OfSizes(min)) == 5
    ensures !GoesBySize(min, max, order)
  {
    hide PrimaryPick, Suffix, StaticPick, Suffixes;
    var gs, nc := Suffixes(TEXT, [0], min, max), ThreeToTwo(min);
    var sized := OfSizes(min);
    FirstOnly(min, max, order, LIMITS.sampleLax, LIMITS.percentLax);
    FirstOnly(min, max, order, sized.sampleLax, sized.percentLax);
    NothingToPick(gs, |gs|, LIMITS.sampleStrict, LIMITS.percentStrict, order);
    NothingStatic(Suffix(TEXT, [0], NGRAM_STATIC), order);
    assert GoesBySize(min, max, order) ==>
      NextToken(TEXT, [0], min, max, nc, order) == NextWith(TEXT, [0], min, max, nc, order, sized);
  }

  lemma NothingStatic(g: Ngram, order: Part -> seq<Token>)
    requires ValidOrder(order)
    ensures StaticPick(map[], g, order) == NULL_TOKEN
  {
  }

  lemma {:induction false} NothingToPick(gs: seq<Ngram>, n: nat, minSample: seq<int>, minPercent: seq<int>, order: Part -> seq<Token>)
    requires n <= |gs| <= |minSample| && |gs| <= |minPercent| && ValidOrder(order)
    ensures PrimaryPick(map[], gs, n, map[], minSample, minPercent, order) == NULL_TOKEN
    decreases n
  {
    if n > 0 {
      NothingToPick(gs, n - 1, minSample, minPercent, order);
    }
  }

  /** Only the shortest n-gram is in the cache, so its thresholds decide. */
  lemma {:induction false} FirstOnly(min: nat, max: nat, order: Part -> seq<Token>, minSample: seq<int>, minPercent: seq<int>)
    requires 1 < min <= max <= NGRAM_MAX && ValidOrder(order)
    requires max + 1 - min <= |minSample| && max + 1 - min <= |minPercent| && minSample[0] <= 5
    ensures var gs := Suffixes(TEXT, [0], min, max);
            PrimaryPick(ThreeToTwo(min).context, gs, |gs|, map[], minSample, minPercent, order)
            == if minPercent[0] <= 60 then 5 else NULL_TOKEN
  {
    var gs, part: Part := Suffixes(TEXT, [0], min, max), map[5 := 3, 6 := 2];
    var nc: Parts := ThreeToTwo(min).context;
    var n := |gs|;
    while n > 1
      invariant 1 <= n <= |gs|
      invariant PrimaryPick(nc, gs, |gs|, map[], minSample, minPercent, order)
                == PrimaryPick(nc, gs, n, map[], minSample, minPercent, order)
    {
      assert gs[n - 1][min] != NULL_TOKEN && Suffix(TEXT, [0], min)[min] == NULL_TOKEN;
      assert gs[n - 1] !in nc;
      n := n - 1;
    }
    assert PrimaryPick(nc, gs, 0, map[], minSample, minPercent, order) == NULL_TOKEN;
    assert PickFrom(nc, gs[0], t => StaticWeight(map[], t), minSample[0], minPercent[0], order)
           == Pick(order(part), part, t => StaticWeight(map[], t), minSample[0], minPercent[0]);
    PickOfTwo(order(part), minSample[0], minPercent[0]);
  }

  lemma PickOfTwo(ts: seq<Token>, minSample: int, minPercent: int)
    requires IsOrder(ts, map[5 := 3, 6 := 2]) && minSample <= 5
    ensures Pick(ts, map[5 := 3, 6 := 2], t => StaticWeight(map[], t), minSample, minPercent)
            == if minPercent <= 60 then 5 else NULL_TOKEN
  {
    var part: Part, weight := map[5 := 3, 6 := 2], (t: Token) => StaticWeight(map[], t);
    assert IsOrder([5, 6], part);
    TotalSame(ts, [5, 6], part);
    assert [5, 6][..1] == [5] && [5][..0] == [];
    assert Total([5, 6], part) == 5;
    PickIsTop(ts, part, weight, minSample, minPercent, ts);
    assert Top(part, weight, 5);
    assert forall t :: Top(part, weight, t) ==> t == 5;
    if Pick(ts, part, weight, minSample, minPercent) == NULL_TOKEN {
      NoPick(ts, part, weight, minSample, minPercent);
    }
  }
}
