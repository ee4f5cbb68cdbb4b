/**
 What token is drafted, said without the functions that pick it: ngram-cache.cpp:59-198. The context is
 asked first, longest n-gram first, then the earlier generations with stricter thresholds, and the
 corpus last; the thresholds are the numbers of the four tables.
 */
module NgramFollows {
  import opened NgramCache
  import opened NgramPick
  import opened NgramDraft

  /** The last `size` tokens of a text, padded to four. */
  function LastTokens(text: seq<Token>, size: nat): Ngram
    requires size <= |text|
  {
    seq(4, k requires 0 <= k < 4 => if k < size then text[|text| - size + k] else -1)
  }

  datatype Corpus = Unweighted | Weighted(part: Part)

  /** A hundred times the count in the corpus, or one; the corpus itself is not weighted. */
  function Influence(corpus: Corpus, t: Token): int {
    match corpus
    case Unweighted => 1
    case Weighted(part) => if t in part then 100 * part[t] else 1
  }

  /** Of the entries with the greatest count times influence, which must be positive, `t` is the first one met. */
  ghost predicate FirstTop(ts: seq<Token>, part: Part, corpus: Corpus, t: Token) {
    && t in part && part[t] * Influence(corpus, t) > 0
    && (forall u :: u in part ==> part[u] * Influence(corpus, u) <= part[t] * Influence(corpus, t))
    && exists i :: 0 <= i < |ts| && ts[i] == t
                   && forall j :: 0 <= j < i && ts[j] in part ==> part[ts[j]] * Influence(corpus, ts[j]) < part[t] * Influence(corpus, t)
  }

  /** The counts behind an n-gram yield `t`: it is there, there are enough samples, and it has enough of them. */
  ghost predicate Yields(nc: Parts, g: Ngram, corpus: Corpus, samples: int, percent: int, order: Part -> seq<Token>, t: Token)
    requires ValidOrder(order)
  {
    && t != -1 && g in nc && FirstTop(order(nc[g]), nc[g], corpus, t)
    && Total(order(nc[g]), nc[g]) >= samples
    && 100 * nc[g][t] >= percent * Total(order(nc[g]), nc[g])
  }

  ghost predicate Silent(nc: Parts, g: Ngram, corpus: Corpus, samples: int, percent: int, order: Part -> seq<Token>)
    requires ValidOrder(order)
  {
    forall t :: !Yields(nc, g, corpus, samples, percent, order, t)
  }

  /** The longest n-gram at the end of the text that yields a token yields `t`. */
  ghost predicate LongestYields(nc: Parts, text: seq<Token>, min: nat, max: nat, corpus: Corpus, samples: seq<int>, percents: seq<int>,
                                order: Part -> seq<Token>, t: Token)
    requires ValidOrder(order) && max <= |text| && max < min + |samples| && |samples| == |percents|
  {
    exists size: nat :: min <= size <= max
      && Yields(nc, LastTokens(text, size), corpus, samples[size - min], percents[size - min], order, t)
      && forall longer: nat :: size < longer <= max ==>
           Silent(nc, LastTokens(text, longer), corpus, samples[longer - min], percents[longer - min], order)
  }

  ghost predicate AllSilent(nc: Parts, text: seq<Token>, min: nat, max: nat, corpus: Corpus, samples: seq<int>, percents: seq<int>,
                            order: Part -> seq<Token>)
    requires ValidOrder(order) && max <= |text| && max < min + |samples| && |samples| == |percents|
  {
    forall size: nat :: min <= size <= max ==>
      Silent(nc, LastTokens(text, size), corpus, samples[size - min], percents[size - min], order)
  }

  /** `t` follows the text: the context says so, or it is silent and the earlier generations do, or both are and the corpus does. */
  ghost predicate Follows(text: seq<Token>, min: nat, max: nat, nc: Caches, order: Part -> seq<Token>, t: Token)
    requires ValidOrder(order) && 1 <= min && max <= 4 && max <= |text| && 2 <= |text|
  {
    var pair := LastTokens(text, 2);
    var corpus := Weighted(if pair in nc.stat then nc.stat[pair] else map[]);
    || LongestYields(nc.context, text, min, max, corpus, [2, 2, 1, 1], [66, 50, 50, 50], order, t)
    || (&& AllSilent(nc.context, text, min, max, corpus, [2, 2, 1, 1], [66, 50, 50, 50], order)
        && (|| LongestYields(nc.dyn, text, min, max, corpus, [4, 3, 2, 2], [75, 66, 66, 66], order, t)
            || (&& AllSilent(nc.dyn, text, min, max, corpus, [4, 3, 2, 2], [75, 66, 66, 66], order)
                && Yields(nc.stat, pair, Unweighted, 2, 50, order, t))))
  }

  // ---- one n-gram ----

  lemma {:induction false} ScanIsFirstTop(ts: seq<Token>, part: Part, weight: Token -> int, corpus: Corpus, t: Token)
    requires IsOrder(ts, part) && forall u :: weight(u) == Influence(corpus, u)
    ensures var b := Scan(ts, part, weight);
            FirstTop(ts, part, corpus, t) <==> BestHeft(b) > 0 && b.token == t && t in part && b.primary == part[t]
  {
    hide Scan;
    var b := Scan(ts, part, weight);
    var k := ScanFirst(ts, part, weight);
    assert forall u :: u in part ==> Heft(part, weight, u) == part[u] * Influence(corpus, u);
    if FirstTop(ts, part, corpus, t) {
      var i :| 0 <= i < |ts| && ts[i] == t
        && forall j :: 0 <= j < i && ts[j] in part ==> part[ts[j]] * Influence(corpus, ts[j]) < part[t] * Influence(corpus, t);
      assert ts[i] in ts && ts[k] in part;
      assert i == k;
    }
  }

  lemma PickYields(nc: Parts, g: Ngram, weight: Token -> int, corpus: Corpus, samples: int, percent: int, order: Part -> seq<Token>, t: Token)
    requires ValidOrder(order) && (forall u :: weight(u) == Influence(corpus, u)) && t != NULL_TOKEN
    ensures PickFrom(nc, g, weight, samples, percent, order) == t <==> Yields(nc, g, corpus, samples, percent, order, t)
  {
    hide Scan, Total, FirstTop;
    if g in nc {
      var part, ts := nc[g], order(nc[g]);
      ScanIsFirstTop(ts, part, weight, corpus, t);
      NothingScanned(ts, part, weight);
    }
  }

  lemma {:induction false} NothingScanned(ts: seq<Token>, part: Part, weight: Token -> int)
    requires IsOrder(ts, part)
    ensures var b := Scan(ts, part, weight);
            if BestHeft(b) > 0 then b.token in part && b.primary == part[b.token] else b == Best(NULL_TOKEN, 0, 0)
  {
    ScanTop(ts, part, weight);
  }

  lemma PickSilent(nc: Parts, g: Ngram, weight: Token -> int, corpus: Corpus, samples: int, percent: int, order: Part -> seq<Token>)
    requires ValidOrder(order) && forall u :: weight(u) == Influence(corpus, u)
    ensures PickFrom(nc, g, weight, samples, percent, order) == NULL_TOKEN <==> Silent(nc, g, corpus, samples, percent, order)
  {
    hide PickFrom, Yields;
    var p := PickFrom(nc, g, weight, samples, percent, order);
    if p != NULL_TOKEN {
      PickYields(nc, g, weight, corpus, samples, percent, order, p);
    } else {
      forall t
        ensures !Yields(nc, g, corpus, samples, percent, order, t)
      {
        if t != NULL_TOKEN {
          PickYields(nc, g, weight, corpus, samples, percent, order, t);
        } else {
          NeverNull(nc, g, corpus, samples, percent, order);
        }
      }
    }
  }

  lemma NeverNull(nc: Parts, g: Ngram, corpus: Corpus, samples: int, percent: int, order: Part -> seq<Token>)
    requires ValidOrder(order)
    ensures !Yields(nc, g, corpus, samples, percent, order, NULL_TOKEN)
  {
  }

  // ---- the longest one ----

  lemma SuffixIsLast(inp: seq<Token>, draft: seq<Token>, size: nat)
    requires draft != [] && size <= |inp|
    ensures Suffix(inp, draft, size) == LastTokens(inp + draft[1..], size)
  {
  }

  /** The longest of the sizes below `end` yields `t`. */
  ghost predicate LongestBelow(nc: Parts, text: seq<Token>, min: nat, end: nat, corpus: Corpus, samples: seq<int>, percents: seq<int>,
                               order: Part -> seq<Token>, t: Token)
    requires ValidOrder(order) && end <= |text| + 1 && end <= min + |samples| && |samples| == |percents|
  {
    exists size: nat :: min <= size < end
      && Yields(nc, LastTokens(text, size), corpus, samples[size - min], percents[size - min], order, t)
      && forall longer: nat :: size < longer < end ==>
           Silent(nc, LastTokens(text, longer), corpus, samples[longer - min], percents[longer - min], order)
  }

  ghost predicate SilentBelow(nc: Parts, text: seq<Token>, min: nat, end: nat, corpus: Corpus, samples: seq<int>, percents: seq<int>,
                              order: Part -> seq<Token>)
    requires ValidOrder(order) && end <= |text| + 1 && end <= min + |samples| && |samples| == |percents|
  {
    forall size: nat :: min <= size < end ==>
      Silent(nc, LastTokens(text, size), corpus, samples[size - min], percents[size - min], order)
  }

  lemma {:induction false} PrimaryYields(nc: Parts, inp: seq<Token>, draft: seq<Token>, min: nat, max: nat, n: nat, part: Part,
                                         samples: seq<int>, percents: seq<int>, order: Part -> seq<Token>, t: Token)
    requires draft != [] && min <= max <= |inp| && ValidOrder(order)
    requires n <= |Suffixes(inp, draft, min, max)| <= |samples| == |percents|
    ensures var text, gs := inp + draft[1..], Suffixes(inp, draft, min, max);
            && (t != NULL_TOKEN ==>
                  (PrimaryPick(nc, gs, n, part, samples, percents, order) == t
                   <==> LongestBelow(nc, text, min, min + n, Weighted(part), samples, percents, order, t)))
            && (PrimaryPick(nc, gs, n, part, samples, percents, order) == NULL_TOKEN
                <==> SilentBelow(nc, text, min, min + n, Weighted(part), samples, percents, order))
    decreases n
  {
    hide PickFrom, Yields, LastTokens, Silent, Suffix;
    if n > 0 {
      var text, gs, size := inp + draft[1..], Suffixes(inp, draft, min, max), min + n - 1;
      var weight := (u: Token) => StaticWeight(part, u);
      PrimaryYields(nc, inp, draft, min, max, n - 1, part, samples, percents, order, t);
      SuffixIsLast(inp, draft, size);
      var p := PickFrom(nc, gs[n - 1], t => StaticWeight(part, t), samples[n - 1], percents[n - 1], order);
      PickSilent(nc, gs[n - 1], t => StaticWeight(part, t), Weighted(part), samples[n - 1], percents[n - 1], order);
      if t != NULL_TOKEN {
        PickYields(nc, gs[n - 1], t => StaticWeight(part, t), Weighted(part), samples[n - 1], percents[n - 1], order, t);
        LongestStep(nc, text, min, min + n, Weighted(part), samples, percents, order, t);
        YieldsOne(nc, gs[n - 1], t => StaticWeight(part, t), Weighted(part), samples[n - 1], percents[n - 1], order, p, t);
      }
      SilentStep(nc, text, min, min + n, Weighted(part), samples, percents, order);
    }
  }

  lemma YieldsOne(nc: Parts, g: Ngram, weight: Token -> int, corpus: Corpus, samples: int, percent: int, order: Part -> seq<Token>, p: Token, t: Token)
    requires ValidOrder(order) && (forall u :: weight(u) == Influence(corpus, u)) && p == PickFrom(nc, g, weight, samples, percent, order)
    ensures Yields(nc, g, corpus, samples, percent, order, t) ==> t == p
  {
    hide PickFrom, Yields;
    if t != NULL_TOKEN {
      PickYields(nc, g, weight, corpus, samples, percent, order, t);
    } else {
      NeverNull(nc, g, corpus, samples, percent, order);
    }
  }

  /** The greatest size decides, or the ones below it do. */
  lemma LongestStep(nc: Parts, text: seq<Token>, min: nat, end: nat, corpus: Corpus, samples: seq<int>, percents: seq<int>,
                    order: Part -> seq<Token>, t: Token)
    requires ValidOrder(order) && min < end <= |text| + 1 && end <= min + |samples| && |samples| == |percents|
    ensures var g := LastTokens(text, end - 1);
            LongestBelow(nc, text, min, end, corpus, samples, percents, order, t)
            <==> || Yields(nc, g, corpus, samples[end - 1 - min], percents[end - 1 - min], order, t)
                 || (&& Silent(nc, g, corpus, samples[end - 1 - min], percents[end - 1 - min], order)
                     && LongestBelow(nc, text, min, end - 1, corpus, samples, percents, order, t))
  {
    hide Yields, LastTokens, Silent;
    var top := end - 1;
    if LongestBelow(nc, text, min, end, corpus, samples, percents, order, t) {
      var size: nat :| min <= size < end
        && Yields(nc, LastTokens(text, size), corpus, samples[size - min], percents[size - min], order, t)
        && forall longer: nat :: size < longer < end ==>
             Silent(nc, LastTokens(text, longer), corpus, samples[longer - min], percents[longer - min], order);
      assert size < top ==> Silent(nc, LastTokens(text, top), corpus, samples[top - min], percents[top - min], order);
    }
    if Yields(nc, LastTokens(text, top), corpus, samples[top - min], percents[top - min], order, t) {
      assert LongestBelow(nc, text, min, end, corpus, samples, percents, order, t);
    }
  }

  lemma SilentStep(nc: Parts, text: seq<Token>, min: nat, end: nat, corpus: Corpus, samples: seq<int>, percents: seq<int>, order: Part -> seq<Token>)
    requires ValidOrder(order) && min < end <= |text| + 1 && end <= min + |samples| && |samples| == |percents|
    ensures SilentBelow(nc, text, min, end, corpus, samples, percents, order)
            <==> && Silent(nc, LastTokens(text, end - 1), corpus, samples[end - 1 - min], percents[end - 1 - min], order)
                 && SilentBelow(nc, text, min, end - 1, corpus, samples, percents, order)
  {
    hide Yields, LastTokens, Silent;
  }

  // ---- the main results ----

  lemma TablesAre()
    ensures MIN_SAMPLE_SIZE_LAX == [2, 2, 1, 1] && MIN_PERCENT_LAX == [66, 50, 50, 50]
    ensures MIN_SAMPLE_SIZE_STRICT == [4, 3, 2, 2] && MIN_PERCENT_STRICT == [75, 66, 66, 66]
    ensures MIN_SAMPLE_SIZE_LAX[NGRAM_STATIC - 1] == 2 && MIN_PERCENT_LAX[NGRAM_STATIC - 1] == 50
    ensures NGRAM_STATIC == 2 && NGRAM_MAX == 4 && NULL_TOKEN == -1
  {
  }

  lemma {:induction false} NothingAsked(nc: Parts, gs: seq<Ngram>, part: Part, samples: seq<int>, percents: seq<int>, order: Part -> seq<Token>)
    requires ValidOrder(order) && |gs| <= |samples| == |percents|
    ensures PrimaryPick(nc, gs, 0, part, samples, percents, order) == -1
  {
  }

  lemma {:induction false} CacheFollows(nc: Parts, inp: seq<Token>, draft: seq<Token>, min: nat, max: nat, part: Part,
                     samples: seq<int>, percents: seq<int>, order: Part -> seq<Token>, t: Token)
    requires draft != [] && 1 <= min && max <= 4 && max <= |inp| && ValidOrder(order) && |samples| == |percents| == 4
    ensures var text, gs := inp + draft[1..], Suffixes(inp, draft, min, max);
            && |gs| <= 4
            && (t != -1 ==>
                  (PrimaryPick(nc, gs, |gs|, part, samples, percents, order) == t
                   <==> LongestYields(nc, text, min, max, Weighted(part), samples, percents, order, t)))
            && (PrimaryPick(nc, gs, |gs|, part, samples, percents, order) == -1
                <==> AllSilent(nc, text, min, max, Weighted(part), samples, percents, order))
  {
    hide Yields, LastTokens, Silent, PrimaryPick;
    var text, gs := inp + draft[1..], Suffixes(inp, draft, min, max);
    if min <= max {
      PrimaryYields(nc, inp, draft, min, max, |gs|, part, samples, percents, order, t);
      assert LongestYields(nc, text, min, max, Weighted(part), samples, percents, order, t)
             <==> LongestBelow(nc, text, min, min + |gs|, Weighted(part), samples, percents, order, t);
      assert AllSilent(nc, text, min, max, Weighted(part), samples, percents, order)
             <==> SilentBelow(nc, text, min, min + |gs|, Weighted(part), samples, percents, order);
    } else {
      NothingAsked(nc, gs, part, samples, percents, order);
    }
  }

  /** The next token is `t` if and only if `t` follows the text. */
  lemma NextFollows(inp: seq<Token>, draft: seq<Token>, min: nat, max: nat, nc: Caches, order: Part -> seq<Token>, t: Token)
    requires draft != [] && 1 <= min && max <= 4 && max <= |inp| && 2 <= |inp| && ValidOrder(order) && t != -1
    ensures NextToken(inp, draft, min, max, nc, order) == t <==> Follows(inp + draft[1..], min, max, nc, order, t)
  {
    hide Yields, LastTokens, Silent, PrimaryPick, PickFrom, LongestYields, AllSilent, Suffix, Suffixes;
    TablesAre();
    var text, pair := inp + draft[1..], LastTokens(inp + draft[1..], 2);
    SuffixIsLast(inp, draft, 2);
    var part: Part := if pair in nc.stat then nc.stat[pair] else map[];
    CacheFollows(nc.context, inp, draft, min, max, part, [2, 2, 1, 1], [66, 50, 50, 50], order, t);
    CacheFollows(nc.dyn, inp, draft, min, max, part, [4, 3, 2, 2], [75, 66, 66, 66], order, t);
    PickYields(nc.stat, pair, _ => 1, Unweighted, 2, 50, order, t);
  }

  /** And nothing is next if and only if nothing follows. */
  lemma NothingFollows(inp: seq<Token>, draft: seq<Token>, min: nat, max: nat, nc: Caches, order: Part -> seq<Token>)
    requires draft != [] && 1 <= min && max <= 4 && max <= |inp| && 2 <= |inp| && ValidOrder(order)
    ensures NextToken(inp, draft, min, max, nc, order) == -1
            <==> forall t :: t != -1 ==> !Follows(inp + draft[1..], min, max, nc, order, t)
  {
    hide NextToken, Follows;
    forall t | t != -1
      ensures NextToken(inp, draft, min, max, nc, order) == t <==> Follows(inp + draft[1..], min, max, nc, order, t)
    {
      NextFollows(inp, draft, min, max, nc, order, t);
    }
    var v := NextToken(inp, draft, min, max, nc, order);
    assert v != -1 ==> Follows(inp + draft[1..], min, max, nc, order, v);
  }

  /** Every token of a draft follows the text with what was drafted before it, and the draft ends early only if nothing follows. */
  lemma {:induction false} DraftFollows(inp: seq<Token>, draft: seq<Token>, n: int, min: nat, max: nat, nc: Caches, order: Part -> seq<Token>)
    requires draft != [] && 1 <= min && max <= 4 && max <= |inp| && 2 <= |inp| && ValidOrder(order)
    ensures var r := Continue(inp, draft, n, min, max, nc, order);
            && draft <= r && (|r| > |draft| ==> |r| - 1 <= n)
            && (forall k :: |draft| <= k < |r| ==> Follows(inp + r[1..k], min, max, nc, order, r[k]))
            && (|r| - 1 < n ==> forall t :: t != -1 ==> !Follows(inp + r[1..], min, max, nc, order, t))
  {
    hide NextToken, Follows;
    var r := Continue(inp, draft, n, min, max, nc, order);
    DraftIsGreedy(inp, draft, n, min, max, nc, order);
    forall k | |draft| <= k < |r|
      ensures Follows(inp + r[1..k], min, max, nc, order, r[k])
    {
      assert r[..k][1..] == r[1..k];
      NextFollows(inp, r[..k], min, max, nc, order, r[k]);
    }
    NothingFollows(inp, r, min, max, nc, order);
  }
}
