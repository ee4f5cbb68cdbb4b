/**
 Choosing a token from the counts after an n-gram: both `try_draft` functions, ngram-cache.cpp:59-147.
 The order in which a hash map is walked is a parameter, so that everything below holds whatever it is.
 */
module NgramPick {
  import opened NgramCache

  ghost predicate Within(ts: seq<Token>, part: Part) {
    forall i :: 0 <= i < |ts| ==> ts[i] in part
  }

  /** `ts` walks the entries of `part`, each once. */
  ghost predicate IsOrder(ts: seq<Token>, part: Part) {
    && (forall i, j :: 0 <= i < j < |ts| ==> ts[i] != ts[j])
    && Within(ts, part) && forall t :: t in part ==> t in ts
  }

  ghost predicate ValidOrder(order: Part -> seq<Token>) {
    forall part :: IsOrder(order(part), part)
  }

  /** The token chosen so far with its two counts: `max_token`, `max_count_primary`, `max_count_static`. */
  datatype Best = Best(token: Token, primary: int, weight: int)

  /** What the static cache makes of a token: a hundred times its count, or one. */
  function StaticWeight(partStatic: Part, t: Token): int {
    if t in partStatic then 100 * partStatic[t] else 1
  }

  /** `count_primary * count_static` of an entry. */
  function Heft(part: Part, weight: Token -> int, t: Token): int
    requires t in part
  {
    part[t] * weight(t)
  }

  function BestHeft(b: Best): int {
    b.primary * b.weight
  }

  function Scan(ts: seq<Token>, part: Part, weight: Token -> int): Best
    requires Within(ts, part)
  {
    if ts == [] then Best(NULL_TOKEN, 0, 0) else
    var n := |ts| - 1;
    var b, t := Scan(ts[..n], part, weight), ts[n];
    if Heft(part, weight, t) > BestHeft(b) then Best(t, part[t], weight(t)) else b
  }

  function Total(ts: seq<Token>, part: Part): int
    requires Within(ts, part)
  {
    if ts == [] then 0 else Total(ts[..|ts| - 1], part) + part[ts[|ts| - 1]]
  }

  /** The thresholds: enough samples, and a large enough share of them. */
  predicate Passes(count: int, total: int, minSample: int, minPercent: int) {
    total >= minSample && 100 * count >= minPercent * total
  }

  function Pick(ts: seq<Token>, part: Part, weight: Token -> int, minSample: int, minPercent: int): Token
    requires Within(ts, part)
  {
    var b := Scan(ts, part, weight);
    if Passes(b.primary, Total(ts, part), minSample, minPercent) then b.token else NULL_TOKEN
  }

  // ---- whatever the order ----

  /** `t` has the greatest weighted count, and a positive one. */
  ghost predicate Top(part: Part, weight: Token -> int, t: Token) {
    t in part && Heft(part, weight, t) > 0 && forall u :: u in part ==> Heft(part, weight, u) <= Heft(part, weight, t)
  }

  /** The entry at `i` is chosen: all before it weigh less. */
  ghost predicate Chosen(ts: seq<Token>, part: Part, weight: Token -> int, i: nat, b: Best)
    requires Within(ts, part)
  {
    && i < |ts| && b == Best(ts[i], part[ts[i]], weight(ts[i]))
    && forall j :: 0 <= j < i ==> Heft(part, weight, ts[j]) < Heft(part, weight, ts[i])
  }

  /** The scan ends with the first of the entries that weigh most, or with none if none is positive. */
  lemma {:induction false} ScanFirst(ts: seq<Token>, part: Part, weight: Token -> int) returns (i: nat)
    requires Within(ts, part)
    ensures var b := Scan(ts, part, weight);
            && BestHeft(b) >= 0
            && (forall u :: u in ts ==> Heft(part, weight, u) <= BestHeft(b))
            && if BestHeft(b) == 0 then b == Best(NULL_TOKEN, 0, 0) else Chosen(ts, part, weight, i, b)
    decreases |ts|
  {
    i := 0;
    if ts != [] {
      var n := |ts| - 1;
      var b, t := Scan(ts[..n], part, weight), ts[n];
      var k := ScanFirst(ts[..n], part, weight);
      assert ts == ts[..n] + [t];
      if Heft(part, weight, t) > BestHeft(b) {
        i := n;
        assert BestHeft(Scan(ts, part, weight)) == Heft(part, weight, t);
        forall j | 0 <= j < n
          ensures Heft(part, weight, ts[j]) < Heft(part, weight, ts[n])
        {
          assert ts[..n][j] == ts[j] && ts[j] in ts[..n];
        }
      } else {
        i := k;
        if BestHeft(b) != 0 {
          forall j | 0 <= j < i
            ensures Heft(part, weight, ts[j]) < Heft(part, weight, ts[i])
          {
            assert ts[..n][j] == ts[j] && ts[..n][i] == ts[i];
          }
        }
      }
    }
  }

  function Without(ts: seq<Token>, i: nat): (r: seq<Token>)
    requires i < |ts|
  {
    ts[..i] + ts[i + 1..]
  }

  lemma {:induction false} TotalWithout(ts: seq<Token>, part: Part, i: nat)
    requires i < |ts| && Within(ts, part)
    ensures Within(Without(ts, i), part)
    ensures Total(ts, part) == Total(Without(ts, i), part) + part[ts[i]]
    decreases |ts|
  {
    var n := |ts| - 1;
    if i == n {
      assert Without(ts, i) == ts[..n];
    } else {
      TotalWithout(ts[..n], part, i);
      assert Without(ts, i)[..n - 1] == Without(ts[..n], i);
      assert Without(ts, i)[n - 1] == ts[n];
    }
  }

  /** The sum of the counts does not depend on the order. */
  lemma {:induction false} TotalSame(a: seq<Token>, b: seq<Token>, part: Part)
    requires IsOrder(a, part) && IsOrder(b, part)
    ensures Total(a, part) == Total(b, part)
    decreases |a|
  {
    assert |b| > 0 ==> b[0] in part;
    if a == [] {
      assert forall t: Token :: t !in part;
    } else {
      var n := |a| - 1;
      var t := a[n];
      assert t in b;
      var i :| 0 <= i < |b| && b[i] == t;
      var rest := part - {t};
      OrderWithout(a, part, n);
      OrderWithout(b, part, i);
      assert Without(a, n) == a[..n];
      TotalSame(a[..n], Without(b, i), rest);
      TotalWithout(b, part, i);
      TotalRestricted(a[..n], part, t);
      TotalRestricted(Without(b, i), part, t);
    }
  }

  lemma OrderWithout(ts: seq<Token>, part: Part, i: nat)
    requires IsOrder(ts, part) && i < |ts|
    ensures IsOrder(Without(ts, i), part - {ts[i]})
  {
    var rest := Without(ts, i);
    assert forall j :: 0 <= j < |rest| ==> rest[j] == if j < i then ts[j] else ts[j + 1];
    forall t: Token
      ensures t in rest <==> t in part - {ts[i]}
    {
      if t in part - {ts[i]} {
        var j :| 0 <= j < |ts| && ts[j] == t;
        assert rest[if j < i then j else j - 1] == t;
      }
    }
  }

  lemma {:induction false} TotalRestricted(ts: seq<Token>, part: Part, t: Token)
    requires Within(ts, part) && t !in ts
    ensures Within(ts, part - {t})
    ensures Total(ts, part) == Total(ts, part - {t})
    decreases |ts|
  {
    if ts != [] {
      TotalRestricted(ts[..|ts| - 1], part, t);
    }
  }

  /** A pick has the greatest weighted count and meets both thresholds, in any order. */
  lemma {:induction false} PickIsTop(ts: seq<Token>, part: Part, weight: Token -> int, minSample: int, minPercent: int, others: seq<Token>)
    requires IsOrder(ts, part) && IsOrder(others, part)
    ensures var p := Pick(ts, part, weight, minSample, minPercent);
            p != NULL_TOKEN ==> Top(part, weight, p) && Passes(part[p], Total(others, part), minSample, minPercent)
  {
    var i := ScanFirst(ts, part, weight);
    TotalSame(ts, others, part);
  }

  /** And nothing is picked only when nothing is positive or what the scan chose does not pass. */
  lemma {:induction false} NoPick(ts: seq<Token>, part: Part, weight: Token -> int, minSample: int, minPercent: int)
    requires IsOrder(ts, part) && NULL_TOKEN !in part
    requires Pick(ts, part, weight, minSample, minPercent) == NULL_TOKEN
    ensures (forall t :: !Top(part, weight, t))
            || exists t :: Top(part, weight, t) && !Passes(part[t], Total(ts, part), minSample, minPercent)
  {
    var i := ScanFirst(ts, part, weight);
    var b := Scan(ts, part, weight);
    if BestHeft(b) > 0 {
      assert Top(part, weight, b.token);
    }
  }

  // ---- when the order matters ----

  ghost predicate OrderFree(part: Part, weight: Token -> int, minSample: int, minPercent: int) {
    forall a, b :: IsOrder(a, part) && IsOrder(b, part) ==>
      Pick(a, part, weight, minSample, minPercent) == Pick(b, part, weight, minSample, minPercent)
  }

  /** Tokens that tie for the greatest weighted count all fail the thresholds. */
  ghost predicate Settled(part: Part, total: int, weight: Token -> int, minSample: int, minPercent: int) {
    forall t, u :: Top(part, weight, t) && Top(part, weight, u) && t != u ==>
      !Passes(part[t], total, minSample, minPercent) && !Passes(part[u], total, minSample, minPercent)
  }

  lemma {:induction false} SomeOrder(part: Part) returns (ts: seq<Token>)
    ensures IsOrder(ts, part)
    decreases |part|
  {
    if part.Keys == {} {
      ts := [];
      assert forall t :: t !in part;
    } else {
      KeyOf(part);
      var t: Token :| t in part;
      var rest := SomeOrder(part - {t});
      ts := rest + [t];
    }
  }

  lemma KeyOf(part: Part)
    ensures part.Keys != {} ==> exists t :: t in part
  {
    if forall t: Token :: t !in part {
      assert part.Keys == {};
    }
  }

  lemma OrderStarting(part: Part, t: Token) returns (ts: seq<Token>)
    requires t in part
    ensures IsOrder(ts, part) && ts[0] == t
  {
    var rest := SomeOrder(part - {t});
    ts := [t] + rest;
    assert forall i :: 0 < i < |ts| ==> ts[i] == rest[i - 1];
    forall u | u in part
      ensures u in ts
    {
      assert u != t ==> u in rest;
    }
  }

  /** A token of the greatest weighted count that comes first is what the scan ends with. */
  lemma {:induction false} TopFirst(ts: seq<Token>, part: Part, weight: Token -> int)
    requires IsOrder(ts, part) && ts != [] && Top(part, weight, ts[0])
    ensures Scan(ts, part, weight) == Best(ts[0], part[ts[0]], weight(ts[0]))
  {
    var i := ScanFirst(ts, part, weight);
    assert ts[0] in ts;
    assert ts[i] in ts;
  }

  /** Every order's scan ends at the same weighted count. */
  lemma {:induction false} SameHeft(a: seq<Token>, b: seq<Token>, part: Part, weight: Token -> int)
    requires IsOrder(a, part) && IsOrder(b, part)
    ensures BestHeft(Scan(a, part, weight)) == BestHeft(Scan(b, part, weight))
  {
    var i := ScanFirst(a, part, weight);
    var j := ScanFirst(b, part, weight);
    var x, y := Scan(a, part, weight), Scan(b, part, weight);
    assert BestHeft(x) > 0 ==> a[i] in a && BestHeft(x) == Heft(part, weight, a[i]) && a[i] in b;
    assert BestHeft(y) > 0 ==> b[j] in b && BestHeft(y) == Heft(part, weight, b[j]) && b[j] in a;
  }

  lemma {:induction false} ScanTop(ts: seq<Token>, part: Part, weight: Token -> int)
    requires IsOrder(ts, part)
    ensures var b := Scan(ts, part, weight);
            if BestHeft(b) > 0 then Top(part, weight, b.token) && b.primary == part[b.token]
            else b == Best(NULL_TOKEN, 0, 0)
  {
    var i := ScanFirst(ts, part, weight);
  }

  lemma {:induction false} SettledSame(part: Part, a: seq<Token>, b: seq<Token>, weight: Token -> int, minSample: int, minPercent: int)
    requires IsOrder(a, part) && IsOrder(b, part) && Settled(part, Total(a, part), weight, minSample, minPercent)
    ensures Pick(a, part, weight, minSample, minPercent) == Pick(b, part, weight, minSample, minPercent)
  {
    hide Scan, Heft, BestHeft, Total;
    TotalSame(a, b, part);
    ScanTop(a, part, weight);
    ScanTop(b, part, weight);
    SameHeft(a, b, part, weight);
  }

  lemma {:induction false} UnsettledDiffers(part: Part, ts: seq<Token>, weight: Token -> int, minSample: int, minPercent: int, t: Token, u: Token)
    requires NULL_TOKEN !in part && IsOrder(ts, part) && Top(part, weight, t) && Top(part, weight, u) && t != u
    requires Passes(part[t], Total(ts, part), minSample, minPercent)
    ensures !OrderFree(part, weight, minSample, minPercent)
  {
    hide Scan, Total;
    var a := OrderStarting(part, t);
    var b := OrderStarting(part, u);
    TopFirst(a, part, weight);
    TopFirst(b, part, weight);
    TotalSame(a, ts, part);
    TotalSame(b, ts, part);
    assert Pick(a, part, weight, minSample, minPercent) != Pick(b, part, weight, minSample, minPercent);
  }

  /** What is picked is the same in every order exactly when no tie for the first place would be picked. */
  lemma {:induction false} OrderFreeIff(part: Part, ts: seq<Token>, weight: Token -> int, minSample: int, minPercent: int)
    requires NULL_TOKEN !in part && IsOrder(ts, part)
    ensures OrderFree(part, weight, minSample, minPercent)
            <==> Settled(part, Total(ts, part), weight, minSample, minPercent)
  {
    hide Pick, Total, Heft, Passes;
    var total := Total(ts, part);
    if Settled(part, total, weight, minSample, minPercent) {
      forall a, b | IsOrder(a, part) && IsOrder(b, part)
        ensures Pick(a, part, weight, minSample, minPercent) == Pick(b, part, weight, minSample, minPercent)
      {
        TotalSame(a, ts, part);
        SettledSame(part, a, b, weight, minSample, minPercent);
      }
    } else {
      var t, u :| Top(part, weight, t) && Top(part, weight, u) && t != u
                  && !(!Passes(part[t], total, minSample, minPercent) && !Passes(part[u], total, minSample, minPercent));
      if Passes(part[t], total, minSample, minPercent) {
        UnsettledDiffers(part, ts, weight, minSample, minPercent, t, u);
      } else {
        UnsettledDiffers(part, ts, weight, minSample, minPercent, u, t);
      }
    }
  }

  /** Two orders of the same counts, and a token picked in one of them only. */
  lemma OrderDecides()
    ensures var part: Part, partStatic: Part := map[1 := 1, 2 := 2], map[1 := 2, 2 := 1];
            && IsOrder([1, 2], part) && IsOrder([2, 1], part)
            && Pick([1, 2], part, t => StaticWeight(partStatic, t), 2, 66) == NULL_TOKEN
            && Pick([2, 1], part, t => StaticWeight(partStatic, t), 2, 66) == 2
  {
    var part: Part, partStatic: Part := map[1 := 1, 2 := 2], map[1 := 2, 2 := 1];
    var w := t => StaticWeight(partStatic, t);
    assert [1, 2][..1] == [1] && [2, 1][..1] == [2];
    assert Scan([], part, w) == Best(NULL_TOKEN, 0, 0);
    assert Scan([1], part, w) == Best(1, 1, 200) && Scan([2], part, w) == Best(2, 2, 100);
    assert Scan([1, 2], part, w) == Best(1, 1, 200) && Scan([2, 1], part, w) == Best(2, 2, 100);
    assert Total([1], part) == 1 && Total([2], part) == 2;
    assert Total([1, 2], part) == 3 && Total([2, 1], part) == 3;
  }
}
