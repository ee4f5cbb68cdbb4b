/**
 Dense tensors as PyTorch lays them out: a shape, and the elements in row-major order. Numbers are
 exact. The operations here are the ones the factored tensors of convert_lora_to_gguf.py use.
 */
module Tensors {
  import opened CommonStrings

  datatype Tensor = Tensor(shape: seq<nat>, data: seq<real>) {
    ghost predicate Valid() {
      |data| == Prod(shape)
    }
  }

  function Prod(shape: seq<nat>): nat {
    if shape == [] then 1 else Prod(shape[..|shape| - 1]) * shape[|shape| - 1]
  }

  function At(data: seq<real>, i: int): real {
    if 0 <= i < |data| then data[i] else 0.0
  }

  // ---- indices ----

  /** A list of indices, one for each dimension. */
  ghost predicate InShape(shape: seq<nat>, index: seq<nat>) {
    |index| == |shape| && forall i :: 0 <= i < |shape| ==> index[i] < shape[i]
  }

  function Flat(shape: seq<nat>, index: seq<nat>): nat
    requires |index| == |shape|
    decreases |shape|
  {
    if shape == [] then 0 else
    var n := |shape| - 1;
    Flat(shape[..n], index[..n]) * shape[n] + index[n]
  }

  function Unflat(shape: seq<nat>, k: nat): (index: seq<nat>)
    ensures |index| == |shape|
    decreases |shape|
  {
    if shape == [] then [] else
    var n := |shape| - 1;
    if shape[n] == 0 then seq(n + 1, _ => 0) else Unflat(shape[..n], k / shape[n]) + [k % shape[n]]
  }

  lemma DivMod(q: nat, d: nat, r: nat)
    requires r < d
    ensures (q * d + r) / d == q && (q * d + r) % d == r
  {
    var x := q * d + r;
    assert x == x / d * d + x % d;
    if x / d < q {
      Below(x / d, q, d);
    }
    if x / d > q {
      Below(q, x / d, d);
    }
  }

  lemma Below(a: nat, b: nat, d: nat)
    requires a < b
    ensures a * d + d <= b * d
  {
    assert b * d == a * d + (b - a) * d;
    assert (b - a) * d >= d by {
      assert (b - a) * d == d + (b - a - 1) * d;
    }
  }

  /** Row-major order counts through every list of indices once. */
  lemma {:induction false} FlatInRange(shape: seq<nat>, index: seq<nat>)
    requires InShape(shape, index)
    ensures Flat(shape, index) < Prod(shape)
    decreases |shape|
  {
    if shape != [] {
      var n := |shape| - 1;
      FlatInRange(shape[..n], index[..n]);
      Below(Flat(shape[..n], index[..n]), Prod(shape[..n]), shape[n]);
    }
  }

  lemma DivBelow(k: nat, a: nat, d: nat)
    requires k < a * d
    ensures d > 0 && k / d < a
  {
    assert d == 0 ==> a * d == 0;
    assert k == k / d * d + k % d;
    NotLess(a, k / d, d);
  }

  lemma NotLess(a: nat, b: nat, d: nat)
    ensures a <= b ==> a * d <= b * d
  {
    if a < b {
      Below(a, b, d);
    }
  }

  lemma {:induction false} UnflatInShape(shape: seq<nat>, k: nat)
    requires k < Prod(shape)
    ensures InShape(shape, Unflat(shape, k)) && Flat(shape, Unflat(shape, k)) == k
    decreases |shape|
  {
    if shape != [] {
      var n := |shape| - 1;
      DivBelow(k, Prod(shape[..n]), shape[n]);
      UnflatInShape(shape[..n], k / shape[n]);
      assert Unflat(shape, k)[..n] == Unflat(shape[..n], k / shape[n]);
      assert k == k / shape[n] * shape[n] + k % shape[n];
    }
  }

  // ---- reshape, permute, concatenation ----

  /** The elements stay where they are; their number has to fit. */
  function Reshaped(t: Tensor, shape: seq<nat>): Option<Tensor> {
    if |t.data| == Prod(shape) then Some(Tensor(shape, t.data)) else None
  }

  ghost predicate IsPerm(p: seq<nat>, n: nat) {
    |p| == n && (forall i :: 0 <= i < n ==> p[i] < n) && forall j: nat :: j < n ==> j in p
  }

  function IndexOf(p: seq<nat>, j: nat): (i: nat)
    requires j in p
    ensures i < |p| && p[i] == j
  {
    if p[0] == j then 0 else 1 + IndexOf(p[1..], j)
  }

  function PermutedShape(shape: seq<nat>, p: seq<nat>): (r: seq<nat>)
    requires IsPerm(p, |shape|)
    ensures |r| == |p| && forall i :: 0 <= i < |p| ==> r[i] == shape[p[i]]
  {
    seq(|p|, i requires 0 <= i < |p| => shape[p[i]])
  }

  /** Dimension `i` of the result is dimension `p[i]` of the source, so the indices go back the other way. */
  function Gather(p: seq<nat>, index: seq<nat>): (r: seq<nat>)
    requires IsPerm(p, |index|)
    ensures |r| == |index| && forall j :: 0 <= j < |r| ==> r[j] == index[IndexOf(p, j)]
  {
    seq(|index|, j requires 0 <= j < |index| => index[IndexOf(p, j)])
  }

  /** Where element `k` of the permuted tensor comes from. */
  function SourceIndex(shape: seq<nat>, p: seq<nat>, k: nat): nat
    requires IsPerm(p, |shape|)
  {
    Flat(shape, Gather(p, Unflat(PermutedShape(shape, p), k)))
  }

  function Permuted(t: Tensor, p: seq<nat>): (r: Tensor)
    requires IsPerm(p, |t.shape|)
    ensures r.Valid()
  {
    var shape := PermutedShape(t.shape, p);
    Tensor(shape, seq(Prod(shape), k requires 0 <= k < Prod(shape) => At(t.data, SourceIndex(t.shape, p, k))))
  }

  /** Every element of a permuted tensor comes from inside the source. */
  lemma {:induction false} SourceInRange(shape: seq<nat>, p: seq<nat>, k: nat)
    requires IsPerm(p, |shape|) && k < Prod(PermutedShape(shape, p))
    ensures SourceIndex(shape, p, k) < Prod(shape)
  {
    hide Unflat, Flat, Gather, PermutedShape, Prod;
    var index := Unflat(PermutedShape(shape, p), k);
    UnflatInShape(PermutedShape(shape, p), k);
    GatherInShape(shape, p, index);
    FlatInRange(shape, Gather(p, index));
  }

  lemma GatherInShape(shape: seq<nat>, p: seq<nat>, index: seq<nat>)
    requires IsPerm(p, |shape|) && InShape(PermutedShape(shape, p), index)
    ensures InShape(shape, Gather(p, index))
  {
    hide IndexOf;
    forall j | 0 <= j < |shape|
      ensures Gather(p, index)[j] < shape[j]
    {
      assert index[IndexOf(p, j)] < PermutedShape(shape, p)[IndexOf(p, j)];
    }
  }

  /** With the last dimension fixed, whole rows move: the row moves as its leading indices do. */
  lemma LastFixed(shape: seq<nat>, p: seq<nat>, k: nat)
    requires shape != [] && IsPerm(p, |shape|) && p[|p| - 1] == |shape| - 1 && shape[|shape| - 1] > 0
    ensures var n, d := |shape| - 1, shape[|shape| - 1];
            && IsPerm(p[..n], n)
            && PermutedShape(shape, p) == PermutedShape(shape[..n], p[..n]) + [d]
            && SourceIndex(shape, p, k) == SourceIndex(shape[..n], p[..n], k / d) * d + k % d
  {
    var n, d := |shape| - 1, shape[|shape| - 1];
    LeadingPerm(p);
    var lead := PermutedShape(shape[..n], p[..n]);
    assert PermutedShape(shape, p) == lead + [d];
    assert (lead + [d])[..n] == lead;
    var u := Unflat(lead, k / d);
    assert Unflat(lead + [d], k) == u + [k % d];
    forall j | 0 <= j < n
      ensures IndexOf(p, j) == IndexOf(p[..n], j)
    {
      IndexOfPrefix(p, n, j);
    }
    LastIndex(p);
    assert Gather(p, u + [k % d]) == Gather(p[..n], u) + [k % d];
    assert (Gather(p[..n], u) + [k % d])[..n] == Gather(p[..n], u);
  }

  /** The first `n` entries of a permutation that keeps `n` last are a permutation. */
  lemma LeadingPerm(p: seq<nat>)
    requires p != [] && IsPerm(p, |p|) && p[|p| - 1] == |p| - 1
    ensures IsPerm(p[..|p| - 1], |p| - 1)
  {
    var n := |p| - 1;
    forall j: nat | j < n
      ensures j in p[..n]
    {
      assert j in p;
      var i :| 0 <= i < |p| && p[i] == j;
      assert p[..n][i] == j;
    }
    OnlyLast(p);
  }

  /** The greatest number is not hit twice, since all the others need a place too. */
  lemma OnlyLast(p: seq<nat>)
    requires p != [] && IsPerm(p, |p|) && p[|p| - 1] == |p| - 1
    ensures forall i :: 0 <= i < |p| - 1 ==> p[i] < |p| - 1
  {
    var n := |p| - 1;
    forall i | 0 <= i < n
      ensures p[i] != n
    {
      if p[i] == n {
        var rest := p[..i] + p[i + 1..n];
        forall j: nat | j < n
          ensures j in rest
        {
          assert j in p;
          var m :| 0 <= m < |p| && p[m] == j;
          assert rest[if m < i then m else m - 1] == j;
        }
        Pigeons(rest, n);
        assert false;
      }
    }
  }

  /** A list that holds all numbers below `n` is at least so long. */
  lemma {:induction false} Pigeons(s: seq<nat>, n: nat)
    requires forall j: nat :: j < n ==> j in s
    ensures n <= |s|
    decreases n
  {
    if n > 0 {
      var last: nat := n - 1;
      assert last in s;
      var i :| 0 <= i < |s| && s[i] == last;
      var rest := s[..i] + s[i + 1..];
      forall j: nat | j < n - 1
        ensures j in rest
      {
        assert j in s;
        var m :| 0 <= m < |s| && s[m] == j;
        assert rest[if m < i then m else m - 1] == j;
      }
      Pigeons(rest, n - 1);
    }
  }

  lemma {:induction false} IndexOfPrefix(p: seq<nat>, n: nat, j: nat)
    requires n <= |p| && j in p[..n] && j in p
    ensures IndexOf(p, j) == IndexOf(p[..n], j)
    decreases n
  {
    if p[0] != j {
      assert p[..n][1..] == p[1..][..n - 1];
      assert p[..n][0] == p[0];
      IndexOfPrefix(p[1..], n - 1, j);
    }
  }

  lemma {:induction false} LastIndex(p: seq<nat>)
    requires p != [] && IsPerm(p, |p|) && p[|p| - 1] == |p| - 1
    ensures IndexOf(p, |p| - 1) == |p| - 1
  {
    OnlyLast(p);
  }

  /** Transposing a matrix. */
  lemma TwoByTwo(shape: seq<nat>, k: nat)
    requires |shape| == 2 && k < shape[1] * shape[0]
    ensures IsPerm([1, 0], 2) && PermutedShape(shape, [1, 0]) == [shape[1], shape[0]]
    ensures Prod([shape[1], shape[0]]) == shape[1] * shape[0]
    ensures shape[0] > 0 && SourceIndex(shape, [1, 0], k) == k % shape[0] * shape[1] + k / shape[0]
  {
    var p: seq<nat> := [1, 0];
    var m, n := shape[0], shape[1];
    assert p[0] == 1 && p[1] == 0;
    assert IndexOf(p, 1) == 0;
    assert p[1..] == [0] && IndexOf([0], 0) == 0 && IndexOf(p, 0) == 1;
    DivBelow(k, n, m);
    var turned: seq<nat> := [n, m];
    assert turned[..1] == [n] && [n][..0] == [] && Prod([n]) == n;
    Small(k / m, n);
    assert Unflat([n], k / m) == [k / m];
    assert Unflat(turned, k) == [k / m, k % m];
    var index := Gather(p, [k / m, k % m]);
    assert index == [k % m, k / m];
    assert shape[..1] == [m] && [k % m, k / m][..1] == [k % m];
    assert Flat([m], [k % m]) == k % m by {
      assert [m][..0] == [] && [k % m][..0] == [];
    }
  }

  lemma Small(q: nat, d: nat)
    requires q < d
    ensures q % d == q && q / d == 0
  {
  }
}
