/**
 Factored tensors of more than two dimensions, convert_lora_to_gguf.py:59-79 and 199-215: an index, a
 slice and `torch.cat` go to both factors alike, so A must have a matrix for each one of B. After
 `reshape` it has a single one, which PyTorch spreads over all of them.
 */
module LoraBatches {
  import opened CommonStrings
  import opened Tensors
  import opened Lora
  import opened LoraJoin

  // ---- along the first dimension ----

  lemma {:induction false} ProdFirst(shape: seq<nat>)
    requires shape != []
    ensures Prod(shape) == shape[0] * Prod(shape[1..])
    decreases |shape|
  {
    var n := |shape| - 1;
    if n > 0 {
      ProdFirst(shape[..n]);
      assert shape[..n][1..] == shape[1..][..n - 1];
      assert shape[0] * Prod(shape[1..][..n - 1]) * shape[n] == shape[0] * (Prod(shape[1..][..n - 1]) * shape[n]);
    } else {
      assert shape[..0] == [] && shape[1..] == [];
    }
  }

  /** A part of the elements, in steps. */
  function Steps(data: seq<real>, from: nat, to: nat, step: nat): (r: seq<real>)
    requires from <= to && to * step <= |data|
    ensures |r| == (to - from) * step
  {
    NotLess(from, to, step);
    Parts(from, to, to, step);
    data[from * step..to * step]
  }

  function Least(a: nat, b: nat): nat {
    if a <= b then a else b
  }

  /** `t[lo:hi]`, which goes no further than the tensor. */
  function Cut(t: Tensor, lo: nat, hi: nat): (r: Tensor)
    requires t.Valid() && t.shape != [] && lo <= hi
    ensures r.Valid() && r.shape == [Least(hi, t.shape[0]) - Least(lo, t.shape[0])] + t.shape[1..]
  {
    ProdFirst(t.shape);
    var n, step := t.shape[0], Prod(t.shape[1..]);
    var from, to := Least(lo, n), Least(hi, n);
    NotLess(to, n, step);
    var shape := [to - from] + t.shape[1..];
    ProdFirst(shape);
    assert shape[1..] == t.shape[1..];
    Tensor(shape, Steps(t.data, from, to, step))
  }

  /** `t[i]`, where -1 is the last one. */
  function Pick(t: Tensor, i: int): (r: Option<Tensor>)
    requires t.Valid() && t.shape != []
    ensures r.Some? <==> -t.shape[0] <= i < t.shape[0]
    ensures r.Some? ==> r.value.Valid() && r.value.shape == t.shape[1..]
  {
    var n, step := t.shape[0], Prod(t.shape[1..]);
    var k := if i < 0 then i + n else i;
    if k < 0 || k >= n then None
    else
      ProdFirst(t.shape);
      NotLess(k + 1, n, step);
      assert (k + 1 - k) * step == step;
      Some(Tensor(t.shape[1..], Steps(t.data, k, k + 1, step)))
  }

  // ---- one product for each matrix of B ----

  ghost predicate IsBatch(l: Lora) {
    l.Valid() && l.Dims() == 3
  }

  lemma BatchShape(l: Lora)
    requires IsBatch(l)
    ensures l.b.shape == [l.b.shape[0], l.b.shape[1], l.Rank()] && l.a.shape == [l.a.shape[0], l.Rank(), l.RowSize()]
    ensures |l.b.data| == l.b.shape[0] * (l.b.shape[1] * l.Rank()) && |l.a.data| == l.a.shape[0] * (l.Rank() * l.RowSize())
    ensures l.Shape() == [l.b.shape[0], l.b.shape[1], l.RowSize()] && Prod(l.b.shape[..2]) == l.b.shape[0] * l.b.shape[1]
  {
    ProdOfThree(l.b.shape[0], l.b.shape[1], l.Rank());
    ProdOfThree(l.a.shape[0], l.Rank(), l.RowSize());
    var s := l.b.shape[..2];
    assert s == [l.b.shape[0], l.b.shape[1]] && s[..1] == [l.b.shape[0]];
    ProdOne(l.b.shape[0]);
  }

  /**
   What a pair of batches stands for, if it stands for a tensor of its shape: each matrix of B times
   the one of A at its place, or times the only one.
   */
  function Batches(l: Lora): (t: Option<Tensor>)
    requires IsBatch(l)
    ensures t.Some? ==> t.value.Valid() && t.value.shape == l.Shape()
  {
    BatchShape(l);
    ProdOfThree(l.b.shape[0], l.b.shape[1], l.RowSize());
    var n, m, r, c := l.b.shape[0], l.b.shape[1], l.Rank(), l.RowSize();
    if l.a.shape[0] == n then
      BatchSize(l.b.data, l.a.data, n, m, r, c);
      Some(Tensor(l.Shape(), BatchMatmul(l.b.data, l.a.data, n, m, r, c)))
    else if l.a.shape[0] == 1 then
      assert n * m * c == n * (m * c);
      Some(Product(l))
    else None
  }

  lemma {:induction false} BatchSize(b: seq<real>, a: seq<real>, n: nat, m: nat, r: nat, c: nat)
    requires |b| == n * (m * r) && |a| == n * (r * c)
    ensures |BatchMatmul(b, a, n, m, r, c)| == n * (m * c)
    decreases n
  {
    if n > 0 {
      StepDown(n, m * r);
      StepDown(n, r * c);
      StepDown(n, m * c);
      BatchSize(b[..(n - 1) * (m * r)], a[..(n - 1) * (r * c)], n - 1, m, r, c);
    }
  }

  lemma StepDown(n: nat, d: nat)
    requires n > 0
    ensures n * d == (n - 1) * d + d
  {
  }

  /** Batches one after the other. */
  lemma {:induction false} BatchConcat(b1: seq<real>, a1: seq<real>, b2: seq<real>, a2: seq<real>, k: nat, n: nat, m: nat, r: nat, c: nat)
    requires |b1| == k * (m * r) && |a1| == k * (r * c) && |b2| == n * (m * r) && |a2| == n * (r * c)
    ensures |b1 + b2| == (k + n) * (m * r) && |a1 + a2| == (k + n) * (r * c)
    ensures BatchMatmul(b1 + b2, a1 + a2, k + n, m, r, c) == BatchMatmul(b1, a1, k, m, r, c) + BatchMatmul(b2, a2, n, m, r, c)
    decreases n
  {
    hide Matmul, BatchMatmul;
    Distribute(k, n, m * r);
    Distribute(k, n, r * c);
    if n == 0 {
      assert b1 + b2 == b1 && a1 + a2 == a1 && b2 == [] && a2 == [];
      BatchOfNone(m, r, c);
    } else {
      StepDown(n, m * r);
      StepDown(n, r * c);
      var i, j := (n - 1) * (m * r), (n - 1) * (r * c);
      BatchConcat(b1, a1, b2[..i], a2[..j], k, n - 1, m, r, c);
      BatchStep(b1 + b2[..i], a1 + a2[..j], b2[i..], a2[j..], k + n - 1, m, r, c);
      BatchStep(b2[..i], a2[..j], b2[i..], a2[j..], n - 1, m, r, c);
      assert b1 + b2[..i] + b2[i..] == b1 + b2 && a1 + a2[..j] + a2[j..] == a1 + a2;
      assert b2[..i] + b2[i..] == b2 && a2[..j] + a2[j..] == a2;
    }
  }

  lemma BatchCut(b: seq<real>, a: seq<real>, n: nat, m: nat, r: nat, c: nat, lo: nat, hi: nat)
    requires |b| == n * (m * r) && |a| == n * (r * c) && lo <= hi <= n
    requires hi * (m * r) <= n * (m * r) && hi * (r * c) <= n * (r * c) && hi * (m * c) <= n * (m * c)
    ensures |BatchMatmul(b, a, n, m, r, c)| == n * (m * c)
    ensures BatchMatmul(Steps(b, lo, hi, m * r), Steps(a, lo, hi, r * c), hi - lo, m, r, c)
            == Steps(BatchMatmul(b, a, n, m, r, c), lo, hi, m * c)
  {
    hide BatchMatmul;
    BatchSize(b, a, n, m, r, c);
    var b1, a1 := Steps(b, 0, lo, m * r), Steps(a, 0, lo, r * c);
    var b2, a2 := Steps(b, lo, hi, m * r), Steps(a, lo, hi, r * c);
    var b3, a3 := Steps(b, hi, n, m * r), Steps(a, hi, n, r * c);
    Whole(b, lo, hi, n, m * r);
    Whole(a, lo, hi, n, r * c);
    BatchConcat(b2, a2, b3, a3, hi - lo, n - hi, m, r, c);
    BatchConcat(b1, a1, b2 + b3, a2 + a3, lo, n - lo, m, r, c);
    BatchSize(b1, a1, lo, m, r, c);
    BatchSize(b2, a2, hi - lo, m, r, c);
    var p1, p2, p3 := BatchMatmul(b1, a1, lo, m, r, c), BatchMatmul(b2, a2, hi - lo, m, r, c), BatchMatmul(b3, a3, n - hi, m, r, c);
    Parts(lo, hi, n, m * c);
    assert (p1 + (p2 + p3))[|p1|..|p1| + |p2|] == p2;
  }

  lemma Whole(data: seq<real>, lo: nat, hi: nat, n: nat, step: nat)
    requires lo <= hi <= n && |data| == n * step
    ensures lo * step <= hi * step <= n * step
    ensures data == Steps(data, 0, lo, step) + (Steps(data, lo, hi, step) + Steps(data, hi, n, step))
  {
    NotLess(lo, hi, step);
    NotLess(hi, n, step);
  }

  lemma {:induction false} BatchOfOne(b: seq<real>, a: seq<real>, m: nat, r: nat, c: nat)
    requires |b| == m * r && |a| == r * c
    ensures |b| == 1 * (m * r) && |a| == 1 * (r * c)
    ensures BatchMatmul(b, a, 1, m, r, c) == Matmul(b, a, m, r, c)
  {
    hide BatchMatmul;
    BatchOfNone(m, r, c);
    BatchStep([], [], b, a, 0, m, r, c);
    assert [] + b == b && [] + a == a;
  }

  // ---- slices and items ----

  /** `self[lo:hi]` of a pair of more than two dimensions. */
  function Sliced(l: Lora, lo: nat, hi: nat): (x: Lora)
    requires IsBatch(l) && lo <= hi
    ensures IsBatch(x)
  {
    Lora(Cut(l.a, lo, hi), Cut(l.b, lo, hi))
  }

  /**
   A slice of a pair of batches stands for the slice of its product if and only if A has a matrix for
   each one of B, or the slice starts at the first, or nothing is left.
   */
  lemma SliceIff(l: Lora, lo: nat, hi: nat)
    requires IsBatch(l) && Batches(l).Some? && lo <= hi
    ensures Batches(Sliced(l, lo, hi)) == Some(Cut(Batches(l).value, lo, hi))
            <==> l.a.shape[0] == l.b.shape[0] || lo == 0 || lo == hi || l.b.shape[0] <= lo
  {
    hide Batches;
    if l.a.shape[0] == l.b.shape[0] {
      SliceOfAll(l, lo, hi);
    } else if lo == 0 || lo == hi || l.b.shape[0] <= lo {
      SliceOfOne(l, lo, hi);
    } else {
      SliceLost(l, lo, hi);
    }
  }

  lemma CutThree(t: Tensor, lo: nat, hi: nat, n: nat, m: nat, r: nat)
    requires t.Valid() && t.shape == [n, m, r] && lo <= hi
    ensures Least(hi, n) * (m * r) <= |t.data|
    ensures Cut(t, lo, hi) == Tensor([Least(hi, n) - Least(lo, n), m, r], Steps(t.data, Least(lo, n), Least(hi, n), m * r))
  {
    ProdOfTwo(m, r);
    ProdFirst(t.shape);
    assert t.shape[1..] == [m, r];
    NotLess(Least(hi, n), n, m * r);
  }

  lemma PickThree(t: Tensor, i: int, n: nat, m: nat, r: nat)
    requires t.Valid() && t.shape == [n, m, r] && 0 <= i + n && i < n
    ensures var k := if i < 0 then i + n else i;
            (k + 1) * (m * r) <= |t.data| && Pick(t, i) == Some(Tensor([m, r], Steps(t.data, k, k + 1, m * r)))
  {
    ProdOfTwo(m, r);
    ProdFirst(t.shape);
    assert t.shape[1..] == [m, r];
    NotLess((if i < 0 then i + n else i) + 1, n, m * r);
  }

  lemma ProdOfTwo(m: nat, r: nat)
    ensures Prod([m, r]) == m * r
  {
    assert [m, r][..1] == [m];
    ProdOne(m);
  }

  lemma SliceOfAll(l: Lora, lo: nat, hi: nat)
    requires IsBatch(l) && l.a.shape[0] == l.b.shape[0] && lo <= hi
    ensures Batches(l).Some? && Batches(Sliced(l, lo, hi)) == Some(Cut(Batches(l).value, lo, hi))
  {
    hide BatchMatmul, Steps, Cut, Prod, Product, Batches;
    var n, m, r, c := l.b.shape[0], l.b.shape[1], l.Rank(), l.RowSize();
    BatchShape(l);
    AllMatrices(l, n, m, r, c);
    CutThree(l.a, lo, hi, n, r, c);
    CutThree(l.b, lo, hi, n, m, r);
    CutThree(Batches(l).value, lo, hi, n, m, c);
    var x := Sliced(l, lo, hi);
    AllMatrices(x, x.b.shape[0], m, r, c);
    BatchCut(l.b.data, l.a.data, n, m, r, c, Least(lo, n), Least(hi, n));
  }

  lemma SliceLost(l: Lora, lo: nat, hi: nat)
    requires IsBatch(l) && Batches(l).Some? && l.a.shape[0] != l.b.shape[0]
    requires 0 < lo < hi && lo < l.b.shape[0]
    ensures Batches(Sliced(l, lo, hi)).None?
  {
  }

  /** The only matrix of A is kept, or nothing is left of B. */
  lemma SliceOfOne(l: Lora, lo: nat, hi: nat)
    requires IsBatch(l) && Batches(l).Some? && l.a.shape[0] != l.b.shape[0]
    requires lo <= hi && (lo == 0 || lo == hi || l.b.shape[0] <= lo)
    ensures Batches(Sliced(l, lo, hi)) == Some(Cut(Batches(l).value, lo, hi))
  {
    hide Matmul, BatchMatmul;
    var n, m, r, c := l.b.shape[0], l.b.shape[1], l.Rank(), l.RowSize();
    var x := Sliced(l, lo, hi);
    BatchShape(l);
    BatchShape(x);
    if Least(lo, n) == Least(hi, n) {
      NothingLeft(x);
      assert Cut(Batches(l).value, lo, hi).shape == x.Shape();
      ProdFirst(x.Shape());
    } else {
      FirstOnes(l, hi);
    }
  }

  lemma NothingLeft(x: Lora)
    requires IsBatch(x) && x.b.shape[0] == 0 && x.a.shape[0] <= 1
    ensures Batches(x) == Some(Tensor(x.Shape(), []))
  {
    hide Matmul, BatchMatmul;
    BatchShape(x);
    var t := Batches(x).value;
    ProdFirst(x.Shape());
    assert |t.data| == 0;
  }

  lemma FirstOnes(l: Lora, hi: nat)
    requires IsBatch(l) && l.a.shape[0] == 1 != l.b.shape[0] && 0 < hi && 0 < l.b.shape[0]
    ensures Batches(l).Some? && Batches(Sliced(l, 0, hi)) == Some(Cut(Batches(l).value, 0, hi))
  {
    hide Matmul, BatchMatmul, Cut, Prod, Batches;
    var n, m, r, c := l.b.shape[0], l.b.shape[1], l.Rank(), l.RowSize();
    var k := Least(hi, n);
    BatchShape(l);
    OneMatrix(l, n, m, r, c);
    CutThree(l.a, 0, hi, 1, r, c);
    CutThree(l.b, 0, hi, n, m, r);
    CutThree(Batches(l).value, 0, hi, n, m, c);
    var x := Sliced(l, 0, hi);
    assert x.a == l.a;
    OneMatrix(x, k, m, r, c);
    FirstRows(l.b.data, l.a.data, n, m, r, c, k);
  }

  /** With one matrix in A all the rows of B are multiplied by it. */
  lemma OneMatrix(l: Lora, n: nat, m: nat, r: nat, c: nat)
    requires IsBatch(l) && l.a.shape == [1, r, c] && l.b.shape == [n, m, r]
    ensures |l.a.data| == r * c && |l.b.data| == n * (m * r)
    ensures Batches(l) == Some(Tensor([n, m, c], Matmul(l.b.data, l.a.data, n * m, r, c)))
  {
    hide Matmul, BatchMatmul, Prod;
    BatchShape(l);
    if n == 1 {
      BatchOfOne(l.b.data, l.a.data, m, r, c);
    }
  }

  lemma FirstRows(b: seq<real>, a: seq<real>, n: nat, m: nat, r: nat, c: nat, k: nat)
    requires |b| == n * (m * r) && |a| == r * c && k <= n
    ensures k * (m * r) <= |b| && k * (m * c) <= |Matmul(b, a, n * m, r, c)|
    ensures Matmul(b[..k * (m * r)], a, k * m, r, c) == Matmul(b, a, n * m, r, c)[..k * (m * c)]
  {
    hide Matmul;
    Regroup(n, m, r);
    Regroup(n, m, c);
    Regroup(k, m, r);
    Regroup(k, m, c);
    NotLess(k, n, m);
    NotLess(k * m, n * m, r);
    NotLess(k * m, n * m, c);
    RowsMatmul(b, a, n * m, r, c, 0, k * m);
  }

  lemma Regroup(n: nat, m: nat, r: nat)
    ensures n * (m * r) == n * m * r
  {
  }

  /** `self[i]`: both factors are indexed, and each by its own length. */
  function Item(l: Lora, i: int): (x: Option<Lora>)
    requires l.Valid()
  {
    if l.Dims() <= 2 then None
    else match (Pick(l.a, i), Pick(l.b, i))
         case (Some(a), Some(b)) => Some(Lora(a, b))
         case _ => None
  }

  /**
   An item of a pair of batches is to be had if and only if A has a matrix for each one of B, or it is
   the first or is counted as the last from the end; it stands for the item of the product.
   */
  lemma ItemIff(l: Lora, i: int)
    requires IsBatch(l) && Batches(l).Some? && -l.b.shape[0] <= i < l.b.shape[0]
    ensures Item(l, i).Some? <==> l.a.shape[0] == l.b.shape[0] || i == 0 || i == -1
    ensures Item(l, i).Some? ==>
              var x := Item(l, i).value;
              IsMatrix(x) && Pick(Batches(l).value, i) == Some(Product(x))
  {
    hide Batches, Product, Prod;
    OnlyOne(l);
    if Item(l, i).Some? {
      ItemMeans(l, i);
    }
  }

  lemma ItemMeans(l: Lora, i: int)
    requires IsBatch(l) && Batches(l).Some? && -l.b.shape[0] <= i < l.b.shape[0] && Item(l, i).Some?
    ensures var x := Item(l, i).value;
            IsMatrix(x) && Pick(Batches(l).value, i) == Some(Product(x))
  {
    hide Matmul, BatchMatmul, Product, Pick, Prod, Batches, Steps;
    var n, m, r, c := l.b.shape[0], l.b.shape[1], l.Rank(), l.RowSize();
    var x := Item(l, i).value;
    var k := if i < 0 then i + n else i;
    BatchShape(l);
    PickThree(l.b, i, n, m, r);
    PickThree(Batches(l).value, i, n, m, c);
    PickThree(l.a, i, l.a.shape[0], r, c);
    MatrixShape(x);
    if l.a.shape[0] == n {
      AllMatrices(l, n, m, r, c);
      ItemOfAll(l.b.data, l.a.data, n, m, r, c, k);
    } else {
      OnlyOne(l);
      OneMatrix(l, n, m, r, c);
      FirstStep(l.a.data, r * c);
      ItemOfOne(l.b.data, l.a.data, n, m, r, c, k);
    }
  }

  lemma OnlyOne(l: Lora)
    requires IsBatch(l) && Batches(l).Some?
    ensures l.a.shape[0] == l.b.shape[0] || l.a.shape[0] == 1
  {
  }

  lemma FirstStep(data: seq<real>, step: nat)
    requires |data| == step
    ensures (0 + 1) * step <= |data| && Steps(data, 0, 1, step) == data
  {
  }

  lemma {:induction false} AllMatrices(l: Lora, n: nat, m: nat, r: nat, c: nat)
    requires IsBatch(l) && l.a.shape == [n, r, c] && l.b.shape == [n, m, r]
    ensures |l.a.data| == n * (r * c) && |l.b.data| == n * (m * r)
    ensures Batches(l) == Some(Tensor([n, m, c], BatchMatmul(l.b.data, l.a.data, n, m, r, c)))
  {
    hide BatchMatmul, Prod, Product;
    BatchShape(l);
  }

  lemma {:induction false} ItemOfAll(b: seq<real>, a: seq<real>, n: nat, m: nat, r: nat, c: nat, k: nat)
    requires |b| == n * (m * r) && |a| == n * (r * c) && k < n
    ensures (k + 1) * (m * r) <= |b| && (k + 1) * (r * c) <= |a|
    ensures |BatchMatmul(b, a, n, m, r, c)| == n * (m * c) >= (k + 1) * (m * c)
    ensures Matmul(Steps(b, k, k + 1, m * r), Steps(a, k, k + 1, r * c), m, r, c)
            == Steps(BatchMatmul(b, a, n, m, r, c), k, k + 1, m * c)
  {
    hide Matmul, BatchMatmul, Steps;
    NotLess(k + 1, n, m * r);
    NotLess(k + 1, n, r * c);
    NotLess(k + 1, n, m * c);
    BatchCut(b, a, n, m, r, c, k, k + 1);
    BatchOfOne(Steps(b, k, k + 1, m * r), Steps(a, k, k + 1, r * c), m, r, c);
  }

  lemma ItemOfOne(b: seq<real>, a: seq<real>, n: nat, m: nat, r: nat, c: nat, k: nat)
    requires |b| == n * (m * r) && |a| == r * c && k < n
    ensures (k + 1) * (m * r) <= |b| && (k + 1) * (m * c) <= |Matmul(b, a, n * m, r, c)|
    ensures Matmul(Steps(b, k, k + 1, m * r), a, m, r, c) == Steps(Matmul(b, a, n * m, r, c), k, k + 1, m * c)
  {
    hide Matmul;
    Regroup(n, m, r);
    Regroup(n, m, c);
    Regroup(k, m, r);
    Regroup(k, m, c);
    Regroup(k + 1, m, r);
    Regroup(k + 1, m, c);
    NotLess(k + 1, n, m);
    NotLess((k + 1) * m, n * m, r);
    NotLess((k + 1) * m, n * m, c);
    NotLess(k, k + 1, m);
    NotLess(k * m, (k + 1) * m, r);
    NotLess(k * m, (k + 1) * m, c);
    RowsMatmul(b, a, n * m, r, c, k * m, (k + 1) * m);
    assert (k + 1) * m - k * m == m;
  }

  // ---- torch.stack and torch.cat ----

  /** The pairs have the shapes of the first. */
  ghost predicate SameShapes(ls: seq<Lora>, a: seq<nat>, b: seq<nat>) {
    forall i :: 0 <= i < |ls| ==> ls[i].Valid() && ls[i].a.shape == a && ls[i].b.shape == b
  }

  lemma {:induction false} StackedData(ls: seq<Lora>, a: seq<nat>, b: seq<nat>, i: nat)
    requires SameShapes(ls, a, b) && i < |ls|
    ensures |DataOfA(ls)| == |ls| * Prod(a) && |DataOfB(ls)| == |ls| * Prod(b)
    ensures (i + 1) * Prod(a) <= |DataOfA(ls)| && Steps(DataOfA(ls), i, i + 1, Prod(a)) == ls[i].a.data
    ensures (i + 1) * Prod(b) <= |DataOfB(ls)| && Steps(DataOfB(ls), i, i + 1, Prod(b)) == ls[i].b.data
    decreases |ls|
  {
    hide Prod, Steps;
    var n := |ls| - 1;
    StackedSize(ls[..n], a, b);
    assert ls[n].Valid();
    StepOfTwo(DataOfA(ls[..n]), ls[n].a.data, i, n, Prod(a));
    StepOfTwo(DataOfB(ls[..n]), ls[n].b.data, i, n, Prod(b));
    if i < n {
      StackedData(ls[..n], a, b, i);
    }
  }

  lemma {:induction false} StackedSize(ls: seq<Lora>, a: seq<nat>, b: seq<nat>)
    requires SameShapes(ls, a, b)
    ensures |DataOfA(ls)| == |ls| * Prod(a) && |DataOfB(ls)| == |ls| * Prod(b)
    decreases |ls|
  {
    hide Prod;
    if ls != [] {
      var n := |ls| - 1;
      StackedSize(ls[..n], a, b);
      assert ls[n].Valid();
      StepDown(n + 1, Prod(a));
      StepDown(n + 1, Prod(b));
    }
  }

  lemma StepOfTwo(data: seq<real>, last: seq<real>, i: nat, n: nat, step: nat)
    requires i <= n && |data| == n * step && |last| == step
    ensures (i + 1) * step <= |data + last| == (n + 1) * step
    ensures i < n ==> (i + 1) * step <= |data| && Steps(data + last, i, i + 1, step) == Steps(data, i, i + 1, step)
    ensures i == n ==> Steps(data + last, i, i + 1, step) == last
  {
    StepDown(n + 1, step);
    StepDown(i + 1, step);
    NotLess(i + 1, n + 1, step);
    if i < n {
      NotLess(i + 1, n, step);
    }
  }

  /** Of stacked pairs, whatever their dimensions, each one is to be had back. */
  lemma StackItem(ls: seq<Lora>, i: nat)
    requires ls != [] && SameShapes(ls, ls[0].a.shape, ls[0].b.shape) && i < |ls|
    ensures Stack(ls).Valid() && Stack(ls).Shape() == [|ls|] + ls[0].Shape()
    ensures Item(Stack(ls), i) == Some(ls[i])
  {
    var a, b := ls[0].a.shape, ls[0].b.shape;
    var x := Stack(ls);
    StackedData(ls, a, b, i);
    ProdFirst(x.a.shape);
    ProdFirst(x.b.shape);
    assert x.a.shape[1..] == a && x.b.shape[1..] == b;
    assert x.b.shape[..|x.b.shape| - 1] == [|ls|] + b[..|b| - 1];
  }

  /** Pairs of batches whose matrices fit together. */
  ghost predicate AllBatches(ls: seq<Lora>, m: nat, r: nat, c: nat) {
    forall i :: 0 <= i < |ls| ==> IsBatch(ls[i]) && ls[i].b.shape[1..] == [m, r] && ls[i].a.shape[1..] == [r, c]
  }

  function CountOfA(ls: seq<Lora>): nat {
    if ls == [] then 0 else
    var l := ls[|ls| - 1];
    CountOfA(ls[..|ls| - 1]) + if l.a.shape == [] then 0 else l.a.shape[0]
  }

  /** `torch.cat` of pairs of more than two dimensions: both factors one after the other. */
  function CatBoth(ls: seq<Lora>, m: nat, r: nat, c: nat): Lora {
    Lora(Tensor([CountOfA(ls), r, c], DataOfA(ls)), Tensor([RowCount(ls), m, r], DataOfB(ls)))
  }

  ghost function DataOfBatches(ls: seq<Lora>): seq<real>
    requires forall i :: 0 <= i < |ls| ==> IsBatch(ls[i]) && Batches(ls[i]).Some?
  {
    if ls == [] then [] else DataOfBatches(ls[..|ls| - 1]) + Batches(ls[|ls| - 1]).value.data
  }

  lemma {:induction false} CatSizes(ls: seq<Lora>, m: nat, r: nat, c: nat)
    requires AllBatches(ls, m, r, c)
    ensures |DataOfA(ls)| == CountOfA(ls) * (r * c) && |DataOfB(ls)| == RowCount(ls) * (m * r)
    ensures IsBatch(CatBoth(ls, m, r, c))
    decreases |ls|
  {
    hide Prod;
    if ls != [] {
      var n := |ls| - 1;
      CatSizes(ls[..n], m, r, c);
      BatchShape(ls[n]);
      Distribute(CountOfA(ls[..n]), ls[n].a.shape[0], r * c);
      Distribute(RowCount(ls[..n]), ls[n].b.shape[0], m * r);
    }
    ProdOfThree(CountOfA(ls), r, c);
    ProdOfThree(RowCount(ls), m, r);
  }

  /** With a matrix of A for each one of B, the joined pair stands for the joined products. */
  lemma {:induction false} CatBatches(ls: seq<Lora>, m: nat, r: nat, c: nat)
    requires AllBatches(ls, m, r, c) && forall i :: 0 <= i < |ls| ==> ls[i].a.shape[0] == ls[i].b.shape[0]
    ensures IsBatch(CatBoth(ls, m, r, c)) && forall i :: 0 <= i < |ls| ==> Batches(ls[i]).Some?
    ensures Batches(CatBoth(ls, m, r, c)) == Some(Tensor([RowCount(ls), m, c], DataOfBatches(ls)))
  {
    hide BatchMatmul, DataOfBatches, DataOfA, DataOfB, CountOfA, RowCount, Prod;
    CatSizes(ls, m, r, c);
    CatData(ls, m, r, c);
    BatchShape(CatBoth(ls, m, r, c));
  }

  lemma {:induction false} CatData(ls: seq<Lora>, m: nat, r: nat, c: nat)
    requires AllBatches(ls, m, r, c) && forall i :: 0 <= i < |ls| ==> ls[i].a.shape[0] == ls[i].b.shape[0]
    ensures CountOfA(ls) == RowCount(ls)
    ensures |DataOfA(ls)| == CountOfA(ls) * (r * c) && |DataOfB(ls)| == RowCount(ls) * (m * r)
    ensures forall i :: 0 <= i < |ls| ==> Batches(ls[i]).Some?
    ensures BatchMatmul(DataOfB(ls), DataOfA(ls), RowCount(ls), m, r, c) == DataOfBatches(ls)
    decreases |ls|
  {
    hide BatchMatmul, Prod;
    CatSizes(ls, m, r, c);
    if ls == [] {
      BatchOfNone(m, r, c);
    } else {
      var n := |ls| - 1;
      CatData(ls[..n], m, r, c);
      BatchShape(ls[n]);
      BatchConcat(DataOfB(ls[..n]), DataOfA(ls[..n]), ls[n].b.data, ls[n].a.data, RowCount(ls[..n]), ls[n].b.shape[0], m, r, c);
    }
  }

  /** Several pairs with one matrix in A and more in B, as `reshape` leaves them, are joined to what stands for nothing. */
  lemma CatOfOnesLost(ls: seq<Lora>, m: nat, r: nat, c: nat)
    requires AllBatches(ls, m, r, c) && |ls| >= 2
    requires forall i :: 0 <= i < |ls| ==> ls[i].a.shape[0] == 1 < ls[i].b.shape[0]
    ensures IsBatch(CatBoth(ls, m, r, c)) && Batches(CatBoth(ls, m, r, c)).None?
  {
    CatSizes(ls, m, r, c);
    CountOnes(ls);
  }

  lemma {:induction false} CountOnes(ls: seq<Lora>)
    requires forall i :: 0 <= i < |ls| ==> ls[i].a.shape != [] && ls[i].b.shape != [] && ls[i].a.shape[0] == 1 < ls[i].b.shape[0]
    ensures CountOfA(ls) == |ls| && RowCount(ls) >= 2 * |ls|
    decreases |ls|
  {
    if ls != [] {
      CountOnes(ls[..|ls| - 1]);
    }
  }
}
