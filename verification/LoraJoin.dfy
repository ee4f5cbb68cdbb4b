/**
 Joining and cutting factored tensors, convert_lora_to_gguf.py:59-79 and 199-222: rows of a matrix,
 `torch.cat` of matrices that share A, and `torch.stack` of matrices.
 */
module LoraJoin {
  import opened CommonStrings
  import opened Tensors
  import opened Lora

  /** One product for each of `n` matrices of `b` and `a`. */
  function BatchMatmul(b: seq<real>, a: seq<real>, n: nat, m: nat, r: nat, c: nat): seq<real>
    requires |b| == n * (m * r) && |a| == n * (r * c)
  {
    if n == 0 then [] else
    assert (n - 1) * (m * r) + m * r == n * (m * r) && (n - 1) * (r * c) + r * c == n * (r * c);
    BatchMatmul(b[..(n - 1) * (m * r)], a[..(n - 1) * (r * c)], n - 1, m, r, c)
    + Matmul(b[(n - 1) * (m * r)..], a[(n - 1) * (r * c)..], m, r, c)
  }

  ghost predicate IsMatrix(l: Lora) {
    l.Valid() && l.Dims() == 2
  }

  lemma ProdOne(n: nat)
    ensures Prod([n]) == n
  {
    assert [n][..0] == [];
  }

  lemma MatrixShape(l: Lora)
    requires IsMatrix(l)
    ensures l.b.shape == [l.b.shape[0], l.Rank()] && l.a.shape == [l.Rank(), l.RowSize()]
    ensures Prod(l.b.shape[..1]) == l.b.shape[0] && Product(l).shape == [l.b.shape[0], l.RowSize()]
    ensures |l.b.data| == l.b.shape[0] * l.Rank() && |l.a.data| == l.Rank() * l.RowSize()
    ensures Product(l).data == Matmul(l.b.data, l.a.data, l.b.shape[0], l.Rank(), l.RowSize())
  {
    var m := l.b.shape[0];
    assert l.b.shape[..1] == [m] && l.a.shape[..1] == [l.Rank()];
    assert [m][..0] == [] && [l.Rank()][..0] == [] && Prod([m]) == m && Prod([l.Rank()]) == l.Rank();
  }

  // ---- rows one after another ----

  /** Rows below rows. */
  lemma MatmulConcat(b1: seq<real>, b2: seq<real>, a: seq<real>, m: nat, n: nat, r: nat, c: nat)
    requires |b1| == m * r && |b2| == n * r
    ensures Matmul(b1 + b2, a, m + n, r, c) == Matmul(b1, a, m, r, c) + Matmul(b2, a, n, r, c)
  {
    hide Element;
    assert (m + n) * c == m * c + n * c;
    var all, top, bottom := Matmul(b1 + b2, a, m + n, r, c), Matmul(b1, a, m, r, c), Matmul(b2, a, n, r, c);
    forall k | 0 <= k < m * c + n * c
      ensures all[k] == (top + bottom)[k]
    {
      MatmulAt(b1, b2, a, m, n, r, c, k);
    }
  }

  lemma MatmulAt(b1: seq<real>, b2: seq<real>, a: seq<real>, m: nat, n: nat, r: nat, c: nat, k: nat)
    requires |b1| == m * r && |b2| == n * r && k < m * c + n * c
    ensures c > 0
    ensures k < m * c ==> Element(b1 + b2, a, k / c, k % c, r, c) == Element(b1, a, k / c, k % c, r, c)
    ensures k >= m * c ==> Element(b1 + b2, a, k / c, k % c, r, c) == Element(b2, a, (k - m * c) / c, (k - m * c) % c, r, c)
  {
    hide Element;
    assert c == 0 ==> m * c == 0 && n * c == 0;
    if k < m * c {
      ElementAbove(b1, b2, a, m, r, c, k);
    } else {
      ElementBelow(b1, b2, a, m, r, c, k - m * c);
    }
  }

  /** An element of the upper rows. */
  lemma ElementAbove(b1: seq<real>, b2: seq<real>, a: seq<real>, m: nat, r: nat, c: nat, k: nat)
    requires |b1| == m * r && c > 0 && k < m * c
    ensures Element(b1 + b2, a, k / c, k % c, r, c) == Element(b1, a, k / c, k % c, r, c)
  {
    DivBelow(k, m, c);
    RowBelow(k / c, m, r);
    SliceAbove(b1, b2, k / c * r, r);
  }

  lemma SliceAbove(b1: seq<real>, b2: seq<real>, start: nat, r: nat)
    requires start + r <= |b1|
    ensures Slice(b1 + b2, start, 1, r) == Slice(b1, start, 1, r)
  {
  }

  /** An element of the lower rows. */
  lemma ElementBelow(b1: seq<real>, b2: seq<real>, a: seq<real>, m: nat, r: nat, c: nat, q: nat)
    requires |b1| == m * r && c > 0
    ensures Element(b1 + b2, a, (q + m * c) / c, (q + m * c) % c, r, c) == Element(b2, a, q / c, q % c, r, c)
  {
    RowFurther(m, c, q);
    var i := q / c;
    Distribute(m, i, r);
    SliceBelow(b1, b2, i * r, r);
  }

  lemma SliceBelow(b1: seq<real>, b2: seq<real>, start: nat, r: nat)
    ensures Slice(b1 + b2, |b1| + start, 1, r) == Slice(b2, start, 1, r)
  {
  }

  lemma Distribute(m: nat, i: nat, r: nat)
    ensures (m + i) * r == m * r + i * r
  {
  }

  lemma RowFurther(m: nat, c: nat, q: nat)
    requires c > 0
    ensures (q + m * c) / c == m + q / c && (q + m * c) % c == q % c
  {
    var i, j := q / c, q % c;
    assert q == i * c + j;
    Distribute(m, i, c);
    DivMod(m + i, c, j);
  }

  lemma RowBelow(i: nat, m: nat, r: nat)
    requires i < m
    ensures i * r + r <= m * r
  {
    Below(i, m, r);
  }

  /** Rows of the pair are rows of the product. */
  lemma RowsMean(l: Lora, lo: nat, hi: nat)
    requires IsMatrix(l) && lo <= hi <= l.b.shape[0]
    requires lo * l.Rank() <= hi * l.Rank() <= |l.b.data| && lo * l.RowSize() <= hi * l.RowSize() <= |Product(l).data|
    ensures |Rows(l, lo, hi).a.shape| == |Rows(l, lo, hi).b.shape| == 2
    ensures Product(Rows(l, lo, hi)).data == Product(l).data[lo * l.RowSize()..hi * l.RowSize()]
    ensures Product(Rows(l, lo, hi)).shape == [hi - lo, l.RowSize()]
  {
    hide Element, Prod;
    var x := Rows(l, lo, hi);
    var m, r, c := l.b.shape[0], l.Rank(), l.RowSize();
    MatrixShape(l);
    assert x.b.shape[..1] == [hi - lo];
    ProdOne(hi - lo);
    RowsMatmul(l.b.data, l.a.data, m, r, c, lo, hi);
  }

  lemma RowsMatmul(b: seq<real>, a: seq<real>, m: nat, r: nat, c: nat, lo: nat, hi: nat)
    requires |b| == m * r && lo <= hi <= m && lo * r <= hi * r <= m * r && lo * c <= hi * c <= m * c
    ensures Matmul(b[lo * r..hi * r], a, hi - lo, r, c) == Matmul(b, a, m, r, c)[lo * c..hi * c]
  {
    hide Matmul;
    var b1, b2, b3 := b[..lo * r], b[lo * r..hi * r], b[hi * r..];
    Parts(lo, hi, m, r);
    Parts(lo, hi, m, c);
    assert b == b1 + (b2 + b3);
    MatmulConcat(b2, b3, a, hi - lo, m - hi, r, c);
    MatmulConcat(b1, b2 + b3, a, lo, m - lo, r, c);
    var p1, p2, p3 := Matmul(b1, a, lo, r, c), Matmul(b2, a, hi - lo, r, c), Matmul(b3, a, m - hi, r, c);
    assert (p1 + (p2 + p3))[|p1|..|p1| + |p2|] == p2;
  }

  lemma Parts(lo: nat, hi: nat, m: nat, d: nat)
    requires lo <= hi <= m
    ensures (hi - lo) * d == hi * d - lo * d && (m - hi) * d == m * d - hi * d && (hi - lo) + (m - hi) == m - lo
  {
  }

  /** `self[lo:hi]` of a matrix: A stays, and rows of B are kept. */
  function Rows(l: Lora, lo: nat, hi: nat): Lora
    requires l.b.shape != [] && lo <= hi && lo * l.Rank() <= hi * l.Rank() <= |l.b.data|
  {
    Lora(l.a, Tensor([hi - lo, l.Rank()], l.b.data[lo * l.Rank()..hi * l.Rank()]))
  }

  // ---- lists of matrices ----

  /** Matrices with factors of one rank and one row size. */
  ghost predicate AllShaped(ls: seq<Lora>, r: nat, c: nat) {
    forall i :: 0 <= i < |ls| ==> IsMatrix(ls[i]) && ls[i].Rank() == r && ls[i].RowSize() == c
  }

  function RowCount(ls: seq<Lora>): nat {
    if ls == [] then 0 else
    var l := ls[|ls| - 1];
    RowCount(ls[..|ls| - 1]) + if l.b.shape == [] then 0 else l.b.shape[0]
  }

  function DataOfA(ls: seq<Lora>): seq<real> {
    if ls == [] then [] else DataOfA(ls[..|ls| - 1]) + ls[|ls| - 1].a.data
  }

  function DataOfB(ls: seq<Lora>): seq<real> {
    if ls == [] then [] else DataOfB(ls[..|ls| - 1]) + ls[|ls| - 1].b.data
  }

  /** The elements of all the products, one after the other. */
  function DataOfProducts(ls: seq<Lora>): seq<real> {
    if ls == [] then [] else
    var l := ls[|ls| - 1];
    DataOfProducts(ls[..|ls| - 1]) + if l.a.shape == [] || l.b.shape == [] then [] else Product(l).data
  }

  /** `torch.cat` of matrices, one below the other, when all have the same A. */
  function Cat(ls: seq<Lora>): Option<Lora>
    requires ls != [] && ls[0].b.shape != []
  {
    if exists i :: 0 < i < |ls| && ls[i].a != ls[0].a then None
    else Some(Lora(ls[0].a, Tensor([RowCount(ls), ls[0].Rank()], DataOfB(ls))))
  }

  /** Concatenating pairs is concatenating products. */
  lemma {:induction false} CatMeans(ls: seq<Lora>, x: Lora, r: nat, c: nat)
    requires ls != [] && AllShaped(ls, r, c) && IsMatrix(ls[0]) && Cat(ls) == Some(x)
    ensures x.a.shape != [] && x.b.shape != []
    ensures Product(x) == Tensor([RowCount(ls), c], DataOfProducts(ls))
  {
    hide Matmul, DataOfB, DataOfProducts, RowCount;
    assert ls[0].Rank() == r && ls[0].RowSize() == c;
    MatrixShape(ls[0]);
    CatData(ls, ls[0].a);
    var n := RowCount(ls);
    assert x.b.shape[..1] == [n];
    assert [n][..0] == [] && Prod([n]) == n;
  }

  lemma {:induction false} CatData(ls: seq<Lora>, a: Tensor)
    requires |a.shape| == 2 && AllShaped(ls, a.shape[0], a.shape[1])
    requires forall i :: 0 <= i < |ls| ==> ls[i].a == a
    ensures |DataOfB(ls)| == RowCount(ls) * a.shape[0]
    ensures Matmul(DataOfB(ls), a.data, RowCount(ls), a.shape[0], a.shape[1]) == DataOfProducts(ls)
    decreases |ls|
  {
    hide Matmul, Product;
    var r, c := a.shape[0], a.shape[1];
    if ls != [] {
      var n := |ls| - 1;
      CatData(ls[..n], a);
      MatrixShape(ls[n]);
      CatStep(DataOfB(ls[..n]), RowCount(ls[..n]), ls[n], r, c);
    }
  }

  /** One more matrix at the end. */
  lemma CatStep(b: seq<real>, rows: nat, l: Lora, r: nat, c: nat)
    requires IsMatrix(l) && l.Rank() == r && l.RowSize() == c && |b| == rows * r
    ensures |b + l.b.data| == (rows + l.b.shape[0]) * r
    ensures Matmul(b + l.b.data, l.a.data, rows + l.b.shape[0], r, c) == Matmul(b, l.a.data, rows, r, c) + Product(l).data
  {
    hide Matmul;
    MatrixShape(l);
    var m := l.b.shape[0];
    assert (rows + m) * r == rows * r + m * r;
    MatmulConcat(b, l.b.data, l.a.data, rows, m, r, c);
  }

  // ---- stacking ----

  /** `torch.stack` of matrices of one shape: both factors become batches. */
  function Stack(ls: seq<Lora>): Lora
    requires ls != []
  {
    Lora(Tensor([|ls|] + ls[0].a.shape, DataOfA(ls)), Tensor([|ls|] + ls[0].b.shape, DataOfB(ls)))
  }

  /** A stacked pair is one of batches, and its products, one matrix after the other, are those of the pairs. */
  lemma {:induction false} StackMeans(ls: seq<Lora>, m: nat, r: nat, c: nat)
    requires ls != [] && AllShaped(ls, r, c) && forall i :: 0 <= i < |ls| ==> ls[i].b.shape == [m, r]
    ensures var x := Stack(ls);
            && x.Valid() && x.a.shape == [|ls|, r, c] && x.b.shape == [|ls|, m, r] && x.Shape() == [|ls|, m, c]
            && |x.b.data| == |ls| * (m * r) && |x.a.data| == |ls| * (r * c)
            && BatchMatmul(x.b.data, x.a.data, |ls|, m, r, c) == DataOfProducts(ls)
  {
    hide Matmul, Product, BatchMatmul, DataOfProducts, Prod;
    var x := Stack(ls);
    StackData(ls, m, r, c);
    MatrixShape(ls[0]);
    assert x.a.shape == [|ls|, r, c] && x.b.shape == [|ls|, m, r];
    ProdOfThree(|ls|, r, c);
    ProdOfThree(|ls|, m, r);
    assert x.b.shape[..2] == [|ls|, m];
  }

  lemma ProdOfThree(n: nat, m: nat, r: nat)
    ensures Prod([n, m, r]) == n * (m * r)
  {
    var s := [n, m, r];
    assert s[..2] == [n, m] && [n, m][..1] == [n];
    ProdOne(n);
    assert Prod([n, m]) == n * m;
    assert n * m * r == n * (m * r);
  }

  lemma {:induction false} StackData(ls: seq<Lora>, m: nat, r: nat, c: nat)
    requires AllShaped(ls, r, c) && forall i :: 0 <= i < |ls| ==> ls[i].b.shape == [m, r]
    ensures |DataOfB(ls)| == |ls| * (m * r) && |DataOfA(ls)| == |ls| * (r * c)
    ensures BatchMatmul(DataOfB(ls), DataOfA(ls), |ls|, m, r, c) == DataOfProducts(ls)
    decreases |ls|
  {
    hide Matmul, Product, BatchMatmul, IsMatrix, Prod;
    if ls == [] {
      BatchOfNone(m, r, c);
    } else {
      var n := |ls| - 1;
      StackData(ls[..n], m, r, c);
      MatrixShape(ls[n]);
      assert |ls| == n + 1;
      BatchStep(DataOfB(ls[..n]), DataOfA(ls[..n]), ls[n].b.data, ls[n].a.data, n, m, r, c);
    }
  }

  lemma {:induction false} BatchOfNone(m: nat, r: nat, c: nat)
    ensures BatchMatmul([], [], 0, m, r, c) == []
  {
  }

  lemma BatchStep(b: seq<real>, a: seq<real>, b1: seq<real>, a1: seq<real>, n: nat, m: nat, r: nat, c: nat)
    requires |b| == n * (m * r) && |a| == n * (r * c) && |b1| == m * r && |a1| == r * c
    ensures |b + b1| == (n + 1) * (m * r) && |a + a1| == (n + 1) * (r * c)
    ensures BatchMatmul(b + b1, a + a1, n + 1, m, r, c) == BatchMatmul(b, a, n, m, r, c) + Matmul(b1, a1, m, r, c)
  {
    hide Matmul;
    assert n * (m * r) + m * r == (n + 1) * (m * r) && n * (r * c) + r * c == (n + 1) * (r * c);
    assert (b + b1)[..|b|] == b && (b + b1)[|b|..] == b1 && (a + a1)[..|a|] == a && (a + a1)[|a|..] == a1;
  }
}
