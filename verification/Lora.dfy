/**
 Factored tensors, `LoraTorchTensor` of convert_lora_to_gguf.py:41-224: a pair of tensors that stands
 for their product B·A, and operations on the pair that have to mean the same on the product. An
 exception is `None`.
 */
module Lora {
  import opened CommonStrings
  import opened Tensors

  datatype Lora = Lora(a: Tensor, b: Tensor) {
    ghost predicate Valid() {
      && a.Valid() && b.Valid() && |a.shape| == |b.shape| >= 2
      && a.shape[|a.shape| - 2] == b.shape[|b.shape| - 1]
    }

    function Dims(): nat { |b.shape| }

    function Rank(): nat
      requires b.shape != []
    {
      b.shape[|b.shape| - 1]
    }

    /** The size of a row of the product. */
    function RowSize(): nat
      requires a.shape != []
    {
      a.shape[|a.shape| - 1]
    }

    function Shape(): seq<nat>
      requires a.shape != [] && b.shape != []
    {
      b.shape[..|b.shape| - 1] + [RowSize()]
    }
  }

  /** All dimensions of A but its last two are one. */
  ghost predicate OneA(l: Lora) {
    forall i :: 0 <= i < |l.a.shape| - 2 ==> l.a.shape[i] == 1
  }

  // ---- the product ----

  /** `n` elements of a tensor's data, `step` apart. */
  function Slice(data: seq<real>, start: int, step: int, n: nat): (r: seq<real>)
    ensures |r| == n && forall k :: 0 <= k < n ==> r[k] == At(data, start + k * step)
  {
    seq(n, k requires 0 <= k < n => At(data, start + k * step))
  }

  function Dot(x: seq<real>, y: seq<real>): real
    requires |x| == |y|
  {
    if x == [] then 0.0 else
    var n := |x| - 1;
    Dot(x[..n], y[..n]) + x[n] * y[n]
  }

  /** Element `i`, `j` of a product: row `i` of `b`, of `r` elements, times column `j` of `a`, whose rows have `c`. */
  function Element(b: seq<real>, a: seq<real>, i: int, j: int, r: nat, c: nat): real {
    Dot(Slice(b, i * r, 1, r), Slice(a, j, c, r))
  }

  /** A matrix product: `rows` rows of `r` elements times `r` rows of `c` elements. */
  function Matmul(b: seq<real>, a: seq<real>, rows: nat, r: nat, c: nat): (p: seq<real>)
    ensures |p| == rows * c
  {
    seq(rows * c, x requires 0 <= x < rows * c => if c == 0 then 0.0 else Element(b, a, x / c, x % c, r, c))
  }

  /** What a pair stands for when A is one matrix, spread over all the matrices of B. */
  function Product(l: Lora): (t: Tensor)
    requires l.a.shape != [] && l.b.shape != []
  {
    Tensor(l.Shape(), Matmul(l.b.data, l.a.data, Prod(l.b.shape[..|l.b.shape| - 1]), l.Rank(), l.RowSize()))
  }

  lemma {:induction false} DotCommutes(x: seq<real>, y: seq<real>)
    requires |x| == |y|
    ensures Dot(x, y) == Dot(y, x)
    decreases |x|
  {
    if x != [] {
      DotCommutes(x[..|x| - 1], y[..|x| - 1]);
    }
  }

  // ---- reshape ----

  /** A dimension of -1 is worked out from the number of elements. */
  function Expand(shape: seq<int>, elements: nat): Option<seq<nat>> {
    if exists i :: 0 <= i < |shape| && shape[i] < -1 then None
    else if exists i :: 0 <= i < |shape| && shape[i] == -1 then
      var known := KnownProduct(shape);
      if known <= 0 || elements % known != 0 then None
      else Some(seq(|shape|, i requires 0 <= i < |shape| => if shape[i] >= 0 then shape[i] else elements / known))
    else Some(seq(|shape|, i requires 0 <= i < |shape| => if shape[i] >= 0 then shape[i] else 0))
  }

  function KnownProduct(shape: seq<int>): int {
    if shape == [] then 1 else KnownProduct(shape[..|shape| - 1]) * if shape[|shape| - 1] == -1 then 1 else shape[|shape| - 1]
  }

  /** A single -1 is worked out so that the number of elements comes out; the other dimensions stay. */
  lemma {:induction false} ExpandFills(shape: seq<int>, elements: nat, i: nat, expanded: seq<nat>)
    requires i < |shape| && shape[i] == -1 && forall j :: 0 <= j < |shape| && j != i ==> shape[j] >= 0
    ensures Expand(shape, elements) == Some(expanded) ==>
              |expanded| == |shape| && (forall j :: 0 <= j < |shape| && j != i ==> expanded[j] == shape[j]) && Prod(expanded) == elements
    ensures Expand(shape, elements).None? <==> KnownProduct(shape) == 0 || elements % KnownProduct(shape) != 0
    ensures KnownProduct(shape) >= 0
  {
    hide KnownProduct, Prod;
    KnownSplits(shape, i);
    if Expand(shape, elements) == Some(expanded) {
      var known := KnownProduct(shape);
      assert elements == elements / known * known;
      FilledProduct(shape, i, elements / known, expanded);
    }
  }

  lemma {:induction false} KnownSplits(shape: seq<int>, i: nat)
    requires i < |shape| && shape[i] == -1 && forall j :: 0 <= j < |shape| && j != i ==> shape[j] >= 0
    ensures KnownProduct(shape) >= 0
    decreases |shape|
  {
    var n := |shape| - 1;
    if i < n {
      KnownSplits(shape[..n], i);
      NotNegative(KnownProduct(shape[..n]), shape[n]);
    } else {
      KnownIsProd(shape[..n]);
    }
  }

  lemma NotNegative(a: int, b: int)
    requires a >= 0 && b >= 0
    ensures a * b >= 0
  {
  }

  lemma {:induction false} KnownIsProd(shape: seq<int>)
    requires forall j :: 0 <= j < |shape| ==> shape[j] >= 0
    ensures KnownProduct(shape) >= 0
    ensures forall p: seq<nat> :: |p| == |shape| && (forall j :: 0 <= j < |p| ==> p[j] == shape[j]) ==> Prod(p) == KnownProduct(shape)
    decreases |shape|
  {
    if shape != [] {
      var n := |shape| - 1;
      KnownIsProd(shape[..n]);
      NotNegative(KnownProduct(shape[..n]), shape[n]);
      forall p: seq<nat> | |p| == |shape| && (forall j :: 0 <= j < |p| ==> p[j] == shape[j])
        ensures Prod(p) == KnownProduct(shape)
      {
        assert Prod(p[..n]) == KnownProduct(shape[..n]);
      }
    }
  }

  /** With `d` in the place of the -1, the product is `d` times what is known. */
  lemma {:induction false} FilledProduct(shape: seq<int>, i: nat, d: nat, filled: seq<nat>)
    requires i < |shape| && shape[i] == -1 && forall j :: 0 <= j < |shape| && j != i ==> shape[j] >= 0
    requires |filled| == |shape| && filled[i] == d && forall j :: 0 <= j < |shape| && j != i ==> filled[j] == shape[j]
    ensures Prod(filled) == d * KnownProduct(shape)
    decreases |shape|
  {
    var n := |shape| - 1;
    if i < n {
      FilledProduct(shape[..n], i, d, filled[..n]);
      var k := KnownProduct(shape[..n]);
      assert d * k * shape[n] == d * (k * shape[n]);
    } else {
      KnownIsProd(shape[..n]);
      assert Prod(filled[..n]) == KnownProduct(shape[..n]);
      assert KnownProduct(shape) == KnownProduct(shape[..n]) * 1;
    }
  }

  function Ones(n: nat): (r: seq<nat>)
    ensures |r| == n && forall i :: 0 <= i < n ==> r[i] == 1
  {
    seq(n, _ => 1)
  }

  function Reshape(l: Lora, newShape: seq<int>): Option<Lora>
    requires |l.a.shape| == |l.b.shape| >= 2
  {
    if |newShape| < 2 then None else
    match Expand(newShape, Prod(l.Shape()))
    case None => None
    case Some(shape) =>
      var n := |shape| - 1;
      if n < 1 || shape[n] != l.RowSize() then None
      else match (Reshaped(l.a, Ones(n - 1) + [l.Rank(), l.RowSize()]), Reshaped(l.b, shape[..n] + [l.Rank()]))
           case (Some(a), Some(b)) => Some(Lora(a, b))
           case _ => None
  }

  lemma {:induction false} ProdOnes(shape: seq<nat>)
    requires forall i :: 0 <= i < |shape| ==> shape[i] == 1
    ensures Prod(shape) == 1
    decreases |shape|
  {
    if shape != [] {
      ProdOnes(shape[..|shape| - 1]);
    }
  }

  lemma {:induction false} ProdLast(lead: seq<nat>, d: nat)
    ensures Prod(lead + [d]) == Prod(lead) * d
  {
    assert (lead + [d])[..|lead|] == lead;
  }

  /** The number of elements of a single matrix behind dimensions of one. */
  lemma {:induction false} ProdMatrix(lead: seq<nat>, r: nat, c: nat)
    requires forall i :: 0 <= i < |lead| ==> lead[i] == 1
    ensures Prod(lead + [r, c]) == r * c
  {
    hide Prod;
    ProdOnes(lead);
    ProdLast(lead, r);
    ProdLast(lead + [r], c);
    assert lead + [r, c] == lead + [r] + [c];
  }

  lemma SameFactor(x: nat, y: nat, d: nat)
    requires d > 0 && x * d == y * d
    ensures x == y
  {
    if x < y {
      Below(x, y, d);
    }
    if y < x {
      Below(y, x, d);
    }
  }

  lemma {:induction false} Split(shape: seq<nat>)
    requires shape != []
    ensures shape == shape[..|shape| - 1] + [shape[|shape| - 1]]
    ensures Prod(shape) == Prod(shape[..|shape| - 1]) * shape[|shape| - 1]
  {
    ProdLast(shape[..|shape| - 1], shape[|shape| - 1]);
  }

  /** Reshaping the pair is reshaping the product: when the pair comes through, so does the product. */
  lemma ReshapeMeans(l: Lora, newShape: seq<int>, x: Lora)
    requires l.Valid() && l.Rank() > 0 && Reshape(l, newShape) == Some(x)
    ensures x.Valid() && OneA(x)
    ensures var shape := Expand(newShape, Prod(l.Shape()));
            shape.Some? && Reshaped(Product(l), shape.value) == Some(Product(x))
  {
    var shape, r, c := Expand(newShape, Prod(l.Shape())).value, l.Rank(), l.RowSize();
    var n := |shape| - 1;
    assert x.a.shape == Ones(n - 1) + [r, c] && x.b.shape == shape[..n] + [r];
    assert x.b.shape[..n] == shape[..n] && x.Rank() == r && x.RowSize() == c;
    Split(l.b.shape);
    ProdLast(shape[..n], r);
    SameFactor(Prod(l.b.shape[..l.Dims() - 1]), Prod(shape[..n]), r);
    Split(shape);
    assert Product(x).shape == shape;
  }

  /** And when the product can be reshaped with the row size kept, so can the pair. */
  lemma ReshapeWorks(l: Lora, newShape: seq<int>)
    requires l.Valid() && OneA(l) && l.RowSize() > 0 && |newShape| >= 2
    requires var shape := Expand(newShape, Prod(l.Shape()));
             && shape.Some? && Reshaped(Product(l), shape.value).Some?
             && shape.value[|newShape| - 1] == l.RowSize()
    ensures Reshape(l, newShape).Some?
  {
    var shape, r, c := Expand(newShape, Prod(l.Shape())).value, l.Rank(), l.RowSize();
    var n := |shape| - 1;
    Split(l.b.shape);
    Split(shape);
    SameFactor(Prod(l.b.shape[..l.Dims() - 1]), Prod(shape[..n]), c);
    ProdLast(shape[..n], r);
    ProdMatrix(Ones(n - 1), r, c);
    var m := |l.a.shape|;
    ProdMatrix(l.a.shape[..m - 2], r, c);
    assert l.a.shape == l.a.shape[..m - 2] + [r, c];
  }

  // ---- permute ----

  function Normal(dim: int, n: int): int {
    if dim >= 0 then dim - n else dim
  }

  /** The dimension PyTorch means, negative ones counting from the end. */
  function TorchDim(dim: int, n: int): Option<nat> {
    if 0 <= dim < n then Some(dim) else if -n <= dim < 0 then Some(dim + n) else None
  }

  ghost predicate NamesAll(dims: seq<int>, p: seq<nat>) {
    |p| == |dims| && IsPerm(p, |dims|) && forall i :: 0 <= i < |dims| ==> TorchDim(dims[i], |dims|) == Some(p[i])
  }

  /** `permute` on the normalised dimensions, which name the permutation `p`. */
  function Permute(l: Lora, dims: seq<int>, p: seq<nat>): Option<Lora>
    requires |l.a.shape| == |l.b.shape| == |dims| >= 2 && IsPerm(p, |dims|)
  {
    var n := |dims|;
    if Normal(dims[n - 1], n) == -1 then
      if exists i :: 0 <= i < n - 2 && l.a.shape[i] != 1 then None
      else Some(Lora(l.a, Permuted(l.b, p)))
    else if n == 2 && Normal(dims[1], 2) == -2 && Normal(dims[0], 2) == -1 then
      Some(Lora(Permuted(l.b, p), Permuted(l.a, p)))
    else None
  }

  /** For the dimensions PyTorch accepts, normalising does not change what they name. */
  lemma NormalSame(dim: int, n: int)
    requires -n <= dim < n
    ensures TorchDim(Normal(dim, n), n) == TorchDim(dim, n) && TorchDim(dim, n).Some?
  {
  }

  /** Permuting the pair with the last dimension fixed is permuting the product. */
  lemma PermuteMeans(l: Lora, dims: seq<int>, p: seq<nat>, x: Lora)
    requires l.Valid() && |dims| == l.Dims() && NamesAll(dims, p)
    requires forall i :: 0 <= i < |dims| ==> -|dims| <= dims[i] < |dims|
    requires p[|p| - 1] == |p| - 1 && Permute(l, dims, p) == Some(x)
    ensures OneA(l) && Product(x) == Permuted(Product(l), p)
  {
    assert |p| == |dims| && TorchDim(dims[|dims| - 1], |dims|) == Some(p[|dims| - 1]);
    assert IsPerm(p, |dims|);
    hide Permuted, Product, PermutedShape, IsPerm, Prod, NamesAll;
    assert Normal(dims[|dims| - 1], |dims|) == -1;
    PermuteProduct(l, p);
  }

  lemma PermuteShapes(l: Lora, p: seq<nat>)
    requires l.Valid() && IsPerm(p, l.Dims()) && p[|p| - 1] == |p| - 1
    ensures IsPerm(p[..|p| - 1], |p| - 1)
    ensures var n := |p| - 1;
            var x, lead := Lora(l.a, Permuted(l.b, p)), PermutedShape(l.b.shape[..n], p[..n]);
            && |x.b.shape| == n + 1 && x.b.shape[..n] == lead && x.Rank() == l.Rank() && x.RowSize() == l.RowSize()
            && |l.Shape()| == n + 1 && x.Shape() == lead + [l.RowSize()] == PermutedShape(l.Shape(), p)
            && Prod(x.Shape()) == Prod(lead) * l.RowSize()
  {
    hide SourceIndex, Gather, Prod;
    var n := |p| - 1;
    LeadingPerm(p);
    var lead := PermutedShape(l.b.shape[..n], p[..n]);
    assert PermutedShape(l.b.shape, p) == lead + [l.Rank()];
    assert l.Shape()[..n] == l.b.shape[..n];
    assert PermutedShape(l.Shape(), p) == lead + [l.RowSize()];
    ProdLast(lead, l.RowSize());
  }

  lemma PermuteProduct(l: Lora, p: seq<nat>)
    requires l.Valid() && IsPerm(p, l.Dims()) && p[|p| - 1] == |p| - 1
    ensures |Permuted(l.b, p).shape| == l.Dims() && l.Shape() == Product(l).shape && |l.Shape()| == l.Dims()
    ensures Product(Lora(l.a, Permuted(l.b, p))) == Permuted(Product(l), p)
  {
    PermuteShapes(l, p);
    assert |p| == l.Dims();
    hide SourceIndex, Element, Gather, IsPerm, PermutedShape, Prod;
    var n, c := |p| - 1, l.RowSize();
    var x := Lora(l.a, Permuted(l.b, p));
    var left, right := Product(x).data, Permuted(Product(l), p).data;
    var rows := Prod(PermutedShape(l.b.shape[..n], p[..n]));
    assert |left| == |right| == rows * c;
    forall k | 0 <= k < rows * c
      ensures left[k] == right[k]
    {
      PermuteElement(l, p, k);
    }
  }

  /** One element of the product of the permuted pair. */
  lemma PermuteElement(l: Lora, p: seq<nat>, k: nat)
    requires l.Valid() && |p| == l.Dims() && IsPerm(p, |p|) && p[|p| - 1] == |p| - 1 && IsPerm(p[..|p| - 1], |p| - 1)
    requires k < Prod(PermutedShape(l.b.shape[..|p| - 1], p[..|p| - 1])) * l.RowSize()
    ensures l.RowSize() > 0
    ensures Element(Permuted(l.b, p).data, l.a.data, k / l.RowSize(), k % l.RowSize(), l.Rank(), l.RowSize())
            == At(Product(l).data, SourceIndex(l.Shape(), p, k))
  {
    hide SourceIndex, Prod, PermutedShape, Dot, Permuted, Gather, Product, Matmul, IsPerm, Slice, At;
    var n, r, c := |p| - 1, l.Rank(), l.RowSize();
    var lead, q := l.b.shape[..n], p[..n];
    DivBelow(k, Prod(PermutedShape(lead, q)), c);
    var row := SourceIndex(lead, q, k / c);
    SourceInRange(lead, q, k / c);
    assert l.Shape()[..n] == lead && l.Shape()[n] == c;
    LastFixed(l.Shape(), p, k);
    ProductAt(l, row, k % c);
    PermuteSlice(l.b, p, k / c);
  }

  lemma PermuteSlice(b: Tensor, p: seq<nat>, row: nat)
    requires b.shape != [] && |p| == |b.shape| && IsPerm(p, |p|) && p[|p| - 1] == |p| - 1 && IsPerm(p[..|p| - 1], |p| - 1)
    requires row < Prod(PermutedShape(b.shape[..|p| - 1], p[..|p| - 1]))
    ensures var n, r := |p| - 1, b.shape[|p| - 1];
            Slice(Permuted(b, p).data, row * r, 1, r)
            == Slice(b.data, SourceIndex(b.shape[..n], p[..n], row) * r, 1, r)
  {
    hide SourceIndex, Prod, PermutedShape, Permuted, Gather, IsPerm;
    var n, r := |p| - 1, b.shape[|p| - 1];
    var from := SourceIndex(b.shape[..n], p[..n], row);
    forall i | 0 <= i < r
      ensures At(Permuted(b, p).data, row * r + i * 1) == At(b.data, from * r + i * 1)
    {
      PermuteRow(b, p, row, i);
    }
  }

  lemma ProductAt(l: Lora, i: nat, j: nat)
    requires l.Valid() && i < Prod(l.b.shape[..l.Dims() - 1]) && j < l.RowSize()
    ensures At(Product(l).data, i * l.RowSize() + j) == Element(l.b.data, l.a.data, i, j, l.Rank(), l.RowSize())
  {
    hide Element, Prod;
    DivMod(i, l.RowSize(), j);
    Below(i, Prod(l.b.shape[..l.Dims() - 1]), l.RowSize());
  }

  /** A row of the permuted tensor is a row of the source. */
  lemma PermuteRow(b: Tensor, p: seq<nat>, row: nat, i: nat)
    requires b.shape != [] && IsPerm(p, |b.shape|) && p[|p| - 1] == |p| - 1 && IsPerm(p[..|p| - 1], |p| - 1)
    requires i < b.shape[|p| - 1] && row < Prod(PermutedShape(b.shape[..|p| - 1], p[..|p| - 1]))
    ensures At(Permuted(b, p).data, row * b.shape[|p| - 1] + i)
            == At(b.data, SourceIndex(b.shape[..|p| - 1], p[..|p| - 1], row) * b.shape[|p| - 1] + i)
  {
    hide SourceIndex, Prod, Gather, PermutedShape;
    var n, r := |p| - 1, b.shape[|p| - 1];
    var lead' := PermutedShape(b.shape[..n], p[..n]);
    LastFixed(b.shape, p, row * r + i);
    DivMod(row, r, i);
    Below(row, Prod(lead'), r);
    ProdLast(lead', r);
  }

  // ---- the transpose of a matrix ----

  /** An element of a transposed matrix. */
  lemma Turned(t: Tensor, i: nat, j: nat)
    requires |t.shape| == 2 && i < t.shape[1] && j < t.shape[0] && IsPerm([1, 0], 2)
    ensures At(Permuted(t, [1, 0]).data, i * t.shape[0] + j) == At(t.data, j * t.shape[1] + i)
  {
    hide SourceIndex, Prod, IsPerm;
    var m, n := t.shape[0], t.shape[1];
    Below(i, n, m);
    TwoByTwo(t.shape, i * m + j);
    DivMod(i, m, j);
  }

  /** Transposing a two-dimensional pair, B and A trading places, is transposing the product. */
  lemma TransposeMeans(l: Lora, dims: seq<int>, x: Lora)
    requires l.Valid() && l.Dims() == 2 && dims in [[1, 0], [-1, 0], [1, -2], [-1, -2]]
    requires IsPerm([1, 0], 2) && Permute(l, dims, [1, 0]) == Some(x)
    ensures |x.a.shape| == |x.b.shape| == 2 && Product(x) == Permuted(Product(l), [1, 0])
  {
    hide SourceIndex, Element;
    var m, r, c := l.b.shape[0], l.Rank(), l.RowSize();
    assert x == Lora(Permuted(l.b, [1, 0]), Permuted(l.a, [1, 0]));
    assert l.b.shape == [m, r] && l.a.shape == [r, c];
    assert l.b.shape[..1] == [m] && l.Shape() == [m, c];
    assert x.b.shape == [c, r] && x.a.shape == [r, m] && x.b.shape[..1] == [c];
    assert [m][..0] == [] && [c][..0] == [] && Prod([m]) == m && Prod([c]) == c;
    var right := Permuted(Product(l), [1, 0]);
    assert right.shape == [c, m] && [c, m][..1] == [c] && Prod([c, m]) == c * m;
    assert Product(x).shape == [c, m];
    forall k | 0 <= k < c * m
      ensures Product(x).data[k] == right.data[k]
    {
      TransposeElement(l, x, k);
    }
    assert Product(x).data == right.data;
  }

  lemma TransposeElement(l: Lora, x: Lora, k: nat)
    requires l.Valid() && l.Dims() == 2 && IsPerm([1, 0], 2)
    requires x == Lora(Permuted(l.b, [1, 0]), Permuted(l.a, [1, 0]))
    requires Prod(l.b.shape[..1]) == l.b.shape[0] && l.Shape() == [l.b.shape[0], l.RowSize()]
    requires k < l.RowSize() * l.b.shape[0]
    ensures l.b.shape[0] > 0
    ensures Element(x.b.data, x.a.data, k / l.b.shape[0], k % l.b.shape[0], l.Rank(), l.b.shape[0])
            == At(Product(l).data, SourceIndex(l.Shape(), [1, 0], k))
  {
    hide SourceIndex, Prod, Dot, Permuted, Product;
    var m, r, c := l.b.shape[0], l.Rank(), l.RowSize();
    DivBelow(k, c, m);
    var i, j := k % m, k / m;
    TwoByTwo(l.Shape(), k);
    ProductAt(l, i, j);
    forall t | 0 <= t < r
      ensures At(l.b.data, i * r + t * 1) == At(x.a.data, i + t * m)
      ensures At(l.a.data, j + t * c) == At(x.b.data, j * r + t * 1)
    {
      Turned(l.b, t, i);
      Turned(l.a, j, t);
    }
    assert Slice(l.b.data, i * r, 1, r) == Slice(x.a.data, i, m, r);
    assert Slice(l.a.data, j, c, r) == Slice(x.b.data, j * r, 1, r);
    DotCommutes(Slice(l.b.data, i * r, 1, r), Slice(l.a.data, j, c, r));
  }

  // ---- transpose of two dimensions ----

  function Swapped(n: nat, i: nat, j: nat): (p: seq<nat>)
    requires i < n && j < n
    ensures |p| == n
    ensures forall k :: 0 <= k < n ==> p[k] == if k == i then j else if k == j then i else k
  {
    seq(n, k requires 0 <= k < n => if k == i then j else if k == j then i else k)
  }

  lemma SwappedIsPerm(n: nat, i: nat, j: nat)
    requires i < n && j < n
    ensures IsPerm(Swapped(n, i, j), n)
  {
    var p := Swapped(n, i, j);
    forall k: nat | k < n
      ensures k in p
    {
      assert p[if k == i then j else if k == j then i else k] == k;
    }
  }

  /** `transpose`: the list of dimensions with two of them exchanged is handed to `permute`. */
  function Transpose(l: Lora, dim0: int, dim1: int): Option<Lora>
    requires |l.a.shape| == |l.b.shape| >= 2
  {
    match (TorchDim(dim0, l.Dims()), TorchDim(dim1, l.Dims()))
    case (Some(i), Some(j)) =>
      SwappedIsPerm(l.Dims(), i, j);
      Permute(l, AsInts(Swapped(l.Dims(), i, j)), Swapped(l.Dims(), i, j))
    case _ => None
  }

  function AsInts(p: seq<nat>): (r: seq<int>)
    ensures |r| == |p| && forall i :: 0 <= i < |p| ==> r[i] == p[i]
  {
    seq(|p|, i requires 0 <= i < |p| => p[i])
  }

  lemma PermutedDims(t: Tensor, p: seq<nat>)
    requires IsPerm(p, |t.shape|)
    ensures |Permuted(t, p).shape| == |t.shape|
  {
  }

  /** Whatever `transpose` gives stands for the transposed product. */
  lemma TransposedIsProduct(l: Lora, dim0: int, dim1: int, i: nat, j: nat, x: Lora)
    requires l.Valid() && i < l.Dims() && j < l.Dims()
    requires TorchDim(dim0, l.Dims()) == Some(i) && TorchDim(dim1, l.Dims()) == Some(j)
    requires Transpose(l, dim0, dim1) == Some(x)
    ensures |x.a.shape| >= 1 && |x.b.shape| >= 1 && IsPerm(Swapped(l.Dims(), i, j), l.Dims())
    ensures Product(x) == Permuted(Product(l), Swapped(l.Dims(), i, j))
  {
    hide Permuted, Product, PermutedShape, Prod;
    var p := Swapped(l.Dims(), i, j);
    SwappedIsPerm(l.Dims(), i, j);
    if p[|p| - 1] == |p| - 1 {
      PermuteMeans(l, AsInts(p), p, x);
      PermutedDims(l.b, p);
    } else {
      assert l.Dims() == 2;
      assert p == [1, 0] && AsInts(p) == [1, 0];
      TransposeMeans(l, [1, 0], x);
    }
  }

  /** And it gives something exactly for one matrix A with the last dimension left alone, or for a matrix. */
  lemma TransposedIff(l: Lora, dim0: int, dim1: int, i: nat, j: nat)
    requires l.Valid() && TorchDim(dim0, l.Dims()) == Some(i) && TorchDim(dim1, l.Dims()) == Some(j)
    ensures Transpose(l, dim0, dim1).Some?
            <==> if i == j || (i < l.Dims() - 1 && j < l.Dims() - 1) then OneA(l) else l.Dims() == 2
  {
    hide Permuted, PermutedShape, Prod, IsPerm;
    SwappedIsPerm(l.Dims(), i, j);
    var p := Swapped(l.Dims(), i, j);
    assert p[l.Dims() - 1] == l.Dims() - 1 <==> i == j || (i < l.Dims() - 1 && j < l.Dims() - 1);
  }
}
