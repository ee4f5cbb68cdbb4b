/**
 Text as a sequence of encoded characters ("cells"), and the byte loops that step over them.

 A cell starts with a byte that is not a continuation and goes on with bytes that are, so the
 boundaries between the cells of a text can be found by looking at single bytes only.
 */
module Utf8Text {
  import opened Utf8

  type Cell = seq<Byte>
  type Text = seq<CodePoint>

  predicate IsCell(cell: Cell) {
    && 1 <= |cell| <= 4
    && !IsContinuation(cell[0])
    && forall i :: 1 <= i < |cell| ==> IsContinuation(cell[i])
  }

  ghost predicate AllCells(cells: seq<Cell>) {
    forall i :: 0 <= i < |cells| ==> IsCell(cells[i])
  }

  /** The bytes of a text, cell after cell. */
  function Join(cells: seq<Cell>): seq<Byte> {
    if cells == [] then [] else Join(cells[..|cells| - 1]) + cells[|cells| - 1]
  }

  /** The byte offset of the boundary before cell `k`. */
  function Offset(cells: seq<Cell>, k: nat): nat
    requires k <= |cells|
  {
    |Join(cells[..k])|
  }

  /** Cells that encode the code points of a text. */
  function Cells(text: Text): (cells: seq<Cell>)
    ensures |cells| == |text|
    ensures forall i :: 0 <= i < |text| ==> cells[i] == Encode(text[i])
  {
    seq(|text|, i requires 0 <= i < |text| => Encode(text[i]))
  }

  function EncodeText(text: Text): seq<Byte> {
    Join(Cells(text))
  }

  lemma CellsAreCells(text: Text)
    ensures AllCells(Cells(text))
  {
    forall i | 0 <= i < |text|
      ensures IsCell(Cells(text)[i])
    {
      EncodeShape(text[i]);
    }
  }

  lemma CellsConcat(a: Text, b: Text)
    ensures Cells(a + b) == Cells(a) + Cells(b)
  {
  }

  lemma CellsTake(text: Text, k: nat)
    requires k <= |text|
    ensures Cells(text[..k]) == Cells(text)[..k]
    ensures Cells(text[k..]) == Cells(text)[k..]
  {
  }

  lemma {:induction false} JoinConcat(a: seq<Cell>, b: seq<Cell>)
    ensures Join(a + b) == Join(a) + Join(b)
  {
    if b == [] {
      assert a + b == a;
    } else {
      var n := |b| - 1;
      assert (a + b)[..|a| + n] == a + b[..n];
      JoinConcat(a, b[..n]);
    }
  }

  lemma {:induction false} JoinSplit(cells: seq<Cell>, k: nat)
    requires k <= |cells|
    ensures Join(cells) == Join(cells[..k]) + Join(cells[k..])
    ensures Offset(cells, k) <= |Join(cells)|
    ensures Join(cells)[..Offset(cells, k)] == Join(cells[..k])
    ensures Join(cells)[Offset(cells, k)..] == Join(cells[k..])
  {
    assert cells == cells[..k] + cells[k..];
    JoinConcat(cells[..k], cells[k..]);
  }

  /** Where cell `k` sits in the bytes. */
  lemma {:induction false} CellAt(cells: seq<Cell>, k: nat)
    requires k < |cells|
    ensures Offset(cells, k) + |cells[k]| == Offset(cells, k + 1) <= |Join(cells)|
    ensures Join(cells)[Offset(cells, k)..Offset(cells, k + 1)] == cells[k]
    ensures Join(cells) == Join(cells[..k]) + cells[k] + Join(cells[k + 1..])
  {
    JoinSplit(cells, k);
    JoinSplit(cells, k + 1);
    assert cells[..k + 1][..k] == cells[..k];
  }

  lemma {:induction false} OffsetMonotone(cells: seq<Cell>, j: nat, k: nat)
    requires AllCells(cells) && j <= k <= |cells|
    ensures Offset(cells, j) + (k - j) <= Offset(cells, k)
  {
    if j < k {
      OffsetMonotone(cells, j, k - 1);
      CellAt(cells, k - 1);
    }
  }

  /** The boundary test on one byte is right: a text's byte is a boundary iff it does not continue a character. */
  lemma {:induction false} BytesOfCell(cells: seq<Cell>, k: nat)
    requires AllCells(cells) && k < |cells|
    ensures var line := Join(cells);
            && Offset(cells, k) < Offset(cells, k + 1) <= |line|
            && !IsContinuation(line[Offset(cells, k)])
            && forall i :: Offset(cells, k) < i < Offset(cells, k + 1) ==> IsContinuation(line[i])
  {
    CellAt(cells, k);
    var line, from := Join(cells), Offset(cells, k);
    var cell := cells[k];
    assert IsCell(cell);
    assert line[from] == cell[0];
    forall i | from < i < from + |cell|
      ensures IsContinuation(line[i])
    {
      assert line[i] == line[from..from + |cell|][i - from];
    }
  }

  /** `next_utf8_char_pos`: one byte on, then over the continuation bytes. */
  method NextPos(line: seq<Byte>, pos: nat) returns (r: nat)
    ensures pos >= |line| ==> r == |line|
    ensures pos < |line| ==> pos < r <= |line|
    ensures forall i :: pos < i < r ==> IsContinuation(line[i])
    ensures r == |line| || !IsContinuation(line[r])
  {
    if pos >= |line| {
      return |line|;
    }
    r := pos + 1;
    while r < |line| && IsContinuation(line[r])
      invariant pos < r <= |line|
      invariant forall i :: pos < i < r ==> IsContinuation(line[i])
    {
      r := r + 1;
    }
  }

  /** `prev_utf8_char_pos`: one byte back, then over the continuation bytes. */
  method PrevPos(line: seq<Byte>, pos: nat) returns (r: nat)
    requires pos <= |line|
    ensures pos == 0 ==> r == 0
    ensures pos > 0 ==> r < pos
    ensures forall i :: r < i < pos ==> IsContinuation(line[i])
    ensures pos == 0 || r == 0 || !IsContinuation(line[r])
  {
    if pos == 0 {
      return 0;
    }
    r := pos - 1;
    while r > 0 && IsContinuation(line[r])
      invariant r < pos
      invariant forall i :: r < i < pos ==> IsContinuation(line[i])
    {
      r := r - 1;
    }
  }

  /** What `NextPos` promises singles out the next boundary. */
  lemma {:induction false} NextBoundary(cells: seq<Cell>, k: nat, r: nat)
    requires AllCells(cells) && k < |cells|
    requires Offset(cells, k) < r <= |Join(cells)|
    requires forall i :: Offset(cells, k) < i < r ==> IsContinuation(Join(cells)[i])
    requires r == |Join(cells)| || !IsContinuation(Join(cells)[r])
    ensures r == Offset(cells, k + 1)
  {
    BytesOfCell(cells, k);
    if k + 1 < |cells| {
      BytesOfCell(cells, k + 1);
    } else {
      assert cells[..k + 1] == cells;
    }
  }

  /** What `PrevPos` promises singles out the previous boundary. */
  lemma {:induction false} PrevBoundary(cells: seq<Cell>, k: nat, r: nat)
    requires AllCells(cells) && 0 < k <= |cells|
    requires r < Offset(cells, k) <= |Join(cells)|
    requires forall i :: r < i < Offset(cells, k) ==> IsContinuation(Join(cells)[i])
    requires r == 0 || !IsContinuation(Join(cells)[r])
    ensures r == Offset(cells, k - 1)
  {
    BytesOfCell(cells, k - 1);
  }

  /** The code point decoded at a boundary is the one the text has there. */
  lemma DecodeAtBoundary(text: Text, k: nat)
    requires k < |text|
    ensures var line, pos := EncodeText(text), Offset(Cells(text), k);
            && pos < |line|
            && Decode(line, pos).cp == text[k]
            && pos + Decode(line, pos).advance == Offset(Cells(text), k + 1)
  {
    var cells := Cells(text);
    CellAt(cells, k);
    DecodeEncode(text[k], Join(cells[..k]), Join(cells[k + 1..]));
  }

  lemma EncodedLength(text: Text)
    ensures |text| <= |EncodeText(text)|
    ensures EncodeText(text) == [] <==> text == []
  {
    CellsAreCells(text);
    OffsetMonotone(Cells(text), 0, |text|);
    assert Cells(text)[..|text|] == Cells(text);
  }

  /** Different texts have different bytes. */
  lemma {:induction false} EncodeTextInjective(a: Text, b: Text)
    requires EncodeText(a) == EncodeText(b)
    ensures a == b
  {
    EncodedLength(a);
    EncodedLength(b);
    if a == [] || b == [] {
    } else {
      DecodeAtBoundary(a, 0);
      DecodeAtBoundary(b, 0);
      CellsTake(a, 1);
      CellsTake(b, 1);
      JoinSplit(Cells(a), 1);
      JoinSplit(Cells(b), 1);
      EncodeTextInjective(a[1..], b[1..]);
      assert a == [a[0]] + a[1..] && b == [b[0]] + b[1..];
    }
  }

  function CountStarts(s: seq<Byte>): nat {
    if s == [] then 0 else CountStarts(s[..|s| - 1]) + if IsContinuation(s[|s| - 1]) then 0 else 1
  }

  lemma {:induction false} CountStartsConcat(a: seq<Byte>, b: seq<Byte>)
    ensures CountStarts(a + b) == CountStarts(a) + CountStarts(b)
  {
    if b == [] {
      assert a + b == a;
    } else {
      assert (a + b)[..|a + b| - 1] == a + b[..|b| - 1];
      CountStartsConcat(a, b[..|b| - 1]);
    }
  }

  lemma {:induction false} CountStartsOfCell(cell: Cell, n: nat)
    requires IsCell(cell) && 1 <= n <= |cell|
    ensures CountStarts(cell[..n]) == 1
  {
    if n == 1 {
      assert cell[..1] == [cell[0]] && [cell[0]][..0] == [];
    } else {
      assert cell[..n][..n - 1] == cell[..n - 1];
      CountStartsOfCell(cell, n - 1);
    }
  }

  /** The number of characters can be read off the bytes. */
  lemma {:induction false} CountStartsOfText(cells: seq<Cell>)
    requires AllCells(cells)
    ensures CountStarts(Join(cells)) == |cells|
  {
    if cells != [] {
      var n := |cells| - 1;
      CountStartsOfText(cells[..n]);
      CountStartsConcat(Join(cells[..n]), cells[n]);
      assert IsCell(cells[n]);
      CountStartsOfCell(cells[n], |cells[n]|);
      assert cells[n][..|cells[n]|] == cells[n];
    }
  }
}
