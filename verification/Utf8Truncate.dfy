/**
 `utf8_truncate_safe`: cutting a byte string that may end in the middle of a character, as the
 streaming tool-call parser does with every chunk of model output.
 */
module Utf8Truncate {
  import opened Utf8
  import opened Utf8Text

  /** Byte `i` starts the last character of `s`, complete or not. */
  predicate LastStart(s: seq<Byte>, i: nat) {
    && i < |s|
    && !IsContinuation(s[i])
    && forall j :: i < j < |s| ==> IsContinuation(s[j])
  }

  /** Which length is kept, for any bytes at all. */
  ghost predicate Keeps(s: seq<Byte>, r: nat) {
    && (forall i: nat :: LastStart(s, i) && |s| - i <= 4 ==>
          r == if 1 <= AnnouncedLength(s[i]) <= |s| - i then |s| else i)
    && ((forall i :: 0 <= i < |s| && |s| - i <= 4 ==> IsContinuation(s[i])) ==>
          r == if |s| < 3 then 0 else |s| - 3)
  }

  method TruncateSafe(s: seq<Byte>) returns (r: nat)
    ensures r <= |s| && Keeps(s, r)
  {
    if |s| == 0 {
      return 0;
    }
    var i := |s|;
    var back := 0;
    while back < 4 && i > 0
      invariant 0 <= i <= |s| && back <= 4 && i == |s| - back
      invariant forall j :: i <= j < |s| ==> IsContinuation(s[j])
    {
      i := i - 1;
      var c := s[i];
      ghost var starts := !IsContinuation(c);
      assert starts ==> LastStart(s, i) && forall k :: LastStart(s, k) ==> k == i;
      if c & 0x80 == 0 {
        return |s|;
      } else if c & 0xC0 == 0xC0 {
        var expected := 0;
        if c & 0xE0 == 0xC0 {
          expected := 2;
        } else if c & 0xF0 == 0xE0 {
          expected := 3;
        } else if c & 0xF8 == 0xF0 {
          expected := 4;
        } else {
          return i;
        }
        return if |s| - i >= expected then |s| else i;
      }
      back := back + 1;
    }
    r := |s| - if |s| < 3 then |s| else 3;
  }

  lemma AnnouncedOfCell(text: Text, k: nat)
    requires k < |text|
    ensures AnnouncedLength(Cells(text)[k][0]) == |Cells(text)[k]| <= 4
  {
    EncodeShape(text[k]);
  }

  /** The cell that holds byte `n`. */
  lemma {:induction false} CellHolding(cells: seq<Cell>, n: nat) returns (k: nat)
    requires AllCells(cells) && n < |Join(cells)|
    ensures k < |cells| && Offset(cells, k) <= n < Offset(cells, k + 1)
  {
    k := |cells| - 1;
    assert cells[..k + 1] == cells;
    while n < Offset(cells, k)
      decreases k
      invariant k < |cells| && n < Offset(cells, k + 1)
    {
      assert k > 0 by {
        assert cells[..0] == [];
      }
      k := k - 1;
    }
  }

  /** Bytes that end inside or right after a character: what is kept ends before it or takes it whole. */
  lemma KeepsAt(line: seq<Byte>, start: nat, end: nat, n: nat, r: nat)
    requires start < n <= end <= |line| && end - start <= 4
    requires !IsContinuation(line[start]) && AnnouncedLength(line[start]) == end - start
    requires forall i :: start < i < end ==> IsContinuation(line[i])
    requires Keeps(line[..n], r)
    ensures r == if n == end then n else start
  {
    var s := line[..n];
    assert LastStart(s, start) && s[start] == line[start];
  }

  /**
   Of any byte prefix of an encoded text, what is kept is the longest run of whole characters:
   `k` characters, and one more would not fit.
   */
  lemma TruncateKeepsWholeCharacters(text: Text, n: nat, r: nat) returns (k: nat)
    requires n <= |EncodeText(text)|
    requires Keeps(EncodeText(text)[..n], r)
    ensures k <= |text| && r == Offset(Cells(text), k) <= n
    ensures k < |text| ==> n < Offset(Cells(text), k + 1)
  {
    var cells, line := Cells(text), EncodeText(text);
    CellsAreCells(text);
    if n == 0 {
      k := 0;
      if 0 < |text| {
        BytesOfCell(cells, 0);
      }
    } else {
      // the character that the last kept byte belongs to
      var j := CellHolding(cells, n - 1);
      var start, end := Offset(cells, j), Offset(cells, j + 1);
      BytesOfCell(cells, j);
      CellAt(cells, j);
      AnnouncedOfCell(text, j);
      assert line[start] == line[start..end][0];
      KeepsAt(line, start, end, n, r);
      k := if n == end then j + 1 else j;
      if k == j + 1 && k < |cells| {
        BytesOfCell(cells, k);
      }
    }
  }
}
