/**
 The line editor of the console, on bytes: `line` is a UTF-8 string, `widths` has one entry per
 character, and the cursor is kept both as a character index and as a byte offset. Every operation
 is shown to do to the bytes what `EditorModel` does to a list of code points.
 */
module LineEditor {
  import opened Utf8
  import opened Utf8Text
  import opened EditorModel

  // ----- Byte-level lemmas for the editing operations

  lemma ErasedBytes(text: Text, k: nat)
    requires k < |text|
    ensures var line, from, to := EncodeText(text), Offset(Cells(text), k), Offset(Cells(text), k + 1);
            && from <= to <= |line|
            && line[..from] + line[to..] == EncodeText(RemoveAt(text, k))
            && Offset(Cells(RemoveAt(text, k)), k) == from
  {
    var cells := Cells(text);
    CellAt(cells, k);
    JoinSplit(cells, k);
    JoinSplit(cells, k + 1);
    CellsTake(text, k);
    CellsTake(text, k + 1);
    CellsConcat(text[..k], text[k + 1..]);
    JoinConcat(cells[..k], cells[k + 1..]);
    assert Cells(RemoveAt(text, k))[..k] == cells[..k];
  }

  lemma InsertedBytes(text: Text, k: nat, ch: CodePoint)
    requires k <= |text|
    ensures var line, at := EncodeText(text), Offset(Cells(text), k);
            && at <= |line|
            && line[..at] + Encode(ch) + line[at..] == EncodeText(InsertAt(text, k, ch))
            && Offset(Cells(InsertAt(text, k, ch)), k + 1) == at + |Encode(ch)|
  {
    hide Encode, Join;
    var cells, cells' := Cells(text), Cells(InsertAt(text, k, ch));
    JoinSplit(cells, k);
    CellsTake(text, k);
    CellsInsert(text, k, ch);
    assert cells'[..k] == cells[..k] && cells'[k + 1..] == cells[k..];
    CellAt(cells', k);
  }

  lemma CellsInsert(text: Text, k: nat, ch: CodePoint)
    requires k <= |text|
    ensures Cells(InsertAt(text, k, ch)) == Cells(text)[..k] + [Encode(ch)] + Cells(text)[k..]
  {
    hide Encode;
  }

  lemma OffsetAtEnds(text: Text)
    ensures Offset(Cells(text), 0) == 0
    ensures Offset(Cells(text), |text|) == |EncodeText(text)|
    ensures forall k :: 0 <= k <= |text| ==> Offset(Cells(text), k) <= |EncodeText(text)|
  {
    assert Cells(text)[..|text|] == Cells(text);
    forall k | 0 <= k <= |text|
      ensures Offset(Cells(text), k) <= |EncodeText(text)|
    {
      JoinSplit(Cells(text), k);
    }
  }

  /** The last byte of a line tells whether the line ends in a given one-byte character. */
  lemma LastByte(text: Text, ch: CodePoint)
    requires ch <= 0x7F && text != []
    ensures var line := EncodeText(text);
            && line != []
            && (line[|line| - 1] == ch as Byte <==> text[|text| - 1] == ch)
            && (text[|text| - 1] == ch ==> line[..|line| - 1] == EncodeText(text[..|text| - 1]))
  {
    var n := |text| - 1;
    var cells, line := Cells(text), EncodeText(text);
    hide Cells, Join, Encode;
    CellsAreCells(text);
    CellAt(cells, n);
    BytesOfCell(cells, n);
    OffsetAtEnds(text);
    CellsTake(text, n);
    EncodeShape(text[n]);
    var cell := Encode(text[n]);
    assert line[|line| - 1] == cell[|cell| - 1];
    AsciiLastByte(text[n], ch);
  }

  lemma AsciiLastByte(a: CodePoint, ch: CodePoint)
    requires ch <= 0x7F
    ensures |Encode(a)| > 0
    ensures Encode(a)[|Encode(a)| - 1] == ch as Byte <==> a == ch
    ensures a == ch ==> |Encode(a)| == 1
  {
    EncodeShape(a);
    assert !IsContinuation(ch as Byte);
  }

  lemma AppendedByte(text: Text, ch: CodePoint)
    requires ch <= 0x7F
    ensures EncodeText(text) + [ch as Byte] == EncodeText(text + [ch])
  {
    assert Cells(text + [ch])[..|text|] == Cells(text);
  }

  /** `NextPos` from the boundary of a character. */
  method Forward(line: seq<Byte>, pos: nat, ghost text: Text, ghost k: nat) returns (r: nat)
    requires line == EncodeText(text) && k < |text| && pos == Offset(Cells(text), k)
    ensures r == Offset(Cells(text), k + 1)
  {
    CellsAreCells(text);
    BytesOfCell(Cells(text), k);
    r := NextPos(line, pos);
    NextBoundary(Cells(text), k, r);
  }

  /** `PrevPos` from the boundary after a character. */
  method Backward(line: seq<Byte>, pos: nat, ghost text: Text, ghost k: nat) returns (r: nat)
    requires line == EncodeText(text) && k < |text| && pos == Offset(Cells(text), k + 1)
    ensures r == Offset(Cells(text), k)
  {
    CellsAreCells(text);
    BytesOfCell(Cells(text), k);
    r := PrevPos(line, pos);
    PrevBoundary(Cells(text), k + 1, r);
  }

  function Spliced<T>(s: seq<T>, at: nat, t: seq<T>): (r: seq<T>)
    requires at <= |s|
    ensures |r| == |s| + |t|
  {
    s[..at] + t + s[at..]
  }

  /** The bytes of a typed character, and what inserting them does to the line. */
  method NewCharacter(ch: Char32, ghost text: Text, ghost k: nat) returns (bytes: seq<Byte>, ghost after: Text)
    requires k <= |text|
    ensures Offset(Cells(text), k) <= |EncodeText(text)|
    ensures ch <= 0x10FFFF ==>
              && after == InsertAt(text, k, ch)
              && Spliced(EncodeText(text), Offset(Cells(text), k), bytes) == EncodeText(after)
              && Offset(Cells(after), k + 1) == Offset(Cells(text), k) + |bytes|
    ensures ch > 0x10FFFF ==> Spliced(EncodeText(text), Offset(Cells(text), k), bytes) == EncodeText(text)
  {
    bytes, after := Encode(ch), text;
    JoinSplit(Cells(text), k);
    if ch <= 0x10FFFF {
      after := InsertAt(text, k, ch);
      InsertedBytes(text, k, ch);
    }
  }

  // ----- History of earlier lines

  class History {
    var entries: seq<seq<Byte>>
    var viewing: Viewing
    var backupLine: seq<Byte>
    ghost var texts: seq<Text>
    ghost var backupText: Text

    ghost function Model(): Hist<Text>
      reads this
    {
      Hist(texts, viewing, backupText)
    }

    ghost predicate Valid()
      reads this
    {
      && |entries| == |texts|
      && (forall i :: 0 <= i < |texts| ==> entries[i] == EncodeText(texts[i]))
      && backupLine == EncodeText(backupText)
      && Model().Valid()
    }

    constructor ()
      ensures Valid() && Model() == Hist([], NotViewing, [])
    {
      entries, viewing, backupLine := [], NotViewing, [];
      texts, backupText := [], [];
    }

    method Add(line: seq<Byte>, ghost text: Text)
      requires Valid() && line == EncodeText(text)
      modifies this
      ensures Valid() && Model() == Remember(old(Model()), text)
    {
      hide Cells, Join, EncodeText, Encode, Decode;
      EncodedLength(text);
      if line == [] {
        return;
      }
      assert text != [];
      if entries == [] || entries[|entries| - 1] != line {
        entries := entries + [line];
        texts := texts + [text];
      } else {
        EncodeTextInjective(texts[|texts| - 1], text);
      }
      EndViewing();
    }

    /** `None` is the source's `false`: nothing is shown. */
    method Prev() returns (found: bool, line: seq<Byte>)
      requires Valid()
      modifies this
      ensures Valid() && texts == old(texts) && backupText == old(backupText)
      ensures found == (viewing.At? && entries != [])
      ensures !found ==> viewing == old(viewing)
      ensures found ==>
                && old(viewing).At?
                && viewing == At(if old(viewing).index > 0 then old(viewing).index - 1 else 0)
                && viewing.index < |texts| && line == EncodeText(texts[viewing.index])
    {
      hide Cells, Join, EncodeText, Encode, Decode;
      if entries == [] {
        return false, [];
      }
      if viewing.NotViewing? {
        return false, [];
      }
      if viewing.index > 0 {
        viewing := At(viewing.index - 1);
      }
      return true, entries[viewing.index];
    }

    method Next() returns (found: bool, line: seq<Byte>, ghost text: Text)
      requires Valid()
      modifies this
      ensures Valid() && texts == old(texts)
      ensures found == (old(viewing).At? && entries != [])
      ensures !found ==> Model() == old(Model())
      ensures found ==>
                && old(viewing).At?
                && line == EncodeText(text)
                && var i := old(viewing).index + 1;
                && text == (if i >= |texts| then old(backupText) else texts[i])
                && Model() == if i >= |texts| then Hist(texts, NotViewing, []) else old(Model()).(viewing := At(i))
    {
      hide Cells, Join, EncodeText, Encode, Decode;
      text := [];
      if entries == [] || viewing.NotViewing? {
        return false, [], [];
      }
      viewing := At(viewing.index + 1);
      if viewing.index >= |entries| {
        line, text := backupLine, backupText;
        EndViewing();
      } else {
        line, text := entries[viewing.index], texts[viewing.index];
      }
      found := true;
    }

    method BeginViewing(line: seq<Byte>, ghost text: Text)
      requires Valid() && line == EncodeText(text)
      modifies this
      ensures Valid() && Model() == Hist(old(texts), At(|texts|), text)
    {
      backupLine, backupText := line, text;
      viewing := At(|entries|);
    }

    method EndViewing()
      requires |entries| == |texts|
      requires forall i :: 0 <= i < |texts| ==> entries[i] == EncodeText(texts[i])
      modifies `viewing, `backupLine, `backupText
      ensures Valid() && Model() == Hist(texts, NotViewing, [])
    {
      viewing := NotViewing;
      backupLine, backupText := [], [];
    }
  }

  // ----- The editor

  class Editor {
    var line: seq<Byte>
    var widths: seq<int>
    var charPos: nat
    var bytePos: nat
    var isSpecialChar: bool
    const history: History
    const isSpace: Spaces
    ghost var text: Text

    /** The bytes and the widths agree with a text, and both forms of the cursor mean the same place. */
    ghost predicate Coherent()
      reads this
    {
      && line == EncodeText(text)
      && |widths| == |text|
      && (forall i :: 0 <= i < |widths| ==> widths[i] >= 0)
      && charPos <= |text|
      && bytePos == Offset(Cells(text), charPos)
    }

    ghost predicate Valid()
      reads this, history
    {
      Coherent() && history.Valid()
    }

    ghost function Document(): Doc
      reads this
    {
      Doc(text, charPos)
    }

    ghost function Model(): Session
      reads this, history
    {
      Session(Document(), history.Model())
    }

    constructor (history: History, isSpace: Spaces)
      requires history.Valid()
      ensures Valid() && this.history == history && this.isSpace == isSpace && !isSpecialChar
      ensures Model() == Session(Doc([], 0), history.Model())
    {
      this.history, this.isSpace := history, isSpace;
      line, widths, charPos, bytePos := [], [], 0, 0;
      isSpecialChar := false;
      text := [];
    }

    method DeleteAtCursor()
      requires Coherent()
      modifies this
      ensures Coherent() && isSpecialChar == old(isSpecialChar)
      ensures Document() == Edit(old(Document()), Delete, isSpace)
    {
      hide Cells, Join, EncodeText, Encode, Decode;
      if charPos >= |widths| {
        return;
      }
      var nextPos := Forward(line, bytePos, text, charPos);
      ErasedBytes(text, charPos);
      line := line[..bytePos] + line[nextPos..];
      widths := widths[..charPos] + widths[charPos + 1..];
      text := RemoveAt(text, charPos);
    }

    method BackspaceKey()
      requires Coherent()
      modifies this
      ensures Coherent() && isSpecialChar == old(isSpecialChar)
      ensures Document() == Edit(old(Document()), Backspace, isSpace)
    {
      hide Cells, Join, EncodeText, Encode, Decode;
      if charPos > 0 {
        charPos := charPos - 1;
        var prevPos := Backward(line, bytePos, text, charPos);
        ErasedBytes(text, charPos);
        line := line[..prevPos] + line[bytePos..];
        bytePos := prevPos;
        widths := widths[..charPos] + widths[charPos + 1..];
        text := RemoveAt(text, charPos);
      }
    }

    /**
     A typed character. `realWidth` is what the terminal measured, negative if it could not.
     Above 0x10FFFF nothing is written to the line while the widths still grow, and the state is
     then no longer that of any text.
     */
    method InsertCharacter(ch: Char32, realWidth: int)
      requires Coherent()
      modifies this
      ensures isSpecialChar == old(isSpecialChar)
      ensures ch <= 0x10FFFF ==> Coherent() && Document() == Edit(old(Document()), Insert(ch), isSpace)
      ensures ch > 0x10FFFF ==> line == old(line) && |widths| == |old(widths)| + 1 && charPos == old(charPos) + 1
      ensures Explained(line, |widths|) <==> ch <= 0x10FFFF
    {
      hide Cells, Join, EncodeText, Encode, Decode;
      var bytes, after := NewCharacter(ch, text, charPos);
      var w := if realWidth < 0 then 0 else realWidth;
      OffsetAtEnds(text);
      ghost var before := text;
      Splice(bytes, w);
      if ch <= 0x10FFFF {
        text := after;
        ExplainedBy(text);
      } else {
        NothingExplains(before, |widths|);
      }
    }

    /** Puts the bytes of one character at the cursor, at the end of the line or in its middle. */
    method Splice(bytes: seq<Byte>, width: nat)
      requires charPos <= |widths| && bytePos <= |line| && (charPos == |widths| ==> bytePos == |line|)
      requires forall i :: 0 <= i < |widths| ==> widths[i] >= 0
      modifies `line, `widths, `charPos, `bytePos
      ensures forall i :: 0 <= i < |widths| ==> widths[i] >= 0
      ensures line == Spliced(old(line), old(bytePos), bytes)
      ensures widths == Spliced(old(widths), old(charPos), [width])
      ensures charPos == old(charPos) + 1 && bytePos == old(bytePos) + |bytes|
    {
      if charPos == |widths| {
        line := line + bytes;
        widths := widths + [width];
      } else {
        line := line[..bytePos] + bytes + line[bytePos..];
        widths := widths[..charPos] + [width] + widths[charPos..];
      }
      bytePos := bytePos + |bytes|;
      charPos := charPos + 1;
    }

    method MoveToStart()
      requires Coherent()
      modifies this
      ensures Coherent() && isSpecialChar == old(isSpecialChar)
      ensures Document() == Edit(old(Document()), Home, isSpace)
    {
      hide Cells, Join, EncodeText, Encode, Decode;
      OffsetAtEnds(text);
      charPos, bytePos := 0, 0;
    }

    method MoveToEnd()
      requires Coherent()
      modifies this
      ensures Coherent() && isSpecialChar == old(isSpecialChar)
      ensures Document() == Edit(old(Document()), End, isSpace)
    {
      hide Cells, Join, EncodeText, Encode, Decode;
      OffsetAtEnds(text);
      charPos, bytePos := |widths|, |line|;
    }

    method MoveLeft()
      requires Coherent()
      modifies this
      ensures Coherent() && isSpecialChar == old(isSpecialChar)
      ensures Document() == Edit(old(Document()), Left, isSpace)
    {
      hide Cells, Join, EncodeText, Encode, Decode;
      if charPos > 0 {
        var prevPos := Backward(line, bytePos, text, charPos - 1);
        charPos, bytePos := charPos - 1, prevPos;
      }
    }

    method MoveRight()
      requires Coherent()
      modifies this
      ensures Coherent() && isSpecialChar == old(isSpecialChar)
      ensures Document() == Edit(old(Document()), Right, isSpace)
    {
      hide Cells, Join, EncodeText, Encode, Decode;
      if charPos < |widths| {
        var nextPos := Forward(line, bytePos, text, charPos);
        charPos, bytePos := charPos + 1, nextPos;
      }
    }

    /** One of the two loops of `move_word_left`. */
    method ScanLeft(c: nat, b: nat, want: bool) returns (c': nat, b': nat)
      requires Coherent() && c <= |text| && b == Offset(Cells(text), c)
      ensures c' == SkipLeft(text, c, isSpace, want) && b' == Offset(Cells(text), c')
    {
      hide Cells, Join, EncodeText, Encode, Decode;
      c', b' := c, b;
      while c' > 0
        invariant c' <= c && b' == Offset(Cells(text), c')
        invariant SkipLeft(text, c', isSpace, want) == SkipLeft(text, c, isSpace, want)
      {
        var prevByte := Backward(line, b', text, c' - 1);
        DecodeAtBoundary(text, c' - 1);
        var cp := Decode(line, prevByte).cp;
        if isSpace(cp) != want {
          break;
        }
        c', b' := c' - 1, prevByte;
      }
    }

    method MoveWordLeft()
      requires Coherent()
      modifies this
      ensures Coherent() && isSpecialChar == old(isSpecialChar)
      ensures Document() == Edit(old(Document()), WordLeft, isSpace)
    {
      hide Cells, Join, EncodeText, Encode, Decode;
      if charPos == 0 {
        return;
      }
      var c, b := ScanLeft(charPos, bytePos, true);
      c, b := ScanLeft(c, b, false);
      charPos, bytePos := c, b;
    }

    /** One of the three loops of `move_word_right`. */
    method ScanRight(c: nat, b: nat, want: bool) returns (c': nat, b': nat)
      requires Coherent() && c <= |text| && b == Offset(Cells(text), c)
      ensures c' == SkipRight(text, c, isSpace, want) && b' == Offset(Cells(text), c')
    {
      hide Cells, Join, EncodeText, Encode, Decode;
      c', b' := c, b;
      while c' < |widths|
        invariant c <= c' <= |text| && b' == Offset(Cells(text), c')
        invariant SkipRight(text, c', isSpace, want) == SkipRight(text, c, isSpace, want)
      {
        DecodeAtBoundary(text, c');
        var d := Decode(line, b');
        if isSpace(d.cp) != want {
          break;
        }
        c', b' := c' + 1, b' + d.advance;
      }
    }

    method MoveWordRight()
      requires Coherent()
      modifies this
      ensures Coherent() && isSpecialChar == old(isSpecialChar)
      ensures Document() == Edit(old(Document()), WordRight, isSpace)
    {
      hide Cells, Join, EncodeText, Encode, Decode;
      if charPos >= |widths| {
        return;
      }
      var c, b := ScanRight(charPos, bytePos, true);
      c, b := ScanRight(c, b, false);
      c, b := ScanRight(c, b, true);
      charPos, bytePos := c, b;
    }

    /** Replaces the line and rebuilds widths and cursor by decoding it from the start. */
    method SetLineContents(newLine: seq<Byte>, ghost newText: Text)
      requires newLine == EncodeText(newText)
      modifies this
      ensures Coherent() && isSpecialChar == old(isSpecialChar)
      ensures Document() == Show(newText)
    {
      hide Cells, Join, EncodeText, Encode, Decode;
      line, text := newLine, newText;
      widths, bytePos, charPos := [], 0, 0;
      OffsetAtEnds(text);
      var idx := 0;
      while idx < |line|
        invariant line == EncodeText(text) && text == newText
        invariant charPos <= |text| && bytePos == idx == Offset(Cells(text), charPos)
        invariant |widths| == charPos
        invariant forall i :: 0 <= i < |widths| ==> widths[i] >= 0
        invariant isSpecialChar == old(isSpecialChar)
        decreases |line| - idx
      {
        DecodeAtBoundary(text, charPos);
        var d := Decode(line, idx);
        var realWidth: int := *;
        if realWidth < 0 {
          realWidth := 0;
        }
        widths := widths + [realWidth];
        idx := idx + d.advance;
        charPos := charPos + 1;
        bytePos := idx;
      }
      CellsAreCells(text);
      OffsetMonotone(Cells(text), charPos, |text|);
    }

    method HistoryPrev()
      requires Valid()
      modifies this, history
      ensures Valid() && isSpecialChar == old(isSpecialChar)
      ensures Model() == GoUp(old(Model()))
    {
      hide Cells, Join, EncodeText, Encode, Decode;
      if history.viewing.NotViewing? {
        history.BeginViewing(line, text);
      }
      var found, newLine := history.Prev();
      if !found {
        return;
      }
      SetLineContents(newLine, history.texts[history.viewing.index]);
    }

    method HistoryNext()
      requires Valid()
      modifies this, history
      ensures Valid() && isSpecialChar == old(isSpecialChar)
      ensures Model() == GoDown(old(Model()))
    {
      hide Cells, Join, EncodeText, Encode, Decode;
      if history.viewing.At? {
        var found, newLine, newText := history.Next();
        if !found {
          return;
        }
        SetLineContents(newLine, newText);
      }
    }

    method Dispatch(key: Key)
      requires Valid()
      modifies this, history
      ensures Valid() && Model() == Step(old(Model()), key, isSpace)
      ensures !old(isSpecialChar) ==> !isSpecialChar
    {
      hide Cells, Join, EncodeText, Encode, Decode;
      match key {
        case Insert(ch) =>
          var width: int := *;
          InsertCharacter(ch, width);
        case Backspace => BackspaceKey();
        case Delete => DeleteAtCursor();
        case Left => MoveLeft();
        case Right => MoveRight();
        case WordLeft => MoveWordLeft();
        case WordRight => MoveWordRight();
        case Home => MoveToStart();
        case End => MoveToEnd();
        case Up =>
          HistoryPrev();
          isSpecialChar := false;
        case Down =>
          HistoryNext();
          isSpecialChar := false;
        case Ignored =>
      }
    }

    /** One turn of the key loop: the bytes go where the code points go. */
    method HandleKey(key: Key)
      requires Valid() && (isSpecialChar <==> EndsSpecial(text))
      modifies this, history
      ensures Valid() && (isSpecialChar <==> EndsSpecial(text))
      ensures Model() == Step(old(Model()), key, isSpace)
    {
      hide Cells, Join, EncodeText, Encode, Decode;
      if isSpecialChar {
        isSpecialChar := false;
      }
      Dispatch(key);
      NoticeMarker();
    }

    /** The end of a turn: is the last byte of the line a marker? */
    method NoticeMarker()
      requires Coherent() && !isSpecialChar
      modifies `isSpecialChar
      ensures isSpecialChar <==> EndsSpecial(text)
    {
      MarkerByte(text);
      if line != [] && (line[|line| - 1] == BACKSLASH as Byte || line[|line| - 1] == SLASH as Byte) {
        isSpecialChar := true;
      }
    }

    /** Any number of keys. */
    method HandleKeys(keys: seq<Key>)
      requires Valid() && (isSpecialChar <==> EndsSpecial(text))
      modifies this, history
      ensures Valid() && (isSpecialChar <==> EndsSpecial(text))
      ensures Model() == Run(old(Model()), keys, isSpace)
    {
      hide Cells, Join, EncodeText, Encode, Decode;
      for i := 0 to |keys|
        invariant Valid() && (isSpecialChar <==> EndsSpecial(text))
        invariant Model() == Run(old(Model()), keys[..i], isSpace)
      {
        assert keys[..i + 1][..i] == keys[..i];
        HandleKey(keys[i]);
      }
      assert keys[..|keys|] == keys;
    }

    /** The first half of what follows the key loop: take the marker off, or end the line. */
    method CloseLine(endOfStream: bool, multiline: bool) returns (result: seq<Byte>, hasMore: bool)
      requires Coherent() && (isSpecialChar <==> EndsSpecial(text))
      ensures var (closed, more) := Closed(text, endOfStream, multiline);
              result == EncodeText(closed) && hasMore == more
    {
      hide Cells, Join, EncodeText, Encode, Decode;
      EncodedLength([]);
      hasMore := multiline;
      result := line;
      if isSpecialChar {
        ghost var t := text[..|text| - 1];
        MarkerByte(text);
        var last := result[|result| - 1];
        result := result[..|result| - 1];
        if last == BACKSLASH as Byte {
          AppendedByte(t, NEWLINE);
          result := result + [NEWLINE as Byte];
          hasMore := !hasMore;
        } else {
          SingleByte(t, SPACE);
          if |result| == 1 && result[0] == SPACE as Byte {
            result := [];
          }
          hasMore := false;
        }
      } else if endOfStream {
        hasMore := false;
      } else {
        AppendedByte(text, NEWLINE);
        result := result + [NEWLINE as Byte];
      }
    }

    /** What follows the key loop: the markers `\` and `/` are taken off and the line is remembered. */
    method Finish(endOfStream: bool, multiline: bool) returns (result: seq<Byte>, hasMore: bool)
      requires Valid() && (isSpecialChar <==> EndsSpecial(text))
      modifies history
      ensures history.Valid()
      ensures var o := Submit(old(Model()), endOfStream, multiline);
              result == EncodeText(o.text) && hasMore == o.more && history.Model() == o.hist
    {
      hide Cells, Join, EncodeText, Encode, Decode;
      result, hasMore := CloseLine(endOfStream, multiline);
      ghost var closed := Closed(text, endOfStream, multiline).0;
      EncodedLength(closed);
      if !endOfStream && result != [] {
        ghost var kept;
        result, kept := DropNewline(result, closed);
        history.Add(result, kept);
      }
    }
  }

  method DropNewline(line: seq<Byte>, ghost text: Text) returns (r: seq<Byte>, ghost kept: Text)
    requires text != [] && line == EncodeText(text)
    ensures kept == if text[|text| - 1] == NEWLINE then text[..|text| - 1] else text
    ensures r == EncodeText(kept)
  {
    LastByte(text, NEWLINE);
    if line[|line| - 1] == NEWLINE as Byte {
      return line[..|line| - 1], text[..|text| - 1];
    }
    return line, text;
  }

  /** The last byte tells whether a marker ends the line, and taking it off takes off one character. */
  lemma MarkerByte(text: Text)
    ensures var line := EncodeText(text);
            && (line == [] <==> text == [])
            && (line != [] ==>
                 && (line[|line| - 1] == BACKSLASH as Byte <==> text[|text| - 1] == BACKSLASH)
                 && (line[|line| - 1] == SLASH as Byte <==> text[|text| - 1] == SLASH)
                 && (EndsSpecial(text) ==> line[..|line| - 1] == EncodeText(text[..|text| - 1])))
  {
    EncodedLength(text);
    if text != [] {
      LastByte(text, BACKSLASH);
      LastByte(text, SLASH);
    }
  }

  lemma SingleByte(text: Text, ch: CodePoint)
    requires ch <= 0x7F
    ensures EncodeText(text) == [ch as Byte] <==> text == [ch]
  {
    AppendedByte([], ch);
    assert EncodeText([]) == [] && [] + [ch] == [ch];
    assert [] + [ch as Byte] == [ch as Byte];
    if EncodeText(text) == [ch as Byte] {
      EncodeTextInjective(text, [ch]);
    }
  }

  /** Some text has these bytes and this many characters. */
  ghost predicate Explained(line: seq<Byte>, count: nat) {
    exists t: Text :: line == EncodeText(t) && count == |t|
  }

  lemma ExplainedBy(text: Text)
    ensures Explained(EncodeText(text), |text|)
  {
  }

  /** No text with the same bytes has another number of characters. */
  lemma NothingExplains(text: Text, count: nat)
    requires count != |text|
    ensures !Explained(EncodeText(text), count)
  {
    forall t: Text | EncodeText(t) == EncodeText(text)
      ensures |t| == |text|
    {
      EncodeTextInjective(t, text);
    }
  }
}
