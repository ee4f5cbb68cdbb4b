/**
 From the stream of characters the terminal delivers to the keys the editor acts on, and the whole
 of `readline_advanced`: read keys until Enter or the end of input, then hand the line back.
 */
module KeyReader {
  import opened Utf8
  import opened Utf8Text
  import opened EditorModel
  import opened LineEditor

  const WEOF: Char32 := 0xFFFF_FFFF
  const ESC: Char32 := 0x1B
  const BRACKET: Char32 := 0x5B
  const TILDE: Char32 := 0x7E
  const SEMICOLON: Byte := 0x3B
  const ZERO: Byte := 0x30

  datatype Event = Press(key: Key) | Enter | EndOfInput

  /** `getchar32`: at the end of the stream it keeps returning WEOF. */
  function CharAt(input: seq<CodePoint>, pos: nat): Char32 {
    if pos < |input| then input[pos] else WEOF
  }

  function After(input: seq<CodePoint>, pos: nat): nat {
    if pos < |input| then pos + 1 else pos
  }

  /** A letter or `~` ends an escape sequence, and so does the end of the stream. */
  predicate IsFinal(code: Char32) {
    0x41 <= code <= 0x5A || 0x61 <= code <= 0x7A || code == TILDE || code == WEOF
  }

  function FinalIndex(input: seq<CodePoint>, pos: nat): (r: nat)
    ensures r >= pos
    ensures pos <= |input| ==> r <= |input|
    decreases |input| - pos
  {
    if pos < |input| && !IsFinal(input[pos]) then FinalIndex(input, pos + 1) else pos
  }

  /** Parameters are stored in a `std::string`, one byte of each code. */
  function LowByte(ch: Char32): Byte {
    (ch & 0xFF) as Byte
  }

  function LowBytes(codes: seq<CodePoint>): (bytes: seq<Byte>)
    ensures |bytes| == |codes|
  {
    seq(|codes|, i requires 0 <= i < |codes| => LowByte(codes[i]))
  }

  predicate IsDigit(b: Byte) {
    0x30 <= b <= 0x39
  }

  /** A stretch between semicolons. */
  predicate IsSegment(params: seq<Byte>, a: nat, b: nat) {
    && a <= b <= |params|
    && (a == 0 || params[a - 1] == SEMICOLON)
    && (b == |params| || params[b] == SEMICOLON)
    && forall i :: a <= i < b ==> params[i] != SEMICOLON
  }

  /** A decimal numeral for 5, leading zeros allowed. */
  predicate IsFive(s: seq<Byte>) {
    && s != []
    && s[|s| - 1] == 0x35
    && forall i :: 0 <= i < |s| - 1 ==> s[i] == ZERO
  }

  /** The control modifier: one of the parameters is the number 5. */
  ghost predicate HasCtrl(params: seq<Byte>) {
    exists a: nat, b: nat :: IsSegment(params, a, b) && IsFive(params[a..b])
  }

  /** The digits of the first parameter; other characters in it are dropped. */
  function FirstDigits(params: seq<Byte>): seq<Byte> {
    if params == [] || params[0] == SEMICOLON then []
    else (if IsDigit(params[0]) then [params[0]] else []) + FirstDigits(params[1..])
  }

  ghost function EscapeKey(code: Char32, params: seq<Byte>): Key {
    if code == 0x44 then (if HasCtrl(params) then WordLeft else Left)
    else if code == 0x43 then (if HasCtrl(params) then WordRight else Right)
    else if code == 0x48 then Home
    else if code == 0x46 then End
    else if code == 0x41 then Up
    else if code == 0x42 then Down
    else if code == TILDE && params != [] then
      var digits := FirstDigits(params);
      if digits == [0x31] || digits == [0x37] then Home
      else if digits == [0x34] || digits == [0x38] then End
      else if digits == [0x33] then Delete
      else Ignored
    else Ignored
  }

  /** What one turn of the loop reads, and where it stops reading. */
  ghost function EventAt(input: seq<CodePoint>, pos: nat): (r: (Event, nat))
    ensures r.0.Press? ==> pos < |input| && r.1 > pos
  {
    var c := CharAt(input, pos);
    if c == 0x0D || c == 0x0A then (Enter, pos + 1)
    else if c == WEOF || c == 0x04 then (EndOfInput, After(input, pos))
    else if c == ESC then
      var code := CharAt(input, pos + 1);
      if code == BRACKET then
        var f := FinalIndex(input, pos + 2);
        (Press(EscapeKey(CharAt(input, f), LowBytes(input[pos + 2..f]))), After(input, f))
      else if code == ESC then
        (Press(Ignored), After(input, FinalIndex(input, pos + 2)))
      else
        (Press(Ignored), After(input, pos + 1))
    else if c == 0x08 || c == 0x7F then (Press(Backspace), pos + 1)
    else (Press(Insert(c)), pos + 1)
  }

  /** The keys up to Enter or the end of input, whether input ended, and where reading stops. */
  ghost function KeysFrom(input: seq<CodePoint>, pos: nat): (seq<Key>, bool, nat)
    decreases |input| - pos
  {
    var (e, next) := EventAt(input, pos);
    match e
    case Enter => ([], false, next)
    case EndOfInput => ([], true, next)
    case Press(key) =>
      var (keys, ended, stop) := KeysFrom(input, next);
      ([key] + keys, ended, stop)
  }

  // ----- The loops that read

  function Decimal(s: seq<Byte>): int {
    if s == [] then 0 else 10 * Decimal(s[..|s| - 1]) + ((s[|s| - 1] as int) - 48)
  }

  lemma {:induction false} DecimalFive(s: seq<Byte>)
    requires forall i :: 0 <= i < |s| ==> IsDigit(s[i])
    ensures Decimal(s) >= 0
    ensures Decimal(s) == 0 <==> forall i :: 0 <= i < |s| ==> s[i] == ZERO
    ensures Decimal(s) == 5 <==> IsFive(s)
  {
    if s != [] {
      var init, last := s[..|s| - 1], s[|s| - 1];
      assert forall i :: 0 <= i < |init| ==> init[i] == s[i];
      DecimalFive(init);
      DigitValue(last);
      assert Decimal(s) == 10 * Decimal(init) + ((last as int) - 48);
    }
  }

  lemma DigitValue(b: Byte)
    requires IsDigit(b)
    ensures 0 <= (b as int) - 48 <= 9
    ensures (b as int) - 48 == 0 <==> b == ZERO
    ensures (b as int) - 48 == 5 <==> b == 0x35
  {
  }

  /** The value of one parameter, or -1 if it has a character that is not a digit. */
  method SegmentValue(seg: seq<Byte>) returns (value: int)
    ensures value == 5 <==> IsFive(seg)
  {
    value := 0;
    var i := 0;
    while i < |seg|
      invariant i <= |seg|
      invariant forall j :: 0 <= j < i ==> IsDigit(seg[j])
      invariant value == Decimal(seg[..i])
    {
      var ch := seg[i];
      if !IsDigit(ch) {
        assert !IsFive(seg);
        return -1;
      }
      assert seg[..i + 1][..i] == seg[..i];
      value := value * 10 + ((ch as int) - 48);
      i := i + 1;
    }
    assert seg[..i] == seg;
    DecimalFive(seg);
  }

  method HasCtrlModifier(params: seq<Byte>) returns (r: bool)
    ensures r <==> HasCtrl(params)
  {
    var start := 0;
    while start < |params|
      invariant 0 <= start <= |params| + 1
      invariant start == 0 || start == |params| + 1 || params[start - 1] == SEMICOLON
      invariant start == |params| ==> start == 0 || params[start - 1] == SEMICOLON
      invariant forall a: nat, b: nat :: a < start && IsSegment(params, a, b) ==> !IsFive(params[a..b])
      decreases |params| + 1 - start
    {
      var end := start;
      while end < |params| && params[end] != SEMICOLON
        invariant start <= end <= |params|
        invariant forall i :: start <= i < end ==> params[i] != SEMICOLON
      {
        end := end + 1;
      }
      assert IsSegment(params, start, end);
      if end > start {
        var value := SegmentValue(params[start..end]);
        if value == 5 {
          return true;
        }
      }
      forall a: nat, b: nat | a < end + 1 && IsSegment(params, a, b)
        ensures !IsFive(params[a..b])
      {
        if a == start {
          assert b == end;
        }
      }
      if end == |params| {
        assert forall a: nat, b: nat :: IsSegment(params, a, b) ==> a < end + 1;
        return false;
      }
      start := end + 1;
    }
    r := false;
    forall a: nat, b: nat | IsSegment(params, a, b)
      ensures !IsFive(params[a..b])
    {
    }
  }

  method ReadDigits(params: seq<Byte>) returns (digits: seq<Byte>)
    ensures digits == FirstDigits(params)
  {
    digits := [];
    var i := 0;
    while i < |params|
      invariant i <= |params|
      invariant digits + FirstDigits(params[i..]) == FirstDigits(params)
    {
      hide FirstDigits;
      var ch := params[i];
      DigitsStep(params, i, digits);
      if ch == SEMICOLON {
        break;
      }
      if IsDigit(ch) {
        digits := digits + [ch];
      }
      i := i + 1;
    }
    assert i == |params| ==> params[i..] == [];
  }

  lemma {:induction false} DigitsStep(params: seq<Byte>, i: nat, digits: seq<Byte>)
    requires i < |params|
    ensures var ch := params[i];
            digits + FirstDigits(params[i..])
            == if ch == SEMICOLON then digits
               else if IsDigit(ch) then (digits + [ch]) + FirstDigits(params[i + 1..])
               else digits + FirstDigits(params[i + 1..])
  {
    var ch := params[i];
    assert params[i..][0] == ch && params[i..][1..] == params[i + 1..];
    assert digits + [] == digits;
  }

  /** Skips to the character that ends an escape sequence, collecting the ones before it. */
  method ReadParams(input: seq<CodePoint>, pos: nat) returns (f: nat, params: seq<Byte>)
    requires pos <= |input|
    ensures f == FinalIndex(input, pos) <= |input| && params == LowBytes(input[pos..f])
  {
    f, params := pos, [];
    while true
      invariant pos <= f <= |input| && params == LowBytes(input[pos..f])
      invariant FinalIndex(input, f) == FinalIndex(input, pos)
      decreases |input| - f
    {
      var code := CharAt(input, f);
      if IsFinal(code) {
        break;
      }
      assert input[pos..f + 1] == input[pos..f] + [input[f]];
      params := params + [LowByte(code)];
      f := f + 1;
    }
  }

  method ReadEvent(input: seq<CodePoint>, pos: nat) returns (e: Event, next: nat)
    requires pos <= |input|
    ensures (e, next) == EventAt(input, pos) && next <= |input|
  {
    var c := CharAt(input, pos);
    if c == 0x0D || c == 0x0A {
      return Enter, pos + 1;
    }
    if c == WEOF || c == 0x04 {
      return EndOfInput, After(input, pos);
    }
    if c == ESC {
      var code := CharAt(input, pos + 1);
      next := After(input, pos + 1);
      if code == BRACKET {
        var f, params := ReadParams(input, pos + 2);
        var key := DecodeEscape(CharAt(input, f), params);
        return Press(key), After(input, f);
      } else if code == ESC {
        var f, _ := ReadParams(input, pos + 2);
        return Press(Ignored), After(input, f);
      }
      return Press(Ignored), next;
    }
    if c == 0x08 || c == 0x7F {
      return Press(Backspace), pos + 1;
    }
    return Press(Insert(c)), pos + 1;
  }

  method DecodeEscape(code: Char32, params: seq<Byte>) returns (key: Key)
    ensures key == EscapeKey(code, params)
  {
    key := Ignored;
    var ctrl := HasCtrlModifier(params);
    if code == 0x44 {
      key := if ctrl then WordLeft else Left;
    } else if code == 0x43 {
      key := if ctrl then WordRight else Right;
    } else if code == 0x48 {
      key := Home;
    } else if code == 0x46 {
      key := End;
    } else if code == 0x41 || code == 0x42 {
      key := if code == 0x41 then Up else Down;
    } else if code == TILDE && params != [] {
      var digits := ReadDigits(params);
      if digits == [0x31] || digits == [0x37] {
        key := Home;
      } else if digits == [0x34] || digits == [0x38] {
        key := End;
      } else if digits == [0x33] {
        key := Delete;
      }
    }
  }

  /** The key loop and what follows it: one line, as bytes. */
  method ReadLine(input: seq<CodePoint>, pos: nat, history: History, isSpace: Spaces, multiline: bool)
    returns (line: seq<Byte>, hasMore: bool, next: nat)
    requires pos <= |input| && history.Valid()
    modifies history
    ensures history.Valid()
    ensures var (keys, ended, stop) := KeysFrom(input, pos);
            var o := Submit(Run(Session(Doc([], 0), old(history.Model())), keys, isSpace), ended, multiline);
            && next == stop
            && line == EncodeText(o.text) && hasMore == o.more && history.Model() == o.hist
  {
    hide Cells, Join, EncodeText, Encode, Decode, Submit, Step, EventAt;
    var editor := new Editor(history, isSpace);
    ghost var start := editor.Model();
    next := pos;
    ghost var done: seq<Key> := [];
    assert done + KeysFrom(input, pos).0 == KeysFrom(input, pos).0;
    while true
      invariant next <= |input| && fresh(editor) && editor.history == history && editor.isSpace == isSpace
      invariant editor.Valid() && (editor.isSpecialChar <==> EndsSpecial(editor.text))
      invariant start.Valid() && editor.Model() == Run(start, done, isSpace)
      invariant var (keys, ended, stop) := KeysFrom(input, next);
                KeysFrom(input, pos) == (done + keys, ended, stop)
      decreases |input| - next
    {
      ghost var rest := KeysFrom(input, next);
      var e, after := ReadEvent(input, next);
      next := after;
      if !e.Press? {
        assert done + [] == done;
        line, hasMore := editor.Finish(e.EndOfInput?, multiline);
        return;
      }
      ghost var (keys, ended, stop) := KeysFrom(input, next);
      assert done + ([e.key] + keys) == (done + [e.key]) + keys;
      assert (done + [e.key])[..|done|] == done;
      editor.HandleKey(e.key);
      done := done + [e.key];
    }
  }

  // ----- What a terminal sends

  /** Escape, a bracket, parameters and a final character, with anything behind. */
  function Sequence(params: seq<CodePoint>, final: CodePoint): seq<CodePoint> {
    [0x1B, 0x5B] + params + [final]
  }

  lemma {:induction false} FinalThere(input: seq<CodePoint>, pos: nat, f: nat)
    requires pos <= f < |input| && IsFinal(input[f]) && forall i :: pos <= i < f ==> !IsFinal(input[i])
    ensures FinalIndex(input, pos) == f
    decreases f - pos
  {
    if pos < f {
      FinalThere(input, pos + 1, f);
    }
  }

  /** The whole sequence is read, and nothing behind it. */
  lemma ReadsSequence(before: seq<CodePoint>, params: seq<CodePoint>, final: CodePoint, rest: seq<CodePoint>)
    requires IsFinal(final) && forall i :: 0 <= i < |params| ==> !IsFinal(params[i])
    ensures EventAt(before + (Sequence(params, final) + rest), |before|)
            == (Press(EscapeKey(final, LowBytes(params))), |before| + |params| + 3)
  {
    hide EscapeKey, LowBytes;
    var input := before + (Sequence(params, final) + rest);
    var pos := |before|;
    var f := pos + 2 + |params|;
    assert input[pos] == ESC && input[pos + 1] == BRACKET && input[f] == final;
    assert forall i :: pos + 2 <= i < f ==> input[i] == params[i - pos - 2];
    FinalThere(input, pos + 2, f);
    assert input[pos + 2..f] == params;
  }

  /** Digits and semicolons go on, and the first letter or tilde ends the sequence. */
  lemma TerminalSequence(before: seq<CodePoint>, params: seq<CodePoint>, final: CodePoint, rest: seq<CodePoint>)
    requires forall i :: 0 <= i < |params| ==> 0x30 <= params[i] <= 0x39 || params[i] == 0x3B
    requires 0x41 <= final <= 0x5A || 0x61 <= final <= 0x7A || final == 0x7E
    ensures var (e, next) := EventAt(before + (Sequence(params, final) + rest), |before|);
            e.Press? && next == |before| + |params| + 3
  {
    ReadsSequence(before, params, final, rest);
  }

  /** Of a parameter character only the lowest eight bits count. */
  lemma OnlyLowByte(ch: CodePoint)
    ensures LowByte(ch) as Char32 == ch % 0x100
  {
  }

  /** A lone number is the five of the control modifier or is not. */
  lemma OneNumber(b: Byte)
    requires b != SEMICOLON
    ensures HasCtrl([b]) <==> b == 0x35
    ensures LowBytes([]) == [] && !HasCtrl([])
  {
    assert IsSegment([b], 0, 1) && [b][0..1] == [b];
    forall a: nat, c: nat | IsSegment([b], a, c) && IsFive([b][a..c])
      ensures a == 0 && c == 1
    {
    }
    forall a: nat, c: nat | IsSegment([], a, c)
      ensures !IsFive([][a..c])
    {
    }
  }

  /** The control modifier as a second number: "1;5" and the like. */
  lemma TwoNumbers(a: Byte, b: Byte)
    requires a != SEMICOLON && b != SEMICOLON && a != 0x35
    ensures HasCtrl([a, SEMICOLON, b]) <==> b == 0x35
  {
    var params := [a, SEMICOLON, b];
    assert IsSegment(params, 0, 1) && params[0..1] == [a];
    assert IsSegment(params, 2, 3) && params[2..3] == [b];
    forall c: nat, d: nat | IsSegment(params, c, d)
      ensures (c == 0 && d == 1) || (c == 2 && d == 3)
    {
      assert params[1] == SEMICOLON;
    }
  }

  lemma NoControl()
    ensures !HasCtrl([])
  {
    OneNumber(ZERO);
  }

  /** The keys with no parameters, which end in D, C, A, B, H and F: the four arrows, Home and End. */
  lemma PlainKeys()
    ensures EscapeKey(0x44, []) == Left && EscapeKey(0x43, []) == Right
    ensures EscapeKey(0x41, []) == Up && EscapeKey(0x42, []) == Down
    ensures EscapeKey(0x48, []) == Home && EscapeKey(0x46, []) == End
  {
    NoControl();
    hide HasCtrl, FirstDigits;
  }

  /** With the control key held down the arrows go by words. */
  lemma ControlKeys(one: Byte)
    requires one == 0x31
    ensures EscapeKey(0x44, [one, 0x3B, 0x35]) == WordLeft && EscapeKey(0x43, [one, 0x3B, 0x35]) == WordRight
    ensures EscapeKey(0x44, [0x35]) == WordLeft && EscapeKey(0x43, [0x35]) == WordRight
    ensures EscapeKey(0x44, [one, 0x3B, 0x32]) == Left && EscapeKey(0x43, [one, 0x3B, 0x32]) == Right
  {
    TwoNumbers(one, 0x35);
    TwoNumbers(one, 0x32);
    OneNumber(0x35);
  }

  /** The keys that send a number and a tilde, whatever modifier stands behind the number. */
  lemma NumberedKeys(digit: Byte, rest: seq<Byte>)
    requires IsDigit(digit) && (rest == [] || rest[0] == 0x3B)
    ensures EscapeKey(0x7E, [digit] + rest)
            == if digit == 0x31 || digit == 0x37 then Home
               else if digit == 0x34 || digit == 0x38 then End
               else if digit == 0x33 then Delete
               else Ignored
  {
    assert ([digit] + rest)[1..] == rest;
    assert FirstDigits(rest) == [];
    assert FirstDigits([digit] + rest) == [digit];
  }

  /** Every other sequence does nothing. */
  lemma OtherKeys(final: CodePoint, params: seq<Byte>)
    requires final != 0x7E || params == []
    ensures EscapeKey(final, params) == Ignored
            <==> final != 0x41 && final != 0x42 && final != 0x43 && final != 0x44 && final != 0x46 && final != 0x48
  {
    hide HasCtrl, FirstDigits;
  }

  /** Escape swallows the next character, or after a second escape all up to a final one; an unfinished sequence ends with the input. */
  lemma EscapeSwallows(before: seq<CodePoint>, params: seq<CodePoint>, final: CodePoint, rest: seq<CodePoint>)
    requires IsFinal(final) && forall i :: 0 <= i < |params| ==> !IsFinal(params[i])
    ensures EventAt(before + ([0x1B, 0x1B] + params + [final] + rest), |before|) == (Press(Ignored), |before| + |params| + 3)
    ensures EventAt(before + [0x1B, 0x5B] + params, |before|).1 == |before| + |params| + 2
  {
    hide EscapeKey, LowBytes;
    var input := before + ([0x1B, 0x1B] + params + [final] + rest);
    var f := |before| + 2 + |params|;
    assert input[|before|] == ESC && input[|before| + 1] == ESC && input[f] == final;
    assert forall i :: |before| + 2 <= i < f ==> input[i] == params[i - |before| - 2];
    FinalThere(input, |before| + 2, f);
    var cut := before + [0x1B, 0x5B] + params;
    assert cut[|before|] == ESC && cut[|before| + 1] == BRACKET;
    assert forall i :: |before| + 2 <= i < |cut| ==> cut[i] == params[i - |before| - 2];
    NoFinal(cut, |before| + 2);
  }

  lemma {:induction false} NoFinal(input: seq<CodePoint>, pos: nat)
    requires pos <= |input| && forall i :: pos <= i < |input| ==> !IsFinal(input[i])
    ensures FinalIndex(input, pos) == |input|
    decreases |input| - pos
  {
    if pos < |input| {
      NoFinal(input, pos + 1);
    }
  }

  /** Characters that are keys by themselves. */
  lemma SingleCharacters(input: seq<CodePoint>, pos: nat)
    requires pos < |input|
    ensures input[pos] == 0x0D || input[pos] == 0x0A ==> EventAt(input, pos) == (Enter, pos + 1)
    ensures input[pos] == 0x04 ==> EventAt(input, pos) == (EndOfInput, pos + 1)
    ensures input[pos] == 0x08 || input[pos] == 0x7F ==> EventAt(input, pos) == (Press(Backspace), pos + 1)
    ensures IsPlain(input[pos]) ==> EventAt(input, pos) == (Press(Insert(input[pos])), pos + 1)
    ensures EventAt(input, |input|) == (EndOfInput, |input|)
  {
  }

  // ----- End to end

  /** Typed text: no control character that the loop acts on. */
  predicate IsPlain(ch: CodePoint) {
    ch != 0x0D && ch != 0x0A && ch != 0x04 && ch != ESC && ch != 0x08 && ch != 0x7F
  }

  function Inserts(text: Text): (keys: seq<Key>)
    ensures |keys| == |text|
  {
    seq(|text|, i requires 0 <= i < |text| => Insert(text[i]))
  }

  lemma {:induction false} TypedKeys(text: Text, pos: nat, rest: seq<CodePoint>)
    requires pos <= |text| && forall i :: 0 <= i < |text| ==> IsPlain(text[i])
    ensures var input := text + [0x0D] + rest;
            KeysFrom(input, pos) == (Inserts(text[pos..]), false, |text| + 1)
    decreases |text| - pos
  {
    var input := text + [0x0D] + rest;
    if pos < |text| {
      assert IsPlain(text[pos]) && CharAt(input, pos) == text[pos];
      TypedKeys(text, pos + 1, rest);
      assert Inserts(text[pos..]) == [Insert(text[pos])] + Inserts(text[pos + 1..]);
    }
  }

  lemma {:induction false} TypedText(s: Session, text: Text, isSpace: Spaces)
    requires s.Valid() && s.doc.cursor == |s.doc.text|
    ensures Run(s, Inserts(text), isSpace) == Session(Show(s.doc.text + text), s.hist)
  {
    if text == [] {
      assert s.doc.text + text == s.doc.text;
    } else {
      var n := |text| - 1;
      TypedText(s, text[..n], isSpace);
      assert Inserts(text)[..n] == Inserts(text[..n]);
      assert s.doc.text + text == s.doc.text + text[..n] + [text[n]];
    }
  }

  /** Typing a line and pressing Enter hands back exactly that line, and remembers it. */
  lemma {:induction false} TypingALine(text: Text, rest: seq<CodePoint>, hist: Hist<Text>, isSpace: Spaces, multiline: bool)
    requires hist.Valid() && !EndsSpecial(text)
    requires forall i :: 0 <= i < |text| ==> IsPlain(text[i])
    ensures var (keys, ended, stop) := KeysFrom(text + [0x0D] + rest, 0);
            var o := Submit(Run(Session(Doc([], 0), hist), keys, isSpace), ended, multiline);
            stop == |text| + 1 && o == Outcome(text, Remember(hist, text), multiline)
  {
    TypedKeys(text, 0, rest);
    assert text[0..] == text && [] + text == text;
    TypedText(Session(Doc([], 0), hist), text, isSpace);
  }

  /** Typed text in front of any input that is read further on. */
  lemma {:induction false} TypedThen(text: Text, pos: nat, rest: seq<CodePoint>)
    requires pos <= |text| && forall i :: 0 <= i < |text| ==> IsPlain(text[i])
    ensures var (keys, ended, stop) := KeysFrom(text + rest, |text|);
            KeysFrom(text + rest, pos) == (Inserts(text[pos..]) + keys, ended, stop)
    decreases |text| - pos
  {
    var input := text + rest;
    var (keys, ended, stop) := KeysFrom(input, |text|);
    if pos < |text| {
      SingleCharacters(input, pos);
      assert input[pos] == text[pos];
      TypedThen(text, pos + 1, rest);
      assert Inserts(text[pos..]) == [Insert(text[pos])] + Inserts(text[pos + 1..]);
      assert [Insert(text[pos])] + (Inserts(text[pos + 1..]) + keys) == Inserts(text[pos..]) + keys;
    } else {
      assert Inserts(text[pos..]) + keys == keys;
    }
  }

  /** A character, the enter key, and anything behind. */
  function Entered(ch: CodePoint, rest: seq<CodePoint>): seq<CodePoint> {
    [ch, 0x0D] + rest
  }

  /** A left arrow for each of `n`. */
  function Arrows(n: nat): seq<CodePoint> {
    if n == 0 then [] else Sequence([], 0x44) + Arrows(n - 1)
  }

  lemma {:induction false} PressFirst(input: seq<CodePoint>, pos: nat, key: Key, next: nat)
    requires EventAt(input, pos) == (Press(key), next)
    ensures var (keys, ended, stop) := KeysFrom(input, next);
            KeysFrom(input, pos) == ([key] + keys, ended, stop)
  {
    hide EventAt;
  }

  lemma SequenceLength(final: CodePoint)
    ensures |Sequence([], final)| == 3 && LowBytes([]) == []
  {
  }

  lemma Behind(before: seq<CodePoint>, key: seq<CodePoint>, tail: seq<CodePoint>)
    ensures before + (key + tail) == (before + key) + tail && |before + key| == |before| + |key|
  {
  }

  /** A key without parameters, between what comes before and after it. */
  lemma {:induction false} ReadsKey(before: seq<CodePoint>, final: CodePoint, key: Key, tail: seq<CodePoint>)
    requires IsFinal(final) && EscapeKey(final, []) == key
    ensures before + (Sequence([], final) + tail) == (before + Sequence([], final)) + tail
    ensures |before + Sequence([], final)| == |before| + 3
    ensures var (keys, ended, stop) := KeysFrom(before + (Sequence([], final) + tail), |before| + 3);
            KeysFrom(before + (Sequence([], final) + tail), |before|) == ([key] + keys, ended, stop)
  {
    hide *;
    SequenceLength(final);
    ReadsSequence(before, [], final, tail);
    PressFirst(before + (Sequence([], final) + tail), |before|, key, |before| + 3);
    Behind(before, Sequence([], final), tail);
  }

  lemma ArrowsStep(before: seq<CodePoint>, n: nat, rest: seq<CodePoint>)
    requires n > 0
    ensures before + (Arrows(n) + rest) == before + (Sequence([], 0x44) + (Arrows(n - 1) + rest))
    ensures before + Arrows(n) == (before + Sequence([], 0x44)) + Arrows(n - 1)
  {
    hide Sequence;
  }

  lemma LeftsStep(n: nat, keys: seq<Key>)
    requires n > 0
    ensures Times(Left, n) + keys == [Left] + (Times(Left, n - 1) + keys)
  {
  }

  lemma {:induction false} ArrowsThen(before: seq<CodePoint>, n: nat, rest: seq<CodePoint>)
    ensures var (keys, ended, stop) := KeysFrom(before + (Arrows(n) + rest), |before + Arrows(n)|);
            KeysFrom(before + (Arrows(n) + rest), |before|) == (Times(Left, n) + keys, ended, stop)
    decreases n
  {
    hide *;
    var (keys, ended, stop) := KeysFrom(before + (Arrows(n) + rest), |before + Arrows(n)|);
    if n == 0 {
      NoArrows();
      assert Times(Left, 0) + keys == keys && before + [] == before;
    } else {
      ArrowsStep(before, n, rest);
      PlainKeys();
      DIsFinal();
      ReadsKey(before, 0x44, Left, Arrows(n - 1) + rest);
      ArrowsThen(before + Sequence([], 0x44), n - 1, rest);
      LeftsStep(n, keys);
    }
  }

  lemma NoArrows()
    ensures Arrows(0) == [] && Times(Left, 0) == []
  {
  }

  lemma DIsFinal()
    ensures IsFinal(0x44) && IsFinal(0x48)
  {
  }

  /** A character typed after `n` left arrows stands `n` places from the end of the line that comes back. */
  lemma {:induction false} ArrowsInALine(text: Text, n: nat, ch: CodePoint, rest: seq<CodePoint>, hist: Hist<Text>, isSpace: Spaces, multiline: bool)
    requires hist.Valid() && n <= |text| && IsPlain(ch) && !EndsSpecial(text[..|text| - n] + [ch] + text[|text| - n..])
    requires forall i :: 0 <= i < |text| ==> IsPlain(text[i])
    ensures var input := text + (Arrows(n) + Entered(ch, rest));
            var (keys, ended, stop) := KeysFrom(input, 0);
            var o := Submit(Run(Session(Doc([], 0), hist), keys, isSpace), ended, multiline);
            stop == |text| + 3 * n + 2 && o.text == text[..|text| - n] + [ch] + text[|text| - n..] && o.more == multiline
  {
    hide EscapeKey, IsFinal, Run, Submit, EndsSpecial, Entered, EventAt, Arrows, KeysFrom, IsPlain;
    var start, tail := Session(Doc([], 0), hist), Entered(ch, rest);
    var before := text + Arrows(n);
    var input := text + (Arrows(n) + tail);
    ArrowsLength(n);
    TypedThen(text, 0, Arrows(n) + tail);
    assert text[0..] == text;
    ArrowsThen(text, n, tail);
    LastCharacter(before, ch, rest);
    assert input == before + tail;
    var keys := Inserts(text) + (Times(Left, n) + [Insert(ch)]);
    assert KeysFrom(input, 0) == (keys, false, |before| + 2);
    RunTyped(start, text, n, ch, isSpace);
    SubmitOf(Run(start, keys, isSpace), multiline);
  }

  lemma SubmitOf(s: Session, multiline: bool)
    requires s.Valid() && !EndsSpecial(s.doc.text)
    ensures Submit(s, false, multiline).text == s.doc.text && Submit(s, false, multiline).more == multiline
  {
    SubmitPlain(s, multiline);
  }

  lemma {:induction false} ArrowsLength(n: nat)
    ensures |Arrows(n)| == 3 * n
  {
    hide Sequence;
    SequenceLength(0x44);
    if n > 0 {
      ArrowsLength(n - 1);
    }
  }

  lemma {:induction false} LastCharacter(before: seq<CodePoint>, ch: CodePoint, rest: seq<CodePoint>)
    requires IsPlain(ch)
    ensures KeysFrom(before + Entered(ch, rest), |before|) == ([Insert(ch)], false, |before| + 2)
  {
    var input := before + Entered(ch, rest);
    assert input[|before|] == ch && input[|before| + 1] == 0x0D;
    SingleCharacters(input, |before|);
    SingleCharacters(input, |before| + 1);
    assert KeysFrom(input, |before| + 1) == ([], false, |before| + 2);
    assert [Insert(ch)] + [] == [Insert(ch)];
  }

  lemma {:induction false} RunTyped(start: Session, text: Text, n: nat, ch: CodePoint, isSpace: Spaces)
    requires start.Valid() && start.doc == Doc([], 0) && n <= |text|
    ensures Run(start, Inserts(text) + (Times(Left, n) + [Insert(ch)]), isSpace).doc.text
            == text[..|text| - n] + [ch] + text[|text| - n..]
  {
    hide Run;
    TypedText(start, text, isSpace);
    assert [] + text == text;
    var typed := Session(Show(text), start.hist);
    RunConcat(start, Inserts(text), Times(Left, n) + [Insert(ch)], isSpace);
    RunConcat(typed, Times(Left, n), [Insert(ch)], isSpace);
    ManySteps(typed, n, isSpace);
    RunOne(Session(Doc(text, |text| - n), start.hist), Insert(ch), isSpace);
  }

  lemma {:induction false} RunOne(s: Session, key: Key, isSpace: Spaces)
    requires s.Valid()
    ensures Run(s, [key], isSpace) == Step(s, key, isSpace)
  {
    assert [key][..0] == [];
  }

  /** And one typed after Home comes first. */
  lemma {:induction false} HomeInALine(text: Text, ch: CodePoint, rest: seq<CodePoint>, hist: Hist<Text>, isSpace: Spaces, multiline: bool)
    requires hist.Valid() && IsPlain(ch) && !EndsSpecial([ch] + text)
    requires forall i :: 0 <= i < |text| ==> IsPlain(text[i])
    ensures var (keys, ended, stop) := KeysFrom(text + (Sequence([], 0x48) + Entered(ch, rest)), 0);
            var o := Submit(Run(Session(Doc([], 0), hist), keys, isSpace), ended, multiline);
            stop == |text| + 5 && o.text == [ch] + text && o.more == multiline
  {
    hide *;
    var start := Session(Doc([], 0), hist);
    StartValid(hist);
    TypedThen(text, 0, Sequence([], 0x48) + Entered(ch, rest));
    assert text[0..] == text;
    HomeThen(text, ch, rest);
    var keys := Inserts(text) + [Home, Insert(ch)];
    RunHome(start, text, ch, isSpace);
    SubmitOf(Run(start, keys, isSpace), multiline);
  }

  lemma StartValid(hist: Hist<Text>)
    requires hist.Valid()
    ensures Session(Doc([], 0), hist).Valid()
  {
  }

  lemma {:induction false} RunHome(start: Session, text: Text, ch: CodePoint, isSpace: Spaces)
    requires start.Valid() && start.doc == Doc([], 0)
    ensures Run(start, Inserts(text) + [Home, Insert(ch)], isSpace).doc.text == [ch] + text
  {
    hide Run;
    TypedText(start, text, isSpace);
    assert [] + text == text;
    RunConcat(start, Inserts(text), [Home, Insert(ch)], isSpace);
    HomeAndEnd(Session(Show(text), start.hist), ch, isSpace);
  }

  lemma {:induction false} HomeThen(text: Text, ch: CodePoint, rest: seq<CodePoint>)
    requires IsPlain(ch)
    ensures KeysFrom(text + (Sequence([], 0x48) + Entered(ch, rest)), |text|) == ([Home, Insert(ch)], false, |text| + 5)
  {
    hide *;
    PlainKeys();
    DIsFinal();
    ReadsKey(text, 0x48, Home, Entered(ch, rest));
    LastCharacter(text + Sequence([], 0x48), ch, rest);
    assert [Home] + [Insert(ch)] == [Home, Insert(ch)];
  }
}
