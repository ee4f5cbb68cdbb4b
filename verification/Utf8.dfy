/**
 UTF-8 as the console and the tool-call parser handle it (section 3 of RFC 3629, with surrogates
 let through): a strict encoder, a forgiving decoder, and the byte loops that look for the
 boundaries between characters by testing the two top bits of a byte.
 */
module Utf8 {

  type Byte = bv8

  /** A `char32_t`, which may exceed the Unicode range. */
  type Char32 = bv32

  /** A code point that the encoder can write. */
  type CodePoint = c: Char32 | c <= 0x10FFFF

  const REPLACEMENT: Char32 := 0xFFFD

  /** 10xxxxxx: a byte that continues a character. */
  predicate IsContinuation(b: Byte) {
    b & 0xC0 == 0x80
  }

  /** The bytes `append_utf8` pushes; none for a value outside the Unicode range. */
  function Encode(ch: Char32): (bytes: seq<Byte>)
  {
    if ch <= 0x7F then
      [ch as Byte]
    else if ch <= 0x7FF then
      [(0xC0 | ((ch >> 6) & 0x1F)) as Byte, (0x80 | (ch & 0x3F)) as Byte]
    else if ch <= 0xFFFF then
      [(0xE0 | ((ch >> 12) & 0x0F)) as Byte, (0x80 | ((ch >> 6) & 0x3F)) as Byte, (0x80 | (ch & 0x3F)) as Byte]
    else if ch <= 0x10FFFF then
      [(0xF0 | ((ch >> 18) & 0x07)) as Byte, (0x80 | ((ch >> 12) & 0x3F)) as Byte,
       (0x80 | ((ch >> 6) & 0x3F)) as Byte, (0x80 | (ch & 0x3F)) as Byte]
    else
      []
  }

  datatype Decoded = Decoded(cp: Char32, advance: nat)

  // The bits of two, three and four bytes put together.

  function FromTwo(c: Byte, c1: Byte): Char32 {
    ((c & 0x1F) as Char32 << 6) | (c1 & 0x3F) as Char32
  }

  function FromThree(c: Byte, c1: Byte, c2: Byte): Char32 {
    ((c & 0x0F) as Char32 << 12) | ((c1 & 0x3F) as Char32 << 6) | (c2 & 0x3F) as Char32
  }

  function FromFour(c: Byte, c1: Byte, c2: Byte, c3: Byte): Char32 {
    ((c & 0x07) as Char32 << 18) | ((c1 & 0x3F) as Char32 << 12) | ((c2 & 0x3F) as Char32 << 6) | (c3 & 0x3F) as Char32
  }

  /** `decode_utf8`: the code point starting at `pos`, and how many bytes to advance. */
  function Decode(input: seq<Byte>, pos: nat): (d: Decoded)
    requires pos < |input|
    ensures 1 <= d.advance && pos + d.advance <= |input|
  {
    var c := input[pos];
    if c & 0x80 == 0 then
      Decoded(c as Char32, 1)
    else if c & 0xE0 == 0xC0 && pos + 1 < |input| then
      var c1 := input[pos + 1];
      if !IsContinuation(c1) then Decoded(REPLACEMENT, 1)
      else Decoded(FromTwo(c, c1), 2)
    else if c & 0xF0 == 0xE0 && pos + 2 < |input| then
      var c1, c2 := input[pos + 1], input[pos + 2];
      if !IsContinuation(c1) || !IsContinuation(c2) then Decoded(REPLACEMENT, 1)
      else Decoded(FromThree(c, c1, c2), 3)
    else if c & 0xF8 == 0xF0 && pos + 3 < |input| then
      var c1, c2, c3 := input[pos + 1], input[pos + 2], input[pos + 3];
      if !IsContinuation(c1) || !IsContinuation(c2) || !IsContinuation(c3) then Decoded(REPLACEMENT, 1)
      else Decoded(FromFour(c, c1, c2, c3), 4)
    else
      Decoded(REPLACEMENT, 1)
  }

  /** The length that the first byte of a character announces; 0 when it cannot be a first byte. */
  function AnnouncedLength(b: Byte): nat {
    if b & 0x80 == 0 then 1
    else if b & 0xE0 == 0xC0 then 2
    else if b & 0xF0 == 0xE0 then 3
    else if b & 0xF8 == 0xF0 then 4
    else 0
  }

  /** The shape of an encoded character: the first byte announces the length, the others continue it. */
  lemma EncodeShape(ch: CodePoint)
    ensures var e := Encode(ch);
            && 1 <= |e| <= 4
            && AnnouncedLength(e[0]) == |e|
            && !IsContinuation(e[0])
            && (forall i :: 1 <= i < |e| ==> IsContinuation(e[i]))
  {
  }

  /** The byte, as a wide number, above what marks it. */
  function Above(b: Byte, mark: Char32): Char32 {
    b as Char32 - mark
  }

  // The rows of the table: the range of each byte, and the number they write in base 64, the highest digit first.

  predicate TwoRow(ch: Char32, c: Byte, c1: Byte) {
    0xC2 <= c <= 0xDF && 0x80 <= c1 <= 0xBF && ch == (Above(c, 0xC0) << 6) | Above(c1, 0x80)
  }

  predicate ThreeRow(ch: Char32, c: Byte, c1: Byte, c2: Byte) {
    && 0xE0 <= c <= 0xEF && 0x80 <= c1 <= 0xBF && 0x80 <= c2 <= 0xBF
    && ch == (Above(c, 0xE0) << 12) | (Above(c1, 0x80) << 6) | Above(c2, 0x80)
  }

  predicate FourRow(ch: Char32, c: Byte, c1: Byte, c2: Byte, c3: Byte) {
    && 0xF0 <= c <= 0xF4 && 0x80 <= c1 <= 0xBF && 0x80 <= c2 <= 0xBF && 0x80 <= c3 <= 0xBF
    && ch == (Above(c, 0xF0) << 18) | (Above(c1, 0x80) << 12) | (Above(c2, 0x80) << 6) | Above(c3, 0x80)
  }

  lemma TwoInTable(ch: Char32, c: Byte, c1: Byte)
    requires 0x7F < ch <= 0x7FF
    requires c == (0xC0 | ((ch >> 6) & 0x1F)) as Byte && c1 == (0x80 | (ch & 0x3F)) as Byte
    ensures TwoRow(ch, c, c1)
  {
  }

  lemma ThreeInTable(ch: Char32, c: Byte, c1: Byte, c2: Byte)
    requires 0x7FF < ch <= 0xFFFF
    requires c == (0xE0 | ((ch >> 12) & 0x0F)) as Byte
    requires c1 == (0x80 | ((ch >> 6) & 0x3F)) as Byte && c2 == (0x80 | (ch & 0x3F)) as Byte
    ensures ThreeRow(ch, c, c1, c2)
  {
  }

  /** What is above the mark is what is left when the mark is masked out. */
  lemma AboveIsRest(b: Byte)
    ensures 0x80 <= b <= 0xBF ==> Above(b, 0x80) == (b & 0x3F) as Char32
    ensures 0xC0 <= b <= 0xDF ==> Above(b, 0xC0) == (b & 0x1F) as Char32
    ensures 0xE0 <= b <= 0xEF ==> Above(b, 0xE0) == (b & 0x0F) as Char32
    ensures 0xF0 <= b <= 0xF7 ==> Above(b, 0xF0) == (b & 0x07) as Char32
  {
  }

  lemma TwoAbove(c: Byte, c1: Byte)
    requires 0xC0 <= c <= 0xDF && 0x80 <= c1 <= 0xBF
    ensures FromTwo(c, c1) == (Above(c, 0xC0) << 6) | Above(c1, 0x80)
  {
    hide Above;
    AboveIsRest(c);
    AboveIsRest(c1);
  }

  lemma ThreeAbove(c: Byte, c1: Byte, c2: Byte)
    requires 0xE0 <= c <= 0xEF && 0x80 <= c1 <= 0xBF && 0x80 <= c2 <= 0xBF
    ensures FromThree(c, c1, c2) == (Above(c, 0xE0) << 12) | (Above(c1, 0x80) << 6) | Above(c2, 0x80)
  {
    hide Above;
    AboveIsRest(c);
    AboveIsRest(c1);
    AboveIsRest(c2);
  }

  lemma FourAbove(c: Byte, c1: Byte, c2: Byte, c3: Byte)
    requires 0xF0 <= c <= 0xF7 && 0x80 <= c1 <= 0xBF && 0x80 <= c2 <= 0xBF && 0x80 <= c3 <= 0xBF
    ensures FromFour(c, c1, c2, c3)
            == (Above(c, 0xF0) << 18) | (Above(c1, 0x80) << 12) | (Above(c2, 0x80) << 6) | Above(c3, 0x80)
  {
    hide Above;
    AboveIsRest(c);
    AboveIsRest(c1);
    AboveIsRest(c2);
    AboveIsRest(c3);
  }

  /** The tests on the first bits of a byte are ranges. */
  lemma Announced(b: Byte)
    ensures b & 0x80 == 0 <==> b <= 0x7F
    ensures b & 0xE0 == 0xC0 <==> 0xC0 <= b <= 0xDF
    ensures b & 0xF0 == 0xE0 <==> 0xE0 <= b <= 0xEF
    ensures b & 0xF8 == 0xF0 <==> 0xF0 <= b <= 0xF7
    ensures IsContinuation(b) <==> 0x80 <= b <= 0xBF
    ensures AnnouncedLength(b) == if b <= 0x7F then 1 else if 0xC0 <= b <= 0xDF then 2 else if 0xE0 <= b <= 0xEF then 3
                                  else if 0xF0 <= b <= 0xF7 then 4 else 0
  {
  }

  lemma FourRanges(ch: Char32, c: Byte, c1: Byte, c2: Byte, c3: Byte)
    requires 0xFFFF < ch <= 0x10FFFF
    requires c == (0xF0 | ((ch >> 18) & 0x07)) as Byte && c1 == (0x80 | ((ch >> 12) & 0x3F)) as Byte
    requires c2 == (0x80 | ((ch >> 6) & 0x3F)) as Byte && c3 == (0x80 | (ch & 0x3F)) as Byte
    ensures 0xF0 <= c <= 0xF4 && 0x80 <= c1 <= 0xBF && 0x80 <= c2 <= 0xBF && 0x80 <= c3 <= 0xBF
  {
  }

  lemma FourInTable(ch: Char32, c: Byte, c1: Byte, c2: Byte, c3: Byte)
    requires 0xFFFF < ch <= 0x10FFFF
    requires c == (0xF0 | ((ch >> 18) & 0x07)) as Byte && c1 == (0x80 | ((ch >> 12) & 0x3F)) as Byte
    requires c2 == (0x80 | ((ch >> 6) & 0x3F)) as Byte && c3 == (0x80 | (ch & 0x3F)) as Byte
    ensures FourRow(ch, c, c1, c2, c3)
  {
    hide Above, FromFour;
    FourRanges(ch, c, c1, c2, c3);
    FourBytes(ch, c, c1, c2, c3);
    FourAbove(c, c1, c2, c3);
  }

  lemma EncodesTwo(ch: CodePoint, c: Byte, c1: Byte)
    requires 0x7F < ch <= 0x7FF && Encode(ch) == [c, c1]
    ensures TwoRow(ch, c, c1)
  {
    hide TwoRow;
    var e := [c, c1];
    assert c == e[0] && c1 == e[1];
    TwoInTable(ch, c, c1);
  }

  lemma EncodesThree(ch: CodePoint, c: Byte, c1: Byte, c2: Byte)
    requires 0x7FF < ch <= 0xFFFF && Encode(ch) == [c, c1, c2]
    ensures ThreeRow(ch, c, c1, c2)
  {
    hide ThreeRow;
    var e := [c, c1, c2];
    assert c == e[0];
    assert c1 == e[1];
    assert c2 == e[2];
    ThreeInTable(ch, c, c1, c2);
  }

  lemma EncodesFour(ch: CodePoint, c: Byte, c1: Byte, c2: Byte, c3: Byte)
    requires 0xFFFF < ch && Encode(ch) == [c, c1, c2, c3]
    ensures FourRow(ch, c, c1, c2, c3)
  {
    hide FourRow;
    var e := [c, c1, c2, c3];
    assert c == e[0];
    assert c1 == e[1];
    assert c2 == e[2];
    assert c3 == e[3];
    FourInTable(ch, c, c1, c2, c3);
  }

  lemma BytesOf(ch: Char32)
    ensures |Encode(ch)| == if ch <= 0x7F then 1 else if ch <= 0x7FF then 2 else if ch <= 0xFFFF then 3 else if ch <= 0x10FFFF then 4 else 0
    ensures ch <= 0x7F ==> Encode(ch)[0] as Char32 == ch
  {
  }

  /** Every code point is encoded as its row of the table says, and nothing else is. */
  lemma EncodeIsTable(ch: Char32)
    ensures var e := Encode(ch);
            if ch <= 0x7F then |e| == 1 && e[0] as Char32 == ch
            else if ch <= 0x7FF then |e| == 2 && TwoRow(ch, e[0], e[1])
            else if ch <= 0xFFFF then |e| == 3 && ThreeRow(ch, e[0], e[1], e[2])
            else if ch <= 0x10FFFF then |e| == 4 && FourRow(ch, e[0], e[1], e[2], e[3])
            else e == []
  {
    hide Encode, TwoRow, ThreeRow, FourRow;
    BytesOf(ch);
    var e := Encode(ch);
    if ch <= 0x7F || ch > 0x10FFFF {
    } else if ch <= 0x7FF {
      EncodesTwo(ch, e[0], e[1]);
    } else if ch <= 0xFFFF {
      EncodesThree(ch, e[0], e[1], e[2]);
    } else {
      EncodesFour(ch, e[0], e[1], e[2], e[3]);
    }
  }

  // The bits of a code point survive the trip through two, three and four bytes.

  lemma TwoBytes(ch: Char32, c: Byte, c1: Byte)
    requires 0x7F < ch <= 0x7FF
    requires c == (0xC0 | ((ch >> 6) & 0x1F)) as Byte && c1 == (0x80 | (ch & 0x3F)) as Byte
    ensures AnnouncedLength(c) == 2 && IsContinuation(c1)
    ensures FromTwo(c, c1) == ch
  {
  }

  lemma ThreeBytes(ch: Char32, c: Byte, c1: Byte, c2: Byte)
    requires 0x7FF < ch <= 0xFFFF
    requires c == (0xE0 | ((ch >> 12) & 0x0F)) as Byte
    requires c1 == (0x80 | ((ch >> 6) & 0x3F)) as Byte && c2 == (0x80 | (ch & 0x3F)) as Byte
    ensures AnnouncedLength(c) == 3 && IsContinuation(c1) && IsContinuation(c2)
    ensures FromThree(c, c1, c2) == ch
  {
  }

  lemma FourBytes(ch: Char32, c: Byte, c1: Byte, c2: Byte, c3: Byte)
    requires 0xFFFF < ch <= 0x10FFFF
    requires c == (0xF0 | ((ch >> 18) & 0x07)) as Byte && c1 == (0x80 | ((ch >> 12) & 0x3F)) as Byte
    requires c2 == (0x80 | ((ch >> 6) & 0x3F)) as Byte && c3 == (0x80 | (ch & 0x3F)) as Byte
    ensures AnnouncedLength(c) == 4 && IsContinuation(c1) && IsContinuation(c2) && IsContinuation(c3)
    ensures FromFour(c, c1, c2, c3) == ch
  {
  }

  // Each branch of the decoder, on bytes already known to be well formed.

  lemma DecodeTwo(s: seq<Byte>, pos: nat, ch: CodePoint, c: Byte, c1: Byte)
    requires pos + 2 <= |s| && s[pos] == c && s[pos + 1] == c1
    requires 0x7F < ch <= 0x7FF && Encode(ch) == [c, c1]
    ensures Decode(s, pos) == Decoded(ch, 2)
  {
    var e := [c, c1];
    assert c == e[0] && c1 == e[1];
    TwoBytes(ch, c, c1);
  }

  lemma JoinThree(s: seq<Byte>, pos: nat, ch: Char32, c: Byte, c1: Byte, c2: Byte)
    requires pos + 3 <= |s| && s[pos] == c && s[pos + 1] == c1 && s[pos + 2] == c2
    requires AnnouncedLength(c) == 3 && IsContinuation(c1) && IsContinuation(c2)
    requires FromThree(c, c1, c2) == ch
    ensures Decode(s, pos) == Decoded(ch, 3)
  {
    hide FromTwo, FromThree, FromFour, IsContinuation;
    Announced(c);
  }

  lemma DecodeThree(s: seq<Byte>, pos: nat, ch: CodePoint, c: Byte, c1: Byte, c2: Byte)
    requires pos + 3 <= |s| && s[pos] == c && s[pos + 1] == c1 && s[pos + 2] == c2
    requires 0x7FF < ch <= 0xFFFF && Encode(ch) == [c, c1, c2]
    ensures Decode(s, pos) == Decoded(ch, 3)
  {
    var e := [c, c1, c2];
    assert c == e[0];
    assert c1 == e[1];
    assert c2 == e[2];
    ThreeBytes(ch, c, c1, c2);
    JoinThree(s, pos, ch, c, c1, c2);
  }

  lemma JoinFour(s: seq<Byte>, pos: nat, ch: Char32, c: Byte, c1: Byte, c2: Byte, c3: Byte)
    requires pos + 4 <= |s| && s[pos] == c && s[pos + 1] == c1 && s[pos + 2] == c2 && s[pos + 3] == c3
    requires AnnouncedLength(c) == 4 && IsContinuation(c1) && IsContinuation(c2) && IsContinuation(c3)
    requires FromFour(c, c1, c2, c3) == ch
    ensures Decode(s, pos) == Decoded(ch, 4)
  {
    hide FromTwo, FromThree, FromFour, IsContinuation;
    Announced(c);
  }

  lemma DecodeFour(s: seq<Byte>, pos: nat, ch: CodePoint, c: Byte, c1: Byte, c2: Byte, c3: Byte)
    requires pos + 4 <= |s| && s[pos] == c && s[pos + 1] == c1 && s[pos + 2] == c2 && s[pos + 3] == c3
    requires 0xFFFF < ch && Encode(ch) == [c, c1, c2, c3]
    ensures Decode(s, pos) == Decoded(ch, 4)
  {
    var e := [c, c1, c2, c3];
    assert c == e[0];
    assert c1 == e[1];
    assert c2 == e[2];
    assert c3 == e[3];
    FourBytes(ch, c, c1, c2, c3);
    JoinFour(s, pos, ch, c, c1, c2, c3);
  }

  /** Decoding undoes encoding at any position of a longer string. */
  lemma DecodeEncode(ch: CodePoint, prefix: seq<Byte>, suffix: seq<Byte>)
    ensures var s := prefix + Encode(ch) + suffix;
            && |prefix| < |s|
            && Decode(s, |prefix|) == Decoded(ch, |Encode(ch)|)
  {
    EncodeShape(ch);
    var e := Encode(ch);
    var s, pos := prefix + e + suffix, |prefix|;
    assert s[pos] == e[0];
    if ch <= 0x7F {
    } else if ch <= 0x7FF {
      assert s[pos + 1] == e[1];
      DecodeTwo(s, pos, ch, e[0], e[1]);
    } else if ch <= 0xFFFF {
      assert s[pos + 1] == e[1] && s[pos + 2] == e[2];
      DecodeThree(s, pos, ch, e[0], e[1], e[2]);
    } else {
      assert s[pos + 1] == e[1] && s[pos + 2] == e[2] && s[pos + 3] == e[3];
      DecodeFour(s, pos, ch, e[0], e[1], e[2], e[3]);
    }
  }

  /** The bytes from `pos` on are a first byte for `n`, and all the bytes that must follow it. */
  predicate WellFormed(s: seq<Byte>, pos: nat, n: nat)
    requires pos < |s|
  {
    && 1 <= n <= |s| - pos && AnnouncedLength(s[pos]) == n
    && forall i :: pos < i < pos + n ==> 0x80 <= s[i] <= 0xBF
  }

  /** Where the bytes are not well formed, one byte is passed over and stands for U+FFFD. */
  lemma DecodeMalformed(s: seq<Byte>, pos: nat)
    requires pos < |s| && forall n: nat :: 1 <= n <= 4 ==> !WellFormed(s, pos, n)
    ensures Decode(s, pos) == Decoded(0xFFFD, 1)
  {
    hide FromTwo, FromThree, FromFour, IsContinuation, AnnouncedLength;
    Announced(s[pos]);
    assert !WellFormed(s, pos, 1) && !WellFormed(s, pos, 2) && !WellFormed(s, pos, 3) && !WellFormed(s, pos, 4);
    if pos + 1 < |s| {
      Announced(s[pos + 1]);
    }
    if pos + 2 < |s| {
      Announced(s[pos + 2]);
    }
    if pos + 3 < |s| {
      Announced(s[pos + 3]);
    }
  }

  lemma DecodeJoins(s: seq<Byte>, pos: nat, n: nat)
    requires pos < |s| && WellFormed(s, pos, n)
    ensures 1 <= n <= 4
    ensures n == 1 ==> Decode(s, pos) == Decoded(s[pos] as Char32, 1)
    ensures n == 2 ==> 0xC0 <= s[pos] <= 0xDF && Decode(s, pos) == Decoded(FromTwo(s[pos], s[pos + 1]), 2)
    ensures n == 3 ==> 0xE0 <= s[pos] <= 0xEF && Decode(s, pos) == Decoded(FromThree(s[pos], s[pos + 1], s[pos + 2]), 3)
    ensures n == 4 ==> 0xF0 <= s[pos] <= 0xF7 && Decode(s, pos) == Decoded(FromFour(s[pos], s[pos + 1], s[pos + 2], s[pos + 3]), 4)
  {
    hide FromTwo, FromThree, FromFour, IsContinuation, AnnouncedLength;
    Announced(s[pos]);
    if n >= 2 {
      Announced(s[pos + 1]);
    }
    if n >= 3 {
      Announced(s[pos + 2]);
    }
    if n >= 4 {
      Announced(s[pos + 3]);
    }
  }

  /** The number that well-formed bytes stand for, in base 64. */
  function TableValue(s: seq<Byte>, pos: nat, n: nat): Char32
    requires 1 <= n <= 4 && pos + n <= |s|
  {
    match n
    case 1 => s[pos] as Char32
    case 2 => (Above(s[pos], 0xC0) << 6) | Above(s[pos + 1], 0x80)
    case 3 => (Above(s[pos], 0xE0) << 12) | (Above(s[pos + 1], 0x80) << 6) | Above(s[pos + 2], 0x80)
    case _ => (Above(s[pos], 0xF0) << 18) | (Above(s[pos + 1], 0x80) << 12) | (Above(s[pos + 2], 0x80) << 6) | Above(s[pos + 3], 0x80)
  }

  /** Where they are, they are decoded as the table says, also when fewer bytes would have done. */
  lemma DecodeWellFormed(s: seq<Byte>, pos: nat, n: nat)
    requires pos < |s| && WellFormed(s, pos, n)
    ensures 1 <= n <= 4 && Decode(s, pos) == Decoded(TableValue(s, pos, n), n)
  {
    hide FromTwo, FromThree, FromFour, IsContinuation, AnnouncedLength, Above, Decode;
    DecodeJoins(s, pos, n);
    if n == 2 {
      TwoAbove(s[pos], s[pos + 1]);
    } else if n == 3 {
      ThreeAbove(s[pos], s[pos + 1], s[pos + 2]);
    } else if n == 4 {
      FourAbove(s[pos], s[pos + 1], s[pos + 2], s[pos + 3]);
    }
  }
}
