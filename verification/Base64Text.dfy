/**
 Base64 against the text of RFC 4648, sections 4 and 5: the alphabets as they are printed there, the
 24-bit groups, and the padding character.
 */
module Base64Text {
  import opened Base64
  import opened Base64Laws

  /** The characters for the values 0 to 63. */
  function Table(url: bool): string {
    "ABCDEFGHIJKLMNOPQRSTUVWXYZabcdefghijklmnopqrstuvwxyz0123456789" + if url then "-_" else "+/"
  }

  function Char(c: bv8): char {
    (c as int) as char
  }

  lemma UpperAt(i: nat)
    requires i < 26
    ensures "ABCDEFGHIJKLMNOPQRSTUVWXYZ"[i] as int == 65 + i
  {
  }

  lemma LowerAt(i: nat)
    requires i < 26
    ensures "abcdefghijklmnopqrstuvwxyz"[i] as int == 97 + i
  {
  }

  lemma DigitAt(i: nat)
    requires i < 10
    ensures "0123456789"[i] as int == 48 + i
  {
  }

  lemma TableParts(url: bool)
    ensures Table(url) == "ABCDEFGHIJKLMNOPQRSTUVWXYZ" + ("abcdefghijklmnopqrstuvwxyz" + ("0123456789" + if url then "-_" else "+/"))
  {
  }

  lemma AddSmall(v: bv8, d: bv8)
    requires v < 64 && d <= 71
    ensures (v + d) as int == (v as int) + (d as int)
  {
  }

  lemma SubSmall(v: bv8)
    requires 52 <= v < 62
    ensures (v - 4) as int == (v as int) - 4
  {
  }

  /** The character written for a value is the one the alphabet has at that place. */
  lemma AlphaIsTable(url: bool, v: bv8)
    requires v < 64
    ensures (v as int) < 64 && |Table(url)| == 64 && Char(Alpha(url, v)) == Table(url)[v as int]
  {
    TableParts(url);
    var i := v as int;
    if v < 26 {
      AddSmall(v, 65);
      UpperAt(i);
    } else if v < 52 {
      AddSmall(v, 71);
      LowerAt(i - 26);
    } else if v < 62 {
      SubSmall(v);
      DigitAt(i - 52);
    }
  }

  lemma CharInjective(a: bv8, b: bv8)
    requires Char(a) == Char(b)
    ensures a == b
  {
  }

  /** A character that stands for a value is the one written for it, in an alphabet that may be read. */
  lemma AlphaOfValue(alphabet: Alphabet, c: bv8)
    ensures var x := ValueOf(alphabet, c);
            x.Sextet? ==> x.value < 64 && exists url :: Suits(alphabet, url) && Suits(x.alphabet, url) && Alpha(url, x.value) == c
    ensures ValueOf(alphabet, c).Sextet? ==> ValueOf(Auto, c).Sextet? && ValueOf(Auto, c).value == ValueOf(alphabet, c).value
  {
    var x := ValueOf(alphabet, c);
    if x.Sextet? {
      var url := if x.alphabet.Auto? then false else x.alphabet.Url?;
      assert Suits(alphabet, url) && Suits(x.alphabet, url) && Alpha(url, x.value) == c;
    }
  }

  /** The character an alphabet has for a value. */
  function Place(url: bool, v: bv8): char
    requires v < 64
  {
    AlphaIsTable(url, v);
    Table(url)[v as int]
  }

  /** A character is read exactly when it stands in an alphabet that may be read, and its value is its place there. */
  lemma ReadIsTable(alphabet: Alphabet, c: bv8)
    ensures var x := ValueOf(alphabet, c);
            && (x.Sextet? <==> exists url, v: bv8 :: v < 64 && Suits(alphabet, url) && Place(url, v) == Char(c))
            && (x.Sextet? ==> forall url, v: bv8 :: v < 64 && Suits(alphabet, url) && Place(url, v) == Char(c) ==> x.value == v)
  {
    hide Table, Char;
    var x := ValueOf(alphabet, c);
    AlphaOfValue(alphabet, c);
    if x.Sextet? {
      var url :| Suits(alphabet, url) && Suits(x.alphabet, url) && Alpha(url, x.value) == c;
      AlphaIsTable(url, x.value);
      assert Place(url, x.value) == Char(c);
    }
    forall url, v: bv8 | v < 64 && Suits(alphabet, url) && Place(url, v) == Char(c)
      ensures x.Sextet? && x.value == v
    {
      AlphaIsTable(url, v);
      CharInjective(Alpha(url, v), c);
      ValueOfAlpha(alphabet, url, v);
    }
  }

  // ---- groups of 24 bits ----

  /** A byte of the input, zero behind the end. */
  function ByteAt(s: seq<bv8>, i: nat): bv24 {
    if i < |s| then s[i] as bv24 else 0
  }

  /** Three bytes put together. */
  function ThreeBytes(a: bv24, b: bv24, c: bv24): bv24 {
    (a << 16) | (b << 8) | c
  }

  function Group(s: seq<bv8>, g: nat): bv24 {
    ThreeBytes(ByteAt(s, 3 * g), ByteAt(s, 3 * g + 1), ByteAt(s, 3 * g + 2))
  }

  /** The four values of six bits in a group, from the left. */
  function SixBits(group: bv24, k: nat): (v: bv24)
    ensures v < 64
  {
    (if k == 0 then group >> 18 else if k == 1 then group >> 12 else if k == 2 then group >> 6 else group) & 63
  }

  /** And the three bytes. */
  function EightBits(group: bv24, k: nat): bv24 {
    (if k == 0 then group >> 16 else if k == 1 then group >> 8 else group) & 255
  }

  lemma SixBitsOf(a: bv8, b: bv8, c: bv8)
    ensures var group := ThreeBytes(a as bv24, b as bv24, c as bv24);
            && First(a) as bv24 == SixBits(group, 0) && Second(a, b) as bv24 == SixBits(group, 1)
            && Third(b, c) as bv24 == SixBits(group, 2) && Fourth(c) as bv24 == SixBits(group, 3)
  {
  }

  lemma Widen(v: bv8, w: bv24)
    requires v < 64 && v as bv24 == w
    ensures v as int == w as int
  {
  }

  /** How many padding characters there are. */
  function Pads(size: nat): nat {
    (3 - size % 3) % 3
  }

  /** How many characters are no padding. */
  function Unpadded(size: nat): int {
    RequiredEncodeSize(size) - Pads(size)
  }

  /** Character `k` of what is written for `s`: the one for its six bits, or padding at the end. */
  ghost predicate IsCharacter(s: seq<bv8>, url: bool, k: nat, c: bv8) {
    Char(c) == if k < Unpadded(|s|) then Table(url)[SixBits(Group(s, k / 4), k % 4) as int] else '='
  }

  lemma TableAt(url: bool, v: bv8, w: bv24)
    requires v < 64 && v as bv24 == w
    ensures (w as int) < 64 && |Table(url)| == 64 && Char(Alpha(url, v)) == Table(url)[w as int]
  {
    hide Alpha, Table;
    AlphaIsTable(url, v);
    Widen(v, w);
  }

  lemma FirstGroup(s: seq<bv8>)
    requires s != []
    ensures var a, b, c := s[0], if |s| > 1 then s[1] else 0, if |s| > 2 then s[2] else 0;
            Group(s, 0) == ThreeBytes(a as bv24, b as bv24, c as bv24)
  {
    hide ThreeBytes;
  }

  lemma LaterGroup(s: seq<bv8>, g: nat)
    requires |s| >= 3
    ensures Group(s, g + 1) == Group(s[3..], g)
  {
    assert forall i: nat :: ByteAt(s, i + 3) == ByteAt(s[3..], i);
  }

  lemma PadIsEquals()
    ensures Char(PAD) == '='
  {
  }

  lemma Sizes(size: nat)
    ensures Unpadded(1) == 2 && Unpadded(2) == 3
    ensures size >= 3 ==> Unpadded(size) >= 4 && Unpadded(size) == Unpadded(size - 3) + 4
  {
  }

  lemma {:induction false} FourCharacters(s: seq<bv8>, url: bool)
    requires s != []
    ensures var a, b, c := s[0], if |s| > 1 then s[1] else 0, if |s| > 2 then s[2] else 0;
            var e := Encoded(s, url);
            && |e| >= 4 && e[0] == Alpha(url, First(a)) && e[1] == Alpha(url, Second(a, b))
            && e[2] == (if |s| > 1 then Alpha(url, Third(b, c)) else PAD) && e[3] == (if |s| > 2 then Alpha(url, Fourth(c)) else PAD)
  {
    hide Alpha, First, Second, Third, Fourth;
  }

  lemma CharacterIs(s: seq<bv8>, url: bool, k: nat, v: bv8)
    requires k < 4 && k < Unpadded(|s|) && v < 64 && v as bv24 == SixBits(Group(s, 0), k)
    ensures IsCharacter(s, url, k, Alpha(url, v))
  {
    hide Alpha, Table, SixBits, Char, Group, Unpadded;
    TableAt(url, v, SixBits(Group(s, 0), k));
  }

  lemma PaddingIs(s: seq<bv8>, url: bool, k: nat)
    requires k >= Unpadded(|s|)
    ensures IsCharacter(s, url, k, PAD)
  {
    PadIsEquals();
  }

  lemma GroupBits(s: seq<bv8>)
    requires s != []
    ensures var a, b, c := s[0], if |s| > 1 then s[1] else 0, if |s| > 2 then s[2] else 0;
            && First(a) as bv24 == SixBits(Group(s, 0), 0) && Second(a, b) as bv24 == SixBits(Group(s, 0), 1)
            && Third(b, c) as bv24 == SixBits(Group(s, 0), 2) && Fourth(c) as bv24 == SixBits(Group(s, 0), 3)
  {
    hide *;
    var a, b, c := s[0], if |s| > 1 then s[1] else 0, if |s| > 2 then s[2] else 0;
    FirstGroup(s);
    SixBitsOf(a, b, c);
  }

  lemma Sextets(a: bv8, b: bv8, c: bv8)
    ensures First(a) < 64 && Second(a, b) < 64 && Third(b, c) < 64 && Fourth(c) < 64
  {
    hide *;
    BytesBack(a, b, c);
  }

  lemma {:induction false} FirstFour(s: seq<bv8>, url: bool, k: nat)
    requires s != [] && k < 4
    ensures |Encoded(s, url)| >= 4
    ensures IsCharacter(s, url, k, Encoded(s, url)[k])
  {
    hide *;
    var a, b, c := s[0], if |s| > 1 then s[1] else 0, if |s| > 2 then s[2] else 0;
    FourCharacters(s, url);
    GroupBits(s);
    Sextets(a, b, c);
    Sizes(|s|);
    if k >= Unpadded(|s|) {
      PaddingIs(s, url, k);
    } else if k == 0 {
      CharacterIs(s, url, k, First(a));
    } else if k == 1 {
      CharacterIs(s, url, k, Second(a, b));
    } else if k == 2 {
      CharacterIs(s, url, k, Third(b, c));
    } else {
      CharacterIs(s, url, k, Fourth(c));
    }
  }

  /** Every character of what is written is the one the RFC wants at its place. */
  lemma {:induction false} EncodedCharacters(s: seq<bv8>, url: bool, k: nat)
    requires k < |Encoded(s, url)|
    ensures |Encoded(s, url)| == RequiredEncodeSize(|s|)
    ensures IsCharacter(s, url, k, Encoded(s, url)[k])
    decreases |s|
  {
    hide Alpha, First, Second, Third, Fourth, Table, SixBits, Char, Group, RequiredEncodeSize, Pads, Encoded, Unpadded;
    EncodedSize(s, url);
    EncodedEnd(url);
    if k < 4 {
      FirstFour(s, url, k);
    } else {
      LongerThanOne(s, url);
      EncodedGroup(s, url);
      EncodedCharacters(s[3..], url, k - 4);
      LaterGroup(s, k / 4 - 1);
      Sizes(|s|);
    }
  }

  lemma {:induction false} LongerThanOne(s: seq<bv8>, url: bool)
    ensures |Encoded(s, url)| > 4 ==> |s| >= 3
  {
    hide Alpha, First, Second, Third, Fourth;
  }

  // ---- what is read ----

  /** The value of a character in front of the padding, zero behind it. */
  function ValueAt(text: seq<bv8>, i: nat): (v: bv24)
    ensures v < 64
  {
    if i < BodyLength(text) && ValueOf(Auto, text[i]).Sextet? then (ValueOf(Auto, text[i]).value & 63) as bv24 else 0
  }

  /** Four values of six bits put together. */
  function FourValues(a: bv24, b: bv24, c: bv24, d: bv24): bv24 {
    (a << 18) | (b << 12) | (c << 6) | d
  }

  function CharGroup(text: seq<bv8>, g: nat): bv24 {
    FourValues(ValueAt(text, 4 * g), ValueAt(text, 4 * g + 1), ValueAt(text, 4 * g + 2), ValueAt(text, 4 * g + 3))
  }

  /** One character is read. */
  lemma ReadOne(text: seq<bv8>, alphabet: Alphabet, behavior: Behavior, last: bv8, bits: bv8) returns (next: Alphabet, v: bv8)
    requires IsBits(bits) && BodyLength(text) > 0 && Decoded(text, alphabet, behavior, last, bits).ok
    ensures v < 64 && v as bv24 == ValueAt(text, 0) && BodyLength(text[1..]) == BodyLength(text) - 1
    ensures forall i: nat :: ValueAt(text[1..], i) == ValueAt(text, i + 1)
    ensures var rest := Decoded(text[1..], next, behavior, v, if bits == 0 then 6 else bits - 2);
            && rest.ok
            && Decoded(text, alphabet, behavior, last, bits).bytes == if bits == 0 then rest.bytes else [ByteOf(last, v, bits)] + rest.bytes
  {
    hide ByteOf, ValueOf;
    var x := ValueOf(alphabet, text[0]);
    AlphaOfValue(alphabet, text[0]);
    next, v := x.alphabet, x.value;
    LowSix(v);
    forall i: nat
      ensures ValueAt(text[1..], i) == ValueAt(text, i + 1)
    {
    }
  }

  lemma LowSix(v: bv8)
    requires v < 64
    ensures v & 63 == v
  {
  }

  lemma {:induction false} NothingRead(text: seq<bv8>, alphabet: Alphabet, behavior: Behavior, last: bv8, bits: bv8)
    requires IsBits(bits) && BodyLength(text) == 0
    ensures Decoded(text, alphabet, behavior, last, bits).bytes == []
  {
  }

  lemma BytesOf(a: bv8, b: bv8, c: bv8, d: bv8, group: bv24)
    requires a < 64 && b < 64 && c < 64 && d < 64
    requires group == FourValues(a as bv24, b as bv24, c as bv24, d as bv24)
    ensures ByteOf(a, b, 6) as bv24 == EightBits(group, 0) && ByteOf(b, c, 4) as bv24 == EightBits(group, 1)
    ensures ByteOf(c, d, 2) as bv24 == EightBits(group, 2)
  {
  }

  lemma Tails(text: seq<bv8>)
    requires |text| >= 4
    ensures text[1..][1..] == text[2..] && text[2..][1..] == text[3..] && text[3..][1..] == text[4..]
  {
  }

  /** Four characters read one after the other. */
  lemma FourRead(text: seq<bv8>, alphabet: Alphabet, behavior: Behavior, last: bv8)
    returns (next: Alphabet, a: bv8, b: bv8, c: bv8, d: bv8)
    requires BodyLength(text) >= 4 && Decoded(text, alphabet, behavior, last, 0).ok
    ensures a < 64 && b < 64 && c < 64 && d < 64
    ensures a as bv24 == ValueAt(text, 0) && b as bv24 == ValueAt(text, 1) && c as bv24 == ValueAt(text, 2) && d as bv24 == ValueAt(text, 3)
    ensures BodyLength(text[4..]) == BodyLength(text) - 4 && forall i: nat :: ValueAt(text[4..], i) == ValueAt(text, i + 4)
    ensures var rest := Decoded(text[4..], next, behavior, d, 0);
            && rest.ok
            && Decoded(text, alphabet, behavior, last, 0).bytes
               == [ByteOf(a, b, 6)] + ([ByteOf(b, c, 4)] + ([ByteOf(c, d, 2)] + rest.bytes))
  {
    hide ByteOf, ValueOf, Decoded, ValueAt, EightBits, CharGroup, BodyLength, FourValues;
    var t1, t2, t3 := text[1..], text[2..], text[3..];
    var n1, n2, n3;
    Tails(text);
    n1, a := ReadOne(text, alphabet, behavior, last, 0);
    n2, b := ReadOne(t1, n1, behavior, a, 6);
    n3, c := ReadOne(t2, n2, behavior, b, 4);
    next, d := ReadOne(t3, n3, behavior, c, 2);
  }

  /** A whole group of four characters. */
  lemma ReadFour(text: seq<bv8>, alphabet: Alphabet, behavior: Behavior, last: bv8) returns (next: Alphabet, v: bv8)
    requires BodyLength(text) >= 4 && Decoded(text, alphabet, behavior, last, 0).ok
    ensures BodyLength(text[4..]) == BodyLength(text) - 4 && forall i: nat :: ValueAt(text[4..], i) == ValueAt(text, i + 4)
    ensures var now, rest := Decoded(text, alphabet, behavior, last, 0).bytes, Decoded(text[4..], next, behavior, v, 0);
            && rest.ok && |now| == |rest.bytes| + 3 && now[3..] == rest.bytes
            && forall k: nat :: k < 3 ==> now[k] as bv24 == EightBits(CharGroup(text, 0), k)
  {
    hide ByteOf, ValueOf, Decoded, ValueAt, EightBits, CharGroup, BodyLength, FourValues;
    var a, b, c, d;
    next, a, b, c, d := FourRead(text, alphabet, behavior, last);
    v := d;
    GroupIs(text, a, b, c, d);
    BytesOf(a, b, c, d, CharGroup(text, 0));
    ThreeThen(ByteOf(a, b, 6), ByteOf(b, c, 4), ByteOf(c, d, 2), Decoded(text[4..], next, behavior, v, 0).bytes);
  }

  lemma GroupIs(text: seq<bv8>, a: bv8, b: bv8, c: bv8, d: bv8)
    requires a as bv24 == ValueAt(text, 0) && b as bv24 == ValueAt(text, 1) && c as bv24 == ValueAt(text, 2) && d as bv24 == ValueAt(text, 3)
    ensures CharGroup(text, 0) == FourValues(a as bv24, b as bv24, c as bv24, d as bv24)
  {
    hide ValueAt, FourValues;
  }

  lemma ThreeThen(x: bv8, y: bv8, z: bv8, rest: seq<bv8>)
    ensures var now := [x] + ([y] + ([z] + rest));
            |now| == |rest| + 3 && now[3..] == rest && now[0] == x && now[1] == y && now[2] == z
  {
  }

  lemma {:induction false} ReadFewer(text: seq<bv8>, alphabet: Alphabet, behavior: Behavior, last: bv8, k: nat)
    requires BodyLength(text) < 4 && Decoded(text, alphabet, behavior, last, 0).ok && k < |Decoded(text, alphabet, behavior, last, 0).bytes|
    ensures k < 3 && Decoded(text, alphabet, behavior, last, 0).bytes[k] as bv24 == EightBits(CharGroup(text, 0), k)
  {
    hide ByteOf, ValueOf, Decoded, ValueAt, EightBits, FourValues;
    var n := BodyLength(text);
    if n == 0 {
      NothingRead(text, alphabet, behavior, last, 0);
    } else {
      var n1, a := ReadOne(text, alphabet, behavior, last, 0);
      ReadShort(text, n1, behavior, a, k);
    }
  }

  lemma {:induction false} ReadShort(text: seq<bv8>, n1: Alphabet, behavior: Behavior, a: bv8, k: nat)
    requires 0 < BodyLength(text) < 4 && a < 64 && a as bv24 == ValueAt(text, 0)
    requires BodyLength(text[1..]) == BodyLength(text) - 1 && forall i: nat :: ValueAt(text[1..], i) == ValueAt(text, i + 1)
    requires Decoded(text[1..], n1, behavior, a, 6).ok && k < |Decoded(text[1..], n1, behavior, a, 6).bytes|
    ensures k < 3 && Decoded(text[1..], n1, behavior, a, 6).bytes[k] as bv24 == EightBits(CharGroup(text, 0), k)
  {
    hide ByteOf, ValueOf, Decoded, ValueAt, EightBits, FourValues;
    var t1 := text[1..];
    if BodyLength(t1) == 0 {
      NothingRead(t1, n1, behavior, a, 6);
    } else {
      var n2, b := ReadOne(t1, n1, behavior, a, 6);
      var t2 := t1[1..];
      if BodyLength(t2) == 0 {
        NothingRead(t2, n2, behavior, b, 4);
        EndZeros(text, 2);
        BytesOf(a, b, 0, 0, CharGroup(text, 0));
      } else {
        var n3, c := ReadOne(t2, n2, behavior, b, 4);
        assert BodyLength(t2[1..]) == 0;
        NothingRead(t2[1..], n3, behavior, c, 2);
        EndZeros(text, 3);
        BytesOf(a, b, c, 0, CharGroup(text, 0));
      }
    }
  }

  lemma {:induction false} EndZeros(text: seq<bv8>, n: nat)
    requires BodyLength(text) <= n
    ensures forall i: nat :: n <= i ==> ValueAt(text, i) == 0
  {
  }

  lemma NextGroup(text: seq<bv8>, k: nat)
    requires |text| >= 4 && k >= 3 && forall i: nat :: ValueAt(text[4..], i) == ValueAt(text, i + 4)
    ensures CharGroup(text[4..], (k - 3) / 3) == CharGroup(text, k / 3) && (k - 3) % 3 == k % 3
  {
    hide ValueAt, FourValues;
    assert (k - 3) / 3 == k / 3 - 1;
  }

  /** Every byte that is read is the eight bits the characters have at its place. */
  lemma {:induction false} DecodedBytes(text: seq<bv8>, alphabet: Alphabet, behavior: Behavior, last: bv8, k: nat)
    requires Decoded(text, alphabet, behavior, last, 0).ok && k < |Decoded(text, alphabet, behavior, last, 0).bytes|
    ensures Decoded(text, alphabet, behavior, last, 0).bytes[k] as bv24 == EightBits(CharGroup(text, k / 3), k % 3)
    decreases |text|
  {
    hide Decoded, EightBits, ValueAt, FourValues, CharGroup;
    if BodyLength(text) < 4 {
      ReadFewer(text, alphabet, behavior, last, k);
    } else {
      var next, v := ReadFour(text, alphabet, behavior, last);
      if k >= 3 {
        var bytes := Decoded(text, alphabet, behavior, last, 0).bytes;
        assert bytes[k] == bytes[3..][k - 3];
        DecodedBytes(text[4..], next, behavior, v, k - 3);
        NextGroup(text, k);
      }
    }
  }

  /** The character stands in the one alphabet or the other. */
  ghost predicate InTable(url: bool, c: bv8) {
    exists v: bv8 :: v < 64 && Place(url, v) == Char(c)
  }

  lemma InTableIff(url: bool, c: bv8)
    ensures InAlphabet(url, c) <==> InTable(url, c)
  {
    hide ValueOf, Place;
    ReadIsTable(if url then Url else Standard, c);
  }

  /**
   Which texts decode, character by character: those whose characters in front of the first '=' are all
   in an alphabet that may be read, and, unless padding is loose, with nothing but '=' from there on.
   */
  lemma {:induction false} DecodesText(text: seq<bv8>, alphabet: Alphabet, behavior: Behavior, n: nat)
    requires n <= |text| && (n < |text| ==> Char(text[n]) == '=') && forall i :: 0 <= i < n ==> Char(text[i]) != '='
    ensures Decoded(text, alphabet, behavior, 0, 0).ok
            <==> && (|| (alphabet != Url && forall i :: 0 <= i < n ==> InTable(false, text[i]))
                     || (alphabet != Standard && forall i :: 0 <= i < n ==> InTable(true, text[i])))
                 && (behavior == Loose || forall i :: n <= i < |text| ==> Char(text[i]) == '=')
  {
    hide Decoded, ValueOf, InTable;
    PadIsEquals();
    BodyEnds(text, n);
    DecodesIff(text, alphabet, behavior, 0, 0);
    forall i | 0 <= i < n
      ensures InAlphabet(false, text[..n][i]) <==> InTable(false, text[i])
      ensures InAlphabet(true, text[..n][i]) <==> InTable(true, text[i])
    {
      InTableIff(false, text[i]);
      InTableIff(true, text[i]);
    }
    AllInTable(text, n, false);
    AllInTable(text, n, true);
    OnlyPads(text, n);
  }

  lemma AllInTable(text: seq<bv8>, n: nat, url: bool)
    requires n <= |text| && forall i :: 0 <= i < n ==> (InAlphabet(url, text[..n][i]) <==> InTable(url, text[i]))
    ensures AllIn(url, text[..n]) <==> forall i :: 0 <= i < n ==> InTable(url, text[i])
  {
    hide InAlphabet, InTable;
    if forall i :: 0 <= i < n ==> InTable(url, text[i]) {
      assert forall i :: 0 <= i < n ==> InAlphabet(url, text[..n][i]);
    }
    if AllIn(url, text[..n]) {
      assert forall i :: 0 <= i < n ==> InAlphabet(url, text[..n][i]);
    }
  }

  lemma {:induction false} BodyEnds(text: seq<bv8>, n: nat)
    requires n <= |text| && (n < |text| ==> Char(text[n]) == '=') && forall i :: 0 <= i < n ==> Char(text[i]) != '='
    ensures BodyLength(text) == n && (n < |text| ==> text[n] == PAD)
  {
    PadIsEquals();
    if n < |text| {
      CharInjective(text[n], PAD);
    }
  }

  lemma OnlyPads(text: seq<bv8>, n: nat)
    requires n <= |text| && (n < |text| ==> text[n] == PAD)
    ensures (n < |text| ==> PaddingFine(text[n + 1..], Moderate)) <==> forall i :: n <= i < |text| ==> Char(text[i]) == '='
  {
    PadIsEquals();
    if n < |text| && PaddingFine(text[n + 1..], Moderate) {
      forall i | n < i < |text|
        ensures Char(text[i]) == '='
      {
        assert text[i] == text[n + 1..][i - n - 1];
      }
    }
    if forall i :: n <= i < |text| ==> Char(text[i]) == '=' {
      forall i | n <= i < |text|
        ensures text[i] == PAD
      {
        CharInjective(text[i], PAD);
      }
    }
  }

  /** An error takes nothing back: the bytes of the readable characters in front of it are written, and no more. */
  lemma {:induction false} ErrorKeepsBytes(text: seq<bv8>, alphabet: Alphabet, behavior: Behavior, last: bv8, bits: bv8, k: nat)
    requires IsBits(bits) && k < |text| && text[k] != PAD && (forall i :: 0 <= i < k ==> text[i] != PAD)
    requires Decoded(text[..k], alphabet, behavior, last, bits).ok && !Decoded(text[..k + 1], alphabet, behavior, last, bits).ok
    ensures Decoded(text, alphabet, behavior, last, bits) == Outcome(Decoded(text[..k], alphabet, behavior, last, bits).bytes, false)
    decreases k
  {
    hide ByteOf, ValueOf;
    if k > 0 {
      var x := ValueOf(alphabet, text[0]);
      assert text[..k][1..] == text[1..][..k - 1] && text[..k + 1][1..] == text[1..][..k];
      ErrorKeepsBytes(text[1..], x.alphabet, behavior, x.value, if bits == 0 then 6 else bits - 2, k - 1);
    }
  }

  /** The byte zero. */
  lemma ZeroByte()
    ensures Encoded([0], false) == [65, 65, 61, 61] && Char(65) == 'A' && Char(61) == '='
  {
  }
}
