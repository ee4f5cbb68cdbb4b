/**
 Base64 as in sections 4 and 5 of RFC 4648, base64.hpp:79-144, 199-244 and 294-393. Bytes and
 characters are both eight bits wide, so that decoding in place is decoding into the same array.
 */
module Base64 {

  datatype Alphabet = Auto | Standard | Url

  datatype Behavior = Moderate | Loose

  const PAD: bv8 := 61

  // ---- single characters ----

  /** The character of a six-bit value: A-Z, a-z, 0-9, and two that the alphabet decides. */
  function Alpha(url: bool, v: bv8): bv8 {
    if v < 26 then v + 65
    else if v < 52 then v + 71
    else if v < 62 then v - 4
    else if v == 62 then (if url then 45 else 43)
    else if url then 95 else 47
  }

  datatype Sextet = Bad | Sextet(value: bv8, alphabet: Alphabet)

  /** The value of a character; with automatic detection the first character that tells fixes the alphabet. */
  function ValueOf(alphabet: Alphabet, c: bv8): Sextet {
    if 65 <= c <= 90 then Sextet(c - 65, alphabet)
    else if 97 <= c <= 122 then Sextet(c - 71, alphabet)
    else if 48 <= c <= 57 then Sextet(c + 4, alphabet)
    else match alphabet
      case Standard => if c == 43 then Sextet(62, alphabet) else if c == 47 then Sextet(63, alphabet) else Bad
      case Url => if c == 45 then Sextet(62, alphabet) else if c == 95 then Sextet(63, alphabet) else Bad
      case Auto =>
        if c == 43 then Sextet(62, Standard) else if c == 47 then Sextet(63, Standard)
        else if c == 45 then Sextet(62, Url) else if c == 95 then Sextet(63, Url)
        else Bad
  }

  /** A text in the one alphabet may be read with `alphabet`. */
  predicate Suits(alphabet: Alphabet, url: bool) {
    alphabet.Auto? || alphabet.Url? == url
  }

  lemma ValueOfAlpha(alphabet: Alphabet, url: bool, v: bv8)
    requires v < 64 && Suits(alphabet, url)
    ensures var x := ValueOf(alphabet, Alpha(url, v)); x.Sextet? && x.value == v && Suits(x.alphabet, url)
    ensures Alpha(url, v) != PAD
  {
  }

  // ---- encoding ----

  function First(a: bv8): bv8 { (a >> 2) & 0x3f }

  function Second(a: bv8, b: bv8): bv8 { ((a & 0x3) << 4) | ((b >> 4) & 0x0f) }

  function Third(b: bv8, c: bv8): bv8 { ((b & 0xf) << 2) | ((c >> 6) & 0x03) }

  function Fourth(c: bv8): bv8 { c & 0x3f }

  /** Three bytes to four characters; one or two at the end are padded. */
  function Encoded(s: seq<bv8>, url: bool): seq<bv8> {
    if |s| == 0 then []
    else if |s| == 1 then [Alpha(url, First(s[0])), Alpha(url, Second(s[0], 0)), PAD, PAD]
    else if |s| == 2 then
      [Alpha(url, First(s[0])), Alpha(url, Second(s[0], s[1])), Alpha(url, Third(s[1], 0)), PAD]
    else
      [Alpha(url, First(s[0])), Alpha(url, Second(s[0], s[1])), Alpha(url, Third(s[1], s[2])), Alpha(url, Fourth(s[2]))]
      + Encoded(s[3..], url)
  }

  function RequiredEncodeSize(size: nat): nat {
    (size / 3 + if size % 3 != 0 then 1 else 0) * 4
  }

  lemma {:induction false} EncodedSize(s: seq<bv8>, url: bool)
    ensures |Encoded(s, url)| == RequiredEncodeSize(|s|)
    decreases |s|
  {
    if |s| >= 3 {
      EncodedSize(s[3..], url);
    }
  }

  method Encode(s: seq<bv8>, alphabet: Alphabet) returns (out: seq<bv8>)
    ensures out == Encoded(s, alphabet.Url?) && |out| == RequiredEncodeSize(|s|)
  {
    hide Encoded, Alpha, RequiredEncodeSize, First, Second, Third, Fourth;
    EncodedSize(s, alphabet.Url?);
    out := [];
    var url := alphabet.Url?;
    var i := 0;
    assert s[0..] == s;
    while i != |s|
      invariant 0 <= i <= |s| && out + Encoded(s[i..], url) == Encoded(s, url)
      decreases |s| - i
    {
      EncodedStep(s, i, url);
      var i0 := s[i];
      i := i + 1;
      var c0 := Alpha(url, First(i0));
      if i == |s| {
        NoneFollows(i0);
        out := out + [c0, Alpha(url, (i0 & 0x3) << 4), PAD, PAD];
        return;
      }
      var i1 := s[i];
      i := i + 1;
      var c1 := Alpha(url, Second(i0, i1));
      if i == |s| {
        NoneFollows(i1);
        out := out + [c0, c1, Alpha(url, (i1 & 0xf) << 2), PAD];
        return;
      }
      var i2 := s[i];
      i := i + 1;
      out := out + [c0, c1, Alpha(url, Third(i1, i2)), Alpha(url, Fourth(i2))];
    }
    assert s[i..] == [];
    EncodedEnd(url);
  }

  lemma {:induction false} EncodedEnd(url: bool)
    ensures Encoded([], url) == []
  {
  }

  /** At the end of the bytes, zero bits fill up the last character. */
  lemma NoneFollows(a: bv8)
    ensures Second(a, 0) == (a & 0x3) << 4 && Third(a, 0) == (a & 0xf) << 2
  {
  }

  /** The characters for the bytes from `i` on. */
  lemma {:induction false} EncodedStep(s: seq<bv8>, i: nat, url: bool)
    requires i < |s|
    ensures var rest, c0 := Encoded(s[i..], url), Alpha(url, First(s[i]));
            if i + 1 == |s| then rest == [c0, Alpha(url, Second(s[i], 0)), PAD, PAD]
            else
              var c1 := Alpha(url, Second(s[i], s[i + 1]));
              if i + 2 == |s| then rest == [c0, c1, Alpha(url, Third(s[i + 1], 0)), PAD]
              else
                rest == [c0, c1, Alpha(url, Third(s[i + 1], s[i + 2])), Alpha(url, Fourth(s[i + 2]))]
                        + Encoded(s[i + 3..], url)
  {
    hide Alpha, First, Second, Third, Fourth;
    var t := s[i..];
    assert t[0] == s[i];
    assert |t| > 1 ==> t[1] == s[i + 1];
    assert |t| > 2 ==> t[2] == s[i + 2] && t[3..] == s[i + 3..];
  }

  // ---- decoding ----

  /** How far decoding got: what it wrote, and whether it came through without an error. */
  datatype Outcome = Outcome(bytes: seq<bv8>, ok: bool)

  /** What `bits` can be. */
  predicate IsBits(bits: bv8) {
    bits == 0 || bits == 2 || bits == 4 || bits == 6
  }

  /** The rest of the text after a padding character. */
  predicate PaddingFine(text: seq<bv8>, behavior: Behavior) {
    behavior.Loose? || forall i :: 0 <= i < |text| ==> text[i] == PAD
  }

  /** The `bits` bits left of the last value and the first ones of the next. */
  function ByteOf(last: bv8, next: bv8, bits: bv8): bv8
    requires IsBits(bits) && bits != 0
  {
    (last << (8 - bits)) | (next >> (bits - 2))
  }

  function Decoded(text: seq<bv8>, alphabet: Alphabet, behavior: Behavior, last: bv8, bits: bv8): Outcome
    requires IsBits(bits)
    decreases |text|
  {
    if text == [] then Outcome([], true)
    else if text[0] == PAD then Outcome([], PaddingFine(text[1..], behavior))
    else
      var x := ValueOf(alphabet, text[0]);
      if x.Bad? then Outcome([], false)
      else if bits == 0 then Decoded(text[1..], x.alphabet, behavior, x.value, 6)
      else
        var rest := Decoded(text[1..], x.alphabet, behavior, x.value, bits - 2);
        Outcome([ByteOf(last, x.value, bits)] + rest.bytes, rest.ok)
  }

  /** With `out` written and `i` characters read, the rest of the decoding completes the whole. */
  ghost predicate SoFar(text: seq<bv8>, alphabet0: Alphabet, behavior: Behavior, out: seq<bv8>,
                        i: nat, alphabet: Alphabet, last: bv8, bits: bv8)
  {
    && i <= |text| && IsBits(bits)
    && var rest := Decoded(text[i..], alphabet, behavior, last, bits);
       Decoded(text, alphabet0, behavior, 0, 0) == Outcome(out + rest.bytes, rest.ok)
  }

  lemma SoFarStart(text: seq<bv8>, alphabet0: Alphabet, behavior: Behavior)
    ensures SoFar(text, alphabet0, behavior, [], 0, alphabet0, 0, 0)
  {
    hide Decoded;
    assert text[0..] == text;
    var whole := Decoded(text, alphabet0, behavior, 0, 0);
    assert [] + whole.bytes == whole.bytes;
  }

  lemma {:induction false} SoFarStep(text: seq<bv8>, alphabet0: Alphabet, behavior: Behavior, out: seq<bv8>,
                  i: nat, alphabet: Alphabet, last: bv8, bits: bv8)
    requires i < |text| && SoFar(text, alphabet0, behavior, out, i, alphabet, last, bits)
    ensures IsBits(bits)
    ensures var whole, x := Decoded(text, alphabet0, behavior, 0, 0), ValueOf(alphabet, text[i]);
            if text[i] == PAD then whole == Outcome(out, PaddingFine(text[i + 1..], behavior))
            else if x.Bad? then whole == Outcome(out, false)
            else if bits == 0 then SoFar(text, alphabet0, behavior, out, i + 1, x.alphabet, x.value, 6)
            else SoFar(text, alphabet0, behavior, out + [ByteOf(last, x.value, bits)], i + 1, x.alphabet, x.value, bits - 2)
  {
    hide ByteOf, ValueOf, PaddingFine;
    assert text[i..][1..] == text[i + 1..] && text[i..][0] == text[i];
    assert out + [] == out;
    var x := ValueOf(alphabet, text[i]);
    if text[i] != PAD && x.Sextet? && bits != 0 {
      var b := ByteOf(last, x.value, bits);
      var rest := Decoded(text[i + 1..], x.alphabet, behavior, x.value, bits - 2);
      assert out + ([b] + rest.bytes) == out + [b] + rest.bytes;
    }
  }

  lemma {:induction false} SoFarEnd(text: seq<bv8>, alphabet0: Alphabet, behavior: Behavior, out: seq<bv8>, alphabet: Alphabet, last: bv8, bits: bv8)
    requires SoFar(text, alphabet0, behavior, out, |text|, alphabet, last, bits)
    ensures Decoded(text, alphabet0, behavior, 0, 0) == Outcome(out, PaddingFine(text[|text|..], behavior))
  {
    assert text[|text|..] == [] && out + [] == out;
  }

  lemma ByteOfShifts(last: bv8, next: bv8, bits: bv8)
    requires IsBits(bits) && bits != 0
    ensures (last << (8 - bits)) | (next >> (bits - 2)) == ByteOf(last, next, bits)
  {
  }

  lemma LooseFine(text: seq<bv8>)
    ensures PaddingFine(text, Loose)
  {
  }

  lemma NextBits(bits: bv8)
    requires IsBits(bits)
    ensures bits + 6 >= 8 <==> bits != 0
    ensures bits != 0 ==> IsBits(bits - 2)
    ensures bits == 0 ==> bits + 6 == 6
  {
  }

  method Decode(text: seq<bv8>, alphabet0: Alphabet, behavior: Behavior) returns (out: seq<bv8>, ok: bool)
    ensures Outcome(out, ok) == Decoded(text, alphabet0, behavior, 0, 0)
  {
    hide Decoded, ValueOf, ByteOf, PaddingFine, IsBits, SoFar;
    var alphabet := alphabet0;
    var last: bv8, bits: bv8 := 0, 0;
    out := [];
    var i := 0;
    SoFarStart(text, alphabet0, behavior);
    ghost var padded := false;
    while i != |text|
      invariant 0 <= i <= |text|
      invariant SoFar(text, alphabet0, behavior, out, i, alphabet, last, bits)
      decreases |text| - i
    {
      var c := text[i];
      SoFarStep(text, alphabet0, behavior, out, i, alphabet, last, bits);
      i := i + 1;
      if c == PAD {
        padded := true;
        break;
      }
      var part := ValueOf(alphabet, c);
      if part.Bad? {
        return out, false;
      }
      NextBits(bits);
      if bits + 6 >= 8 {
        ByteOfShifts(last, part.value, bits);
        out := out + [(last << (8 - bits)) | (part.value >> (bits - 2))];
        bits := bits - 2;
      } else {
        bits := bits + 6;
      }
      last, alphabet := part.value, part.alphabet;
    }
    if !padded {
      SoFarEnd(text, alphabet0, behavior, out, alphabet, last, bits);
    }
    ok := true;
    if behavior != Loose {
      ok := CheckPadding(text, i);
    }
    LooseFine(text[i..]);
  }

  /** The second loop: only padding may follow. */
  method CheckPadding(text: seq<bv8>, from: nat) returns (ok: bool)
    requires from <= |text|
    ensures ok == PaddingFine(text[from..], Moderate)
  {
    var i := from;
    while i != |text|
      invariant from <= i <= |text| && PaddingFine(text[i..], Moderate) == PaddingFine(text[from..], Moderate)
      decreases |text| - i
    {
      var c := text[i];
      if c != PAD {
        assert text[i..][0] != PAD;
        return false;
      }
      PaddingStep(text, i, Moderate);
      i := i + 1;
    }
    return true;
  }

  lemma PaddingStep(text: seq<bv8>, i: nat, behavior: Behavior)
    requires i < |text| && text[i] == PAD
    ensures PaddingFine(text[i..], behavior) <==> PaddingFine(text[i + 1..], behavior)
  {
    var a, b := text[i..], text[i + 1..];
    assert a[0] == PAD && forall k :: 0 < k < |a| ==> a[k] == b[k - 1];
    assert forall k :: 0 <= k < |b| ==> b[k] == a[k + 1];
  }

  /**
   In place: the write position never passes the read position, so what is still to be read is
   untouched, and the bytes and the error are those of decoding into a fresh buffer.
   */
  method DecodeInPlace(a: array<bv8>, alphabet0: Alphabet, behavior: Behavior) returns (n: nat, ok: bool)
    modifies a
    ensures n <= a.Length && a[n..] == old(a[n..])
    ensures Outcome(a[..n], ok) == Decoded(old(a[..]), alphabet0, behavior, 0, 0)
  {
    hide Decoded, ValueOf, ByteOf, PaddingFine, IsBits, SoFar;
    var alphabet := alphabet0;
    var last: bv8, bits: bv8 := 0, 0;
    n := 0;
    var i := 0;
    ghost var text := a[..];
    SoFarStart(text, alphabet0, behavior);
    ghost var padded := false;
    while i != a.Length
      invariant n <= i <= a.Length && a[n..] == text[n..]
      invariant SoFar(text, alphabet0, behavior, a[..n], i, alphabet, last, bits)
      decreases a.Length - i
    {
      var c := a[i];
      assert c == a[n..][i - n] == text[n..][i - n] == text[i];
      SoFarStep(text, alphabet0, behavior, a[..n], i, alphabet, last, bits);
      i := i + 1;
      if c == PAD {
        padded := true;
        break;
      }
      var part := ValueOf(alphabet, c);
      if part.Bad? {
        return n, false;
      }
      NextBits(bits);
      if bits + 6 >= 8 {
        ByteOfShifts(last, part.value, bits);
        Store(a, n, (last << (8 - bits)) | (part.value >> (bits - 2)));
        n := n + 1;
        bits := bits - 2;
      } else {
        bits := bits + 6;
      }
      last, alphabet := part.value, part.alphabet;
    }
    if !padded {
      SoFarEnd(text, alphabet0, behavior, a[..n], alphabet, last, bits);
    }
    ok := true;
    if behavior != Loose {
      ok := CheckPaddingInPlace(a, n, i, text);
    }
    LooseFine(text[i..]);
  }

  /** `*out = ...; ++out`. */
  method Store(a: array<bv8>, n: nat, value: bv8)
    requires n < a.Length
    modifies a
    ensures a[..n + 1] == old(a[..n]) + [value] && a[n + 1..] == old(a[n + 1..])
    ensures forall s: seq<bv8> :: |s| == a.Length && old(a[n..]) == s[n..] ==> a[n + 1..] == s[n + 1..]
  {
    a[n] := value;
    forall s: seq<bv8> | |s| == a.Length && old(a[n..]) == s[n..]
      ensures a[n + 1..] == s[n + 1..]
    {
      assert s[n..][1..] == s[n + 1..] && old(a[n..])[1..] == a[n + 1..];
    }
  }

  method CheckPaddingInPlace(a: array<bv8>, n: nat, from: nat, ghost text: seq<bv8>) returns (ok: bool)
    requires n <= from <= a.Length == |text| && a[n..] == text[n..]
    ensures ok == PaddingFine(text[from..], Moderate)
  {
    var i := from;
    while i != a.Length
      invariant from <= i <= a.Length && PaddingFine(text[i..], Moderate) == PaddingFine(text[from..], Moderate)
      decreases a.Length - i
    {
      var c := a[i];
      assert c == a[n..][i - n] == text[n..][i - n] == text[i];
      if c != PAD {
        assert text[i..][0] != PAD;
        return false;
      }
      PaddingStep(text, i, Moderate);
      i := i + 1;
    }
    return true;
  }
}
