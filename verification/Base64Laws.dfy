/**
 What base64.hpp promises: decoding undoes encoding, in both alphabets and with automatic detection;
 which texts decode at all; and how much comes out.
 */
module Base64Laws {
  import opened Base64

  /** Each byte is put together again from the characters that carry its bits. */
  lemma BytesBack(a: bv8, b: bv8, c: bv8)
    ensures First(a) < 64 && Second(a, b) < 64 && Third(b, c) < 64 && Fourth(c) < 64
    ensures ByteOf(First(a), Second(a, b), 6) == a
    ensures ByteOf(Second(a, b), Third(b, c), 4) == b
    ensures ByteOf(Third(b, c), Fourth(c), 2) == c
  {
  }

  /** Reading one character of the right alphabet. */
  lemma ReadAlpha(v: bv8, text: seq<bv8>, url: bool, alphabet: Alphabet, behavior: Behavior, last: bv8, bits: bv8)
    returns (next: Alphabet)
    requires v < 64 && Suits(alphabet, url) && IsBits(bits)
    ensures Suits(next, url)
    ensures var now := Decoded([Alpha(url, v)] + text, alphabet, behavior, last, bits);
            if bits == 0 then now == Decoded(text, next, behavior, v, 6)
            else
              var rest := Decoded(text, next, behavior, v, bits - 2);
              now == Outcome([ByteOf(last, v, bits)] + rest.bytes, rest.ok)
  {
    ValueOfAlpha(alphabet, url, v);
    hide Alpha, ValueOf, ByteOf;
    next := ValueOf(alphabet, Alpha(url, v)).alphabet;
    assert ([Alpha(url, v)] + text)[1..] == text;
  }

  lemma {:induction false} DecodedEnd(alphabet: Alphabet, behavior: Behavior, last: bv8)
    ensures Decoded([], alphabet, behavior, last, 0) == Outcome([], true)
  {
  }

  lemma {:induction false} ReadPads(text: seq<bv8>, alphabet: Alphabet, behavior: Behavior, last: bv8, bits: bv8)
    requires text == [PAD] || text == [PAD, PAD]
    requires IsBits(bits)
    ensures Decoded(text, alphabet, behavior, last, bits) == Outcome([], true)
  {
    assert text[1..] == [] || text[1..] == [PAD];
  }

  /** Decoding undoes encoding, for every byte string and every alphabet that suits it. */
  lemma {:induction false} RoundTrip(s: seq<bv8>, url: bool, alphabet: Alphabet, behavior: Behavior, last: bv8)
    requires Suits(alphabet, url)
    ensures Decoded(Encoded(s, url), alphabet, behavior, last, 0) == Outcome(s, true)
    decreases |s|
  {
    hide Decoded, Alpha, First, Second, Third, Fourth, ByteOf, Encoded, Suits;
    if s == [] {
      EncodedEnd(url);
      DecodedEnd(alphabet, behavior, last);
    } else if |s| < 3 {
      ShortRoundTrip(s, url, alphabet, behavior, last);
    } else {
      EncodedGroup(s, url);
      var next := ReadGroup(s[0], s[1], s[2], Encoded(s[3..], url), url, alphabet, behavior, last);
      RoundTrip(s[3..], url, next, behavior, Fourth(s[2]));
    }
  }

  lemma {:induction false} EncodedGroup(s: seq<bv8>, url: bool)
    requires |s| >= 3
    ensures Encoded(s, url)
            == [Alpha(url, First(s[0])), Alpha(url, Second(s[0], s[1])), Alpha(url, Third(s[1], s[2])), Alpha(url, Fourth(s[2]))]
               + Encoded(s[3..], url)
    ensures [s[0], s[1], s[2]] + s[3..] == s
  {
    hide Alpha, First, Second, Third, Fourth;
  }

  lemma ReadGroup(a: bv8, b: bv8, c: bv8, rest: seq<bv8>, url: bool, alphabet: Alphabet, behavior: Behavior, last: bv8)
    returns (next: Alphabet)
    requires Suits(alphabet, url)
    ensures Suits(next, url)
    ensures var r := Decoded(rest, next, behavior, Fourth(c), 0);
            Decoded([Alpha(url, First(a)), Alpha(url, Second(a, b)), Alpha(url, Third(b, c)), Alpha(url, Fourth(c))] + rest,
                    alphabet, behavior, last, 0)
            == Outcome([a, b, c] + r.bytes, r.ok)
  {
    hide Decoded, Alpha, First, Second, Third, Fourth, ByteOf, Suits;
    BytesBack(a, b, c);
    var w0, w1, w2, w3 := Alpha(url, First(a)), Alpha(url, Second(a, b)), Alpha(url, Third(b, c)), Alpha(url, Fourth(c));
    var t3 := [w3] + rest;
    var t2 := [w2] + t3;
    var t1 := [w1] + t2;
    var a1 := ReadAlpha(First(a), t1, url, alphabet, behavior, last, 0);
    var a2 := ReadAlpha(Second(a, b), t2, url, a1, behavior, First(a), 6);
    var a3 := ReadAlpha(Third(b, c), t3, url, a2, behavior, Second(a, b), 4);
    next := ReadAlpha(Fourth(c), rest, url, a3, behavior, Third(b, c), 2);
    var r := Decoded(rest, next, behavior, Fourth(c), 0).bytes;
    assert [a] + ([b] + ([c] + r)) == [a, b, c] + r;
    assert [w0] + t1 == [w0, w1, w2, w3] + rest;
  }

  lemma {:induction false} ShortRoundTrip(s: seq<bv8>, url: bool, alphabet: Alphabet, behavior: Behavior, last: bv8)
    requires Suits(alphabet, url) && 1 <= |s| <= 2
    ensures Decoded(Encoded(s, url), alphabet, behavior, last, 0) == Outcome(s, true)
  {
    hide Decoded, Alpha, First, Second, Third, Fourth, ByteOf, Suits, Encoded;
    var a, b := s[0], if |s| == 2 then s[1] else 0;
    EncodedStep(s, 0, url);
    assert s[0..] == s;
    BytesBack(a, b, 0);
    var w0, w1, w2 := Alpha(url, First(a)), Alpha(url, Second(a, b)), Alpha(url, Third(b, 0));
    if |s| == 1 {
      var a1 := ReadAlpha(First(a), [w1] + [PAD, PAD], url, alphabet, behavior, last, 0);
      var a2 := ReadAlpha(Second(a, b), [PAD, PAD], url, a1, behavior, First(a), 6);
      ReadPads([PAD, PAD], a2, behavior, Second(a, b), 4);
      assert [w0] + ([w1] + [PAD, PAD]) == [w0, w1, PAD, PAD];
      assert [a] + [] == s;
    } else {
      var a1 := ReadAlpha(First(a), [w1] + ([w2] + [PAD]), url, alphabet, behavior, last, 0);
      var a2 := ReadAlpha(Second(a, b), [w2] + [PAD], url, a1, behavior, First(a), 6);
      var a3 := ReadAlpha(Third(b, 0), [PAD], url, a2, behavior, Second(a, b), 4);
      ReadPads([PAD], a3, behavior, Third(b, 0), 2);
      assert [w0] + ([w1] + ([w2] + [PAD])) == [w0, w1, w2, PAD];
      assert [a] + ([b] + []) == s;
    }
  }

  /** Different bytes have different texts. */
  lemma {:induction false} EncodedInjective(s: seq<bv8>, t: seq<bv8>, url: bool)
    requires Encoded(s, url) == Encoded(t, url)
    ensures s == t
  {
    RoundTrip(s, url, Auto, Loose, 0);
    RoundTrip(t, url, Auto, Loose, 0);
  }

  // ---- which texts decode ----

  /** Where the padding starts. */
  function BodyLength(text: seq<bv8>): (n: nat)
    ensures n <= |text| && (n < |text| ==> text[n] == PAD) && forall i :: 0 <= i < n ==> text[i] != PAD
  {
    if text == [] || text[0] == PAD then 0 else 1 + BodyLength(text[1..])
  }

  /** A character of the one alphabet or the other. */
  predicate InAlphabet(url: bool, c: bv8) {
    ValueOf(if url then Url else Standard, c).Sextet?
  }

  ghost predicate AllIn(url: bool, text: seq<bv8>) {
    forall i :: 0 <= i < |text| ==> InAlphabet(url, text[i])
  }

  /** All of the text is in one alphabet that may be read with `alphabet`. */
  ghost predicate Readable(alphabet: Alphabet, text: seq<bv8>) {
    (Suits(alphabet, false) && AllIn(false, text)) || (Suits(alphabet, true) && AllIn(true, text))
  }

  lemma ReadableNothing(alphabet: Alphabet)
    ensures Readable(alphabet, [])
  {
    assert Suits(alphabet, alphabet.Url?);
  }

  lemma ReadableCons(alphabet: Alphabet, text: seq<bv8>)
    requires text != []
    ensures var x := ValueOf(alphabet, text[0]);
            Readable(alphabet, text) <==> x.Sextet? && Readable(x.alphabet, text[1..])
  {
    var c, x := text[0], ValueOf(alphabet, text[0]);
    AllInCons(false, text);
    AllInCons(true, text);
    OneAlphabet(alphabet, c);
    hide ValueOf, AllIn;
  }

  lemma AllInCons(url: bool, text: seq<bv8>)
    requires text != []
    ensures AllIn(url, text) <==> InAlphabet(url, text[0]) && AllIn(url, text[1..])
  {
    hide InAlphabet;
    if AllIn(url, text) {
      assert forall i :: 0 <= i < |text[1..]| ==> text[1..][i] == text[i + 1];
    }
    if InAlphabet(url, text[0]) && AllIn(url, text[1..]) {
      assert forall i :: 0 < i < |text| ==> text[i] == text[1..][i - 1];
    }
  }

  /** What a character leaves open: the alphabets that suited before and hold it. */
  lemma OneAlphabet(alphabet: Alphabet, c: bv8)
    ensures var x := ValueOf(alphabet, c);
            if x.Sextet? then forall url :: Suits(x.alphabet, url) <==> Suits(alphabet, url) && InAlphabet(url, c)
            else forall url :: Suits(alphabet, url) ==> !InAlphabet(url, c)
  {
  }

  /**
   A text decodes without an error exactly when what is before the padding is in one alphabet, the
   wanted one if one is wanted, and, unless padding is loose, only padding follows.
   */
  lemma {:induction false} DecodesIff(text: seq<bv8>, alphabet: Alphabet, behavior: Behavior, last: bv8, bits: bv8)
    requires IsBits(bits)
    ensures var n := BodyLength(text);
            Decoded(text, alphabet, behavior, last, bits).ok
            <==> Readable(alphabet, text[..n]) && (n < |text| ==> PaddingFine(text[n + 1..], behavior))
    decreases |text|
  {
    hide ByteOf, ValueOf, PaddingFine, Readable;
    var n := BodyLength(text);
    if n == 0 {
      ReadableNothing(alphabet);
    } else {
      ReadableCons(alphabet, text[..n]);
      assert text[..n][1..] == text[1..][..n - 1] && BodyLength(text[1..]) == n - 1;
      assert n < |text| ==> text[1..][n - 1 + 1..] == text[n + 1..];
      var x := ValueOf(alphabet, text[0]);
      if x.Sextet? {
        DecodesIff(text[1..], x.alphabet, behavior, x.value, if bits == 0 then 6 else bits - 2);
      }
    }
  }

  function MaxDecodeSize(size: nat): nat {
    (size / 4 + if size % 4 != 0 then 1 else 0) * 3
  }

  /** How many of four characters are already read, by the bits left over. */
  function Phase(bits: bv8): nat
    requires IsBits(bits)
  {
    if bits == 0 then 0 else if bits == 6 then 1 else if bits == 4 then 2 else 3
  }

  /** A text that decodes gives one byte for every eight bits its characters carry. */
  lemma {:induction false} DecodedLength(text: seq<bv8>, alphabet: Alphabet, behavior: Behavior, last: bv8, bits: bv8)
    requires IsBits(bits) && Decoded(text, alphabet, behavior, last, bits).ok
    ensures |Decoded(text, alphabet, behavior, last, bits).bytes|
            == 6 * (BodyLength(text) + Phase(bits)) / 8 - 6 * Phase(bits) / 8
    decreases |text|
  {
    hide ByteOf, ValueOf, PaddingFine;
    if BodyLength(text) != 0 {
      var x := ValueOf(alphabet, text[0]);
      DecodedLength(text[1..], x.alphabet, behavior, x.value, if bits == 0 then 6 else bits - 2);
    }
  }

  /** The room `max_decode_size` reserves is enough. */
  lemma {:induction false} DecodedFits(text: seq<bv8>, alphabet: Alphabet, behavior: Behavior)
    requires Decoded(text, alphabet, behavior, 0, 0).ok
    ensures |Decoded(text, alphabet, behavior, 0, 0).bytes| <= MaxDecodeSize(|text|)
  {
    DecodedLength(text, alphabet, behavior, 0, 0);
  }
}
