/**
 The grammar for a range of integers with two bounds: numerals of equal length first, then every
 length between the lengths of the bounds.
 */
module IntegerRange {
  import opened CommonStrings
  import opened Gbnf
  import opened Decimals
  import Repetition

  predicate InRange(c: char, lo: char, hi: char) {
    lo <= c <= hi
  }

  function Digits(lo: char, hi: char): Gram<char> {
    In(set c: char | InRange(c, lo, hi))
  }

  /** `more_digits`, as the grammar parser reads it. */
  function MoreDigits(min: nat, max: nat): Gram<char> {
    Repetition.Braces(Digits('0', '9'), min, Some(max))
  }

  /** How many digits that is at most; with a maximum below the minimum the difference wraps around. */
  function MoreLimit(min: nat, max: nat): nat {
    min + Repetition.Optional(min, max)
  }

  lemma MoreLimitIs(min: nat, max: nat)
    ensures min <= max < Repetition.SIZE_LIMIT || min == max ==> MoreLimit(min, max) == max
    ensures max < min < Repetition.SIZE_LIMIT ==> MoreLimit(min, max) == Repetition.SIZE_LIMIT + max
  {
    var d := max - min;
    if max < min < Repetition.SIZE_LIMIT {
      assert d == -1 * Repetition.SIZE_LIMIT + (Repetition.SIZE_LIMIT + d);
    }
  }

  /** A digit, or a minus sign. */
  predicate IsNumeralChar(c: char) {
    '-' <= c <= '9'
  }

  ghost predicate AllNumeral(s: string) {
    forall i :: 0 <= i < |s| ==> IsNumeralChar(s[i])
  }

  function Pred(c: char): char
    requires IsNumeralChar(c)
  {
    (c as int - 1) as char
  }

  function Succ(c: char): char
    requires IsNumeralChar(c)
  {
    (c as int + 1) as char
  }

  function CommonPrefix(a: string, b: string): (i: nat)
    ensures i <= |a| && i <= |b| && a[..i] == b[..i]
    ensures i < |a| && i < |b| ==> a[i] != b[i]
  {
    if a != "" && b != "" && a[0] == b[0] then 1 + CommonPrefix(a[1..], b[1..]) else 0
  }

  /**
   `uniform_range`: meant for the strings of digits between two bounds of the same length. Bounds that
   contradict each other bring in others: the upper one may be shorter, and have a minus sign.
   */
  function UniformRange(from: string, to: string): Gram<char>
    requires AllDigits(from) && AllNumeral(to)
    decreases |from|, 1
  {
    var i := CommonPrefix(from, to);
    if i == |from| || i == |to| then Word(from[..i])
    else if i > 0 then Cat(Word(from[..i]), Fork(from[i..], to[i..]))
    else Fork(from, to)
  }

  /** The bounds differ in their first digit. */
  function Fork(from: string, to: string): Gram<char>
    requires from != "" && to != "" && AllDigits(from) && AllNumeral(to)
    decreases |from|, 0
  {
    var (f, t, n) := (from[0], to[0], |from| - 1);
    if n == 0 then Digits(f, t)
    else
      var (zeros, nines) := (Repeated('0', n), Repeated('9', n));
      var last := Cat(Digits(t, t), UniformRange(zeros, to[1..]));
      if from[1..] == zeros then
        Alt(Cat(Digits(f, Pred(t)), MoreDigits(n, n)), last)
      else
        var first := Cat(Digits(f, f), UniformRange(from[1..], nines));
        if f < Pred(t) then
          if to[1..] == nines then Alt(first, Cat(Digits(Succ(f), t), MoreDigits(n, n)))
          else Alt(first, Alt(Cat(Digits(Succ(f), Pred(t)), MoreDigits(n, n)), last))
        else Alt(first, last)
  }

  /** One range for every length from that of `minS` to that of `maxS`. */
  function LengthRanges(minS: string, maxS: string): Gram<char>
    requires AllDigits(minS) && AllNumeral(maxS)
    decreases |maxS| - |minS|
  {
    if |minS| < |maxS| then
      Alt(UniformRange(minS, Repeated('9', |minS|)), LengthRanges("1" + Repeated('0', |minS|), maxS))
    else
      UniformRange(minS, maxS)
  }

  // ----- The loops of the source

  /** The loop that finds where two bounds part. */
  method FindCommonPrefix(from: string, to: string) returns (i: nat)
    ensures i == CommonPrefix(from, to)
  {
    i := 0;
    while i < |from| && i < |to| && from[i] == to[i]
      invariant i <= |from| && i <= |to|
      invariant CommonPrefix(from, to) == i + CommonPrefix(from[i..], to[i..])
    {
      assert from[i..][1..] == from[i + 1..] && to[i..][1..] == to[i + 1..];
      i := i + 1;
    }
  }

  /** Alternatives in the order in which they are written. */
  function AltAll(alts: seq<Gram<char>>): Gram<char>
    requires alts != []
  {
    if |alts| == 1 then alts[0] else Alt(alts[0], AltAll(alts[1..]))
  }

  lemma {:induction false} AltAllLast(alts: seq<Gram<char>>, a: Gram<char>, b: Gram<char>)
    ensures AltAll(alts + [Alt(a, b)]) == AltAll(alts + [a, b])
  {
    if alts == [] {
      assert [a, b][1..] == [b] && alts + [a, b] == [a, b] && alts + [Alt(a, b)] == [Alt(a, b)];
    } else {
      assert (alts + [Alt(a, b)])[1..] == alts[1..] + [Alt(a, b)];
      assert (alts + [a, b])[1..] == alts[1..] + [a, b];
      AltAllLast(alts[1..], a, b);
    }
  }

  /** The loop over the lengths between the two bounds. */
  method CompileLengths(minS: string, maxS: string) returns (alts: seq<Gram<char>>)
    requires AllDigits(minS) && AllNumeral(maxS)
    ensures alts != [] && AltAll(alts) == LengthRanges(minS, maxS)
  {
    alts := [];
    var from := minS;
    var digits := |minS|;
    assert [LengthRanges(minS, maxS)] == alts + [LengthRanges(from, maxS)];
    while digits < |maxS|
      invariant digits == |from| && AllDigits(from)
      invariant AltAll(alts + [LengthRanges(from, maxS)]) == LengthRanges(minS, maxS)
    {
      var g := UniformRange(from, Repeated('9', digits));
      AltAllLast(alts, g, LengthRanges("1" + Repeated('0', digits), maxS));
      assert alts + [g, LengthRanges("1" + Repeated('0', digits), maxS)]
             == (alts + [g]) + [LengthRanges("1" + Repeated('0', digits), maxS)];
      alts := alts + [g];
      from := "1" + Repeated('0', digits);
      digits := digits + 1;
    }
    alts := alts + [UniformRange(from, maxS)];
  }

  // ----- Which strings are accepted

  lemma {:induction false} DigitsCat(lo: char, hi: char, g: Gram<char>, s: string)
    ensures Accepts(Cat(Digits(lo, hi), g), s) <==> s != "" && lo <= s[0] <= hi && Accepts(g, s[1..])
  {
    CatIn(Digits(lo, hi).symbols, g, s);
  }

  lemma {:induction false} MoreDigitsReads(min: nat, max: nat, s: string)
    ensures Accepts(MoreDigits(min, max), s) <==> min <= |s| <= MoreLimit(min, max) && AllDigits(s)
  {
    hide Repetition.Optional;
    RepeatIn(Digits('0', '9').symbols, min, MoreLimit(min, max), s);
  }

  lemma {:induction false} MoreDigitsAccepts(min: nat, max: nat, s: string)
    requires min <= max < Repetition.SIZE_LIMIT || min == max
    ensures Accepts(MoreDigits(min, max), s) <==> min <= |s| <= max && AllDigits(s)
  {
    MoreDigitsReads(min, max, s);
    MoreLimitIs(min, max);
  }

  ghost predicate Between(from: string, s: string, to: string) {
    |from| == |s| == |to| && AllDigits(s) && LexLe(from, s) && LexLe(s, to)
  }

  /** Bounds with a common prefix: a string between them has it too, and its rest is between the rests. */
  lemma {:induction false} SharedPrefix(from: string, to: string, s: string, i: nat)
    requires |from| == |to| == |s| && i <= |from| && from[..i] == to[..i] && AllDigits(from)
    ensures Between(from, s, to) <==> s[..i] == from[..i] && Between(from[i..], s[i..], to[i..])
    decreases i
  {
    if i == 0 {
      assert from[0..] == from && to[0..] == to && s[0..] == s;
    } else {
      assert from[0] == from[..i][0] == to[..i][0] == to[0];
      assert from[1..][..i - 1] == from[..i][1..] == to[..i][1..] == to[1..][..i - 1];
      SharedPrefix(from[1..], to[1..], s[1..], i - 1);
      assert from[1..][i - 1..] == from[i..] && to[1..][i - 1..] == to[i..] && s[1..][i - 1..] == s[i..];
      assert s[..i] == [s[0]] + s[1..][..i - 1] && from[..i] == [from[0]] + from[1..][..i - 1];
    }
  }

  lemma {:induction false} UniformRangeExact(from: string, to: string, s: string)
    requires |from| == |to| && AllDigits(from) && AllDigits(to) && LexLe(from, to)
    ensures Accepts(UniformRange(from, to), s) <==> Between(from, s, to)
    decreases |from|, 1
  {
    var i := CommonPrefix(from, to);
    if i == |from| {
      assert from[..i] == from && to[..i] == to;
      if |s| == |from| {
        SharedPrefix(from, to, s, i);
        assert s[..i] == s;
      }
    } else {
      LexOfRest(from, to, i);
      if i == 0 {
        ForkExact(from, to, s);
      } else {
        CatWord(from[..i], Fork(from[i..], to[i..]), s);
        if |s| >= i {
          ForkExact(from[i..], to[i..], s[i..]);
        }
        if |s| == |from| {
          SharedPrefix(from, to, s, i);
        }
      }
    }
  }

  lemma {:induction false} LexOfRest(from: string, to: string, i: nat)
    requires |from| == |to| && i < |from| && AllDigits(from) && AllDigits(to) && LexLe(from, to)
    requires from[..i] == to[..i] && from[i] != to[i]
    ensures from[i] < to[i] && LexLe(from[i..], to[i..])
  {
    LexRefl(to);
    SharedPrefix(from, to, to, i);
  }

  lemma {:induction false} ForkExact(from: string, to: string, s: string)
    requires |from| == |to| > 0 && AllDigits(from) && AllDigits(to) && from[0] < to[0]
    ensures Accepts(Fork(from, to), s) <==> Between(from, s, to)
    decreases |from|, 0
  {
    hide UniformRange, MoreDigits, Accepts, Digits, LexLe, Repeated;
    var (f, t, n) := (from[0], to[0], |from| - 1);
    if n == 0 {
      ForkOne(from, to, s);
    } else {
      var (zeros, nines) := (Repeated('0', n), Repeated('9', n));
      var more := MoreDigits(n, n);
      var first := Cat(Digits(f, f), UniformRange(from[1..], nines));
      var last := Cat(Digits(t, t), UniformRange(zeros, to[1..]));
      ForkEnds(from, to, s);
      ForkBetween(from, s, to);
      MiddleAccepts(f, Pred(t), n, s);
      MiddleAccepts(Succ(f), t, n, s);
      MiddleAccepts(Succ(f), Pred(t), n, s);
      AltAccepts(Cat(Digits(f, Pred(t)), more), last, s);
      AltAccepts(first, last, s);
      AltAccepts(first, Cat(Digits(Succ(f), t), more), s);
      AltAccepts(Cat(Digits(Succ(f), Pred(t)), more), last, s);
      AltAccepts(first, Alt(Cat(Digits(Succ(f), Pred(t)), more), last), s);
    }
  }

  lemma {:induction false} AltAccepts(a: Gram<char>, b: Gram<char>, s: string)
    ensures Accepts(Alt(a, b), s) <==> Accepts(a, s) || Accepts(b, s)
  {
  }

  lemma {:induction false} ForkOne(from: string, to: string, s: string)
    requires |from| == |to| == 1 && AllDigits(from) && AllDigits(to) && from[0] < to[0]
    ensures Accepts(Fork(from, to), s) <==> Between(from, s, to)
  {
    assert Fork(from, to) == Digits(from[0], to[0]);
    if |s| == 1 {
      assert from[1..] == "" && s[1..] == "" && to[1..] == "";
      assert LexLe(from, s) <==> from[0] <= s[0];
      assert LexLe(s, to) <==> s[0] <= to[0];
      assert Accepts(Digits(from[0], to[0]), s) <==> InRange(s[0], from[0], to[0]);
    }
  }

  /** The branches for the least and for the greatest first digit. */
  lemma {:induction false} ForkEnds(from: string, to: string, s: string)
    requires |from| == |to| > 1 && AllDigits(from) && AllDigits(to)
    ensures var n := |from| - 1;
            var (zeros, nines) := (Repeated('0', n), Repeated('9', n));
            && (Accepts(Cat(Digits(from[0], from[0]), UniformRange(from[1..], nines)), s)
                <==> s != "" && s[0] == from[0] && |s| == n + 1 && AllDigits(s[1..]) && LexLe(from[1..], s[1..]))
            && (Accepts(Cat(Digits(to[0], to[0]), UniformRange(zeros, to[1..])), s)
                <==> s != "" && s[0] == to[0] && |s| == n + 1 && AllDigits(s[1..]) && LexLe(s[1..], to[1..]))
    decreases |from|, 0, 0
  {
    hide UniformRange, Accepts, Digits, LexLe;
    var n := |from| - 1;
    var (zeros, nines) := (Repeated('0', n), Repeated('9', n));
    ZerosLeast(to[1..]);
    NinesGreatest(from[1..]);
    DigitsCat(from[0], from[0], UniformRange(from[1..], nines), s);
    DigitsCat(to[0], to[0], UniformRange(zeros, to[1..]), s);
    if s != "" {
      UniformRangeExact(from[1..], nines, s[1..]);
      UniformRangeExact(zeros, to[1..], s[1..]);
      if |s| == n + 1 && AllDigits(s[1..]) {
        ZerosLeast(s[1..]);
        NinesGreatest(s[1..]);
      }
    }
  }

  /** An interval whose bounds differ in the first digit, case by case; and the cases in which an end needs no comparison. */
  lemma ForkBetween(from: string, s: string, to: string)
    requires |from| == |to| > 1 && AllDigits(from) && AllDigits(to) && from[0] < to[0]
    ensures Between(from, s, to) <==>
              && |s| == |from| && AllDigits(s[1..]) && from[0] <= s[0] <= to[0]
              && (s[0] == from[0] ==> LexLe(from[1..], s[1..]))
              && (s[0] == to[0] ==> LexLe(s[1..], to[1..]))
    ensures |s| == |from| && AllDigits(s[1..]) && from[1..] == Repeated('0', |from| - 1) ==> LexLe(from[1..], s[1..])
    ensures |s| == |from| && AllDigits(s[1..]) && to[1..] == Repeated('9', |to| - 1) ==> LexLe(s[1..], to[1..])
  {
    if |s| == |from| && AllDigits(s[1..]) {
      ZerosLeast(s[1..]);
      NinesGreatest(s[1..]);
      assert s == [s[0]] + s[1..];
    }
  }

  lemma {:induction false} MiddleAccepts(lo: char, hi: char, n: nat, s: string)
    ensures Accepts(Cat(Digits(lo, hi), MoreDigits(n, n)), s)
            <==> s != "" && lo <= s[0] <= hi && |s| == n + 1 && AllDigits(s[1..])
  {
    DigitsCat(lo, hi, MoreDigits(n, n), s);
    if s != "" {
      MoreDigitsAccepts(n, n, s[1..]);
    }
  }

  // ----- A range between two numerals of any lengths

  ghost predicate InInterval(minS: string, s: string, maxS: string) {
    Canonical(s) && NumLe(minS, s) && NumLe(s, maxS)
  }

  /** Exactly the numerals, without leading zeros, between the two bounds. */
  lemma {:induction false} LengthRangesExact(minS: string, maxS: string, s: string)
    requires Canonical(minS) && Canonical(maxS) && NumLe(minS, maxS)
    ensures Accepts(LengthRanges(minS, maxS), s) <==> InInterval(minS, s, maxS)
    decreases |maxS| - |minS|
  {
    hide UniformRange, LexLe, Repeated;
    var n := |minS|;
    if n < |maxS| {
      var (nines, next) := (Repeated('9', n), "1" + Repeated('0', n));
      NinesGreatest(minS);
      UniformRangeExact(minS, nines, s);
      assert Canonical(next);
      if n + 1 == |maxS| {
        OneAndZerosLeast(maxS);
      }
      LengthRangesExact(next, maxS, s);
      AltAccepts(UniformRange(minS, nines), LengthRanges(next, maxS), s);
      if Canonical(s) && |s| == n {
        NinesGreatest(s);
      }
      if Canonical(s) && |s| == n + 1 {
        OneAndZerosLeast(s);
      }
      NoLeadingZero(minS, s);
    } else {
      UniformRangeExact(minS, maxS, s);
      NoLeadingZero(minS, s);
    }
  }

  lemma {:induction false} OneAndZerosLeast(s: string)
    requires Canonical(s) && |s| > 1
    ensures LexLe("1" + Repeated('0', |s| - 1), s)
  {
    ZerosLeast(s[1..]);
    assert ("1" + Repeated('0', |s| - 1))[1..] == Repeated('0', |s| - 1);
  }

  /** A string of digits not below a numeral of the same length has no leading zero either. */
  lemma {:induction false} NoLeadingZero(minS: string, s: string)
    requires Canonical(minS)
    ensures |s| == |minS| && AllDigits(s) && LexLe(minS, s) ==> Canonical(s)
  {
  }
}
