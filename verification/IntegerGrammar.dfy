/**
 `_build_min_max_int`: from the bounds of an integer to a grammar for its numerals. Bounds are
 64-bit integers, and the two extreme values stand for "no bound".
 */
module IntegerGrammar {
  import opened CommonStrings
  import opened Gbnf
  import opened Decimals
  import opened IntegerRange

  const MIN64: int := -0x8000_0000_0000_0000
  const MAX64: int := 0x7FFF_FFFF_FFFF_FFFF

  /** The bounds of `Build`: 64-bit values, in any order; an upper one that is negated must not overflow. */
  predicate ValidBounds(min: int, max: int) {
    MIN64 <= min <= MAX64 && MIN64 <= max <= MAX64 && (min < 0 ==> MIN64 < max)
  }

  function Order(min: int, max: int): nat {
    if min != MIN64 && max != MAX64 then (if min < 0 then 1 else 0)
    else if min != MIN64 then (if min < 0 then 3 else 0)
    else 2
  }

  function Minus(g: Gram<char>): Gram<char> {
    Cat(Word("-"), g)
  }

  /** The grammar; `None` where the source throws because it sees no bound at all. */
  function Build(min: int, max: int, decimals: nat, top: bool): (g: Option<Gram<char>>)
    requires ValidBounds(min, max)
    decreases Order(min, max), if min < 0 then 0 else min
  {
    var hasMin, hasMax := min != MIN64, max != MAX64;
    var less := if decimals - 1 > 1 then decimals - 1 else 1;
    if hasMin && hasMax then
      if min < 0 && max < 0 then
        match Build(-max, -min, decimals, true)
        case None => None
        case Some(g) => Some(Minus(g))
      else if min < 0 then
        match Build(0, -min, decimals, true)
        case None => None
        case Some(g) => Some(Alt(Minus(g), Closed(0, max)))
      else Some(Closed(min, max))
    else if hasMin then
      if min < 0 then
        match Build(MIN64, -min, decimals, false)
        case None => None
        case Some(g) => Some(Alt(Minus(g), Alt(Digits('0', '0'), Cat(Digits('1', '9'), MoreDigits(0, if decimals > 0 then decimals - 1 else 0)))))
      else if min == 0 then
        if top then Some(Alt(Digits('0', '0'), Cat(Digits('1', '9'), MoreDigits(0, less))))
        else Some(MoreDigits(1, decimals))
      else if min <= 9 then
        var c := DigitChar(min);
        var rest := Cat(Digits(c, '9'), MoreDigits(0, less));
        var start := if top then '1' else '0';
        if c > start then Some(Alt(Cat(Digits(start, Pred(c)), MoreDigits(1, less)), rest))
        else Some(rest)
      else
        var minS := Decimal(min);
        DecimalIsCanonical(min);
        StollSmaller(min);
        match Build(Stoll(minS[1..]), MAX64, less, false)
        case None => None
        case Some(g) => Some(Leading(minS[0], |minS|, less, top, g))
    else if hasMax then
      if max >= 0 then
        match Build(0, max, decimals, true)
        case None => None
        case Some(g) =>
          if top then Some(Alt(Minus(Cat(Digits('1', '9'), MoreDigits(0, less))), g)) else Some(g)
      else
        match Build(-max, MAX64, decimals, false)
        case None => None
        case Some(g) => Some(Minus(g))
    else None
  }

  /** `std::to_string`. */
  function Render(v: int): string {
    if v < 0 then "-" + Decimal(-v) else Decimal(v)
  }

  /** Between two bounds of which the lower one is not negative. */
  function Closed(min: nat, max: int): Gram<char> {
    DecimalIsCanonical(min);
    DecimalIsCanonical(if max < 0 then -max else max);
    LengthRanges(Decimal(min), Render(max))
  }

  /** The branches on the first digit of a lower bound of `len` digits; `inner` is for the rest of them. */
  function Leading(c: char, len: nat, less: nat, top: bool, inner: Gram<char>): Gram<char>
    requires IsDigit(c) && len > 0
  {
    var same := Cat(Digits(c, c), inner);
    var above := if c < '9' then Alt(same, Cat(Digits(Succ(c), '9'), MoreDigits(len - 1, less))) else same;
    if c > '1' then Alt(Cat(Digits(if top then '1' else '0', Pred(c)), MoreDigits(len, less)), above) else above
  }

  /** `stoll`: leading zeros are lost. */
  function Stoll(s: string): nat
    requires AllDigits(s)
  {
    if s == "" then 0 else 10 * Stoll(s[..|s| - 1]) + DigitValue(s[|s| - 1])
  }

  lemma {:induction false} StollIsVal(s: string)
    requires AllDigits(s)
    ensures Stoll(s) == Val(s)
  {
    if s != "" {
      StollIsVal(s[..|s| - 1]);
    }
  }

  lemma {:induction false} StollSmaller(min: nat)
    requires min > 9
    ensures Canonical(Decimal(min)) && |Decimal(min)| > 1 && Stoll(Decimal(min)[1..]) < min
  {
    DecimalIsCanonical(min);
    var s := Decimal(min);
    StollIsVal(s[1..]);
    assert |s| > 1;
    LongerIsGreater(s[1..], s);
  }

  // ----- Numerals of integers

  lemma {:induction false} RenderSign(v: int)
    ensures Render(v) != "" && (Render(v)[0] == '-' <==> v < 0)
    ensures v < 0 ==> Render(v)[1..] == Decimal(-v)
  {
    DecimalIsCanonical(if v < 0 then -v else v);
  }

  lemma RenderInjective(v: int, w: int)
    requires Render(v) == Render(w)
    ensures v == w
  {
    RenderSign(v);
    RenderSign(w);
    DecimalIsCanonical(if v < 0 then -v else v);
    DecimalIsCanonical(if w < 0 then -w else w);
  }

  lemma {:induction false} MinusAccepts(g: Gram<char>, s: string)
    ensures Accepts(Minus(g), s) <==> s != "" && s[0] == '-' && Accepts(g, s[1..])
  {
    CatWord("-", g, s);
    if s != "" {
      assert s[..1] == [s[0]];
    }
  }

  /** The strings accepted between two bounds are the numerals of the numbers between them. */
  lemma {:induction false} ClosedExact(min: nat, max: nat, s: string)
    requires min <= max
    ensures Accepts(Closed(min, max), s) <==> exists v: nat :: min <= v <= max && s == Decimal(v)
  {
    DecimalIsCanonical(min);
    DecimalIsCanonical(max);
    NumLeIsVal(Decimal(min), Decimal(max));
    LengthRangesExact(Decimal(min), Decimal(max), s);
    if InInterval(Decimal(min), s, Decimal(max)) {
      NumLeIsVal(Decimal(min), s);
      NumLeIsVal(s, Decimal(max));
      CanonicalIsDecimal(s);
    }
    forall v: nat | min <= v <= max && s == Decimal(v)
      ensures InInterval(Decimal(min), s, Decimal(max))
    {
      DecimalIsCanonical(v);
      NumLeIsVal(Decimal(min), s);
      NumLeIsVal(s, Decimal(max));
    }
  }

  /** The numerals of a closed interval, and "-0" where the interval reaches below zero but not only there. */
  ghost predicate ClosedLanguage(min: int, max: int, s: string) {
    (exists v: int :: min <= v <= max && s == Render(v)) || (s == "-0" && min < 0 <= max)
  }

  /** For every closed interval whose lower bound is not the one that negates to a sentinel: exactly its numerals. */
  lemma {:induction false} ClosedIntervalExact(min: int, max: int, s: string)
    requires ValidBounds(min, max) && min <= max && MIN64 + 1 < min && max < MAX64
    ensures Build(min, max, 16, true).Some?
    ensures Accepts(Build(min, max, 16, true).value, s) <==> ClosedLanguage(min, max, s)
  {
    hide Accepts, LengthRanges, Closed, Decimal, Render;
    if max < 0 {
      NegativePart(-max, -min, s);
    } else {
      if min < 0 {
        NegativePart(0, -min, s);
        AltAccepts(Minus(Closed(0, -min)), Closed(0, max), s);
      }
      PositivePart(if min < 0 then 0 else min, max, s);
    }
  }

  lemma {:induction false} PositivePart(lo: nat, hi: nat, s: string)
    requires lo <= hi
    ensures Accepts(Closed(lo, hi), s) <==> exists v: int :: lo <= v <= hi && s == Render(v)
  {
    hide Accepts, Closed, Decimal, Render;
    ClosedExact(lo, hi, s);
    if Accepts(Closed(lo, hi), s) {
      var v: nat :| lo <= v <= hi && s == Decimal(v);
      RenderNat(v);
    }
    if v: int :| lo <= v <= hi && s == Render(v) {
      RenderNat(v);
      var u: nat := v;
      assert s == Decimal(u);
    }
  }

  lemma {:induction false} RenderNat(v: nat)
    ensures Render(v) == Decimal(v)
  {
    hide Decimal;
  }

  lemma {:induction false} NegativePart(lo: int, hi: int, s: string)
    requires 0 <= lo <= hi
    ensures Accepts(Minus(Closed(lo, hi)), s)
            <==> (exists v: int :: -hi <= v <= -lo && v < 0 && s == Render(v)) || (lo == 0 && s == "-0")
  {
    hide Accepts, Closed, Decimal;
    MinusAccepts(Closed(lo, hi), s);
    ZeroNumeral();
    if Accepts(Minus(Closed(lo, hi)), s) {
      ClosedExact(lo, hi, s[1..]);
      assert s == "-" + s[1..];
      var u: nat :| lo <= u <= hi && s[1..] == Decimal(u);
      if u > 0 {
        var v: int := 0 - (u as int);
        assert s == Render(v);
      }
    }
    if lo == 0 && s == "-0" {
      assert s[1..] == Decimal(0);
      ClosedExact(lo, hi, s[1..]);
    }
    forall v: int | -hi <= v <= -lo && v < 0 && s == Render(v)
      ensures Accepts(Minus(Closed(lo, hi)), s)
    {
      RenderSign(v);
      var u: nat := -v;
      assert s[1..] == Decimal(u);
      ClosedExact(lo, hi, s[1..]);
    }
  }

  lemma ZeroNumeral()
    ensures Decimal(0) == "0"
  {
  }
}
