/**
 The lowest lower bound but one negates to the value that stands for "no upper bound". With that
 bound, and any upper bound, the closed-interval grammar is wrong.
 */
module IntegerSentinel {
  import opened CommonStrings
  import opened Gbnf
  import opened Decimals
  import opened IntegerRange
  import opened IntegerGrammar
  import opened IntegerHalfLines

  const GREATEST := "9223372036854775807"

  lemma Snoc(n: nat, d: nat, s: string, t: string)
    requires n > 0 && d <= 9 && Decimal(n) == s && t == s + [DigitChar(d)]
    ensures Decimal(10 * n + d) == t
  {
    LastDigit(n, d);
  }

  lemma GreatestNumeral()
    ensures Decimal(MAX64) == GREATEST
  {
    hide Decimal;
    FirstThirteen();
    Snoc(9223372036854, 7, "9223372036854", "92233720368547");
    Snoc(92233720368547, 7, "92233720368547", "922337203685477");
    Snoc(922337203685477, 5, "922337203685477", "9223372036854775");
    Snoc(9223372036854775, 8, "9223372036854775", "92233720368547758");
    Snoc(92233720368547758, 0, "92233720368547758", "922337203685477580");
    Snoc(922337203685477580, 7, "922337203685477580", "9223372036854775807");
  }

  lemma FirstSeven()
    ensures Decimal(9223372) == "9223372"
  {
    assert Decimal(9) == "9";
    hide Decimal;
    Snoc(9, 2, "9", "92");
    Snoc(92, 2, "92", "922");
    Snoc(922, 3, "922", "9223");
    Snoc(9223, 3, "9223", "92233");
    Snoc(92233, 7, "92233", "922337");
    Snoc(922337, 2, "922337", "9223372");
  }

  lemma FirstThirteen()
    ensures Decimal(9223372036854) == "9223372036854"
  {
    hide Decimal;
    FirstSeven();
    Snoc(9223372, 0, "9223372", "92233720");
    Snoc(92233720, 3, "92233720", "922337203");
    Snoc(922337203, 6, "922337203", "9223372036");
    Snoc(9223372036, 8, "9223372036", "92233720368");
    Snoc(92233720368, 5, "92233720368", "922337203685");
    Snoc(922337203685, 4, "922337203685", "9223372036854");
  }

  lemma BuildLeading(m: nat, decimals: nat, top: bool)
    requires 9 < m <= MAX64
    ensures var ms := Decimal(m);
            && Canonical(ms) && |ms| > 1 && ms[0] != '0' && Stoll(ms[1..]) < m
            && var less := if decimals - 1 > 1 then decimals - 1 else 1;
               && Build(Stoll(ms[1..]), MAX64, less, false).Some?
               && Build(m, MAX64, decimals, top)
                  == Some(Leading(ms[0], |ms|, less, top, Build(Stoll(ms[1..]), MAX64, less, false).value))
  {
    StollSmaller(m);
    DecimalIsCanonical(m);
    BuildsInner(m, decimals);
  }

  ghost predicate NotExact(min: int, max: int)
    requires ValidBounds(min, max)
  {
    var g := Build(min, max, DIGITS, true);
    g.Some? && exists s :: !(Accepts(g.value, s) <==> ClosedLanguage(min, max, s))
  }

  /** A positive numeral in the interval, with a minus sign, belongs to the language; outside it does not. */
  lemma {:induction false} NegatedNumeral(max: int, t: string)
    requires MIN64 + 1 <= max < 0 && Canonical(t) && Val(t) > 0
    ensures ClosedLanguage(MIN64 + 1, max, "-" + t) <==> 0 - max <= Val(t) <= MAX64
  {
    var s := "-" + t;
    assert s[1..] == t;
    CanonicalIsDecimal(t);
    var w: int := 0 - Val(t);
    assert s == Render(w);
    forall v: int | s == Render(v)
      ensures v == w
    {
      RenderInjective(v, w);
    }
  }

  /** A numeral on which a grammar for the numbers from `m` to the greatest errs. */
  ghost predicate Errs(m: nat, g: Gram<char>, t: string) {
    Canonical(t) && Val(t) > 0 && !(Accepts(g, t) <==> m <= Val(t) <= MAX64)
  }

  /** A numeral of eighteen digits that begins otherwise than the bound, or of twenty-one. */
  lemma ErrsAlways(m: nat) returns (t: string)
    requires 0 < m <= MAX64
    ensures Build(m, MAX64, DIGITS, true).Some?
    ensures Errs(m, Build(m, MAX64, DIGITS, true).value, t)
  {
    hide Accepts, Leading, Stoll, Decimal, MoreLimit;
    var ms := Decimal(m);
    DecimalIsCanonical(m);
    DecimalIsCanonical(MAX64);
    GreatestNumeral();
    NumLeIsVal(ms, GREATEST);
    var long := |ms| > 16 || (|ms| == 16 && ms[0] != '1');
    t := (if ms[0] == '1' then "2" else "1") + Repeated('0', if long then 20 else 17);
    NumLeIsVal(ms, t);
    NumLeIsVal(t, GREATEST);
    ValPositive(t);
    if m > 9 {
      BuildLeading(m, DIGITS, true);
      var inner := Build(Stoll(ms[1..]), MAX64, DIGITS - 1, false).value;
      LeadingReads(ms[0], |ms|, DIGITS - 1, true, inner, t);
      MoreLimitIs(|ms|, DIGITS - 1);
      MoreLimitIs(|ms| - 1, DIGITS - 1);
    } else {
      OneDigitNumerals(m);
      DigitRejects(m, t);
    }
  }

  lemma {:induction false} OneDigitNumerals(m: nat)
    requires m <= 9
    ensures |Decimal(m)| == 1
  {
  }

  lemma {:induction false} DigitRejects(m: nat, t: string)
    requires 0 < m <= 9 && |t| > DIGITS
    ensures Build(m, MAX64, DIGITS, true).Some?
    ensures !Accepts(Build(m, MAX64, DIGITS, true).value, t)
  {
    hide Accepts, MoreDigits, Digits;
    var c := DigitChar(m);
    RangeThenMore('1', Pred(c), 1, 15, t);
    RangeThenMore(c, '9', 0, 15, t);
    AltAccepts(Cat(Digits('1', Pred(c)), MoreDigits(1, 15)), Cat(Digits(c, '9'), MoreDigits(0, 15)), t);
  }

  lemma SentinelNegative(max: int)
    requires MIN64 + 1 <= max < 0
    ensures NotExact(MIN64 + 1, max)
  {
    var m: nat := -max;
    assert Build(MIN64 + 1, max, DIGITS, true)
           == match Build(m, MAX64, DIGITS, true) { case None => None case Some(g) => Some(Minus(g)) };
    hide Build, Accepts, Decimal, ClosedLanguage;
    var t := ErrsAlways(m);
    NegatedNumeral(max, t);
    var g, s := Build(m, MAX64, DIGITS, true).value, "-" + t;
    MinusAccepts(g, s);
    assert s[1..] == t;
    assert !(Accepts(Minus(g), s) <==> ClosedLanguage(MIN64 + 1, max, s));
  }

  lemma SentinelReachesUp(max: int)
    requires 0 <= max < MAX64
    ensures NotExact(MIN64 + 1, max)
  {
    BuildsInner(0, DIGITS);
    GreatestNumeral();
    DecimalIsCanonical(MAX64);
    var s := "-" + GREATEST;
    assert s[1..] == GREATEST;
    var v: int := MIN64 + 1;
    assert s == Render(v);
    var low := Build(0, MAX64, DIGITS, true).value;
    ZeroToNines(GREATEST);
    MinusAccepts(low, s);
    ClosedExact(0, max, s);
    forall u: nat | s == Decimal(u)
      ensures false
    {
      DecimalIsCanonical(u);
    }
    AltAccepts(Minus(low), Closed(0, max), s);
    assert !(Accepts(Build(MIN64 + 1, max, DIGITS, true).value, s) <==> ClosedLanguage(MIN64 + 1, max, s));
  }

  /** With both bounds given and in order, the grammar accepts exactly the numerals of the interval if and only if the negated lower bound is not the sentinel. */
  lemma {:induction false} ClosedExactIff(min: int, max: int)
    requires ValidBounds(min, max) && min <= max && min != MIN64 && max != MAX64
    ensures Build(min, max, DIGITS, true).Some?
    ensures (forall s :: Accepts(Build(min, max, DIGITS, true).value, s) <==> ClosedLanguage(min, max, s))
            <==> min != MIN64 + 1
  {
    ThrowsIff(min, max);
    if min == MIN64 + 1 {
      if max < 0 {
        SentinelNegative(max);
      } else {
        SentinelReachesUp(max);
      }
    } else {
      forall s
        ensures Accepts(Build(min, max, DIGITS, true).value, s) <==> ClosedLanguage(min, max, s)
      {
        ClosedIntervalExact(min, max, s);
      }
    }
  }
}
