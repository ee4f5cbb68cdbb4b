/**
 A minimum above the maximum, which a schema can give, json-schema-to-grammar.cpp:945-960. No integer
 is in between, but the closed-interval grammar is not always empty: the ranges of digits are built
 from the two numerals as if the lower one came first.
 */
module IntegerContradiction {
  import opened CommonStrings
  import opened Gbnf
  import opened Decimals
  import opened IntegerRange
  import opened IntegerGrammar
  import opened IntegerHalfLines
  import IntegerSentinel

  // ---- ranges of digits ----

  lemma {:induction false} PrefixReaches(a: string, b: string, k: nat)
    requires k <= |a| && k <= |b| && a[..k] == b[..k]
    ensures CommonPrefix(a, b) >= k
  {
    assert forall j :: 0 <= j < k ==> a[j] == a[..k][j] && b[j] == b[..k][j];
  }

  lemma {:induction false} UniformOf(from: string, to: string, i: nat)
    requires AllDigits(from) && AllNumeral(to) && i == CommonPrefix(from, to) && i < |from| && i < |to|
    ensures i == 0 ==> UniformRange(from, to) == Fork(from, to)
    ensures i > 0 ==> UniformRange(from, to) == Cat(Word(from[..i]), Fork(from[i..], to[i..]))
  {
  }

  /** What a fork accepts stands behind the common beginning. */
  lemma {:induction false} UniformAccepts(from: string, to: string, i: nat, t: string)
    requires AllDigits(from) && AllNumeral(to) && i == CommonPrefix(from, to) && i < |from| && i < |to|
    ensures Accepts(UniformRange(from, to), from[..i] + t) <==> Accepts(Fork(from[i..], to[i..]), t)
  {
    hide Accepts, UniformRange, Fork;
    UniformOf(from, to, i);
    if i == 0 {
      assert from[..0] + t == t && from[0..] == from && to[0..] == to;
    } else {
      CatWord(from[..i], Fork(from[i..], to[i..]), from[..i] + t);
      assert (from[..i] + t)[i..] == t;
    }
  }

  /** The range from zeros to anything no longer is not empty. */
  lemma {:induction false} FromZeros(n: nat, to: string) returns (s: string)
    requires AllDigits(to) && |to| <= n
    ensures Accepts(UniformRange(Repeated('0', n), to), s)
    decreases n
  {
    hide Accepts, Fork, UniformRange;
    var from := Repeated('0', n);
    var i := CommonPrefix(from, to);
    if i == n || i == |to| {
      s := from[..i];
      WholePrefix(from, to);
    } else {
      var rest: string;
      if i + 1 == n {
        rest := "0";
        ForkShort(from[i..], to[i..]);
      } else {
        var tail := FromZeros(n - i - 1, to[i + 1..]);
        assert from[i..][1..] == Repeated('0', n - i - 1) && to[i..][1..] == to[i + 1..];
        rest := [to[i]] + tail;
        ForkZeros(from[i..], to[i..], tail);
      }
      UniformAccepts(from, to, i, rest);
      s := from[..i] + rest;
    }
  }

  lemma {:induction false} WholePrefix(from: string, to: string)
    requires AllDigits(from) && AllNumeral(to)
    requires CommonPrefix(from, to) == |from| || CommonPrefix(from, to) == |to|
    ensures Accepts(UniformRange(from, to), from[..CommonPrefix(from, to)])
  {
  }

  lemma {:induction false} ForkShort(from: string, to: string)
    requires |from| == 1 && from[0] == '0' && to != "" && AllDigits(from) && AllNumeral(to) && '0' <= to[0]
    ensures Accepts(Fork(from, to), "0")
  {
  }

  /** With zeros behind the first digit of the lower bound there is the branch for the first one of the upper bound. */
  lemma {:induction false} ForkZeros(from: string, to: string, tail: string)
    requires |from| > 1 && to != "" && AllDigits(from) && AllNumeral(to) && from[1..] == Repeated('0', |from| - 1)
    requires Accepts(UniformRange(Repeated('0', |from| - 1), to[1..]), tail)
    ensures Accepts(Fork(from, to), [to[0]] + tail)
  {
    hide Accepts, UniformRange, MoreDigits, Digits;
    var (f, t, n) := (from[0], to[0], |from| - 1);
    var last := Cat(Digits(t, t), UniformRange(Repeated('0', n), to[1..]));
    DigitsCat(t, t, UniformRange(Repeated('0', n), to[1..]), [t] + tail);
    AltAccepts(Cat(Digits(f, Pred(t)), MoreDigits(n, n)), last, [t] + tail);
    assert Fork(from, to) == Alt(Cat(Digits(f, Pred(t)), MoreDigits(n, n)), last);
  }

  /** Otherwise the lower bound itself is accepted. */
  lemma {:induction false} ForkLower(from: string, to: string)
    requires |from| > 1 && to != "" && AllDigits(from) && AllNumeral(to) && from[1..] != Repeated('0', |from| - 1)
    ensures Accepts(Fork(from, to), from)
  {
    hide Accepts, UniformRange, MoreDigits, Digits, LexLe;
    var (f, n) := (from[0], |from| - 1);
    var nines := Repeated('9', n);
    NinesGreatest(from[1..]);
    LexRefl(from[1..]);
    UniformRangeExact(from[1..], nines, from[1..]);
    var first := Cat(Digits(f, f), UniformRange(from[1..], nines));
    DigitsCat(f, f, UniformRange(from[1..], nines), from);
    FirstOf(from, to, first);
  }

  lemma {:induction false} FirstOf(from: string, to: string, first: Gram<char>)
    requires |from| > 1 && to != "" && AllDigits(from) && AllNumeral(to) && from[1..] != Repeated('0', |from| - 1)
    requires first == Cat(Digits(from[0], from[0]), UniformRange(from[1..], Repeated('9', |from| - 1))) && Accepts(first, from)
    ensures Accepts(Fork(from, to), from)
  {
    hide UniformRange, MoreDigits, Digits;
  }

  lemma ForkSome(from: string, to: string) returns (s: string)
    requires 1 < |from| && 0 < |to| <= |from| && AllDigits(from) && AllNumeral(to) && AllDigits(to[1..])
    ensures Accepts(Fork(from, to), s)
  {
    hide Accepts, Fork, UniformRange;
    if from[1..] == Repeated('0', |from| - 1) {
      var tail := FromZeros(|from| - 1, to[1..]);
      s := [to[0]] + tail;
      ForkZeros(from, to, tail);
    } else {
      s := from;
      ForkLower(from, to);
    }
  }

  /** Only the last characters differ. */
  predicate LastDiffers(from: string, to: string) {
    |from| == |to| > 0 && CommonPrefix(from, to) == |from| - 1
  }

  /** A range down to a bound no longer is empty only if the last characters alone differ. */
  lemma UniformSome(from: string, to: string) returns (s: string)
    requires to != "" && |to| <= |from| && AllDigits(from) && AllNumeral(to) && AllDigits(to[1..]) && !LastDiffers(from, to)
    ensures Accepts(UniformRange(from, to), s)
  {
    hide Accepts, Fork, UniformRange;
    var i := CommonPrefix(from, to);
    if i == |from| || i == |to| {
      s := from[..i];
      WholePrefix(from, to);
    } else {
      var tail := ForkSome(from[i..], to[i..]);
      UniformAccepts(from, to, i, tail);
      s := from[..i] + tail;
    }
  }

  lemma {:induction false} UniformNone(from: string, to: string, s: string)
    requires AllDigits(from) && AllNumeral(to) && LastDiffers(from, to) && from[|from| - 1] > to[|from| - 1]
    ensures !Accepts(UniformRange(from, to), s)
  {
    hide Accepts, Fork;
    var i := |from| - 1;
    UniformOf(from, to, i);
    assert from[..0] == "" && from[0..] == from && to[0..] == to;
    CatWord(from[..i], Fork(from[i..], to[i..]), s);
    ForkNone(from[i..], to[i..], if |s| >= i then s[i..] else s);
    ForkNone(from[i..], to[i..], s);
  }

  lemma {:induction false} ForkNone(from: string, to: string, s: string)
    requires |from| == |to| == 1 && AllDigits(from) && AllNumeral(to) && from[0] > to[0]
    ensures !Accepts(Fork(from, to), s)
  {
  }

  /** With bounds of one length in the wrong order: what goes on from the beginning of the one, up or down. */
  ghost predicate AtTheEnds(from: string, to: string, i: nat, s: string)
    requires |from| == |to| && i < |from|
  {
    && |s| == |from| && s[..i] == from[..i] && AllDigits(s[i + 1..])
    && if s[i] == from[i] && from[i + 1..] != Repeated('0', |from| - i - 1) then LexLe(from[i + 1..], s[i + 1..])
       else s[i] == to[i] && LexLe(s[i + 1..], to[i + 1..])
  }

  lemma {:induction false} ForkWrong(from: string, to: string, s: string)
    requires |from| == |to| > 1 && AllDigits(from) && AllDigits(to) && from[0] > to[0]
    ensures Accepts(Fork(from, to), s) <==> AtTheEnds(from, to, 0, s)
  {
    hide UniformRange, MoreDigits, Accepts, Digits, LexLe, Repeated;
    var (f, t, n) := (from[0], to[0], |from| - 1);
    var (zeros, nines) := (Repeated('0', n), Repeated('9', n));
    var more := MoreDigits(n, n);
    var first := Cat(Digits(f, f), UniformRange(from[1..], nines));
    var last := Cat(Digits(t, t), UniformRange(zeros, to[1..]));
    ForkEnds(from, to, s);
    MiddleAccepts(f, Pred(t), n, s);
    AltAccepts(Cat(Digits(f, Pred(t)), more), last, s);
    AltAccepts(first, last, s);
    assert Fork(from, to) == if from[1..] == zeros then Alt(Cat(Digits(f, Pred(t)), more), last) else Alt(first, last);
  }

  lemma {:induction false} UniformWrong(from: string, to: string, s: string)
    requires |from| == |to| && AllDigits(from) && AllDigits(to) && CommonPrefix(from, to) < |from| - 1
    requires from[CommonPrefix(from, to)] > to[CommonPrefix(from, to)]
    ensures Accepts(UniformRange(from, to), s) <==> AtTheEnds(from, to, CommonPrefix(from, to), s)
  {
    hide Accepts, Fork, UniformRange, LexLe;
    var i := CommonPrefix(from, to);
    UniformOf(from, to, i);
    assert from[..0] == "" && from[0..] == from && to[0..] == to;
    CatWord(from[..i], Fork(from[i..], to[i..]), s);
    if |s| >= i && s[..i] == from[..i] {
      assert s == from[..i] + s[i..];
      UniformAccepts(from, to, i, s[i..]);
      ForkWrong(from[i..], to[i..], s[i..]);
      assert from[i..][1..] == from[i + 1..] && to[i..][1..] == to[i + 1..];
      assert |s| > i ==> s[i..][1..] == s[i + 1..];
    }
  }

  // ---- numerals ----

  lemma TailDigits(v: int)
    ensures AllNumeral(Render(v)) && Render(v) != "" && AllDigits(Render(v)[1..])
  {
    DecimalIsCanonical(if v < 0 then -v else v);
    RenderSign(v);
  }

  /** Two numerals differ in the last digit alone if and only if the numbers without it are the same. */
  lemma {:induction false} LastDiffersIff(a: nat, b: nat)
    requires a != b
    ensures LastDiffers(Decimal(a), Decimal(b)) <==> a / 10 == b / 10
    ensures a / 10 == b / 10 ==> (Decimal(a)[|Decimal(a)| - 1] > Decimal(b)[|Decimal(b)| - 1] <==> a > b)
  {
    var s, t := Decimal(a), Decimal(b);
    DecimalIsCanonical(a / 10);
    DecimalIsCanonical(b / 10);
    assert s[..|s| - 1] == if a < 10 then "" else Decimal(a / 10);
    assert t[..|t| - 1] == if b < 10 then "" else Decimal(b / 10);
    if a / 10 == b / 10 {
      assert s[|s| - 1] == DigitChar(a % 10) && t[|t| - 1] == DigitChar(b % 10);
      PrefixReaches(s, t, |s| - 1);
    }
  }

  /** Between two bounds in the wrong order, neither negative, something is accepted unless they differ in the last digit alone. */
  lemma WrongOrder(min: nat, max: nat)
    requires min > max
    ensures (exists s :: Accepts(Closed(min, max), s)) <==> min / 10 != max / 10
  {
    hide Accepts, Decimal, UniformRange;
    DecimalIsCanonical(min);
    DecimalIsCanonical(max);
    NumLeIsVal(Decimal(min), Decimal(max));
    TailDigits(max);
    LastDiffersIff(min, max);
    var from, to := Decimal(min), Decimal(max);
    assert |from| >= |to|;
    assert Closed(min, max) == UniformRange(from, to);
    if min / 10 == max / 10 {
      forall s
        ensures !Accepts(Closed(min, max), s)
      {
        UniformNone(from, to, s);
      }
    } else {
      var s := UniformSome(from, to);
    }
  }

  /** And with as many digits in both, this is what is accepted. */
  lemma {:induction false} WrongOrderAccepts(min: nat, max: nat, s: string)
    requires min > max && |Decimal(min)| == |Decimal(max)| && min / 10 != max / 10
    ensures CommonPrefix(Decimal(min), Decimal(max)) < |Decimal(min)|
    ensures Accepts(Closed(min, max), s) <==> AtTheEnds(Decimal(min), Decimal(max), CommonPrefix(Decimal(min), Decimal(max)), s)
  {
    hide Accepts, Decimal, UniformRange, LexLe;
    DecimalIsCanonical(min);
    DecimalIsCanonical(max);
    var from, to := Decimal(min), Decimal(max);
    LastDiffersIff(min, max);
    GreaterFirst(min, max);
    assert Closed(min, max) == UniformRange(from, to);
    UniformWrong(from, to, s);
  }

  lemma {:induction false} GreaterFirst(min: nat, max: nat)
    requires min > max && |Decimal(min)| == |Decimal(max)|
    ensures var i := CommonPrefix(Decimal(min), Decimal(max));
            i < |Decimal(min)| && Decimal(min)[i] > Decimal(max)[i]
  {
    hide Decimal;
    DecimalIsCanonical(min);
    DecimalIsCanonical(max);
    var from, to := Decimal(min), Decimal(max);
    var i := CommonPrefix(from, to);
    NumLeIsVal(from, to);
    NumLeIsVal(to, from);
    assert from[..|from|] == from && to[..|to|] == to;
    LexOfRest(to, from, i);
  }

  /** Nor can a bound below zero be met from above: something is always accepted. */
  lemma BelowZero(min: nat, max: int) returns (s: string)
    requires max < 0
    ensures Accepts(Closed(min, max), s)
  {
    hide Accepts, Decimal, UniformRange;
    var from, to := Decimal(min), Render(max);
    DecimalIsCanonical(min);
    TailDigits(max);
    RenderSign(max);
    if |from| < |to| {
      s := from;
      NinesGreatest(from);
      LexRefl(from);
      UniformRangeExact(from, Repeated('9', |from|), from);
      AltAccepts(UniformRange(from, Repeated('9', |from|)), LengthRanges("1" + Repeated('0', |from|), to), from);
    } else {
      NotDigit(from, to);
      s := UniformSome(from, to);
    }
  }

  lemma NotDigit(from: string, to: string)
    requires AllDigits(from) && from != "" && |to| > 1 && to[0] == '-'
    ensures !LastDiffers(from, to)
  {
    assert CommonPrefix(from, to) == 0;
  }

  lemma {:induction false} MinusSome(g: Gram<char>)
    ensures (exists s :: Accepts(Minus(g), s)) <==> exists s :: Accepts(g, s)
  {
    hide Accepts;
    if s :| Accepts(Minus(g), s) {
      MinusAccepts(g, s);
    }
    if t :| Accepts(g, t) {
      var s := "-" + t;
      assert s[1..] == t;
      MinusAccepts(g, s);
    }
  }

  function Abs(v: int): nat {
    if v < 0 then -v else v
  }

  /** Both bounds have the same sign and the same digits but for the last one. */
  predicate LastDigitOnly(min: int, max: int) {
    (min < 0 <==> max < 0) && Abs(min) / 10 == Abs(max) / 10
  }

  /** With the bounds in the wrong order something is accepted if and only if more than the last digit differs. */
  lemma {:induction false} SomethingIff(min: int, max: int)
    requires ValidBounds(min, max) && min != MIN64 && max != MAX64 && max < min
    ensures Build(min, max, DIGITS, true).Some?
    ensures (exists s :: Accepts(Build(min, max, DIGITS, true).value, s)) <==> !LastDigitOnly(min, max)
  {
    hide Accepts, Closed, Decimal;
    if min < 0 {
      assert Build(-max, -min, DIGITS, true) == Some(Closed(-max, -min));
      MinusSome(Closed(-max, -min));
      WrongOrder(-max, -min);
    } else if max < 0 {
      var s := BelowZero(min, max);
    } else {
      WrongOrder(min, max);
    }
  }

  /**
   With both bounds given, in any order, the grammar accepts exactly the numerals of the interval if and
   only if the negated lower bound is not the sentinel, and the bounds are in order or differ in the
   last digit alone.
   */
  lemma {:induction false} AnyOrderIff(min: int, max: int)
    requires ValidBounds(min, max) && min != MIN64 && max != MAX64
    ensures Build(min, max, DIGITS, true).Some?
    ensures (forall s :: Accepts(Build(min, max, DIGITS, true).value, s) <==> ClosedLanguage(min, max, s))
            <==> min != MIN64 + 1 && (min <= max || LastDigitOnly(min, max))
  {
    hide Accepts, Build, LastDigitOnly;
    if min <= max {
      IntegerSentinel.ClosedExactIff(min, max);
    } else {
      SomethingIff(min, max);
      assert forall s :: !ClosedLanguage(min, max, s);
    }
  }

  /** From 20 down to 13: what is accepted is "10" to "13". */
  lemma TwentyToThirteen()
    ensures Build(20, 13, DIGITS, true).Some? && Accepts(Build(20, 13, DIGITS, true).value, "13")
  {
    hide Accepts;
    assert Decimal(20) == "20" && Decimal(13) == "13";
    assert Repeated('0', 1) == "0";
    LexRefl("3");
    ZerosLeast("3");
    UniformRangeExact("0", "3", "3");
    assert "20"[1..] == "0" && "13"[1..] == "3";
    ForkZeros("20", "13", "3");
    assert CommonPrefix("20", "13") == 0;
    assert ['1'] + "3" == "13";
  }
}
