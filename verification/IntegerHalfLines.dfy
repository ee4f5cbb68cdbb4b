/**
 The grammar for an integer with only one bound. It is right for some bounds and wrong for others;
 here is exactly for which.
 */
module IntegerHalfLines {
  import opened CommonStrings
  import opened Gbnf
  import opened Decimals
  import opened IntegerRange
  import opened IntegerGrammar

  const DIGITS: nat := 16

  /** Every digit of a lower bound but the last is at least 2. */
  ghost predicate InnerGood(ms: string) {
    forall i :: 0 <= i < |ms| - 1 ==> ms[i] >= '2'
  }

  /** Every digit of a lower bound but the first and the last is at least 2. */
  ghost predicate MiddleGood(ms: string) {
    forall i :: 1 <= i < |ms| - 1 ==> ms[i] >= '2'
  }

  /** Strings of digits that are not below `ms`, whose first digit is at least `lo`; leading zeros count. */
  ghost predicate AtLeast(ms: string, lo: char, s: string, decimals: nat) {
    && AllDigits(s) && s != "" && s[0] >= lo && |s| <= decimals
    && (|s| > |ms| || (|s| == |ms| && LexLe(ms, s)))
  }

  lemma {:induction false} BuildsInner(m: nat, decimals: nat)
    requires m <= MAX64
    ensures Build(m, MAX64, decimals, false).Some? && Build(m, MAX64, decimals, true).Some?
    decreases m
  {
    if m > 9 {
      StollSmaller(m);
      BuildsInner(Stoll(Decimal(m)[1..]), if decimals - 1 > 1 then decimals - 1 else 1);
    }
  }

  lemma {:induction false} RangeThenReads(lo: char, hi: char, min: nat, max: nat, s: string)
    ensures Accepts(Cat(Digits(lo, hi), MoreDigits(min, max)), s)
            <==> s != "" && lo <= s[0] <= hi && min + 1 <= |s| <= MoreLimit(min, max) + 1 && AllDigits(s[1..])
  {
    hide MoreLimit;
    DigitsCat(lo, hi, MoreDigits(min, max), s);
    if s != "" {
      MoreDigitsReads(min, max, s[1..]);
    }
  }

  lemma {:induction false} RangeThenMore(lo: char, hi: char, min: nat, max: nat, s: string)
    requires min <= max <= DIGITS
    ensures Accepts(Cat(Digits(lo, hi), MoreDigits(min, max)), s)
            <==> s != "" && lo <= s[0] <= hi && min + 1 <= |s| <= max + 1 && AllDigits(s[1..])
  {
    RangeThenReads(lo, hi, min, max, s);
    MoreLimitIs(min, max);
  }

  /** The branches of `Leading`: a smaller first digit and more digits, the same one, or a greater one. */
  lemma {:induction false} LeadingReads(c: char, len: nat, less: nat, top: bool, inner: Gram<char>, s: string)
    requires IsDigit(c) && len > 0
    ensures var lo := if top then '1' else '0';
            Accepts(Leading(c, len, less, top, inner), s)
            <==> s != ""
                 && ((c > '1' && lo <= s[0] < c && len + 1 <= |s| <= MoreLimit(len, less) + 1 && AllDigits(s[1..]))
                     || (s[0] == c && Accepts(inner, s[1..]))
                     || (c < s[0] <= '9' && len <= |s| <= MoreLimit(len - 1, less) + 1 && AllDigits(s[1..])))
  {
    hide MoreLimit;
    var lo := if top then '1' else '0';
    RangeThenReads(lo, Pred(c), len, less, s);
    RangeThenReads(Succ(c), '9', len - 1, less, s);
    DigitsCat(c, c, inner, s);
  }

  lemma {:induction false} LeadingAccepts(c: char, len: nat, less: nat, top: bool, inner: Gram<char>, s: string)
    requires IsDigit(c) && 0 < len <= less <= DIGITS
    ensures var lo := if top then '1' else '0';
            Accepts(Leading(c, len, less, top, inner), s)
            <==> s != ""
                 && ((c > '1' && lo <= s[0] < c && len + 1 <= |s| <= less + 1 && AllDigits(s[1..]))
                     || (s[0] == c && Accepts(inner, s[1..]))
                     || (c < s[0] <= '9' && len <= |s| <= less + 1 && AllDigits(s[1..])))
  {
    LeadingReads(c, len, less, top, inner, s);
    MoreLimitIs(len, less);
    MoreLimitIs(len - 1, less);
  }

  /** The comparison with a bound, by the first digit. */
  lemma AtLeastByFirst(ms: string, lo: char, s: string, decimals: nat)
    requires Canonical(ms) && |ms| > 1
    ensures AtLeast(ms, lo, s, decimals) <==>
              && s != "" && s[0] >= lo && IsDigit(s[0]) && AllDigits(s[1..])
              && (   (s[0] < ms[0] && |ms| < |s| <= decimals)
                  || (s[0] == ms[0] && decimals > 0 && AtLeast(ms[1..], '0', s[1..], decimals - 1))
                  || (s[0] > ms[0] && |ms| <= |s| <= decimals))
  {
    if s != "" {
      assert s == [s[0]] + s[1..];
    }
  }

  /** One level of the recursion, for a bound of at least two digits whose rest has no problem digit. */
  lemma {:induction false} LevelExact(m: nat, decimals: nat, top: bool, s: string)
    requires 9 < m <= MAX64
    requires InnerGood(Decimal(m)[1..]) && |Decimal(m)| < decimals <= DIGITS
    ensures Build(m, MAX64, decimals, top).Some?
    ensures var c := Decimal(m)[0];
            Accepts(Build(m, MAX64, decimals, top).value, s)
            <==> AtLeast(Decimal(m), if c > '1' then (if top then '1' else '0') else '1', s, decimals)
    decreases m, 1
  {
    hide Accepts, MoreDigits, Digits, LexLe, AtLeast;
    var ms := Decimal(m);
    DecimalIsCanonical(m);
    StollSmaller(m);
    BuildsInner(m, decimals);
    var rest, less := ms[1..], decimals - 1;
    RestIsNumeral(rest);
    var inner := Build(Stoll(rest), MAX64, less, false).value;
    assert Build(m, MAX64, decimals, top).value == Leading(ms[0], |ms|, less, top, inner);
    LeadingAccepts(ms[0], |ms|, less, top, inner, s);
    if s != "" {
      InnerExact(Stoll(rest), less, s[1..]);
    }
    AtLeastByFirst(ms, if ms[0] > '1' then (if top then '1' else '0') else '1', s, decimals);
    AtLeastDigits(rest, '0', if s == "" then "" else s[1..], less);
  }

  lemma AtLeastDigits(ms: string, lo: char, s: string, decimals: nat)
    ensures AtLeast(ms, lo, s, decimals) ==> AllDigits(s)
  {
  }

  lemma {:induction false} RestIsNumeral(rest: string)
    requires rest != "" && AllDigits(rest) && InnerGood(rest)
    ensures Canonical(rest) && Decimal(Stoll(rest)) == rest
  {
    StollIsVal(rest);
    CanonicalIsDecimal(rest);
  }

  /** The grammar for the digits after the first: exact when every digit but the last is at least 2. */
  lemma {:induction false} InnerExact(m: nat, decimals: nat, s: string)
    requires m <= MAX64 && InnerGood(Decimal(m)) && |Decimal(m)| < decimals <= DIGITS
    ensures Build(m, MAX64, decimals, false).Some?
    ensures Accepts(Build(m, MAX64, decimals, false).value, s) <==> AtLeast(Decimal(m), '0', s, decimals)
    decreases m, 2
  {
    if m > 9 {
      DecimalIsCanonical(m);
      LevelExact(m, decimals, false, s);
    } else {
      OneDigitExact(m, decimals, s);
    }
  }

  lemma {:induction false} OneDigitExact(m: nat, decimals: nat, s: string)
    requires m <= 9 && 1 < decimals <= DIGITS
    ensures Build(m, MAX64, decimals, false).Some?
    ensures Accepts(Build(m, MAX64, decimals, false).value, s) <==> AtLeast(Decimal(m), '0', s, decimals)
  {
    hide Accepts, MoreDigits, Digits;
    var c, ms := DigitChar(m), Decimal(m);
    assert ms == [c];
    RangeThenMore('0', Pred(c), 1, decimals - 1, s);
    RangeThenMore(c, '9', 0, decimals - 1, s);
    MoreDigitsAccepts(1, decimals, s);
    AltAccepts(Cat(Digits('0', Pred(c)), MoreDigits(1, decimals - 1)), Cat(Digits(c, '9'), MoreDigits(0, decimals - 1)), s);
    if s != "" {
      assert s == [s[0]] + s[1..];
      assert |s| == 1 ==> (LexLe(ms, s) <==> c <= s[0]);
    }
  }

  // ----- What a lower bound should mean

  /** The numerals of at most 16 digits, without leading zeros, of the numbers from `m` on. */
  ghost predicate FromLanguage(m: nat, s: string) {
    Canonical(s) && |s| <= 16 && Val(s) >= m
  }

  lemma FromLanguageIsNumbers(m: nat, s: string)
    ensures FromLanguage(m, s) <==> exists v: nat :: v >= m && |Decimal(v)| <= 16 && s == Decimal(v)
  {
    if FromLanguage(m, s) {
      CanonicalIsDecimal(s);
    }
    if v: nat :| v >= m && |Decimal(v)| <= 16 && s == Decimal(v) {
      DecimalIsCanonical(v);
    }
  }

  lemma {:induction false} AtLeastIsFrom(m: nat, s: string)
    requires m > 0
    ensures AtLeast(Decimal(m), '1', s, DIGITS) <==> FromLanguage(m, s)
  {
    DecimalIsCanonical(m);
    if Canonical(s) {
      NumLeIsVal(Decimal(m), s);
    }
    if Canonical(s) && s[0] == '0' {
      assert s == "0" && Val(s[..0]) == 0;
      ZeroNumeral();
      CanonicalIsDecimal(s);
    }
  }

  /** The top level with a positive lower bound. */
  lemma {:induction false} TopExact(m: nat, s: string)
    requires 0 < m <= MAX64 && |Decimal(m)| < DIGITS && MiddleGood(Decimal(m))
    ensures Build(m, MAX64, DIGITS, true).Some?
    ensures Accepts(Build(m, MAX64, DIGITS, true).value, s) <==> FromLanguage(m, s)
  {
    AtLeastIsFrom(m, s);
    DecimalIsCanonical(m);
    if m > 9 {
      LevelExact(m, DIGITS, true, s);
    } else {
      TopDigitExact(m, s);
    }
  }

  lemma {:induction false} TopDigitExact(m: nat, s: string)
    requires 0 < m <= 9
    ensures Accepts(Build(m, MAX64, DIGITS, true).value, s) <==> AtLeast(Decimal(m), '1', s, DIGITS)
  {
    hide Accepts, MoreDigits, Digits;
    var c, ms := DigitChar(m), Decimal(m);
    assert ms == [c];
    RangeThenMore('1', Pred(c), 1, 15, s);
    RangeThenMore(c, '9', 0, 15, s);
    AltAccepts(Cat(Digits('1', Pred(c)), MoreDigits(1, 15)), Cat(Digits(c, '9'), MoreDigits(0, 15)), s);
    if s != "" {
      assert s == [s[0]] + s[1..];
      assert |s| == 1 ==> (LexLe(ms, s) <==> c <= s[0]);
    }
  }

  // ----- Where it goes wrong

  lemma {:induction false} StollShorter(s: string)
    requires AllDigits(s) && s != ""
    ensures |Decimal(Stoll(s))| <= |s|
    ensures |s| > 1 && s[0] == '0' ==> |Decimal(Stoll(s))| < |s|
  {
    var n := |s| - 1;
    if n == 0 {
      assert Stoll(s[..0]) == 0;
    } else {
      StollShorter(s[..n]);
      LastDigit(Stoll(s[..n]), DigitValue(s[n]));
      if n == 1 && s[0] == '0' {
        assert s[..1] == "0" && "0"[..0] == "";
        assert Stoll("0") == 10 * Stoll("") + 0;
      }
    }
  }

  /** Some string of no more digits than the bound is accepted. */
  lemma {:induction false} AcceptsShort(m: nat, decimals: nat) returns (t: string)
    requires m <= MAX64 && 1 <= decimals <= DIGITS
    ensures Build(m, MAX64, decimals, false).Some?
    ensures AllDigits(t) && 1 <= |t| <= |Decimal(m)| && Accepts(Build(m, MAX64, decimals, false).value, t)
    decreases m
  {
    BuildsInner(m, decimals);
    var ms := Decimal(m);
    var less := if decimals - 1 > 1 then decimals - 1 else 1;
    if m == 0 {
      t := "0";
      MoreDigitsAccepts(1, decimals, t);
    } else if m <= 9 {
      var c := DigitChar(m);
      t := [c];
      RangeThenMore(c, '9', 0, less, t);
    } else {
      DecimalIsCanonical(m);
      StollSmaller(m);
      var rest := Stoll(ms[1..]);
      StollShorter(ms[1..]);
      var u := AcceptsShort(rest, less);
      t := [ms[0]] + u;
      LeadingReads(ms[0], |ms|, less, false, Build(rest, MAX64, less, false).value, t);
      assert t[1..] == u;
    }
  }

  /** What a problem digit leads to: a string that is too short is accepted, or one that is long enough is not. */
  ghost predicate IsWrong(m: nat, g: Gram<char>, t: string) {
    && AllDigits(t) && t != ""
    && ((Accepts(g, t) && |t| < |Decimal(m)|) || (!Accepts(g, t) && |t| == |Decimal(m)| + 1))
  }

  lemma {:induction false} RestWrong(m: nat, decimals: nat, top: bool) returns (t: string)
    requires 9 < m <= MAX64 && |Decimal(m)| < decimals <= DIGITS
    requires !InnerGood(Decimal(m)[1..])
    ensures Build(m, MAX64, decimals, top).Some?
    ensures IsWrong(m, Build(m, MAX64, decimals, top).value, t) && t[0] == Decimal(m)[0]
    decreases m, 0
  {
    BuildsInner(m, decimals);
    DecimalIsCanonical(m);
    StollSmaller(m);
    var ms := Decimal(m);
    var c, rest, less := ms[0], ms[1..], if decimals - 1 > 1 then decimals - 1 else 1;
    var m' := Stoll(rest);
    StollShorter(rest);
    BuildsInner(m', less);
    var inner := Build(m', MAX64, less, false).value;
    var u: string;
    if rest[0] == '0' {
      u := AcceptsShort(m', less);
    } else {
      assert Canonical(rest);
      StollIsVal(rest);
      CanonicalIsDecimal(rest);
      u := InnerWrong(m', less);
    }
    t := [c] + u;
    LeadingAccepts(c, |ms|, less, top, inner, t);
    assert t[1..] == u;
  }

  lemma {:induction false} InnerWrong(m: nat, decimals: nat) returns (t: string)
    requires 9 < m <= MAX64 && |Decimal(m)| < decimals <= DIGITS
    requires !InnerGood(Decimal(m))
    ensures Build(m, MAX64, decimals, false).Some?
    ensures IsWrong(m, Build(m, MAX64, decimals, false).value, t)
    decreases m, 1
  {
    BuildsInner(m, decimals);
    DecimalIsCanonical(m);
    StollSmaller(m);
    var ms := Decimal(m);
    assert forall i :: 1 <= i < |ms| - 1 ==> ms[i] == ms[1..][i - 1];
    if ms[0] < '2' {
      var less := if decimals - 1 > 1 then decimals - 1 else 1;
      t := Repeated('0', |ms| + 1);
      LeadingAccepts(ms[0], |ms|, less, false, Build(Stoll(ms[1..]), MAX64, less, false).value, t);
    } else {
      t := RestWrong(m, decimals, false);
    }
  }

  ghost predicate DiffersFrom(m: nat, g: Gram<char>) {
    exists s :: !(Accepts(g, s) <==> FromLanguage(m, s))
  }

  /** A problem digit in the middle of a lower bound makes the grammar wrong. */
  lemma {:induction false} TopWrong(m: nat)
    requires 0 < m <= MAX64 && |Decimal(m)| < DIGITS && !MiddleGood(Decimal(m))
    ensures Build(m, MAX64, DIGITS, true).Some?
    ensures DiffersFrom(m, Build(m, MAX64, DIGITS, true).value)
  {
    var ms := Decimal(m);
    DecimalIsCanonical(m);
    MiddleIsInnerOfRest(ms);
    var t := RestWrong(m, DIGITS, true);
    var g := Build(m, MAX64, DIGITS, true).value;
    assert Canonical(t);
    NumLeIsVal(ms, t);
    assert !(Accepts(g, t) <==> FromLanguage(m, t));
  }

  lemma MiddleIsInnerOfRest(ms: string)
    ensures ms != "" ==> (MiddleGood(ms) <==> InnerGood(ms[1..]))
    ensures |ms| <= 2 ==> MiddleGood(ms)
  {
    if ms != "" {
      assert forall i :: 1 <= i < |ms| - 1 ==> ms[i] == ms[1..][i - 1];
      assert forall i :: 0 <= i < |ms| - 2 ==> ms[1..][i] == ms[i + 1];
    }
  }

  // ----- Bounds that use up all the digits allowed

  /** The grammar accepts just the language of a minimum. */
  ghost predicate ExactFrom(g: Gram<char>, m: nat) {
    forall t :: Accepts(g, t) <==> FromLanguage(m, t)
  }

  /** 1, any number of times, and then 0. */
  predicate OnesThenZero(ms: string) {
    ms != "" && ms[|ms| - 1] == '0' && forall i :: 0 <= i < |ms| - 1 ==> ms[i] == '1'
  }

  lemma OnesThenZeroCons(ms: string)
    requires |ms| > 1
    ensures OnesThenZero(ms) <==> ms[0] == '1' && OnesThenZero(ms[1..])
  {
    assert forall i :: 1 <= i < |ms| ==> ms[i] == ms[1..][i - 1];
  }

  /** The strings of digits as long as the bound and not below it. */
  ghost predicate SameLengthFrom(ms: string, s: string) {
    AllDigits(s) && |s| == |ms| && LexLe(ms, s)
  }

  lemma {:induction false} TightExact(m: nat, decimals: nat, top: bool, s: string)
    requires m <= MAX64 && |Decimal(m)| == decimals <= DIGITS && OnesThenZero(Decimal(m)) && (m == 0 ==> !top)
    ensures Build(m, MAX64, decimals, top).Some?
    ensures Accepts(Build(m, MAX64, decimals, top).value, s) <==> SameLengthFrom(Decimal(m), s)
    decreases m
  {
    hide Accepts, MoreLimit, MoreDigits, Digits;
    var ms := Decimal(m);
    BuildsInner(m, decimals);
    DecimalIsCanonical(m);
    if m <= 9 {
      assert ms == [DigitChar(m)];
      assert ms == "0" && DigitValue('0') == m;
      assert Build(m, MAX64, decimals, top).value == MoreDigits(1, 1);
      TightZero(s);
    } else {
      StollSmaller(m);
      OnesThenZeroCons(ms);
      var rest, less := ms[1..], decimals - 1;
      StollIsVal(rest);
      CanonicalIsDecimal(rest);
      if s != "" {
        TightExact(Stoll(rest), less, false, s[1..]);
      }
      TightStep(ms, less, top, Build(Stoll(rest), MAX64, less, false).value, s);
    }
  }

  lemma {:induction false} TightZero(s: string)
    ensures Accepts(MoreDigits(1, 1), s) <==> SameLengthFrom("0", s)
  {
    MoreDigitsAccepts(1, 1, s);
    if |s| == 1 && AllDigits(s) {
      ZerosLeast(s);
      assert Repeated('0', 1) == "0";
    }
  }

  lemma {:induction false} TightStep(ms: string, less: nat, top: bool, inner: Gram<char>, s: string)
    requires |ms| == less + 1 && less > 0 && ms[0] == '1' && AllDigits(ms)
    requires s != "" ==> (Accepts(inner, s[1..]) <==> SameLengthFrom(ms[1..], s[1..]))
    ensures Accepts(Leading(ms[0], |ms|, less, top, inner), s) <==> SameLengthFrom(ms, s)
  {
    hide Accepts, MoreLimit, Leading;
    LeadingReads(ms[0], |ms|, less, top, inner, s);
    MoreLimitIs(less, less);
    if s != "" {
      assert s == [s[0]] + s[1..];
    }
  }

  /** Something of another length is accepted. */
  lemma {:induction false} TightWrong(m: nat, decimals: nat, top: bool) returns (t: string)
    requires m <= MAX64 && |Decimal(m)| == decimals <= DIGITS && !OnesThenZero(Decimal(m)) && (m <= 9 ==> !top)
    ensures Build(m, MAX64, decimals, top).Some?
    ensures |t| != |Decimal(m)| && Accepts(Build(m, MAX64, decimals, top).value, t)
    decreases m
  {
    hide Accepts, MoreLimit, MoreDigits, Digits, OnesThenZero, Leading;
    ZeroIsTight();
    if m <= 9 {
      TightWrongDigit(m);
      t := "90";
    } else {
      var ms, less := Decimal(m), decimals - 1;
      BuildsInner(m, decimals);
      DecimalIsCanonical(m);
      StollSmaller(m);
      OnesThenZeroCons(ms);
      var c, rest := ms[0], ms[1..];
      var inner := Build(Stoll(rest), MAX64, less, false).value;
      assert Build(m, MAX64, decimals, top).value == Leading(c, |ms|, less, top, inner);
      if c > '1' {
        t := "1" + Repeated('0', |ms|);
        ReadsLonger(c, |ms|, top, inner, t);
      } else {
        var u := TightRest(rest, less);
        if rest[0] != '0' || |rest| == 1 {
          StollIsVal(rest);
          CanonicalIsDecimal(rest);
          u := TightWrong(Stoll(rest), less, false);
        }
        t := [c] + u;
        assert t[1..] == u;
        LeadingReads(c, |ms|, less, top, inner, t);
      }
    }
  }

  /** A leading zero is lost, and something shorter accepted. */
  lemma TightRest(rest: string, less: nat) returns (u: string)
    requires AllDigits(rest) && |rest| == less && 0 < less <= DIGITS && Stoll(rest) <= MAX64
    ensures Build(Stoll(rest), MAX64, less, false).Some?
    ensures rest[0] == '0' && |rest| > 1 ==> |u| < |rest| && Accepts(Build(Stoll(rest), MAX64, less, false).value, u)
  {
    hide Accepts;
    StollShorter(rest);
    u := AcceptsShort(Stoll(rest), less);
  }

  lemma {:induction false} TightWrongDigit(m: nat)
    requires 0 < m <= 9
    ensures Build(m, MAX64, 1, false).Some? && Accepts(Build(m, MAX64, 1, false).value, "90")
  {
    hide Accepts, MoreLimit, MoreDigits, Digits;
    var c := DigitChar(m);
    RangeThenMore(c, '9', 0, 1, "90");
    AltAccepts(Cat(Digits('0', Pred(c)), MoreDigits(1, 1)), Cat(Digits(c, '9'), MoreDigits(0, 1)), "90");
  }

  lemma ZeroIsTight()
    ensures OnesThenZero(Decimal(0))
  {
  }

  /** With as many digits as are allowed, the branch for a smaller first digit has contradicting limits. */
  lemma ReadsLonger(c: char, len: nat, top: bool, inner: Gram<char>, t: string)
    requires IsDigit(c) && c > '1' && 0 < len <= DIGITS && t == "1" + Repeated('0', len)
    ensures Accepts(Leading(c, len, len - 1, top, inner), t)
  {
    hide Accepts, MoreLimit, Leading;
    LeadingReads(c, len, len - 1, top, inner, t);
    MoreLimitIs(len, len - 1);
    assert AllDigits(t[1..]);
  }

  /** A bound that is longer than any numeral allowed: still something is accepted. */
  lemma TooLong(m: nat, top: bool) returns (t: string)
    requires 9 < m <= MAX64
    ensures Build(m, MAX64, DIGITS, top).Some? && Accepts(Build(m, MAX64, DIGITS, top).value, t)
  {
    hide Accepts, MoreLimit, MoreDigits, Digits;
    var ms := Decimal(m);
    BuildsInner(m, DIGITS);
    DecimalIsCanonical(m);
    StollSmaller(m);
    var rest := Stoll(ms[1..]);
    BuildsInner(rest, DIGITS - 1);
    var u := AcceptsShort(rest, DIGITS - 1);
    t := [ms[0]] + u;
    assert t[1..] == u;
    LeadingReads(ms[0], |ms|, DIGITS - 1, top, Build(rest, MAX64, DIGITS - 1, false).value, t);
  }

  /** What a bound of sixteen digits or more stands for. */
  lemma {:induction false} LongFrom(m: nat, s: string)
    requires |Decimal(m)| >= DIGITS
    ensures FromLanguage(m, s) <==> |Decimal(m)| == DIGITS && SameLengthFrom(Decimal(m), s)
  {
    var ms := Decimal(m);
    DecimalIsCanonical(m);
    if Canonical(s) {
      NumLeIsVal(ms, s);
    }
    if SameLengthFrom(ms, s) {
      assert s[0] >= ms[0] > '0';
    }
  }

  lemma {:induction false} MoreThanNine(m: nat)
    ensures |Decimal(m)| > 1 <==> m > 9
  {
  }

  /** For a bound of sixteen digits or more, at either level. */
  lemma {:induction false} LongExactIff(m: nat, top: bool)
    requires 0 < m <= MAX64 && |Decimal(m)| >= DIGITS
    ensures Build(m, MAX64, DIGITS, top).Some?
    ensures ExactFrom(Build(m, MAX64, DIGITS, top).value, m)
            <==> |Decimal(m)| == DIGITS && OnesThenZero(Decimal(m))
  {
    hide Accepts, Build, Decimal, FromLanguage, OnesThenZero;
    MoreThanNine(m);
    if |Decimal(m)| == DIGITS && OnesThenZero(Decimal(m)) {
      TightExact(m, DIGITS, top, "");
      forall s
        ensures Accepts(Build(m, MAX64, DIGITS, top).value, s) <==> FromLanguage(m, s)
      {
        TightExact(m, DIGITS, top, s);
        LongFrom(m, s);
      }
    } else {
      var t: string;
      if |Decimal(m)| == DIGITS {
        t := TightWrong(m, DIGITS, top);
      } else {
        t := TooLong(m, top);
      }
      LongFrom(m, t);
    }
  }

  // ----- The main results

  /** Lower bounds for which the grammar is right. */
  ghost predicate GoodMinimum(ms: string) {
    if |ms| < DIGITS then MiddleGood(ms) else |ms| == DIGITS && OnesThenZero(ms)
  }

  /**
   A positive lower bound: the grammar accepts exactly the numerals from it on, of at most 16 digits,
   if and only if all its digits but the first and the last are at least 2 and there are at most 15
   of them, or it is 1111111111111110.
   */
  lemma {:induction false} MinOnlyExactIff(m: nat)
    requires 0 < m <= MAX64
    ensures Build(m, MAX64, DIGITS, true).Some?
    ensures ExactFrom(Build(m, MAX64, DIGITS, true).value, m) <==> GoodMinimum(Decimal(m))
  {
    BuildsInner(m, DIGITS);
    if |Decimal(m)| >= DIGITS {
      LongExactIff(m, true);
    } else if MiddleGood(Decimal(m)) {
      forall s
        ensures Accepts(Build(m, MAX64, DIGITS, true).value, s) <==> FromLanguage(m, s)
      {
        TopExact(m, s);
      }
    } else {
      TopWrong(m);
    }
  }

  /** A lower bound of one or two digits is always handled right. */
  lemma {:induction false} MinOnlySmall(m: nat, s: string)
    requires 0 < m <= 99
    ensures Build(m, MAX64, DIGITS, true).Some?
    ensures Accepts(Build(m, MAX64, DIGITS, true).value, s) <==> FromLanguage(m, s)
  {
    if m > 9 {
      assert Decimal(m / 10) == [DigitChar(m / 10)];
    }
    MiddleIsInnerOfRest(Decimal(m));
    TopExact(m, s);
  }

  lemma {:induction false} ZeroToNines(s: string)
    ensures Accepts(Alt(Digits('0', '0'), Cat(Digits('1', '9'), MoreDigits(0, 15))), s) <==> FromLanguage(0, s)
  {
    RangeThenMore('1', '9', 0, 15, s);
    AltAccepts(Digits('0', '0'), Cat(Digits('1', '9'), MoreDigits(0, 15)), s);
    if s != "" {
      assert s == [s[0]] + s[1..];
    }
  }

  /** A numeral, or "-0", that meets a lower bound below one; numbers above zero have at most 16 digits. */
  ghost predicate FromNegative(min: int, s: string) {
    (exists v: int :: min <= v < 0 && s == Render(v)) || (s == "-0" && min < 0) || FromLanguage(0, s)
  }

  /** Any lower bound that is not positive, but for the one that negates to a sentinel, is handled right. */
  lemma {:induction false} MinOnlyNonPositive(min: int, s: string)
    requires MIN64 + 1 < min <= 0
    ensures Build(min, MAX64, DIGITS, true).Some?
    ensures Accepts(Build(min, MAX64, DIGITS, true).value, s) <==> FromNegative(min, s)
  {
    hide Accepts, Closed, Decimal, Render, FromLanguage;
    ZeroToNines(s);
    var up := Alt(Digits('0', '0'), Cat(Digits('1', '9'), MoreDigits(0, 15)));
    if min < 0 {
      assert Build(0, -min, DIGITS, true) == Some(Closed(0, -min));
      assert Build(MIN64, -min, DIGITS, false) == Some(Closed(0, -min));
      NegativePart(0, -min, s);
      AltAccepts(Minus(Closed(0, -min)), up, s);
    }
  }

  /** With the lowest bound but one, and no upper bound, the compiler throws; it sees no bound at all. */
  lemma {:induction false} ThrowsIff(min: int, max: int)
    requires ValidBounds(min, max)
    ensures Build(min, max, DIGITS, true).None? <==> max == MAX64 && (min == MIN64 || min == MIN64 + 1)
  {
    if max == MAX64 {
      if min > 0 {
        BuildsInner(min, DIGITS);
      } else if MIN64 + 1 < min < 0 {
        assert Build(0, -min, DIGITS, true).Some?;
        assert Build(MIN64, -min, DIGITS, false).Some?;
      }
    } else if min < 0 && max < 0 {
      BuildsInner(-max, DIGITS);
    } else if MIN64 < min < 0 {
      BuildsInner(0, DIGITS);
      assert Build(0, -min, DIGITS, true).Some?;
    }
  }

  /** The numerals up to a bound that is not negative; negative numbers have at most 16 digits. */
  ghost predicate UpToLanguage(max: int, s: string) {
    || (exists v: int :: 0 <= v <= max && s == Render(v))
    || (s != "" && s[0] == '-' && FromLanguage(1, s[1..]))
  }

  /** An upper bound that is not negative is always handled right. */
  lemma {:induction false} MaxOnlyNonNegative(max: int, s: string)
    requires 0 <= max < MAX64
    ensures Build(MIN64, max, DIGITS, true).Some?
    ensures Accepts(Build(MIN64, max, DIGITS, true).value, s) <==> UpToLanguage(max, s)
  {
    hide Accepts, Closed, Decimal, Render;
    var down := Cat(Digits('1', '9'), MoreDigits(0, 15));
    PositivePart(0, max, s);
    MinusAccepts(down, s);
    if s != "" {
      RangeThenMore('1', '9', 0, 15, s[1..]);
      PositiveNumeral(s[1..]);
    }
    AltAccepts(Minus(down), Closed(0, max), s);
  }

  lemma PositiveNumeral(t: string)
    ensures FromLanguage(1, t) <==> t != "" && '1' <= t[0] <= '9' && |t| <= DIGITS && AllDigits(t[1..])
  {
    if t != "" && '1' <= t[0] <= '9' && AllDigits(t[1..]) {
      assert t == [t[0]] + t[1..];
      ValPositive(t);
    }
    if Canonical(t) && t[0] == '0' {
      assert t == "0" && "0"[..0] == "";
      assert Val(t) == 0;
    }
  }

  /** The numbers up to a negative bound, as strings. */
  ghost predicate UpToNegative(max: int, s: string)
    requires max < 0
  {
    s != "" && s[0] == '-' && FromLanguage(-max, s[1..])
  }

  /** The absolute values of negative upper bounds for which the grammar is right. */
  ghost predicate GoodMaximum(ms: string) {
    if |ms| < DIGITS then |ms| > 1 && ms[0] == '1' && MiddleGood(ms) else |ms| == DIGITS && OnesThenZero(ms)
  }

  /**
   A negative upper bound: right if and only if it has two to 15 digits, the first is 1, and all
   between the first and the last are at least 2, or it is -1111111111111110. Leading zeros get in
   otherwise.
   */
  lemma {:induction false} MaxOnlyNegativeExactIff(max: int)
    requires MIN64 < max < 0
    ensures Build(MIN64, max, DIGITS, true).Some?
    ensures ExactUpTo(Build(MIN64, max, DIGITS, true).value, max) <==> GoodMaximum(Decimal(-max))
  {
    var m: nat := -max;
    BuildsInner(m, DIGITS);
    var g := Build(m, MAX64, DIGITS, false).value;
    assert Build(MIN64, max, DIGITS, true).value == Minus(g);
    hide Build, Accepts, FromLanguage, GoodMaximum;
    BehindMinus(max, g);
    if |Decimal(m)| >= DIGITS {
      LongExactIff(m, false);
      LongIsGood(Decimal(m));
    } else {
      ShortNegativeIff(m);
    }
  }

  lemma LongIsGood(ms: string)
    requires |ms| >= DIGITS
    ensures GoodMaximum(ms) <==> |ms| == DIGITS && OnesThenZero(ms)
  {
  }

  ghost predicate ExactUpTo(g: Gram<char>, max: int)
    requires max < 0
  {
    forall s :: Accepts(g, s) <==> UpToNegative(max, s)
  }

  lemma BehindMinus(max: int, g: Gram<char>)
    requires max < 0
    ensures ExactUpTo(Minus(g), max) <==> ExactFrom(g, -max)
  {
    hide Accepts, FromLanguage;
    var m: nat := -max;
    if ExactFrom(g, m) {
      forall s: string
        ensures Accepts(Minus(g), s) <==> UpToNegative(max, s)
      {
        MinusAccepts(g, s);
        assert s != "" ==> (Accepts(g, s[1..]) <==> FromLanguage(m, s[1..]));
      }
    }
    if ExactUpTo(Minus(g), max) {
      forall t: string
        ensures Accepts(g, t) <==> FromLanguage(m, t)
      {
        var s := "-" + t;
        assert s[1..] == t;
        MinusAccepts(g, s);
        assert Accepts(Minus(g), s) <==> UpToNegative(max, s);
      }
    }
  }

  lemma {:induction false} ShortNegativeIff(m: nat)
    requires 0 < m <= MAX64 && |Decimal(m)| < DIGITS
    ensures Build(m, MAX64, DIGITS, false).Some?
    ensures ExactFrom(Build(m, MAX64, DIGITS, false).value, m) <==> GoodMaximum(Decimal(m))
  {
    hide Accepts;
    var ms := Decimal(m);
    BuildsInner(m, DIGITS);
    DecimalIsCanonical(m);
    if GoodMaximum(ms) {
      MiddleIsInnerOfRest(ms);
      forall t: string
        ensures Accepts(Build(m, MAX64, DIGITS, false).value, t) <==> FromLanguage(m, t)
      {
        LevelExact(m, DIGITS, false, t);
        AtLeastIsFrom(m, t);
      }
    } else {
      var t := NegativeWrong(m);
    }
  }

  lemma NegativeWrong(m: nat) returns (t: string)
    requires 0 < m <= MAX64 && |Decimal(m)| < DIGITS
    requires !(|Decimal(m)| > 1 && Decimal(m)[0] == '1' && MiddleGood(Decimal(m)))
    ensures Build(m, MAX64, DIGITS, false).Some?
    ensures !(Accepts(Build(m, MAX64, DIGITS, false).value, t) <==> FromLanguage(m, t))
  {
    var ms := Decimal(m);
    BuildsInner(m, DIGITS);
    DecimalIsCanonical(m);
    if m <= 9 {
      t := "00";
      RangeThenMore('0', Pred(DigitChar(m)), 1, 15, t);
    } else if ms[0] != '1' {
      t := Repeated('0', |ms| + 1);
      StollSmaller(m);
      BuildsInner(Stoll(ms[1..]), DIGITS - 1);
      LeadingAccepts(ms[0], |ms|, DIGITS - 1, false, Build(Stoll(ms[1..]), MAX64, DIGITS - 1, false).value, t);
    } else {
      MiddleIsInnerOfRest(ms);
      t := RestWrong(m, DIGITS, false);
      NumLeIsVal(ms, t);
    }
  }
}
