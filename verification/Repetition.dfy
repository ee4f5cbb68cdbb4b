/**
 `build_repetition`, json-schema-to-grammar.cpp:17-42: an item between `min` and `max` times, with an
 optional separator between neighbours. `None` stands for the greatest `int`, which means no maximum.
 What it writes is read by `handle_repetitions`, llama-grammar.cpp:422-473.
 */
module Repetition {
  import opened CommonStrings
  import opened Gbnf

  // ----- What `{min,max}` is read as

  const SIZE_LIMIT := 0x1_0000_0000_0000_0000

  /** How many may follow the first `min`; the difference is unsigned. */
  function Optional(min: nat, max: nat): nat {
    (max - min) % SIZE_LIMIT
  }

  /** The meaning of `item{min,max}` for the grammar parser. */
  function Braces(item: Gram<char>, min: nat, max: Option<nat>): Gram<char> {
    Repeat(item, min, match max { case None => None case Some(m) => Some(min + Optional(min, m)) })
  }

  /** How often the item may come: within the limits, or so many times more if the difference of 64 bits wraps around. */
  lemma {:induction false} BracesAccept(item: Gram<char>, min: nat, max: nat, top: nat, s: string)
    requires min < 0x1_0000_0000_0000_0000 && max < 0x1_0000_0000_0000_0000
    requires top == if min <= max then max else 0x1_0000_0000_0000_0000 + max
    ensures Accepts(Braces(item, min, Some(max)), s) <==> exists n: nat :: min <= n <= top && AcceptsTimes(item, n, s)
    ensures Accepts(Braces(item, min, None), s) <==> exists n: nat :: min <= n && AcceptsTimes(item, n, s)
  {
    hide Accepts, AcceptsTimes, AcceptsBetween;
    var d := max - min;
    if max < min {
      assert d == -1 * SIZE_LIMIT + (SIZE_LIMIT + d);
    }
    assert Optional(min, max) == top - min;
    RepeatAccepts(item, min, Some(top), s);
    RepeatAccepts(item, min, None, s);
    BetweenIff(item, min, Some(top), s);
    BetweenIff(item, min, None, s);
  }

  lemma {:induction false} BetweenIff(item: Gram<char>, min: nat, max: Option<nat>, s: string)
    ensures AcceptsBetween(item, min, max, s) <==> exists n: nat :: min <= n && (max.None? || n <= max.value) && AcceptsTimes(item, n, s)
  {
    if AcceptsBetween(item, min, max, s) {
      var n := TimesOf(item, min, max, s);
      assert exists n: nat :: min <= n && (max.None? || n <= max.value) && AcceptsTimes(item, n, s);
    }
    assert (exists n: nat :: min <= n && (max.None? || n <= max.value) && AcceptsTimes(item, n, s)) ==> AcceptsBetween(item, min, max, s);
    forall n: nat | min <= n && (max.None? || n <= max.value) && AcceptsTimes(item, n, s)
      ensures AcceptsBetween(item, min, max, s)
    {
      BetweenOf(item, min, max, s, n);
    }
  }

  /** The rewriting into copies of the item and a chain of rules, each of which may end. */
  method HandleRepetitions(item: Gram<char>, min: nat, max: Option<nat>) returns (rule: Gram<char>)
    ensures forall s: string :: Accepts(rule, s) <==> Accepts(Braces(item, min, max), s)
  {
    hide Accepts, AcceptsTimes, AcceptsBetween;
    if min == 0 {
      rule := Word("");
      NoCopies(item);
    } else {
      rule := item;
      OneCopy(item);
      for i := 1 to min
        invariant forall s: string :: Accepts(rule, s) <==> AcceptsTimes(item, i, s)
      {
        MoreCopies(item, rule, i);
        rule := Cat(item, rule);
      }
    }
    var optional := if max.None? then 1 else (max.value - min) % SIZE_LIMIT;
    var rec := Word("");
    if max.None? {
      rec := Repeat(item, 0, None);
      AnyTimes(item);
    } else {
      NoneOptional(item);
      for i := 0 to optional
        invariant i == 0 ==> rec == Word("")
        invariant forall s: string :: Accepts(rec, s) <==> AcceptsBetween(item, 0, Some(i), s)
      {
        OneMoreOptional(item, rec, i);
        LastOptional(item);
        rec := Alt(if i > 0 then Cat(item, rec) else item, Word(""));
      }
    }
    ghost var limit := if max.None? then None else Some(optional as nat);
    forall s: string
      ensures Accepts(if optional > 0 then Cat(rule, rec) else rule, s) <==> Accepts(Braces(item, min, max), s)
    {
      CopiesThenOptional(item, rule, rec, min, limit, s);
      RepeatAccepts(item, min, Braces(item, min, max).max, s);
      if optional == 0 {
        NothingOptional(item, min, s);
      }
    }
    if optional > 0 {
      rule := Cat(rule, rec);
    }
  }

  lemma NoCopies(item: Gram<char>)
    ensures forall s: string :: Accepts(Word(""), s) <==> AcceptsTimes(item, 0, s)
  {
  }

  lemma OneCopy(item: Gram<char>)
    ensures forall s: string :: Accepts(item, s) <==> AcceptsTimes(item, 1, s)
  {
    forall s: string
      ensures Accepts(item, s) <==> AcceptsTimes(item, 1, s)
    {
      assert s[..|s|] == s && AcceptsTimes(item, 0, s[|s|..]);
      forall k | 0 <= k <= |s| && AcceptsTimes(item, 0, s[k..])
        ensures s[..k] == s
      {
      }
    }
  }

  lemma MoreCopies(item: Gram<char>, rule: Gram<char>, i: nat)
    requires forall s: string :: Accepts(rule, s) <==> AcceptsTimes(item, i, s)
    ensures forall s: string :: Accepts(Cat(item, rule), s) <==> AcceptsTimes(item, i + 1, s)
  {
  }

  lemma {:induction false} AnyTimes(item: Gram<char>)
    ensures forall s: string :: Accepts(Repeat(item, 0, None), s) <==> AcceptsBetween(item, 0, None, s)
  {
  }

  lemma NoneOptional(item: Gram<char>)
    ensures forall s: string :: Accepts(Word(""), s) <==> AcceptsBetween(item, 0, Some(0), s)
  {
    forall s: string
      ensures Accepts(Word(""), s) <==> AcceptsBetween(item, 0, Some(0), s)
    {
      if s == "" {
        BetweenOf(item, 0, Some(0), s, 0);
      }
    }
  }

  lemma {:induction false} OneMoreOptional(item: Gram<char>, rec: Gram<char>, i: nat)
    requires forall s: string :: Accepts(rec, s) <==> AcceptsBetween(item, 0, Some(i), s)
    ensures forall s: string :: Accepts(Alt(Cat(item, rec), Word("")), s) <==> AcceptsBetween(item, 0, Some(i + 1), s)
  {
    hide Accepts, AcceptsTimes, AcceptsBetween;
    forall s: string
      ensures Accepts(Alt(Cat(item, rec), Word("")), s) <==> AcceptsBetween(item, 0, Some(i + 1), s)
    {
      AltEmpty(Cat(item, rec), s);
      if Accepts(Cat(item, rec), s) {
        var k := CatApart(item, rec, s);
        var n := TimesOf(item, 0, Some(i), s[k..]);
        assert s == s[..k] + s[k..];
        TimesCons(item, n, s[..k], s[k..]);
        BetweenOf(item, 0, Some(i + 1), s, n + 1);
      } else if s == "" {
        NoCopies(item);
        WordExact("", s);
        BetweenOf(item, 0, Some(i + 1), s, 0);
      }
      if AcceptsBetween(item, 0, Some(i + 1), s) {
        var n := TimesOf(item, 0, Some(i + 1), s);
        if n > 0 {
          var k := TimesApart(item, n - 1, s);
          BetweenOf(item, 0, Some(i), s[k..], n - 1);
          CatIntro(item, rec, s[..k], s[k..]);
          assert s == s[..k] + s[k..];
        } else {
          NoneTimes(item, s);
        }
      }
    }
  }

  lemma {:induction false} AltEmpty(g: Gram<char>, s: string)
    ensures Accepts(Alt(g, Word("")), s) <==> s == "" || Accepts(g, s)
  {
  }

  lemma TimesCons(item: Gram<char>, n: nat, first: string, rest: string)
    requires Accepts(item, first) && AcceptsTimes(item, n, rest)
    ensures AcceptsTimes(item, n + 1, first + rest)
  {
    var s := first + rest;
    assert s[..|first|] == first && s[|first|..] == rest;
  }

  lemma TimesApart(item: Gram<char>, n: nat, s: string) returns (k: nat)
    requires AcceptsTimes(item, n + 1, s)
    ensures k <= |s| && Accepts(item, s[..k]) && AcceptsTimes(item, n, s[k..])
  {
    k :| 0 <= k <= |s| && Accepts(item, s[..k]) && AcceptsTimes(item, n, s[k..]);
  }

  lemma {:induction false} LastOptional(item: Gram<char>)
    ensures forall s: string :: Accepts(Alt(item, Word("")), s) <==> AcceptsBetween(item, 0, Some(1), s)
  {
    forall s: string
      ensures Accepts(Alt(item, Word("")), s) <==> AcceptsBetween(item, 0, Some(1), s)
    {
      RepeatOnce(item, s);
      RepeatAccepts(item, 0, Some(1), s);
    }
  }

  lemma {:induction false} TimesSplit(item: Gram<char>, a: nat, b: nat, s: string) returns (k: nat)
    requires AcceptsTimes(item, a + b, s)
    ensures k <= |s| && AcceptsTimes(item, a, s[..k]) && AcceptsTimes(item, b, s[k..])
    decreases a
  {
    hide Accepts, AcceptsTimes;
    if a == 0 {
      k := 0;
      NoneTimes(item, "");
      assert s[..0] == "" && s[0..] == s;
    } else {
      var i := TimesApart(item, a - 1 + b, s);
      var j := TimesSplit(item, a - 1, b, s[i..]);
      k := i + j;
      TimesCons(item, a - 1, s[..i], s[i..][..j]);
      assert s[..k] == s[..i] + s[i..][..j] && s[k..] == s[i..][j..];
    }
  }

  lemma {:induction false} TimesJoin(item: Gram<char>, a: nat, b: nat, first: string, second: string)
    requires AcceptsTimes(item, a, first) && AcceptsTimes(item, b, second)
    ensures AcceptsTimes(item, a + b, first + second)
    decreases a
  {
    hide Accepts, AcceptsTimes;
    if a == 0 {
      NoneTimes(item, first);
      assert first + second == second;
    } else {
      var k := TimesApart(item, a - 1, first);
      TimesJoin(item, a - 1, b, first[k..], second);
      TimesCons(item, a - 1 + b, first[..k], first[k..] + second);
      assert first[..k] + (first[k..] + second) == first + second;
    }
  }

  lemma CopiesThenOptional(item: Gram<char>, rule: Gram<char>, rec: Gram<char>, min: nat, limit: Option<nat>, s: string)
    requires forall t: string :: Accepts(rule, t) <==> AcceptsTimes(item, min, t)
    requires forall t: string :: Accepts(rec, t) <==> AcceptsBetween(item, 0, limit, t)
    ensures Accepts(Cat(rule, rec), s)
            <==> AcceptsBetween(item, min, match limit { case None => None case Some(m) => Some(min + m) }, s)
  {
    hide Accepts, AcceptsTimes, AcceptsBetween;
    var upper: Option<nat> := match limit { case None => None case Some(m) => Some(min + m) };
    if Accepts(Cat(rule, rec), s) {
      var k := CatApart(rule, rec, s);
      var n := TimesOf(item, 0, limit, s[k..]);
      TimesJoin(item, min, n, s[..k], s[k..]);
      assert s == s[..k] + s[k..];
      BetweenOf(item, min, upper, s, min + n);
    }
    if AcceptsBetween(item, min, upper, s) {
      var n := TimesOf(item, min, upper, s);
      var k := TimesSplit(item, min, n - min, s);
      BetweenOf(item, 0, limit, s[k..], n - min);
      CatIntro(rule, rec, s[..k], s[k..]);
      assert s == s[..k] + s[k..];
    }
  }

  lemma {:induction false} NothingOptional(item: Gram<char>, min: nat, s: string)
    ensures AcceptsTimes(item, min, s) <==> AcceptsBetween(item, min, Some(min), s)
  {
    if AcceptsTimes(item, min, s) {
      BetweenOf(item, min, Some(min), s, min);
    }
    if AcceptsBetween(item, min, Some(min), s) {
      var n := TimesOf(item, min, Some(min), s);
    }
  }

  // ----- What is built

  function Less(n: nat): nat {
    if n == 0 then 0 else n - 1
  }

  function Build(item: Gram<char>, min: nat, max: Option<nat>, separator: Option<Gram<char>>): Gram<char>
    decreases if separator.Some? then 1 else 0
  {
    if max == Some(0) then Word("")
    else if min == 0 && max == Some(1) then Repeat(item, 0, Some(1))
    else
      match separator
      case None =>
        if min == 1 && max.None? then Repeat(item, 1, None)
        else if min == 0 && max.None? then Repeat(item, 0, None)
        else Braces(item, min, max)
      case Some(sep) =>
        var result := Cat(item, Build(Cat(sep, item), Less(min), if max.Some? then Some(Less(max.value)) else None, None));
        if min == 0 then Repeat(result, 0, Some(1)) else result
  }

  /** `s` is `n` items, each after the first behind a separator. */
  ghost predicate Items(item: Gram<char>, separator: Option<Gram<char>>, n: nat, s: string) {
    match separator
    case None => AcceptsTimes(item, n, s)
    case Some(sep) => if n == 0 then s == "" else FirstThen(item, Cat(sep, item), n - 1, s)
  }

  ghost predicate FirstThen(item: Gram<char>, more: Gram<char>, n: nat, s: string) {
    exists k :: 0 <= k <= |s| && Accepts(item, s[..k]) && AcceptsTimes(more, n, s[k..])
  }

  ghost predicate Wanted(item: Gram<char>, min: nat, max: Option<nat>, separator: Option<Gram<char>>, s: string) {
    exists n: nat :: min <= n && (max.None? || n <= max.value) && Items(item, separator, n, s)
  }

  /** The grammar accepts the lists whose length is within the limits, and nothing else. */
  ghost predicate Exact(item: Gram<char>, min: nat, max: Option<nat>, separator: Option<Gram<char>>) {
    forall s: string :: Accepts(Build(item, min, max, separator), s) <==> Wanted(item, min, max, separator, s)
  }

  /** The maximum is below the minimum. */
  predicate Contradict(min: nat, max: Option<nat>) {
    max.Some? && min > max.value
  }

  /** Limits that make sense and fit the type they have. */
  predicate Sensible(min: nat, max: Option<nat>) {
    max.Some? ==> min <= max.value < SIZE_LIMIT
  }

  /** Without a separator. */
  lemma {:induction false} PlainExact(item: Gram<char>, min: nat, max: Option<nat>, s: string)
    requires Sensible(min, max)
    ensures Accepts(Build(item, min, max, None), s) <==> Wanted(item, min, max, None, s)
  {
    hide AcceptsTimes;
    assert Braces(item, min, max) == Repeat(item, min, max);
    RepeatAccepts(item, min, max, s);
    if AcceptsBetween(item, min, max, s) {
      var n := TimesOf(item, min, max, s);
      assert Items(item, None, n, s);
    }
    if Wanted(item, min, max, None, s) {
      var n: nat :| min <= n && (max.None? || n <= max.value) && Items(item, None, n, s);
      BetweenOf(item, min, max, s, n);
    }
    if max == Some(0) {
      NoneTimes(item, s);
      WordExact("", s);
    }
  }

  lemma {:induction false} NoneTimes(item: Gram<char>, s: string)
    ensures AcceptsTimes(item, 0, s) <==> s == ""
    ensures Wanted(item, 0, Some(0), None, s) <==> s == ""
  {
    assert Items(item, None, 0, s) <==> s == "";
  }

  /** An item, and so many more behind separators. */
  lemma ListExact(item: Gram<char>, sep: Gram<char>, min: nat, max: Option<nat>, s: string)
    requires max != Some(0) && Sensible(min, max)
    ensures var more := Build(Cat(sep, item), Less(min), if max.Some? then Some(Less(max.value)) else None, None);
            Accepts(Cat(item, more), s)
            <==> exists n: nat :: 1 <= n && min <= n && (max.None? || n <= max.value) && Items(item, Some(sep), n, s)
  {
    hide Accepts, AcceptsTimes, Build;
    var rest := Cat(sep, item);
    var lo, hi := Less(min), if max.Some? then Some(Less(max.value)) else None;
    var more := Build(rest, lo, hi, None);
    if Accepts(Cat(item, more), s) {
      var k := CatApart(item, more, s);
      PlainExact(rest, lo, hi, s[k..]);
      var n: nat :| lo <= n && (hi.None? || n <= hi.value) && Items(rest, None, n, s[k..]);
      assert FirstThen(item, rest, n, s);
      assert Items(item, Some(sep), n + 1, s);
    }
    if n: nat :| 1 <= n && min <= n && (max.None? || n <= max.value) && Items(item, Some(sep), n, s) {
      var m: nat := n - 1;
      var k :| 0 <= k <= |s| && Accepts(item, s[..k]) && AcceptsTimes(rest, m, s[k..]);
      assert Items(rest, None, m, s[k..]);
      PlainExact(rest, lo, hi, s[k..]);
      CatIntro(item, more, s[..k], s[k..]);
      assert s == s[..k] + s[k..];
    }
  }

  lemma {:induction false} SeparatedExact(item: Gram<char>, sep: Gram<char>, min: nat, max: Option<nat>, s: string)
    requires max != Some(0) && Sensible(min, max)
    ensures Accepts(Build(item, min, max, Some(sep)), s) <==> Wanted(item, min, max, Some(sep), s)
  {
    hide Accepts, AcceptsTimes, FirstThen;
    var more := Build(Cat(sep, item), Less(min), if max.Some? then Some(Less(max.value)) else None, None);
    ListExact(item, sep, min, max, s);
    assert Items(item, Some(sep), 0, s) <==> s == "";
    if min == 0 && max == Some(1) {
      RepeatOnce(item, s);
      SingleItem(item, sep, s);
    } else if min == 0 {
      RepeatOnce(Cat(item, more), s);
    }
  }

  lemma {:induction false} SingleItem(item: Gram<char>, sep: Gram<char>, s: string)
    ensures Items(item, Some(sep), 1, s) <==> Accepts(item, s)
  {
    if Items(item, Some(sep), 1, s) {
      var k :| 0 <= k <= |s| && Accepts(item, s[..k]) && AcceptsTimes(Cat(sep, item), 0, s[k..]);
      assert s[..k] == s;
    }
    if Accepts(item, s) {
      assert s[..|s|] == s && AcceptsTimes(Cat(sep, item), 0, s[|s|..]);
    }
  }

  /**
   The repetition is exact if and only if its limits do not contradict each other. When they do,
   the lower one is dropped or, in braces, the unsigned difference makes the minimum the only limit
   that counts.
   */
  lemma {:induction false} ExactIff(item: Gram<char>, min: nat, max: Option<nat>, separator: Option<Gram<char>>, t: string, u: string)
    requires max.Some? ==> max.value < SIZE_LIMIT
    requires Accepts(item, t) && (separator.Some? ==> Accepts(separator.value, u))
    ensures Exact(item, min, max, separator) <==> !Contradict(min, max)
  {
    hide Accepts, AcceptsTimes, Items, Build, Wanted;
    if Contradict(min, max) {
      NothingWanted(item, min, max, separator);
      var s := SomethingBuilt(item, min, max, separator, t, u);
      assert !Wanted(item, min, max, separator, s);
    } else {
      forall s: string
        ensures Accepts(Build(item, min, max, separator), s) <==> Wanted(item, min, max, separator, s)
      {
        SensibleExact(item, min, max, separator, s);
      }
    }
  }

  lemma {:induction false} SensibleExact(item: Gram<char>, min: nat, max: Option<nat>, separator: Option<Gram<char>>, s: string)
    requires Sensible(min, max)
    ensures Accepts(Build(item, min, max, separator), s) <==> Wanted(item, min, max, separator, s)
  {
    hide Accepts, AcceptsTimes;
    if separator.None? {
      PlainExact(item, min, max, s);
    } else if max == Some(0) {
      WordExact("", s);
      assert Items(item, separator, 0, s) <==> s == "";
    } else {
      SeparatedExact(item, separator.value, min, max, s);
    }
  }

  lemma NothingWanted(item: Gram<char>, min: nat, max: Option<nat>, separator: Option<Gram<char>>)
    requires Contradict(min, max)
    ensures forall s: string :: !Wanted(item, min, max, separator, s)
  {
  }

  /** With contradicting limits something is accepted all the same. */
  lemma SomethingBuilt(item: Gram<char>, min: nat, max: Option<nat>, separator: Option<Gram<char>>, t: string, u: string)
    returns (s: string)
    requires Contradict(min, max)
    requires Accepts(item, t) && (separator.Some? ==> Accepts(separator.value, u))
    ensures Accepts(Build(item, min, max, separator), s)
    decreases if separator.Some? then 1 else 0
  {
    hide Accepts, AcceptsTimes;
    if max == Some(0) {
      s := "";
      WordExact("", s);
    } else if separator.None? {
      s := CopiesInBraces(item, min, max, t);
    } else {
      var sep := separator.value;
      var rest, lo, hi := Cat(sep, item), Less(min), Some(Less(max.value));
      CatIntro(sep, item, u, t);
      var more := SomethingBuilt(rest, lo, hi, None, u + t, "");
      CatIntro(item, Build(rest, lo, hi, None), t, more);
      s := t + more;
    }
  }

  lemma CopiesInBraces(item: Gram<char>, min: nat, max: Option<nat>, t: string) returns (s: string)
    requires Accepts(item, t)
    ensures Accepts(Braces(item, min, max), s)
  {
    s := Copies(item, t, min);
    BetweenOf(item, min, Braces(item, min, max).max, s, min);
    RepeatAccepts(item, min, Braces(item, min, max).max, s);
  }

  lemma {:induction false} Copies(item: Gram<char>, t: string, n: nat) returns (s: string)
    requires Accepts(item, t)
    ensures AcceptsTimes(item, n, s)
    decreases n
  {
    s := "";
    if n > 0 {
      var rest := Copies(item, t, n - 1);
      s := t + rest;
      assert s[..|t|] == t && s[|t|..] == rest;
    }
  }
}
