/**
 The language of the object rule, json-schema-to-grammar.cpp:650-708: the grammar its text denotes
 once rule references are followed, and the lists of members that grammar accepts. A member is one
 terminal: its key, the colon, and the rule of its value.
 */
module ObjectGrammar {
  import opened CommonStrings
  import opened Gbnf

  datatype Token =
    | Open
    | Comma
    | Close
    | Member(key: string, valueRule: string)
    | Other(excluded: seq<string>, valueRule: string)

  /** An optional entry, and whether it may come any number of times. */
  datatype Slot = Slot(token: Token, many: bool)

  function CommaThen(t: Token): Gram<Token> {
    Cat(Word([Comma]), Word([t]))
  }

  /** `get_recursive_refs`: the first entry with its comma or without, and then the rest. */
  function RefsGram(slots: seq<Slot>, firstIsOptional: bool): Gram<Token> {
    if slots == [] then Word([]) else
    var head := HeadGram(slots[0], firstIsOptional);
    if |slots| > 1 then Cat(head, RefsGram(slots[1..], true)) else head
  }

  function HeadGram(slot: Slot, firstIsOptional: bool): Gram<Token> {
    var comma := CommaThen(slot.token);
    if firstIsOptional then Repeat(comma, 0, if slot.many then None else Some(1))
    else if slot.many then Cat(Word([slot.token]), Repeat(comma, 0, None))
    else Word([slot.token])
  }

  /** The required members, with commas between. */
  function RequiredGram(required: seq<Token>): Gram<Token> {
    if required == [] then Word([Open]) else
    var n := |required| - 1;
    var before := RequiredGram(required[..n]);
    Cat(if n > 0 then Cat(before, Word([Comma])) else before, Word([required[n]]))
  }

  /** One alternative for each optional entry that may come first, among the first `n`. */
  function FirstsGram(slots: seq<Slot>, n: nat): Gram<Token>
    requires 0 < n <= |slots|
  {
    var refs := RefsGram(slots[n - 1..], false);
    if n == 1 then refs else Alt(FirstsGram(slots, n - 1), refs)
  }

  function ObjectGram(required: seq<Token>, slots: seq<Slot>): Gram<Token> {
    var start := RequiredGram(required);
    if slots == [] then Cat(start, Word([Close])) else
    var firsts := FirstsGram(slots, |slots|);
    var optional := if required == [] then firsts else Cat(Word([Comma]), firsts);
    Cat(Cat(start, Repeat(optional, 0, Some(1))), Word([Close]))
  }

  // ---- lists of members ----

  function Copies(t: Token, n: nat): (r: seq<Token>)
    ensures |r| == n
  {
    if n == 0 then [] else [t] + Copies(t, n - 1)
  }

  /** How often each optional entry comes: at most once unless it may repeat. */
  ghost predicate Allowed(slots: seq<Slot>, counts: seq<nat>) {
    |counts| == |slots| && forall i :: 0 <= i < |slots| ==> slots[i].many || counts[i] <= 1
  }

  function Spread(slots: seq<Slot>, counts: seq<nat>): seq<Token>
    requires |counts| == |slots|
  {
    if slots == [] then [] else Copies(slots[0].token, counts[0]) + Spread(slots[1..], counts[1..])
  }

  /** Each item behind a comma. */
  function Commas(items: seq<Token>): seq<Token> {
    if items == [] then [] else [Comma, items[0]] + Commas(items[1..])
  }

  /** Items with commas between them. */
  function Joined(items: seq<Token>): seq<Token> {
    if items == [] then [] else [items[0]] + Commas(items[1..])
  }

  /** The members of an object: the required ones in order, and then optional ones in order. */
  ghost predicate Lists(required: seq<Token>, slots: seq<Slot>, items: seq<Token>) {
    exists counts :: Allowed(slots, counts) && items == required + Spread(slots, counts)
  }

  lemma {:induction false} CommasConcat(a: seq<Token>, b: seq<Token>)
    ensures Commas(a + b) == Commas(a) + Commas(b)
    decreases |a|
  {
    if a == [] {
      assert a + b == b;
    } else {
      CommasConcat(a[1..], b);
      assert (a + b)[1..] == a[1..] + b && (a + b)[0] == a[0];
      var first := [Comma, a[0]];
      assert Commas(a + b) == first + (Commas(a[1..]) + Commas(b));
      assert Commas(a) == first + Commas(a[1..]);
    }
  }

  lemma {:induction false} JoinedConcat(a: seq<Token>, b: seq<Token>)
    requires a != []
    ensures Joined(a + b) == Joined(a) + Commas(b)
  {
    assert (a + b)[1..] == a[1..] + b;
    CommasConcat(a[1..], b);
  }

  lemma JoinedNothing()
    ensures Joined([]) == []
  {
  }

  lemma {:induction false} CommasOfJoined(items: seq<Token>)
    requires items != []
    ensures Commas(items) == [Comma] + Joined(items)
  {
  }

  /** The commas are where they should be and nowhere else: a list of members can be read back. */
  lemma {:induction false} CommasInjective(a: seq<Token>, b: seq<Token>)
    requires Commas(a) == Commas(b)
    ensures a == b
    decreases |a|
  {
    if a != [] && b != [] {
      assert Commas(a)[1] == a[0] && Commas(b)[1] == b[0];
      assert Commas(a)[2..] == Commas(a[1..]) && Commas(b)[2..] == Commas(b[1..]);
      CommasInjective(a[1..], b[1..]);
      assert a == [a[0]] + a[1..] && b == [b[0]] + b[1..];
    }
  }

  lemma JoinedInjective(a: seq<Token>, b: seq<Token>)
    requires Joined(a) == Joined(b)
    ensures a == b
  {
    if a != [] && b != [] {
      assert Joined(a)[0] == a[0] && Joined(b)[0] == b[0];
      assert Joined(a)[1..] == Commas(a[1..]) && Joined(b)[1..] == Commas(b[1..]);
      CommasInjective(a[1..], b[1..]);
      assert a == [a[0]] + a[1..] && b == [b[0]] + b[1..];
    }
  }

  // ---- what the parts accept ----

  lemma {:induction false} CommaThenExact(t: Token, s: seq<Token>)
    ensures Accepts(CommaThen(t), s) <==> s == [Comma, t]
  {
    CatWord([Comma], Word([t]), s);
    if |s| >= 1 && s[..1] == [Comma] && s[1..] == [t] {
      assert s == s[..1] + s[1..];
    }
  }

  lemma {:induction false} TimesExact(t: Token, n: nat, s: seq<Token>)
    ensures AcceptsTimes(CommaThen(t), n, s) <==> s == Commas(Copies(t, n))
    decreases n
  {
    hide Accepts, CommaThen;
    if n > 0 {
      assert Copies(t, n)[1..] == Copies(t, n - 1);
      if AcceptsTimes(CommaThen(t), n, s) {
        var k :| 0 <= k <= |s| && Accepts(CommaThen(t), s[..k]) && AcceptsTimes(CommaThen(t), n - 1, s[k..]);
        CommaThenExact(t, s[..k]);
        TimesExact(t, n - 1, s[k..]);
        assert s == s[..k] + s[k..];
      }
      if s == Commas(Copies(t, n)) {
        CommaThenExact(t, s[..2]);
        assert s[2..] == Commas(Copies(t, n - 1));
        TimesExact(t, n - 1, s[2..]);
      }
    }
  }

  /** The first entry in its optional form: copies of it, each behind a comma. */
  lemma {:induction false} OptionalHead(slot: Slot, s: seq<Token>)
    ensures Accepts(HeadGram(slot, true), s)
            <==> exists n: nat :: (slot.many || n <= 1) && s == Commas(Copies(slot.token, n))
  {
    hide CommaThen, AcceptsTimes, Accepts;
    var g, max := CommaThen(slot.token), if slot.many then None else Some(1);
    RepeatAccepts(g, 0, max, s);
    if AcceptsBetween(g, 0, max, s) {
      var n := TimesOf(g, 0, max, s);
      TimesExact(slot.token, n, s);
    }
    if n: nat :| (slot.many || n <= 1) && s == Commas(Copies(slot.token, n)) {
      TimesExact(slot.token, n, s);
      BetweenOf(g, 0, max, s, n);
    }
  }

  /** The first entry where it must come: at least once, and without the first comma. */
  lemma {:induction false} FirstHead(slot: Slot, s: seq<Token>)
    ensures Accepts(HeadGram(slot, false), s)
            <==> exists n: nat :: n > 0 && (slot.many || n <= 1) && s == Joined(Copies(slot.token, n))
  {
    hide Accepts, AcceptsTimes;
    var t := slot.token;
    JoinedOne(t);
    if slot.many {
      CatWord([t], Repeat(CommaThen(t), 0, None), s);
      if |s| > 0 {
        OptionalHead(slot, s[1..]);
      }
      if Accepts(HeadGram(slot, false), s) {
        var n: nat :| s[1..] == Commas(Copies(t, n));
        JoinedMore(t, n);
        assert s == [t] + s[1..];
      }
      if n: nat :| n > 0 && s == Joined(Copies(t, n)) {
        JoinedMore(t, n - 1);
        var m: nat := n - 1;
        assert s[..1] == [t] && s[1..] == Commas(Copies(t, m));
        assert Accepts(HeadGram(slot, true), s[1..]);
      }
    } else {
      WordExact([t], s);
      var one: nat := 1;
      assert Joined(Copies(t, one)) == [t];
      if n: nat :| n > 0 && n <= 1 && s == Joined(Copies(t, n)) {
        assert n == one;
      }
      assert s == [t] ==> s == Joined(Copies(t, one));
    }
  }

  lemma {:induction false} JoinedOne(t: Token)
    ensures forall n: nat :: n > 0 && n <= 1 ==> Joined(Copies(t, n)) == [t]
  {
    assert Copies(t, 1) == [t] && Joined([t]) == [t];
  }

  lemma {:induction false} JoinedMore(t: Token, n: nat)
    ensures Joined(Copies(t, n + 1)) == [t] + Commas(Copies(t, n))
  {
    assert Copies(t, n + 1)[1..] == Copies(t, n) && Copies(t, n + 1)[0] == t;
  }

  ghost predicate Follows(slots: seq<Slot>, s: seq<Token>) {
    exists counts :: Allowed(slots, counts) && s == Commas(Spread(slots, counts))
  }

  ghost predicate Begins(slots: seq<Slot>, s: seq<Token>) {
    exists counts :: Allowed(slots, counts) && |counts| > 0 && counts[0] > 0 && s == Joined(Spread(slots, counts))
  }

  lemma {:induction false} AllowedCons(slots: seq<Slot>, n: nat, counts: seq<nat>)
    requires slots != []
    ensures Allowed(slots, [n] + counts) <==> (slots[0].many || n <= 1) && Allowed(slots[1..], counts)
    ensures |counts| == |slots| - 1 ==>
              Spread(slots, [n] + counts) == Copies(slots[0].token, n) + Spread(slots[1..], counts)
  {
    var all := [n] + counts;
    assert all[1..] == counts;
    if Allowed(slots, all) {
      forall i | 0 <= i < |slots[1..]|
        ensures slots[1..][i].many || counts[i] <= 1
      {
        assert slots[i + 1] == slots[1..][i] && all[i + 1] == counts[i];
      }
    }
  }

  lemma FollowsNothing(s: seq<Token>)
    ensures Follows([], s) <==> s == []
  {
    var none: seq<nat> := [];
    assert Allowed([], none);
  }

  /** Rest rules: any of the entries in order, each behind a comma. */
  lemma {:induction false} FollowsExact(slots: seq<Slot>, s: seq<Token>)
    ensures Accepts(RefsGram(slots, true), s) <==> Follows(slots, s)
    decreases |slots|
  {
    hide HeadGram, Follows;
    if slots == [] {
      FollowsNothing(s);
    } else {
      forall t: seq<Token>
        ensures Accepts(RefsGram(slots[1..], true), t) <==> Follows(slots[1..], t)
      {
        FollowsExact(slots[1..], t);
      }
      if Accepts(RefsGram(slots, true), s) {
        var k := HeadSplit(slots, true, s);
        OptionalHead(slots[0], s[..k]);
        var n: nat :| (slots[0].many || n <= 1) && s[..k] == Commas(Copies(slots[0].token, n));
        assert s == s[..k] + s[k..];
        FollowsTogether(slots, n, s[k..]);
      }
      if Follows(slots, s) {
        var n, t := FollowsApart(slots, s);
        var head := Commas(Copies(slots[0].token, n));
        OptionalHead(slots[0], head);
        HeadJoin(slots, true, head, t);
      }
    }
  }

  /** The head and the rest, also when the rest is empty and not written. */
  lemma HeadSplit(slots: seq<Slot>, optional: bool, s: seq<Token>) returns (k: nat)
    requires slots != [] && Accepts(RefsGram(slots, optional), s)
    ensures k <= |s| && Accepts(HeadGram(slots[0], optional), s[..k]) && Accepts(RefsGram(slots[1..], true), s[k..])
  {
    hide HeadGram;
    if |slots| > 1 {
      k :| 0 <= k <= |s| && Accepts(HeadGram(slots[0], optional), s[..k]) && Accepts(RefsGram(slots[1..], true), s[k..]);
    } else {
      k := |s|;
      assert s[..k] == s;
    }
  }

  lemma {:induction false} HeadJoin(slots: seq<Slot>, optional: bool, head: seq<Token>, rest: seq<Token>)
    requires slots != [] && Accepts(HeadGram(slots[0], optional), head) && Accepts(RefsGram(slots[1..], true), rest)
    ensures Accepts(RefsGram(slots, optional), head + rest)
  {
    hide HeadGram;
    if |slots| > 1 {
      CatIntro(HeadGram(slots[0], optional), RefsGram(slots[1..], true), head, rest);
    } else {
      assert head + rest == head;
    }
  }

  lemma {:induction false} FollowsTogether(slots: seq<Slot>, n: nat, t: seq<Token>)
    requires slots != [] && (slots[0].many || n <= 1) && Follows(slots[1..], t)
    ensures Follows(slots, Commas(Copies(slots[0].token, n)) + t)
  {
    hide Commas, Spread, Copies;
    var counts :| Allowed(slots[1..], counts) && t == Commas(Spread(slots[1..], counts));
    AllowedCons(slots, n, counts);
    CommasConcat(Copies(slots[0].token, n), Spread(slots[1..], counts));
    assert Allowed(slots, [n] + counts);
  }

  lemma FollowsApart(slots: seq<Slot>, s: seq<Token>) returns (n: nat, t: seq<Token>)
    requires slots != [] && Follows(slots, s)
    ensures (slots[0].many || n <= 1) && Follows(slots[1..], t) && s == Commas(Copies(slots[0].token, n)) + t
  {
    hide Commas, Spread, Copies;
    var counts: seq<nat> :| Allowed(slots, counts) && s == Commas(Spread(slots, counts));
    n := counts[0];
    assert counts == [n] + counts[1..];
    AllowedCons(slots, n, counts[1..]);
    t := Commas(Spread(slots[1..], counts[1..]));
    CommasConcat(Copies(slots[0].token, n), Spread(slots[1..], counts[1..]));
  }

  /** One alternative: its first entry comes, and the rest may follow. */
  lemma {:induction false} BeginsExact(slots: seq<Slot>, s: seq<Token>)
    requires slots != []
    ensures Accepts(RefsGram(slots, false), s) <==> Begins(slots, s)
  {
    hide HeadGram, Follows, RefsGram, Accepts;
    forall t: seq<Token>
      ensures Accepts(RefsGram(slots[1..], true), t) <==> Follows(slots[1..], t)
    {
      FollowsExact(slots[1..], t);
    }
    if Accepts(RefsGram(slots, false), s) {
      var k := HeadSplit(slots, false, s);
      FirstHead(slots[0], s[..k]);
      var n: nat :| n > 0 && (slots[0].many || n <= 1) && s[..k] == Joined(Copies(slots[0].token, n));
      BeginsTogether(slots, n, s[k..]);
      assert s == s[..k] + s[k..];
    }
    if Begins(slots, s) {
      var n, t := BeginsApart(slots, s);
      var head := Joined(Copies(slots[0].token, n));
      FirstHead(slots[0], head);
      HeadJoin(slots, false, head, t);
    }
  }

  lemma {:induction false} BeginsTogether(slots: seq<Slot>, n: nat, t: seq<Token>)
    requires slots != [] && n > 0 && (slots[0].many || n <= 1) && Follows(slots[1..], t)
    ensures Begins(slots, Joined(Copies(slots[0].token, n)) + t)
  {
    hide Commas, Spread, Copies, Joined;
    var counts :| Allowed(slots[1..], counts) && t == Commas(Spread(slots[1..], counts));
    AllowedCons(slots, n, counts);
    JoinedConcat(Copies(slots[0].token, n), Spread(slots[1..], counts));
    assert Allowed(slots, [n] + counts);
  }

  lemma BeginsApart(slots: seq<Slot>, s: seq<Token>) returns (n: nat, t: seq<Token>)
    requires slots != [] && Begins(slots, s)
    ensures n > 0 && (slots[0].many || n <= 1) && Follows(slots[1..], t) && s == Joined(Copies(slots[0].token, n)) + t
  {
    hide Commas, Spread, Copies, Joined;
    var counts: seq<nat> :| Allowed(slots, counts) && |counts| > 0 && counts[0] > 0 && s == Joined(Spread(slots, counts));
    n := counts[0];
    assert counts == [n] + counts[1..];
    AllowedCons(slots, n, counts[1..]);
    t := Commas(Spread(slots[1..], counts[1..]));
    JoinedConcat(Copies(slots[0].token, n), Spread(slots[1..], counts[1..]));
  }

  // ---- the alternatives ----

  /** One of the first `n` entries comes first. */
  ghost predicate SomeBegins(slots: seq<Slot>, n: nat, s: seq<Token>)
    requires n <= |slots|
  {
    exists i :: 0 <= i < n && Begins(slots[i..], s)
  }

  lemma {:induction false} FirstsExact(slots: seq<Slot>, n: nat, s: seq<Token>)
    requires 0 < n <= |slots|
    ensures Accepts(FirstsGram(slots, n), s) <==> SomeBegins(slots, n, s)
    decreases n
  {
    hide Begins, RefsGram;
    BeginsExact(slots[n - 1..], s);
    if n > 1 {
      FirstsExact(slots, n - 1, s);
    }
  }

  /** A choice that is not empty. */
  ghost predicate SomeChosen(slots: seq<Slot>, s: seq<Token>) {
    exists counts :: Allowed(slots, counts) && Spread(slots, counts) != [] && s == Joined(Spread(slots, counts))
  }

  /** Some entry comes first exactly when the choice is not empty. */
  lemma {:induction false} SomeBeginsIff(slots: seq<Slot>, s: seq<Token>)
    ensures SomeBegins(slots, |slots|, s) <==> SomeChosen(slots, s)
    decreases |slots|
  {
    hide SomeChosen, SomeBegins, Begins;
    if slots == [] {
      NothingChosen(s);
    } else {
      SomeBeginsIff(slots[1..], s);
      SomeBeginsCons(slots, s);
      SomeChosenCons(slots, s);
    }
  }

  lemma NothingChosen(s: seq<Token>)
    ensures !SomeBegins([], 0, s) && !SomeChosen([], s)
  {
  }

  lemma {:induction false} SpreadNonEmpty(slots: seq<Slot>, counts: seq<nat>)
    requires Allowed(slots, counts) && counts != [] && counts[0] > 0
    ensures Spread(slots, counts) != []
  {
  }

  lemma SomeBeginsCons(slots: seq<Slot>, s: seq<Token>)
    requires slots != []
    ensures SomeBegins(slots, |slots|, s) <==> Begins(slots, s) || SomeBegins(slots[1..], |slots[1..]|, s)
  {
    hide Begins;
    assert slots[0..] == slots;
    if SomeBegins(slots, |slots|, s) {
      var i :| 0 <= i < |slots| && Begins(slots[i..], s);
      if i > 0 {
        assert slots[1..][i - 1..] == slots[i..];
      }
    }
    if SomeBegins(slots[1..], |slots[1..]|, s) {
      var i :| 0 <= i < |slots[1..]| && Begins(slots[1..][i..], s);
      assert slots[1..][i..] == slots[i + 1..];
    }
  }

  lemma SomeChosenCons(slots: seq<Slot>, s: seq<Token>)
    requires slots != []
    ensures SomeChosen(slots, s) <==> Begins(slots, s) || SomeChosen(slots[1..], s)
  {
    hide Joined, Spread;
    if SomeChosen(slots, s) {
      var counts: seq<nat> :| Allowed(slots, counts) && Spread(slots, counts) != [] && s == Joined(Spread(slots, counts));
      if counts[0] == 0 {
        assert counts == [0] + counts[1..];
        AllowedCons(slots, 0, counts[1..]);
        SkipFirst(slots, counts[1..]);
      }
    }
    if Begins(slots, s) {
      var counts :| Allowed(slots, counts) && |counts| > 0 && counts[0] > 0 && s == Joined(Spread(slots, counts));
      SpreadNonEmpty(slots, counts);
    }
    if SomeChosen(slots[1..], s) {
      var counts: seq<nat> :| Allowed(slots[1..], counts) && Spread(slots[1..], counts) != [] && s == Joined(Spread(slots[1..], counts));
      SkipFirst(slots, counts);
      var all: seq<nat> := [0] + counts;
      assert Allowed(slots, all) && Spread(slots, all) != [];
    }
  }

  lemma {:induction false} SkipFirst(slots: seq<Slot>, counts: seq<nat>)
    requires slots != [] && Allowed(slots[1..], counts)
    ensures Allowed(slots, [0] + counts) && Spread(slots, [0] + counts) == Spread(slots[1..], counts)
  {
    AllowedCons(slots, 0, counts);
    assert [] + Spread(slots[1..], counts) == Spread(slots[1..], counts);
  }

  lemma {:induction false} RequiredExact(required: seq<Token>, s: seq<Token>)
    ensures Accepts(RequiredGram(required), s) <==> s == [Open] + Joined(required)
    decreases |required|
  {
    hide Joined, Accepts;
    if required == [] {
      WordExact([Open], s);
      JoinedNothing();
    } else {
      var n := |required| - 1;
      var before, last := required[..n], required[n];
      var front := if n > 0 then Cat(RequiredGram(before), Word([Comma])) else RequiredGram(before);
      var start := [Open] + Joined(before);
      var expected := if n > 0 then start + [Comma] else start;
      forall t: seq<Token>
        ensures Accepts(front, t) <==> t == expected
      {
        if n > 0 {
          if |t| > 0 {
            RequiredExact(before, t[..|t| - 1]);
          }
          WithLast(RequiredGram(before), start, Comma, t);
        } else {
          RequiredExact(before, t);
        }
      }
      WithLast(front, expected, last, s);
      assert required == before + [last];
      JoinedSnoc(before, last);
    }
  }

  lemma {:induction false} WithLast(g: Gram<Token>, expected: seq<Token>, last: Token, s: seq<Token>)
    requires |s| > 0 ==> (Accepts(g, s[..|s| - 1]) <==> s[..|s| - 1] == expected)
    ensures Accepts(Cat(g, Word([last])), s) <==> s == expected + [last]
  {
    hide Accepts;
    CatThenWord(g, [last], s);
    if |s| > 0 {
      assert s == s[..|s| - 1] + s[|s| - 1..];
    }
  }

  lemma JoinedSnoc(before: seq<Token>, last: Token)
    ensures Joined(before + [last]) == Joined(before) + (if before == [] then [last] else [Comma, last])
  {
    if before != [] {
      JoinedConcat(before, [last]);
      assert Commas([last]) == [Comma, last] + Commas([]);
    } else {
      assert before + [last] == [last];
    }
  }

  // ---- the whole rule ----

  /** An object: its members between the braces, with a comma between neighbours and no other. */
  ghost predicate Written(required: seq<Token>, slots: seq<Slot>, s: seq<Token>) {
    exists items :: Lists(required, slots, items) && s == [Open] + Joined(items) + [Close]
  }

  /** What may stand between the required members and the closing brace. */
  ghost predicate OptionalPart(required: seq<Token>, slots: seq<Slot>, s: seq<Token>) {
    exists counts :: Allowed(slots, counts) && s == OptionalText(required == [], Spread(slots, counts))
  }

  function OptionalText(first: bool, items: seq<Token>): seq<Token> {
    if first then Joined(items) else Commas(items)
  }

  lemma {:induction false} OptionalPartExact(required: seq<Token>, slots: seq<Slot>, s: seq<Token>)
    requires slots != []
    ensures var firsts := FirstsGram(slots, |slots|);
            var optional := if required == [] then firsts else Cat(Word([Comma]), firsts);
            Accepts(Repeat(optional, 0, Some(1)), s) <==> OptionalPart(required, slots, s)
  {
    hide Accepts, SomeBegins, SomeChosen, FirstsGram, OptionalPart;
    var firsts := FirstsGram(slots, |slots|);
    var optional := if required == [] then firsts else Cat(Word([Comma]), firsts);
    RepeatOnce(optional, s);
    if required == [] {
      FirstsExact(slots, |slots|, s);
      SomeBeginsIff(slots, s);
    } else {
      CatWord([Comma], firsts, s);
      if |s| > 0 {
        FirstsExact(slots, |slots|, s[1..]);
        SomeBeginsIff(slots, s[1..]);
      }
    }
    OptionalPartIff(required, slots, s);
  }

  /** Nothing, or a choice that is not empty. */
  lemma OptionalPartIff(required: seq<Token>, slots: seq<Slot>, s: seq<Token>)
    ensures OptionalPart(required, slots, s)
            <==> || s == []
                 || if required == [] then SomeChosen(slots, s)
                    else |s| > 0 && s[..1] == [Comma] && SomeChosen(slots, s[1..])
  {
    hide Spread, Joined;
    var none := seq(|slots|, _ => 0);
    NoneSpread(slots);
    JoinedNothing();
    if OptionalPart(required, slots, s) {
      var counts :| Allowed(slots, counts) && s == OptionalText(required == [], Spread(slots, counts));
      if Spread(slots, counts) != [] && required != [] {
        CommasOfJoined(Spread(slots, counts));
        assert s[1..] == Joined(Spread(slots, counts)) && s[..1] == [Comma];
      }
    }
    if s == [] {
      assert s == OptionalText(required == [], Spread(slots, none));
    } else if required == [] {
      if SomeChosen(slots, s) {
        var counts :| Allowed(slots, counts) && Spread(slots, counts) != [] && s == Joined(Spread(slots, counts));
        assert s == OptionalText(required == [], Spread(slots, counts));
      }
    } else if s[..1] == [Comma] {
      if SomeChosen(slots, s[1..]) {
        var counts :| Allowed(slots, counts) && Spread(slots, counts) != [] && s[1..] == Joined(Spread(slots, counts));
        CommasOfJoined(Spread(slots, counts));
        assert s == s[..1] + s[1..];
        assert s == OptionalText(required == [], Spread(slots, counts));
      }
    }
  }

  lemma {:induction false} NoneSpread(slots: seq<Slot>)
    ensures Allowed(slots, seq(|slots|, _ => 0)) && Spread(slots, seq(|slots|, _ => 0)) == []
    decreases |slots|
  {
    if slots != [] {
      NoneSpread(slots[1..]);
      assert seq<nat>(|slots|, _ => 0)[1..] == seq<nat>(|slots[1..]|, _ => 0);
    }
  }

  lemma JoinedParts(required: seq<Token>, items: seq<Token>)
    ensures Joined(required + items) == Joined(required) + OptionalText(required == [], items)
  {
    if required == [] {
      assert required + items == items;
    } else {
      JoinedConcat(required, items);
    }
  }

  /** The opening brace and the required members, and a part behind them. */
  ghost predicate StartedWith(required: seq<Token>, slots: seq<Slot>, u: seq<Token>) {
    exists part :: OptionalPart(required, slots, part) && u == [Open] + Joined(required) + part
  }

  lemma {:induction false} StartThen(required: seq<Token>, slots: seq<Slot>, optional: Gram<Token>, u: seq<Token>)
    requires forall part: seq<Token> :: Accepts(optional, part) <==> OptionalPart(required, slots, part)
    ensures Accepts(Cat(RequiredGram(required), optional), u) <==> StartedWith(required, slots, u)
  {
    hide Accepts, RequiredGram, Joined, OptionalPart;
    var start := [Open] + Joined(required);
    if Accepts(Cat(RequiredGram(required), optional), u) {
      var k := CatApart(RequiredGram(required), optional, u);
      RequiredExact(required, u[..k]);
      assert u == u[..k] + u[k..];
    }
    if StartedWith(required, slots, u) {
      var part :| OptionalPart(required, slots, part) && u == start + part;
      RequiredExact(required, start);
      CatIntro(RequiredGram(required), optional, start, part);
    }
  }

  lemma WrittenIff(required: seq<Token>, slots: seq<Slot>, s: seq<Token>)
    ensures Written(required, slots, s)
            <==> |s| > 0 && s[|s| - 1..] == [Close] && StartedWith(required, slots, s[..|s| - 1])
  {
    hide Spread, Joined, OptionalText;
    if Written(required, slots, s) {
      var items :| Lists(required, slots, items) && s == [Open] + Joined(items) + [Close];
      var counts :| Allowed(slots, counts) && items == required + Spread(slots, counts);
      JoinedParts(required, Spread(slots, counts));
      var part := OptionalText(required == [], Spread(slots, counts));
      assert OptionalPart(required, slots, part);
      assert s[..|s| - 1] == [Open] + Joined(required) + part;
    }
    if |s| > 0 && s[|s| - 1..] == [Close] && StartedWith(required, slots, s[..|s| - 1]) {
      var part :| OptionalPart(required, slots, part) && s[..|s| - 1] == [Open] + Joined(required) + part;
      var counts :| Allowed(slots, counts) && part == OptionalText(required == [], Spread(slots, counts));
      JoinedParts(required, Spread(slots, counts));
      var items := required + Spread(slots, counts);
      assert Lists(required, slots, items);
      assert s == s[..|s| - 1] + s[|s| - 1..];
      assert s == [Open] + Joined(items) + [Close];
    }
  }

  lemma NoSlots(required: seq<Token>, part: seq<Token>)
    ensures OptionalPart(required, [], part) <==> part == []
  {
    var none: seq<nat> := [];
    assert Allowed([], none) && Spread([], none) == [];
    assert OptionalText(required == [], []) == [];
  }

  /**
   The object rule accepts exactly the lists of members made of all the required ones in order,
   followed by any choice of the optional ones in order, with no comma missing and none to spare.
   */
  lemma {:induction false} ObjectExact(required: seq<Token>, slots: seq<Slot>, s: seq<Token>)
    ensures Accepts(ObjectGram(required, slots), s) <==> Written(required, slots, s)
  {
    hide Accepts, RequiredGram, FirstsGram, OptionalPart, StartedWith, Written, Joined;
    var start := RequiredGram(required);
    WrittenIff(required, slots, s);
    if slots == [] {
      CatThenWord(start, [Close], s);
      if |s| > 0 {
        RequiredExact(required, s[..|s| - 1]);
        NoSlotsStarted(required, s[..|s| - 1]);
      }
    } else {
      var firsts := FirstsGram(slots, |slots|);
      var optional := Repeat(if required == [] then firsts else Cat(Word([Comma]), firsts), 0, Some(1));
      CatThenWord(Cat(start, optional), [Close], s);
      if |s| > 0 {
        forall part: seq<Token>
          ensures Accepts(optional, part) <==> OptionalPart(required, slots, part)
        {
          OptionalPartExact(required, slots, part);
        }
        StartThen(required, slots, optional, s[..|s| - 1]);
      }
    }
  }

  lemma NoSlotsStarted(required: seq<Token>, u: seq<Token>)
    ensures StartedWith(required, [], u) <==> u == [Open] + Joined(required)
  {
    hide OptionalPart, Joined;
    forall part: seq<Token>
      ensures OptionalPart(required, [], part) <==> part == []
    {
      NoSlots(required, part);
    }
    assert u == [Open] + Joined(required) ==> u == [Open] + Joined(required) + [];
  }
}
