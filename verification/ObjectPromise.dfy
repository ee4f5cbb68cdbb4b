/**
 When the object rule is what the schema asks for: each required name once, then each optional
 property at most once, then other properties any number of times. Three things can get in the way,
 and nothing else. The additional entry is filed under the name "*" and only that name repeats,
 json-schema-to-grammar.cpp:652-653 and 672-680, so a property may not be called "*". A property may be
 listed twice, as the components of an `allOf` may do, 866-913. And every string of `required` is
 taken, 845-851, but only those that are properties are looked for, 629-644.
 */
module ObjectPromise {
  import opened CommonStrings
  import opened Gbnf
  import opened ObjectGrammar
  import opened ObjectRule

  ghost predicate Distinct(properties: seq<Property>) {
    forall i, j :: 0 <= i < j < |properties| ==> properties[i].name != properties[j].name
  }

  /** The names, each where it comes first. */
  function Unique(names: seq<string>): (r: seq<string>)
    ensures forall n :: n in r <==> n in names
    ensures forall i, j :: 0 <= i < j < |r| ==> r[i] != r[j]
    ensures |r| <= |names|
  {
    if names == [] then [] else
    var last := |names| - 1;
    var before := Unique(names[..last]);
    assert names == names[..last] + [names[last]];
    if names[last] in before then before else before + [names[last]]
  }

  /** Each required property once. */
  function RequiredMembers(properties: seq<Property>, required: set<string>): seq<Token> {
    NamesAreMembers(properties, required, true);
    TokensOf(Unique(Select(properties, required, true)), OwnMembers(properties))
  }

  /** Every optional property at most once, and other properties any number of times. */
  function OptionalMembers(properties: seq<Property>, required: set<string>, additional: Option<string>): seq<Slot> {
    NamesAreMembers(properties, required, false);
    var own := TokensOf(Unique(Select(properties, required, false)), OwnMembers(properties));
    seq(|own|, i requires 0 <= i < |own| => Slot(own[i], false))
    + match additional
      case Some(value) => [Slot(Additional(properties, value), true)]
      case None => []
  }

  /** The members for the properties that are required, or for those that are not, in the order of the schema. */
  function Wanted(properties: seq<Property>, required: set<string>, yes: bool): seq<Token> {
    if properties == [] then [] else
    var p := properties[0];
    (if (p.name in required) == yes then [Member(p.name, p.valueRule)] else []) + Wanted(properties[1..], required, yes)
  }

  /**
   With no property listed twice, what is asked for is each required property with its own value, in order;
   then each other property; then members of any other name.
   */
  lemma {:induction false} WantedAre(properties: seq<Property>, required: set<string>, additional: Option<string>)
    requires Distinct(properties)
    ensures RequiredMembers(properties, required) == Wanted(properties, required, true)
    ensures var own := Wanted(properties, required, false);
            OptionalMembers(properties, required, additional)
            == seq(|own|, i requires 0 <= i < |own| => Slot(own[i], false))
               + match additional
                 case Some(value) => [Slot(Other(PropertyNames(properties), value), true)]
                 case None => []
  {
    SelectedAre(properties, required, true);
    SelectedAre(properties, required, false);
  }

  lemma {:induction false} SelectedAre(properties: seq<Property>, required: set<string>, yes: bool)
    requires Distinct(properties)
    ensures forall n :: n in Select(properties, required, yes) ==> n in OwnMembers(properties)
    ensures TokensOf(Unique(Select(properties, required, yes)), OwnMembers(properties)) == Wanted(properties, required, yes)
    decreases |properties|
  {
    hide TokensOf, Wanted;
    NamesAreMembers(properties, required, yes);
    if properties == [] {
      NoneWanted(required, yes);
    } else {
      var last := |properties| - 1;
      var before, p := properties[..last], properties[last];
      var names, old_, now := Select(before, required, yes), OwnMembers(before), OwnMembers(properties);
      SelectedAre(before, required, yes);
      SelectedNames(before, required, yes);
      WantedSnoc(before, p, required, yes);
      assert before + [p] == properties;
      assert forall n :: n in names ==> n != p.name && n in old_;
      SameTokens(Unique(names), old_, now);
      if (p.name in required) == yes {
        assert p.name !in names;
        UniqueSnoc(names, p.name);
        TokensSnoc(Unique(names), p.name, now);
      }
    }
  }

  lemma {:induction false} NoneWanted(required: set<string>, yes: bool)
    ensures Wanted([], required, yes) == [] && TokensOf(Unique(Select([], required, yes)), OwnMembers([])) == []
  {
  }

  lemma {:induction false} UniqueSnoc(names: seq<string>, n: string)
    requires n !in names
    ensures Unique(names + [n]) == Unique(names) + [n]
  {
    assert (names + [n])[..|names|] == names;
  }

  lemma SameTokens(names: seq<string>, a: map<string, Token>, b: map<string, Token>)
    requires forall n :: n in names ==> n in a && n in b && a[n] == b[n]
    ensures TokensOf(names, a) == TokensOf(names, b)
  {
  }

  lemma TokensSnoc(names: seq<string>, n: string, members: map<string, Token>)
    requires n in members && forall k :: k in names ==> k in members
    ensures TokensOf(names + [n], members) == TokensOf(names, members) + [members[n]]
  {
  }

  lemma {:induction false} SelectedNames(properties: seq<Property>, required: set<string>, yes: bool)
    ensures forall n :: n in Select(properties, required, yes) ==> exists i :: 0 <= i < |properties| && properties[i].name == n
    decreases |properties|
  {
    if properties != [] {
      SelectedNames(properties[..|properties| - 1], required, yes);
    }
  }

  lemma {:induction false} WantedSnoc(before: seq<Property>, p: Property, required: set<string>, yes: bool)
    ensures Wanted(before + [p], required, yes)
            == Wanted(before, required, yes) + if (p.name in required) == yes then [Member(p.name, p.valueRule)] else []
    decreases |before|
  {
    if before != [] {
      WantedSnoc(before[1..], p, required, yes);
      assert (before + [p])[1..] == before[1..] + [p];
    }
  }

  /** Apart from names that are no property, the rule accepts exactly what the schema asks for. */
  ghost predicate ListsWanted(properties: seq<Property>, required: set<string>, additional: Option<string>) {
    forall s: seq<Token> ::
      Accepts(RuleGram(properties, required, additional), s)
      <==> Written(RequiredMembers(properties, required), OptionalMembers(properties, required, additional), s)
  }

  /** Names for the members of an object: a property's own, and any that is not excluded for another member. */
  ghost predicate Named(s: seq<Token>, names: seq<string>) {
    |names| == |s| && forall i :: 0 <= i < |s| ==>
      match s[i]
      case Member(key, _) => names[i] == key
      case Other(excluded, _) => names[i] !in excluded
      case _ => true
  }

  predicate Carries(s: seq<Token>, names: seq<string>, n: string)
    requires |names| == |s|
  {
    exists i :: 0 <= i < |s| && (s[i].Member? || s[i].Other?) && names[i] == n
  }

  /** The rule accepts exactly the objects the schema asks for, whatever names their other members have. */
  ghost predicate KeepsPromise(properties: seq<Property>, required: set<string>, additional: Option<string>) {
    forall s: seq<Token>, names: seq<string> | Named(s, names) ::
      Accepts(RuleGram(properties, required, additional), s)
      <==> && Written(RequiredMembers(properties, required), OptionalMembers(properties, required, additional), s)
           && forall n :: n in required ==> Carries(s, names, n)
  }

  /** Every required name is a property. */
  ghost predicate Listed(properties: seq<Property>, required: set<string>) {
    forall n :: n in required ==> n in PropertyNames(properties)
  }

  /** A property is called "*", and it is optional or there are additional properties besides. */
  ghost predicate StarClash(properties: seq<Property>, required: set<string>, additional: Option<string>) {
    (exists i :: 0 <= i < |properties| && properties[i].name == "*") && ("*" !in required || additional.Some?)
  }

  // ---- names and members ----

  lemma {:induction false} SelectHolds(properties: seq<Property>, required: set<string>, wanted: bool, n: string)
    ensures n in Select(properties, required, wanted)
            <==> (n in required) == wanted && n in PropertyNames(properties)
    decreases |properties|
  {
    if properties != [] {
      var last := |properties| - 1;
      SelectHolds(properties[..last], required, wanted, n);
      assert PropertyNames(properties) == PropertyNames(properties[..last]) + [properties[last].name];
    }
  }

  lemma {:induction false} SelectDistinct(properties: seq<Property>, required: set<string>, wanted: bool)
    requires Distinct(properties)
    ensures var names := Select(properties, required, wanted);
            forall i, j :: 0 <= i < j < |names| ==> names[i] != names[j]
    decreases |properties|
  {
    if properties != [] {
      var last := |properties| - 1;
      SelectDistinct(properties[..last], required, wanted);
      SelectHolds(properties[..last], required, wanted, properties[last].name);
    }
  }

  /** A property's own member carries its name. */
  lemma {:induction false} OwnKey(properties: seq<Property>, n: string)
    ensures n in OwnMembers(properties) <==> n in PropertyNames(properties)
    ensures n in OwnMembers(properties) ==> OwnMembers(properties)[n].Member? && OwnMembers(properties)[n].key == n
    decreases |properties|
  {
    if properties != [] {
      var last := |properties| - 1;
      OwnKey(properties[..last], n);
      assert PropertyNames(properties) == PropertyNames(properties[..last]) + [properties[last].name];
    }
  }

  lemma {:induction false} UniqueSame(names: seq<string>)
    ensures (forall i, j :: 0 <= i < j < |names| ==> names[i] != names[j]) ==> Unique(names) == names
    ensures (exists i, j :: 0 <= i < j < |names| && names[i] == names[j]) ==> |Unique(names)| < |names|
  {
    if names != [] {
      var last := |names| - 1;
      UniqueSame(names[..last]);
      assert names == names[..last] + [names[last]];
      if i, j :| 0 <= i < j < |names| && names[i] == names[j] {
        if j < last {
          assert names[..last][i] == names[..last][j];
        } else {
          assert names[..last][i] == names[last];
        }
      }
    }
  }

  /** A property that comes twice is twice among the required or twice among the optional ones. */
  lemma {:induction false} SelectTwice(properties: seq<Property>, required: set<string>, i: nat, j: nat) returns (k: nat, l: nat)
    requires i < j < |properties| && properties[i].name == properties[j].name
    ensures var names := Select(properties, required, properties[j].name in required);
            k < l < |names| && names[k] == names[l] == properties[j].name
    decreases |properties|
  {
    var last := |properties| - 1;
    var n := properties[j].name;
    var wanted := n in required;
    if j < last {
      k, l := SelectTwice(properties[..last], required, i, j);
    } else {
      assert PropertyNames(properties[..last])[i] == n;
      SelectHolds(properties[..last], required, wanted, n);
      k := IndexIn(Select(properties[..last], required, wanted), n);
      l := |Select(properties[..last], required, wanted)|;
    }
  }

  // ---- without a clash ----

  /** No name is twice among the required properties, or among the optional ones. */
  ghost predicate NoneTwice(properties: seq<Property>, required: set<string>, wanted: bool) {
    var names := Select(properties, required, wanted);
    forall i, j :: 0 <= i < j < |names| ==> names[i] != names[j]
  }

  lemma {:induction false} DistinctNoneTwice(properties: seq<Property>, required: set<string>, wanted: bool)
    ensures Distinct(properties) ==> NoneTwice(properties, required, wanted)
    ensures NoneTwice(properties, required, wanted)
            ==> Unique(Select(properties, required, wanted)) == Select(properties, required, wanted)
  {
    if Distinct(properties) {
      SelectDistinct(properties, required, wanted);
    }
    UniqueSame(Select(properties, required, wanted));
  }

  lemma NoClashSame(properties: seq<Property>, required: set<string>, additional: Option<string>)
    requires Distinct(properties) && !StarClash(properties, required, additional)
    ensures RuleGram(properties, required, additional)
            == ObjectGram(RequiredMembers(properties, required), OptionalMembers(properties, required, additional))
  {
    NamesAreMembers(properties, required, true);
    NamesAreMembers(properties, required, false);
    var own, members := OwnMembers(properties), Members(properties, additional);
    var names, optional := Select(properties, required, true), OptionalNames(properties, required, additional);
    DistinctNoneTwice(properties, required, true);
    DistinctNoneTwice(properties, required, false);
    hide Unique, Distinct, NoneTwice, Select;
    forall n | n in PropertyNames(properties)
      ensures n in own && members[n] == own[n]
      ensures n !in required ==> n != "*"
    {
      OwnKey(properties, n);
      var i :| 0 <= i < |properties| && properties[i].name == n;
    }
    forall n
      ensures n in names ==> n in PropertyNames(properties)
      ensures n in Select(properties, required, false) ==> n in PropertyNames(properties) && n !in required
    {
      SelectHolds(properties, required, true, n);
      SelectHolds(properties, required, false, n);
    }
    assert TokensOf(names, members) == RequiredMembers(properties, required);
    assert SlotsOf(optional, members) == OptionalMembers(properties, required, additional);
  }

  // ---- with a clash ----

  lemma {:induction false} SpreadTokens(slots: seq<Slot>, counts: seq<nat>, t: Token)
    requires |counts| == |slots| && forall i :: 0 <= i < |slots| ==> slots[i].token != t
    ensures t !in Spread(slots, counts)
    decreases |slots|
  {
    if slots != [] {
      CopiesOnly(slots[0].token, counts[0], t);
      SpreadTokens(slots[1..], counts[1..], t);
    }
  }

  lemma {:induction false} CopiesOnly(t: Token, n: nat, u: Token)
    ensures u in Copies(t, n) ==> u == t
  {
    if n > 0 {
      CopiesOnly(t, n - 1, u);
    }
  }

  /** Distinct entries do not give the same member twice, if the one for it comes at most once. */
  lemma {:induction false} NeverTwice(slots: seq<Slot>, counts: seq<nat>, t: Token)
    requires Allowed(slots, counts) && forall i :: 0 <= i < |slots| ==> !slots[i].many || slots[i].token != t
    requires forall i, j :: 0 <= i < j < |slots| ==> slots[i].token != slots[j].token
    ensures Spread(slots, counts) != [t, t]
    decreases |slots|
  {
    if slots != [] {
      var rest := Spread(slots[1..], counts[1..]);
      assert counts[0] == 1 ==> Copies(slots[0].token, 1) == [slots[0].token];
      if counts[0] == 0 {
        assert Spread(slots, counts) == rest;
        NeverTwice(slots[1..], counts[1..], t);
      } else if slots[0].many {
        assert Spread(slots, counts)[0] == slots[0].token;
      } else {
        assert Spread(slots, counts) == [slots[0].token] + rest;
        SpreadTokens(slots[1..], counts[1..], slots[0].token);
        NotTwice(slots[0].token, rest, t);
      }
    }
  }

  lemma NotTwice(a: Token, rest: seq<Token>, t: Token)
    requires a !in rest
    ensures [a] + rest != [t, t]
  {
    var both := [a] + rest;
    assert |both| == |rest| + 1 && both[0] == a;
    if |rest| == 1 {
      assert both[1] == rest[0] && rest[0] in rest;
    }
  }

  /** A choice of one entry, so often. */
  lemma {:induction false} ChooseOne(slots: seq<Slot>, i: nat, n: nat) returns (counts: seq<nat>)
    requires i < |slots| && (slots[i].many || n <= 1)
    ensures Allowed(slots, counts) && Spread(slots, counts) == Copies(slots[i].token, n)
    decreases i
  {
    if i == 0 {
      NoneSpread(slots[1..]);
      var none := seq<nat>(|slots[1..]|, _ => 0);
      counts := [n] + none;
      AllowedCons(slots, n, none);
      assert Copies(slots[0].token, n) + [] == Copies(slots[0].token, n);
    } else {
      var rest := ChooseOne(slots[1..], i - 1, n);
      SkipFirst(slots, rest);
      counts := [0] + rest;
    }
  }

  /** A choice of two entries, once each. */
  lemma {:induction false} ChooseTwo(slots: seq<Slot>, i: nat, j: nat) returns (counts: seq<nat>)
    requires i < j < |slots|
    ensures Allowed(slots, counts) && Spread(slots, counts) == [slots[i].token, slots[j].token]
    decreases i
  {
    if i == 0 {
      var rest := ChooseOne(slots[1..], j - 1, 1);
      counts := [1] + rest;
      AllowedCons(slots, 1, rest);
      assert Copies(slots[0].token, 1) == [slots[0].token] && Copies(slots[j].token, 1) == [slots[j].token];
    } else {
      var rest := ChooseTwo(slots[1..], i - 1, j - 1);
      SkipFirst(slots, rest);
      counts := [0] + rest;
    }
  }

  lemma {:induction false} IndexIn(names: seq<string>, n: string) returns (i: nat)
    requires n in names
    ensures i < |names| && names[i] == n
  {
    i :| 0 <= i < |names| && names[i] == n;
  }

  lemma WrittenItems(required: seq<Token>, slots: seq<Slot>, items: seq<Token>)
    ensures Written(required, slots, [Open] + Joined(items) + [Close]) <==> Lists(required, slots, items)
  {
    hide Joined, Lists;
    var s := [Open] + Joined(items) + [Close];
    if Written(required, slots, s) {
      var others :| Lists(required, slots, others) && s == [Open] + Joined(others) + [Close];
      assert s[1..|s| - 1] == Joined(items) && s[1..|s| - 1] == Joined(others);
      JoinedInjective(items, others);
    }
  }

  /** The members the rule really lists, of which one is given up or repeated. */
  lemma StarOptionalRepeats(properties: seq<Property>, required: set<string>) returns (items: seq<Token>)
    requires "*" in PropertyNames(properties) && "*" !in required && NoneTwice(properties, required, true)
    ensures Differs(properties, required, None, items)
  {
    DistinctNoneTwice(properties, required, true);
    hide Unique, Distinct, NoneTwice, Select;
    var names := Select(properties, required, false);
    var members := OwnMembers(properties);
    NamesAreMembers(properties, required, true);
    NamesAreMembers(properties, required, false);
    SelectHolds(properties, required, false, "*");
    var i := IndexIn(names, "*");
    var star := members["*"];
    var actual := SlotsOf(names + [], members);
    assert names + [] == names;
    var first := RequiredMembers(properties, required);
    items := first + [star, star];
    var counts := ChooseOne(actual, i, 2);
    assert Copies(star, 2) == [star] + Copies(star, 1) == [star, star];
    assert Lists(first, actual, items);
    var slots := OptionalMembers(properties, required, None);
    if Lists(first, slots, items) {
      var other :| Allowed(slots, other) && items == first + Spread(slots, other);
      assert items[|first|..] == [star, star] && items[|first|..] == Spread(slots, other);
      OptionalDistinct(properties, required, None);
      OwnKey(properties, "*");
      NeverTwice(slots, other, star);
    }
  }

  /** The entries the schema asks for are distinct, and only additional properties repeat. */
  lemma OptionalDistinct(properties: seq<Property>, required: set<string>, additional: Option<string>)
    ensures var slots := OptionalMembers(properties, required, additional);
            && (forall i, j :: 0 <= i < j < |slots| ==> slots[i].token != slots[j].token)
            && (forall i :: 0 <= i < |slots| ==> !slots[i].many || !slots[i].token.Member?)
  {
    NamesAreMembers(properties, required, false);
    var names := Unique(Select(properties, required, false));
    forall n | n in names
      ensures OwnMembers(properties)[n].Member? && OwnMembers(properties)[n].key == n
    {
      OwnKey(properties, n);
    }
  }

  /** A required property that is listed twice is demanded twice. */
  lemma RequiredTwice(properties: seq<Property>, required: set<string>, additional: Option<string>) returns (items: seq<Token>)
    requires !NoneTwice(properties, required, true)
    ensures Differs(properties, required, additional, items)
  {
    NamesAreMembers(properties, required, true);
    NamesAreMembers(properties, required, false);
    UniqueSame(Select(properties, required, true));
    items := RequiredMembers(properties, required);
    var slots := OptionalMembers(properties, required, additional);
    NoneSpread(slots);
    assert items == items + Spread(slots, seq(|slots|, _ => 0));
    assert Lists(items, slots, items);
  }

  /** An optional property that is listed twice may come twice. */
  lemma OptionalTwice(properties: seq<Property>, required: set<string>, additional: Option<string>, i: nat, j: nat)
    returns (items: seq<Token>)
    requires NoneTwice(properties, required, true) && !StarClash(properties, required, additional)
    requires i < j < |Select(properties, required, false)|
    requires Select(properties, required, false)[i] == Select(properties, required, false)[j]
    ensures Differs(properties, required, additional, items)
  {
    NamesAreMembers(properties, required, true);
    NamesAreMembers(properties, required, false);
    DistinctNoneTwice(properties, required, true);
    hide Unique, Distinct, NoneTwice, Select, StarClash;
    var names, own, members := OptionalNames(properties, required, additional), OwnMembers(properties), Members(properties, additional);
    SameFirst(properties, required, additional);
    var n := Select(properties, required, false)[i];
    SelectHolds(properties, required, false, n);
    OwnKey(properties, n);
    NotStar(properties, required, additional, n);
    var first, t := RequiredMembers(properties, required), own[n];
    var actual := SlotsOf(names, members);
    items := first + [t, t];
    var counts := ChooseTwo(actual, i, j);
    assert Lists(first, actual, items);
    var slots := OptionalMembers(properties, required, additional);
    if Lists(first, slots, items) {
      var other :| Allowed(slots, other) && items == first + Spread(slots, other);
      assert items[|first|..] == [t, t] && items[|first|..] == Spread(slots, other);
      OptionalDistinct(properties, required, additional);
      NeverTwice(slots, other, t);
    }
  }

  lemma NotStar(properties: seq<Property>, required: set<string>, additional: Option<string>, n: string)
    requires !StarClash(properties, required, additional) && n in PropertyNames(properties) && n !in required
    ensures n != "*"
  {
    var i :| 0 <= i < |properties| && properties[i].name == n;
  }

  lemma {:induction false} SameFirst(properties: seq<Property>, required: set<string>, additional: Option<string>)
    requires NoneTwice(properties, required, true) && !StarClash(properties, required, additional)
    ensures (NamesAreMembers(properties, required, true);
             TokensOf(Select(properties, required, true), Members(properties, additional)) == RequiredMembers(properties, required))
  {
    NamesAreMembers(properties, required, true);
    UniqueSame(Select(properties, required, true));
    forall n | n in Select(properties, required, true)
      ensures Members(properties, additional)[n] == OwnMembers(properties)[n]
    {
      SelectHolds(properties, required, true, n);
      var i :| 0 <= i < |properties| && properties[i].name == n;
    }
  }

  /** What the rule lists and what the schema asks for disagree about these members. */
  ghost predicate Differs(properties: seq<Property>, required: set<string>, additional: Option<string>, items: seq<Token>) {
    NamesAreMembers(properties, required, true);
    NamesAreMembers(properties, required, false);
    var members := Members(properties, additional);
    Lists(TokensOf(Select(properties, required, true), members),
          SlotsOf(OptionalNames(properties, required, additional), members), items)
    != Lists(RequiredMembers(properties, required), OptionalMembers(properties, required, additional), items)
  }

  lemma StarOptionalLost(properties: seq<Property>, required: set<string>, value: string) returns (items: seq<Token>)
    requires "*" in PropertyNames(properties) && "*" !in required && NoneTwice(properties, required, true)
    ensures Differs(properties, required, Some(value), items)
  {
    DistinctNoneTwice(properties, required, true);
    hide Unique, Distinct, NoneTwice, Select;
    NamesAreMembers(properties, required, true);
    NamesAreMembers(properties, required, false);
    var own, members := OwnMembers(properties), Members(properties, Some(value));
    var names := Select(properties, required, false);
    SelectHolds(properties, required, false, "*");
    var i := IndexIn(Unique(names), "*");
    var star := own["*"];
    OwnKey(properties, "*");
    var first := RequiredMembers(properties, required);
    items := first + [star];
    var slots := OptionalMembers(properties, required, Some(value));
    assert slots[i].token == star;
    var counts := ChooseOne(slots, i, 1);
    assert Copies(star, 1) == [star];
    assert Lists(first, slots, items);
    var all := OptionalNames(properties, required, Some(value));
    var actual, actualFirst := SlotsOf(all, members), TokensOf(Select(properties, required, true), members);
    assert star in [star];
    if Lists(actualFirst, actual, items) {
      var other :| Allowed(actual, other) && items == actualFirst + Spread(actual, other);
      assert items[|first|..] == [star] && items[|first|..] == Spread(actual, other);
      forall j | 0 <= j < |actual|
        ensures actual[j].token != star
      {
        if all[j] != "*" {
          OwnKey(properties, all[j]);
        }
      }
      SpreadTokens(actual, other, star);
    }
  }

  lemma StarRequiredLost(properties: seq<Property>, required: set<string>, value: string) returns (items: seq<Token>)
    requires "*" in PropertyNames(properties) && "*" in required && NoneTwice(properties, required, true)
    ensures Differs(properties, required, Some(value), items)
  {
    NamesAreMembers(properties, required, true);
    NamesAreMembers(properties, required, false);
    DistinctNoneTwice(properties, required, true);
    hide Unique, Distinct, NoneTwice, Select;
    var own, members := OwnMembers(properties), Members(properties, Some(value));
    var names := Select(properties, required, true);
    SelectHolds(properties, required, true, "*");
    var i := IndexIn(names, "*");
    OwnKey(properties, "*");
    items := RequiredMembers(properties, required);
    var slots := OptionalMembers(properties, required, Some(value));
    NoneSpread(slots);
    assert items == items + Spread(slots, seq(|slots|, _ => 0));
    assert Lists(items, slots, items);
    var actual, actualFirst := SlotsOf(OptionalNames(properties, required, Some(value)), members), TokensOf(names, members);
    assert items[i] != actualFirst[i];
  }

  lemma SomethingDiffers(properties: seq<Property>, required: set<string>, additional: Option<string>) returns (items: seq<Token>)
    requires !Distinct(properties) || StarClash(properties, required, additional)
    ensures Differs(properties, required, additional, items)
  {
    hide Differs;
    if !NoneTwice(properties, required, true) {
      items := RequiredTwice(properties, required, additional);
    } else if StarClash(properties, required, additional) {
      assert "*" in PropertyNames(properties);
      if additional.None? {
        items := StarOptionalRepeats(properties, required);
      } else if "*" in required {
        items := StarRequiredLost(properties, required, additional.value);
      } else {
        items := StarOptionalLost(properties, required, additional.value);
      }
    } else {
      var i: nat, j: nat :| i < j < |properties| && properties[i].name == properties[j].name;
      var k, l := SelectTwice(properties, required, i, j);
      items := OptionalTwice(properties, required, additional, k, l);
    }
  }

  lemma NoClashKeeps(properties: seq<Property>, required: set<string>, additional: Option<string>)
    requires Distinct(properties) && !StarClash(properties, required, additional)
    ensures ListsWanted(properties, required, additional)
  {
    hide Accepts, Written, StarClash, RuleGram, ObjectGram, RequiredMembers, OptionalMembers;
    var first, slots := RequiredMembers(properties, required), OptionalMembers(properties, required, additional);
    NoClashSame(properties, required, additional);
    forall s: seq<Token>
      ensures Accepts(RuleGram(properties, required, additional), s) <==> Written(first, slots, s)
    {
      ObjectExact(first, slots, s);
    }
  }

  lemma DiffersBreaks(properties: seq<Property>, required: set<string>, additional: Option<string>, items: seq<Token>)
    requires Differs(properties, required, additional, items)
    ensures !ListsWanted(properties, required, additional)
  {
    hide Accepts, Written, Lists;
    NamesAreMembers(properties, required, true);
    NamesAreMembers(properties, required, false);
    var members := Members(properties, additional);
    var actualFirst := TokensOf(Select(properties, required, true), members);
    var actual := SlotsOf(OptionalNames(properties, required, additional), members);
    var s := [Open] + Joined(items) + [Close];
    ObjectExact(actualFirst, actual, s);
    WrittenItems(actualFirst, actual, items);
    WrittenItems(RequiredMembers(properties, required), OptionalMembers(properties, required, additional), items);
  }

  lemma ListsWantedIff(properties: seq<Property>, required: set<string>, additional: Option<string>)
    ensures ListsWanted(properties, required, additional)
            <==> Distinct(properties) && !StarClash(properties, required, additional)
  {
    hide ListsWanted, Differs, StarClash, Distinct, NoneTwice;
    if Distinct(properties) && !StarClash(properties, required, additional) {
      NoClashKeeps(properties, required, additional);
    } else {
      var items := SomethingDiffers(properties, required, additional);
      DiffersBreaks(properties, required, additional, items);
    }
  }

  // ---- required names ----

  function Longest(names: seq<string>): (r: nat)
    ensures forall n :: n in names ==> |n| <= r
  {
    if names == [] then 0
    else
      var rest := Longest(names[1..]);
      assert forall n :: n in names ==> n == names[0] || n in names[1..];
      if |names[0]| > rest then |names[0]| else rest
  }

  /** A name that none of these is. */
  function OtherName(names: seq<string>): (r: string)
    ensures r !in names
  {
    seq(Longest(names) + 1, _ => 'a')
  }

  function NameFor(t: Token, avoid: string): string {
    match t
    case Member(key, _) => key
    case Other(excluded, _) => OtherName(excluded + [avoid])
    case _ => ""
  }

  /** Names such that no other member has this one. */
  function NamesFor(s: seq<Token>, avoid: string): (names: seq<string>)
    ensures Named(s, names)
    ensures forall i :: 0 <= i < |s| && s[i].Other? ==> names[i] != avoid
  {
    seq(|s|, i requires 0 <= i < |s| => NameFor(s[i], avoid))
  }

  lemma {:induction false} CommasHold(items: seq<Token>, t: Token)
    ensures t in items ==> t in Commas(items)
    ensures t in Commas(items) ==> t in items || t == Comma
  {
    if items != [] {
      CommasHold(items[1..], t);
    }
  }

  lemma JoinedHolds(items: seq<Token>, t: Token)
    ensures t in items ==> t in Joined(items)
    ensures t in Joined(items) ==> t in items || t == Comma
  {
    if items != [] {
      CommasHold(items[1..], t);
    }
  }

  /** What is written holds each required property. */
  lemma WrittenHolds(properties: seq<Property>, required: set<string>, slots: seq<Slot>, s: seq<Token>, n: string)
    requires n in required && n in PropertyNames(properties) && Written(RequiredMembers(properties, required), slots, s)
    ensures exists i :: 0 <= i < |s| && s[i].Member? && s[i].key == n
  {
    var first := RequiredMembers(properties, required);
    NamesAreMembers(properties, required, true);
    SelectHolds(properties, required, true, n);
    OwnKey(properties, n);
    hide Unique, Select, Joined, Spread, RequiredMembers;
    var items :| Lists(first, slots, items) && s == [Open] + Joined(items) + [Close];
    var t := OwnMembers(properties)[n];
    RequiredHolds(properties, required, n);
    var counts :| Allowed(slots, counts) && items == first + Spread(slots, counts);
    JoinedHolds(items, t);
    assert t in s;
  }

  lemma {:induction false} RequiredHolds(properties: seq<Property>, required: set<string>, n: string)
    requires n in Select(properties, required, true)
    ensures n in OwnMembers(properties) && OwnMembers(properties)[n] in RequiredMembers(properties, required)
  {
    NamesAreMembers(properties, required, true);
    var names := Unique(Select(properties, required, true));
    var i := IndexIn(names, n);
    assert RequiredMembers(properties, required)[i] == OwnMembers(properties)[n];
  }

  lemma WrittenCarries(properties: seq<Property>, required: set<string>, slots: seq<Slot>, s: seq<Token>, names: seq<string>, n: string)
    requires n in required && n in PropertyNames(properties) && Named(s, names)
    requires Written(RequiredMembers(properties, required), slots, s)
    ensures Carries(s, names, n)
  {
    hide Written, RequiredMembers;
    WrittenHolds(properties, required, slots, s, n);
    var i :| 0 <= i < |s| && s[i].Member? && s[i].key == n;
    assert names[i] == n;
  }

  /** With every required name a property, nothing more is asked for. */
  lemma ListedIff(properties: seq<Property>, required: set<string>, additional: Option<string>)
    requires Listed(properties, required)
    ensures KeepsPromise(properties, required, additional) <==> ListsWanted(properties, required, additional)
  {
    hide Accepts, Written, RequiredMembers, OptionalMembers, RuleGram, Carries;
    var first, slots := RequiredMembers(properties, required), OptionalMembers(properties, required, additional);
    forall s: seq<Token>, names: seq<string>, n: string | Named(s, names) && Written(first, slots, s) && n in required
      ensures |names| == |s| && Carries(s, names, n)
    {
      WrittenCarries(properties, required, slots, s, names, n);
    }
    if KeepsPromise(properties, required, additional) {
      forall s: seq<Token>
        ensures Accepts(RuleGram(properties, required, additional), s) <==> Written(first, slots, s)
      {
        var names := NamesFor(s, "");
      }
    }
  }

  /** The least that the rule accepts. */
  function Least(properties: seq<Property>, required: set<string>, additional: Option<string>): (items: seq<Token>)
  {
    NamesAreMembers(properties, required, true);
    TokensOf(Select(properties, required, true), Members(properties, additional))
  }

  lemma LeastAccepted(properties: seq<Property>, required: set<string>, additional: Option<string>)
    ensures Accepts(RuleGram(properties, required, additional), [Open] + Joined(Least(properties, required, additional)) + [Close])
  {
    hide Accepts, Joined, ObjectGram;
    NamesAreMembers(properties, required, true);
    NamesAreMembers(properties, required, false);
    var items := Least(properties, required, additional);
    var slots := SlotsOf(OptionalNames(properties, required, additional), Members(properties, additional));
    NoneSpread(slots);
    assert items == items + Spread(slots, seq(|slots|, _ => 0));
    assert Lists(items, slots, items);
    ObjectExact(items, slots, [Open] + Joined(items) + [Close]);
  }

  /** It has no member of a name that is no property, unless another member has that name. */
  lemma LeastLacks(properties: seq<Property>, required: set<string>, additional: Option<string>, n: string, t: Token)
    requires n !in PropertyNames(properties) && t in [Open] + Joined(Least(properties, required, additional)) + [Close]
    ensures t.Member? ==> t.key != n
  {
    hide Joined, Select;
    NamesAreMembers(properties, required, true);
    var items := Least(properties, required, additional);
    JoinedHolds(items, t);
    if t.Member? {
      var i :| 0 <= i < |items| && items[i] == t;
      OwnKey(properties, Select(properties, required, true)[i]);
    }
  }

  /** A required name that is no property is not demanded: it may be missing, whatever else there is. */
  lemma UnlistedLost(properties: seq<Property>, required: set<string>, additional: Option<string>, n: string)
    returns (s: seq<Token>, names: seq<string>)
    requires n in required && n !in PropertyNames(properties)
    ensures Named(s, names) && Accepts(RuleGram(properties, required, additional), s) && !Carries(s, names, n)
  {
    hide Accepts, RuleGram, Joined, Least;
    s := [Open] + Joined(Least(properties, required, additional)) + [Close];
    names := NamesFor(s, n);
    LeastAccepted(properties, required, additional);
    forall i | 0 <= i < |s| && (s[i].Member? || s[i].Other?)
      ensures names[i] != n
    {
      LeastLacks(properties, required, additional, n, s[i]);
    }
  }

  /**
   The rule accepts exactly the objects the schema asks for if and only if every required name is a
   property, none is listed twice, and none is called "*" that is optional or has additional
   properties beside it.
   */
  lemma PromiseIff(properties: seq<Property>, required: set<string>, additional: Option<string>)
    ensures KeepsPromise(properties, required, additional)
            <==> Listed(properties, required) && Distinct(properties) && !StarClash(properties, required, additional)
  {
    hide ListsWanted, StarClash, Distinct, Accepts, RuleGram, Carries, Named, Written, RequiredMembers, OptionalMembers;
    if Listed(properties, required) {
      ListedIff(properties, required, additional);
      ListsWantedIff(properties, required, additional);
    } else {
      var n :| n in required && n !in PropertyNames(properties);
      var s, names := UnlistedLost(properties, required, additional, n);
    }
  }

  /** "b" is required, nothing is a property, and the empty object is accepted. */
  lemma RequiredNotListed()
    ensures Accepts(RuleGram([], {"b"}, None), [Open, Close]) && !KeepsPromise([], {"b"}, None)
  {
    hide Accepts, KeepsPromise;
    LeastAccepted([], {"b"}, None);
    assert [Open] + Joined([]) + [Close] == [Open, Close];
    assert Least([], {"b"}, None) == [];
    PromiseIff([], {"b"}, None);
    assert "b" !in PropertyNames([]);
  }
}
