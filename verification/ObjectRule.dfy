/**
 The object rule of json-schema-to-grammar.cpp: `_add_rule` (320-334), which files rules under names
 it may have to change, and `_build_object_rule` (620-711), whose text refers to rules by name.
 Value schemas are compiled already: a property comes with the name of its value's rule.
 */
module ObjectRule {
  import opened CommonStrings
  import opened Decimals
  import opened Gbnf
  import opened ObjectGrammar

  /** The text of a rule. */
  datatype Expr =
    | Nothing
    | Term(token: Token)
    | Ref(name: string)
    | Both(first: Expr, second: Expr)
    | Either(left: Expr, right: Expr)
    | Many(item: Expr)
    | Opt(item: Expr)

  type Rules = map<string, Expr>

  /** The grammar a text denotes, with references followed at most `depth` deep. */
  function Inline(rules: Rules, e: Expr, depth: nat): Option<Gram<Token>>
    decreases depth, e
  {
    match e
    case Nothing => Some(Word([]))
    case Term(t) => Some(Word([t]))
    case Ref(n) => if depth == 0 || n !in rules then None else Inline(rules, rules[n], depth - 1)
    case Both(a, b) =>
      var x, y := Inline(rules, a, depth), Inline(rules, b, depth);
      if x.None? || y.None? then None else Some(Cat(x.value, y.value))
    case Either(a, b) =>
      var x, y := Inline(rules, a, depth), Inline(rules, b, depth);
      if x.None? || y.None? then None else Some(Alt(x.value, y.value))
    case Many(a) =>
      var x := Inline(rules, a, depth);
      if x.None? then None else Some(Repeat(x.value, 0, None))
    case Opt(a) =>
      var x := Inline(rules, a, depth);
      if x.None? then None else Some(Repeat(x.value, 0, Some(1)))
  }

  ghost predicate Denotes(rules: Rules, e: Expr, depth: nat, g: Gram<Token>) {
    Inline(rules, e, depth) == Some(g)
  }

  /** Every rule of `a` is a rule of `b`, unchanged. */
  ghost predicate Grows(a: Rules, b: Rules) {
    forall n :: n in a ==> n in b && b[n] == a[n]
  }

  /** A text keeps its meaning when rules are only added. */
  lemma {:induction false} DenotesGrows(a: Rules, b: Rules, e: Expr, depth: nat, more: nat, g: Gram<Token>)
    requires Grows(a, b) && depth <= more && Denotes(a, e, depth, g)
    ensures Denotes(b, e, more, g)
    decreases depth, e
  {
    match e
    case Nothing =>
    case Term(t) =>
    case Ref(n) => DenotesGrows(a, b, a[n], depth - 1, more - 1, g);
    case Both(x, y) =>
      DenotesGrows(a, b, x, depth, more, g.first);
      DenotesGrows(a, b, y, depth, more, g.second);
    case Either(x, y) =>
      DenotesGrows(a, b, x, depth, more, g.left);
      DenotesGrows(a, b, y, depth, more, g.right);
    case Many(x) => DenotesGrows(a, b, x, depth, more, g.item);
    case Opt(x) => DenotesGrows(a, b, x, depth, more, g.item);
  }

  lemma BothDenotes(rules: Rules, a: Expr, b: Expr, depth: nat, x: Gram<Token>, y: Gram<Token>)
    requires Denotes(rules, a, depth, x) && Denotes(rules, b, depth, y)
    ensures Denotes(rules, Both(a, b), depth, Cat(x, y))
  {
  }

  lemma EitherDenotes(rules: Rules, a: Expr, b: Expr, depth: nat, x: Gram<Token>, y: Gram<Token>)
    requires Denotes(rules, a, depth, x) && Denotes(rules, b, depth, y)
    ensures Denotes(rules, Either(a, b), depth, Alt(x, y))
  {
  }

  lemma OptDenotes(rules: Rules, a: Expr, depth: nat, x: Gram<Token>)
    requires Denotes(rules, a, depth, x)
    ensures Denotes(rules, Opt(a), depth, Repeat(x, 0, Some(1)))
  {
  }

  lemma RefDenotes(rules: Rules, key: string, depth: nat, g: Gram<Token>)
    requires depth > 0 && key in rules && Denotes(rules, rules[key], depth - 1, g)
    ensures Denotes(rules, Ref(key), depth, g)
  {
  }

  lemma TermDenotes(rules: Rules, t: Token, depth: nat)
    ensures Denotes(rules, Term(t), depth, Word([t]))
  {
  }

  lemma HeadDenotes(rules: Rules, kvName: string, slot: Slot, depth: nat)
    requires depth > 0 && kvName in rules && rules[kvName] == Term(slot.token)
    ensures var kv, comma := Ref(kvName), Both(Term(Comma), Ref(kvName));
            && Denotes(rules, kv, depth, Word([slot.token]))
            && Denotes(rules, if slot.many then Many(comma) else Opt(comma), depth, HeadGram(slot, true))
            && Denotes(rules, if slot.many then Both(kv, Many(comma)) else kv, depth, HeadGram(slot, false))
  {
    var kv, comma := Ref(kvName), Both(Term(Comma), Ref(kvName));
    assert Inline(rules, rules[kvName], depth - 1) == Some(Word([slot.token]));
    assert Inline(rules, kv, depth) == Some(Word([slot.token]));
    assert Inline(rules, comma, depth) == Some(CommaThen(slot.token));
  }

  // ---- names ----

  predicate IsNameChar(c: char) {
    'a' <= c <= 'z' || 'A' <= c <= 'Z' || '0' <= c <= '9' || c == '-'
  }

  /** Each run of other characters becomes one dash. */
  function Escape(name: string, inRun: bool := false): (r: string)
    ensures forall i :: 0 <= i < |r| ==> IsNameChar(r[i])
  {
    if name == "" then ""
    else if IsNameChar(name[0]) then [name[0]] + Escape(name[1..])
    else if inRun then Escape(name[1..], true)
    else "-" + Escape(name[1..], true)
  }

  function Prefixed(name: string, suffix: string): string {
    if name == "" then suffix else name + "-" + suffix
  }

  /** What needs no change stays, and a whole run of other characters makes one dash. */
  lemma {:induction false} EscapeRun(good: string, run: string, rest: string)
    requires run != "" && (forall i :: 0 <= i < |good| ==> IsNameChar(good[i])) && (forall i :: 0 <= i < |run| ==> !IsNameChar(run[i]))
    requires rest == "" || IsNameChar(rest[0])
    ensures Escape(good + (run + rest)) == good + ("-" + Escape(rest)) && Escape(good) == good
    decreases |good|
  {
    if good == "" {
      assert run + rest == [run[0]] + (run[1..] + rest);
      SkipRun(run[1..], rest);
      assert good + (run + rest) == run + rest && good + ("-" + Escape(rest)) == "-" + Escape(rest);
    } else {
      EscapeRun(good[1..], run, rest);
      assert (good + (run + rest))[1..] == good[1..] + (run + rest);
      assert good == [good[0]] + good[1..];
    }
  }

  lemma {:induction false} SkipRun(run: string, rest: string)
    requires (forall i :: 0 <= i < |run| ==> !IsNameChar(run[i])) && (rest == "" || IsNameChar(rest[0]))
    ensures Escape(run + rest, true) == Escape(rest)
    decreases |run|
  {
    if run == "" {
      assert run + rest == rest;
    } else {
      SkipRun(run[1..], rest);
      assert (run + rest)[1..] == run[1..] + rest;
    }
  }

  /** The first `n` numbered names hold other rules. */
  ghost predicate AllTaken(rules: Rules, base: string, n: nat, rule: Expr) {
    forall i: nat :: i < n ==> base + Decimal(i) in rules && rules[base + Decimal(i)] != rule
  }

  /** The numbered names are distinct, so a set of rules cannot take them all. */
  lemma {:induction false} DecimalInjective(a: nat, b: nat)
    requires Decimal(a) == Decimal(b)
    ensures a == b
  {
    assert a >= 10 ==> |Decimal(a)| == |Decimal(a / 10)| + 1;
    assert b >= 10 ==> |Decimal(b)| == |Decimal(b / 10)| + 1;
    if a >= 10 && b >= 10 {
      assert Decimal(a)[..|Decimal(a)| - 1] == Decimal(a / 10);
      assert Decimal(b)[..|Decimal(b)| - 1] == Decimal(b / 10);
      DecimalInjective(a / 10, b / 10);
      assert DigitValue(Decimal(a)[|Decimal(a)| - 1]) == a % 10;
      assert DigitValue(Decimal(b)[|Decimal(b)| - 1]) == b % 10;
    } else if a < 10 && b < 10 {
      assert DigitValue(Decimal(a)[0]) == a && DigitValue(Decimal(b)[0]) == b;
    }
  }

  lemma {:induction false} TakenBound(taken: set<string>, base: string, n: nat)
    requires forall i: nat :: i < n ==> base + Decimal(i) in taken
    ensures n <= |taken|
    decreases n
  {
    if n > 0 {
      var last := base + Decimal(n - 1);
      forall i: nat | i < n - 1
        ensures base + Decimal(i) in taken - {last}
      {
        if base + Decimal(i) == last {
          assert (base + Decimal(i))[|base|..] == Decimal(i) && last[|base|..] == Decimal(n - 1);
          DecimalInjective(i, n - 1);
        }
      }
      TakenBound(taken - {last}, base, n - 1);
    }
  }

  // ---- what the rule is made from ----

  datatype Property = Property(name: string, valueRule: string)

  function PropertyNames(properties: seq<Property>): (names: seq<string>)
    ensures |names| == |properties| && forall i :: 0 <= i < |names| ==> names[i] == properties[i].name
  {
    seq(|properties|, i requires 0 <= i < |properties| => properties[i].name)
  }

  /** The names that are required, or those that are not, in the order of the schema. */
  function Select(properties: seq<Property>, required: set<string>, wanted: bool): seq<string> {
    if properties == [] then [] else
    var last := |properties| - 1;
    var before := Select(properties[..last], required, wanted);
    if (properties[last].name in required) == wanted then before + [properties[last].name] else before
  }

  /** The member each name stands for; a later property of the same name takes its place. */
  function OwnMembers(properties: seq<Property>): map<string, Token> {
    if properties == [] then map[] else
    var last := |properties| - 1;
    OwnMembers(properties[..last])[properties[last].name := Member(properties[last].name, properties[last].valueRule)]
  }

  function Additional(properties: seq<Property>, valueRule: string): Token {
    Other(PropertyNames(properties), valueRule)
  }

  /** The additional entry is filed under the name "*". */
  function Members(properties: seq<Property>, additional: Option<string>): map<string, Token> {
    match additional
    case Some(value) => OwnMembers(properties)["*" := Additional(properties, value)]
    case None => OwnMembers(properties)
  }

  function OptionalNames(properties: seq<Property>, required: set<string>, additional: Option<string>): seq<string> {
    Select(properties, required, false) + if additional.Some? then ["*"] else []
  }

  function TokensOf(names: seq<string>, members: map<string, Token>): (r: seq<Token>)
    requires forall n :: n in names ==> n in members
    ensures |r| == |names| && forall i :: 0 <= i < |r| ==> r[i] == members[names[i]]
  {
    seq(|names|, i requires 0 <= i < |names| => members[names[i]])
  }

  function SlotsOf(names: seq<string>, members: map<string, Token>): (r: seq<Slot>)
    requires forall n :: n in names ==> n in members
    ensures |r| == |names| && forall i :: 0 <= i < |r| ==> r[i] == Slot(members[names[i]], names[i] == "*")
  {
    seq(|names|, i requires 0 <= i < |names| => Slot(members[names[i]], names[i] == "*"))
  }

  lemma {:induction false} NamesAreMembers(properties: seq<Property>, required: set<string>, wanted: bool)
    ensures forall n :: n in Select(properties, required, wanted) ==> n in OwnMembers(properties)
    decreases |properties|
  {
    if properties != [] {
      NamesAreMembers(properties[..|properties| - 1], required, wanted);
    }
  }

  /** Each name's member is what its rule denotes. */
  ghost predicate Files(rules: Rules, kvNames: map<string, string>, members: map<string, Token>) {
    && kvNames.Keys == members.Keys
    && forall k :: k in kvNames ==> kvNames[k] in rules && rules[kvNames[k]] == Term(members[k])
  }

  /** What the whole rule denotes. */
  function RuleGram(properties: seq<Property>, required: set<string>, additional: Option<string>): Gram<Token> {
    NamesAreMembers(properties, required, true);
    NamesAreMembers(properties, required, false);
    var members := Members(properties, additional);
    ObjectGram(TokensOf(Select(properties, required, true), members),
               SlotsOf(OptionalNames(properties, required, additional), members))
  }

  class Converter {
    var rules: Rules

    constructor ()
      ensures rules == map[]
    {
      rules := map[];
    }

    /**
     Files a rule under its name, or under the first numbered name that is free or already holds the
     same rule; every rule filed before keeps its name and its text.
     */
    method AddRule(name: string, rule: Expr) returns (key: string)
      modifies this
      ensures rules == old(rules)[key := rule]
      ensures key in old(rules) ==> old(rules)[key] == rule
      ensures key == Escape(name) ||
              (&& Escape(name) in old(rules) && old(rules)[Escape(name)] != rule
               && exists i: nat :: key == Escape(name) + Decimal(i) && AllTaken(old(rules), Escape(name), i, rule))
      ensures Grows(old(rules), rules)
    {
      var escName := Escape(name);
      if escName !in rules || rules[escName] == rule {
        key := escName;
      } else {
        var i: nat := 0;
        while escName + Decimal(i) in rules && rules[escName + Decimal(i)] != rule
          invariant AllTaken(rules, escName, i, rule)
          invariant rules == old(rules) && i <= |rules.Keys|
          decreases |rules.Keys| - i
        {
          TakenBound(rules.Keys, escName, i + 1);
          i := i + 1;
        }
        key := escName + Decimal(i);
        assert AllTaken(old(rules), escName, i, rule);
      }
      rules := rules[key := rule];
    }

    method RecursiveRefs(ks: seq<string>, firstIsOptional: bool, name: string, kvNames: map<string, string>,
                         ghost members: map<string, Token>)
      returns (res: Expr)
      requires Files(rules, kvNames, members) && forall k :: k in ks ==> k in kvNames
      modifies this
      ensures Grows(old(rules), rules)
      ensures Denotes(rules, res, |ks|, RefsGram(SlotsOf(ks, members), firstIsOptional))
      decreases |ks|
    {
      if ks == [] {
        return Nothing;
      }
      var k := ks[0];
      var kv := Ref(kvNames[k]);
      var commaRef := Both(Term(Comma), kv);
      if firstIsOptional {
        res := if k == "*" then Many(commaRef) else Opt(commaRef);
      } else {
        res := if k == "*" then Both(kv, Many(commaRef)) else kv;
      }
      ghost var slots := SlotsOf(ks, members);
      ghost var head := HeadGram(slots[0], firstIsOptional);
      hide Inline, Escape;
      HeadDenotes(rules, kvNames[k], slots[0], |ks|);
      if |ks| > 1 {
        ghost var before := rules;
        var rest := RecursiveRefs(ks[1..], true, name, kvNames, members);
        ghost var between := rules;
        var key := AddRule(Prefixed(name, k) + "-rest", rest);
        assert SlotsOf(ks[1..], members) == slots[1..];
        DenotesGrows(before, rules, res, |ks|, |ks|, head);
        DenotesGrows(between, rules, rest, |ks| - 1, |ks| - 1, RefsGram(slots[1..], true));
        RefDenotes(rules, key, |ks|, RefsGram(slots[1..], true));
        BothDenotes(rules, res, Ref(key), |ks|, head, RefsGram(slots[1..], true));
        res := Both(res, Ref(key));
      }
    }

    method FileProperties(properties: seq<Property>, required: set<string>, name: string)
      returns (kvNames: map<string, string>, requiredProps: seq<string>, optionalProps: seq<string>, propNames: seq<string>)
      modifies this
      ensures Grows(old(rules), rules) && Files(rules, kvNames, OwnMembers(properties))
      ensures requiredProps == Select(properties, required, true) && optionalProps == Select(properties, required, false)
      ensures propNames == PropertyNames(properties)
    {
      kvNames, requiredProps, optionalProps, propNames := map[], [], [], [];
      for n := 0 to |properties|
        invariant Grows(old(rules), rules) && Files(rules, kvNames, OwnMembers(properties[..n]))
        invariant requiredProps == Select(properties[..n], required, true)
        invariant optionalProps == Select(properties[..n], required, false)
        invariant propNames == PropertyNames(properties[..n])
      {
        var p := properties[n];
        var key := AddRule(Prefixed(name, p.name) + "-kv", Term(Member(p.name, p.valueRule)));
        kvNames := kvNames[p.name := key];
        if p.name in required {
          requiredProps := requiredProps + [p.name];
        } else {
          optionalProps := optionalProps + [p.name];
        }
        propNames := propNames + [p.name];
        assert properties[..n + 1][..n] == properties[..n];
      }
      assert properties[..|properties|] == properties;
    }

    /** The text so far, with the required members added and commas between them. */
    method RequiredText(requiredProps: seq<string>, kvNames: map<string, string>, ghost members: map<string, Token>)
      returns (rule: Expr)
      requires Files(rules, kvNames, members) && forall k :: k in requiredProps ==> k in kvNames
      ensures Denotes(rules, rule, 1, RequiredGram(TokensOf(requiredProps, members)))
    {
      rule := Term(Open);
      ghost var tokens := TokensOf(requiredProps, members);
      for i := 0 to |requiredProps|
        invariant Denotes(rules, rule, 1, RequiredGram(tokens[..i]))
      {
        assert tokens[..i + 1][..i] == tokens[..i];
        HeadDenotes(rules, kvNames[requiredProps[i]], Slot(tokens[i], false), 1);
        ghost var front := RequiredGram(tokens[..i]);
        if i > 0 {
          BothDenotes(rules, rule, Term(Comma), 1, front, Word([Comma]));
          rule, front := Both(rule, Term(Comma)), Cat(front, Word([Comma]));
        }
        BothDenotes(rules, rule, Ref(kvNames[requiredProps[i]]), 1, front, Word([tokens[i]]));
        rule := Both(rule, Ref(kvNames[requiredProps[i]]));
      }
      assert tokens[..|tokens|] == tokens;
    }

    /** One alternative for each optional entry that may come first. */
    method FirstsText(optionalProps: seq<string>, name: string, kvNames: map<string, string>, ghost members: map<string, Token>)
      returns (rule: Expr)
      requires optionalProps != []
      requires Files(rules, kvNames, members) && forall k :: k in optionalProps ==> k in kvNames
      modifies this
      ensures Grows(old(rules), rules)
      ensures Denotes(rules, rule, |optionalProps|, FirstsGram(SlotsOf(optionalProps, members), |optionalProps|))
    {
      hide Inline, RefsGram, Select;
      rule := Nothing;
      ghost var slots := SlotsOf(optionalProps, members);
      for i := 0 to |optionalProps|
        invariant Grows(old(rules), rules)
        invariant i > 0 ==> Denotes(rules, rule, |optionalProps|, FirstsGram(slots, i))
      {
        ghost var before := rules;
        var refs := RecursiveRefs(optionalProps[i..], false, name, kvNames, members);
        assert SlotsOf(optionalProps[i..], members) == slots[i..];
        DenotesGrows(rules, rules, refs, |optionalProps| - i, |optionalProps|, RefsGram(slots[i..], false));
        if i > 0 {
          DenotesGrows(before, rules, rule, |optionalProps|, |optionalProps|, FirstsGram(slots, i));
          EitherDenotes(rules, rule, refs, |optionalProps|, FirstsGram(slots, i), RefsGram(slots[i..], false));
          rule := Either(rule, refs);
        } else {
          rule := refs;
        }
      }
    }

    /** The text of the object rule denotes the grammar of its members, whatever was filed before. */
    method BuildObjectRule(properties: seq<Property>, required: set<string>, name: string, additional: Option<string>)
      returns (rule: Expr, ghost depth: nat)
      modifies this
      ensures Grows(old(rules), rules)
      ensures Denotes(rules, rule, depth, RuleGram(properties, required, additional))
    {
      hide RequiredGram, FirstsGram, Select, OwnMembers, PropertyNames, Escape, Inline;
      NamesAreMembers(properties, required, true);
      NamesAreMembers(properties, required, false);
      ghost var members := Members(properties, additional);
      var kvNames, requiredProps, optionalProps, propNames := FileProperties(properties, required, name);
      if additional.Some? {
        var kv := AddRule(Prefixed(name, "additional") + "-kv", Term(Other(propNames, additional.value)));
        kvNames := kvNames["*" := kv];
        optionalProps := optionalProps + ["*"];
      }
      assert Files(rules, kvNames, members);
      assert optionalProps == OptionalNames(properties, required, additional);
      rule := RequiredText(requiredProps, kvNames, members);
      ghost var start := RequiredGram(TokensOf(requiredProps, members));
      depth := |optionalProps| + 1;
      if optionalProps != [] {
        ghost var before := rules;
        var firsts := FirstsText(optionalProps, name, kvNames, members);
        ghost var g := FirstsGram(SlotsOf(optionalProps, members), |optionalProps|);
        DenotesGrows(rules, rules, firsts, |optionalProps|, depth, g);
        DenotesGrows(before, rules, rule, 1, depth, start);
        if requiredProps != [] {
          TermDenotes(rules, Comma, depth);
          BothDenotes(rules, Term(Comma), firsts, depth, Word([Comma]), g);
          firsts, g := Both(Term(Comma), firsts), Cat(Word([Comma]), g);
        }
        OptDenotes(rules, firsts, depth, g);
        BothDenotes(rules, rule, Opt(firsts), depth, start, Repeat(g, 0, Some(1)));
        rule, start := Both(rule, Opt(firsts)), Cat(start, Repeat(g, 0, Some(1)));
      }
      TermDenotes(rules, Close, depth);
      BothDenotes(rules, rule, Term(Close), depth, start, Word([Close]));
      rule := Both(rule, Term(Close));
    }
  }
}
