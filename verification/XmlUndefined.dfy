/**
 Which forms can make a whole parse go on with a search result that is not there: over every input
 and every place to start from. The parser looks for a name only behind the beginning of the scope, white
 space and `tool_start`, chat-parser-xml-toolcall.cpp:388-425.
 */
module XmlUndefined {
  import opened CommonStrings
  import opened ChatParser
  import opened XmlFind
  import opened XmlModel
  import opened XmlMissing
  import XmlForms
  import XmlRoundTrip

  /** What the parser may read in front of the first `tool_start`, from where it starts on. */
  predicate IsLead(form: Form, lead: string) {
    if AllSpace(form.scopeStart) then lead == ""
    else form.scopeStart <= lead && AllSpace(lead[|form.scopeStart|..])
         && XmlRoundTrip.EndsFirst(lead[|form.scopeStart|..], form.toolStart)
  }

  /** The shortest of these. */
  function ShortLead(form: Form): (lead: string) {
    if AllSpace(form.scopeStart) then "" else form.scopeStart
  }

  lemma ShortIsLead(form: Form)
    ensures IsLead(form, ShortLead(form))
  {
    if !AllSpace(form.scopeStart) {
      assert form.scopeStart[|form.scopeStart|..] == "";
      assert "" + form.toolStart == form.toolStart;
      assert OccursAt(form.toolStart, form.toolStart, 0);
    }
  }

  /** Where the name of the first call is looked for. */
  function FirstStart(input: string, isPartial: bool, form: Form, pos: nat): (r: Option<nat>)
    requires pos <= |input| && form.Valid()
    ensures r.Some? ==> pos < r.value <= |input|
  {
    match OpenFrom(input, isPartial, form, pos)
    case None => None
    case Some(open) => NextCall(input, isPartial, form, open)
  }

  predicate FirstMisses(input: string, isPartial: bool, form: Form, pos: nat)
    requires pos <= |input| && form.Valid()
  {
    match FirstStart(input, isPartial, form, pos)
    case None => false
    case Some(start) => Missing(input, isPartial, form, start)
  }

  ghost predicate FirstNeverMisses(form: Form)
    requires form.Valid()
  {
    forall input: string, isPartial: bool, pos: nat | pos <= |input| :: !FirstMisses(input, isPartial, form, pos)
  }

  /** No parse goes on with a missing result, wherever it starts. */
  ghost predicate NeverUndefined(form: Form, o: Oracle, kimi: bool, partialToo: bool)
    requires form.Valid() && o.Valid()
  {
    forall input: string, isPartial: bool, pos: nat | pos <= |input| && (isPartial ==> partialToo) ::
      !ParseMisses(input, isPartial, form, o, kimi, pos)
  }

  // ---- what it takes ----

  lemma NotAtEnd(input: string, isPartial: bool, form: Form)
    requires form.Valid()
    ensures !Missing(input, isPartial, form, |input|)
  {
    MissingMeans(input, isPartial, form, |input|);
    SeparatorNotEmpty(form);
  }

  /** A name is looked for behind a whole `tool_start`, or where nothing is left. */
  lemma {:induction false} NextIsBehind(input: string, isPartial: bool, form: Form, pos: nat)
    requires pos <= |input| && form.Valid()
    ensures match NextCall(input, isPartial, form, pos)
            case None => true
            case Some(start) =>
              || start == |input|
              || (Behind(input, form.toolStart, start) && AllSpace(input[pos..start - |form.toolStart|])
                  && FindFrom(input, form.toolStart, pos) == Some(start - |form.toolStart|))
  {
  }

  lemma {:induction false} SomeCallMisses(input: string, isPartial: bool, form: Form, o: Oracle, kimi: bool, pos: nat) returns (start: nat)
    requires pos <= |input| && form.Valid() && o.Valid() && CallsMiss(input, isPartial, form, o, kimi, pos)
    ensures Behind(input, form.toolStart, start) && Missing(input, isPartial, form, start)
    decreases |input| - pos
  {
    hide Missing, CallFrom, AllSpace;
    start := NextCall(input, isPartial, form, pos).value;
    NextIsBehind(input, isPartial, form, pos);
    NotAtEnd(input, isPartial, form);
    if !Missing(input, isPartial, form, start) {
      start := SomeCallMisses(input, isPartial, form, o, kimi, CallFrom(input, isPartial, form, o, kimi, start).value.1);
    }
  }

  lemma ParseNeeds(input: string, isPartial: bool, form: Form, o: Oracle, kimi: bool, pos: nat)
    requires pos <= |input| && form.Valid() && o.Valid() && ParseMisses(input, isPartial, form, o, kimi, pos)
    ensures form.lastToolEnd.Some? && CanMiss(form, form.lastToolEnd.value, "")
    ensures !isPartial ==> WholeSeparator(form, form.lastToolEnd.value)
  {
    hide Missing, CanMiss, WholeSeparator, CallsMiss, OpenFrom;
    var start := SomeCallMisses(input, isPartial, form, o, kimi, OpenFrom(input, isPartial, form, pos).value);
    assert "" + form.toolStart == form.toolStart;
    NeedsCanMiss(input, isPartial, form, "", start);
  }

  lemma WholeFound(input: string, isPartial: bool, literal: string, pos: nat)
    requires pos <= |input|
    ensures var r := FindLiteral(input, isPartial, literal, pos);
            r.Some? && r.value.end - r.value.begin == |literal| ==> Behind(input, literal, r.value.end)
  {
    var r := FindLiteral(input, isPartial, literal, pos);
    if r.Some? {
      assert input[r.value.begin..r.value.end] <= literal;
    }
  }

  lemma JoinBehind(input: string, a: string, b: string, mid: nat, end: nat)
    requires Behind(input, a, mid) && mid <= end <= |input| && input[mid..end] == b
    ensures Behind(input, a + b, end)
  {
    var i := mid - |a|;
    assert input[i..i + |a + b|] == input[i..mid] + input[mid..end];
  }

  lemma {:induction false} FirstInPart(input: string, literal: string, open: nat, b: nat)
    requires open <= b && b + |literal| <= |input| && FindFrom(input, literal, open) == Some(b)
    ensures XmlRoundTrip.EndsFirst(input[open..b], literal)
  {
    hide FindFrom;
    var end := b + |literal|;
    var part := input[open..end];
    assert part == input[open..b] + literal;
    assert part <= input[open..];
    FullInSuffix(input, literal, open, open);
    assert part[b - open..] == literal;
    assert OccursAt(part, literal, b - open);
    FindStable(part, input[open..], literal, 0);
  }

  /** A first call for which a result is missing stands behind a lead that allows it. */
  lemma FirstNeeds(input: string, isPartial: bool, form: Form, pos: nat) returns (lead: string)
    requires pos <= |input| && form.Valid() && FirstMisses(input, isPartial, form, pos)
    ensures IsLead(form, lead) && form.lastToolEnd.Some? && CanMiss(form, form.lastToolEnd.value, lead)
  {
    hide Missing, CanMiss, NextCall, FindLiteral, AllSpace, XmlRoundTrip.EndsFirst;
    var open := OpenFrom(input, isPartial, form, pos).value;
    var start := NextCall(input, isPartial, form, open).value;
    NextIsBehind(input, isPartial, form, open);
    NotAtEnd(input, isPartial, form);
    var b := start - |form.toolStart|;
    lead := "";
    assert lead + form.toolStart == form.toolStart;
    if !AllSpace(form.scopeStart) {
      WholeFound(input, isPartial, form.scopeStart, pos);
      assert Behind(input, form.scopeStart, open);
      lead := form.scopeStart + input[open..b];
      assert lead[|form.scopeStart|..] == input[open..b];
      FirstInPart(input, form.toolStart, open, b);
      JoinBehind(input, form.scopeStart, input[open..b], open, b);
      JoinBehind(input, lead, form.toolStart, b, start);
    }
    NeedsCanMiss(input, isPartial, form, lead, start);
  }

  // ---- inputs that lead there ----

  lemma SplitBehind(input: string, a: string, b: string, end: nat)
    requires Behind(input, a + b, end)
    ensures Behind(input, b, end) && Behind(input, a, end - |b|)
  {
    var i := end - |b| - |a|;
    assert input[i..i + |a + b|] == a + b;
    assert input[i..i + |a|] == (a + b)[..|a|];
    assert input[i + |a|..end] == (a + b)[|a|..];
  }

  lemma FoundThere(input: string, isPartial: bool, literal: string, pos: nat)
    requires OccursAt(input, literal, pos)
    ensures FindLiteral(input, isPartial, literal, pos) == Some(Found("", pos, pos + |literal|))
  {
    assert FindFrom(input, literal, pos) == Some(pos);
    assert input[pos..pos] == "";
  }

  /** The first place behind a text in which the literal does not begin. */
  lemma {:induction false} FirstThere(input: string, literal: string, gap: string, open: nat)
    requires OccursAt(input, gap + literal, open) && XmlRoundTrip.EndsFirst(gap, literal)
    ensures FindFrom(input, literal, open) == Some(open + |gap|)
  {
    hide FindFrom;
    var part := gap + literal;
    assert part <= input[open..] by {
      assert input[open..][..|part|] == input[open..open + |part|];
    }
    FindStable(part, input[open..], literal, 0);
    FullInSuffix(input, literal, open, open);
  }

  lemma OpensThere(input: string, isPartial: bool, form: Form, pos: nat)
    requires OccursAt(input, form.scopeStart, pos) && !AllSpace(form.scopeStart)
    ensures OpenFrom(input, isPartial, form, pos) == Some(pos + |form.scopeStart|)
  {
    FoundThere(input, isPartial, form.scopeStart, pos);
  }

  lemma StartsThere(input: string, isPartial: bool, form: Form, gap: string, open: nat)
    requires form.Valid() && OccursAt(input, gap + form.toolStart, open)
    requires AllSpace(gap) && XmlRoundTrip.EndsFirst(gap, form.toolStart)
    ensures NextCall(input, isPartial, form, open) == Some(open + |gap| + |form.toolStart|)
  {
    hide XmlRoundTrip.EndsFirst, AllSpace;
    FirstThere(input, form.toolStart, gap, open);
    assert input[open..open + |gap|] == (gap + form.toolStart)[..|gap|] == gap;
  }

  /** What is missing behind a lead is missing in the first call of the parse that starts with it. */
  lemma FirstHappens(input: string, isPartial: bool, form: Form, lead: string, start: nat)
    requires form.Valid() && IsLead(form, lead) && Behind(input, lead + form.toolStart, start) && Missing(input, isPartial, form, start)
    ensures FirstMisses(input, isPartial, form, start - |lead + form.toolStart|)
  {
    hide Missing, NextCall, AllSpace, XmlRoundTrip.EndsFirst;
    var pos := start - |lead + form.toolStart|;
    if AllSpace(form.scopeStart) {
      NothingSpace(form.toolStart);
      StartsThere(input, isPartial, form, "", pos);
    } else {
      var gap := lead[|form.scopeStart|..];
      assert lead + form.toolStart == form.scopeStart + (gap + form.toolStart);
      SplitBehind(input, form.scopeStart, gap + form.toolStart, start);
      OpensThere(input, isPartial, form, pos);
      StartsThere(input, isPartial, form, gap, pos + |form.scopeStart|);
    }
  }

  lemma NothingSpace(literal: string)
    ensures AllSpace("") && XmlRoundTrip.EndsFirst("", literal)
  {
    assert "" + literal == literal;
    assert OccursAt(literal, literal, 0);
  }

  lemma FirstIsSome(input: string, isPartial: bool, form: Form, o: Oracle, kimi: bool, pos: nat)
    requires pos <= |input| && form.Valid() && o.Valid() && FirstMisses(input, isPartial, form, pos)
    ensures ParseMisses(input, isPartial, form, o, kimi, pos)
  {
    hide Missing, OpenFrom, NextCall, CallFrom;
  }

  // ---- the main results ----

  /**
   The first call of some parse uses a missing result if and only if the literals of the form can miss
   behind some text that the parser reads in front of `tool_start`.
   */
  lemma FirstCallIff(form: Form, c: char)
    requires form.Valid() && (form.lastToolEnd.Some? ==> Fresh(form, form.lastToolEnd.value, c))
    ensures FirstNeverMisses(form)
            <==> form.lastToolEnd.None? || forall lead: string :: IsLead(form, lead) ==> !CanMiss(form, form.lastToolEnd.value, lead)
  {
    hide IsLead, CanMiss, Fresh, FirstMisses;
    forall input: string, isPartial: bool, pos: nat | pos <= |input| && FirstMisses(input, isPartial, form, pos)
      ensures form.lastToolEnd.Some? && exists lead: string :: IsLead(form, lead) && CanMiss(form, form.lastToolEnd.value, lead)
    {
      var lead := FirstNeeds(input, isPartial, form, pos);
    }
    if form.lastToolEnd.Some? {
      forall lead: string | IsLead(form, lead) && CanMiss(form, form.lastToolEnd.value, lead)
        ensures !FirstNeverMisses(form)
      {
        LeadDoes(form, lead, c);
      }
    }
  }

  lemma LeadDoes(form: Form, lead: string, c: char)
    requires form.Valid() && form.lastToolEnd.Some? && Fresh(form, form.lastToolEnd.value, c)
    requires IsLead(form, lead) && CanMiss(form, form.lastToolEnd.value, lead)
    ensures !FirstNeverMisses(form)
  {
    hide IsLead, CanMiss, Fresh, FirstMisses, Missing;
    CanMissDoes(form, lead, c);
    var input: string, isPartial: bool, start: nat :| Behind(input, lead + form.toolStart, start) && Missing(input, isPartial, form, start);
    FirstHappens(input, isPartial, form, lead, start);
  }

  lemma FirstDoes(form: Form, o: Oracle, kimi: bool)
    requires form.Valid() && o.Valid() && !FirstNeverMisses(form)
    ensures !NeverUndefined(form, o, kimi, true)
  {
    hide FirstMisses, ParseMisses;
    var input: string, isPartial: bool, pos: nat :| pos <= |input| && FirstMisses(input, isPartial, form, pos);
    FirstIsSome(input, isPartial, form, o, kimi, pos);
  }

  /** Some parse of a complete input comes out `Undefined` if and only if this can happen with the whole separator. */
  lemma CompleteParsesIff(form: Form, o: Oracle, kimi: bool, c: char)
    requires form.Valid() && o.Valid() && (form.lastToolEnd.Some? ==> Fresh(form, form.lastToolEnd.value, c))
    ensures NeverUndefined(form, o, kimi, false) <==> form.lastToolEnd.None? || !WholeSeparator(form, form.lastToolEnd.value)
  {
    hide WholeSeparator, CanMiss, Fresh, ParseMisses;
    forall input: string, pos: nat | pos <= |input| && ParseMisses(input, false, form, o, kimi, pos)
      ensures form.lastToolEnd.Some? && WholeSeparator(form, form.lastToolEnd.value)
    {
      ParseNeeds(input, false, form, o, kimi, pos);
    }
    if form.lastToolEnd.Some? && WholeSeparator(form, form.lastToolEnd.value) {
      WholeParse(form, o, kimi, c);
    }
  }

  /** The beginning of the scope, `tool_start`, the alternative, something else and the separator. */
  function WholeInput(form: Form, c: char): (input: string)
    requires form.lastToolEnd.Some?
  {
    ShortLead(form) + form.toolStart + (form.lastToolEnd.value + [c] + (Separator(form) + [c]))
  }

  lemma WholeParse(form: Form, o: Oracle, kimi: bool, c: char)
    requires form.Valid() && o.Valid() && form.lastToolEnd.Some?
    requires WholeSeparator(form, form.lastToolEnd.value) && Fresh(form, form.lastToolEnd.value, c)
    ensures ParseMisses(WholeInput(form, c), false, form, o, kimi, 0)
  {
    hide IsLead, ShortLead, Missing, Separator, WholeSeparator, Fresh, ParseMisses, FirstMisses;
    var front := ShortLead(form) + form.toolStart;
    WholeBehind(form, c, front);
    FrontIsBehind(front, form.lastToolEnd.value + [c] + (Separator(form) + [c]));
    ShortIsLead(form);
    FirstHappens(WholeInput(form, c), false, form, ShortLead(form), |front|);
    FirstIsSome(WholeInput(form, c), false, form, o, kimi, 0);
  }

  /** `tool_start` stands in none of the literals that the search for a name goes by. */
  predicate StartApart(form: Form, alt: string) {
    !Occurs(Separator(form), form.toolStart) && !Occurs(form.toolEnd, form.toolStart) && (alt == "" ==> !Occurs(form.scopeEnd, form.toolStart))
  }

  /** For any form: what every parse needs, and what is enough for one. */
  lemma AnyParse(form: Form, o: Oracle, kimi: bool, c: char)
    requires form.Valid() && o.Valid() && form.lastToolEnd.Some? && Fresh(form, form.lastToolEnd.value, c)
    ensures !NeverUndefined(form, o, kimi, true) ==> CanMiss(form, form.lastToolEnd.value, "")
    ensures (exists lead: string :: IsLead(form, lead) && CanMiss(form, form.lastToolEnd.value, lead)) ==> !NeverUndefined(form, o, kimi, true)
  {
    hide IsLead, CanMiss, Fresh, ParseMisses, NeverUndefined, FirstNeverMisses;
    if !NeverUndefined(form, o, kimi, true) {
      var input, isPartial, pos := SomeParse(form, o, kimi);
      ParseNeeds(input, isPartial, form, o, kimi, pos);
    }
    if lead: string :| IsLead(form, lead) && CanMiss(form, form.lastToolEnd.value, lead) {
      LeadDoes(form, lead, c);
      FirstDoes(form, o, kimi);
    }
  }

  lemma SomeParse(form: Form, o: Oracle, kimi: bool) returns (input: string, isPartial: bool, pos: nat)
    requires form.Valid() && o.Valid() && !NeverUndefined(form, o, kimi, true)
    ensures pos <= |input| && ParseMisses(input, isPartial, form, o, kimi, pos)
  {
    hide ParseMisses;
    input, isPartial, pos :| pos <= |input| && ParseMisses(input, isPartial, form, o, kimi, pos);
  }

  /**
   Some parse, complete or partial, comes out `Undefined` if and only if the form has an alternative
   end of a call and its literals can miss right behind `tool_start`.
   */
  lemma AnyParseIff(form: Form, o: Oracle, kimi: bool, c: char)
    requires form.Valid() && o.Valid()
    requires form.lastToolEnd.Some? ==> Fresh(form, form.lastToolEnd.value, c)
    requires form.lastToolEnd.Some? ==> AllSpace(form.scopeStart) || StartApart(form, form.lastToolEnd.value)
    ensures NeverUndefined(form, o, kimi, true) <==> form.lastToolEnd.None? || !CanMiss(form, form.lastToolEnd.value, "")
  {
    hide IsLead, CanMiss, Fresh, ParseMisses, NeverUndefined, ShortLead, StartApart, AllSpace;
    if form.lastToolEnd.None? {
      PlainNever(form, o, kimi);
    } else {
      AnyParse(form, o, kimi, c);
      ShortIsLead(form);
      if CanMiss(form, form.lastToolEnd.value, "") {
        MissesBehindShort(form, form.lastToolEnd.value);
      }
    }
  }

  lemma PlainNever(form: Form, o: Oracle, kimi: bool)
    requires form.Valid() && o.Valid() && form.lastToolEnd.None?
    ensures NeverUndefined(form, o, kimi, true)
  {
    hide ParseMisses;
    forall input: string, isPartial: bool, pos: nat | pos <= |input|
      ensures !ParseMisses(input, isPartial, form, o, kimi, pos)
    {
      if ParseMisses(input, isPartial, form, o, kimi, pos) {
        ParseNeeds(input, isPartial, form, o, kimi, pos);
      }
    }
  }

  lemma MissesBehindShort(form: Form, alt: string)
    requires CanMiss(form, alt, "") && (AllSpace(form.scopeStart) || StartApart(form, alt))
    ensures CanMiss(form, alt, ShortLead(form))
  {
    hide WholeSeparator, CutSeparator, Overlaps, Separator, FindFrom, AllSpace;
    assert "" + form.toolStart == form.toolStart;
    if !AllSpace(form.scopeStart) {
      if Overlaps(form, alt, form.toolStart, form.toolEnd) {
        OverlapsBehind(form, alt, form.scopeStart, form.toolEnd);
      }
      if alt == "" && Overlaps(form, alt, form.toolStart, form.scopeEnd) {
        OverlapsBehind(form, alt, form.scopeStart, form.scopeEnd);
      }
    }
  }

  /** With `tool_start` in none of the literals, what stands in front of it makes no difference. */
  lemma OverlapsBehind(form: Form, alt: string, lead: string, literal: string)
    requires !Occurs(Separator(form), form.toolStart) && !Occurs(literal, form.toolStart)
    requires Overlaps(form, alt, form.toolStart, literal)
    ensures Overlaps(form, alt, lead + form.toolStart, literal)
  {
    hide Separator, CutBehind, FindFrom;
    var start := form.toolStart;
    var j: nat, n: nat :| 0 < j <= n <= |literal|
      && (EndsWith(literal[..j], start) || EndsWith(start, literal[..j]))
      && CutBehind(form, alt, Longer(literal[..j], start), literal[j..n]);
    NotTheEnd(literal, start, j);
    assert EndsWith(lead + start, literal[..j]);
    CutBehindLonger(form, alt, lead, literal[j..n]);
  }

  lemma NotTheEnd(literal: string, start: string, j: nat)
    requires j <= |literal| && !Occurs(literal, start)
    ensures !EndsWith(literal[..j], start)
    ensures EndsWith(start, literal[..j]) ==> j < |start|
  {
    if j >= |start| {
      var i := j - |start|;
      assert literal[..j][i..] == literal[i..i + |start|];
      assert !OccursAt(literal, start, i);
      assert literal[..j] == literal[0..j];
    }
  }

  lemma CutBehindLonger(form: Form, alt: string, lead: string, rest: string)
    requires !Occurs(Separator(form), form.toolStart) && CutBehind(form, alt, form.toolStart, rest)
    ensures CutBehind(form, alt, lead + form.toolStart, rest)
  {
    hide Separator, FindFrom, FindTwoFrom, PartialStop, Masks;
    var front := lead + form.toolStart;
    assert front[|lead|..] == form.toolStart;
    MasksLess(front, |lead|, rest, form.toolEnd);
    MasksLess(front, |lead|, rest, form.scopeEnd);
    MasksSame(lead, form.toolStart, rest, Separator(form));
  }

  lemma MasksSame(lead: string, start: string, rest: string, literal: string)
    requires !Occurs(literal, start)
    ensures Masks(lead + start, rest, literal) ==> Masks(start, rest, literal)
  {
    var front := lead + start;
    forall i | 0 <= i < |front|
      ensures front[i..] + rest <= literal ==> Masks(start, rest, literal)
    {
      if i < |lead| {
        BeginningHolds(lead[i..], start, rest, literal);
        assert front[i..] == lead[i..] + start;
      } else {
        assert front[i..] == start[i - |lead|..];
      }
    }
  }

  lemma BeginningHolds(before: string, start: string, rest: string, literal: string)
    ensures before + start + rest <= literal ==> Occurs(literal, start)
  {
    if before + start + rest <= literal {
      assert (before + start + rest)[|before|..|before + start|] == start;
      assert OccursAt(literal, start, |before|);
    }
  }

  // ---- the forms of the formats ----

  lemma OccurrenceHolds(text: string, literal: string, i: nat, c: char)
    requires OccursAt(text, literal, i) && c in literal
    ensures c in text
  {
    var j :| 0 <= j < |literal| && literal[j] == c;
    assert text[i + j] == text[i..i + |literal|][j];
  }

  lemma HoldsNot(text: string, literal: string, c: char)
    requires c in literal && c !in text
    ensures !Occurs(text, literal)
  {
    forall i: nat
      ensures !OccursAt(text, literal, i)
    {
      if OccursAt(text, literal, i) {
        OccurrenceHolds(text, literal, i, c);
      }
    }
  }

  lemma NotClosing(text: string, alt: string, scopeEnd: string)
    requires alt != "" && !Occurs(text, alt)
    ensures !ClosesWithin(text, alt, scopeEnd)
  {
  }

  const APRIEL_SEPARATOR := "\", \"arguments\": {"

  lemma AprielSeparator()
    ensures Separator(XmlForms.APRIEL_1_5) == APRIEL_SEPARATOR
  {
    XmlForms.Black(APRIEL_SEPARATOR);
  }

  lemma AprielWhole()
    ensures WholeSeparator(XmlForms.APRIEL_1_5, "}")
  {
    AprielSeparator();
    hide Separator, FindFrom, ClosesWithin;
    HoldsNot(APRIEL_SEPARATOR, "}, ", '}');
    HoldsNot(APRIEL_SEPARATOR, "}", '}');
    HoldsNot("}", "}, ", ',');
    HoldsNot("}", APRIEL_SEPARATOR, ',');
    NotClosing(APRIEL_SEPARATOR, "}", XmlForms.APRIEL_1_5.scopeEnd);
  }

  lemma AprielFresh()
    ensures Fresh(XmlForms.APRIEL_1_5, "}", 'b')
  {
    AprielSeparator();
    hide Separator;
    assert 'b' !in APRIEL_SEPARATOR && 'b' !in "}, " && 'b' !in "]</tool_calls>";
  }

  lemma AprielName()
    ensures "}" + ['b'] + (APRIEL_SEPARATOR + ['b']) == "}b\", \"arguments\": {b"
  {
  }

  lemma ScopedInput(form: Form, c: char)
    requires form.lastToolEnd.Some? && !AllSpace(form.scopeStart)
    ensures WholeInput(form, c) == form.scopeStart + form.toolStart + (form.lastToolEnd.value + [c] + (Separator(form) + [c]))
  {
  }

  lemma AprielInput()
    ensures WholeInput(XmlForms.APRIEL_1_5, 'b') == "<tool_calls>[" + "{\"name\": \"" + "}b\", \"arguments\": {b"
  {
    AprielSeparator();
    AprielName();
    XmlForms.Black("<tool_calls>[");
    hide Separator, AllSpace, WholeInput;
    ScopedInput(XmlForms.APRIEL_1_5, 'b');
  }

  /** Apriel-1.5 can: a brace in front of the separator, not followed by the end of the scope. */
  lemma AprielMisses(o: Oracle, kimi: bool)
    requires o.Valid()
    ensures ParseMisses("<tool_calls>[" + "{\"name\": \"" + "}b\", \"arguments\": {b", false, XmlForms.APRIEL_1_5, o, kimi, 0)
  {
    hide ParseMisses, WholeInput, WholeSeparator, Fresh;
    AprielWhole();
    AprielFresh();
    AprielInput();
    WholeParse(XmlForms.APRIEL_1_5, o, kimi, 'b');
  }

  /** The other six cannot. */
  lemma OthersNeverMiss(o: Oracle, kimi: bool)
    requires o.Valid()
    ensures NeverUndefined(XmlForms.MINIMAX_M2, o, kimi, true) && NeverUndefined(XmlForms.QWEN3_CODER, o, kimi, true)
    ensures NeverUndefined(XmlForms.KIMI_K2, o, kimi, true) && NeverUndefined(XmlForms.XIAOMI_MIMO, o, kimi, true)
    ensures NeverUndefined(XmlForms.GLM_4_5, o, kimi, true) && NeverUndefined(XmlForms.SEED_OSS, o, kimi, true)
  {
    hide NeverUndefined;
    PlainNever(XmlForms.MINIMAX_M2, o, kimi);
    PlainNever(XmlForms.QWEN3_CODER, o, kimi);
    PlainNever(XmlForms.KIMI_K2, o, kimi);
    PlainNever(XmlForms.XIAOMI_MIMO, o, kimi);
    PlainNever(XmlForms.GLM_4_5, o, kimi);
    PlainNever(XmlForms.SEED_OSS, o, kimi);
  }
}
