/**
 When the XML-style tool-call parser goes on with a search result that is not there: the name of a
 call is looked for again from the end of the call, and that is not found, chat-parser-xml-toolcall.cpp:409-425.
 Which forms can come to that right behind a `tool_start`, and behind more than that, is settled here
 for complete and for partial input; `XmlUndefined` says what it means for whole parses.
 */
module XmlMissing {
  import opened CommonStrings
  import opened ChatParser
  import opened XmlFind
  import opened XmlModel

  predicate Occurs(text: string, literal: string) {
    FindFrom(text, literal, 0).Some?
  }

  /** What ends a name. */
  function Separator(form: Form): string {
    if AllSpace(form.toolSep) then form.keyStart else form.toolSep
  }

  /** The alternative stands at `i`, and behind it and white space the end of the scope as far as there is room. */
  predicate ClosedBehind(input: string, alt: string, scopeEnd: string, i: nat) {
    OccursAt(input, alt, i) && StandsAt(input, scopeEnd, SkipSpaces(input, i + |alt|))
  }

  /** Exactly when the two literals are found one behind the other. */
  lemma {:induction false} FindTwoIff(input: string, isPartial: bool, first: string, second: string, start: nat, pos: nat)
    requires start <= pos <= |input| && first != ""
    ensures FindTwo(input, isPartial, first, second, start, pos).Some?
            <==> || (exists i: nat :: pos <= i && ClosedBehind(input, first, second, i))
                 || (isPartial && PartialStop(input, first).Some? && pos <= PartialStop(input, first).value)
    decreases |input| - pos
  {
    hide FindTwo, ClosedBehind, PartialStop;
    match FindFrom(input, first, pos) {
      case Some(b) =>
        TwoAtFirst(input, isPartial, first, second, start, pos, b);
        PartialNotBefore(input, first, b);
        if !ClosedBehind(input, first, second, b) {
          FindTwoIff(input, isPartial, first, second, start, b + 1);
          OnlyFirst(input, first, second, pos, b);
          if PartialStop(input, first) == Some(b) {
            EndsHere(input, first, second, b);
          }
        }
      case None =>
        TwoWithoutFirst(input, isPartial, first, second, start, pos);
        NoneClosed(input, first, second, pos);
    }
  }

  lemma TwoAtFirst(input: string, isPartial: bool, first: string, second: string, start: nat, pos: nat, b: nat)
    requires start <= pos <= |input| && first != "" && FindFrom(input, first, pos) == Some(b)
    ensures b < |input|
    ensures ClosedBehind(input, first, second, b) ==> FindTwo(input, isPartial, first, second, start, pos).Some?
    ensures !ClosedBehind(input, first, second, b) ==>
              FindTwo(input, isPartial, first, second, start, pos) == FindTwo(input, isPartial, first, second, start, b + 1)
  {
    hide StandsAt, Comparable, FindTwo;
    FindTwoStep(input, isPartial, first, second, start, pos);
  }

  lemma {:induction false} OnlyFirst(input: string, first: string, second: string, pos: nat, b: nat)
    requires FindFrom(input, first, pos) == Some(b)
    ensures forall i: nat :: pos <= i < b ==> !ClosedBehind(input, first, second, i)
  {
  }

  lemma {:induction false} NoneClosed(input: string, first: string, second: string, pos: nat)
    requires FindFrom(input, first, pos).None?
    ensures forall i: nat :: pos <= i ==> !ClosedBehind(input, first, second, i)
  {
  }

  lemma {:induction false} TwoWithoutFirst(input: string, isPartial: bool, first: string, second: string, start: nat, pos: nat)
    requires start <= pos <= |input| && first != "" && FindFrom(input, first, pos).None?
    ensures FindTwo(input, isPartial, first, second, start, pos).Some?
            <==> isPartial && PartialStop(input, first).Some? && pos <= PartialStop(input, first).value
  {
    hide StandsAt, Comparable, FindTwo, PartialStop, SkipSpaces;
    FindTwoStep(input, isPartial, first, second, start, pos);
    StandsAtEnd(input, second);
  }

  /** An end of the input that begins a literal starts no earlier than a place where all of it stands. */
  lemma PartialNotBefore(input: string, literal: string, i: nat)
    requires OccursAt(input, literal, i)
    ensures PartialStop(input, literal).Some? ==> i <= PartialStop(input, literal).value
  {
    if PartialStop(input, literal).Some? {
      assert input[PartialStop(input, literal).value..] <= literal;
    }
  }

  lemma {:induction false} StandsAtEnd(input: string, second: string)
    ensures SkipSpaces(input, |input|) == |input| && StandsAt(input, second, |input|)
  {
    assert input[|input|..|input|] == second[..0];
  }

  lemma EndsHere(input: string, first: string, second: string, b: nat)
    requires OccursAt(input, first, b) && PartialStop(input, first) == Some(b)
    ensures ClosedBehind(input, first, second, b)
  {
    assert input[b..] <= first;
    StandsAtEnd(input, second);
  }

  // ---- what it takes ----

  /** No result for the end of the call: neither its literal, nor the alternative before the end of the scope. */
  predicate NoClose(input: string, isPartial: bool, form: Form, alt: string, pos: nat)
    requires pos <= |input|
  {
    FindLiteral(input, isPartial, form.toolEnd, pos).None? && FindTwoFrom(input, isPartial, alt, form.scopeEnd, pos).None?
  }

  lemma MissingMeans(input: string, isPartial: bool, form: Form, pos: nat)
    requires pos <= |input|
    ensures Missing(input, isPartial, form, pos)
            <==> && form.lastToolEnd.Some? && NoClose(input, isPartial, form, form.lastToolEnd.value, pos)
                 && var f := FindLiteral(input, isPartial, Separator(form), pos);
                    f.Some? && Occurs(f.value.prelude, form.lastToolEnd.value)
  {
    hide FindLiteral, FindTwoFrom, FindFrom, AllSpace;
    var f := FindLiteral(input, isPartial, Separator(form), pos);
    CloseMissing(input, isPartial, form, pos);
    if f.Some? && FindFrom(f.value.prelude, form.toolEnd, 0).Some? {
      LiteralInPart(input, isPartial, form.toolEnd, pos, f.value.begin);
    }
  }

  lemma CloseMissing(input: string, isPartial: bool, form: Form, pos: nat)
    requires pos <= |input|
    ensures CloseOfCall(input, isPartial, form, pos).None?
            <==> && FindLiteral(input, isPartial, form.toolEnd, pos).None?
                 && (form.lastToolEnd.Some? ==> NoClose(input, isPartial, form, form.lastToolEnd.value, pos))
  {
    hide FindLiteral, FindTwoFrom;
  }

  lemma {:induction false} LiteralInPart(input: string, isPartial: bool, literal: string, from: nat, to: nat)
    requires from <= to <= |input| && FindFrom(input[from..to], literal, 0).Some?
    ensures FindLiteral(input, isPartial, literal, from).Some?
  {
    FoundInPart(input, from, to, literal);
  }

  /** The end of the scope stands behind the alternative, within one text. */
  predicate ClosesWithin(text: string, alt: string, scopeEnd: string) {
    if alt == "" then Occurs(text, scopeEnd)
    else exists i :: 0 <= i <= |text| - |alt| && OccursAt(text, alt, i) && OccursAt(text, scopeEnd, SkipSpaces(text, i + |alt|))
  }

  /** The literals leave room for an alternative in front of the separator of a name. */
  predicate AltBefore(form: Form, alt: string) {
    form.scopeEnd != "" && !Occurs(alt, Separator(form)) && !Occurs(alt, form.toolEnd)
  }

  /** It can happen with the whole separator. */
  predicate WholeSeparator(form: Form, alt: string) {
    && AltBefore(form, alt) && !Occurs(Separator(form), form.toolEnd)
    && !ClosesWithin(Separator(form), alt, form.scopeEnd)
  }

  /** It can happen, in a partial input, with so many characters of the separator. */
  predicate CutSeparator(form: Form, alt: string, k: nat) {
    && 0 < k < |Separator(form)| && AltBefore(form, alt) && NoClose(Separator(form)[..k], true, form, alt, 0)
  }

  /** A literal that stands at a place of the input stands at the same place of a part that holds it. */
  lemma OccursInPart(input: string, literal: string, from: nat, to: nat, i: nat)
    requires from <= to <= |input|
    ensures from <= i && i + |literal| <= to ==> (OccursAt(input, literal, i) <==> OccursAt(input[from..to], literal, i - from))
  {
    if from <= i && i + |literal| <= to {
      var x, y := input[from..to][i - from..i - from + |literal|], input[i..i + |literal|];
      assert |x| == |y| && forall k :: 0 <= k < |x| ==> x[k] == input[from..to][i - from + k] == input[i + k] == y[k];
    }
  }

  lemma SeparatorNotEmpty(form: Form)
    requires form.Valid()
    ensures Separator(form) != ""
  {
  }

  /** The alternative found in front of the separator holds neither the separator nor the end of the call. */
  lemma NeedsAltBefore(input: string, isPartial: bool, form: Form, pos: nat)
    requires pos <= |input| && form.Valid() && Missing(input, isPartial, form, pos)
    ensures form.lastToolEnd.Some? && AltBefore(form, form.lastToolEnd.value)
  {
    hide Missing, NoClose, Occurs, FindLiteral, AllSpace, Separator;
    MissingMeans(input, isPartial, form, pos);
    var alt := form.lastToolEnd.value;
    var i := AltStands(input, isPartial, alt, Separator(form), pos);
    NoEndInAlt(input, isPartial, form, alt, pos, i);
    SeparatorNotEmpty(form);
    NoSeparatorInAlt(input, alt, Separator(form), i);
    ScopeEndThere(input, isPartial, form, alt, pos, i);
  }

  /** The alternative stands in front of the literal that was found, and that does not begin before its end. */
  lemma AltStands(input: string, isPartial: bool, alt: string, sep: string, pos: nat) returns (i: nat)
    requires pos <= |input| && FindLiteral(input, isPartial, sep, pos).Some?
    requires Occurs(FindLiteral(input, isPartial, sep, pos).value.prelude, alt)
    ensures pos <= i && OccursAt(input, alt, i) && forall j: nat :: i <= j < i + |alt| ==> !OccursAt(input, sep, j)
  {
    hide FindFrom;
    var f := FindLiteral(input, isPartial, sep, pos).value;
    i := pos + FindFrom(f.prelude, alt, 0).value;
    OccursInPart(input, alt, pos, f.begin, i);
    forall j: nat | i <= j < i + |alt|
      ensures !OccursAt(input, sep, j)
    {
      FoundIsFirst(input, isPartial, sep, pos, j);
    }
  }

  lemma OccursWithin(input: string, outer: string, inner: string, i: nat, j: nat)
    requires OccursAt(input, outer, i) && OccursAt(outer, inner, j)
    ensures OccursAt(input, inner, i + j)
  {
    OccursInPart(input, inner, i, i + |outer|, i + j);
  }

  lemma FoundIsFirst(input: string, isPartial: bool, literal: string, pos: nat, j: nat)
    requires pos <= j && pos <= |input| && FindLiteral(input, isPartial, literal, pos).Some?
    ensures j < FindLiteral(input, isPartial, literal, pos).value.begin ==> !OccursAt(input, literal, j)
  {
  }

  lemma NoSeparatorInAlt(input: string, alt: string, sep: string, i: nat)
    requires OccursAt(input, alt, i) && sep != "" && forall j: nat :: i <= j < i + |alt| ==> !OccursAt(input, sep, j)
    ensures !Occurs(alt, sep)
  {
    forall j: nat
      ensures !OccursAt(alt, sep, j)
    {
      if OccursAt(alt, sep, j) {
        OccursWithin(input, alt, sep, i, j);
      }
    }
  }

  lemma NoEndInAlt(input: string, isPartial: bool, form: Form, alt: string, pos: nat, i: nat)
    requires pos <= i <= |input| && OccursAt(input, alt, i) && NoClose(input, isPartial, form, alt, pos)
    ensures !Occurs(alt, form.toolEnd)
  {
    if Occurs(alt, form.toolEnd) {
      OccursWithin(input, alt, form.toolEnd, i, FindFrom(alt, form.toolEnd, 0).value);
    }
  }

  lemma ScopeEndThere(input: string, isPartial: bool, form: Form, alt: string, pos: nat, i: nat)
    requires pos <= i <= |input| && OccursAt(input, alt, i) && NoClose(input, isPartial, form, alt, pos)
    ensures form.scopeEnd != ""
  {
    hide FindTwoFrom;
    EmptyEndCloses(input, isPartial, alt, pos, i);
  }

  /** With nothing to follow, the alternative is always closed. */
  lemma EmptyEndCloses(input: string, isPartial: bool, alt: string, pos: nat, i: nat)
    requires pos <= i <= |input| && OccursAt(input, alt, i)
    ensures FindTwoFrom(input, isPartial, alt, "", pos).Some?
  {
    if alt == "" {
      assert OccursAt(input, "", pos);
    } else {
      FindTwoIff(input, isPartial, alt, "", pos, pos);
      var after := SkipSpaces(input, i + |alt|);
      assert input[after..after] == ""[..0];
      assert ClosedBehind(input, alt, "", i);
    }
  }

  /** With the whole separator in the input. */
  lemma {:induction false} NeedsWhole(input: string, isPartial: bool, form: Form, pos: nat)
    requires pos <= |input| && form.Valid() && Missing(input, isPartial, form, pos)
    requires FindFrom(input, Separator(form), pos).Some?
    ensures form.lastToolEnd.Some? && WholeSeparator(form, form.lastToolEnd.value)
  {
    hide Missing, AllSpace, Separator, FindLiteral, FindTwoFrom, ClosesWithin;
    NeedsAltBefore(input, isPartial, form, pos);
    MissingMeans(input, isPartial, form, pos);
    var alt, sep := form.lastToolEnd.value, Separator(form);
    var b := FindFrom(input, sep, pos).value;
    if Occurs(sep, form.toolEnd) {
      OccursWithin(input, sep, form.toolEnd, b, FindFrom(sep, form.toolEnd, 0).value);
      NoFullEnd(input, isPartial, form.toolEnd, pos, b + FindFrom(sep, form.toolEnd, 0).value);
    }
    ClosedInSeparator(input, isPartial, form, alt, pos, b);
  }

  lemma NoFullEnd(input: string, isPartial: bool, literal: string, pos: nat, i: nat)
    requires pos <= |input| && FindLiteral(input, isPartial, literal, pos).None?
    ensures pos <= i ==> !OccursAt(input, literal, i)
  {
  }

  lemma ClosedInSeparator(input: string, isPartial: bool, form: Form, alt: string, pos: nat, b: nat)
    requires pos <= b <= |input| && OccursAt(input, Separator(form), b) && form.scopeEnd != ""
    requires FindTwoFrom(input, isPartial, alt, form.scopeEnd, pos).None?
    ensures !ClosesWithin(Separator(form), alt, form.scopeEnd)
  {
    hide AllSpace, Separator, ClosesWithin, FindTwoFrom;
    if ClosesWithin(Separator(form), alt, form.scopeEnd) {
      ClosesThere(input, isPartial, Separator(form), alt, form.scopeEnd, pos, b);
    }
  }

  /** What is closed within the separator is closed in the input. */
  lemma ClosesThere(input: string, isPartial: bool, sep: string, alt: string, scopeEnd: string, pos: nat, b: nat)
    requires pos <= b <= |input| && OccursAt(input, sep, b) && scopeEnd != "" && ClosesWithin(sep, alt, scopeEnd)
    ensures FindTwoFrom(input, isPartial, alt, scopeEnd, pos).Some?
  {
    if alt == "" {
      OccursWithin(input, sep, scopeEnd, b, FindFrom(sep, scopeEnd, 0).value);
    } else {
      var i: nat :| 0 <= i <= |sep| - |alt| && OccursAt(sep, alt, i) && OccursAt(sep, scopeEnd, SkipSpaces(sep, i + |alt|));
      ClosedInInput(input, sep, alt, scopeEnd, b, i);
      FindTwoIff(input, isPartial, alt, scopeEnd, pos, pos);
    }
  }

  lemma ClosedInInput(input: string, sep: string, alt: string, scopeEnd: string, b: nat, i: nat)
    requires OccursAt(input, sep, b) && scopeEnd != "" && OccursAt(sep, alt, i) && OccursAt(sep, scopeEnd, SkipSpaces(sep, i + |alt|))
    ensures ClosedBehind(input, alt, scopeEnd, b + i)
  {
    hide SkipSpaces, StandsAt;
    OccursWithin(input, sep, alt, b, i);
    OccursWithin(input, sep, scopeEnd, b, SkipSpaces(sep, i + |alt|));
    SkipInPart(input, sep, b, i + |alt|);
    WholeStands(input, scopeEnd, b + SkipSpaces(sep, i + |alt|));
  }

  lemma WholeStands(input: string, second: string, i: nat)
    requires OccursAt(input, second, i)
    ensures StandsAt(input, second, i)
  {
    assert second[..|second|] == second;
  }

  /** White space ends at the same place in a part of the input that goes on behind it. */
  lemma {:induction false} SkipInPart(input: string, part: string, b: nat, i: nat)
    requires OccursAt(input, part, b) && i <= |part| && SkipSpaces(part, i) < |part|
    ensures SkipSpaces(input, b + i) == b + SkipSpaces(part, i)
    decreases |part| - i
  {
    assert input[b + i] == input[b..b + |part|][i] == part[i];
    if IsSpace(part[i]) {
      SkipInPart(input, part, b, i + 1);
    }
  }

  // ---- inputs that lead there ----

  /** A character that no literal holds, and that is not white space. */
  predicate Fresh(form: Form, alt: string, c: char) {
    !IsSpace(c) && c !in alt && c !in Separator(form) && c !in form.toolEnd && c !in form.scopeEnd
  }

  /** A literal does not stand across a character it does not hold. */
  lemma NotAcross(input: string, literal: string, i: nat, m: nat)
    requires m < |input| && input[m] !in literal && OccursAt(input, literal, i)
    ensures m < i || i + |literal| <= m
  {
    forall k | i <= k < i + |literal|
      ensures input[k] in literal
    {
      assert input[k] == input[i..i + |literal|][k - i] == literal[k - i];
    }
  }

  lemma PartialBehind(input: string, literal: string, i: nat, m: nat)
    requires m < |input| && input[m] !in literal && BeginsStop(input, literal, i)
    ensures m < i
  {
    forall k | i <= k < |input|
      ensures input[k] in literal
    {
      assert input[k] == input[i..][k - i] == literal[k - i];
    }
  }

  /** In `front`, a fresh character and `back` a literal stands in `front` or in `back`. */
  lemma InFrontOrBack(front: string, c: char, back: string, literal: string, i: nat)
    requires c !in literal && OccursAt(front + [c] + back, literal, i)
    ensures OccursAt(front, literal, i) || (i > |front| && OccursAt(back, literal, i - |front| - 1))
  {
    var w := front + [c] + back;
    NotAcross(w, literal, i, |front|);
    if i + |literal| <= |front| {
      OccursInPart(w, literal, 0, |front|, i);
      assert w[0..|front|] == front;
    } else {
      OccursInPart(w, literal, |front| + 1, |w|, i);
      assert w[|front| + 1..|w|] == back;
    }
  }

  /** The literal is not found, in a complete input. */
  lemma NotFound(front: string, c: char, back: string, literal: string)
    requires c !in literal && !Occurs(front, literal) && !Occurs(back, literal)
    ensures FindLiteral(front + [c] + back, false, literal, 0).None?
  {
    var w := front + [c] + back;
    var r := FindFrom(w, literal, 0);
    if r.Some? {
      InFrontOrBack(front, c, back, literal, r.value);
    }
  }

  /** In a partial input it is found as it is in what stands behind the fresh character. */
  lemma FoundAsInBack(front: string, c: char, back: string, literal: string)
    requires c !in literal && !Occurs(front, literal) && FindLiteral(back, true, literal, 0).None?
    ensures FindLiteral(front + [c] + back, true, literal, 0).None?
  {
    var w := front + [c] + back;
    assert !Occurs(back, literal);
    NotFound(front, c, back, literal);
    var r := PartialStop(w, literal);
    if r.Some? {
      PartialBehind(w, literal, r.value, |front|);
      assert w[r.value..] == back[r.value - |front| - 1..];
      assert BeginsStop(back, literal, r.value - |front| - 1);
    }
  }

  /** The separator is found behind the alternative. */
  lemma {:induction false} SeparatorBehind(alt: string, c: char, sep: string, tail: string)
    requires c !in sep && sep != "" && !Occurs(alt, sep)
    ensures FindFrom(alt + [c] + (sep + tail), sep, 0) == Some(|alt| + 1)
  {
    var back := sep + tail;
    var w := alt + [c] + back;
    assert w[|alt| + 1..|alt| + 1 + |sep|] == sep;
    assert OccursAt(w, sep, |alt| + 1);
    var r := FindFrom(w, sep, 0);
    InFrontOrBack(alt, c, back, sep, r.value);
  }

  /** An alternative with the fresh character behind it is not closed. */
  lemma NotClosedAtFront(alt: string, c: char, back: string, scopeEnd: string)
    requires !IsSpace(c) && scopeEnd != "" && c !in scopeEnd
    ensures !ClosedBehind(alt + [c] + back, alt, scopeEnd, 0)
  {
    var w := alt + [c] + back;
    assert w[|alt|] == c && SkipSpaces(w, 0 + |alt|) == |alt|;
    var n := Comparable(w, scopeEnd, |alt|);
    assert n > 0 && w[|alt|..|alt| + n][0] == c && scopeEnd[..n][0] == scopeEnd[0];
  }

  /** One that stands further on is closed as it is in what stands behind the fresh character. */
  lemma ClosedAsInBack(front: string, c: char, back: string, alt: string, scopeEnd: string, i: nat)
    requires i > |front| && OccursAt(back, alt, i - |front| - 1)
    ensures ClosedBehind(front + [c] + back, alt, scopeEnd, i) <==> ClosedBehind(back, alt, scopeEnd, i - |front| - 1)
  {
    hide StandsAt, SkipSpaces, Comparable;
    var w, d := front + [c] + back, |front| + 1;
    assert w[d..|w|] == back && w[d..] == back;
    OccursInPart(w, alt, d, |w|, i);
    SkipInSuffix(w, d, i - d + |alt|);
    StandsInSuffix(w, scopeEnd, d, SkipSpaces(back, i - d + |alt|));
  }

  lemma {:induction false} SkipInSuffix(input: string, d: nat, i: nat)
    requires d <= |input| && i <= |input| - d
    ensures SkipSpaces(input, d + i) == d + SkipSpaces(input[d..], i)
    decreases |input| - i
  {
    if d + i < |input| && IsSpace(input[d + i]) {
      SkipInSuffix(input, d, i + 1);
    }
  }

  lemma StandsInSuffix(input: string, second: string, d: nat, i: nat)
    requires d <= |input| && i <= |input| - d
    ensures StandsAt(input, second, d + i) <==> StandsAt(input[d..], second, i)
  {
    var n := Comparable(input, second, d + i);
    assert input[d..][i..i + n] == input[d + i..d + i + n];
  }

  /** A separator that closes nothing does not do so with the fresh character behind it. */
  lemma NotClosedInSeparator(sep: string, c: char, alt: string, scopeEnd: string, i: nat)
    requires alt != "" && c !in alt && c !in scopeEnd && !IsSpace(c) && scopeEnd != "" && !ClosesWithin(sep, alt, scopeEnd)
    ensures !ClosedBehind(sep + [c], alt, scopeEnd, i)
  {
    var back := sep + [c];
    if OccursAt(back, alt, i) {
      NotAcross(back, alt, i, |sep|);
      OccursInPart(back, alt, 0, |sep|, i);
      assert back[0..|sep|] == sep && back[|sep|] == c;
      var after := SkipSpaces(back, i + |alt|);
      StandsWithin(sep, c, alt, scopeEnd, i, after);
    }
  }

  lemma {:induction false} StandsWithin(sep: string, c: char, alt: string, scopeEnd: string, i: nat, after: nat)
    requires alt != "" && OccursAt(sep, alt, i) && after == SkipSpaces(sep + [c], i + |alt|) <= |sep|
    requires c !in scopeEnd && !IsSpace(c) && scopeEnd != "" && !ClosesWithin(sep, alt, scopeEnd)
    ensures !StandsAt(sep + [c], scopeEnd, after)
  {
    hide SkipSpaces, IsSpace;
    StandsThere(sep, c, scopeEnd, after);
    SkipShorter(sep, c, i + |alt|);
  }

  lemma StandsThere(sep: string, c: char, literal: string, i: nat)
    requires c !in literal && literal != "" && i <= |sep|
    ensures StandsAt(sep + [c], literal, i) ==> OccursAt(sep, literal, i)
  {
    var back := sep + [c];
    var n := Comparable(back, literal, i);
    assert forall k :: 0 <= k < n ==> literal[..n][k] == literal[k] && literal[k] in literal;
    assert i + n > |sep| ==> back[i..i + n][|sep| - i] == c;
    if StandsAt(back, literal, i) {
      assert literal[..n] == back[i..i + n];
      assert n == |literal| && literal[..n] == literal;
      assert back[i..i + n] == sep[i..i + n];
    }
  }

  lemma {:induction false} SkipShorter(s: string, c: char, i: nat)
    requires i <= |s| && !IsSpace(c)
    ensures SkipSpaces(s + [c], i) == SkipSpaces(s, i)
    decreases |s| - i
  {
    if i < |s| {
      assert (s + [c])[i] == s[i];
      if IsSpace(s[i]) {
        SkipShorter(s, c, i + 1);
      }
    }
  }

  /** The alternative, something else, and the separator. */
  lemma WholeHappens(form: Form, c: char)
    requires form.Valid() && form.lastToolEnd.Some?
    requires WholeSeparator(form, form.lastToolEnd.value) && Fresh(form, form.lastToolEnd.value, c)
    ensures Missing(form.lastToolEnd.value + [c] + (Separator(form) + [c]), false, form, 0)
  {
    hide Separator, Missing, ClosesWithin, FindTwoFrom, FindLiteral, StandsAt, AllSpace;
    var alt, sep := form.lastToolEnd.value, Separator(form);
    var back := sep + [c];
    var w := alt + [c] + back;
    SeparatorNotEmpty(form);
    SeparatorBehind(alt, c, sep, [c]);
    FoundWhole(w, sep, |alt| + 1);
    AltInFront(alt, c, back);
    NoEndBefore(sep, c, form.toolEnd);
    NotFound(alt, c, back, form.toolEnd);
    NoTwoWhole(form, alt, sep, c);
    MissingMeans(w, false, form, 0);
  }

  lemma {:induction false} FoundWhole(w: string, sep: string, b: nat)
    requires FindFrom(w, sep, 0) == Some(b)
    ensures FindLiteral(w, false, sep, 0) == Some(Found(w[0..b], b, b + |sep|))
  {
  }

  lemma AltInFront(alt: string, c: char, back: string)
    ensures Occurs((alt + [c] + back)[0..|alt| + 1], alt)
  {
    var p := (alt + [c] + back)[0..|alt| + 1];
    assert p[0..|alt|] == alt;
    assert OccursAt(p, alt, 0);
  }

  lemma NoEndBefore(sep: string, c: char, literal: string)
    requires c !in literal && !Occurs(sep, literal) && literal != ""
    ensures !Occurs(sep + [c], literal)
  {
    var back := sep + [c];
    assert back[0..|sep|] == sep && back[|sep|] == c;
    forall i: nat
      ensures !OccursAt(back, literal, i)
    {
      if OccursAt(back, literal, i) {
        NotAcross(back, literal, i, |sep|);
        OccursInPart(back, literal, 0, |sep|, i);
      }
    }
  }

  lemma NoTwoWhole(form: Form, alt: string, sep: string, c: char)
    requires form.scopeEnd != "" && !ClosesWithin(sep, alt, form.scopeEnd)
    requires !IsSpace(c) && c !in alt && c !in sep && c !in form.scopeEnd
    ensures FindTwoFrom(alt + [c] + (sep + [c]), false, alt, form.scopeEnd, 0).None?
  {
    hide ClosesWithin, ClosedBehind, FindTwo, FindFrom, FindLiteral;
    var back := sep + [c];
    var w := alt + [c] + back;
    if alt == "" {
      SepHoldsNot(sep, form.scopeEnd);
      NoEndBefore(sep, c, form.scopeEnd);
      NothingOccurs(form.scopeEnd);
      NotFound(alt, c, back, form.scopeEnd);
    } else {
      FindTwoIff(w, false, alt, form.scopeEnd, 0, 0);
      forall i: nat
        ensures !ClosedBehind(w, alt, form.scopeEnd, i)
      {
        NotClosedHere(alt, sep, c, form.scopeEnd, i);
      }
    }
  }

  lemma SepHoldsNot(sep: string, scopeEnd: string)
    requires !ClosesWithin(sep, "", scopeEnd)
    ensures !Occurs(sep, scopeEnd)
  {
  }

  lemma NothingOccurs(literal: string)
    requires literal != ""
    ensures !Occurs("", literal)
  {
  }

  lemma NotClosedHere(alt: string, sep: string, c: char, scopeEnd: string, i: nat)
    requires alt != "" && scopeEnd != "" && !ClosesWithin(sep, alt, scopeEnd)
    requires !IsSpace(c) && c !in alt && c !in sep && c !in scopeEnd
    ensures !ClosedBehind(alt + [c] + (sep + [c]), alt, scopeEnd, i)
  {
    hide ClosesWithin, StandsAt, SkipSpaces, IsSpace;
    var back := sep + [c];
    var w := alt + [c] + back;
    NotClosedAtFront(alt, c, back, scopeEnd);
    if i > 0 && OccursAt(w, alt, i) {
      InFrontOrBack(alt, c, back, alt, i);
      ClosedAsInBack(alt, c, back, alt, scopeEnd, i);
      NotClosedInSeparator(sep, c, alt, scopeEnd, i - |alt| - 1);
    }
  }

  /** The alternative, something else, and the beginning of the separator. */
  lemma CutHappens(form: Form, c: char, k: nat)
    requires form.Valid() && form.lastToolEnd.Some?
    requires CutSeparator(form, form.lastToolEnd.value, k) && Fresh(form, form.lastToolEnd.value, c)
    ensures Missing(form.lastToolEnd.value + [c] + Separator(form)[..k], true, form, 0)
  {
    hide Separator, Missing, FindTwoFrom, FindLiteral, AllSpace;
    var alt, sep := form.lastToolEnd.value, Separator(form);
    var back := sep[..k];
    var w := alt + [c] + back;
    FoundCut(alt, c, sep, k);
    AltInFront(alt, c, back);
    FoundAsInBack(alt, c, back, form.toolEnd);
    NoTwoCut(form, alt, back, c);
    MissingMeans(w, true, form, 0);
  }

  lemma FoundCut(alt: string, c: char, sep: string, k: nat)
    requires c !in sep && 0 < k < |sep| && !Occurs(alt, sep)
    ensures var w := alt + [c] + sep[..k];
            FindLiteral(w, true, sep, 0) == Some(Found(w[0..|alt| + 1], |alt| + 1, |w|))
  {
    var back := sep[..k];
    var w := alt + [c] + back;
    NotFound(alt, c, back, sep);
    assert w[|alt| + 1..] == back;
    assert BeginsStop(w, sep, |alt| + 1);
    forall j | 0 <= j < |alt| + 1
      ensures !BeginsStop(w, sep, j)
    {
      if BeginsStop(w, sep, j) {
        PartialBehind(w, sep, j, |alt|);
      }
    }
  }

  lemma NoTwoCut(form: Form, alt: string, back: string, c: char)
    requires form.scopeEnd != "" && FindTwoFrom(back, true, alt, form.scopeEnd, 0).None?
    requires !IsSpace(c) && c !in alt && c !in form.scopeEnd
    ensures FindTwoFrom(alt + [c] + back, true, alt, form.scopeEnd, 0).None?
  {
    var w := alt + [c] + back;
    if alt == "" {
      FoundAsInBack(alt, c, back, form.scopeEnd);
    } else {
      FindTwoIff(w, true, alt, form.scopeEnd, 0, 0);
      FindTwoIff(back, true, alt, form.scopeEnd, 0, 0);
      NotClosedAtFront(alt, c, back, form.scopeEnd);
      forall i: nat
        ensures !ClosedBehind(w, alt, form.scopeEnd, i)
      {
        if OccursAt(w, alt, i) && i > 0 {
          InFrontOrBack(alt, c, back, alt, i);
          ClosedAsInBack(alt, c, back, alt, form.scopeEnd, i);
        }
      }
      NoPartialInBack(alt, c, back);
    }
  }

  lemma NoPartialInBack(alt: string, c: char, back: string)
    requires c !in alt && PartialStop(back, alt).None?
    ensures PartialStop(alt + [c] + back, alt).None?
  {
    var w := alt + [c] + back;
    var r := PartialStop(w, alt);
    if r.Some? {
      PartialBehind(w, alt, r.value, |alt|);
      assert w[r.value..] == back[r.value - |alt| - 1..];
      assert BeginsStop(back, alt, r.value - |alt| - 1);
    }
  }

  // ---- partial input ----

  lemma BeginsInSuffix(input: string, literal: string, b: nat, j: nat)
    requires b <= |input|
    ensures BeginsStop(input[b..], literal, j) <==> BeginsStop(input, literal, b + j)
  {
    if b + j < |input| {
      assert input[b..][j..] == input[b + j..];
    }
  }

  /** Nothing of the literal is found in the end of a text in which it is not found. */
  lemma NotInSuffix(text: string, literal: string, b: nat)
    requires b <= |text| && !Occurs(text, literal) && PartialStop(text, literal).None?
    ensures FindLiteral(text[b..], true, literal, 0).None?
  {
    var s := text[b..];
    assert text[b..|text|] == s;
    forall i: nat
      ensures !OccursAt(s, literal, i)
    {
      OccursInPart(text, literal, b, |text|, b + i);
    }
    NotPartialInSuffix(text, literal, b);
  }

  lemma NotPartialInSuffix(input: string, literal: string, b: nat)
    requires b <= |input| && PartialStop(input, literal).None?
    ensures PartialStop(input[b..], literal).None?
  {
    var r := PartialStop(input[b..], literal);
    if r.Some? {
      BeginsInSuffix(input, literal, b, r.value);
    }
  }

  /** Of an alternative that stands in the input no beginning is at the end of it, if it is not closed. */
  lemma NoPartialAlt(input: string, alt: string, scopeEnd: string, pos: nat, i: nat)
    requires pos <= i && pos <= |input| && alt != "" && OccursAt(input, alt, i)
    requires FindTwoFrom(input, true, alt, scopeEnd, pos).None?
    ensures PartialStop(input, alt).None?
  {
    hide FindTwo;
    FindTwoIff(input, true, alt, scopeEnd, pos, pos);
    PartialNotBefore(input, alt, i);
  }

  lemma ClosedInSuffix(input: string, alt: string, scopeEnd: string, b: nat, i: nat)
    requires b <= |input|
    ensures ClosedBehind(input[b..], alt, scopeEnd, i) <==> ClosedBehind(input, alt, scopeEnd, b + i)
  {
    hide StandsAt, SkipSpaces;
    var s := input[b..];
    OccursInPart(input, alt, b, |input|, b + i);
    assert input[b..|input|] == s;
    if OccursAt(s, alt, i) {
      SkipInSuffix(input, b, i + |alt|);
      StandsInSuffix(input, scopeEnd, b, SkipSpaces(s, i + |alt|));
    }
  }

  /** The two are not found in the end of an input in which they are not found. */
  lemma NoTwoInSuffix(input: string, alt: string, scopeEnd: string, pos: nat, from: nat, b: nat)
    requires from <= |input| && b <= |input| && alt != "" && pos <= |input| - b && from <= b + pos
    requires FindTwoFrom(input, true, alt, scopeEnd, from).None? && PartialStop(input, alt).None?
    ensures FindTwoFrom(input[b..], true, alt, scopeEnd, pos).None?
  {
    hide FindTwo, ClosedBehind;
    var s := input[b..];
    FindTwoIff(input, true, alt, scopeEnd, from, from);
    FindTwoIff(s, true, alt, scopeEnd, pos, pos);
    NotPartialInSuffix(input, alt, b);
    forall i: nat | pos <= i
      ensures !ClosedBehind(s, alt, scopeEnd, i)
    {
      ClosedInSuffix(input, alt, scopeEnd, b, i);
      assert from <= b + i;
    }
  }

  lemma FullInSuffix(input: string, literal: string, q: nat, pos: nat)
    requires q <= pos <= |input|
    ensures match FindFrom(input, literal, pos)
            case None => FindFrom(input[q..], literal, pos - q).None?
            case Some(b) => FindFrom(input[q..], literal, pos - q) == Some(b - q)
  {
    var s := input[q..];
    assert input[q..|input|] == s;
    forall i: nat | q <= i
      ensures OccursAt(input, literal, i) <==> OccursAt(s, literal, i - q)
    {
      OccursInPart(input, literal, q, |input|, i);
    }
    var x, y := FindFrom(input, literal, pos), FindFrom(s, literal, pos - q);
    if y.Some? {
      assert OccursAt(input, literal, q + y.value);
    }
    if x.Some? {
      assert OccursAt(s, literal, x.value - q);
    }
  }

  /** The text in front, or the end of it, and the rest begin the literal: shorter beginnings are not seen. */
  predicate Masks(front: string, rest: string, literal: string) {
    exists i :: 0 <= i < |front| && front[i..] + rest <= literal
  }

  /** Neither the literal nor a beginning of it is seen in a partial input's rest, behind this text. */
  predicate NotSeen(front: string, rest: string, literal: string) {
    !Occurs(rest, literal) && (Masks(front, rest, literal) || PartialStop(rest, literal).None?)
  }

  lemma BeginsBehind(front: string, rest: string, literal: string, i: nat)
    ensures i < |front| ==> (BeginsStop(front + rest, literal, i) <==> front[i..] + rest <= literal)
    ensures BeginsStop(front + rest, literal, |front| + i) <==> BeginsStop(rest, literal, i)
  {
    var w := front + rest;
    if i < |front| {
      assert w[i..] == front[i..] + rest;
    }
    assert w[|front|..] == rest;
    BeginsInSuffix(w, literal, |front|, i);
  }

  /** Where the longest beginning of a literal at the end of the text starts. */
  lemma PartialBehindFront(front: string, rest: string, literal: string)
    ensures var r := PartialStop(front + rest, literal);
            if Masks(front, rest, literal) then r.Some? && r.value < |front|
            else match PartialStop(rest, literal) case None => r == None case Some(b) => r == Some(|front| + b)
  {
    var w := front + rest;
    var r := PartialStop(w, literal);
    forall i: nat
      ensures i < |front| ==> (BeginsStop(w, literal, i) <==> front[i..] + rest <= literal)
      ensures BeginsStop(w, literal, |front| + i) <==> BeginsStop(rest, literal, i)
    {
      BeginsBehind(front, rest, literal, i);
    }
    if !Masks(front, rest, literal) {
      forall i | 0 <= i < |front|
        ensures !BeginsStop(w, literal, i)
      {
        assert !(front[i..] + rest <= literal);
      }
      if r.Some? {
        assert BeginsStop(rest, literal, r.value - |front|);
      }
      if PartialStop(rest, literal).Some? {
        assert BeginsStop(w, literal, |front| + PartialStop(rest, literal).value);
      }
    }
  }

  /** What is found of a literal right behind a text. */
  lemma {:induction false} FoundBehind(front: string, rest: string, isPartial: bool, literal: string)
    ensures var r := FindLiteral(front + rest, isPartial, literal, |front|);
            match FindFrom(rest, literal, 0)
            case Some(b) => r == Some(Found(rest[..b], |front| + b, |front| + b + |literal|))
            case None =>
              if !isPartial || Masks(front, rest, literal) || PartialStop(rest, literal).None? then r == None
              else var b := PartialStop(rest, literal).value; r == Some(Found(rest[..b], |front| + b, |front + rest|))
  {
    hide Masks, PartialStop, FindFrom, FindLiteral;
    WholeFoundBehind(front, rest, isPartial, literal);
    PartFoundBehind(front, rest, isPartial, literal);
  }

  lemma {:induction false} WholeFoundBehind(front: string, rest: string, isPartial: bool, literal: string)
    ensures var r := FindFrom(rest, literal, 0);
            r.Some? ==> FindLiteral(front + rest, isPartial, literal, |front|)
                        == Some(Found(rest[..r.value], |front| + r.value, |front| + r.value + |literal|))
  {
    hide PartialStop, FindFrom;
    var w := front + rest;
    assert w[|front|..] == rest;
    FullInSuffix(w, literal, |front|, |front|);
    if FindFrom(rest, literal, 0).Some? {
      PartAgrees(front, rest, FindFrom(rest, literal, 0).value);
    }
  }

  lemma {:induction false} PartFoundBehind(front: string, rest: string, isPartial: bool, literal: string)
    ensures FindFrom(rest, literal, 0).None? ==>
              var r := FindLiteral(front + rest, isPartial, literal, |front|);
              if !isPartial || Masks(front, rest, literal) || PartialStop(rest, literal).None? then r == None
              else var b := PartialStop(rest, literal).value; r == Some(Found(rest[..b], |front| + b, |front + rest|))
  {
    hide Masks, PartialStop, FindFrom;
    var w := front + rest;
    assert w[|front|..] == rest;
    FullInSuffix(w, literal, |front|, |front|);
    PartialBehindFront(front, rest, literal);
    if PartialStop(rest, literal).Some? {
      PartAgrees(front, rest, PartialStop(rest, literal).value);
    }
  }

  lemma PartAgrees(front: string, rest: string, b: nat)
    requires b <= |rest|
    ensures (front + rest)[|front|..|front| + b] == rest[..b]
  {
  }

  /** What is found of the two literals right behind a text, if the first one stands in the rest. */
  lemma TwoBehind(front: string, rest: string, isPartial: bool, alt: string, scopeEnd: string)
    requires alt != "" && Occurs(rest, alt)
    ensures FindTwoFrom(front + rest, isPartial, alt, scopeEnd, |front|).None? <==> FindTwoFrom(rest, isPartial, alt, scopeEnd, 0).None?
  {
    hide FindTwo, ClosedBehind, PartialStop;
    var w := front + rest;
    assert w[|front|..] == rest;
    FindTwoIff(w, isPartial, alt, scopeEnd, |front|, |front|);
    FindTwoIff(rest, isPartial, alt, scopeEnd, 0, 0);
    NotMaskedByFront(front, rest, alt);
    PartialBehindFront(front, rest, alt);
    forall i: nat
      ensures ClosedBehind(rest, alt, scopeEnd, i) <==> ClosedBehind(w, alt, scopeEnd, |front| + i)
    {
      ClosedInSuffix(w, alt, scopeEnd, |front|, i);
    }
    forall i: nat | |front| <= i
      ensures ClosedBehind(w, alt, scopeEnd, i) <==> ClosedBehind(rest, alt, scopeEnd, i - |front|)
    {
      ClosedInSuffix(w, alt, scopeEnd, |front|, i - |front|);
    }
  }

  lemma NotMaskedByFront(front: string, rest: string, alt: string)
    requires Occurs(rest, alt)
    ensures !Masks(front, rest, alt)
  {
  }

  /** Behind this text the rest of a partial input is cut off within the separator, and no end of the call is seen. */
  predicate CutBehind(form: Form, alt: string, front: string, rest: string) {
    var sep := Separator(form);
    && !Occurs(rest, sep) && !Masks(front, rest, sep)
    && PartialStop(rest, sep).Some? && Occurs(rest[..PartialStop(rest, sep).value], alt)
    && NotSeen(front, rest, form.toolEnd)
    && if alt == "" then NotSeen(front, rest, form.scopeEnd) else FindTwoFrom(rest, true, alt, form.scopeEnd, 0).None?
  }

  lemma OccursInLonger(part: string, rest: string, literal: string)
    requires part <= rest && Occurs(part, literal)
    ensures Occurs(rest, literal)
  {
    OccursInPart(rest, literal, 0, |part|, FindFrom(part, literal, 0).value);
    assert rest[0..|part|] == part;
  }

  /** What a missing result means when the separator is not there as a whole. */
  lemma CutBehindIff(form: Form, front: string, rest: string)
    requires form.Valid() && !Occurs(rest, Separator(form))
    ensures Missing(front + rest, true, form, |front|)
            <==> form.lastToolEnd.Some? && CutBehind(form, form.lastToolEnd.value, front, rest)
  {
    hide Missing, Separator, FindLiteral, FindTwo, Masks, FindFrom;
    MissingMeans(front + rest, true, form, |front|);
    FoundBehind(front, rest, true, Separator(form));
    FoundBehind(front, rest, true, form.toolEnd);
    FoundBehind(front, rest, true, form.scopeEnd);
    if form.lastToolEnd.Some? && form.lastToolEnd.value != "" && PartialStop(rest, Separator(form)).Some? {
      var alt, part := form.lastToolEnd.value, rest[..PartialStop(rest, Separator(form)).value];
      if Occurs(part, alt) {
        OccursInLonger(part, rest, alt);
        TwoBehind(front, rest, true, alt, form.scopeEnd);
      }
    }
  }

  predicate EndsWith(text: string, end: string) {
    |end| <= |text| && text[|text| - |end|..] == end
  }

  function Longer(a: string, b: string): string {
    if |a| >= |b| then a else b
  }

  /**
   The text in front of a name and the literal run into each other: a beginning of the literal ends
   with that text, or is an end of it, and the literal goes on as an input that is cut off there.
   */
  predicate Overlaps(form: Form, alt: string, front: string, literal: string) {
    exists j: nat, n: nat {:trigger literal[..j], literal[j..n]} :: 0 < j <= n <= |literal|
      && (EndsWith(literal[..j], front) || EndsWith(front, literal[..j]))
      && CutBehind(form, alt, Longer(literal[..j], front), literal[j..n])
  }

  /** The literals of a form for which a result can be missing behind `lead` and `tool_start`. */
  ghost predicate CanMiss(form: Form, alt: string, lead: string) {
    || WholeSeparator(form, alt)
    || (exists k: nat :: CutSeparator(form, alt, k))
    || Overlaps(form, alt, lead + form.toolStart, form.toolEnd)
    || (alt == "" && Overlaps(form, alt, lead + form.toolStart, form.scopeEnd))
  }

  // ---- what it takes in a partial input ----

  lemma NothingMasked(form: Form, alt: string, front: string, rest: string) returns (k: nat)
    requires CutBehind(form, alt, front, rest) && AltBefore(form, alt)
    requires PartialStop(rest, form.toolEnd).None? && (alt == "" ==> PartialStop(rest, form.scopeEnd).None?)
    ensures CutSeparator(form, alt, k)
  {
    hide Separator, FindLiteral, FindTwo, PartialStop;
    var sep := Separator(form);
    var b := PartialStop(rest, sep).value;
    k := |rest| - b;
    CutOff(rest, sep, b);
    NotInSuffix(rest, form.toolEnd, b);
    if alt == "" {
      NotInSuffix(rest, form.scopeEnd, b);
    } else {
      OccursInLonger(rest[..b], rest, alt);
      NoPartialAlt(rest, alt, form.scopeEnd, 0, FindFrom(rest, alt, 0).value);
      NoTwoInSuffix(rest, alt, form.scopeEnd, 0, 0, b);
    }
  }

  lemma CutOff(rest: string, sep: string, b: nat)
    requires !Occurs(rest, sep) && PartialStop(rest, sep) == Some(b)
    ensures b < |rest| && |rest| - b < |sep| && rest[b..] == sep[..|rest| - b]
  {
    assert BeginsStop(rest, sep, b);
    if |rest| - b == |sep| {
      assert OccursAt(rest, sep, b);
    }
  }

  /** A shorter text in front masks no more, and no less than a mask that it holds. */
  lemma MasksLess(front: string, d: nat, rest: string, literal: string)
    requires d <= |front|
    ensures Masks(front[d..], rest, literal) ==> Masks(front, rest, literal)
    ensures forall i :: d <= i < |front| && front[i..] + rest <= literal ==> Masks(front[d..], rest, literal)
  {
    if Masks(front[d..], rest, literal) {
      var i :| 0 <= i < |front[d..]| && front[d..][i..] + rest <= literal;
      assert front[d..][i..] == front[d + i..];
    }
    forall i | d <= i < |front| && front[i..] + rest <= literal
      ensures Masks(front[d..], rest, literal)
    {
      assert front[d..][i - d..] == front[i..];
    }
  }

  /** Where a mask starts, or the end of the text if there is none. */
  lemma MaskStart(front: string, rest: string, literal: string) returns (i: nat)
    ensures i <= |front| && (i < |front| ==> front[i..] + rest <= literal)
    ensures Masks(front, rest, literal) ==> i < |front|
  {
    i := |front|;
    if Masks(front, rest, literal) {
      i :| 0 <= i < |front| && front[i..] + rest <= literal;
    }
  }

  lemma OverlapOfMask(form: Form, alt: string, before: string, front: string, rest: string, literal: string, i: nat)
    requires i < |before| && EndsWith(before, front) && before[i..] + rest <= literal
    requires CutBehind(form, alt, Longer(before[i..], front), rest)
    ensures Overlaps(form, alt, front, literal)
  {
    hide CutBehind;
    var u := before[i..];
    var j, n := |u|, |u| + |rest|;
    assert literal[..j] == u && literal[j..n] == rest;
    if |u| >= |front| {
      assert u[|u| - |front|..] == before[|before| - |front|..];
    } else {
      assert front[|front| - |u|..] == before[|before| - |front|..][|front| - |u|..] == u;
    }
  }

  lemma CutOrOverlap(form: Form, alt: string, before: string, front: string, rest: string)
    requires CutBehind(form, alt, before, rest) && AltBefore(form, alt) && EndsWith(before, front)
    ensures || (exists k: nat :: CutSeparator(form, alt, k)) || Overlaps(form, alt, front, form.toolEnd)
            || (alt == "" && Overlaps(form, alt, front, form.scopeEnd))
  {
    hide Separator, FindTwoFrom, PartialStop, Masks, CutSeparator, Overlaps, FindFrom, AltBefore;
    if PartialStop(rest, form.toolEnd).None? && (alt == "" ==> PartialStop(rest, form.scopeEnd).None?) {
      var k := NothingMasked(form, alt, before, rest);
    } else {
      var e := MaskStart(before, rest, form.toolEnd);
      var s := MaskStart(before, rest, form.scopeEnd);
      if alt != "" {
        s := |before|;
      }
      var i := if e <= s then e else s;
      var d := if i <= |before| - |front| then i else |before| - |front|;
      assert Longer(before[i..], front) == before[d..];
      MasksLess(before, d, rest, Separator(form));
      MasksLess(before, d, rest, form.toolEnd);
      MasksLess(before, d, rest, form.scopeEnd);
      assert CutBehind(form, alt, before[d..], rest);
      hide CutBehind, EndsWith, Longer;
      if e <= s {
        OverlapOfMask(form, alt, before, front, rest, form.toolEnd, i);
      } else {
        OverlapOfMask(form, alt, before, front, rest, form.scopeEnd, i);
      }
    }
  }

  /** The place behind a text. */
  predicate Behind(input: string, text: string, pos: nat) {
    |text| <= pos <= |input| && OccursAt(input, text, pos - |text|)
  }

  lemma NeedsCanMiss(input: string, isPartial: bool, form: Form, lead: string, pos: nat)
    requires form.Valid() && Behind(input, lead + form.toolStart, pos) && Missing(input, isPartial, form, pos)
    ensures form.lastToolEnd.Some? && CanMiss(form, form.lastToolEnd.value, lead)
    ensures !isPartial ==> WholeSeparator(form, form.lastToolEnd.value)
  {
    hide Missing, Separator, WholeSeparator, CutSeparator, Overlaps, FindFrom, CutBehind, AltBefore;
    var before, rest := input[..pos], input[pos..];
    assert input == before + rest && |before| == pos;
    FullInSuffix(input, Separator(form), pos, pos);
    if FindFrom(input, Separator(form), pos).Some? {
      NeedsWhole(input, isPartial, form, pos);
    } else {
      OnlyPartial(input, isPartial, form, pos);
      NeedsAltBefore(input, isPartial, form, pos);
      CutBehindIff(form, before, rest);
      assert EndsWith(before, lead + form.toolStart);
      CutOrOverlap(form, form.lastToolEnd.value, before, lead + form.toolStart, rest);
    }
  }

  lemma {:induction false} OnlyPartial(input: string, isPartial: bool, form: Form, pos: nat)
    requires pos <= |input| && Missing(input, isPartial, form, pos) && FindFrom(input, Separator(form), pos).None?
    ensures isPartial
  {
    hide Missing, Separator, NoClose;
    MissingMeans(input, isPartial, form, pos);
  }

  // ---- inputs with a text in front ----

  lemma WholeBehind(form: Form, c: char, front: string)
    requires form.Valid() && form.lastToolEnd.Some?
    requires WholeSeparator(form, form.lastToolEnd.value) && Fresh(form, form.lastToolEnd.value, c)
    ensures Missing(front + (form.lastToolEnd.value + [c] + (Separator(form) + [c])), false, form, |front|)
  {
    hide Missing, Separator, WholeSeparator, Fresh;
    WholeHappens(form, c);
    MissingBehind(form, front, form.lastToolEnd.value + [c] + (Separator(form) + [c]));
  }

  /** In a complete input what stands in front makes no difference. */
  lemma MissingBehind(form: Form, front: string, rest: string)
    requires Missing(rest, false, form, 0)
    ensures Missing(front + rest, false, form, |front|)
  {
    hide Missing, Separator, FindTwo, FindFrom, Masks, PartialStop;
    MissingMeans(rest, false, form, 0);
    MissingMeans(front + rest, false, form, |front|);
    SameFound(front, rest, Separator(form));
    SameFound(front, rest, form.toolEnd);
    SameFound(front, rest, form.scopeEnd);
    var alt := form.lastToolEnd.value;
    if alt != "" {
      OccursInLonger(FindLiteral(rest, false, Separator(form), 0).value.prelude, rest, alt);
      TwoBehind(front, rest, false, alt, form.scopeEnd);
    }
  }

  lemma SameFound(front: string, rest: string, literal: string)
    ensures match FindLiteral(rest, false, literal, 0)
            case None => FindLiteral(front + rest, false, literal, |front|).None?
            case Some(f) => f.prelude <= rest && FindLiteral(front + rest, false, literal, |front|).Some?
                            && FindLiteral(front + rest, false, literal, |front|).value.prelude == f.prelude
  {
    hide Masks, PartialStop;
    FoundBehind(front, rest, false, literal);
    var r := FindFrom(rest, literal, 0);
    assert r.Some? ==> rest[0..r.value] == rest[..r.value];
  }

  lemma CutBehindFront(form: Form, c: char, k: nat, front: string)
    requires form.Valid() && form.lastToolEnd.Some?
    requires CutSeparator(form, form.lastToolEnd.value, k) && Fresh(form, form.lastToolEnd.value, c)
    ensures Missing(front + (form.lastToolEnd.value + [c] + Separator(form)[..k]), true, form, |front|)
  {
    var alt, sep := form.lastToolEnd.value, Separator(form);
    var rest := alt + [c] + sep[..k];
    CutHappens(form, c, k);
    FoundCut(alt, c, sep, k);
    NotFound(alt, c, sep[..k], sep);
    hide Missing, Separator, FindTwoFrom, PartialStop, FindFrom;
    assert "" + rest == rest;
    CutBehindIff(form, "", rest);
    assert rest[|alt|] == c;
    NotMasking(front, rest, sep, |alt|);
    CutBehindIff(form, front, rest);
  }

  lemma NotMasking(front: string, rest: string, literal: string, m: nat)
    requires m < |rest| && rest[m] !in literal
    ensures !Masks(front, rest, literal)
  {
    forall i | 0 <= i < |front|
      ensures !(front[i..] + rest <= literal)
    {
      NoBeginning(front[i..] + rest, literal, |front| - i + m);
    }
  }

  lemma NoBeginning(text: string, literal: string, m: nat)
    requires m < |text| && text[m] !in literal
    ensures !(text <= literal)
  {
  }

  lemma OverlapHappens(form: Form, front: string, literal: string) returns (input: string, pos: nat)
    requires form.Valid() && form.lastToolEnd.Some? && Overlaps(form, form.lastToolEnd.value, front, literal)
    ensures Behind(input, front, pos) && Missing(input, true, form, pos)
  {
    hide Missing, CutBehind;
    var j: nat, n: nat :| 0 < j <= n <= |literal|
      && (EndsWith(literal[..j], front) || EndsWith(front, literal[..j]))
      && CutBehind(form, form.lastToolEnd.value, Longer(literal[..j], front), literal[j..n]);
    var before, rest := Longer(literal[..j], front), literal[j..n];
    NoSeparator(form, form.lastToolEnd.value, before, rest);
    CutBehindIff(form, before, rest);
    input, pos := before + rest, |before|;
    EndIsBehind(before, rest, front);
  }

  lemma NoSeparator(form: Form, alt: string, before: string, rest: string)
    requires CutBehind(form, alt, before, rest)
    ensures !Occurs(rest, Separator(form))
  {
  }

  lemma EndIsBehind(before: string, rest: string, front: string)
    requires EndsWith(before, front)
    ensures Behind(before + rest, front, |before|)
  {
    var w, i := before + rest, |before| - |front|;
    assert w[i..i + |front|] == before[i..];
  }

  // ---- the main results ----

  /** No result is missing right behind `lead` and `tool_start`, which is where the parser looks for a name. */
  ghost predicate NeverMissing(form: Form, lead: string, partialToo: bool) {
    forall input: string, isPartial: bool, pos: nat ::
      Behind(input, lead + form.toolStart, pos) && (isPartial ==> partialToo) ==> !Missing(input, isPartial, form, pos)
  }

  /**
   In complete input no result is missing, whatever the input, if and only if the form has no
   alternative end of a call, or the end of the scope is empty, or the alternative holds the separator
   or the end of a call, or the separator holds the end of a call or a closed alternative.
   */
  lemma CompleteIff(form: Form, lead: string, c: char)
    requires form.Valid() && (form.lastToolEnd.Some? ==> Fresh(form, form.lastToolEnd.value, c))
    ensures NeverMissing(form, lead, false) <==> form.lastToolEnd.None? || !WholeSeparator(form, form.lastToolEnd.value)
  {
    hide Missing, WholeSeparator, CanMiss, Fresh;
    forall input: string, pos: nat | Behind(input, lead + form.toolStart, pos) && Missing(input, false, form, pos)
      ensures form.lastToolEnd.Some? && WholeSeparator(form, form.lastToolEnd.value)
    {
      NeedsCanMiss(input, false, form, lead, pos);
    }
    if form.lastToolEnd.Some? && WholeSeparator(form, form.lastToolEnd.value) {
      WholeDoes(form, lead, c);
    }
  }

  lemma WholeDoes(form: Form, lead: string, c: char)
    requires form.Valid() && form.lastToolEnd.Some?
    requires WholeSeparator(form, form.lastToolEnd.value) && Fresh(form, form.lastToolEnd.value, c)
    ensures !NeverMissing(form, lead, false)
  {
    hide Missing, WholeSeparator, Fresh, Separator;
    var front := lead + form.toolStart;
    var rest := form.lastToolEnd.value + [c] + (Separator(form) + [c]);
    WholeBehind(form, c, front);
    FrontIsBehind(front, rest);
  }

  lemma FrontIsBehind(front: string, rest: string)
    ensures Behind(front + rest, front, |front|)
  {
  }

  /** And in any input, complete or partial. */
  lemma AnyInputIff(form: Form, lead: string, c: char)
    requires form.Valid() && (form.lastToolEnd.Some? ==> Fresh(form, form.lastToolEnd.value, c))
    ensures NeverMissing(form, lead, true) <==> form.lastToolEnd.None? || !CanMiss(form, form.lastToolEnd.value, lead)
  {
    hide Missing, CanMiss, Fresh;
    forall input: string, isPartial: bool, pos: nat | Behind(input, lead + form.toolStart, pos) && Missing(input, isPartial, form, pos)
      ensures form.lastToolEnd.Some? && CanMiss(form, form.lastToolEnd.value, lead)
    {
      NeedsCanMiss(input, isPartial, form, lead, pos);
    }
    if form.lastToolEnd.Some? && CanMiss(form, form.lastToolEnd.value, lead) {
      CanMissDoes(form, lead, c);
    }
  }

  lemma CanMissDoes(form: Form, lead: string, c: char)
    requires form.Valid() && form.lastToolEnd.Some? && Fresh(form, form.lastToolEnd.value, c)
    requires CanMiss(form, form.lastToolEnd.value, lead)
    ensures !NeverMissing(form, lead, true)
  {
    hide Missing, WholeSeparator, CutSeparator, Overlaps, Fresh, Behind;
    var alt, front := form.lastToolEnd.value, lead + form.toolStart;
    if WholeSeparator(form, alt) {
      WholeDoes(form, lead, c);
    } else if k: nat :| CutSeparator(form, alt, k) {
      CutDoes(form, lead, c, k);
    } else if Overlaps(form, alt, front, form.toolEnd) {
      var input, pos := OverlapHappens(form, front, form.toolEnd);
    } else {
      var input, pos := OverlapHappens(form, front, form.scopeEnd);
    }
  }

  lemma CutDoes(form: Form, lead: string, c: char, k: nat)
    requires form.Valid() && form.lastToolEnd.Some?
    requires CutSeparator(form, form.lastToolEnd.value, k) && Fresh(form, form.lastToolEnd.value, c)
    ensures !NeverMissing(form, lead, true)
  {
    hide Missing, Separator, NoClose, AltBefore, Fresh;
    var front := lead + form.toolStart;
    CutBehindFront(form, c, k, front);
    FrontIsBehind(front, form.lastToolEnd.value + [c] + Separator(form)[..k]);
  }
}
