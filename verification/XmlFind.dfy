/**
 The searches of the XML tool-call parser, chat-parser-xml-toolcall.cpp:60-79 and 344-383: a literal
 followed by another after white space, and a closing literal that may have an alternative.
 */
module XmlFind {
  import opened CommonStrings
  import opened ChatParser

  /** A result that starts at or after `pos` and carries the text in between. */
  ghost predicate FoundFrom(input: string, pos: nat, f: Found) {
    pos <= f.begin <= f.end <= |input| && f.prelude == input[pos..f.begin]
  }

  predicate AllSpace(s: string) {
    forall i :: 0 <= i < |s| ==> IsSpace(s[i])
  }

  /** A literal that is not empty is found beyond the position it was searched from. */
  lemma FoundAdvances(input: string, isPartial: bool, literal: string, pos: nat)
    requires pos <= |input| && literal != ""
    ensures var r := FindLiteral(input, isPartial, literal, pos); r.Some? ==> r.value.begin < r.value.end
  {
  }

  /** How much of `literal` can be compared at `pos`. */
  function Comparable(input: string, literal: string, pos: nat): (n: nat)
    requires pos <= |input|
    ensures n <= |literal| && pos + n <= |input|
  {
    if |literal| <= |input| - pos then |literal| else |input| - pos
  }

  /** `second`, or as much of it as there is room for, stands at `pos`. */
  predicate StandsAt(input: string, second: string, pos: nat)
    requires pos <= |input|
  {
    var n := Comparable(input, second, pos);
    input[pos..pos + n] == second[..n]
  }

  /** The first place from `pos` on where `first` stands and, after white space, `second`, as far as the input goes. */
  function FindTwo(input: string, isPartial: bool, first: string, second: string, start: nat, pos: nat): (r: Option<Found>)
    requires start <= pos <= |input| && first != ""
    ensures r.Some? ==> FoundFrom(input, start, r.value) && r.value.begin < r.value.end
    decreases |input| - pos
  {
    match FindLiteral(input, isPartial, first, pos)
    case None => None
    case Some(f) =>
      FoundAdvances(input, isPartial, first, pos);
      var after := SkipSpaces(input, f.end);
      if StandsAt(input, second, after) then
        Some(Found(input[start..f.begin], f.begin, after + Comparable(input, second, after)))
      else FindTwo(input, isPartial, first, second, start, f.begin + 1)
  }

  function FindTwoFrom(input: string, isPartial: bool, first: string, second: string, pos: nat): (r: Option<Found>)
    requires pos <= |input|
    ensures r.Some? ==> FoundFrom(input, pos, r.value)
  {
    if first == "" then FindLiteral(input, isPartial, second, pos) else FindTwo(input, isPartial, first, second, pos, pos)
  }

  /** Steps over white space, and over the literal if it stands there as far as the input goes. */
  method TryFollow(p: Parser, second: string) returns (ok: bool)
    requires p.Valid()
    modifies p`pos
    ensures var after := SkipSpaces(p.input, old(p.pos));
            && ok == StandsAt(p.input, second, after)
            && p.pos == if ok then after + Comparable(p.input, second, after) else after
  {
    var _ := p.ConsumeSpaces();
    var matchLen := Comparable(p.input, second, p.pos);
    ok := p.input[p.pos..p.pos + matchLen] == second[..matchLen];
    if ok {
      p.MoveTo(p.pos + matchLen);
    }
  }

  lemma {:induction false} FindTwoStep(input: string, isPartial: bool, first: string, second: string, start: nat, pos: nat)
    requires start <= pos <= |input| && first != ""
    ensures var r, f := FindTwo(input, isPartial, first, second, start, pos), FindLiteral(input, isPartial, first, pos);
            match f
            case None => r == None
            case Some(f) =>
              var after := SkipSpaces(input, f.end);
              if StandsAt(input, second, after) then
                r == Some(Found(input[start..f.begin], f.begin, after + Comparable(input, second, after)))
              else f.begin + 1 <= |input| && r == FindTwo(input, isPartial, first, second, start, f.begin + 1)
  {
    hide FindLiteral, SkipSpaces, StandsAt, Comparable, FoundFrom, FindFrom, PartialStop, IsSpace;
    FoundAdvances(input, isPartial, first, pos);
  }

  /** Both literals are there in full or, of the second, as much as there is room for, with white space between. */
  predicate BothAt(input: string, first: string, second: string, b: nat) {
    OccursAt(input, first, b) && StandsAt(input, second, SkipSpaces(input, b + |first|))
  }

  /** In an input that is complete it is the first place like that which is found, and it is found if there is one. */
  lemma {:induction false} FirstOfBoth(input: string, first: string, second: string, start: nat, pos: nat)
    requires start <= pos <= |input| && first != ""
    ensures match FindTwo(input, false, first, second, start, pos)
            case None => forall b: nat :: pos <= b ==> !BothAt(input, first, second, b)
            case Some(f) =>
              && f.begin >= pos && BothAt(input, first, second, f.begin) && (forall b: nat :: pos <= b < f.begin ==> !BothAt(input, first, second, b))
              && f.prelude == input[start..f.begin]
              && var after := SkipSpaces(input, f.begin + |first|);
                 f.end == if after + |second| <= |input| then after + |second| else |input|
    decreases |input| - pos
  {
    hide StandsAt, SkipSpaces, OccursAt, FindTwo;
    FindTwoStep(input, false, first, second, start, pos);
    var f := FindLiteral(input, false, first, pos);
    if f.Some? && !StandsAt(input, second, SkipSpaces(input, f.value.end)) {
      FirstOfBoth(input, first, second, start, f.value.begin + 1);
    }
  }

  /** `try_find_2_literal_splited_by_spaces`. */
  method TryFindTwo(p: Parser, first: string, second: string) returns (r: Option<Found>)
    requires p.Valid()
    modifies p`pos
    ensures p.Valid() && r == FindTwoFrom(p.input, p.isPartial, first, second, old(p.pos))
    ensures p.pos == if r.Some? then r.value.end else old(p.pos)
  {
    hide FindLiteral, SkipSpaces, FindTwo, StandsAt, Comparable;
    if first == "" {
      r := p.TryFindLiteral(second);
      return;
    }
    var savedPos := p.pos;
    while true
      invariant savedPos == old(p.pos) <= p.pos <= |p.input|
      invariant FindTwo(p.input, p.isPartial, first, second, savedPos, p.pos)
                == FindTwo(p.input, p.isPartial, first, second, savedPos, savedPos)
      decreases |p.input| - p.pos
    {
      FindTwoStep(p.input, p.isPartial, first, second, savedPos, p.pos);
      ghost var from := p.pos;
      var res := p.TryFindLiteral(first);
      if res.None? {
        p.MoveTo(savedPos);
        return None;
      }
      var ok := TryFollow(p, second);
      if ok {
        var prelude := res.value.prelude;
        if |prelude| != res.value.begin - savedPos {
          prelude := p.input[savedPos..res.value.begin];
        }
        PreludeSame(p.input, savedPos, from, res.value, prelude);
        r := Some(Found(prelude, res.value.begin, p.pos));
        return;
      }
      p.MoveTo(res.value.begin + 1);
    }
  }

  /** A prelude of the right length starts where it should. */
  lemma PreludeSame(input: string, saved: nat, pos: nat, f: Found, prelude: string)
    requires saved <= pos <= f.begin <= |input| && f.prelude == input[pos..f.begin]
    requires prelude == if |f.prelude| != f.begin - saved then input[saved..f.begin] else f.prelude
    ensures prelude == input[saved..f.begin]
  {
  }

  /** The nearest of the closing literal and its alternative, and the length of the one it is. */
  function FindClose(input: string, isPartial: bool, end: string, altEnd: Option<string>, endNext: string,
                     altEndNext: Option<string>, pos: nat): (r: (nat, Option<Found>))
    requires pos <= |input|
    ensures r.1.Some? ==> FoundFrom(input, pos, r.1.value)
    ensures FindFrom(input, end, pos).Some? ==> r.1.Some?
    ensures r.0 == |end| || (altEnd.Some? && r.0 == |altEnd.value|)
  {
    var tc := FindLiteral(input, isPartial, end, pos);
    match altEnd
    case None => (|end|, tc)
    case Some(alt) =>
      var two := NearestTwo(input, isPartial, alt, endNext, altEndNext, pos);
      if two.Some? && (tc.None? || |tc.value.prelude| > |two.value.prelude|) then
        var stop := if two.value.begin + |alt| <= |input| then two.value.begin + |alt| else |input|;
        (|alt|, Some(Found(two.value.prelude, two.value.begin, stop)))
      else (|end|, tc)
  }

  /** The alternative close before one of the two literals that may come next. */
  function NearestTwo(input: string, isPartial: bool, alt: string, endNext: string, altEndNext: Option<string>, pos: nat): (r: Option<Found>)
    requires pos <= |input|
    ensures r.Some? ==> FoundFrom(input, pos, r.value)
  {
    var two := FindTwoFrom(input, isPartial, alt, endNext, pos);
    match altEndNext
    case None => two
    case Some(next) =>
      var three := FindTwoFrom(input, isPartial, alt, next, pos);
      if three.Some? && (two.None? || |two.value.prelude| > |three.value.prelude|) then three else two
  }

  method TryNearestTwo(p: Parser, alt: string, endNext: string, altEndNext: Option<string>) returns (two: Option<Found>)
    requires p.Valid()
    modifies p`pos
    ensures p.Valid() && two == NearestTwo(p.input, p.isPartial, alt, endNext, altEndNext, old(p.pos))
  {
    hide FindTwoFrom;
    var savedPos := p.pos;
    two := TryFindTwo(p, alt, endNext);
    if altEndNext.Some? {
      p.MoveTo(savedPos);
      var three := TryFindTwo(p, alt, altEndNext.value);
      if three.Some? && (two.None? || |two.value.prelude| > |three.value.prelude|) {
        two := three;
      }
    }
  }

  /** `try_find_close`. */
  method TryFindClose(p: Parser, end: string, altEnd: Option<string>, endNext: string, altEndNext: Option<string>)
    returns (size: nat, r: Option<Found>)
    requires p.Valid()
    modifies p`pos
    ensures p.Valid() && (size, r) == FindClose(p.input, p.isPartial, end, altEnd, endNext, altEndNext, old(p.pos))
    ensures p.pos == if r.Some? then r.value.end else old(p.pos)
  {
    hide FindLiteral, NearestTwo;
    var savedPos := p.pos;
    r := p.TryFindLiteral(end);
    size := |end|;
    if altEnd.Some? {
      var pos1 := p.pos;
      p.MoveTo(savedPos);
      var two := TryNearestTwo(p, altEnd.value, endNext, altEndNext);
      if two.Some? && (r.None? || |r.value.prelude| > |two.value.prelude|) {
        var stop := if two.value.begin + |altEnd.value| <= |p.input| then two.value.begin + |altEnd.value| else |p.input|;
        r := Some(Found(two.value.prelude, two.value.begin, stop));
        p.MoveTo(stop);
        size := |altEnd.value|;
      } else {
        p.MoveTo(pos1);
      }
    }
  }
}
