/**
 Text where none belongs, chat-parser-xml-toolcall.cpp:307-315, 424-440 and 586-622: what the parser does about it
 depends on where it stands and on whether anything complete came before.
 */
module XmlStray {
  import opened CommonStrings
  import opened ChatParser
  import opened XmlFind
  import opened XmlModel
  import opened XmlStops
  import opened XmlRoundTrip

  /** Some text that is not all white space, and then a literal for the first time. */
  ghost predicate StrayBefore(input: string, pos: nat, stray: string, literal: string, rest: string) {
    At(input, pos, stray + (literal + rest)) && !AllSpace(stray) && EndsFirst(stray, literal)
  }

  /** Before the scope: no tool call, and the position stays. */
  lemma StrayBeforeScope(input: string, isPartial: bool, form: Form, o: Oracle, kimi: bool, pos: nat, stray: string, rest: string)
    requires form.Valid() && o.Valid() && !AllSpace(form.scopeStart) && StrayBefore(input, pos, stray, form.scopeStart, rest)
    ensures AllFrom(input, isPartial, form, o, kimi, pos) == None
    ensures AllStop(input, isPartial, form, o, kimi, pos) == Stop([], Returned(false))
  {
    hide FindLiteral, AllSpace, EndsFirst, CallsFrom, CallsStop, CloseFrom;
    FindsEnd(input, isPartial, pos, stray, form.scopeStart, rest);
  }

  /** Between a key and the second part of the separator: an error, whatever came before. */
  lemma StrayBeforeValue(input: string, isPartial: bool, form: Form, o: Oracle, name: string, args: Args, key: string, pos: nat, stray: string, rest: string)
    requires o.Valid() && form.keyValSep2.Some? && StrayBefore(input, pos, stray, form.keyValSep2.value, rest)
    ensures ValueFrom(input, isPartial, form, o, pos) == None
    ensures ValueStop(input, isPartial, form, o, name, args, key, pos) == Stop([], Syntax)
  {
    hide FindLiteral, AllSpace, EndsFirst, CutStop, EitherFrom, EitherStop;
    FindsEnd(input, isPartial, pos, stray, form.keyValSep2.value, rest);
  }

  /** Before the end of a call: back to the start while nothing complete has come, and an error after that. */
  lemma StrayBeforeEnd(input: string, isPartial: bool, form: Form, o: Oracle, name: string, args: Args, pos: nat, stray: string, rest: string, recovery: bool)
    requires form.lastToolEnd.None? && StrayBefore(input, pos, stray, form.toolEnd, rest)
    ensures ClosedCall(input, isPartial, form, o, name, args, pos) == None
    ensures CloseStop(input, isPartial, form, o, name, args, pos, recovery) == Stop([], if recovery then Returned(false) else Syntax)
  {
    hide FindLiteral, AllSpace, EndsFirst, OpenStop;
    FindsEnd(input, isPartial, pos, stray, form.toolEnd, rest);
  }

  /** A call that is complete but has no name: nothing is sent for it. */
  lemma {:induction false} NoName(input: string, isPartial: bool, form: Form, o: Oracle, args: Args, pos: nat, gap: string, rest: string, recovery: bool)
    requires form.lastToolEnd.None? && StartsBlack(form.toolEnd) && AllSpace(gap) && At(input, pos, gap + (form.toolEnd + rest)) && o.dump(args).Some?
    ensures ClosedCall(input, isPartial, form, o, "", args, pos) == None
    ensures CloseStop(input, isPartial, form, o, "", args, pos, recovery) == Stop([], Partial)
  {
    hide FindLiteral, AllSpace, OpenStop;
    FindsGap(input, isPartial, pos, gap, form.toolEnd, rest);
  }

  /** Before the end of the scope: as before the end of a call. The calls that were sent stay sent unless the error is caught. */
  lemma StrayBeforeScopeEnd(input: string, isPartial: bool, form: Form, pos: nat, stray: string, rest: string, recovery: bool)
    requires StrayBefore(input, pos, stray, form.scopeEnd, rest)
    ensures CloseFrom(input, isPartial, form, pos) == None
    ensures CloseOut(input, isPartial, form, pos, recovery) == if recovery then Returned(false) else Syntax
  {
    hide FindLiteral, AllSpace, EndsFirst;
    FindsEnd(input, isPartial, pos, stray, form.scopeEnd, rest);
  }

  /** In the whole parse: with no calls before, it goes back; otherwise they have been sent, and the error is raised. */
  lemma {:induction false} StrayBehindCalls(input: string, isPartial: bool, form: Form, o: Oracle, kimi: bool, pos: nat, start: nat, calls: seq<ToolCall>, end: nat,
                         stray: string, rest: string)
    requires form.Valid() && o.Valid() && pos <= start <= end <= |input| && OpenFrom(input, isPartial, form, pos) == Some(start)
    requires CallsFrom(input, isPartial, form, o, kimi, start) == Some((calls, end)) && StrayBefore(input, end, stray, form.scopeEnd, rest)
    ensures AllFrom(input, isPartial, form, o, kimi, pos) == None
    ensures AllStop(input, isPartial, form, o, kimi, pos) == Stop(calls, if calls == [] then Returned(false) else Syntax)
  {
    hide CallsFrom, OpenFrom, CloseFrom, CloseOut, StrayBefore;
    StrayBeforeScopeEnd(input, isPartial, form, end, stray, rest, calls == []);
  }

  /** Arguments that cannot be written: nothing is sent, and that is what is raised. */
  lemma NotWritten(o: Oracle, name: string, args: Args)
    ensures o.dump(args).None? <==> OpenStop(o, name, args).out == DumpFailed
    ensures o.dump(args).None? ==> OpenStop(o, name, args) == CutStop(o, name, args) == Stop([], DumpFailed)
  {
  }

  /** Where the scope needs no end and none is found, it ends at once; where it needs one, only more input can help. */
  lemma {:induction false} NoScopeEnd(input: string, isPartial: bool, form: Form, pos: nat, recovery: bool)
    requires pos <= |input| && FindLiteral(input, isPartial, form.scopeEnd, pos).None?
    ensures AllSpace(form.scopeEnd) ==> CloseFrom(input, isPartial, form, pos) == Some(pos)
    ensures !AllSpace(form.scopeEnd) ==>
              && CloseFrom(input, isPartial, form, pos) == None
              && CloseOut(input, isPartial, form, pos, recovery)
                 == if AllSpace(input[pos..]) then Partial else if recovery then Returned(false) else Syntax
  {
    hide FindLiteral;
    OnlySpaces(input, pos);
  }

  lemma {:induction false} OnlySpaces(input: string, pos: nat)
    requires pos <= |input|
    ensures SkipSpaces(input, pos) == |input| <==> AllSpace(input[pos..])
  {
    var r := SkipSpaces(input, pos);
    assert forall k :: pos <= k < |input| ==> input[k] == input[pos..][k - pos];
    if r < |input| {
      assert !IsSpace(input[pos..][r - pos]);
    }
  }
}
