/**
 What the XML-style tool-call parser reads when nothing is cut off, chat-parser-xml-toolcall.cpp:298-626:
 the calls it finds, and where it stops. `None` is every other way out. JSON is read and written by
 an oracle.
 */
module XmlModel {
  import opened CommonStrings
  import opened ChatParser
  import opened XmlFind

  datatype Form = Form(
    scopeStart: string, toolStart: string, toolSep: string, keyStart: string, keyValSep: string,
    valEnd: string, toolEnd: string, scopeEnd: string,
    keyValSep2: Option<string>, rawArgval: Option<bool>, lastValEnd: Option<string>, lastToolEnd: Option<string>,
    trimRawArgval: bool)
  {
    /** What the source asserts on entry. */
    predicate Valid() {
      toolStart != "" && keyStart != "" && keyValSep != "" && valEnd != "" && toolEnd != ""
    }
  }

  /** A JSON value, known by a number, with the markers of its healing if it was cut off. */
  datatype Json = Json(id: int, isTextOrNested: bool, marker: string, dumpMarker: string)

  datatype JsonResult = JsonError | JsonNone | JsonValue(json: Json, end: nat)

  datatype Val = Text(text: string) | Parsed(json: Json)

  type Args = seq<(string, Val)>

  datatype Oracle = Oracle(
    read: (string, nat) -> JsonResult,  // try_consume_json
    bare: (string, nat) -> bool,        // null, true, false or a number, perhaps cut off, to the end
    dump: Args -> Option<string>,       // json::dump, which throws on invalid UTF-8
    truncate: string -> string)         // utf8_truncate_safe_resize
  {
    /** Reading a value takes at least one character, and does not go past the end. */
    ghost predicate Valid() {
      forall s: string, i: nat :: i <= |s| && read(s, i).JsonValue? ==> i < read(s, i).end <= |s|
    }
  }

  datatype Outcome =
    | Returned(ok: bool)
    | Partial       // common_chat_msg_partial_exception
    | Syntax        // xml_toolcall_syntax_exception
    | DumpFailed    // an exception of json::dump
    | Aborted       // GGML_ASSERT on what was dumped
    | Undefined     // a result that is not there is used

  const NEEDLE := "XML_TOOL_CALL_PARTIAL_FLAG"

  const BARE := Json(123, false, "123", "123")

  /** The members of an object keep their order; a key set again keeps its place. */
  function Put(args: Args, key: string, val: Val): Args {
    if args == [] then [(key, val)]
    else if args[0].0 == key then [(key, val)] + args[1..]
    else [args[0]] + Put(args[1..], key, val)
  }

  /** `std::string::rfind`. */
  function FindLast(s: string, pat: string, from: nat): (r: Option<nat>)
    ensures r.Some? ==> r.value <= from && OccursAt(s, pat, r.value)
    ensures forall j :: 0 <= j <= from && OccursAt(s, pat, j) ==> r.Some? && j <= r.value
  {
    if OccursAt(s, pat, from) then Some(from)
    else if from == 0 then None
    else FindLast(s, pat, from - 1)
  }

  /** `partial_json`: the text up to the needle, if only closing characters follow it. */
  function PartialJson(s: string): (r: Option<string>)
    ensures r.Some? ==> r.value <= s
  {
    match FindLast(s, NEEDLE, |s|)
    case None => None
    case Some(pos) =>
      if exists i :: pos + |NEEDLE| <= i < |s| && !(s[i] in ['\'', '"', '}', ':'] || IsSpace(s[i])) then None
      else Some(s[..if pos != 0 && s[pos - 1] == '"' then pos - 1 else pos])
  }

  /** Kimi-K2 writes `functions.name:0`. */
  function PlainName(kimi: bool, name: string): string {
    if kimi && "functions." <= name && EndsInIndex(name) then
      match FindLast(name, ":", |name|)
      case Some(i) =>
        assert forall k :: 0 <= k < 10 ==> "functions."[k] != ':';
        assert name[i..i + 1] == ":" && name[i] == name[i..i + 1][0];
        name[10..i]
      case None => name
    else name
  }

  predicate EndsInIndex(name: string) {
    exists i :: 0 <= i < |name| - 1 && name[i] == ':' && forall j :: i < j < |name| ==> '0' <= name[j] <= '9'
  }

  function DropBrace(s: string): string {
    if s != "" && s[|s| - 1] == '}' then s[..|s| - 1] else s
  }

  // ---- complete calls ----

  /** Behind the second part of the separator, if there is one. */
  function SepEnd(input: string, isPartial: bool, form: Form, pos: nat): (r: Option<nat>)
    requires pos <= |input|
    ensures r.Some? ==> pos <= r.value <= |input|
  {
    match form.keyValSep2
    case None => Some(pos)
    case Some(sep) =>
      match FindLiteral(input, isPartial, sep, pos)
      case Some(f) => if AllSpace(f.prelude) && f.end - f.begin == |sep| then Some(f.end) else None
      case None => None
  }

  /** A plain value and the end of what closes it. */
  function TextFrom(input: string, isPartial: bool, form: Form, pos: nat): (r: Option<(string, nat)>)
    requires pos <= |input|
    ensures r.Some? ==> pos <= r.value.1 <= |input|
  {
    var (size, close) := FindClose(input, isPartial, form.valEnd, form.lastValEnd, form.toolEnd, form.lastToolEnd, pos);
    if close.Some? && close.value.end - close.value.begin == size then
      Some((if form.trimRawArgval then Strip(close.value.prelude) else close.value.prelude, close.value.end))
    else None
  }

  /** JSON, or a bare word or number that the input ends with, and the end of it. */
  function JsonFrom(input: string, form: Form, o: Oracle, pos: nat): (r: Option<(Json, nat)>)
    requires pos <= |input|
    ensures o.Valid() && r.Some? ==> pos <= r.value.1 <= |input|
  {
    if form.rawArgval == Some(true) then None
    else
      match o.read(input, pos)
      case JsonValue(json, end) => Some((json, end))
      case _ => if o.bare(input, SkipSpaces(input, pos)) then Some((BARE, |input|)) else None
  }

  /** What becomes of JSON that was read: more must come, it counts up to where it is closed, or it is only text. */
  datatype Closing = Waits | Counts(end: nat) | IsText

  function ClosingOf(input: string, isPartial: bool, form: Form, json: Json, pos: nat): (r: Closing)
    requires pos <= |input|
    ensures r.Counts? ==> pos <= r.end <= |input|
  {
    if SkipSpaces(input, pos) == |input| then Waits
    else
      var (size, close) := FindClose(input, isPartial, form.valEnd, form.lastValEnd, form.toolEnd, form.lastToolEnd, pos);
      if close.Some? && AllSpace(close.value.prelude) && json.marker == "" then
        if close.value.end - close.value.begin == size then Counts(close.value.end) else Waits
      else IsText
  }

  /** A value of either kind and the end of what closes it. */
  function EitherFrom(input: string, isPartial: bool, form: Form, o: Oracle, pos: nat): (r: Option<(Val, nat)>)
    requires pos <= |input| && o.Valid()
    ensures r.Some? ==> pos <= r.value.1 <= |input|
  {
    var j := JsonFrom(input, form, o, pos);
    var closing := if j.Some? then ClosingOf(input, isPartial, form, j.value.0, j.value.1) else IsText;
    match closing
    case Waits => None
    case Counts(end) => Some((Parsed(j.value.0), end))
    case IsText => AsText(TextFrom(input, isPartial, form, pos))
  }

  function AsText(t: Option<(string, nat)>): Option<(Val, nat)> {
    match t
    case None => None
    case Some((text, end)) => Some((Text(text), end))
  }

  /** A value with what may stand before it. */
  function ValueFrom(input: string, isPartial: bool, form: Form, o: Oracle, pos: nat): (r: Option<(Val, nat)>)
    requires pos <= |input| && o.Valid()
    ensures r.Some? ==> pos <= r.value.1 <= |input|
  {
    match SepEnd(input, isPartial, form, pos)
    case None => None
    case Some(start) => EitherFrom(input, isPartial, form, o, start)
  }

  /** A key, from behind `key_start`. */
  function KeyFrom(input: string, isPartial: bool, form: Form, pos: nat): (r: Option<(string, nat)>)
    requires pos <= |input|
    ensures r.Some? ==> pos <= r.value.1 <= |input|
  {
    match FindLiteral(input, isPartial, form.keyValSep, pos)
    case Some(f) => if f.end - f.begin == |form.keyValSep| then Some((f.prelude, f.end)) else None
    case None => None
  }

  /** The pairs from `pos` on, put into `args`, and where no further one begins. */
  function ArgsFrom(input: string, isPartial: bool, form: Form, o: Oracle, pos: nat, args: Args): (r: Option<(Args, nat)>)
    requires pos <= |input| && form.Valid() && o.Valid()
    ensures r.Some? ==> pos <= r.value.1 <= |input|
    decreases |input| - pos
  {
    FoundAdvances(input, isPartial, form.keyStart, pos);
    match FindLiteral(input, isPartial, form.keyStart, pos)
    case None => Some((args, pos))
    case Some(f) =>
      if !AllSpace(f.prelude) then Some((args, pos))
      else if f.end - f.begin != |form.keyStart| then None
      else
        match KeyFrom(input, isPartial, form, f.end)
        case None => None
        case Some((key, behind)) =>
          match ValueFrom(input, isPartial, form, o, behind)
          case None => None
          case Some((val, next)) => ArgsFrom(input, isPartial, form, o, next, Put(args, key, val))
  }

  /** The first search for a name: up to the separator, or else up to the end of the call. */
  function FirstName(input: string, isPartial: bool, form: Form, pos: nat): (r: Option<Found>)
    requires pos <= |input|
    ensures r.Some? ==> FoundFrom(input, pos, r.value)
  {
    var first := FindLiteral(input, isPartial, if AllSpace(form.toolSep) then form.keyStart else form.toolSep, pos);
    if first.Some? then first else CloseOfCall(input, isPartial, form, pos)
  }

  function CloseOfCall(input: string, isPartial: bool, form: Form, pos: nat): (r: Option<Found>)
    requires pos <= |input|
    ensures r.Some? ==> FoundFrom(input, pos, r.value)
  {
    FindClose(input, isPartial, form.toolEnd, form.lastToolEnd, form.scopeEnd, None, pos).1
  }

  /** The name of a call, looked for again from its end if the search ran into another call. */
  function NameFrom(input: string, isPartial: bool, form: Form, pos: nat): (r: Option<Found>)
    requires pos <= |input|
    ensures r.Some? ==> FoundFrom(input, pos, r.value)
  {
    var f := FirstName(input, isPartial, form, pos);
    if f.Some? && RunsOver(form, f.value.prelude) then CloseOfCall(input, isPartial, form, pos) else f
  }

  /** The search is to be made again, and finds nothing: the source goes on with a result that is not there. */
  predicate Missing(input: string, isPartial: bool, form: Form, pos: nat)
    requires pos <= |input|
  {
    var f := FirstName(input, isPartial, form, pos);
    f.Some? && RunsOver(form, f.value.prelude) && CloseOfCall(input, isPartial, form, pos).None?
  }

  predicate RunsOver(form: Form, prelude: string) {
    || FindFrom(prelude, form.toolEnd, 0).Some?
    || (form.lastToolEnd.Some? && FindFrom(prelude, form.lastToolEnd.value, 0).Some?)
  }

  /** One call, from behind `tool_start`. */
  function CallFrom(input: string, isPartial: bool, form: Form, o: Oracle, kimi: bool, pos: nat): (r: Option<(ToolCall, nat)>)
    requires pos <= |input| && form.Valid() && o.Valid()
    ensures r.Some? ==> pos <= r.value.1 <= |input|
  {
    match NameFrom(input, isPartial, form, pos)
    case None => None
    case Some(f) =>
      match ArgsFrom(input, isPartial, form, o, if AllSpace(form.toolSep) then f.begin else f.end, [])
      case None => None
      case Some((args, end)) => ClosedCall(input, isPartial, form, o, PlainName(kimi, Strip(f.prelude)), args, end)
  }

  function ClosedCall(input: string, isPartial: bool, form: Form, o: Oracle, name: string, args: Args, pos: nat): (r: Option<(ToolCall, nat)>)
    requires pos <= |input|
    ensures r.Some? ==> pos <= r.value.1 <= |input|
  {
    var (size, close) := FindClose(input, isPartial, form.toolEnd, form.lastToolEnd, form.scopeEnd, None, pos);
    if close.None? || !AllSpace(close.value.prelude) || close.value.end - close.value.begin != size then None
    else if o.dump(args).None? || name == "" then None
    else Some((ToolCall(name, o.dump(args).value, ""), close.value.end))
  }

  /** Behind the next `tool_start`, if only white space comes before it. */
  function NextCall(input: string, isPartial: bool, form: Form, pos: nat): (r: Option<nat>)
    requires pos <= |input| && form.Valid()
    ensures r.Some? ==> pos < r.value <= |input|
  {
    FoundAdvances(input, isPartial, form.toolStart, pos);
    match FindLiteral(input, isPartial, form.toolStart, pos)
    case None => None
    case Some(f) => if AllSpace(f.prelude) then Some(f.end) else None
  }

  /** All calls from `pos` on. */
  function CallsFrom(input: string, isPartial: bool, form: Form, o: Oracle, kimi: bool, pos: nat): (r: Option<(seq<ToolCall>, nat)>)
    requires pos <= |input| && form.Valid() && o.Valid()
    ensures r.Some? ==> pos <= r.value.1 <= |input|
    decreases |input| - pos
  {
    match NextCall(input, isPartial, form, pos)
    case None => Some(([], pos))
    case Some(start) =>
      match CallFrom(input, isPartial, form, o, kimi, start)
      case None => None
      case Some((call, next)) => Before(call, CallsFrom(input, isPartial, form, o, kimi, next))
  }

  function Before(call: ToolCall, rest: Option<(seq<ToolCall>, nat)>): Option<(seq<ToolCall>, nat)> {
    match rest
    case None => None
    case Some((calls, end)) => Some(([call] + calls, end))
  }

  function After(done: seq<ToolCall>, rest: Option<(seq<ToolCall>, nat)>): Option<(seq<ToolCall>, nat)> {
    match rest
    case None => None
    case Some((calls, end)) => Some((done + calls, end))
  }

  function OpenFrom(input: string, isPartial: bool, form: Form, pos: nat): (r: Option<nat>)
    requires pos <= |input|
    ensures r.Some? ==> pos <= r.value <= |input|
  {
    if AllSpace(form.scopeStart) then Some(pos) else
    match FindLiteral(input, isPartial, form.scopeStart, pos)
    case Some(f) => if AllSpace(f.prelude) && f.end - f.begin == |form.scopeStart| then Some(f.end) else None
    case None => None
  }

  function CloseFrom(input: string, isPartial: bool, form: Form, pos: nat): (r: Option<nat>)
    requires pos <= |input|
    ensures r.Some? ==> pos <= r.value <= |input|
  {
    match FindLiteral(input, isPartial, form.scopeEnd, pos)
    case Some(f) => if AllSpace(f.prelude) then Some(f.end) else None
    case None => if AllSpace(form.scopeEnd) then Some(pos) else None
  }

  /** The whole of it: the calls between the two ends of the scope. */
  function AllFrom(input: string, isPartial: bool, form: Form, o: Oracle, kimi: bool, pos: nat): (r: Option<(seq<ToolCall>, nat)>)
    requires pos <= |input| && form.Valid() && o.Valid()
    ensures r.Some? ==> pos <= r.value.1 <= |input|
  {
    match OpenFrom(input, isPartial, form, pos)
    case None => None
    case Some(start) =>
      match CallsFrom(input, isPartial, form, o, kimi, start)
      case None => None
      case Some((calls, end)) =>
        match CloseFrom(input, isPartial, form, end)
        case None => None
        case Some(stop) => Some((calls, stop))
  }

  // ---- when a result is missing ----

  /** Some call from `pos` on makes the parser go on with a result that is not there. */
  predicate CallsMiss(input: string, isPartial: bool, form: Form, o: Oracle, kimi: bool, pos: nat)
    requires pos <= |input| && form.Valid() && o.Valid()
    decreases |input| - pos
  {
    match NextCall(input, isPartial, form, pos)
    case None => false
    case Some(start) =>
      || Missing(input, isPartial, form, start)
      || match CallFrom(input, isPartial, form, o, kimi, start)
         case None => false
         case Some((_, next)) => CallsMiss(input, isPartial, form, o, kimi, next)
  }

  predicate ParseMisses(input: string, isPartial: bool, form: Form, o: Oracle, kimi: bool, pos: nat)
    requires pos <= |input| && form.Valid() && o.Valid()
  {
    match OpenFrom(input, isPartial, form, pos)
    case None => false
    case Some(start) => CallsMiss(input, isPartial, form, o, kimi, start)
  }

  lemma MissingHasNoName(input: string, isPartial: bool, form: Form, pos: nat)
    requires pos <= |input|
    ensures Missing(input, isPartial, form, pos) ==> NameFrom(input, isPartial, form, pos).None?
  {
  }

  /** What occurs in a part of the input occurs in the input. */
  lemma {:induction false} FoundInPart(input: string, from: nat, to: nat, pat: string)
    requires from <= to <= |input| && FindFrom(input[from..to], pat, 0).Some?
    ensures FindFrom(input, pat, from).Some?
  {
    var part := input[from..to];
    var i := FindFrom(part, pat, 0).value;
    assert OccursAt(part, pat, i) && part[i..i + |pat|] == pat;
    assert input[from + i..from + i + |pat|] == part[i..i + |pat|];
    assert OccursAt(input, pat, from + i);
  }

  /** Only a closing literal with an alternative can lead there. */
  lemma MissingNeedsAlternative(input: string, isPartial: bool, form: Form, pos: nat)
    requires pos <= |input| && Missing(input, isPartial, form, pos)
    ensures form.lastToolEnd.Some?
  {
    hide FindFrom, FindLiteral, FindClose;
    var f := FirstName(input, isPartial, form, pos).value;
    if FindFrom(f.prelude, form.toolEnd, 0).Some? {
      FoundInPart(input, pos, f.begin, form.toolEnd);
    }
  }
}
