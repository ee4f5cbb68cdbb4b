/**
 How the XML-style tool-call parser stops when it does not come to the end, chat-parser-xml-toolcall.cpp:307-622:
 which calls it has sent by then, a last one perhaps cut off, and what it returns or throws. The functions follow
 those of `XmlModel`, one for each that may give `None`.
 */
module XmlStops {
  import opened CommonStrings
  import opened ChatParser
  import opened XmlFind
  import opened XmlModel

  datatype Stop = Stop(sent: seq<ToolCall>, out: Outcome)

  /** Where nothing stops the parser. */
  const GOES_ON := Stop([], Returned(true))

  // ---- calls that are cut off ----

  /** The one call, if any, for arguments that more may follow: without its closing brace. */
  function OpenCall(o: Oracle, name: string, args: Args): (r: seq<ToolCall>)
    ensures |r| <= 1 && forall i :: 0 <= i < |r| ==> r[i].name == name != ""
  {
    match o.dump(args)
    case None => []
    case Some(text) => if name == "" then [] else [ToolCall(name, DropBrace(text), "")]
  }

  /** The one call, if any, for arguments that hold the needle: without it and what follows it. */
  function CutCall(o: Oracle, name: string, args: Args): (r: seq<ToolCall>)
    ensures |r| <= 1 && forall i :: 0 <= i < |r| ==> r[i].name == name != ""
  {
    match o.dump(args)
    case None => []
    case Some(text) =>
      match PartialJson(text)
      case None => []
      case Some(cut) => if name == "" then [] else [ToolCall(name, cut, "")]
  }

  /** The one call, if any, for JSON that reaches to the end of the input: up to its marker, or without the closing brace. */
  function WaitingCall(o: Oracle, name: string, args: Args, key: string, json: Json): (r: seq<ToolCall>)
    ensures |r| <= 1 && forall i :: 0 <= i < |r| ==> r[i].name == name != ""
  {
    match o.dump(Put(args, key, Parsed(json)))
    case None => []
    case Some(text) =>
      if name == "" then []
      else if json.dumpMarker != "" then
        match FindLast(text, json.dumpMarker, |text|)
        case None => []
        case Some(at) => [ToolCall(name, text[..at], "")]
      else if text == "" || text[|text| - 1] != '}' then []
      else [ToolCall(name, text[..|text| - 1], "")]
  }

  function DumpOut(o: Oracle, args: Args): Outcome {
    if o.dump(args).None? then DumpFailed else Partial
  }

  /** The marker, or else the closing brace, must be there. */
  function WaitingOut(o: Oracle, args: Args, key: string, json: Json): Outcome {
    match o.dump(Put(args, key, Parsed(json)))
    case None => DumpFailed
    case Some(text) =>
      if json.dumpMarker != "" then (if FindLast(text, json.dumpMarker, |text|).None? then Aborted else Partial)
      else if text == "" || text[|text| - 1] != '}' then Aborted
      else Partial
  }

  function OpenStop(o: Oracle, name: string, args: Args): Stop {
    Stop(OpenCall(o, name, args), DumpOut(o, args))
  }

  function CutStop(o: Oracle, name: string, args: Args): Stop {
    Stop(CutCall(o, name, args), DumpOut(o, args))
  }

  // ---- values ----

  /** JSON up to the end of the input. */
  function WaitStop(form: Form, o: Oracle, name: string, args: Args, key: string, json: Json): Stop {
    if form.rawArgval == Some(false) && json.isTextOrNested then
      Stop(WaitingCall(o, name, args, key, json), WaitingOut(o, args, key, json))
    else CutStop(o, name, Put(args, key, Text(NEEDLE)))
  }

  /** JSON, up to `pos`, and then the end of the input or a part of what closes it. */
  function JsonStop(input: string, form: Form, o: Oracle, name: string, args: Args, key: string, json: Json, pos: nat): Stop
    requires pos <= |input|
  {
    if SkipSpaces(input, pos) == |input| then WaitStop(form, o, name, args, key, json)
    else CutStop(o, name, Put(args, key, Text(NEEDLE)))
  }

  /** Text that is closed only in part, or not at all. */
  function TextStop(input: string, isPartial: bool, form: Form, o: Oracle, name: string, args: Args, key: string, pos: nat): Stop
    requires pos <= |input|
  {
    var close := FindClose(input, isPartial, form.valEnd, form.lastValEnd, form.toolEnd, form.lastToolEnd, pos).1;
    var raw := if close.Some? then close.value.prelude else o.truncate(input[pos..]);
    CutStop(o, name, Put(args, key, Text((if form.trimRawArgval then Strip(raw) else raw) + NEEDLE)))
  }

  function EitherStop(input: string, isPartial: bool, form: Form, o: Oracle, name: string, args: Args, key: string, pos: nat): Stop
    requires pos <= |input| && o.Valid()
  {
    var j := JsonFrom(input, form, o, pos);
    if j.Some? && ClosingOf(input, isPartial, form, j.value.0, j.value.1).Waits? then
      JsonStop(input, form, o, name, args, key, j.value.0, j.value.1)
    else TextStop(input, isPartial, form, o, name, args, key, pos)
  }

  /** Text before the second part of the separator, or that part missing or cut off. */
  function SepStop(input: string, isPartial: bool, form: Form, o: Oracle, name: string, args: Args, key: string, pos: nat): Stop
    requires pos <= |input|
  {
    var f := if form.keyValSep2.None? then None else FindLiteral(input, isPartial, form.keyValSep2.value, pos);
    if f.Some? && !AllSpace(f.value.prelude) then Stop([], Syntax)
    else CutStop(o, name, Put(args, key, Text(NEEDLE)))
  }

  function ValueStop(input: string, isPartial: bool, form: Form, o: Oracle, name: string, args: Args, key: string, pos: nat): Stop
    requires pos <= |input| && o.Valid()
  {
    match SepEnd(input, isPartial, form, pos)
    case None => SepStop(input, isPartial, form, o, name, args, key, pos)
    case Some(start) => EitherStop(input, isPartial, form, o, name, args, key, start)
  }

  // ---- calls ----

  /** A key that is not closed, or only in part. */
  function KeyStop(input: string, isPartial: bool, form: Form, o: Oracle, name: string, args: Args, pos: nat): Stop
    requires pos <= |input|
  {
    var f := FindLiteral(input, isPartial, form.keyValSep, pos);
    var key := if f.Some? then f.value.prelude else o.truncate(input[pos..]);
    CutStop(o, name, Put(args, key + NEEDLE, Text("")))
  }

  function ArgsStop(input: string, isPartial: bool, form: Form, o: Oracle, name: string, pos: nat, args: Args): Stop
    requires pos <= |input| && form.Valid() && o.Valid()
    decreases |input| - pos
  {
    FoundAdvances(input, isPartial, form.keyStart, pos);
    match FindLiteral(input, isPartial, form.keyStart, pos)
    case None => GOES_ON
    case Some(f) =>
      if !AllSpace(f.prelude) then GOES_ON
      else if f.end - f.begin != |form.keyStart| then OpenStop(o, name, args)
      else
        match KeyFrom(input, isPartial, form, f.end)
        case None => KeyStop(input, isPartial, form, o, name, args, f.end)
        case Some((key, behind)) =>
          match ValueFrom(input, isPartial, form, o, behind)
          case None => ValueStop(input, isPartial, form, o, name, args, key, behind)
          case Some((val, next)) => ArgsStop(input, isPartial, form, o, name, next, Put(args, key, val))
  }

  /** Something else where a call should end, a call without a name, or an end that is missing or cut off. */
  function CloseStop(input: string, isPartial: bool, form: Form, o: Oracle, name: string, args: Args, pos: nat, recovery: bool): Stop
    requires pos <= |input|
  {
    var (size, close) := FindClose(input, isPartial, form.toolEnd, form.lastToolEnd, form.scopeEnd, None, pos);
    if close.Some? && !AllSpace(close.value.prelude) then Stop([], ErrorOut(recovery))
    else if close.Some? && close.value.end - close.value.begin == size then Stop([], DumpOut(o, args))
    else OpenStop(o, name, args)
  }

  function ErrorOut(recovery: bool): Outcome {
    if recovery then Returned(false) else Syntax
  }

  /** While `recovery` holds, nothing has been sent and the parser can go back. */
  function CallStop(input: string, isPartial: bool, form: Form, o: Oracle, kimi: bool, pos: nat, recovery: bool): Stop
    requires pos <= |input| && form.Valid() && o.Valid()
  {
    match NameFrom(input, isPartial, form, pos)
    case None => Stop([], if Missing(input, isPartial, form, pos) then Undefined else Partial)
    case Some(f) =>
      var name, start := PlainName(kimi, Strip(f.prelude)), if AllSpace(form.toolSep) then f.begin else f.end;
      match ArgsFrom(input, isPartial, form, o, start, [])
      case None => ArgsStop(input, isPartial, form, o, name, start, [])
      case Some((args, end)) => CloseStop(input, isPartial, form, o, name, args, end, recovery && args == [])
  }

  function CallsStop(input: string, isPartial: bool, form: Form, o: Oracle, kimi: bool, pos: nat, recovery: bool): Stop
    requires pos <= |input| && form.Valid() && o.Valid()
    decreases |input| - pos
  {
    match NextCall(input, isPartial, form, pos)
    case None => GOES_ON
    case Some(start) =>
      match CallFrom(input, isPartial, form, o, kimi, start)
      case None => CallStop(input, isPartial, form, o, kimi, start, recovery)
      case Some((call, next)) => Further([call], CallsStop(input, isPartial, form, o, kimi, next, false))
  }

  function Further(done: seq<ToolCall>, stop: Stop): Stop {
    Stop(done + stop.sent, stop.out)
  }

  // ---- the scope ----

  function OpenOut(input: string, isPartial: bool, form: Form, pos: nat): Outcome
    requires pos <= |input|
  {
    var f := FindLiteral(input, isPartial, form.scopeStart, pos);
    if f.Some? && AllSpace(f.value.prelude) then Partial else Returned(false)
  }

  function CloseOut(input: string, isPartial: bool, form: Form, pos: nat, recovery: bool): Outcome
    requires pos <= |input|
  {
    if FindLiteral(input, isPartial, form.scopeEnd, pos).None? && SkipSpaces(input, pos) == |input| then Partial
    else ErrorOut(recovery)
  }

  /** The whole of it, where `AllFrom` gives nothing. */
  function AllStop(input: string, isPartial: bool, form: Form, o: Oracle, kimi: bool, pos: nat): Stop
    requires pos <= |input| && form.Valid() && o.Valid()
  {
    match OpenFrom(input, isPartial, form, pos)
    case None => Stop([], OpenOut(input, isPartial, form, pos))
    case Some(start) =>
      match CallsFrom(input, isPartial, form, o, kimi, start)
      case None => CallsStop(input, isPartial, form, o, kimi, start, true)
      case Some((calls, end)) => Stop(calls, CloseOut(input, isPartial, form, end, calls == []))
  }
}
