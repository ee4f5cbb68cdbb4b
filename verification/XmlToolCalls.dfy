/**
 XML-style tool calls, chat-parser-xml-toolcall.cpp:298-648. Where JSON is read or written an oracle
 answers: reading fails, finds nothing, or advances; writing fails or gives some text. Every way out
 of the parser, exceptions included, is an outcome.
 */
module XmlToolCalls {
  import opened CommonStrings
  import opened ChatParser
  import opened XmlFind
  import opened XmlModel
  import opened XmlStops

  // ---- what is kept ----

  /** Calls are only added, and every added one has a name. */
  ghost predicate Extends(before: seq<ToolCall>, after: seq<ToolCall>) {
    before <= after && forall i :: |before| <= i < |after| ==> after[i].name != ""
  }

  /** An exception of one of the kinds a value or a call can raise. */
  predicate Raised(out: Outcome) {
    out.Partial? || out.Syntax? || out.DumpFailed? || out.Aborted?
  }

  /** The parser stopped, and has sent what `how` says. */
  predicate StoppedBy(stop: Option<Outcome>, before: seq<ToolCall>, after: seq<ToolCall>, how: Stop) {
    stop.Some? && Stop(after, stop.value) == Further(before, how)
  }

  method AddToolCall(p: Parser, name: string, arguments: string) returns (ok: bool)
    modifies p`toolCalls
    ensures ok == (name != "")
    ensures p.toolCalls == old(p.toolCalls) + if ok then [ToolCall(name, arguments, "")] else []
  {
    if name == "" {
      return false;
    }
    p.toolCalls := p.toolCalls + [ToolCall(name, arguments, "")];
    return true;
  }

  /** What has been read so far is sent without its closing brace, and more is waited for. */
  method AddOpenCall(p: Parser, o: Oracle, name: string, args: Args) returns (out: Outcome)
    modifies p`toolCalls
    ensures Extends(old(p.toolCalls), p.toolCalls) && Raised(out)
    ensures Stop(p.toolCalls, out) == Further(old(p.toolCalls), OpenStop(o, name, args))
  {
    var text := o.dump(args);
    if text.None? {
      return DumpFailed;
    }
    var _ := AddToolCall(p, name, DropBrace(text.value));
    return Partial;
  }

  /** `gen_partial_json`: the rest of the input goes into an argument that is cut off again at the needle. */
  method GenPartial(p: Parser, o: Oracle, name: string, setArgument: string -> Args) returns (out: Outcome)
    requires p.Valid()
    modifies p`pos, p`toolCalls
    ensures p.pos == |p.input| && Extends(old(p.toolCalls), p.toolCalls) && Raised(out)
    ensures var args := setArgument(o.truncate(p.input[old(p.pos)..]));
            Stop(p.toolCalls, out) == Further(old(p.toolCalls), CutStop(o, name, args))
  {
    var rest := p.ConsumeRest();
    var text := o.dump(setArgument(o.truncate(rest)));
    if text.None? {
      return DumpFailed;
    }
    var cut := PartialJson(text.value);
    if cut.Some? {
      var _ := AddToolCall(p, name, cut.value);
    }
    return Partial;
  }

  /** `return_error`: back to the start, or the exception that only `try_consume_xml_tool_calls` catches. */
  method ReturnError(p: Parser, start: nat, recovery: bool) returns (out: Outcome)
    requires p.Valid() && start <= |p.input|
    modifies p`pos
    ensures p.Valid() && out == if recovery then Returned(false) else Syntax
    ensures recovery ==> p.pos == start
  {
    var _ := p.ConsumeRest();
    if recovery {
      p.MoveTo(start);
      return Returned(false);
    }
    return Syntax;
  }

  // ---- values ----

  /** Tries to read JSON, or a bare word or number that the input ends with. */
  method ReadJson(p: Parser, form: Form, o: Oracle) returns (value: Option<Json>)
    requires p.Valid() && o.Valid()
    modifies p`pos
    ensures p.Valid() && old(p.pos) <= p.pos
    ensures match JsonFrom(p.input, form, o, old(p.pos))
            case None => value.None? && p.pos == old(p.pos)
            case Some((json, end)) => value == Some(json) && p.pos == end
  {
    value := None;
    if form.rawArgval == Some(true) {
      return;
    }
    var start := p.pos;
    match o.read(p.input, start) {
      case JsonError => p.MoveTo(start);
      case JsonNone =>
      case JsonValue(json, end) =>
        value := Some(json);
        p.MoveTo(end);
    }
    if p.pos == start {
      var _ := p.ConsumeSpaces();
      if o.bare(p.input, p.pos) {
        value := Some(BARE);
        var _ := p.ConsumeRest();
      } else {
        p.MoveTo(start);
      }
    }
  }

  /** The JSON value reaches to the end of the input: it may yet turn out to be text. */
  method WaitForMore(p: Parser, form: Form, o: Oracle, name: string, args: Args, key: string, json: Json) returns (out: Outcome)
    requires p.Valid()
    modifies p`pos, p`toolCalls
    ensures p.Valid() && old(p.pos) <= p.pos && Extends(old(p.toolCalls), p.toolCalls) && Raised(out)
    ensures Stop(p.toolCalls, out) == Further(old(p.toolCalls), WaitStop(form, o, name, args, key, json))
  {
    hide FindLast, Put, PartialJson;
    if form.rawArgval == Some(false) && json.isTextOrNested {
      var text := o.dump(Put(args, key, Parsed(json)));
      if text.None? {
        return DumpFailed;
      }
      var cut: string;
      if json.dumpMarker != "" {
        var at := FindLast(text.value, json.dumpMarker, |text.value|);
        if at.None? {
          return Aborted;
        }
        cut := text.value[..at.value];
      } else {
        if text.value == "" || text.value[|text.value| - 1] != '}' {
          return Aborted;
        }
        cut := text.value[..|text.value| - 1];
      }
      var _ := AddToolCall(p, name, cut);
      return Partial;
    }
    out := GenPartial(p, o, name, _ => Put(args, key, Text(NEEDLE)));
  }

  /** A value that was read as JSON counts as JSON only if its end follows. */
  method CloseJson(p: Parser, form: Form, o: Oracle, name: string, args0: Args, key: string, json: Json, valStart: nat)
    returns (stop: Option<Outcome>, args: Args)
    requires p.Valid() && valStart <= p.pos
    modifies p`pos, p`toolCalls
    ensures p.Valid() && valStart <= p.pos && Extends(old(p.toolCalls), p.toolCalls)
    ensures stop.Some? ==> Raised(stop.value)
    ensures stop.None? ==> p.toolCalls == old(p.toolCalls)
    ensures match ClosingOf(p.input, p.isPartial, form, json, old(p.pos))
            case Waits => StoppedBy(stop, old(p.toolCalls), p.toolCalls, JsonStop(p.input, form, o, name, args0, key, json, old(p.pos)))
            case Counts(end) => stop.None? && p.pos == end && args == Put(args0, key, Parsed(json))
            case IsText => stop.None? && p.pos == valStart && args == args0
  {
    args := args0;
    var jsonEnd := p.pos;
    var _ := p.ConsumeSpaces();
    if p.pos == |p.input| {
      var out := WaitForMore(p, form, o, name, args, key, json);
      return Some(out), args;
    }
    p.MoveTo(jsonEnd);
    var size, tc := TryFindClose(p, form.valEnd, form.lastValEnd, form.toolEnd, form.lastToolEnd);
    if tc.Some? && AllSpace(tc.value.prelude) && json.marker == "" {
      if tc.value.end - tc.value.begin != size {
        var out := GenPartial(p, o, name, _ => Put(args0, key, Text(NEEDLE)));
        return Some(out), args;
      }
      args := Put(args, key, Parsed(json));
    } else {
      p.MoveTo(valStart);
    }
    return None, args;
  }

  /** A value as plain text, up to its closing literal. */
  method ReadText(p: Parser, form: Form, o: Oracle, name: string, args0: Args, key: string)
    returns (stop: Option<Outcome>, args: Args)
    requires p.Valid()
    modifies p`pos, p`toolCalls
    ensures p.Valid() && old(p.pos) <= p.pos && Extends(old(p.toolCalls), p.toolCalls)
    ensures stop.Some? ==> Raised(stop.value)
    ensures stop.None? ==> p.toolCalls == old(p.toolCalls)
    ensures match TextFrom(p.input, p.isPartial, form, old(p.pos))
            case None => StoppedBy(stop, old(p.toolCalls), p.toolCalls, TextStop(p.input, p.isPartial, form, o, name, args0, key, old(p.pos)))
            case Some((text, end)) => stop.None? && p.pos == end && args == Put(args0, key, Text(text))
  {
    args := args0;
    var size, plain := TryFindClose(p, form.valEnd, form.lastValEnd, form.toolEnd, form.lastToolEnd);
    if plain.Some? {
      var text := plain.value.prelude;
      if form.trimRawArgval {
        text := StringStrip(text);
      }
      if plain.value.end - plain.value.begin != size {
        var out := GenPartial(p, o, name, _ => Put(args0, key, Text(text + NEEDLE)));
        return Some(out), args;
      }
      return None, Put(args, key, Text(text));
    }
    var out;
    if form.trimRawArgval {
      out := GenPartial(p, o, name, rest => Put(args0, key, Text(Strip(rest) + NEEDLE)));
    } else {
      out := GenPartial(p, o, name, rest => Put(args0, key, Text(rest + NEEDLE)));
    }
    return Some(out), args;
  }

  /** What stands between a key and its value when the separator has a second part. */
  method SecondSeparator(p: Parser, form: Form, o: Oracle, name: string, args: Args, key: string) returns (stop: Option<Outcome>)
    requires p.Valid()
    modifies p`pos, p`toolCalls
    ensures p.Valid() && old(p.pos) <= p.pos && Extends(old(p.toolCalls), p.toolCalls)
    ensures stop.Some? ==> Raised(stop.value)
    ensures stop.None? ==> p.toolCalls == old(p.toolCalls)
    ensures match SepEnd(p.input, p.isPartial, form, old(p.pos))
            case None => StoppedBy(stop, old(p.toolCalls), p.toolCalls, SepStop(p.input, p.isPartial, form, o, name, args, key, old(p.pos)))
            case Some(end) => stop.None? && p.pos == end
  {
    if form.keyValSep2.None? {
      return None;
    }
    var tc := p.TryFindLiteral(form.keyValSep2.value);
    if tc.Some? {
      if !AllSpace(tc.value.prelude) {
        var _ := p.ConsumeRest();
        return Some(Syntax);
      }
      if tc.value.end - tc.value.begin == |form.keyValSep2.value| {
        return None;
      }
    }
    var out := GenPartial(p, o, name, _ => Put(args, key, Text(NEEDLE)));
    return Some(out);
  }

  /** One value, from behind its key. */
  method ParseValue(p: Parser, form: Form, o: Oracle, name: string, args0: Args, key: string)
    returns (stop: Option<Outcome>, args: Args)
    requires p.Valid() && o.Valid()
    modifies p`pos, p`toolCalls
    ensures p.Valid() && old(p.pos) <= p.pos && Extends(old(p.toolCalls), p.toolCalls)
    ensures stop.Some? ==> Raised(stop.value)
    ensures stop.None? ==> p.toolCalls == old(p.toolCalls)
    ensures match ValueFrom(p.input, p.isPartial, form, o, old(p.pos))
            case None => StoppedBy(stop, old(p.toolCalls), p.toolCalls, ValueStop(p.input, p.isPartial, form, o, name, args0, key, old(p.pos)))
            case Some((val, end)) => stop.None? && p.pos == end && args == Put(args0, key, val)
  {
    args := args0;
    stop := SecondSeparator(p, form, o, name, args, key);
    if stop.Some? {
      return;
    }
    var valStart := p.pos;
    var json := ReadJson(p, form, o);
    if json.Some? {
      stop, args := CloseJson(p, form, o, name, args, key, json.value, valStart);
      if stop.Some? {
        return;
      }
    }
    if valStart == p.pos {
      stop, args := ReadText(p, form, o, name, args, key);
    }
  }

  // ---- calls ----

  /** All key and value pairs of a call; the first complete key makes going back impossible. */
  method ParseArguments(p: Parser, form: Form, o: Oracle, name: string, recovery0: bool)
    returns (stop: Option<Outcome>, args: Args, recovery: bool)
    requires p.Valid() && form.Valid() && o.Valid()
    modifies p`pos, p`toolCalls
    ensures p.Valid() && old(p.pos) <= p.pos && Extends(old(p.toolCalls), p.toolCalls)
    ensures stop.Some? ==> Raised(stop.value)
    ensures stop.None? ==> p.toolCalls == old(p.toolCalls) && recovery == (recovery0 && args == [])
    ensures match ArgsFrom(p.input, p.isPartial, form, o, old(p.pos), [])
            case None => StoppedBy(stop, old(p.toolCalls), p.toolCalls, ArgsStop(p.input, p.isPartial, form, o, name, old(p.pos), []))
            case Some((all, end)) => stop.None? && p.pos == end && args == all
  {
    hide FindLiteral, ValueFrom, ValueStop, OpenStop, CutStop, AllSpace, Further;
    args, recovery := [], recovery0;
    while true
      invariant p.Valid() && old(p.pos) <= p.pos && p.toolCalls == old(p.toolCalls)
      invariant ArgsFrom(p.input, p.isPartial, form, o, p.pos, args) == ArgsFrom(p.input, p.isPartial, form, o, old(p.pos), [])
      invariant ArgsStop(p.input, p.isPartial, form, o, name, p.pos, args) == ArgsStop(p.input, p.isPartial, form, o, name, old(p.pos), [])
      invariant recovery == (recovery0 && args == [])
      decreases |p.input| - p.pos
    {
      FoundAdvances(p.input, p.isPartial, form.keyStart, p.pos);
      var tc := p.TryFindLiteral(form.keyStart);
      if tc.None? {
        return None, args, recovery;
      }
      if !AllSpace(tc.value.prelude) {
        p.MoveTo(tc.value.begin - |tc.value.prelude|);
        return None, args, recovery;
      }
      if tc.value.end - tc.value.begin != |form.keyStart| {
        var out := AddOpenCall(p, o, name, args);
        return Some(out), args, recovery;
      }
      var keyRes := p.TryFindLiteral(form.keyValSep);
      if keyRes.None? {
        var out := GenPartial(p, o, name, rest => Put(args, rest + NEEDLE, Text("")));
        return Some(out), args, recovery;
      }
      var key := keyRes.value.prelude;
      if keyRes.value.end - keyRes.value.begin != |form.keyValSep| {
        var out := GenPartial(p, o, name, _ => Put(args, key + NEEDLE, Text("")));
        return Some(out), args, recovery;
      }
      recovery := false;
      stop, args := ParseValue(p, form, o, name, args, key);
      if stop.Some? {
        return;
      }
    }
  }

  /** The end of a call: a complete one is added, and anything else ends the parse. */
  method CloseCall(p: Parser, form: Form, o: Oracle, name: string, args: Args, start: nat, recovery: bool) returns (stop: Option<Outcome>)
    requires p.Valid() && start <= p.pos
    modifies p`pos, p`toolCalls
    ensures p.Valid() && Extends(old(p.toolCalls), p.toolCalls)
    ensures stop.None? ==> old(p.pos) <= p.pos
    ensures stop.Some? ==> Raised(stop.value)
                           || (stop.value == Returned(false) && recovery && p.pos == start && p.toolCalls == old(p.toolCalls))
    ensures match ClosedCall(p.input, p.isPartial, form, o, name, args, old(p.pos))
            case None => StoppedBy(stop, old(p.toolCalls), p.toolCalls, CloseStop(p.input, p.isPartial, form, o, name, args, old(p.pos), recovery))
            case Some((call, end)) => stop.None? && p.pos == end && p.toolCalls == old(p.toolCalls) + [call]
  {
    var size, tc := TryFindClose(p, form.toolEnd, form.lastToolEnd, form.scopeEnd, None);
    if tc.Some? {
      if !AllSpace(tc.value.prelude) {
        var out := ReturnError(p, start, recovery);
        return Some(out);
      }
      if tc.value.end - tc.value.begin == size {
        var text := o.dump(args);
        if text.None? {
          return Some(DumpFailed);
        }
        var ok := AddToolCall(p, name, text.value);
        return if ok then None else Some(Partial);
      }
    }
    var out := AddOpenCall(p, o, name, args);
    return Some(out);
  }

  /**
   The name of a call. A first call without arguments may make the search run into the next call, and
   is then looked for again from its end; if that is not found after all, a missing result is used.
   */
  method FindName(p: Parser, form: Form) returns (stop: Option<Outcome>, name: Found)
    requires p.Valid() && form.Valid()
    modifies p`pos
    ensures p.Valid() && old(p.pos) <= p.pos
    ensures match NameFrom(p.input, p.isPartial, form, old(p.pos))
            case None => stop == Some(if Missing(p.input, p.isPartial, form, old(p.pos)) then Undefined else Partial)
            case Some(f) => stop.None? && name == f && FoundFrom(p.input, old(p.pos), f)
  {
    hide FirstName, CloseOfCall, RunsOver;
    name := Found("", 0, 0);
    var funcName := SearchName(p, form);
    if funcName.None? {
      return Some(Partial), name;
    }
    if RunsOver(form, funcName.value.prelude) {
      p.MoveTo(funcName.value.begin - |funcName.value.prelude|);
      funcName := SearchClose(p, form);
      if funcName.None? {
        return Some(Undefined), name;
      }
    }
    return None, funcName.value;
  }

  method SearchName(p: Parser, form: Form) returns (funcName: Option<Found>)
    requires p.Valid()
    modifies p`pos
    ensures p.Valid() && old(p.pos) <= p.pos && funcName == FirstName(p.input, p.isPartial, form, old(p.pos))
  {
    hide FindLiteral, CloseOfCall, AllSpace;
    funcName := p.TryFindLiteral(if AllSpace(form.toolSep) then form.keyStart else form.toolSep);
    if funcName.None? {
      funcName := SearchClose(p, form);
    }
  }

  method SearchClose(p: Parser, form: Form) returns (close: Option<Found>)
    requires p.Valid()
    modifies p`pos
    ensures p.Valid() && old(p.pos) <= p.pos && close == CloseOfCall(p.input, p.isPartial, form, old(p.pos))
  {
    hide FindClose;
    var _, tc := TryFindClose(p, form.toolEnd, form.lastToolEnd, form.scopeEnd, None);
    return tc;
  }

  /** One call, from behind `tool_start`. */
  method ParseCall(p: Parser, form: Form, o: Oracle, kimi: bool, start: nat, recovery0: bool) returns (stop: Option<Outcome>)
    requires p.Valid() && form.Valid() && o.Valid() && start <= p.pos
    modifies p`pos, p`toolCalls
    ensures p.Valid() && Extends(old(p.toolCalls), p.toolCalls)
    ensures stop.None? ==> old(p.pos) <= p.pos
    ensures stop.Some? ==>
              || Raised(stop.value)
              || (stop.value == Undefined && form.lastToolEnd.Some?)
              || (stop.value == Returned(false) && recovery0 && p.pos == start && p.toolCalls == old(p.toolCalls))
    ensures stop == Some(Undefined) <==> Missing(p.input, p.isPartial, form, old(p.pos))
    ensures match CallFrom(p.input, p.isPartial, form, o, kimi, old(p.pos))
            case None => StoppedBy(stop, old(p.toolCalls), p.toolCalls, CallStop(p.input, p.isPartial, form, o, kimi, old(p.pos), recovery0))
            case Some((call, end)) => stop.None? && p.pos == end && p.toolCalls == old(p.toolCalls) + [call]
  {
    hide NameFrom, Missing, ArgsFrom, ClosedCall, AllSpace, PlainName, Strip;
    MissingHasNoName(p.input, p.isPartial, form, p.pos);
    var found;
    stop, found := FindName(p, form);
    if stop.Some? {
      if stop.value == Undefined {
        MissingNeedsAlternative(p.input, p.isPartial, form, old(p.pos));
      }
      return;
    }
    p.MoveTo(if AllSpace(form.toolSep) then found.begin else found.end);
    var name := StringStrip(found.prelude);
    name := PlainName(kimi, name);
    var args, recovery;
    stop, args, recovery := ParseArguments(p, form, o, name, recovery0);
    if stop.Some? {
      return;
    }
    stop := CloseCall(p, form, o, name, args, start, recovery);
  }

  /** The scope may have to be inner first. */
  method OpenScope(p: Parser, form: Form) returns (stop: Option<Outcome>)
    requires p.Valid()
    modifies p`pos
    ensures p.Valid() && old(p.pos) <= p.pos
    ensures stop.Some? ==> stop.value == Partial || (stop.value == Returned(false) && p.pos == old(p.pos))
    ensures match OpenFrom(p.input, p.isPartial, form, old(p.pos))
            case None => stop == Some(OpenOut(p.input, p.isPartial, form, old(p.pos)))
            case Some(end) => stop.None? && p.pos == end
  {
    if AllSpace(form.scopeStart) {
      return None;
    }
    var start := p.pos;
    var tc := p.TryFindLiteral(form.scopeStart);
    if tc.None? {
      return Some(Returned(false));
    }
    if !AllSpace(tc.value.prelude) {
      p.MoveTo(start);
      return Some(Returned(false));
    }
    if |form.scopeStart| != tc.value.end - tc.value.begin {
      return Some(Partial);
    }
    return None;
  }

  /** The scope is closed, or the parse fails the way it still can. */
  method CloseScope(p: Parser, form: Form, start: nat, recovery: bool) returns (out: Outcome)
    requires p.Valid() && start <= p.pos
    modifies p`pos
    ensures p.Valid()
    ensures out == Partial || out == Syntax || (out == Returned(true) && old(p.pos) <= p.pos)
            || (out == Returned(false) && recovery && p.pos == start)
    ensures match CloseFrom(p.input, p.isPartial, form, old(p.pos))
            case None => out == CloseOut(p.input, p.isPartial, form, old(p.pos), recovery) != Returned(true)
            case Some(end) => out == Returned(true) && p.pos == end
  {
    var tc := p.TryFindLiteral(form.scopeEnd);
    if tc.Some? {
      if !AllSpace(tc.value.prelude) {
        out := ReturnError(p, start, recovery);
        return;
      }
      return Returned(true);
    }
    if AllSpace(form.scopeEnd) {
      return Returned(true);
    }
    var _ := p.ConsumeSpaces();
    if p.pos == |p.input| {
      return Partial;
    }
    out := ReturnError(p, start, recovery);
  }

  /** `parse_xml_tool_calls`. While it can still go back, nothing has been added. */
  method ParseXmlToolCalls(p: Parser, form: Form, o: Oracle, kimi: bool) returns (out: Outcome)
    requires p.Valid() && form.Valid() && o.Valid()
    modifies p`pos, p`toolCalls
    ensures p.Valid() && Extends(old(p.toolCalls), p.toolCalls)
    ensures out == Returned(false) ==> p.pos == old(p.pos) && p.toolCalls == old(p.toolCalls)
    ensures out == Returned(true) ==> old(p.pos) <= p.pos
    ensures out == Undefined ==> form.lastToolEnd.Some?
    ensures out == Undefined <==> ParseMisses(p.input, p.isPartial, form, o, kimi, old(p.pos))
    ensures match AllFrom(p.input, p.isPartial, form, o, kimi, old(p.pos))
            case None => out != Returned(true)
                         && Stop(p.toolCalls, out) == Further(old(p.toolCalls), AllStop(p.input, p.isPartial, form, o, kimi, old(p.pos)))
            case Some((calls, end)) => out == Returned(true) && p.pos == end && p.toolCalls == old(p.toolCalls) + calls
  {
    hide OpenFrom, CloseFrom, CallsFrom, CallsMiss, CallsStop, OpenOut, CloseOut;
    var start := p.pos;
    var stop := OpenScope(p, form);
    if stop.Some? {
      return stop.value;
    }
    var recovery;
    stop, recovery := ParseCalls(p, form, o, kimi, start);
    if stop.Some? {
      return stop.value;
    }
    out := CloseScope(p, form, start, recovery);
  }

  /** Steps behind the next `tool_start`, or stays where it is if there is none to go on with. */
  method StartCall(p: Parser, form: Form) returns (started: bool)
    requires p.Valid() && form.Valid()
    modifies p`pos
    ensures match NextCall(p.input, p.isPartial, form, old(p.pos))
            case None => !started && p.pos == old(p.pos)
            case Some(start) => started && p.pos == start
  {
    hide FindLiteral, AllSpace;
    var tc := p.TryFindLiteral(form.toolStart);
    if tc.None? {
      return false;
    }
    if !AllSpace(tc.value.prelude) {
      p.MoveTo(tc.value.begin - |tc.value.prelude|);
      return false;
    }
    return true;
  }

  /** The loop over the calls. Once one is complete, going back is impossible. */
  method ParseCalls(p: Parser, form: Form, o: Oracle, kimi: bool, start: nat) returns (stop: Option<Outcome>, recovery: bool)
    requires p.Valid() && form.Valid() && o.Valid() && start <= p.pos
    modifies p`pos, p`toolCalls
    ensures p.Valid() && Extends(old(p.toolCalls), p.toolCalls)
    ensures stop.None? ==> old(p.pos) <= p.pos && (recovery ==> p.toolCalls == old(p.toolCalls))
    ensures stop.Some? ==>
              || Raised(stop.value)
              || (stop.value == Undefined && form.lastToolEnd.Some?)
              || (stop.value == Returned(false) && p.pos == start && p.toolCalls == old(p.toolCalls))
    ensures stop == Some(Undefined) <==> CallsMiss(p.input, p.isPartial, form, o, kimi, old(p.pos))
    ensures match CallsFrom(p.input, p.isPartial, form, o, kimi, old(p.pos))
            case None => StoppedBy(stop, old(p.toolCalls), p.toolCalls, CallsStop(p.input, p.isPartial, form, o, kimi, old(p.pos), true))
            case Some((calls, end)) => stop.None? && p.pos == end && p.toolCalls == old(p.toolCalls) + calls && recovery == (calls == [])
  {
    hide NextCall, CallFrom, CallStop, CallsStop, Missing, CallsFrom, CallsMiss, Before, After, Further;
    recovery := true;
    ghost var done: seq<ToolCall> := [];
    ghost var whole := CallsFrom(p.input, p.isPartial, form, o, kimi, p.pos);
    ghost var misses := CallsMiss(p.input, p.isPartial, form, o, kimi, p.pos);
    ghost var stops := CallsStop(p.input, p.isPartial, form, o, kimi, p.pos, true);
    AfterNothing(whole);
    FurtherNothing(stops);
    while true
      invariant start <= old(p.pos) <= p.pos <= |p.input|
      invariant Extends(old(p.toolCalls), p.toolCalls)
      invariant recovery ==> p.toolCalls == old(p.toolCalls)
      invariant p.toolCalls == old(p.toolCalls) + done
      invariant whole == After(done, CallsFrom(p.input, p.isPartial, form, o, kimi, p.pos))
      invariant misses == CallsMiss(p.input, p.isPartial, form, o, kimi, p.pos)
      invariant stops == Further(done, CallsStop(p.input, p.isPartial, form, o, kimi, p.pos, recovery)) && recovery == (done == [])
      decreases |p.input| - p.pos
    {
      CallsStep(p.input, p.isPartial, form, o, kimi, p.pos, recovery);
      AfterEnd(done, p.pos);
      AfterStop(done);
      var started := StartCall(p, form);
      if !started {
        return None, recovery;
      }
      ghost var before := p.toolCalls;
      stop := ParseCall(p, form, o, kimi, start, recovery);
      if stop.Some? {
        FurtherTwice(old(p.toolCalls), done, before, p.toolCalls, stop.value, stops);
        return;
      }
      recovery := false;
      ghost var call := p.toolCalls[|before|];
      FurtherOne(done, call, CallsStop(p.input, p.isPartial, form, o, kimi, p.pos, false));
      AfterOne(done, call, CallsFrom(p.input, p.isPartial, form, o, kimi, p.pos));
      done := done + [call];
    }
  }

  lemma CallsStep(input: string, isPartial: bool, form: Form, o: Oracle, kimi: bool, pos: nat, recovery: bool)
    requires pos <= |input| && form.Valid() && o.Valid()
    ensures var start := NextCall(input, isPartial, form, pos);
            var rest := if start.None? then None else CallFrom(input, isPartial, form, o, kimi, start.value);
            && CallsFrom(input, isPartial, form, o, kimi, pos)
               == (if start.None? then Some(([], pos)) else if rest.None? then None
                   else Before(rest.value.0, CallsFrom(input, isPartial, form, o, kimi, rest.value.1)))
            && CallsMiss(input, isPartial, form, o, kimi, pos)
               == (if start.None? then false else if rest.None? then Missing(input, isPartial, form, start.value)
                   else CallsMiss(input, isPartial, form, o, kimi, rest.value.1))
            && CallsStop(input, isPartial, form, o, kimi, pos, recovery)
               == (if start.None? then GOES_ON
                   else if rest.None? then CallStop(input, isPartial, form, o, kimi, start.value, recovery)
                   else Further([rest.value.0], CallsStop(input, isPartial, form, o, kimi, rest.value.1, false)))
  {
    hide NextCall, ArgsFrom, ClosedCall, NameFrom, Missing, Before, Further, CallStop;
    var next := NextCall(input, isPartial, form, pos);
    if next.Some? {
      MissingHasNoName(input, isPartial, form, next.value);
    }
  }

  lemma FurtherNothing(stop: Stop)
    ensures Further([], stop) == stop
  {
    assert [] + stop.sent == stop.sent;
  }

  lemma FurtherOne(done: seq<ToolCall>, call: ToolCall, stop: Stop)
    ensures Further(done, Further([call], stop)) == Further(done + [call], stop)
  {
    assert done + ([call] + stop.sent) == done + [call] + stop.sent;
  }

  lemma FurtherTwice(first: seq<ToolCall>, done: seq<ToolCall>, before: seq<ToolCall>, after: seq<ToolCall>, out: Outcome, stops: Stop)
    requires before == first + done
    ensures forall stop: Stop :: stops == Further(done, stop) && Stop(after, out) == Further(before, stop) ==>
              Stop(after, out) == Further(first, stops)
  {
    forall stop: Stop | stops == Further(done, stop) && Stop(after, out) == Further(before, stop)
      ensures Stop(after, out) == Further(first, stops)
    {
      assert first + done + stop.sent == first + (done + stop.sent);
    }
  }

  lemma AfterNothing(rest: Option<(seq<ToolCall>, nat)>)
    ensures After([], rest) == rest
  {
    if rest.Some? {
      assert [] + rest.value.0 == rest.value.0;
    }
  }

  lemma AfterEnd(done: seq<ToolCall>, end: nat)
    ensures After(done, Some(([], end))) == Some((done, end))
  {
    assert done + [] == done;
  }

  lemma AfterStop(done: seq<ToolCall>)
    ensures After(done, None) == None
  {
  }

  lemma AfterOne(done: seq<ToolCall>, call: ToolCall, rest: Option<(seq<ToolCall>, nat)>)
    ensures After(done, Before(call, rest)) == After(done + [call], rest)
  {
    if rest.Some? {
      assert done + ([call] + rest.value.0) == done + [call] + rest.value.0;
    }
  }

  /**
   `try_consume_xml_tool_calls`. A failed attempt is a no-op: whenever it returns false, the position
   and the calls are as before, whether or not the parser could go back by itself. Whatever comes out,
   the calls that were there are still there, unchanged and first.
   */
  method TryConsumeXmlToolCalls(p: Parser, form: Form, o: Oracle, kimi: bool) returns (out: Outcome)
    requires p.Valid() && form.Valid() && o.Valid()
    modifies p`pos, p`toolCalls
    ensures p.Valid() && Extends(old(p.toolCalls), p.toolCalls)
    ensures out == Returned(false) ==> p.pos == old(p.pos) && p.toolCalls == old(p.toolCalls)
    ensures out == Returned(true) ==> old(p.pos) <= p.pos
    ensures out != Syntax && (out == Undefined ==> form.lastToolEnd.Some?)
    ensures out == Undefined <==> ParseMisses(p.input, p.isPartial, form, o, kimi, old(p.pos))
    ensures match AllFrom(p.input, p.isPartial, form, o, kimi, old(p.pos))
            case None =>
              var stop := AllStop(p.input, p.isPartial, form, o, kimi, old(p.pos));
              && out != Returned(true)
              && if stop.out == Syntax then out == Returned(false) else Stop(p.toolCalls, out) == Further(old(p.toolCalls), stop)
            case Some((calls, end)) => out == Returned(true) && p.pos == end && p.toolCalls == old(p.toolCalls) + calls
  {
    hide AllFrom, AllStop, ParseMisses;
    var pos := p.pos;
    var tsize := |p.toolCalls|;
    out := ParseXmlToolCalls(p, form, o, kimi);
    if out == Syntax {
      p.MoveTo(pos);
      p.toolCalls := p.toolCalls[..tsize];
      return Returned(false);
    }
  }
}
