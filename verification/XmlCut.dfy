/**
 Text that is cut off within an argument, chat-parser-xml-toolcall.cpp:447-601: the parser stops, and the
 arguments it has sent by then are a beginning of those it will send when the text goes on. This is for forms
 without alternative ends whose literals do not repeat their first character, as tags do not.
 */
module XmlCut {
  import opened CommonStrings
  import opened ChatParser
  import opened XmlFind
  import opened XmlModel
  import opened XmlStops
  import opened XmlRoundTrip
  import opened XmlStreaming

  /** A literal whose first character is no space and does not come again. */
  predicate TagLike(s: string) {
    s != "" && !IsSpace(s[0]) && forall i :: 0 < i < |s| ==> s[i] != s[0]
  }

  /** The forms with markup: MiniMax-M2, Qwen3-Coder, Seed-OSS and GLM-4.5. */
  predicate Streamable(form: Form) {
    && ReadableForm(form) && form.lastValEnd.None? && form.lastToolEnd.None? && form.rawArgval != Some(false)
    && TagLike(form.toolStart) && TagLike(form.keyStart) && TagLike(form.keyValSep) && TagLike(form.valEnd) && TagLike(form.toolEnd)
    && (form.keyValSep2.Some? ==> TagLike(form.keyValSep2.value))
    && (AllSpace(form.scopeStart) || TagLike(form.scopeStart))
    && if AllSpace(form.toolSep) then form.keyStart[0] !in form.toolEnd[1..] else TagLike(form.toolSep)
  }

  /** The oracle writes objects so, and truncating only shortens. */
  ghost predicate Streams(o: Oracle, w: Writer) {
    o.Valid() && w.Valid() && Writes(o, w) && forall s :: o.truncate(s) <= s
  }

  // ---- finding literals in a text that is cut off ----

  /** A beginning of two texts: within the first one, or reaching into the second. */
  lemma PrefixSplit(rest: string, a: string, b: string)
    requires rest <= a + b
    ensures |rest| <= |a| ==> rest <= a
    ensures |rest| >= |a| ==> a <= rest && rest == a + rest[|a|..] && rest[|a|..] <= b
  {
    assert rest == (a + b)[..|rest|];
    if |rest| >= |a| {
      assert rest[|a|..] == b[..|rest| - |a|];
    } else {
      assert rest == a[..|rest|];
    }
  }

  /** The literal is not there yet. */
  lemma {:induction false} NotThereYet(rest: string, text: string, literal: string)
    requires rest <= text + literal && |rest| < |text + literal| && EndsFirst(text, literal)
    ensures FindFrom(rest, literal, 0).None?
  {
    var r := FindFrom(rest, literal, 0);
    if r.Some? {
      var i, whole := r.value, text + literal;
      assert OccursAt(rest, literal, i) && rest[i..i + |literal|] == literal;
      assert whole[i..i + |literal|] == rest[i..i + |literal|];
      assert OccursAt(whole, literal, i);
    }
  }

  /** What occurs in the input from there on occurs in its rest. */
  lemma {:induction false} OccursInRest(input: string, pos: nat, rest: string, literal: string)
    requires At(input, pos, rest)
    ensures FindFrom(input, literal, pos).Some? ==> FindFrom(rest, literal, 0).Some?
  {
    var r := FindFrom(input, literal, pos);
    if r.Some? {
      SameOccurrence(input, pos, rest, literal, r.value - pos);
      assert OccursAt(rest, literal, r.value - pos);
    }
  }

  /** If anything is found, it is a part of the literal at the end of the input. */
  lemma {:induction false} FindsPart(input: string, pos: nat, rest: string, literal: string)
    requires At(input, pos, rest) && FindFrom(rest, literal, 0).None? && literal != ""
    ensures match FindLiteral(input, true, literal, pos)
            case None => true
            case Some(f) => && f.end == |input| && f.end - f.begin < |literal| && f.begin < |input| && input[f.begin] == literal[0]
                            && f.prelude <= rest && f.begin == pos + |f.prelude|
  {
    OccursInRest(input, pos, rest, literal);
    FoundStands(input, true, literal, pos);
    var f := FindLiteral(input, true, literal, pos);
    if f.Some? {
      var b := f.value.begin;
      assert BeginsStop(input, literal, b) && input[b..] <= literal;
      BeginsWhole(input, literal, b);
      assert f.value.prelude == rest[..b - pos];
    }
  }

  lemma PartHasFirst(input: string, pos: nat, rest: string, literal: string)
    requires At(input, pos, rest) && literal != ""
    ensures FindLiteral(input, true, literal, pos).Some? ==> literal[0] in rest
  {
    FoundStands(input, true, literal, pos);
    var f := FindLiteral(input, true, literal, pos);
    assert f.Some? ==> input[f.value.begin] == rest[f.value.begin - pos];
  }

  /** Nothing is, where the first character of the literal does not occur. */
  lemma FindsNoPart(input: string, pos: nat, rest: string, literal: string)
    requires At(input, pos, rest) && literal != "" && literal[0] !in rest
    ensures FindLiteral(input, true, literal, pos).None?
  {
    PartHasFirst(input, pos, rest, literal);
  }

  /** A literal that has begun is found where it begins. */
  lemma FindsBegun(input: string, pos: nat, text: string, literal: string, rest: string)
    requires At(input, pos, rest) && rest <= text + literal && |text| < |rest| < |text + literal|
    requires TagLike(literal) && EndsFirst(text, literal)
    ensures FindLiteral(input, true, literal, pos) == Some(Found(text, pos + |text|, |input|))
    ensures |input| - (pos + |text|) < |literal|
  {
    hide EndsFirst, TagLike;
    NotThereYet(rest, text, literal);
    OccursInRest(input, pos, rest, literal);
    PrefixSplit(rest, text, literal);
    var b := pos + |text|;
    assert input[pos..] == rest && input[pos..b] == text && input[b..] == rest[|text|..];
    assert BeginsStop(input, literal, b);
    var i := PartialStop(input, literal).value;
    assert input[b] == input[b..][0] == rest[|text|..][0] == literal[0];
    if i < b {
      FirstAgain(input, literal, i, b);
    }
  }

  lemma FirstAgain(input: string, literal: string, i: nat, b: nat)
    requires i < b < |input| && literal != "" && input[i..] <= literal && input[b] == literal[0]
    ensures !TagLike(literal)
  {
    assert literal[b - i] == input[i..][b - i];
  }

  lemma SpaceLacks(rest: string, literal: string)
    requires AllSpace(rest) && literal != "" && !IsSpace(literal[0])
    ensures literal[0] !in rest
  {
  }

  lemma PrefixOfSpace(rest: string, gap: string)
    requires AllSpace(gap) && rest <= gap
    ensures AllSpace(rest)
  {
    assert forall i :: 0 <= i < |rest| ==> rest[i] == gap[i];
  }

  lemma TagEndsGap(gap: string, literal: string)
    requires AllSpace(gap) && TagLike(literal)
    ensures EndsFirst(gap, literal)
  {
    GapEndsFirst(gap, literal);
  }

  // ---- values ----

  /** As long as JSON is cut off it is taken for JSON: all that follows it is white space, or the whole of it is there. */
  predicate HeldAt(form: Form, o: Oracle, input: string, pos: nat, raw: string)
    requires pos <= |input|
  {
    match o.read(input, pos)
    case JsonValue(json, end) =>
      && pos < end <= |input|
      && (|| AllSpace(input[end..])
          || (json.marker == "" && end <= pos + |raw| < |input| && AllSpace(input[end..pos + |raw|])))
    case _ => o.bare(input, SkipSpaces(input, pos))
  }

  ghost predicate HeldWhileCut(form: Form, o: Oracle, it: Item) {
    it.json.Some? ==>
      && form.rawArgval != Some(true)
      && forall input: string, pos: nat :: pos <= |input| && input[pos..] < it.raw + form.valEnd ==> HeldAt(form, o, input, pos, it.raw)
  }

  /** What is known of a text value: a beginning of what will be sent, or nothing. */
  predicate PartOf(form: Form, it: Item, part: string) {
    part == "" || (it.json.None? && part <= if form.trimRawArgval then Strip(it.raw) else it.raw)
  }

  /** Cut off in a value, or in what closes it. */
  lemma CutInValue(input: string, form: Form, o: Oracle, name: string, args: Args, key: string, it: Item, pos: nat, rest: string)
    returns (part: string)
    requires Streamable(form) && o.Valid() && (forall s :: o.truncate(s) <= s) && HeldWhileCut(form, o, it)
    requires EndsFirst(it.raw, form.valEnd) && At(input, pos, rest) && rest < it.raw + form.valEnd
    ensures PartOf(form, it, part)
    ensures EitherFrom(input, true, form, o, pos).None?
    ensures EitherStop(input, true, form, o, name, args, key, pos) == CutStop(o, name, Put(args, key, Text(part + NEEDLE)))
  {
    hide ReadableForm, FindLiteral, AllSpace, CutStop, Put, Strip, TagLike, EndsFirst, SkipSpaces;
    var j := JsonFrom(input, form, o, pos);
    NotThereYet(rest, it.raw, form.valEnd);
    ValEndPart(input, form, pos, rest);
    assert TextFrom(input, true, form, pos).None?;
    if j.Some? && ClosingOf(input, true, form, j.value.0, j.value.1).Waits? {
      part := "";
      assert "" + NEEDLE == NEEDLE;
    } else {
      if j.Some? {
        NeverCounts(input, form, o, pos, rest);
      }
      NotHeld(input, form, o, it, pos, rest);
      part := TextPart(input, form, o, it, pos, rest);
    }
  }

  /** Closing a value finds at most a part. */
  lemma {:induction false} ValEndPart(input: string, form: Form, pos: nat, rest: string)
    requires Streamable(form) && At(input, pos, rest) && FindFrom(rest, form.valEnd, 0).None?
    ensures var (size, close) := FindClose(input, true, form.valEnd, form.lastValEnd, form.toolEnd, form.lastToolEnd, pos);
            && close == FindLiteral(input, true, form.valEnd, pos) && size == |form.valEnd|
            && (close.Some? ==> close.value.end - close.value.begin < size)
  {
    hide ReadableForm, FindLiteral, TagLike, AllSpace;
    NotBlank(form.valEnd, form);
    FindsPart(input, pos, rest, form.valEnd);
  }

  lemma NotBlank(s: string, form: Form)
    requires Streamable(form)
    ensures form.valEnd != "" && form.toolEnd != "" && form.keyStart != "" && form.keyValSep != "" && form.toolStart != ""
    ensures form.keyValSep2.Some? ==> form.keyValSep2.value != ""
  {
  }

  lemma {:induction false} NeverCounts(input: string, form: Form, o: Oracle, pos: nat, rest: string)
    requires Streamable(form) && o.Valid() && At(input, pos, rest) && FindFrom(rest, form.valEnd, 0).None?
    requires JsonFrom(input, form, o, pos).Some?
    ensures !ClosingOf(input, true, form, JsonFrom(input, form, o, pos).value.0, JsonFrom(input, form, o, pos).value.1).Counts?
  {
    hide ReadableForm, FindLiteral, TagLike, AllSpace, SkipSpaces, JsonFrom, FindClose;
    var end := JsonFrom(input, form, o, pos).value.1;
    assert input[end..] == rest[end - pos..];
    NoneInTail(rest, form.valEnd, end - pos);
    ValEndPart(input, form, end, rest[end - pos..]);
  }

  lemma {:induction false} NoneInTail(rest: string, literal: string, n: nat)
    requires n <= |rest| && FindFrom(rest, literal, 0).None?
    ensures FindFrom(rest[n..], literal, 0).None?
  {
    var r := FindFrom(rest[n..], literal, 0);
    if r.Some? {
      var i := r.value;
      assert OccursAt(rest[n..], literal, i) && rest[n..][i..i + |literal|] == rest[n + i..n + i + |literal|];
      assert OccursAt(rest, literal, n + i);
    }
  }

  /** A value that is to be JSON waits. */
  lemma NotHeld(input: string, form: Form, o: Oracle, it: Item, pos: nat, rest: string)
    requires Streamable(form) && o.Valid() && HeldWhileCut(form, o, it)
    requires At(input, pos, rest) && rest < it.raw + form.valEnd
    ensures it.json.Some? ==>
              var j := JsonFrom(input, form, o, pos);
              j.Some? && ClosingOf(input, true, form, j.value.0, j.value.1).Waits?
  {
    hide ReadableForm, FindLiteral, TagLike, FindClose;
    if it.json.Some? {
      assert HeldAt(form, o, input, pos, it.raw);
      match o.read(input, pos)
      case JsonValue(json, end) =>
        if AllSpace(input[end..]) {
          AllSkipped(input, end);
        } else {
          BehindJson(input, form, it.raw, json, pos, end, rest);
        }
      case _ =>
        AllSkipped(input, |input|);
    }
  }

  lemma {:induction false} AllSkipped(input: string, pos: nat)
    requires pos <= |input| && AllSpace(input[pos..])
    ensures SkipSpaces(input, pos) == |input|
    decreases |input| - pos
  {
    if pos < |input| {
      assert input[pos] == input[pos..][0];
      assert input[pos + 1..] == input[pos..][1..];
      AllSkipped(input, pos + 1);
    }
  }

  lemma BehindJson(input: string, form: Form, raw: string, json: Json, pos: nat, end: nat, rest: string)
    requires Streamable(form) && At(input, pos, rest) && rest < raw + form.valEnd && json.marker == ""
    requires pos < end <= pos + |raw| < |input| && AllSpace(input[end..pos + |raw|])
    ensures ClosingOf(input, true, form, json, end).Waits?
  {
    hide ReadableForm, FindLiteral, SkipSpaces, TagLike, AllSpace, EndsFirst;
    var n := end - pos;
    PrefixSplit(rest, raw, form.valEnd);
    assert rest[n..] == raw[n..] + rest[|raw|..];
    assert input[end..] == rest[n..] && input[end..pos + |raw|] == raw[n..];
    TagEndsGap(raw[n..], form.valEnd);
    assert rest[n..] <= raw[n..] + form.valEnd;
    FindsBegun(input, end, raw[n..], form.valEnd, rest[n..]);
  }

  lemma TextPart(input: string, form: Form, o: Oracle, it: Item, pos: nat, rest: string) returns (part: string)
    requires Streamable(form) && (forall s :: o.truncate(s) <= s) && it.json.None?
    requires EndsFirst(it.raw, form.valEnd) && At(input, pos, rest) && rest < it.raw + form.valEnd
    ensures PartOf(form, it, part)
    ensures forall name: string, args: Args, key: string ::
              TextStop(input, true, form, o, name, args, key, pos) == CutStop(o, name, Put(args, key, Text(part + NEEDLE)))
  {
    hide ReadableForm, FindLiteral, AllSpace, CutStop, Put, Strip, TagLike, EndsFirst;
    NotThereYet(rest, it.raw, form.valEnd);
    ValEndPart(input, form, pos, rest);
    NotBlank(form.valEnd, form);
    FindsPart(input, pos, rest, form.valEnd);
    PrefixSplit(rest, it.raw, form.valEnd);
    if |rest| > |it.raw| {
      FindsBegun(input, pos, it.raw, form.valEnd, rest);
    }
    var close := FindLiteral(input, true, form.valEnd, pos);
    var raw := if close.Some? then close.value.prelude else o.truncate(input[pos..]);
    assert raw <= it.raw;
    StripMonotone(raw, it.raw);
    part := if form.trimRawArgval then Strip(raw) else raw;
  }

  // ---- what has been sent ----

  /** One call went out, with the name and a beginning of the arguments, and more is waited for. */
  predicate Begun(stop: Stop, name: string, whole: string) {
    && stop.out == Partial && |stop.sent| == 1
    && stop.sent[0] == ToolCall(name, stop.sent[0].arguments, "") && stop.sent[0].arguments <= whole
  }

  /** A key that does not look cut off. */
  predicate NoNeedle(key: string) {
    |key| < |NEEDLE| || key[|key| - |NEEDLE|..] != NEEDLE
  }

  ghost predicate NewIn(key: string, args: Args) {
    NoNeedle(key) && forall i :: 0 <= i < |args| ==> args[i].0 != key && NoNeedle(args[i].0)
  }

  lemma {:induction false} BegunInValue(o: Oracle, w: Writer, form: Form, name: string, args: Args, it: Item, part: string, later: Args)
    requires Streams(o, w) && name != "" && NewIn(it.key, args) && PartOf(form, it, part)
    ensures Begun(CutStop(o, name, Put(args, it.key, Text(part + NEEDLE))), name, ObjectText(w, args + ([(it.key, ValueOf(form, it))] + later)))
  {
    hide Known, ObjectText, UpToValue, CutCall, Put;
    if part == "" {
      assert part + NEEDLE == NEEDLE;
      CutBeforeValue(o, w, name, args, it.key, ValueOf(form, it), later);
    } else {
      CutValue(o, w, name, args, it.key, part);
      var text := ValueOf(form, it).text;
      assert part + text[|part|..] == text;
    }
  }

  lemma {:induction false} BegunInKey(o: Oracle, w: Writer, name: string, args: Args, key: string, part: string, v: Val, later: Args)
    requires Streams(o, w) && name != "" && NewIn(key, args) && part <= key
    ensures Begun(CutStop(o, name, Put(args, part + NEEDLE, Text(""))), name, ObjectText(w, args + ([(key, v)] + later)))
  {
    hide ObjectText, UpToKey, CutCall, Put, Escaped;
    assert (part + NEEDLE)[|part + NEEDLE| - |NEEDLE|..] == NEEDLE;
    CutKey(o, w, name, args, part, key[|part|..], v, later);
    assert part + key[|part|..] == key;
  }

  lemma {:induction false} BegunBetween(o: Oracle, w: Writer, name: string, args: Args, later: Args)
    requires Streams(o, w) && name != ""
    ensures Begun(OpenStop(o, name, args), name, ObjectText(w, args + later))
  {
    hide ObjectText, DropBrace;
    CutBetween(w, args, DropBrace(ObjectText(w, args)));
  }

  // ---- keys and separators ----

  /** Cut off in a key, or in what ends it. */
  lemma {:induction false} CutInKey(input: string, form: Form, o: Oracle, pos: nat, key: string, rest: string) returns (part: string)
    requires Streamable(form) && (forall s :: o.truncate(s) <= s) && EndsFirst(key, form.keyValSep)
    requires At(input, pos, rest) && rest <= key + form.keyValSep && |rest| < |key + form.keyValSep|
    ensures part <= key && KeyFrom(input, true, form, pos).None?
    ensures forall name: string, args: Args ::
              KeyStop(input, true, form, o, name, args, pos) == CutStop(o, name, Put(args, part + NEEDLE, Text("")))
  {
    hide ReadableForm, FindLiteral, AllSpace, CutStop, Put, TagLike, EndsFirst;
    NotThereYet(rest, key, form.keyValSep);
    NotBlank(form.valEnd, form);
    FindsPart(input, pos, rest, form.keyValSep);
    PrefixSplit(rest, key, form.keyValSep);
    if |rest| > |key| {
      FindsBegun(input, pos, key, form.keyValSep, rest);
    }
    var f := FindLiteral(input, true, form.keyValSep, pos);
    part := if f.Some? then f.value.prelude else o.truncate(input[pos..]);
  }

  /** Cut off before the value, in the second part of the separator. */
  lemma {:induction false} CutInSep(input: string, form: Form, o: Oracle, name: string, args: Args, key: string, pos: nat, gap: string, rest: string)
    requires Streamable(form) && AllSpace(gap)
    requires At(input, pos, rest) && rest <= SecondSep(form, gap) && |rest| < |SecondSep(form, gap)|
    ensures SepEnd(input, true, form, pos).None?
    ensures SepStop(input, true, form, o, name, args, key, pos) == CutStop(o, name, Put(args, key, Text("" + NEEDLE)))
  {
    hide ReadableForm, FindLiteral, AllSpace, CutStop, Put, TagLike, EndsFirst;
    var sep := form.keyValSep2.value;
    assert "" + NEEDLE == NEEDLE;
    NotBlank(form.valEnd, form);
    FindsInGap(input, pos, gap, sep, rest);
  }

  /** Behind white space, a literal that is cut off is found where it begins, or not at all. */
  lemma {:induction false} FindsInGap(input: string, pos: nat, gap: string, literal: string, rest: string)
    requires TagLike(literal) && AllSpace(gap) && At(input, pos, rest) && rest <= gap + literal && |rest| < |gap + literal|
    ensures match FindLiteral(input, true, literal, pos)
            case None => |rest| <= |gap|
            case Some(f) => f == Found(gap, pos + |gap|, |input|) && f.end - f.begin < |literal|
  {
    hide FindLiteral, AllSpace;
    PrefixSplit(rest, gap, literal);
    if |rest| <= |gap| {
      PrefixOfSpace(rest, gap);
      SpaceLacks(rest, literal);
      FindsNoPart(input, pos, rest, literal);
    } else {
      TagEndsGap(gap, literal);
      FindsBegun(input, pos, gap, literal, rest);
    }
  }

  // ---- one pair, and what follows the last ----

  /** From within a call: how the rest of it stops. */
  function RestStop(input: string, form: Form, o: Oracle, name: string, pos: nat, args: Args, recovery: bool): Stop
    requires pos <= |input| && form.Valid() && o.Valid()
  {
    match ArgsFrom(input, true, form, o, pos, args)
    case None => ArgsStop(input, true, form, o, name, pos, args)
    case Some((all, end)) => CloseStop(input, true, form, o, name, all, end, recovery && all == [])
  }

  /** And that it does. */
  predicate RestStops(input: string, form: Form, o: Oracle, name: string, pos: nat, args: Args)
    requires pos <= |input| && form.Valid() && o.Valid()
  {
    match ArgsFrom(input, true, form, o, pos, args)
    case None => true
    case Some((all, end)) => ClosedCall(input, true, form, o, name, all, end).None?
  }

  lemma {:induction false} SameRest(input: string, form: Form, o: Oracle, name: string, pos: nat, args: Args, it: Item, next: nat, recovery: bool)
    requires pos <= next <= |input| && form.Valid() && o.Valid() && PairRead(input, true, form, o, pos, it, next)
    ensures var args' := Put(args, it.key, ValueOf(form, it));
            && RestStop(input, form, o, name, pos, args, recovery) == RestStop(input, form, o, name, next, args', recovery)
            && RestStops(input, form, o, name, pos, args) == RestStops(input, form, o, name, next, args')
  {
    hide FindLiteral, AllSpace, KeyFrom, ValueFrom, CloseStop, ClosedCall, KeyStop, ValueStop, OpenStop, Put;
    OneMoreArg(input, true, form, o, pos, args, it, next);
    assert ArgsStop(input, true, form, o, name, pos, args) == ArgsStop(input, true, form, o, name, next, Put(args, it.key, ValueOf(form, it)));
  }

  /** Where the next key begins in part, or nothing but white space is left, what was read so far is sent. */
  lemma {:induction false} CutBeforeKey(input: string, form: Form, o: Oracle, name: string, pos: nat, args: Args, gap: string, rest: string, recovery: bool)
    requires Streamable(form) && form.Valid() && o.Valid() && AllSpace(gap)
    requires At(input, pos, rest) && rest <= gap + form.keyStart && |rest| < |gap + form.keyStart|
    ensures RestStop(input, form, o, name, pos, args, recovery) == OpenStop(o, name, args) && RestStops(input, form, o, name, pos, args)
  {
    hide ReadableForm, FindLiteral, AllSpace, OpenStop, TagLike, KeyFrom, ValueFrom;
    FindsInGap(input, pos, gap, form.keyStart, rest);
    if |rest| <= |gap| {
      PrefixSplit(rest, gap, form.keyStart);
      FindsInGap(input, pos, gap, form.toolEnd, PrefixOfBoth(rest, gap, form.toolEnd));
    }
  }

  /** A beginning of the first of two texts is one of both. */
  function PrefixOfBoth(rest: string, a: string, b: string): (r: string)
    requires rest <= a
    ensures r == rest && r <= a + b
  {
    assert (a + b)[..|rest|] == a[..|rest|];
    rest
  }

  /** So is it where the end of the call has begun. */
  lemma {:induction false} CutInEnd(input: string, form: Form, o: Oracle, name: string, pos: nat, args: Args, gap: string, rest: string, recovery: bool)
    requires Streamable(form) && form.Valid() && o.Valid() && AllSpace(gap)
    requires At(input, pos, rest) && rest <= gap + form.toolEnd && |rest| < |gap + form.toolEnd|
    ensures RestStop(input, form, o, name, pos, args, recovery) == OpenStop(o, name, args) && RestStops(input, form, o, name, pos, args)
  {
    hide ReadableForm, FindLiteral, AllSpace, OpenStop, TagLike, KeyFrom, ValueFrom;
    FindsInGap(input, pos, gap, form.toolEnd, rest);
    NoWholeKey(input, form, pos, gap, rest);
  }

  /** The key that may seem to begin there is not all there. */
  lemma {:induction false} NoWholeKey(input: string, form: Form, pos: nat, gap: string, rest: string)
    requires Streamable(form) && AllSpace(gap)
    requires At(input, pos, rest) && rest <= gap + form.toolEnd && |rest| < |gap + form.toolEnd|
    ensures match FindLiteral(input, true, form.keyStart, pos)
            case None => true
            case Some(f) => !AllSpace(f.prelude) || f.end - f.begin < |form.keyStart|
  {
    hide FindLiteral, TagLike;
    var r := FindLiteral(input, true, form.keyStart, pos);
    PrefixSplit(rest, gap, form.toolEnd);
    NotBlank(form.valEnd, form);
    FoundStands(input, true, form.keyStart, pos);
    if r.Some? {
      var b := r.value.begin;
      assert input[b] == rest[b - pos] && r.value.prelude == rest[..b - pos];
      if AllSpace(r.value.prelude) {
        WhereSpaceEnds(gap, form.toolEnd, rest, b - pos, form);
        assert input[b..] == rest[|gap|..] <= form.toolEnd;
        WholeNotThere(input, form, b, rest[|gap|..]);
        FoundSize(input, form.keyStart, pos);
      }
    }
  }

  lemma WhereSpaceEnds(gap: string, end: string, rest: string, i: nat, form: Form)
    requires Streamable(form) && end == form.toolEnd && AllSpace(gap) && rest <= gap + end && i < |rest|
    requires AllSpace(rest[..i]) && rest[i] == form.keyStart[0]
    ensures i == |gap|
  {
    assert TagLike(form.toolEnd) && TagLike(form.keyStart);
    assert forall k :: 0 <= k < |rest| ==> rest[k] == (gap + end)[k];
    assert forall k :: 0 <= k < i ==> rest[k] == rest[..i][k] && IsSpace(rest[k]);
    assert forall k :: 0 <= k < |rest| && k < |gap| ==> IsSpace(rest[k]);
    assert |gap| < |rest| ==> !IsSpace(rest[|gap|]);
  }

  lemma WholeNotThere(input: string, form: Form, b: nat, part: string)
    requires Streamable(form) && b <= |input| && input[b..] == part && part <= form.toolEnd
    ensures !OccursAt(input, form.keyStart, b)
  {
    assert Apart(form.keyStart, form.toolEnd);
    OccursBegins(input, form.keyStart, b, part, form.toolEnd);
  }

  lemma OccursBegins(input: string, literal: string, b: nat, part: string, end: string)
    requires b <= |input| && input[b..] == part && part <= end
    ensures OccursAt(input, literal, b) ==> literal <= end
  {
    if OccursAt(input, literal, b) {
      var n := |literal|;
      assert input[b..b + n] == input[b..][..n] == part[..n] == end[..n];
    }
  }

  lemma BeginsWhole(input: string, literal: string, b: nat)
    requires b <= |input| && input[b..] <= literal
    ensures |input| - b == |literal| ==> OccursAt(input, literal, b)
  {
    if |input| - b == |literal| {
      assert input[b..b + |literal|] == input[b..] == literal;
    }
  }

  lemma FoundSize(input: string, literal: string, pos: nat)
    requires pos <= |input|
    ensures var f := FindLiteral(input, true, literal, pos);
            f.Some? && !OccursAt(input, literal, f.value.begin) ==> f.value.end - f.value.begin < |literal|
  {
    var f := FindLiteral(input, true, literal, pos);
    if f.Some? && !OccursAt(input, literal, f.value.begin) {
      var b := f.value.begin;
      assert BeginsStop(input, literal, b) && input[b..] <= literal;
      BeginsWhole(input, literal, b);
    }
  }
}
