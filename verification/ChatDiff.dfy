/**
 Differences between two states of a message, as sent to a streaming client, and what a client that
 puts them together ends up with.
 */
module ChatDiff {
  import opened CommonStrings
  import opened ChatParser

  datatype Result<+T> = Ok(value: T) | Throws(error: string)

  /** The parts of `common_chat_msg` that are compared. */
  datatype ChatMsg = ChatMsg(content: string, reasoning: string, toolCalls: seq<ToolCall>)

  /** `toolCallIndex` is `None` for the index npos of the source. */
  datatype Diff = Diff(reasoningDelta: string, contentDelta: string, toolCallIndex: Option<nat>, toolCallDelta: ToolCall)

  const NO_CALL := ToolCall("", "", "")
  const NO_DIFF := Diff("", "", None, NO_CALL)
  const EMPTY_MSG := ChatMsg("", "", [])

  function StringDiff(last: string, current: string): Result<string> {
    if last == "" then Ok(current)
    else if !(last <= current) then
      if current <= last then Ok("")
      else Throws("Invalid diff: not found at start")
    else Ok(current[|last|..])
  }

  method ComputeDiffs(prv: ChatMsg, new_: ChatMsg) returns (r: Result<seq<Diff>>)
    ensures r == Diffs(prv, new_)
  {
    var diffs: seq<Diff> := [];
    if prv.reasoning != new_.reasoning {
      var d := StringDiff(prv.reasoning, new_.reasoning);
      if d.Throws? {
        return Throws(d.error);
      }
      diffs := diffs + [NO_DIFF.(reasoningDelta := d.value)];
    }
    if prv.content != new_.content {
      var d := StringDiff(prv.content, new_.content);
      if d.Throws? {
        return Throws(d.error);
      }
      diffs := diffs + [NO_DIFF.(contentDelta := d.value)];
    }
    ghost var reasoning, content := TextDiff(prv.reasoning, new_.reasoning, true), TextDiff(prv.content, new_.content, false);
    assert diffs == reasoning.value + content.value;
    if |new_.toolCalls| < |prv.toolCalls| {
      return Throws("Invalid diff: now finding less tool calls!");
    }
    if prv.toolCalls != [] {
      var idx := |prv.toolCalls| - 1;
      var pref, newf := prv.toolCalls[idx], new_.toolCalls[idx];
      if pref.name != newf.name {
        return Throws("Invalid diff: tool call mismatch!");
      }
      var argsDiff := StringDiff(pref.arguments, newf.arguments);
      if argsDiff.Throws? {
        return Throws(argsDiff.error);
      }
      if argsDiff.value != "" || pref.id != newf.id {
        var delta := NO_CALL;
        if pref.id != newf.id {
          delta := delta.(id := newf.id, name := newf.name);
        }
        delta := delta.(arguments := argsDiff.value);
        diffs := diffs + [NO_DIFF.(toolCallIndex := Some(idx), toolCallDelta := delta)];
      }
    }
    ghost var soFar := diffs;
    assert soFar == reasoning.value + content.value + LastCallDiff(prv.toolCalls, new_.toolCalls).value;
    var idx := |prv.toolCalls|;
    while idx < |new_.toolCalls|
      invariant |prv.toolCalls| <= idx <= |new_.toolCalls|
      invariant diffs + NewCalls(new_.toolCalls, idx) == soFar + NewCalls(new_.toolCalls, |prv.toolCalls|)
    {
      ghost var rest := NewCalls(new_.toolCalls, idx + 1);
      var diff := NO_DIFF.(toolCallIndex := Some(idx), toolCallDelta := new_.toolCalls[idx]);
      assert diffs + ([diff] + rest) == (diffs + [diff]) + rest;
      diffs := diffs + [diff];
      idx := idx + 1;
    }
    assert diffs + [] == diffs;
    return Ok(diffs);
  }

  /** One difference per new call. */
  function NewCalls(calls: seq<ToolCall>, from: nat): seq<Diff>
    decreases |calls| - from
  {
    if from >= |calls| then []
    else [NO_DIFF.(toolCallIndex := Some(from), toolCallDelta := calls[from])] + NewCalls(calls, from + 1)
  }

  /** The difference in one of the two texts. */
  function TextDiff(last: string, current: string, ofReasoning: bool): Result<seq<Diff>> {
    if last == current then Ok([])
    else
      match StringDiff(last, current)
      case Throws(e) => Throws(e)
      case Ok(d) => Ok([if ofReasoning then NO_DIFF.(reasoningDelta := d) else NO_DIFF.(contentDelta := d)])
  }

  /** The difference in the call that was last before. */
  function LastCallDiff(prv: seq<ToolCall>, new_: seq<ToolCall>): Result<seq<Diff>>
    requires |prv| <= |new_|
  {
    if prv == [] then Ok([])
    else
      var idx := |prv| - 1;
      if prv[idx].name != new_[idx].name then Throws("Invalid diff: tool call mismatch!")
      else
        match StringDiff(prv[idx].arguments, new_[idx].arguments)
        case Throws(e) => Throws(e)
        case Ok(d) =>
          if d == "" && prv[idx].id == new_[idx].id then Ok([])
          else
            var delta := if prv[idx].id != new_[idx].id then ToolCall(new_[idx].name, d, new_[idx].id)
                         else ToolCall("", d, "");
            Ok([NO_DIFF.(toolCallIndex := Some(idx), toolCallDelta := delta)])
  }

  function Diffs(prv: ChatMsg, new_: ChatMsg): Result<seq<Diff>> {
    match TextDiff(prv.reasoning, new_.reasoning, true)
    case Throws(e) => Throws(e)
    case Ok(reasoning) =>
      match TextDiff(prv.content, new_.content, false)
      case Throws(e) => Throws(e)
      case Ok(content) =>
        if |new_.toolCalls| < |prv.toolCalls| then Throws("Invalid diff: now finding less tool calls!")
        else
          match LastCallDiff(prv.toolCalls, new_.toolCalls)
          case Throws(e) => Throws(e)
          case Ok(call) => Ok(reasoning + content + call + NewCalls(new_.toolCalls, |prv.toolCalls|))
  }

  // ----- The client

  /** A client applies a tool-call delta: a new index starts a call, a known one is added to. */
  function ApplyCall(calls: seq<ToolCall>, index: nat, delta: ToolCall): seq<ToolCall> {
    if index == |calls| then calls + [delta]
    else if index < |calls| then
      var c := calls[index];
      calls[index := ToolCall(if delta.name != "" then delta.name else c.name,
                              c.arguments + delta.arguments,
                              if delta.id != "" then delta.id else c.id)]
    else calls
  }

  function Apply(m: ChatMsg, d: Diff): ChatMsg {
    ChatMsg(m.content + d.contentDelta,
            m.reasoning + d.reasoningDelta,
            match d.toolCallIndex
            case None => m.toolCalls
            case Some(i) => ApplyCall(m.toolCalls, i, d.toolCallDelta))
  }

  function Fold(m: ChatMsg, ds: seq<Diff>): ChatMsg
    decreases |ds|
  {
    if ds == [] then m else Fold(Apply(m, ds[0]), ds[1..])
  }

  lemma {:induction false} FoldConcat(m: ChatMsg, a: seq<Diff>, b: seq<Diff>)
    ensures Fold(m, a + b) == Fold(Fold(m, a), b)
    decreases |a|
  {
    if a == [] {
      assert a + b == b;
    } else {
      assert (a + b)[0] == a[0] && (a + b)[1..] == a[1..] + b;
      FoldConcat(Apply(m, a[0]), a[1..], b);
    }
  }

  lemma {:induction false} FoldOne(m: ChatMsg, d: Diff)
    ensures Fold(m, [d]) == Apply(m, d)
  {
    assert [d][1..] == [];
    assert Fold(Apply(m, d), []) == Apply(m, d);
  }

  // ----- When differences can be computed, and when they lose nothing

  predicate Comparable(a: string, b: string) {
    a <= b || b <= a
  }

  /** Exactly when `compute_diffs` returns. */
  lemma DiffsThrow(prv: ChatMsg, new_: ChatMsg)
    ensures Diffs(prv, new_).Ok? <==>
              && Comparable(prv.reasoning, new_.reasoning) && Comparable(prv.content, new_.content)
              && |prv.toolCalls| <= |new_.toolCalls|
              && (prv.toolCalls != [] ==>
                   var idx := |prv.toolCalls| - 1;
                   && prv.toolCalls[idx].name == new_.toolCalls[idx].name
                   && Comparable(prv.toolCalls[idx].arguments, new_.toolCalls[idx].arguments))
  {
  }

  /** The last known call grew: same name, more arguments, and an id that is kept, or replaced by one that can be sent. */
  predicate CallGrew(old_: ToolCall, new_: ToolCall) {
    && old_.name == new_.name
    && old_.arguments <= new_.arguments
    && (old_.id == new_.id || new_.id != "")
  }

  /** The message only grew. */
  ghost predicate Grew(prv: ChatMsg, new_: ChatMsg) {
    && prv.reasoning <= new_.reasoning && prv.content <= new_.content
    && |prv.toolCalls| <= |new_.toolCalls|
    && (forall i :: 0 <= i < |prv.toolCalls| - 1 ==> prv.toolCalls[i] == new_.toolCalls[i])
    && (prv.toolCalls != [] ==> CallGrew(prv.toolCalls[|prv.toolCalls| - 1], new_.toolCalls[|prv.toolCalls| - 1]))
  }

  lemma {:induction false} FoldNewCalls(m: ChatMsg, calls: seq<ToolCall>)
    requires |m.toolCalls| <= |calls|
    ensures Fold(m, NewCalls(calls, |m.toolCalls|)) == m.(toolCalls := m.toolCalls + calls[|m.toolCalls|..])
    decreases |calls| - |m.toolCalls|
  {
    var n := |m.toolCalls|;
    if n < |calls| {
      var d := NO_DIFF.(toolCallIndex := Some(n), toolCallDelta := calls[n]);
      assert NewCalls(calls, n) == [d] + NewCalls(calls, n + 1);
      FoldConcat(m, [d], NewCalls(calls, n + 1));
      FoldOne(m, d);
      var m' := Apply(m, d);
      assert m.content + "" == m.content && m.reasoning + "" == m.reasoning;
      assert m' == m.(toolCalls := m.toolCalls + [calls[n]]);
      FoldNewCalls(m', calls);
      assert m.toolCalls + calls[n..] == m'.toolCalls + calls[n + 1..];
    } else {
      assert m.toolCalls + calls[n..] == m.toolCalls;
    }
  }

  lemma {:induction false} FoldText(m: ChatMsg, last: string, current: string, ofReasoning: bool)
    requires last == if ofReasoning then m.reasoning else m.content
    requires TextDiff(last, current, ofReasoning).Ok?
    ensures var kept := if last <= current then current else last;
            Fold(m, TextDiff(last, current, ofReasoning).value)
            == if ofReasoning then m.(reasoning := kept) else m.(content := kept)
  {
    var ds := TextDiff(last, current, ofReasoning).value;
    if ds != [] {
      FoldOne(m, ds[0]);
      assert m.content + "" == m.content && m.reasoning + "" == m.reasoning;
    }
  }

  lemma {:induction false} FoldLastCall(m: ChatMsg, new_: seq<ToolCall>)
    requires |m.toolCalls| <= |new_| && LastCallDiff(m.toolCalls, new_).Ok?
    ensures var m' := Fold(m, LastCallDiff(m.toolCalls, new_).value);
            && m' == m.(toolCalls := m'.toolCalls) && |m'.toolCalls| == |m.toolCalls|
            && (forall i :: 0 <= i < |m.toolCalls| - 1 ==> m'.toolCalls[i] == m.toolCalls[i])
            && (m.toolCalls != [] ==>
                 var idx := |m.toolCalls| - 1;
                 m'.toolCalls[idx] == new_[idx] <==> CallGrew(m.toolCalls[idx], new_[idx]))
  {
    var ds := LastCallDiff(m.toolCalls, new_).value;
    assert m.content + "" == m.content && m.reasoning + "" == m.reasoning;
    if ds != [] {
      FoldOne(m, ds[0]);
    }
    if m.toolCalls != [] {
      var idx := |m.toolCalls| - 1;
      var a, b := m.toolCalls[idx].arguments, new_[idx].arguments;
      assert a + "" == a;
      assert a <= b ==> a + b[|a|..] == b;
    }
  }

  /** What the client holds after the differences, in pieces. */
  lemma {:induction false} FoldDiffs(prv: ChatMsg, new_: ChatMsg)
    requires Diffs(prv, new_).Ok?
    ensures var m := Fold(prv, Diffs(prv, new_).value);
            && m.reasoning == (if prv.reasoning <= new_.reasoning then new_.reasoning else prv.reasoning)
            && m.content == (if prv.content <= new_.content then new_.content else prv.content)
            && |m.toolCalls| == |new_.toolCalls|
            && m.toolCalls[|prv.toolCalls|..] == new_.toolCalls[|prv.toolCalls|..]
            && (forall i :: 0 <= i < |prv.toolCalls| - 1 ==> m.toolCalls[i] == prv.toolCalls[i])
            && (prv.toolCalls != [] ==>
                 var idx := |prv.toolCalls| - 1;
                 m.toolCalls[idx] == new_.toolCalls[idx] <==> CallGrew(prv.toolCalls[idx], new_.toolCalls[idx]))
  {
    hide Fold, TextDiff, LastCallDiff, NewCalls, CallGrew;
    var r := TextDiff(prv.reasoning, new_.reasoning, true).value;
    var c := TextDiff(prv.content, new_.content, false).value;
    var l := LastCallDiff(prv.toolCalls, new_.toolCalls).value;
    var n := NewCalls(new_.toolCalls, |prv.toolCalls|);
    FoldConcat(prv, r + c + l, n);
    FoldConcat(prv, r + c, l);
    FoldConcat(prv, r, c);
    FoldText(prv, prv.reasoning, new_.reasoning, true);
    var m1 := Fold(prv, r);
    FoldText(m1, m1.content, new_.content, false);
    var m2 := Fold(m1, c);
    FoldLastCall(m2, new_.toolCalls);
    FoldNewCalls(Fold(m2, l), new_.toolCalls);
  }

  /** The client holds exactly the new message if and only if the message only grew. */
  lemma {:induction false} FoldExact(prv: ChatMsg, new_: ChatMsg)
    requires Diffs(prv, new_).Ok?
    ensures Fold(prv, Diffs(prv, new_).value) == new_ <==> Grew(prv, new_)
  {
    hide Fold, TextDiff, LastCallDiff, NewCalls, CallGrew, Diffs;
    FoldDiffs(prv, new_);
    var m := Fold(prv, Diffs(prv, new_).value);
    var n := |prv.toolCalls|;
    if Grew(prv, new_) {
      forall i | 0 <= i < |m.toolCalls|
        ensures m.toolCalls[i] == new_.toolCalls[i]
      {
        if i >= n {
          assert m.toolCalls[i] == m.toolCalls[n..][i - n] == new_.toolCalls[n..][i - n];
        }
      }
      assert m.toolCalls == new_.toolCalls;
    } else if m == new_ {
      CallGrewFromDiffs(prv, new_);
    }
  }

  lemma CallGrewFromDiffs(prv: ChatMsg, new_: ChatMsg)
    requires Diffs(prv, new_).Ok?
    ensures |prv.toolCalls| <= |new_.toolCalls|
  {
  }

  lemma {:induction false} GrewComputes(prv: ChatMsg, new_: ChatMsg)
    requires Grew(prv, new_)
    ensures Diffs(prv, new_).Ok? && Fold(prv, Diffs(prv, new_).value) == new_
  {
    DiffsThrow(prv, new_);
    FoldExact(prv, new_);
  }

  /** The text that came, if any did. */
  function MoreText(last: string, current: string, ofReasoning: bool): seq<Diff>
    requires last <= current
  {
    var more := current[|last|..];
    if more == "" then []
    else if ofReasoning then [Diff(more, "", None, ToolCall("", "", ""))] else [Diff("", more, None, ToolCall("", "", ""))]
  }

  /** The calls from `from` on, each whole. */
  function NewWhole(calls: seq<ToolCall>, from: nat): (r: seq<Diff>)
    requires from <= |calls|
    ensures |r| == |calls| - from && forall i :: 0 <= i < |r| ==> r[i] == Diff("", "", Some(from + i), calls[from + i])
  {
    seq(|calls| - from, i requires 0 <= i < |calls| - from => Diff("", "", Some(from + i), calls[from + i]))
  }

  /** What came of a call: its name goes out again only with a new id. */
  function MoreOfCall(index: nat, last: ToolCall, current: ToolCall): seq<Diff>
    requires last.arguments <= current.arguments
  {
    var more := current.arguments[|last.arguments|..];
    if last.id != current.id then [Diff("", "", Some(index), ToolCall(current.name, more, current.id))]
    else if more != "" then [Diff("", "", Some(index), ToolCall("", more, ""))]
    else []
  }

  /** What goes out for a message that only grew: reasoning, content, the last known call, and each new one whole. */
  lemma GrownDiffs(prv: ChatMsg, new_: ChatMsg)
    requires Grew(prv, new_)
    ensures var n := |prv.toolCalls|;
            Diffs(prv, new_) == Ok(
              MoreText(prv.reasoning, new_.reasoning, true) + MoreText(prv.content, new_.content, false)
              + (if n == 0 then [] else MoreOfCall(n - 1, prv.toolCalls[n - 1], new_.toolCalls[n - 1]))
              + NewWhole(new_.toolCalls, n))
  {
    hide TextDiff, LastCallDiff, MoreText, MoreOfCall, NewCalls, NewWhole;
    var n := |prv.toolCalls|;
    NewCallsAre(new_.toolCalls, n);
    GrownText(prv.reasoning, new_.reasoning, true);
    GrownText(prv.content, new_.content, false);
    GrownCall(prv.toolCalls, new_.toolCalls);
  }

  lemma GrownText(last: string, current: string, ofReasoning: bool)
    requires last <= current
    ensures TextDiff(last, current, ofReasoning) == Ok(MoreText(last, current, ofReasoning))
  {
    assert last == "" ==> current[|last|..] == current;
    assert current == last + current[|last|..];
  }

  lemma GrownCall(prv: seq<ToolCall>, new_: seq<ToolCall>)
    requires |prv| <= |new_| && (prv != [] ==> CallGrew(prv[|prv| - 1], new_[|prv| - 1]))
    ensures LastCallDiff(prv, new_)
            == Ok(if prv == [] then [] else MoreOfCall(|prv| - 1, prv[|prv| - 1], new_[|prv| - 1]))
  {
    if prv != [] {
      var a, b := prv[|prv| - 1].arguments, new_[|prv| - 1].arguments;
      assert a == "" ==> b[|a|..] == b;
    }
  }

  lemma {:induction false} NewCallsAre(calls: seq<ToolCall>, from: nat)
    requires from <= |calls|
    ensures NewCalls(calls, from) == NewWhole(calls, from)
    decreases |calls| - from
  {
    if from < |calls| {
      NewCallsAre(calls, from + 1);
    }
  }

  // ----- A whole stream

  /** All differences along a run of messages, or nothing if one of them cannot be computed. */
  function StreamDiffs(from: ChatMsg, ms: seq<ChatMsg>): Result<seq<Diff>>
    decreases |ms|
  {
    if ms == [] then Ok([])
    else
      match Diffs(from, ms[0])
      case Throws(e) => Throws(e)
      case Ok(first) =>
        match StreamDiffs(ms[0], ms[1..])
        case Throws(e) => Throws(e)
        case Ok(rest) => Ok(first + rest)
  }

  ghost predicate OnlyGrew(from: ChatMsg, ms: seq<ChatMsg>)
    decreases |ms|
  {
    ms == [] || (Grew(from, ms[0]) && OnlyGrew(ms[0], ms[1..]))
  }

  /** A message that only grows is streamed without error, and the client ends up with exactly its last state. */
  lemma {:induction false} StreamRecovers(from: ChatMsg, ms: seq<ChatMsg>)
    requires OnlyGrew(from, ms)
    ensures StreamDiffs(from, ms).Ok?
    ensures Fold(from, StreamDiffs(from, ms).value) == if ms == [] then from else ms[|ms| - 1]
    decreases |ms|
  {
    hide Diffs, Grew;
    if ms != [] {
      GrewComputes(from, ms[0]);
      StreamRecovers(ms[0], ms[1..]);
      FoldConcat(from, Diffs(from, ms[0]).value, StreamDiffs(ms[0], ms[1..]).value);
    }
  }

  // ----- Ids of tool calls

  /** What `set_tool_call_ids` does to calls and cache, whatever ids are generated. */
  ghost predicate IdsSet(calls: seq<ToolCall>, cache: seq<string>, calls': seq<ToolCall>, cache': seq<string>) {
    && |calls'| == |calls| && cache <= cache'
    && |cache'| == (if |calls| > |cache| then |calls| else |cache|)
    && (forall i :: 0 <= i < |calls| ==> calls'[i] == calls[i].(id := cache'[i]))
    && (forall i :: |cache| <= i < |calls| && calls[i].id != "" ==> cache'[i] == calls[i].id)
  }

  /**
   `set_tool_call_ids`: every call gets the cached id for its index; an index seen for the first
   time gets the call's own id or, if it has none, a generated one (any string `*` here).
   */
  method SetToolCallIds(calls: seq<ToolCall>, cache: seq<string>) returns (calls': seq<ToolCall>, cache': seq<string>)
    ensures IdsSet(calls, cache, calls', cache')
  {
    calls', cache' := calls, cache;
    for i := 0 to |calls|
      invariant |calls'| == |calls| && cache <= cache'
      invariant |cache'| == if i > |cache| then i else |cache|
      invariant forall k :: 0 <= k < i ==> calls'[k] == calls[k].(id := cache'[k])
      invariant forall k :: i <= k < |calls| ==> calls'[k] == calls[k]
      invariant forall k :: |cache| <= k < i && calls[k].id != "" ==> cache'[k] == calls[k].id
    {
      if |cache'| <= i {
        var id := calls'[i].id;
        if id == "" {
          id := *;
        }
        cache' := cache' + [id];
      }
      calls' := calls'[i := calls'[i].(id := cache'[i])];
    }
  }

  /** The message only grew, as far as ids are not looked at. */
  ghost predicate GrewButIds(prv: ChatMsg, new_: ChatMsg) {
    && prv.reasoning <= new_.reasoning && prv.content <= new_.content
    && |prv.toolCalls| <= |new_.toolCalls|
    && forall i :: 0 <= i < |prv.toolCalls| ==>
         && prv.toolCalls[i].name == new_.toolCalls[i].name
         && if i == |prv.toolCalls| - 1 then prv.toolCalls[i].arguments <= new_.toolCalls[i].arguments
            else prv.toolCalls[i].arguments == new_.toolCalls[i].arguments
  }

  /** With the cache, an index keeps its id for the whole stream, so a growing message still grows. */
  lemma CachedIdsGrow(prv: ChatMsg, new_: ChatMsg, cache: seq<string>, cache': seq<string>)
    requires cache <= cache' && |prv.toolCalls| <= |cache| && |new_.toolCalls| <= |cache'|
    requires forall i :: 0 <= i < |prv.toolCalls| ==> prv.toolCalls[i].id == cache[i]
    requires forall i :: 0 <= i < |new_.toolCalls| ==> new_.toolCalls[i].id == cache'[i]
    requires GrewButIds(prv, new_)
    ensures Grew(prv, new_)
  {
  }
}
