/**
 What the server keeps for a request while its output is parsed again and again: the message it has
 shown and the ids it has given to tool calls. A message that parses to nothing is passed over.
 */
module ChatServer {
  import opened ChatParser
  import opened ChatDiff

  /** `generated_tool_call_ids` and `chat_msg`. */
  datatype State = State(ids: seq<string>, held: ChatMsg)

  const START := State([], EMPTY_MSG)

  /** One result: from the message parsed to the new state and the differences that are sent. */
  ghost predicate Step(s: State, parsed: ChatMsg, s': State, sent: Result<seq<Diff>>) {
    if parsed == EMPTY_MSG then s' == s && sent == Ok([])
    else
      && IdsSet(parsed.toolCalls, s.ids, s'.held.toolCalls, s'.ids)
      && s'.held == parsed.(toolCalls := s'.held.toolCalls)
      && sent == Diffs(s.held, s'.held)
  }

  /** `task_result_state`; the parser, with its syntax, is any function. */
  class TaskState {
    const parse: (string, bool) -> ChatMsg
    var generatedText: string
    var chatMsg: ChatMsg
    var generatedToolCallIds: seq<string>

    ghost function Abstract(): State
      reads this
    {
      State(generatedToolCallIds, chatMsg)
    }

    constructor (parse: (string, bool) -> ChatMsg)
      ensures Abstract() == START && generatedText == "" && this.parse == parse
    {
      this.parse := parse;
      generatedText, chatMsg, generatedToolCallIds := "", EMPTY_MSG, [];
    }

    method UpdateChatMsg(textAdded: string, isPartial: bool) returns (diffs: Result<seq<Diff>>)
      modifies this
      ensures generatedText == old(generatedText) + textAdded
      ensures Step(old(Abstract()), parse(generatedText, isPartial), Abstract(), diffs)
    {
      generatedText := generatedText + textAdded;
      var prvCopy := chatMsg;
      var newMsg := parse(generatedText, isPartial);
      diffs := Ok([]);
      if newMsg != EMPTY_MSG {
        var calls, ids := SetToolCallIds(newMsg.toolCalls, generatedToolCallIds);
        newMsg := newMsg.(toolCalls := calls);
        generatedToolCallIds := ids;
        chatMsg := newMsg;
        diffs := ComputeDiffs(prvCopy, newMsg);
      }
    }
  }

  // ----- Whole runs

  /** The states a run goes through, and what is sent at each step. */
  ghost predicate Run(states: seq<State>, parsed: seq<ChatMsg>, sent: seq<Result<seq<Diff>>>) {
    && |states| == |parsed| + 1 && |sent| == |parsed|
    && forall i :: 0 <= i < |parsed| ==> Step(states[i], parsed[i], states[i + 1], sent[i])
  }

  ghost predicate RunFrom(s: State, states: seq<State>, parsed: seq<ChatMsg>, sent: seq<Result<seq<Diff>>>) {
    Run(states, parsed, sent) && states[0] == s
  }

  predicate NoneThrows(sent: seq<Result<seq<Diff>>>) {
    forall i :: 0 <= i < |sent| ==> sent[i].Ok?
  }

  /** What a client holds that puts together all it is sent. */
  function Client(m: ChatMsg, sent: seq<Result<seq<Diff>>>): ChatMsg
    requires NoneThrows(sent)
    decreases |sent|
  {
    if sent == [] then m else Client(Fold(m, sent[0].value), sent[1..])
  }

  /** Passing over those that are empty, each message grew out of the one before, ids aside. */
  ghost predicate ParsedGrow(from: ChatMsg, parsed: seq<ChatMsg>)
    decreases |parsed|
  {
    if parsed == [] then true
    else if parsed[0] == EMPTY_MSG then ParsedGrow(from, parsed[1..])
    else GrewButIds(from, parsed[0]) && ParsedGrow(parsed[0], parsed[1..])
  }

  /** The last message that is not empty. */
  function LastParsed(from: ChatMsg, parsed: seq<ChatMsg>): ChatMsg
    decreases |parsed|
  {
    if parsed == [] then from
    else LastParsed(if parsed[0] == EMPTY_MSG then from else parsed[0], parsed[1..])
  }

  /** The message is what was parsed, with ids from the cache. */
  ghost predicate HoldsParsed(s: State, parsed: ChatMsg) {
    && |s.held.toolCalls| == |parsed.toolCalls| <= |s.ids|
    && s.held == parsed.(toolCalls := s.held.toolCalls)
    && forall i :: 0 <= i < |parsed.toolCalls| ==> s.held.toolCalls[i] == parsed.toolCalls[i].(id := s.ids[i])
  }

  lemma StepHolds(s: State, shown: ChatMsg, parsed: ChatMsg, s': State, sent: Result<seq<Diff>>)
    requires HoldsParsed(s, shown) && Step(s, parsed, s', sent)
    requires parsed == EMPTY_MSG || GrewButIds(shown, parsed)
    ensures HoldsParsed(s', if parsed == EMPTY_MSG then shown else parsed)
    ensures sent.Ok? && Fold(s.held, sent.value) == s'.held
  {
    hide Fold, Diffs;
    if parsed == EMPTY_MSG {
      FoldNothing(s.held);
    } else {
      assert GrewButIds(s.held, s'.held);
      CachedIdsGrow(s.held, s'.held, s.ids, s'.ids);
      GrewComputes(s.held, s'.held);
    }
  }

  lemma {:induction false} FoldNothing(m: ChatMsg)
    ensures Fold(m, []) == m
  {
  }

  /**
   Messages parsed without ids, or with any, that only grow but for those passed over: whatever ids
   are generated, no difference throws, the client ends up with what the server holds, and that is
   the last message, with an id for every call that never changes.
   */
  lemma {:induction false} RunRecovers(states: seq<State>, parsed: seq<ChatMsg>, sent: seq<Result<seq<Diff>>>, shown: ChatMsg)
    requires Run(states, parsed, sent) && HoldsParsed(states[0], shown) && ParsedGrow(shown, parsed)
    ensures NoneThrows(sent) && Client(states[0].held, sent) == states[|parsed|].held
    ensures HoldsParsed(states[|parsed|], LastParsed(shown, parsed))
    ensures forall i :: 0 <= i < |states| ==> states[i].ids <= states[|parsed|].ids
    decreases |parsed|
  {
    hide Fold, Diffs, GrewButIds, HoldsParsed;
    if parsed != [] {
      StepHolds(states[0], shown, parsed[0], states[1], sent[0]);
      var next := if parsed[0] == EMPTY_MSG then shown else parsed[0];
      RunTail(states, parsed, sent);
      RunRecovers(states[1..], parsed[1..], sent[1..], next);
      assert states[1..][|parsed| - 1] == states[|parsed|];
      forall i | 0 <= i < |sent|
        ensures sent[i].Ok?
      {
        assert i > 0 ==> sent[1..][i - 1].Ok?;
      }
      forall i | 0 <= i < |states|
        ensures states[i].ids <= states[|parsed|].ids
      {
        assert states[1..][0].ids <= states[|parsed|].ids;
        assert i > 0 ==> states[1..][i - 1].ids <= states[|parsed|].ids;
      }
    }
  }

  /** An id that the model gave with a call, when the call was first seen, is the one the client has in the end. */
  lemma {:induction false} GivenIdsStay(states: seq<State>, parsed: seq<ChatMsg>, sent: seq<Result<seq<Diff>>>, shown: ChatMsg, k: nat, i: nat)
    requires Run(states, parsed, sent) && HoldsParsed(states[0], shown) && ParsedGrow(shown, parsed)
    requires k < |parsed| && |states[k].ids| <= i < |parsed[k].toolCalls| && parsed[k].toolCalls[i].id != ""
    ensures NoneThrows(sent)
    ensures var calls := Client(states[0].held, sent).toolCalls;
            i < |calls| ==> calls[i].id == parsed[k].toolCalls[i].id
  {
    hide Client, LastParsed;
    RunRecovers(states, parsed, sent, shown);
    assert Step(states[k], parsed[k], states[k + 1], sent[k]);
    assert states[k + 1].ids[i] == parsed[k].toolCalls[i].id;
    assert states[k + 1].ids <= states[|parsed|].ids;
  }

  lemma RunTail(states: seq<State>, parsed: seq<ChatMsg>, sent: seq<Result<seq<Diff>>>)
    requires Run(states, parsed, sent) && parsed != []
    ensures Run(states[1..], parsed[1..], sent[1..])
  {
    hide Step;
    forall i | 0 <= i < |parsed[1..]|
      ensures Step(states[1..][i], parsed[1..][i], states[1..][i + 1], sent[1..][i])
    {
      assert Step(states[i + 1], parsed[i + 1], states[i + 2], sent[i + 1]);
    }
  }

  /** Every sequence of messages can be run through. */
  lemma {:induction false} RunExists(s: State, parsed: seq<ChatMsg>)
    returns (states: seq<State>, sent: seq<Result<seq<Diff>>>)
    ensures RunFrom(s, states, parsed, sent)
    decreases |parsed|
  {
    if parsed == [] {
      states, sent := [s], [];
    } else {
      var s', d := StepExists(s, parsed[0]);
      var states', sent' := RunExists(s', parsed[1..]);
      states, sent := [s] + states', [d] + sent';
      forall i | 0 <= i < |parsed|
        ensures Step(states[i], parsed[i], states[i + 1], sent[i])
      {
        if i > 0 {
          assert Step(states'[i - 1], parsed[1..][i - 1], states'[i], sent'[i - 1]);
        }
      }
    }
  }

  lemma StepExists(s: State, parsed: ChatMsg) returns (s': State, sent: Result<seq<Diff>>)
    ensures Step(s, parsed, s', sent)
  {
    if parsed == EMPTY_MSG {
      s', sent := s, Ok([]);
    } else {
      var n := |parsed.toolCalls|;
      var ids := s.ids + if n <= |s.ids| then [] else seq(n - |s.ids|, i requires 0 <= i < n - |s.ids| => parsed.toolCalls[|s.ids| + i].id);
      var calls := seq(n, i requires 0 <= i < n => parsed.toolCalls[i].(id := ids[i]));
      s' := State(ids, parsed.(toolCalls := calls));
      sent := Diffs(s.held, s'.held);
    }
  }
}
