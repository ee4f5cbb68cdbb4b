/**
 Streaming end to end: the output is parsed again whenever it has grown, the differences are sent,
 and at last the complete output is parsed as final. What does the client hold then?
 */
module ChatStream {
  import opened CommonStrings
  import opened ReasoningModel
  import opened ChatDiff
  import opened ChatServer

  function Shown(m: Msg): ChatMsg {
    ChatMsg(m.content, m.reasoning, [])
  }

  /** Where the output was when it was parsed. */
  ghost predicate IsChunking(stops: seq<nat>, size: nat) {
    && (forall i :: 0 <= i < |stops| ==> stops[i] <= size)
    && (forall i, j :: 0 <= i < j < |stops| ==> stops[i] <= stops[j])
  }

  /** The partial parses, and the final one. */
  function Messages(cfg: Config, output: string, stops: seq<nat>): seq<ChatMsg>
    requires cfg.Valid() && forall i :: 0 <= i < |stops| ==> stops[i] <= |output|
  {
    if stops == [] then [Shown(Parse(cfg, output, false))]
    else [Shown(Parse(cfg, output[..stops[0]], true))] + Messages(cfg, output, stops[1..])
  }

  /** The output stops inside the start tag, with only white space in front. */
  predicate EndsInStartTag(cfg: Config, output: string) {
    && cfg.format != FormatNone && !cfg.forcedOpen
    && var w := SkipSpaces(output, 0);
       0 < w < |output| && |output| - w < |cfg.start| && output[w..] == cfg.start[..|output| - w]
  }

  /** The output was parsed when it was white space only. */
  predicate WhiteShown(output: string, stops: seq<nat>) {
    exists i :: 0 <= i < |stops| && 0 < stops[i] <= SkipSpaces(output, 0)
  }

  lemma ParseNothing(cfg: Config, partial: bool)
    requires cfg.Valid()
    ensures Parse(cfg, "", partial) == EMPTY
  {
    if cfg.format != FormatNone && cfg.forcedOpen {
      ParseForcedWhite(cfg, "", partial);
    } else {
      ParseBare(cfg, "", partial);
    }
  }

  /** From a place on where nothing is shown that the rest could take back. */
  lemma {:induction false} MessagesGrow(cfg: Config, output: string, stops: seq<nat>, at: nat)
    requires cfg.Valid() && IsChunking(stops, |output|)
    requires at <= |output| && (stops != [] ==> at <= stops[0])
    ensures ParsedGrow(Shown(Parse(cfg, output[..at], true)), Messages(cfg, output, stops))
    decreases |stops|
  {
    hide Parse, Withdraws;
    var p := output[..at];
    var q := if stops == [] then output else output[..stops[0]];
    var m := Parse(cfg, q, stops != []);
    if m != EMPTY {
      ParseMonotone(cfg, p, q, stops != []);
      assert GrewButIds(Shown(Parse(cfg, p, true)), Shown(m));
    }
    if stops != [] {
      MessagesGrow(cfg, output, stops[1..], if m == EMPTY then at else stops[0]);
    }
  }

  /** A beginning of an output shows something that the final parse does not have in just one case. */
  lemma {:induction false} FinalNothing(cfg: Config, output: string, at: nat)
    requires cfg.Valid() && at <= |output| && Parse(cfg, output, false) == EMPTY
    ensures Parse(cfg, output[..at], true) != EMPTY <==> EndsInStartTag(cfg, output) && 0 < at <= SkipSpaces(output, 0)
  {
    hide Parse, Withdraws, EndsInStartTag;
    TagWithdraws(cfg, output);
    if Withdraws(cfg, output) {
      FinalInTag(cfg, output);
      if at <= SkipSpaces(output, 0) {
        WhiteIsShown(cfg, output, at);
      } else {
        TagIsNot(cfg, output, at);
      }
    } else {
      ParseMonotone(cfg, output[..at], output, false);
    }
  }

  lemma {:induction false} WhiteIsShown(cfg: Config, output: string, at: nat)
    requires cfg.Valid() && EndsInStartTag(cfg, output) && at <= SkipSpaces(output, 0)
    ensures Parse(cfg, output[..at], true) != EMPTY <==> at > 0
  {
    hide Parse;
    var p, w := output[..at], SkipSpaces(output, 0);
    assert p == output[..w][..at] && AllSpaces(p);
    ParseBare(cfg, p, true);
  }

  lemma {:induction false} TagIsNot(cfg: Config, output: string, at: nat)
    requires cfg.Valid() && EndsInStartTag(cfg, output) && SkipSpaces(output, 0) < at <= |output|
    ensures Parse(cfg, output[..at], true) == EMPTY
  {
    var w := SkipSpaces(output, 0);
    TagThere(cfg, output, w, at);
    hide Parse, EndsInStartTag, TagAt, SkipSpaces;
    ParsePartialTag(cfg, output[..at], true);
  }

  lemma {:induction false} TagThere(cfg: Config, output: string, w: nat, at: nat)
    requires EndsInStartTag(cfg, output) && w == SkipSpaces(output, 0) < at <= |output|
    ensures SkipSpaces(output[..at], 0) == w && TagAt(cfg, output[..at], w) && at - w < |cfg.start| && cfg.format != FormatNone
  {
    hide SkipSpaces;
    var p := output[..at];
    SkipTo(p, 0, w);
    assert p[w..w + (at - w)] == output[w..][..at - w] == cfg.start[..at - w];
  }

  lemma TagWithdraws(cfg: Config, output: string)
    ensures EndsInStartTag(cfg, output) ==> Withdraws(cfg, output)
  {
    var w := SkipSpaces(output, 0);
    if EndsInStartTag(cfg, output) {
      assert output[w] == output[w..][0];
    }
  }

  lemma FinalInTag(cfg: Config, output: string)
    requires cfg.Valid() && Withdraws(cfg, output) && Parse(cfg, output, false) == EMPTY
    ensures EndsInStartTag(cfg, output)
  {
    hide Parse, Tail;
    var w := SkipSpaces(output, 0);
    if !TagAt(cfg, output, w) {
      ParseBare(cfg, output, false);
    } else if |output| - w >= |cfg.start| {
      ParseTag(cfg, output, false);
    }
  }

  lemma InTagParsesToNothing(cfg: Config, output: string)
    requires cfg.Valid() && EndsInStartTag(cfg, output)
    ensures Parse(cfg, output, false) == EMPTY
  {
    hide Parse;
    ParsePartialTag(cfg, output, false);
  }

  /** What the server holds in the end is the final parse, unless that is empty and something was shown. */
  lemma {:induction false} HeldInTheEnd(cfg: Config, output: string, stops: seq<nat>, at: nat)
    requires cfg.Valid() && IsChunking(stops, |output|) && at <= |output|
    ensures var final := Parse(cfg, output, false);
            LastParsed(Shown(Parse(cfg, output[..at], true)), Messages(cfg, output, stops)) == Shown(final)
            <==> final != EMPTY
                 || (Parse(cfg, output[..at], true) == EMPTY
                     && forall i :: 0 <= i < |stops| ==> Parse(cfg, output[..stops[i]], true) == EMPTY)
    decreases |stops|
  {
    hide Parse;
    var final := Parse(cfg, output, false);
    if stops == [] {
    } else {
      var m := Parse(cfg, output[..stops[0]], true);
      HeldInTheEnd(cfg, output, stops[1..], if m == EMPTY then at else stops[0]);
      assert forall i :: 0 < i < |stops| ==> stops[i] == stops[1..][i - 1];
    }
  }

  /** A run without tool calls holds just what is parsed. */
  lemma HoldsShown(s: State, m: ChatMsg)
    requires HoldsParsed(s, m) && m.toolCalls == []
    ensures s.held == m
  {
  }

  lemma {:induction false} NoCalls(cfg: Config, output: string, stops: seq<nat>, from: ChatMsg)
    requires cfg.Valid() && IsChunking(stops, |output|) && from.toolCalls == []
    ensures LastParsed(from, Messages(cfg, output, stops)).toolCalls == []
    decreases |stops|
  {
    hide Parse;
    if stops != [] {
      var m := Shown(Parse(cfg, output[..stops[0]], true));
      NoCalls(cfg, output, stops[1..], if m == EMPTY_MSG then from else m);
    }
  }

  /**
   However the output is cut into chunks, no difference throws and the client holds what the server
   holds. That is the final parse if and only if it is not so that the output ends inside the start
   tag and was parsed once while it was white space only.
   */
  lemma {:induction false} StreamingRecovers(cfg: Config, output: string, stops: seq<nat>, states: seq<State>, sent: seq<Result<seq<Diff>>>)
    requires cfg.Valid() && IsChunking(stops, |output|)
    requires RunFrom(START, states, Messages(cfg, output, stops), sent)
    ensures NoneThrows(sent) && Client(EMPTY_MSG, sent) == states[|sent|].held
    ensures Client(EMPTY_MSG, sent) == Shown(Parse(cfg, output, false))
            <==> !(EndsInStartTag(cfg, output) && WhiteShown(output, stops))
  {
    hide Parse, Messages, Client, EndsInStartTag, LastParsed;
    var final := Parse(cfg, output, false);
    ParseNothing(cfg, true);
    assert output[..0] == "";
    MessagesGrow(cfg, output, stops, 0);
    RunRecovers(states, Messages(cfg, output, stops), sent, EMPTY_MSG);
    NoCalls(cfg, output, stops, EMPTY_MSG);
    HeldInTheEnd(cfg, output, stops, 0);
    HoldsShown(states[|sent|], LastParsed(EMPTY_MSG, Messages(cfg, output, stops)));
    if final == EMPTY {
      forall i | 0 <= i < |stops|
        ensures Parse(cfg, output[..stops[i]], true) != EMPTY
                <==> EndsInStartTag(cfg, output) && 0 < stops[i] <= SkipSpaces(output, 0)
      {
        FinalNothing(cfg, output, stops[i]);
      }
    } else if EndsInStartTag(cfg, output) {
      InTagParsesToNothing(cfg, output);
    }
  }

  lemma {:induction false} WhiteAtFirst(cfg: Config, output: string, stops: seq<nat>)
    requires EndsInStartTag(cfg, output) && stops == [SkipSpaces(output, 0)]
    ensures WhiteShown(output, stops)
  {
    assert 0 < stops[0] <= SkipSpaces(output, 0);
  }

  /** For this way to cut the output, whatever happens, the client ends up with the final parse. */
  ghost predicate Recovers(cfg: Config, output: string, stops: seq<nat>)
    requires cfg.Valid() && IsChunking(stops, |output|)
  {
    forall states, sent :: RunFrom(START, states, Messages(cfg, output, stops), sent) ==>
      NoneThrows(sent) && Client(EMPTY_MSG, sent) == Shown(Parse(cfg, output, false))
  }

  /** The client recovers the final message from all ways to cut the output exactly when that does not end inside the start tag. */
  lemma EveryChunkingRecovers(cfg: Config, output: string)
    requires cfg.Valid()
    ensures (forall stops :: IsChunking(stops, |output|) ==> Recovers(cfg, output, stops))
            <==> !EndsInStartTag(cfg, output)
  {
    hide Parse, Messages, Client, RunFrom, EndsInStartTag, WhiteShown;
    forall stops, states, sent | IsChunking(stops, |output|) && RunFrom(START, states, Messages(cfg, output, stops), sent)
      ensures NoneThrows(sent)
      ensures Client(EMPTY_MSG, sent) == Shown(Parse(cfg, output, false))
              <==> !(EndsInStartTag(cfg, output) && WhiteShown(output, stops))
    {
      StreamingRecovers(cfg, output, stops, states, sent);
    }
    if EndsInStartTag(cfg, output) {
      var stops: seq<nat> := [SkipSpaces(output, 0)];
      assert IsChunking(stops, |output|);
      WhiteAtFirst(cfg, output, stops);
      var states, sent := RunExists(START, Messages(cfg, output, stops));
      assert !Recovers(cfg, output, stops);
    }
  }
}
