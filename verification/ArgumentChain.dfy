/**
 The argument list of an XML tool call, chat-parser-xml-toolcall.cpp:246-257 and 277-285: rules
 built from the last argument back, so that `val_end` stands between neighbours and the closing end
 after the last one. An argument may be any grammar; a rule reference stands for its rule.
 */
module ArgumentChain {
  import opened CommonStrings
  import opened Gbnf

  datatype Param = Param(rule: Gram<char>, required: bool)

  datatype Chain = Chain(next: Gram<char>, nextWithSep: Gram<char>)

  const SIZE_LIMIT := 0x1_0000_0000_0000_0000

  /** The two rules for what may follow, once the arguments before `args` are done. */
  function ChainOf(args: seq<Param>, valEnd: string, last: string): Chain {
    if args == [] then Chain(Word(""), Word(last)) else
    var after := ChainOf(args[1..], valEnd, last);
    Chain(
      WithArg(args[0], Cat(args[0].rule, after.nextWithSep), after.next),
      WithArg(args[0], Cat(Word(valEnd), Cat(args[0].rule, after.nextWithSep)), after.nextWithSep))
  }

  function WithArg(arg: Param, included: Gram<char>, skipped: Gram<char>): Gram<char> {
    if arg.required then included else Alt(included, skipped)
  }

  /** The loop: the index goes down and, unsigned, wraps past zero to end it. */
  method BuildChain(args: seq<Param>, valEnd: string, lastValEnd: Option<string>) returns (next: Gram<char>)
    requires |args| < 0x1_0000_0000_0000_0000
    ensures next == ChainOf(args, valEnd, LastOf(valEnd, lastValEnd)).next
  {
    var nextWithSep := Word(LastOf(valEnd, lastValEnd));
    next := Word("");
    var i := (|args| + SIZE_LIMIT - 1) % SIZE_LIMIT;
    ghost var done := |args|;
    while i < |args|
      invariant 0 <= done <= |args| && i == (done + SIZE_LIMIT - 1) % SIZE_LIMIT
      invariant Chain(next, nextWithSep) == ChainOf(args[done..], valEnd, LastOf(valEnd, lastValEnd))
      decreases done
    {
      assert i == done - 1;
      assert args[i..][1..] == args[done..];
      var includeThisArg := Cat(args[i].rule, nextWithSep);
      next := if args[i].required then includeThisArg else Alt(includeThisArg, next);
      includeThisArg := Cat(Word(valEnd), includeThisArg);
      nextWithSep := if args[i].required then includeThisArg else Alt(includeThisArg, nextWithSep);
      done := i;
      i := (i + SIZE_LIMIT - 1) % SIZE_LIMIT;
    }
    assert done == 0 && args[0..] == args;
  }

  function LastOf(valEnd: string, lastValEnd: Option<string>): string {
    match lastValEnd
    case Some(end) => end
    case None => valEnd
  }

  // ---- what may be said ----

  /** For each argument in order, what is said for it, if anything: all required ones are there. */
  ghost predicate Selection(args: seq<Param>, choice: seq<Option<string>>) {
    && |choice| == |args|
    && forall i :: 0 <= i < |args| ==>
         match choice[i]
         case Some(text) => Accepts(args[i].rule, text)
         case None => !args[i].required
  }

  function Chosen(choice: seq<Option<string>>): seq<string> {
    if choice == [] then []
    else if choice[0].None? then Chosen(choice[1..])
    else [choice[0].value] + Chosen(choice[1..])
  }

  function Join(texts: seq<string>, sep: string): string {
    if texts == [] then ""
    else if |texts| == 1 then texts[0]
    else texts[0] + sep + Join(texts[1..], sep)
  }

  /** Nothing at all, or the texts with `valEnd` between neighbours and `last` at the end. */
  function Rendered(texts: seq<string>, valEnd: string, last: string): string {
    if texts == [] then "" else Join(texts, valEnd) + last
  }

  /** What follows an argument that was given. */
  function Continued(texts: seq<string>, valEnd: string, last: string): string {
    if texts == [] then last else valEnd + Rendered(texts, valEnd, last)
  }

  lemma RenderedCons(text: string, texts: seq<string>, valEnd: string, last: string)
    ensures Rendered([text] + texts, valEnd, last) == text + Continued(texts, valEnd, last)
  {
    assert ([text] + texts)[1..] == texts;
    if texts != [] {
      assert text + valEnd + Join(texts, valEnd) + last == text + (valEnd + (Join(texts, valEnd) + last));
    }
  }

  ghost predicate Says(args: seq<Param>, valEnd: string, last: string, s: string) {
    exists choice :: Selection(args, choice) && s == Rendered(Chosen(choice), valEnd, last)
  }

  ghost predicate Continues(args: seq<Param>, valEnd: string, last: string, s: string) {
    exists choice :: Selection(args, choice) && s == Continued(Chosen(choice), valEnd, last)
  }

  lemma SelectionLength(args: seq<Param>, choice: seq<Option<string>>)
    requires Selection(args, choice)
    ensures |choice| == |args|
  {
  }

  lemma {:induction false} SelectionCons(args: seq<Param>, first: Option<string>, rest: seq<Option<string>>)
    requires args != []
    ensures Selection(args, [first] + rest)
            <==> && Selection(args[1..], rest)
                 && match first
                    case Some(text) => Accepts(args[0].rule, text)
                    case None => !args[0].required
    ensures Chosen([first] + rest) == (if first.None? then [] else [first.value]) + Chosen(rest)
  {
    var choice := [first] + rest;
    assert choice[1..] == rest;
    if Selection(args, choice) {
      forall i | 0 <= i < |args[1..]|
        ensures match rest[i] case Some(text) => Accepts(args[1..][i].rule, text) case None => !args[1..][i].required
      {
        assert choice[i + 1] == rest[i];
      }
    }
  }

  /** Taking the first argument apart: said with its text, or left out. */
  lemma SaysCons(args: seq<Param>, valEnd: string, last: string, s: string)
    requires args != []
    ensures Says(args, valEnd, last, s)
            <==> || (exists k :: 0 <= k <= |s| && Accepts(args[0].rule, s[..k]) && Continues(args[1..], valEnd, last, s[k..]))
                 || (!args[0].required && Says(args[1..], valEnd, last, s))
  {
    hide Rendered, Continued, Selection, Chosen;
    if Says(args, valEnd, last, s) {
      var choice: seq<Option<string>> :| Selection(args, choice) && s == Rendered(Chosen(choice), valEnd, last);
      SelectionLength(args, choice);
      assert choice == [choice[0]] + choice[1..];
      SelectionCons(args, choice[0], choice[1..]);
      if choice[0].Some? {
        var text := choice[0].value;
        RenderedCons(text, Chosen(choice[1..]), valEnd, last);
        assert s[..|text|] == text && s[|text|..] == Continued(Chosen(choice[1..]), valEnd, last);
      } else {
        assert [] + Chosen(choice[1..]) == Chosen(choice[1..]);
      }
    }
    if k :| 0 <= k <= |s| && Accepts(args[0].rule, s[..k]) && Continues(args[1..], valEnd, last, s[k..]) {
      var rest :| Selection(args[1..], rest) && s[k..] == Continued(Chosen(rest), valEnd, last);
      SelectionCons(args, Some(s[..k]), rest);
      RenderedCons(s[..k], Chosen(rest), valEnd, last);
      assert s == s[..k] + s[k..];
    }
    if !args[0].required && Says(args[1..], valEnd, last, s) {
      var rest :| Selection(args[1..], rest) && s == Rendered(Chosen(rest), valEnd, last);
      SelectionCons(args, None, rest);
      assert [] + Chosen(rest) == Chosen(rest);
    }
  }

  lemma ContinuesCons(args: seq<Param>, valEnd: string, last: string, s: string)
    requires args != []
    ensures Continues(args, valEnd, last, s)
            <==> || (&& |valEnd| <= |s| && s[..|valEnd|] == valEnd
                     && SaysFirst(args, valEnd, last, s[|valEnd|..]))
                 || (!args[0].required && Continues(args[1..], valEnd, last, s))
  {
    hide Continued, Selection, Chosen, SaysFirst;
    if Continues(args, valEnd, last, s) {
      var choice: seq<Option<string>> :| Selection(args, choice) && s == Continued(Chosen(choice), valEnd, last);
      ContinuedApart(args, valEnd, last, choice);
    }
    if |valEnd| <= |s| && s[..|valEnd|] == valEnd && SaysFirst(args, valEnd, last, s[|valEnd|..]) {
      ContinuedTogether(args, valEnd, last, s[|valEnd|..]);
      assert s == valEnd + s[|valEnd|..];
    }
    if !args[0].required && Continues(args[1..], valEnd, last, s) {
      var rest :| Selection(args[1..], rest) && s == Continued(Chosen(rest), valEnd, last);
      SelectionCons(args, None, rest);
      assert [] + Chosen(rest) == Chosen(rest);
    }
  }

  lemma {:induction false} ContinuedApart(args: seq<Param>, valEnd: string, last: string, choice: seq<Option<string>>)
    requires args != [] && Selection(args, choice)
    ensures var s := Continued(Chosen(choice), valEnd, last);
            || (&& |valEnd| <= |s| && s[..|valEnd|] == valEnd
                && SaysFirst(args, valEnd, last, s[|valEnd|..]))
            || (!args[0].required && Continues(args[1..], valEnd, last, s))
  {
    hide Rendered, Selection, Chosen, Accepts;
    SelectionLength(args, choice);
    assert choice == [choice[0]] + choice[1..];
    SelectionCons(args, choice[0], choice[1..]);
    if choice[0].Some? {
      var text := choice[0].value;
      var more := Continued(Chosen(choice[1..]), valEnd, last);
      RenderedCons(text, Chosen(choice[1..]), valEnd, last);
      var s := Continued(Chosen(choice), valEnd, last);
      assert s[|valEnd|..] == text + more;
      assert (text + more)[..|text|] == text && (text + more)[|text|..] == more;
    } else {
      assert [] + Chosen(choice[1..]) == Chosen(choice[1..]);
    }
  }

  lemma ContinuedTogether(args: seq<Param>, valEnd: string, last: string, t: string)
    requires args != [] && SaysFirst(args, valEnd, last, t)
    ensures Continues(args, valEnd, last, valEnd + t)
  {
    hide Rendered, Selection, Chosen, Accepts;
    var k :| 0 <= k <= |t| && Accepts(args[0].rule, t[..k]) && Continues(args[1..], valEnd, last, t[k..]);
    var rest :| Selection(args[1..], rest) && t[k..] == Continued(Chosen(rest), valEnd, last);
    SelectionCons(args, Some(t[..k]), rest);
    RenderedCons(t[..k], Chosen(rest), valEnd, last);
    assert t == t[..k] + t[k..];
    assert Chosen([Some(t[..k])] + rest) == [t[..k]] + Chosen(rest);
    assert Continued(Chosen([Some(t[..k])] + rest), valEnd, last) == valEnd + t;
  }

  /** The first argument is given, and then the rest may follow. */
  ghost predicate SaysFirst(args: seq<Param>, valEnd: string, last: string, s: string)
    requires args != []
  {
    exists k :: 0 <= k <= |s| && Accepts(args[0].rule, s[..k]) && Continues(args[1..], valEnd, last, s[k..])
  }

  lemma NoArgs(valEnd: string, last: string, s: string)
    ensures Says([], valEnd, last, s) <==> s == ""
    ensures Continues([], valEnd, last, s) <==> s == last
  {
    var none: seq<Option<string>> := [];
    assert Selection([], none) && Chosen(none) == [];
  }

  /**
   The chain accepts exactly the in-order selections of arguments that hold every required one,
   each said in a way its own rule accepts, with `val_end` between neighbours and the closing end
   after the last; and the empty string when nothing is chosen.
   */
  lemma {:induction false} ChainExact(args: seq<Param>, valEnd: string, last: string, s: string)
    ensures Accepts(ChainOf(args, valEnd, last).next, s) <==> Says(args, valEnd, last, s)
    ensures Accepts(ChainOf(args, valEnd, last).nextWithSep, s) <==> Continues(args, valEnd, last, s)
    decreases |args|
  {
    hide Says, Continues;
    if args == [] {
      NoArgs(valEnd, last, s);
    } else {
      var after := ChainOf(args[1..], valEnd, last);
      SaysCons(args, valEnd, last, s);
      ContinuesCons(args, valEnd, last, s);
      forall t: string
        ensures Accepts(after.next, t) <==> Says(args[1..], valEnd, last, t)
        ensures Accepts(after.nextWithSep, t) <==> Continues(args[1..], valEnd, last, t)
      {
        ChainExact(args[1..], valEnd, last, t);
      }
      FirstThen(args, valEnd, last, after.nextWithSep, s);
      CatWord(valEnd, Cat(args[0].rule, after.nextWithSep), s);
      if |valEnd| <= |s| {
        FirstThen(args, valEnd, last, after.nextWithSep, s[|valEnd|..]);
      }
    }
  }

  lemma {:induction false} FirstThen(args: seq<Param>, valEnd: string, last: string, next: Gram<char>, s: string)
    requires args != []
    requires forall t: string :: Accepts(next, t) <==> Continues(args[1..], valEnd, last, t)
    ensures Accepts(Cat(args[0].rule, next), s) <==> SaysFirst(args, valEnd, last, s)
  {
    hide Continues;
  }

  predicate NoneRequired(args: seq<Param>) {
    forall i :: 0 <= i < |args| ==> !args[i].required
  }

  predicate OneRequired(args: seq<Param>) {
    forall i, j :: 0 <= i < j < |args| ==> !(args[i].required && args[j].required)
  }

  ghost predicate RequiredEmpty(args: seq<Param>) {
    forall i :: 0 <= i < |args| && args[i].required ==> Accepts(args[i].rule, "")
  }

  lemma EmptyCons(args: seq<Param>)
    requires args != []
    ensures NoneRequired(args) <==> !args[0].required && NoneRequired(args[1..])
    ensures OneRequired(args) <==> if args[0].required then NoneRequired(args[1..]) else OneRequired(args[1..])
    ensures RequiredEmpty(args) <==> (args[0].required ==> Accepts(args[0].rule, "")) && RequiredEmpty(args[1..])
  {
    hide Accepts;
    var rest := args[1..];
    assert forall i :: 0 < i < |args| ==> args[i] == rest[i - 1];
    assert forall i :: 0 <= i < |rest| ==> rest[i] == args[i + 1];
  }

  lemma {:induction false} NothingSaid(first: Gram<char>, second: Gram<char>)
    ensures Accepts(Cat(first, second), "") <==> Accepts(first, "") && Accepts(second, "")
  {
    var s := "";
    assert s[..0] == "" && s[0..] == "";
  }

  /**
   The empty string is accepted exactly when no argument is required, or when the closing end is
   empty and so may be all the required arguments, with no `val_end` to stand between two of them.
   */
  lemma {:induction false} EmptyIff(args: seq<Param>, valEnd: string, last: string)
    ensures Accepts(ChainOf(args, valEnd, last).next, "")
            <==> NoneRequired(args) || (last == "" && RequiredEmpty(args) && (valEnd == "" || OneRequired(args)))
    ensures Accepts(ChainOf(args, valEnd, last).nextWithSep, "")
            <==> last == "" && RequiredEmpty(args) && (valEnd == "" || NoneRequired(args))
    decreases |args|
  {
    hide NoneRequired, OneRequired, RequiredEmpty;
    if args == [] {
      NoArgsRequired();
    } else {
      var after := ChainOf(args[1..], valEnd, last);
      EmptyIff(args[1..], valEnd, last);
      EmptyCons(args);
      NothingSaid(args[0].rule, after.nextWithSep);
      NothingSaid(Word(valEnd), Cat(args[0].rule, after.nextWithSep));
      NoneIsOne(args[1..]);
    }
  }

  lemma NoArgsRequired()
    ensures NoneRequired([]) && OneRequired([]) && RequiredEmpty([])
  {
  }

  lemma NoneIsOne(args: seq<Param>)
    ensures NoneRequired(args) ==> OneRequired(args) && RequiredEmpty(args)
  {
  }

  // ---- the calls around it ----

  /** The root rule: `scope_start`, calls with `tool_end` between them and the last end after, `scope_end`. */
  function Root(once: Gram<char>, scopeStart: string, toolEnd: string, lastToolEnd: Option<string>, scopeEnd: string): Gram<char>
  {
    var more := Cat(Word(toolEnd), once);
    var callEnd := Word(LastOf(toolEnd, lastToolEnd));
    var calls := Cat(once, Cat(Repeat(more, 0, None), callEnd));
    Cat(Word(scopeStart), Cat(Repeat(calls, 0, Some(1)), Word(scopeEnd)))
  }

  ghost predicate AllAccepted(once: Gram<char>, calls: seq<string>) {
    forall i :: 0 <= i < |calls| ==> Accepts(once, calls[i])
  }

  /** Every call after the first comes behind a `tool_end`. */
  function Behind(calls: seq<string>, sep: string): string {
    if calls == [] then "" else sep + calls[0] + Behind(calls[1..], sep)
  }

  lemma {:induction false} JoinIsBehind(call: string, calls: seq<string>, sep: string)
    ensures Join([call] + calls, sep) == call + Behind(calls, sep)
    decreases |calls|
  {
    assert ([call] + calls)[1..] == calls;
    if calls != [] {
      JoinIsBehind(calls[0], calls[1..], sep);
      assert [calls[0]] + calls[1..] == calls;
      assert call + sep + (calls[0] + Behind(calls[1..], sep)) == call + (sep + calls[0] + Behind(calls[1..], sep));
    }
  }

  lemma {:induction false} TimesToCalls(once: Gram<char>, sep: string, n: nat, s: string) returns (calls: seq<string>)
    requires AcceptsTimes(Cat(Word(sep), once), n, s)
    ensures AllAccepted(once, calls) && s == Behind(calls, sep)
    decreases n
  {
    hide Accepts;
    if n == 0 {
      calls := [];
    } else {
      var k :| 0 <= k <= |s| && Accepts(Cat(Word(sep), once), s[..k]) && AcceptsTimes(Cat(Word(sep), once), n - 1, s[k..]);
      CatWord(sep, once, s[..k]);
      var rest := TimesToCalls(once, sep, n - 1, s[k..]);
      var call := s[..k][|sep|..];
      calls := [call] + rest;
      assert calls[1..] == rest;
      assert s == s[..k] + s[k..] && s[..k] == sep + call;
    }
  }

  lemma {:induction false} CallsToTimes(once: Gram<char>, sep: string, calls: seq<string>)
    requires AllAccepted(once, calls)
    ensures AcceptsTimes(Cat(Word(sep), once), |calls|, Behind(calls, sep))
    decreases |calls|
  {
    hide Accepts;
    if calls != [] {
      CallsToTimes(once, sep, calls[1..]);
      var s, item := Behind(calls, sep), sep + calls[0];
      assert item[..|sep|] == sep && item[|sep|..] == calls[0];
      CatWord(sep, once, item);
      assert s[..|item|] == item && s[|item|..] == Behind(calls[1..], sep);
    }
  }

  /** One or more calls, each after the first behind a `tool_end`, and then the last end. */
  ghost predicate Calls(once: Gram<char>, toolEnd: string, callEnd: string, s: string) {
    exists calls :: AllAccepted(once, calls) && calls != [] && s == Join(calls, toolEnd) + callEnd
  }

  lemma {:induction false} CallsExact(once: Gram<char>, toolEnd: string, callEnd: string, s: string)
    ensures Accepts(Cat(once, Cat(Repeat(Cat(Word(toolEnd), once), 0, None), Word(callEnd))), s)
            <==> Calls(once, toolEnd, callEnd, s)
  {
    hide Accepts;
    var more := Cat(Word(toolEnd), once);
    var tail := Cat(Repeat(more, 0, None), Word(callEnd));
    if Accepts(Cat(once, tail), s) {
      var k := CatApart(once, tail, s);
      var t := s[k..];
      CatThenWord(Repeat(more, 0, None), callEnd, t);
      var j := |t| - |callEnd|;
      CallsOfParts(once, toolEnd, callEnd, s[..k], t[..j]);
      assert s == s[..k] + t && t == t[..j] + t[j..];
    }
    if Calls(once, toolEnd, callEnd, s) {
      var calls: seq<string> :| AllAccepted(once, calls) && calls != [] && s == Join(calls, toolEnd) + callEnd;
      PartsOfCalls(once, toolEnd, callEnd, calls);
    }
  }

  lemma {:induction false} CallsOfParts(once: Gram<char>, toolEnd: string, callEnd: string, first: string, others: string)
    requires Accepts(once, first)
    requires Accepts(Repeat(Cat(Word(toolEnd), once), 0, None), others)
    ensures Calls(once, toolEnd, callEnd, first + (others + callEnd))
  {
    hide Accepts;
    var n := StarTimes(Cat(Word(toolEnd), once), others);
    var rest := TimesToCalls(once, toolEnd, n, others);
    var calls := [first] + rest;
    JoinIsBehind(first, rest, toolEnd);
    assert AllAccepted(once, calls);
    assert Join(calls, toolEnd) + callEnd == first + (others + callEnd);
  }

  lemma {:induction false} PartsOfCalls(once: Gram<char>, toolEnd: string, callEnd: string, calls: seq<string>)
    requires AllAccepted(once, calls) && calls != []
    ensures Accepts(Cat(once, Cat(Repeat(Cat(Word(toolEnd), once), 0, None), Word(callEnd))), Join(calls, toolEnd) + callEnd)
  {
    hide Accepts;
    var more := Cat(Word(toolEnd), once);
    CallsToTimes(once, toolEnd, calls[1..]);
    StarIntro(more, |calls[1..]|, Behind(calls[1..], toolEnd));
    WordExact(callEnd, callEnd);
    CatIntro(Repeat(more, 0, None), Word(callEnd), Behind(calls[1..], toolEnd), callEnd);
    CatIntro(once, Cat(Repeat(more, 0, None), Word(callEnd)), calls[0], Behind(calls[1..], toolEnd) + callEnd);
    JoinIsBehind(calls[0], calls[1..], toolEnd);
    assert [calls[0]] + calls[1..] == calls;
    assert calls[0] + (Behind(calls[1..], toolEnd) + callEnd) == Join(calls, toolEnd) + callEnd;
  }

  /** The two scope texts around nothing, or around a list of calls. */
  ghost predicate Scoped(once: Gram<char>, scopeStart: string, toolEnd: string, callEnd: string, scopeEnd: string, s: string) {
    exists body :: (body == "" || Calls(once, toolEnd, callEnd, body)) && s == scopeStart + (body + scopeEnd)
  }

  lemma {:induction false} OptThenWord(g: Gram<char>, w: string, t: string)
    ensures Accepts(Cat(Repeat(g, 0, Some(1)), Word(w)), t)
            <==> exists body :: (body == "" || Accepts(g, body)) && t == body + w
  {
    hide Accepts;
    CatThenWord(Repeat(g, 0, Some(1)), w, t);
    if |w| <= |t| && t[|t| - |w|..] == w {
      RepeatOnce(g, t[..|t| - |w|]);
      assert t == t[..|t| - |w|] + w;
    }
    if body :| (body == "" || Accepts(g, body)) && t == body + w {
      assert t[..|t| - |w|] == body && t[|t| - |w|..] == w;
    }
  }

  /** The root rule accepts exactly the two scope texts around nothing, or around a list of calls. */
  lemma {:induction false} RootExact(once: Gram<char>, scopeStart: string, toolEnd: string, lastToolEnd: Option<string>, scopeEnd: string, s: string)
    ensures Accepts(Root(once, scopeStart, toolEnd, lastToolEnd, scopeEnd), s)
            <==> Scoped(once, scopeStart, toolEnd, LastOf(toolEnd, lastToolEnd), scopeEnd, s)
  {
    hide Accepts, Calls;
    var callEnd := LastOf(toolEnd, lastToolEnd);
    var calls := Cat(once, Cat(Repeat(Cat(Word(toolEnd), once), 0, None), Word(callEnd)));
    CatWord(scopeStart, Cat(Repeat(calls, 0, Some(1)), Word(scopeEnd)), s);
    forall body: string
      ensures Accepts(calls, body) <==> Calls(once, toolEnd, callEnd, body)
    {
      CallsExact(once, toolEnd, callEnd, body);
    }
    if |scopeStart| <= |s| {
      OptThenWord(calls, scopeEnd, s[|scopeStart|..]);
    }
    if Accepts(Root(once, scopeStart, toolEnd, lastToolEnd, scopeEnd), s) {
      assert s == scopeStart + s[|scopeStart|..];
    }
    if Scoped(once, scopeStart, toolEnd, callEnd, scopeEnd, s) {
      var body :| (body == "" || Calls(once, toolEnd, callEnd, body)) && s == scopeStart + (body + scopeEnd);
      assert s[..|scopeStart|] == scopeStart && s[|scopeStart|..] == body + scopeEnd;
    }
  }
}
