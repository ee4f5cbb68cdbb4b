/**
 The forms of the formats. Each format has two: chat.cpp builds its grammar from one, chat-parser.cpp
 reads with the other, and the two differ by white space. What the one grammar lets a model write the
 other form reads back.
 */
module XmlForms {
  import opened CommonStrings
  import opened ChatParser
  import opened XmlFind
  import opened XmlModel
  import opened XmlRoundTrip
  import ArgumentChain

  // ---- the forms of the parser, chat-parser.cpp ----

  const MINIMAX_M2 := Form("<minimax:tool_call>", "<invoke name=\"", "\">", "<parameter name=\"", "\">",
                           "</parameter>", "</invoke>", "</minimax:tool_call>", None, None, None, None, false)

  const QWEN3_CODER := Form("<tool_call>", "<function=", ">", "<parameter=", ">",
                            "</parameter>", "</function>", "</tool_call>", None, None, None, None, true)

  const KIMI_K2 := Form("<|tool_calls_section_begin|>", "<|tool_call_begin|>", "<|tool_call_argument_begin|>{", "\"", "\":",
                        ",", "}<|tool_call_end|>", "<|tool_calls_section_end|>", None, Some(false), Some(""), None, false)

  const APRIEL_1_5 := Form("<tool_calls>[", "{\"name\": \"", "\", \"arguments\": {", "\"", "\": ",
                           ", ", "}, ", "]</tool_calls>", None, Some(false), Some(""), Some("}"), false)

  const XIAOMI_MIMO := Form("", "<tool_call>\n{\"name\": \"", "\", \"arguments\": {", "\"", "\": ",
                            ", ", "}\n</tool_call>", "", None, Some(false), Some(""), None, false)

  const GLM_4_5 := Form("", "<tool_call>", "", "<arg_key>", "</arg_key>",
                        "</arg_value>", "</tool_call>", "", Some("<arg_value>"), None, None, None, false)

  const SEED_OSS := Form("<seed:tool_call>", "<function=", ">", "<parameter=", ">",
                         "</parameter>", "</function>", "</seed:tool_call>", None, None, None, None, false)

  /** All of them can be read back. */
  lemma AllReadable()
    ensures ReadableForm(MINIMAX_M2) && ReadableForm(QWEN3_CODER) && ReadableForm(KIMI_K2) && ReadableForm(APRIEL_1_5)
    ensures ReadableForm(XIAOMI_MIMO) && ReadableForm(GLM_4_5) && ReadableForm(SEED_OSS)
  {
    hide ReadableForm;
    MinimaxReadable();
    QwenReadable();
    SeedReadable();
    GlmReadable();
    KimiReadable();
    AprielReadable();
    MimoReadable();
  }

  /** Two texts part at a place. */
  lemma PartAt(a: string, b: string, i: nat)
    requires i < |a| && i < |b| && a[i] != b[i]
    ensures Apart(a, b)
  {
  }

  lemma Black(s: string)
    requires s != "" && !IsSpace(s[0])
    ensures StartsBlack(s) && !AllSpace(s)
  {
  }

  /** A form without alternatives, with a scope end. */
  lemma PlainReadable(form: Form)
    requires form.Valid() && form.lastValEnd.None? && form.lastToolEnd.None?
    requires StartsBlack(form.keyStart) && StartsBlack(form.toolStart) && StartsBlack(form.toolEnd) && !AllSpace(form.valEnd)
    requires form.keyValSep2.Some? ==> StartsBlack(form.keyValSep2.value)
    requires Apart(form.keyStart, form.toolEnd)
    requires form.scopeEnd == "" || (StartsBlack(form.scopeEnd) && Apart(form.toolStart, form.scopeEnd))
    ensures ReadableForm(form)
  {
  }

  lemma MinimaxReadable()
    ensures ReadableForm(MINIMAX_M2)
  {
    hide AllSpace, ReadableForm, Apart;
    PartAt("<parameter name=\"", "</invoke>", 1);
    PartAt("<invoke name=\"", "</minimax:tool_call>", 1);
    Black("</parameter>");
    PlainReadable(MINIMAX_M2);
  }

  lemma QwenReadable()
    ensures ReadableForm(QWEN3_CODER)
  {
    hide AllSpace, ReadableForm, Apart;
    PartAt("<parameter=", "</function>", 1);
    PartAt("<function=", "</tool_call>", 1);
    Black("</parameter>");
    PlainReadable(QWEN3_CODER);
  }

  lemma SeedReadable()
    ensures ReadableForm(SEED_OSS)
  {
    hide AllSpace, ReadableForm, Apart;
    PartAt("<parameter=", "</function>", 1);
    PartAt("<function=", "</seed:tool_call>", 1);
    Black("</parameter>");
    PlainReadable(SEED_OSS);
  }

  lemma GlmReadable()
    ensures ReadableForm(GLM_4_5)
  {
    hide AllSpace, ReadableForm, Apart;
    PartAt("<arg_key>", "</tool_call>", 1);
    Black("</arg_value>");
    PlainReadable(GLM_4_5);
  }

  lemma KimiReadable()
    ensures ReadableForm(KIMI_K2)
  {
    hide AllSpace, Apart;
    PartAt("\"", "}<|tool_call_end|>", 0);
    PartAt(",", "}<|tool_call_end|>", 0);
    PartAt("<|tool_call_begin|>", "<|tool_calls_section_end|>", 11);
    Black(",");
  }

  lemma AprielReadable()
    ensures ReadableForm(APRIEL_1_5)
  {
    hide AllSpace, Apart;
    PartAt("\"", "}, ", 0);
    PartAt(", ", "}, ", 0);
    PartAt("\"", "}", 0);
    PartAt(", ", "}", 0);
    PartAt("{\"name\": \"", "]</tool_calls>", 0);
    PartAt("}, ", "}" + "]</tool_calls>", 1);
    Black(", ");
    Black("\", \"arguments\": {");
  }

  lemma MimoReadable()
    ensures ReadableForm(XIAOMI_MIMO)
  {
    hide AllSpace, Apart;
    PartAt("\"", "}\n</tool_call>", 0);
    PartAt(", ", "}\n</tool_call>", 0);
    Black(", ");
  }

  // ---- the forms of the grammars, chat.cpp ----

  const MINIMAX_M2_GRAMMAR := Form("<minimax:tool_call>\n", "<invoke name=\"", "\">\n", "<parameter name=\"", "\">",
                                   "</parameter>\n", "</invoke>\n", "</minimax:tool_call>", None, None, None, None, false)

  const QWEN3_CODER_GRAMMAR := Form("<tool_call>\n", "<function=", ">\n", "<parameter=", ">\n",
                                    "\n</parameter>\n", "</function>\n", "</tool_call>", None, None, None, None, false)

  const KIMI_K2_GRAMMAR := Form("<|tool_calls_section_begin|>", "<|tool_call_begin|>", "<|tool_call_argument_begin|>{", "\"", "\": ",
                                ", ", "}<|tool_call_end|>", "<|tool_calls_section_end|>", None, Some(false), Some(""), None, false)

  const XIAOMI_MIMO_GRAMMAR := Form("\n", "<tool_call>\n{\"name\": \"", "\", \"arguments\": {", "\"", "\": ",
                                    ", ", "}\n</tool_call>", "", None, Some(false), Some(""), None, false)

  const GLM_4_5_GRAMMAR := Form("", "\n<tool_call>", "\n", "<arg_key>", "</arg_key>\n<arg_value>",
                                "</arg_value>\n", "</tool_call>\n", "", None, None, None, None, false)

  /** The white space that a grammar's literals have beyond those of the parser. */
  datatype Pads = Pads(scope: string, call: string, name: string, sep: string, before: string, behind: string, val: string, end: string)

  ghost predicate Padded(g: Form, f: Form, p: Pads) {
    && g.scopeStart == SoughtText(f.scopeStart) + p.scope && g.toolStart == p.call + f.toolStart
    && g.toolSep == SoughtText(f.toolSep) + p.name && g.keyStart == f.keyStart
    && g.keyValSep == f.keyValSep + (SecondSep(f, p.sep) + p.before) && g.valEnd == p.behind + (f.valEnd + p.val)
    && g.toolEnd == f.toolEnd + p.end && g.scopeEnd == f.scopeEnd
    && g.lastValEnd == f.lastValEnd && g.lastToolEnd == f.lastToolEnd
    && (f.lastValEnd.Some? ==> f.lastValEnd.value == "")
  }

  /** A literal the parser looks for, and one that it leaves to the white space. */
  lemma Sought(s: string)
    requires s != "" && !IsSpace(s[0])
    ensures SoughtText(s) == s
  {
    Black(s);
  }

  lemma SoughtNothing()
    ensures SoughtText("") == ""
  {
  }

  lemma MinimaxPads()
    ensures Padded(MINIMAX_M2_GRAMMAR, MINIMAX_M2, Pads("\n", "", "\n", "", "", "", "\n", "\n"))
  {
    hide SoughtText;
    Sought("<minimax:tool_call>");
    Sought("\">");
  }

  lemma QwenPads()
    ensures Padded(QWEN3_CODER_GRAMMAR, QWEN3_CODER, Pads("\n", "", "\n", "", "\n", "\n", "\n", "\n"))
  {
    hide SoughtText, SecondSep;
    Sought("<tool_call>");
    Sought(">");
    QwenLiterals();
  }

  lemma QwenLiterals()
    ensures QWEN3_CODER_GRAMMAR.valEnd == "\n" + (QWEN3_CODER.valEnd + "\n")
    ensures QWEN3_CODER_GRAMMAR.keyValSep == QWEN3_CODER.keyValSep + (SecondSep(QWEN3_CODER, "") + "\n")
  {
  }

  lemma KimiPads()
    ensures Padded(KIMI_K2_GRAMMAR, KIMI_K2, Pads("", "", "", "", " ", "", " ", ""))
  {
    hide SoughtText;
    Sought("<|tool_calls_section_begin|>");
    Sought("<|tool_call_argument_begin|>{");
  }

  /** One form serves for both. */
  lemma AprielPads()
    ensures Padded(APRIEL_1_5, APRIEL_1_5, Pads("", "", "", "", "", "", "", ""))
  {
    hide SoughtText;
    Sought("<tool_calls>[");
    Sought("\", \"arguments\": {");
  }

  lemma MimoPads()
    ensures Padded(XIAOMI_MIMO_GRAMMAR, XIAOMI_MIMO, Pads("\n", "", "", "", "", "", "", ""))
  {
    hide SoughtText;
    SoughtNothing();
    Sought("\", \"arguments\": {");
  }

  lemma GlmPads()
    ensures Padded(GLM_4_5_GRAMMAR, GLM_4_5, Pads("", "\n", "\n", "\n", "", "", "\n", "\n"))
  {
    hide SoughtText, SecondSep;
    SoughtNothing();
    GlmSeparator();
  }

  lemma GlmSeparator()
    ensures GLM_4_5_GRAMMAR.keyValSep == GLM_4_5.keyValSep + (SecondSep(GLM_4_5, "\n") + "")
  {
    assert "</arg_key>" + "\n" == "</arg_key>\n";
  }

  /** The two forms of a format differ by white space only. */
  lemma ShippedPads()
    ensures Padded(MINIMAX_M2_GRAMMAR, MINIMAX_M2, Pads("\n", "", "\n", "", "", "", "\n", "\n"))
    ensures Padded(QWEN3_CODER_GRAMMAR, QWEN3_CODER, Pads("\n", "", "\n", "", "\n", "\n", "\n", "\n"))
    ensures Padded(KIMI_K2_GRAMMAR, KIMI_K2, Pads("", "", "", "", " ", "", " ", ""))
    ensures Padded(APRIEL_1_5, APRIEL_1_5, Pads("", "", "", "", "", "", "", ""))
    ensures Padded(XIAOMI_MIMO_GRAMMAR, XIAOMI_MIMO, Pads("\n", "", "", "", "", "", "", ""))
    ensures Padded(GLM_4_5_GRAMMAR, GLM_4_5, Pads("", "\n", "\n", "\n", "", "", "\n", "\n"))
  {
    hide Padded;
    MinimaxPads();
    QwenPads();
    KimiPads();
    AprielPads();
    MimoPads();
    GlmPads();
  }

  // ---- what the grammar lets a model write ----

  /** An argument: key, value, and what the value is as JSON if it is that. */
  datatype Arg = Arg(key: string, value: string, json: Option<(Json, nat)>)

  datatype Said = Said(name: string, args: seq<Arg>)

  function ArgText(g: Form, a: Arg): string {
    g.keyStart + (a.key + (g.keyValSep + a.value))
  }

  function ArgTexts(g: Form, args: seq<Arg>): seq<string> {
    if args == [] then [] else [ArgText(g, args[0])] + ArgTexts(g, args[1..])
  }

  /** The arguments as the chain of rules renders them. */
  function ArgsText(g: Form, args: seq<Arg>): string {
    ArgumentChain.Rendered(ArgTexts(g, args), g.valEnd, ArgumentChain.LastOf(g.valEnd, g.lastValEnd))
  }

  function CallText(g: Form, c: Said): string {
    g.toolStart + (c.name + (g.toolSep + ArgsText(g, c.args)))
  }

  function CallTexts(g: Form, calls: seq<Said>): seq<string> {
    if calls == [] then [] else [CallText(g, calls[0])] + CallTexts(g, calls[1..])
  }

  /** The root rule: calls with `tool_end` between them and the last end behind, in the scope. */
  function GrammarText(g: Form, calls: seq<Said>): string
  {
    g.scopeStart + (ArgumentChain.Rendered(CallTexts(g, calls), g.toolEnd, ArgumentChain.LastOf(g.toolEnd, g.lastToolEnd)) + g.scopeEnd)
  }

  /** What the chain renders, one text at a time. */
  lemma RenderedFirst(text: string, texts: seq<string>, valEnd: string, last: string, rest: string)
    ensures ArgumentChain.Rendered([text] + texts, valEnd, last) + rest
            == text + ((if texts == [] then last else valEnd) + (ArgumentChain.Rendered(texts, valEnd, last) + rest))
  {
    ArgumentChain.RenderedCons(text, texts, valEnd, last);
    var r := ArgumentChain.Rendered(texts, valEnd, last);
    if texts == [] {
      assert r == "" && r + rest == rest;
      assert (text + last) + rest == text + (last + rest);
    } else {
      assert (text + (valEnd + r)) + rest == text + (valEnd + (r + rest));
    }
  }

  // ---- the same text, as the parser's form divides it ----

  function ItemsOf(f: Form, p: Pads, args: seq<Arg>, gap: string): seq<Item>
    decreases |args|
  {
    if args == [] then []
    else
      var a := args[0];
      var closed := !(|args| == 1 && f.lastValEnd.Some?);
      [Item(gap, a.key, p.sep, p.before + (a.value + if closed then p.behind else ""), a.json)] + ItemsOf(f, p, args[1..], p.val)
  }

  function GapBehind(f: Form, p: Pads, args: seq<Arg>, gap: string): string {
    if args == [] then gap else if f.lastValEnd.Some? then "" else p.val
  }

  /** A separator of white space counts to the name. */
  function CallOf(f: Form, p: Pads, c: Said, gap: string): Call {
    var inner := if AllSpace(f.toolSep) then "" else p.name;
    Call(gap + p.call, if AllSpace(f.toolSep) then c.name + p.name else c.name, ItemsOf(f, p, c.args, inner), GapBehind(f, p, c.args, inner))
  }

  function CallsOf(f: Form, p: Pads, calls: seq<Said>, gap: string): seq<Call>
    decreases |calls|
  {
    if calls == [] then [] else [CallOf(f, p, calls[0], gap)] + CallsOf(f, p, calls[1..], p.end)
  }

  function GapAtEnd(f: Form, p: Pads, calls: seq<Said>): string {
    if calls == [] then p.scope else if f.lastToolEnd.Some? then "" else p.end
  }

  lemma {:induction false} SameArgs(g: Form, f: Form, p: Pads, args: seq<Arg>, gap: string, rest: string)
    requires Padded(g, f, p)
    ensures gap + (ArgsText(g, args) + rest) == ItemsThen(f, ItemsOf(f, p, args, gap), GapBehind(f, p, args, gap) + rest)
    decreases |args|
  {
    hide ArgumentChain.Rendered, Padded, ArgText, ItemsThen, SecondSep;
    if args == [] {
      NoArgsText(g, rest);
      NoItemsThen(f, gap + rest);
    } else {
      var a, tail := args[0], args[1..];
      var closed := !(|args| == 1 && f.lastValEnd.Some?);
      var last := ArgumentChain.LastOf(g.valEnd, g.lastValEnd);
      TextsLength(g, tail);
      RenderedFirst(ArgText(g, a), ArgTexts(g, tail), g.valEnd, last, rest);
      var close := if tail == [] then last else g.valEnd;
      var items := ItemsOf(f, p, args, gap);
      var it := items[0];
      ItemsLength(f, p, tail, p.val);
      var more := GapBehind(f, p, args, gap) + rest;
      assert items[1..] == ItemsOf(f, p, tail, p.val);
      ItemsThenCons(f, items, more);
      if closed {
        SameArgs(g, f, p, tail, p.val, rest);
        OneClosed(g, f, p, a, gap, ArgsText(g, tail) + rest, ItemsThen(f, items[1..], more));
        LastClosed(g, f, p, |args| == 1);
        assert GapBehind(f, p, args, gap) == GapBehind(f, p, tail, p.val);
      } else {
        NoArgsText(g, rest);
        NoItemsThen(f, more);
        OneOpen(g, f, p, a, gap, rest);
      }
    }
  }

  lemma NoArgsText(g: Form, rest: string)
    ensures ArgsText(g, []) + rest == rest
  {
  }

  lemma {:induction false} NoItemsThen(f: Form, rest: string)
    ensures ItemsThen(f, [], rest) == rest
  {
  }

  lemma {:induction false} TextsLength(g: Form, args: seq<Arg>)
    ensures |ArgTexts(g, args)| == |args|
  {
    if args != [] {
      TextsLength(g, args[1..]);
    }
  }

  lemma {:induction false} ItemsLength(f: Form, p: Pads, args: seq<Arg>, gap: string)
    ensures |ItemsOf(f, p, args, gap)| == |args|
    decreases |args|
  {
    if args != [] {
      ItemsLength(f, p, args[1..], p.val);
    }
  }

  lemma LastClosed(g: Form, f: Form, p: Pads, one: bool)
    requires Padded(g, f, p) && !(one && f.lastValEnd.Some?)
    ensures (if one then ArgumentChain.LastOf(g.valEnd, g.lastValEnd) else g.valEnd) == g.valEnd && ValEnd(f, one) == f.valEnd
  {
  }

  /** One argument that `val_end` closes. */
  lemma OneClosed(g: Form, f: Form, p: Pads, a: Arg, gap: string, rest: string, more: string)
    requires Padded(g, f, p) && p.val + rest == more
    ensures gap + (ArgText(g, a) + (g.valEnd + rest))
            == gap + (f.keyStart + (a.key + (f.keyValSep + (SecondSep(f, p.sep)
               + ((p.before + (a.value + p.behind)) + (f.valEnd + more))))))
  {
    hide SecondSep;
    var s := SecondSep(f, p.sep);
    KeyAndValue(f.keyStart, a.key, f.keyValSep, s, p.before, a.value, g.valEnd + rest);
    ValueAndEnd(p.before, a.value, p.behind, f.valEnd, p.val, rest);
  }

  lemma OneOpen(g: Form, f: Form, p: Pads, a: Arg, gap: string, rest: string)
    requires Padded(g, f, p) && f.lastValEnd.Some?
    ensures gap + (ArgText(g, a) + (ArgumentChain.LastOf(g.valEnd, g.lastValEnd) + rest))
            == gap + (f.keyStart + (a.key + (f.keyValSep + (SecondSep(f, p.sep)
               + ((p.before + (a.value + "")) + (ValEnd(f, true) + ("" + rest)))))))
  {
    hide SecondSep;
    var s := SecondSep(f, p.sep);
    assert "" + rest == rest && a.value + "" == a.value;
    KeyAndValue(f.keyStart, a.key, f.keyValSep, s, p.before, a.value, rest);
    assert p.before + (a.value + rest) == (p.before + a.value) + rest;
  }

  lemma KeyAndValue(a: string, k: string, sep: string, s: string, b: string, v: string, rest: string)
    ensures (a + (k + ((sep + (s + b)) + v))) + rest == a + (k + (sep + (s + (b + (v + rest)))))
  {
    assert (sep + (s + b)) + v == sep + (s + (b + v));
    assert (a + (k + (sep + (s + (b + v))))) + rest == a + (k + (sep + (s + (b + (v + rest)))));
  }

  lemma ValueAndEnd(b: string, v: string, e: string, end: string, gap: string, rest: string)
    ensures b + (v + ((e + (end + gap)) + rest)) == (b + (v + e)) + (end + (gap + rest))
  {
    assert (e + (end + gap)) + rest == e + (end + (gap + rest));
    assert b + (v + (e + (end + (gap + rest)))) == (b + (v + e)) + (end + (gap + rest));
  }

  /** One call with what follows it. */
  lemma SameCall(g: Form, f: Form, p: Pads, c: Said, gap: string, last: bool, rest: string)
    requires Padded(g, f, p)
    ensures gap + (CallText(g, c) + (CallEnd(g, last) + rest))
            == CallThen(f, CallOf(f, p, c, gap), last, (if last && f.lastToolEnd.Some? then "" else p.end) + rest)
  {
    hide ArgsText, ItemsThen, ItemsOf, GapBehind, Padded;
    var inner := if AllSpace(f.toolSep) then "" else p.name;
    var end := CallEnd(f, last);
    var tail := (if last && f.lastToolEnd.Some? then "" else p.end) + rest;
    EndPadded(g, f, p, last, rest);
    SameArgs(g, f, p, c.args, inner, end + tail);
    NamePadded(g, f, p);
    var args := ArgsText(g, c.args);
    var text := if AllSpace(f.toolSep) then c.name + p.name else c.name;
    NameAndArgs(gap, p.call, f.toolStart, c.name, g.toolSep, args, end + tail);
    if AllSpace(f.toolSep) {
      assert c.name + (p.name + (args + (end + tail))) == (c.name + p.name) + ("" + ("" + (args + (end + tail))));
    } else {
      assert c.name + ((f.toolSep + p.name) + (args + (end + tail))) == c.name + (f.toolSep + (p.name + (args + (end + tail))));
    }
  }

  lemma NamePadded(g: Form, f: Form, p: Pads)
    requires Padded(g, f, p)
    ensures g.toolStart == p.call + f.toolStart
    ensures if AllSpace(f.toolSep) then SoughtText(f.toolSep) == "" && g.toolSep == p.name
            else SoughtText(f.toolSep) == f.toolSep && g.toolSep == f.toolSep + p.name
  {
  }

  lemma EndPadded(g: Form, f: Form, p: Pads, last: bool, rest: string)
    requires Padded(g, f, p)
    ensures CallEnd(g, last) + rest == CallEnd(f, last) + ((if last && f.lastToolEnd.Some? then "" else p.end) + rest)
  {
    if last && f.lastToolEnd.Some? {
      assert "" + rest == rest;
    }
  }

  lemma NameAndArgs(gap: string, pad: string, start: string, name: string, sep: string, args: string, tail: string)
    ensures gap + (((pad + start) + (name + (sep + args))) + tail) == (gap + pad) + (start + (name + (sep + (args + tail))))
  {
    assert ((pad + start) + (name + (sep + args))) + tail == pad + (start + (name + (sep + (args + tail))));
    assert gap + (pad + (start + (name + (sep + (args + tail))))) == (gap + pad) + (start + (name + (sep + (args + tail))));
  }

  /** All calls. */
  lemma {:induction false} SameCalls(g: Form, f: Form, p: Pads, calls: seq<Said>, gap: string, rest: string)
    requires Padded(g, f, p)
    ensures gap + (ArgumentChain.Rendered(CallTexts(g, calls), g.toolEnd, ArgumentChain.LastOf(g.toolEnd, g.lastToolEnd)) + rest)
            == CallsThen(f, CallsOf(f, p, calls, gap), (if calls == [] then gap else GapAtEnd(f, p, calls)) + rest)
    decreases |calls|
  {
    hide ArgumentChain.Rendered, Padded, CallText, CallThen, CallOf, CallsThen;
    var end := ArgumentChain.LastOf(g.toolEnd, g.lastToolEnd);
    if calls == [] {
      NoCallTexts(g, end, rest);
      NoCallsThen(f, gap + rest);
    } else {
      var c, tail, last := calls[0], calls[1..], |calls| == 1;
      var texts := ArgumentChain.Rendered(CallTexts(g, tail), g.toolEnd, end);
      CallTextsLength(g, tail);
      RenderedFirst(CallText(g, c), CallTexts(g, tail), g.toolEnd, end, rest);
      EndOfCalls(g, last);
      var special := last && f.lastToolEnd.Some?;
      SameCall(g, f, p, c, gap, last, texts + rest);
      CallsLength(f, p, tail, p.end);
      var all := CallsOf(f, p, calls, gap);
      assert all[0] == CallOf(f, p, c, gap) && all[1..] == CallsOf(f, p, tail, p.end);
      CallsThenCons(f, all, GapAtEnd(f, p, calls) + rest);
      if special {
        NoCallTexts(g, end, rest);
        NoCallsThen(f, "" + rest);
      } else {
        SameCalls(g, f, p, tail, p.end, rest);
        assert GapAtEnd(f, p, calls) == if tail == [] then p.end else GapAtEnd(f, p, tail);
      }
    }
  }

  lemma {:induction false} NoCallTexts(g: Form, end: string, rest: string)
    ensures ArgumentChain.Rendered(CallTexts(g, []), g.toolEnd, end) + rest == rest
  {
  }

  lemma EndOfCalls(g: Form, last: bool)
    ensures (if last then ArgumentChain.LastOf(g.toolEnd, g.lastToolEnd) else g.toolEnd) == CallEnd(g, last)
  {
  }

  lemma {:induction false} CallTextsLength(g: Form, calls: seq<Said>)
    ensures |CallTexts(g, calls)| == |calls|
  {
    if calls != [] {
      CallTextsLength(g, calls[1..]);
    }
  }

  lemma {:induction false} CallsLength(f: Form, p: Pads, calls: seq<Said>, gap: string)
    ensures |CallsOf(f, p, calls, gap)| == |calls|
    decreases |calls|
  {
    if calls != [] {
      CallsLength(f, p, calls[1..], p.end);
    }
  }

  /** White space at the end, when the scope has no end of its own, is left to what follows. */
  function GapInside(f: Form, p: Pads, calls: seq<Said>): string {
    if f.scopeEnd == "" then "" else GapAtEnd(f, p, calls)
  }

  function LeftBehind(f: Form, p: Pads, calls: seq<Said>): string {
    if f.scopeEnd == "" then GapAtEnd(f, p, calls) else ""
  }

  /** The text of the grammar is one that the parser's form writes. */
  lemma {:induction false} GrammarTextIsWritten(g: Form, f: Form, p: Pads, calls: seq<Said>, after: string)
    requires Padded(g, f, p)
    ensures GrammarText(g, calls) + after
            == Written(f, CallsOf(f, p, calls, p.scope), GapInside(f, p, calls), LeftBehind(f, p, calls) + after)
  {
    hide ArgumentChain.Rendered, CallTexts, CallsOf, CallsThen;
    var calls' := CallsOf(f, p, calls, p.scope);
    var texts := ArgumentChain.Rendered(CallTexts(g, calls), g.toolEnd, ArgumentChain.LastOf(g.toolEnd, g.lastToolEnd));
    SameCalls(g, f, p, calls, p.scope, g.scopeEnd + after);
    var s := SoughtText(f.scopeStart);
    assert ((s + p.scope) + (texts + g.scopeEnd)) + after == s + (p.scope + (texts + (g.scopeEnd + after)));
    if f.scopeEnd == "" {
      var gap := GapAtEnd(f, p, calls);
      assert gap + ("" + after) == "" + ("" + (gap + after));
    } else {
      assert "" + after == after;
    }
  }

  /**
   What a format's grammar lets a model write, its parser reads back: with names and values that are
   clean for the form, the calls are found one by one, wherever the text stands.
   */
  lemma {:induction false} GrammarTextIsRead(before: string, after: string, isPartial: bool, g: Form, f: Form, p: Pads, o: Oracle, kimi: bool, calls: seq<Said>)
    requires Padded(g, f, p) && ReadableForm(f) && o.Valid()
    requires CleanCalls(f, o, kimi, CallsOf(f, p, calls, p.scope))
    requires CleanEnd(f, isPartial, GapInside(f, p, calls), LeftBehind(f, p, calls) + after)
    ensures var calls' := CallsOf(f, p, calls, p.scope);
            && |calls'| == |calls| && (forall i :: 0 <= i < |calls| ==> Sends(f, o, kimi, calls'[i]))
            && var input := before + (GrammarText(g, calls) + after);
               && f.Valid() && |before| <= |input| - |LeftBehind(f, p, calls) + after|
               && AllFrom(input, isPartial, f, o, kimi, |before|)
                  == Some((AllSent(f, o, kimi, calls'), |input| - |LeftBehind(f, p, calls) + after|))
  {
    hide ReadableForm, Padded, CleanCalls, CleanEnd, CallsOf, GapInside, LeftBehind, Written, GrammarText, AllFrom, AllSent, Sends;
    CallsLength(f, p, calls, p.scope);
    GrammarTextIsWritten(g, f, p, calls, after);
    ReadsWritten(before, LeftBehind(f, p, calls) + after, isPartial, f, o, kimi, CallsOf(f, p, calls, p.scope), GapInside(f, p, calls));
  }

  // ---- calls that are clean ----

  /** No alternatives, and literals of their own around names and calls: MiniMax-M2, Qwen3-Coder and Seed-OSS. */
  predicate MarkedUp(f: Form) {
    f.lastValEnd.None? && f.lastToolEnd.None? && !AllSpace(f.toolSep) && StartsBlack(f.valEnd) && f.scopeEnd != ""
  }

  lemma MarkupForms()
    ensures MarkedUp(MINIMAX_M2) && MarkedUp(QWEN3_CODER) && MarkedUp(SEED_OSS)
  {
    hide AllSpace;
    Black("\">");
    Black(">");
  }

  predicate PadsAreSpace(p: Pads) {
    && AllSpace(p.scope) && AllSpace(p.call) && AllSpace(p.name) && AllSpace(p.sep)
    && AllSpace(p.before) && AllSpace(p.behind) && AllSpace(p.val) && AllSpace(p.end)
  }

  /** The key and the text of the value lack the first character of what closes them. */
  ghost predicate PlainArg(f: Form, o: Oracle, p: Pads, a: Arg)
    requires f.Valid()
  {
    && a.json.None? && f.keyValSep[0] !in a.key && f.valEnd[0] !in a.value
    && Understood(f, o, Item("", "", "", p.before + (a.value + p.behind), None), f.valEnd)
  }

  ghost predicate PlainSaid(f: Form, o: Oracle, p: Pads, c: Said)
    requires f.Valid() && f.toolSep != ""
  {
    && Strip(c.name) != "" && f.toolSep[0] !in c.name && f.toolEnd[0] !in c.name
    && (forall i :: 0 <= i < |c.args| ==> PlainArg(f, o, p, c.args[i]))
    && o.dump(ArgsOf(f, ItemsOf(f, p, c.args, p.name))).Some?
  }

  lemma WithoutFirst(text: string, literal: string)
    requires literal != "" && literal[0] !in text
    ensures EndsFirst(text, literal) && NotIn(text, literal)
  {
    var t := text + literal;
    assert t[|text|..|text| + |literal|] == literal;
    assert OccursAt(t, literal, |text|);
    forall i: nat | i < |text|
      ensures !OccursAt(t, literal, i) && !OccursAt(text, literal, i)
    {
      NoStart(text, t, literal, i);
    }
    assert !OccursAt(text, literal, |text|);
  }

  lemma NoStart(text: string, t: string, literal: string, i: nat)
    requires literal != "" && literal[0] !in text && t == text + literal && i < |text|
    ensures !OccursAt(t, literal, i) && !OccursAt(text, literal, i)
  {
    assert text[i] in text && t[i] == text[i];
    assert i + |literal| <= |t| ==> t[i..i + |literal|][0] == t[i];
    assert i + |literal| <= |text| ==> text[i..i + |literal|][0] == text[i];
  }

  /** White space does not bring in a character that is not white space. */
  lemma PaddedWithout(before: string, value: string, behind: string, c: char)
    requires AllSpace(before) && AllSpace(behind) && !IsSpace(c) && c !in value
    ensures c !in before + (value + behind)
  {
  }

  lemma {:induction false} PlainItems(f: Form, o: Oracle, p: Pads, args: seq<Arg>, gap: string, i: nat, last: bool, callEnd: string)
    requires ReadableForm(f) && MarkedUp(f) && PadsAreSpace(p) && AllSpace(gap)
    requires forall k :: 0 <= k < |args| ==> PlainArg(f, o, p, args[k])
    requires i < |ItemsOf(f, p, args, gap)|
    ensures CleanItem(f, o, ItemsOf(f, p, args, gap)[i], last, callEnd)
    decreases |args|
  {
    hide EndsFirst, Understood, AllSpace;
    if i == 0 {
      var a := args[0];
      assert PlainArg(f, o, p, a);
      var it := ItemsOf(f, p, args, gap)[0];
      PaddedWithout(p.before, a.value, p.behind, f.valEnd[0]);
      WithoutFirst(a.key, f.keyValSep);
      WithoutFirst(it.raw, f.valEnd);
      SameUnderstood(f, o, it, Item("", "", "", it.raw, None), f.valEnd);
    } else {
      forall k | 0 <= k < |args[1..]|
        ensures PlainArg(f, o, p, args[1..][k])
      {
        assert PlainArg(f, o, p, args[k + 1]);
      }
      PlainItems(f, o, p, args[1..], p.val, i - 1, last, callEnd);
    }
  }

  lemma SameUnderstood(f: Form, o: Oracle, a: Item, b: Item, follow: string)
    requires a.raw == b.raw && a.json == b.json
    ensures Understood(f, o, a, follow) <==> Understood(f, o, b, follow)
  {
  }

  lemma PlainCall(f: Form, o: Oracle, p: Pads, c: Said, gap: string, last: bool)
    requires ReadableForm(f) && MarkedUp(f) && PadsAreSpace(p) && AllSpace(gap) && PlainSaid(f, o, p, c)
    ensures CleanCall(f, o, false, CallOf(f, p, c, gap), last)
  {
    var call := CallOf(f, p, c, gap);
    hide EndsFirst, NotIn, PlainArg, ItemsOf, Strip, CleanItem, ReadableForm;
    FormIsValid(f);
    WithoutFirst(c.name, f.toolSep);
    WithoutFirst(c.name, f.toolEnd);
    forall i | 0 <= i < |call.items|
      ensures CleanItem(f, o, call.items[i], i == |call.items| - 1, CallEnd(f, last))
    {
      PlainItems(f, o, p, c.args, p.name, i, i == |call.items| - 1, CallEnd(f, last));
    }
  }

  lemma {:induction false} PlainCalls(f: Form, o: Oracle, p: Pads, calls: seq<Said>, gap: string, i: nat, last: bool)
    requires ReadableForm(f) && MarkedUp(f) && PadsAreSpace(p) && AllSpace(gap)
    requires f.Valid() && forall k :: 0 <= k < |calls| ==> PlainSaid(f, o, p, calls[k])
    requires i < |CallsOf(f, p, calls, gap)|
    ensures CleanCall(f, o, false, CallsOf(f, p, calls, gap)[i], last)
    decreases |calls|
  {
    hide PlainSaid, CleanCall, CallOf, AllSpace, ReadableForm;
    if i == 0 {
      PlainCall(f, o, p, calls[0], gap, last);
    } else {
      PlainCalls(f, o, p, calls[1..], p.end, i - 1, last);
    }
  }

  /**
   In a form with markup all calls are clean whose names, keys and texts lack the first characters of
   the literals that close them, whatever follows the calls.
   */
  lemma {:induction false} PlainIsClean(f: Form, o: Oracle, p: Pads, calls: seq<Said>, after: string)
    requires ReadableForm(f) && MarkedUp(f) && PadsAreSpace(p)
    requires f.Valid() && forall k :: 0 <= k < |calls| ==> PlainSaid(f, o, p, calls[k])
    ensures CleanCalls(f, o, false, CallsOf(f, p, calls, p.scope))
    ensures forall isPartial :: CleanEnd(f, isPartial, GapInside(f, p, calls), LeftBehind(f, p, calls) + after)
  {
    hide PlainSaid, CleanCall, CallsOf, AllSpace, ReadableForm;
    var all := CallsOf(f, p, calls, p.scope);
    forall i | 0 <= i < |all|
      ensures CleanCall(f, o, false, all[i], i == |all| - 1)
    {
      PlainCalls(f, o, p, calls, p.scope, i, i == |all| - 1);
    }
  }
}
