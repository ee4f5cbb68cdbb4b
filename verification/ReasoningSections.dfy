/**
 What is parsed from output that is written as it should be, chat-parser.cpp:262-390: any number of
 sections of reasoning, and then content, white space, a start tag that is cut off or a section that is
 still open. Reasoning goes to its own part of the message, or with its tags into the content.
 */
module ReasoningSections {
  import opened CommonStrings
  import opened ReasoningModel

  /** A further section, with the white space in front of its start tag. */
  datatype Section = Section(gap: string, text: string)

  datatype Ending =
    | Content(gap: string, content: string)
    | Nothing(gap: string)
    | CutTag(gap: string, n: nat)
    | Open(gap: string, text: string)

  // ---- what is written ----

  function EndText(cfg: Config, e: Ending): string {
    match e
    case Content(gap, content) => gap + content
    case Nothing(gap) => gap
    case CutTag(gap, n) => gap + if n <= |cfg.start| then cfg.start[..n] else ""
    case Open(gap, text) => gap + cfg.start + text
  }

  function After(cfg: Config, rest: seq<Section>, e: Ending): string {
    if rest == [] then EndText(cfg, e)
    else rest[0].gap + cfg.start + (rest[0].text + cfg.end + After(cfg, rest[1..], e))
  }

  ghost predicate CleanEnding(cfg: Config, e: Ending) {
    AllSpaces(e.gap)
    && match e
       case Content(_, content) => content != "" && !IsSpace(content[0]) && !TagAt(cfg, content, 0)
       case Nothing(_) => true
       case CutTag(_, n) => 0 < n < |cfg.start|
       case Open(_, text) => FindFrom(text, cfg.end, 0).None?
  }

  ghost predicate CleanSections(cfg: Config, rest: seq<Section>) {
    forall i :: 0 <= i < |rest| ==> AllSpaces(rest[i].gap) && FitsSection(cfg, rest[i].text)
  }

  ghost predicate Ready(cfg: Config) {
    cfg.Valid() && !IsSpace(cfg.start[0])
  }

  // ---- what comes of it ----

  /** A closed section: its text without white space around it, if there is any. */
  function Added(cfg: Config, prefix: string, text: string): Msg {
    if Strip(text) == "" then Msg("", "")
    else if cfg.inContent then
      if cfg.format == FormatDeepseek then Msg("<think>" + Strip(text) + "</think>", "")
      else Msg(cfg.start + Strip(text) + cfg.end, "")
    else Msg("", prefix + Strip(text))
  }

  /** How much of an open section is shown: all but what may be the beginning of the end tag. */
  function Shown(cfg: Config, text: string): string {
    match PartialStop(text, cfg.end)
    case Some(i) => if i <= |text| then text[..i] else text
    case None => text
  }

  /** An open section: in a final input it is closed, unless its end tag was begun. */
  function AddedOpen(cfg: Config, prefix: string, text: string, partial: bool): Msg {
    var shown := Strip(Shown(cfg, text));
    if shown == "" then Msg("", "")
    else if cfg.inContent then
      var closed := !partial && PartialStop(text, cfg.end).None?;
      if cfg.format == FormatDeepseek then Msg("<think>" + shown + if closed then "</think>" else "", "")
      else Msg(cfg.start + shown + if closed then cfg.end else "", "")
    else Msg("", prefix + shown)
  }

  /** With reasoning forced open the start tag that stands there is kept, unless reasoning goes into the content. */
  function Kept(cfg: Config): string {
    if cfg.forcedOpen && !cfg.inContent then cfg.start else ""
  }

  function EndMsg(cfg: Config, e: Ending, partial: bool): Msg {
    match e
    case Content(_, content) => Msg(content, "")
    case Open(_, text) => AddedOpen(cfg, Kept(cfg), text, partial)
    case _ => Msg("", "")
  }

  function AfterMsg(cfg: Config, rest: seq<Section>, e: Ending, partial: bool): Msg {
    if rest == [] then EndMsg(cfg, e, partial)
    else Added(cfg, Kept(cfg), rest[0].text).Plus(AfterMsg(cfg, rest[1..], e, partial))
  }

  // ---- one section ----

  /** The input from `pos` on. */
  ghost predicate At(input: string, pos: nat, t: string) {
    pos <= |input| && input[pos..] == t
  }

  lemma Ahead(input: string, pos: nat, a: string, b: string)
    requires At(input, pos, a + b)
    ensures pos + |a| <= |input| && input[pos..pos + |a|] == a && At(input, pos + |a|, b)
  {
    var t := input[pos..];
    assert t[..|a|] == a && t[|a|..] == b;
    assert t[..|a|] == input[pos..pos + |a|] && t[|a|..] == input[pos + |a|..];
  }

  lemma HandleIsAdded(cfg: Config, pending: string, text: string)
    ensures Handle(cfg, pending, text, true).0 == Added(cfg, pending, text)
  {
    hide Strip;
  }

  lemma OpenIsAdded(cfg: Config, pending: string, text: string, partial: bool)
    ensures var closed := !partial && PartialStop(text, cfg.end).None?;
            Handle(cfg, pending, Shown(cfg, text), closed).0 == AddedOpen(cfg, pending, text, partial)
  {
    hide Strip, PartialStop;
    var shown := Strip(Shown(cfg, text));
    assert cfg.OpenTag() + shown + "" == cfg.OpenTag() + shown;
  }

  /** What is pending after a section makes no difference to the next one. */
  lemma NextPrefix(cfg: Config, input: string, pos: nat, pending: string, text: string)
    requires pos + |cfg.start| <= |input| && input[pos..pos + |cfg.start|] == cfg.start
    requires pending == "" || pending == Kept(cfg)
    ensures PrefixAt(cfg, input, pos, Handle(cfg, pending, text, true).1) == Kept(cfg)
  {
    hide Strip;
  }

  lemma {:induction false} EndFound(cfg: Config, input: string, pos: nat, text: string, rest: string)
    requires cfg.Valid() && FitsSection(cfg, text) && At(input, pos, text + cfg.end + rest)
    ensures pos < |input| && FindFrom(input, cfg.end, pos) == Some(pos + |text|)
    ensures input[pos..pos + |text|] == text && At(input, pos + |text| + |cfg.end|, rest)
  {
    var before := input[..pos];
    assert input == before + text + cfg.end + rest;
    FindEnd(cfg, before, text, rest, input);
    assert text + cfg.end + rest == text + (cfg.end + rest);
    Ahead(input, pos, text, cfg.end + rest);
    Ahead(input, pos + |text|, cfg.end, rest);
  }

  /** White space, and then something else or the end. */
  lemma {:induction false} GapSkipped(input: string, pos: nat, gap: string, rest: string)
    requires At(input, pos, gap + rest) && AllSpaces(gap) && (rest == "" || !IsSpace(rest[0]))
    ensures SkipSpaces(input, pos) == pos + |gap| <= |input| && At(input, pos + |gap|, rest)
  {
    Ahead(input, pos, gap, rest);
    var w := pos + |gap|;
    assert forall k :: pos <= k < w ==> input[k] == gap[k - pos];
    if rest == "" {
      SkipAll(input, pos);
    } else {
      assert input[w] == input[w..][0] == rest[0];
      SkipTo(input, pos, w);
    }
  }

  lemma {:induction false} SkipAll(input: string, pos: nat)
    requires pos <= |input| && forall k :: pos <= k < |input| ==> IsSpace(input[k])
    ensures SkipSpaces(input, pos) == |input|
    decreases |input| - pos
  {
    if pos < |input| {
      SkipAll(input, pos + 1);
    }
  }

  lemma TagThere(cfg: Config, input: string, pos: nat, t: string)
    requires At(input, pos, t)
    ensures TagAt(cfg, input, pos) <==> TagAt(cfg, t, 0)
    ensures cfg.start <= t ==> TagAt(cfg, t, 0) && pos + |cfg.start| <= |input| && input[pos..pos + |cfg.start|] == cfg.start
  {
    TagShifted(cfg, input, pos);
    if cfg.start <= t {
      assert t == cfg.start + t[|cfg.start|..];
      Ahead(input, pos, cfg.start, t[|cfg.start|..]);
      StartTagAt(cfg, input, pos);
    }
  }

  lemma CutTagThere(cfg: Config, n: nat)
    requires n <= |cfg.start|
    ensures TagAt(cfg, cfg.start[..n], 0)
  {
    assert cfg.start[..n][0..n] == cfg.start[..n];
  }

  // ---- from inside a section ----

  lemma {:induction false} OpenTail(cfg: Config, input: string, cursor: nat, pending: string, text: string, partial: bool)
    requires cfg.Valid() && At(input, cursor, text) && FindFrom(text, cfg.end, 0).None?
    ensures Tail(cfg, input, cursor, pending, partial) == AddedOpen(cfg, pending, text, partial)
  {
    hide Handle, SkipSpaces, TagAt, FindFrom, AddedOpen, PartialStop, Shown;
    OpenIsAdded(cfg, pending, text, partial);
    if text == "" {
      assert cursor == |input|;
      TailAtEnd(cfg, input, pending, partial);
      NothingOpen(cfg, pending, partial);
    } else {
      NotFoundFurther(input, cfg.end, cursor);
      ShownIs(cfg, input, cursor, text);
      var closed := !partial && PartialStop(text, cfg.end).None?;
      var now := Handle(cfg, pending, Shown(cfg, text), closed).0;
      assert Sections(cfg, input, cursor, pending, partial) == (now, |input|);
      assert input[|input|..] == "";
      PlusExtends(now, EMPTY);
    }
  }

  lemma NothingOpen(cfg: Config, pending: string, partial: bool)
    ensures AddedOpen(cfg, pending, "", partial) == EMPTY
  {
    assert Shown(cfg, "") == "";
  }

  lemma ShownIs(cfg: Config, input: string, cursor: nat, text: string)
    requires At(input, cursor, text)
    ensures var held := PartialStop(input[cursor..], cfg.end);
            var stop := if held.None? then |input| else cursor + held.value;
            cursor <= stop <= |input| && input[cursor..stop] == Shown(cfg, text)
  {
    var held := PartialStop(text, cfg.end);
    if held.Some? {
      assert input[cursor..cursor + held.value] == text[..held.value];
    }
  }

  lemma {:induction false} NotFoundFurther(input: string, literal: string, cursor: nat)
    requires cursor <= |input| && FindFrom(input[cursor..], literal, 0).None?
    ensures FindFrom(input, literal, cursor).None?
  {
    var r := FindFrom(input, literal, cursor);
    if r.Some? {
      OccursShifted(input, literal, cursor, r.value - cursor);
    }
  }

  lemma ContentTail(cfg: Config, input: string, cursor: nat, pending: string, text: string, gap: string, content: string, partial: bool)
    requires Ready(cfg) && FitsSection(cfg, text) && CleanEnding(cfg, Content(gap, content))
    requires At(input, cursor, text + cfg.end + (gap + content))
    ensures Tail(cfg, input, cursor, pending, partial) == Added(cfg, pending, text).Plus(Msg(content, ""))
  {
    hide Handle, FindFrom, SkipSpaces, TagAt, Sections, Tail, Added, PrefixAt, FitsSection;
    EndFound(cfg, input, cursor, text, gap + content);
    HandleIsAdded(cfg, pending, text);
    var stop := cursor + |text|;
    var c := stop + |cfg.end| + |gap|;
    GapSkipped(input, stop + |cfg.end|, gap, content);
    TagThere(cfg, input, c, content);
    TailContent(cfg, input, cursor, pending, partial, stop, c);
  }

  /** Nothing more, or a start tag that is cut off. */
  lemma LastTail(cfg: Config, input: string, cursor: nat, pending: string, text: string, gap: string, n: nat, partial: bool)
    requires Ready(cfg) && FitsSection(cfg, text) && AllSpaces(gap) && n < |cfg.start|
    requires At(input, cursor, text + cfg.end + (gap + cfg.start[..n]))
    ensures Tail(cfg, input, cursor, pending, partial) == Added(cfg, pending, text)
  {
    hide Handle, FindFrom, SkipSpaces, TagAt, Sections, Tail, Added, PrefixAt, FitsSection;
    EndFound(cfg, input, cursor, text, gap + cfg.start[..n]);
    HandleIsAdded(cfg, pending, text);
    var stop := cursor + |text|;
    var c := stop + |cfg.end| + |gap|;
    GapSkipped(input, stop + |cfg.end|, gap, cfg.start[..n]);
    CutTagThere(cfg, n);
    TagThere(cfg, input, c, cfg.start[..n]);
    TailLast(cfg, input, cursor, pending, partial, stop, c);
  }

  /** What the end of the output comes to, behind the last closed section. */
  lemma EndingTail(cfg: Config, input: string, cursor: nat, pending: string, text: string, e: Ending, partial: bool)
    requires Ready(cfg) && FitsSection(cfg, text) && CleanEnding(cfg, e) && (pending == "" || pending == Kept(cfg))
    requires At(input, cursor, text + cfg.end + EndText(cfg, e))
    ensures Tail(cfg, input, cursor, pending, partial) == Added(cfg, pending, text).Plus(EndMsg(cfg, e, partial))
  {
    hide Handle, FindFrom, SkipSpaces, TagAt, Sections, Tail, Added, AddedOpen, PrefixAt, FitsSection, At, Kept, Msg.Plus;
    PlusExtends(Added(cfg, pending, text), EMPTY);
    match e {
      case Content(gap, content) =>
        ContentTail(cfg, input, cursor, pending, text, gap, content, partial);
      case Nothing(gap) =>
        assert gap + cfg.start[..0] == gap;
        LastTail(cfg, input, cursor, pending, text, gap, 0, partial);
      case CutTag(gap, n) =>
        LastTail(cfg, input, cursor, pending, text, gap, n, partial);
      case Open(gap, open) =>
        assert gap + cfg.start + open == gap + (cfg.start + open);
        var next := NextTail(cfg, input, cursor, pending, text, gap, open, partial);
        OpenTail(cfg, input, next, Kept(cfg), open, partial);
    }
  }

  /** A further start tag: the parse goes on behind it. */
  lemma NextTail(cfg: Config, input: string, cursor: nat, pending: string, text: string, gap: string, rest: string, partial: bool)
    returns (next: nat)
    requires Ready(cfg) && FitsSection(cfg, text) && AllSpaces(gap) && (pending == "" || pending == Kept(cfg))
    requires At(input, cursor, text + cfg.end + (gap + (cfg.start + rest)))
    ensures At(input, next, rest)
    ensures Tail(cfg, input, cursor, pending, partial)
            == Added(cfg, pending, text).Plus(Tail(cfg, input, next, Kept(cfg), partial))
  {
    hide Handle, FindFrom, SkipSpaces, TagAt, Sections, Tail, Added, PrefixAt, FitsSection;
    EndFound(cfg, input, cursor, text, gap + (cfg.start + rest));
    HandleIsAdded(cfg, pending, text);
    var stop := cursor + |text|;
    var c := stop + |cfg.end| + |gap|;
    GapSkipped(input, stop + |cfg.end|, gap, cfg.start + rest);
    TagThere(cfg, input, c, cfg.start + rest);
    Ahead(input, c, cfg.start, rest);
    NextPrefix(cfg, input, c, pending, text);
    next := c + |cfg.start|;
    SomethingLeft(cfg, input, c, next);
    TailNext(cfg, input, cursor, pending, partial, stop, c);
  }

  lemma SomethingLeft(cfg: Config, input: string, c: nat, next: nat)
    requires cfg.Valid() && next == c + |cfg.start| <= |input|
    ensures c < |input| && |input| - c >= |cfg.start|
  {
  }

  /** From inside a section, over any number of further ones. */
  lemma {:induction false} SectionsTail(cfg: Config, input: string, cursor: nat, pending: string, text: string,
                                        rest: seq<Section>, e: Ending, partial: bool)
    requires Ready(cfg) && FitsSection(cfg, text) && CleanSections(cfg, rest) && CleanEnding(cfg, e)
    requires pending == "" || pending == Kept(cfg)
    requires At(input, cursor, text + cfg.end + After(cfg, rest, e))
    ensures Tail(cfg, input, cursor, pending, partial) == Added(cfg, pending, text).Plus(AfterMsg(cfg, rest, e, partial))
    decreases |rest|
  {
    hide Handle, FindFrom, SkipSpaces, TagAt, Sections, Tail, Added, AddedOpen, PrefixAt, FitsSection, EndMsg, EndText, Kept;
    if rest == [] {
      EndingTail(cfg, input, cursor, pending, text, e, partial);
    } else {
      var more := rest[0].text + cfg.end + After(cfg, rest[1..], e);
      assert rest[0].gap + cfg.start + more == rest[0].gap + (cfg.start + more);
      var next := NextTail(cfg, input, cursor, pending, text, rest[0].gap, more, partial);
      SectionsTail(cfg, input, next, Kept(cfg), rest[0].text, rest[1..], e, partial);
    }
  }

  // ---- the whole output ----

  lemma TagFirst(cfg: Config, white: string, rest: string, partial: bool)
    requires Ready(cfg) && cfg.format != FormatNone && AllSpaces(white)
    ensures var input := white + cfg.start + rest;
            && At(input, |white + cfg.start|, rest)
            && Parse(cfg, input, partial) == Msg(white, "").Plus(Tail(cfg, input, |white + cfg.start|, Kept(cfg), partial))
  {
    hide Sections, Tail, Parse, FindFrom, TagAt, SkipSpaces, Handle;
    var input := white + cfg.start + rest;
    assert input == white + (cfg.start + rest) && input[0..] == input;
    GapSkipped(input, 0, white, cfg.start + rest);
    TagThere(cfg, input, |white|, cfg.start + rest);
    Ahead(input, |white|, cfg.start, rest);
    ParseTag(cfg, input, partial);
    assert input[..|white|] == white;
    assert PrefixAt(cfg, input, |white|, "") == Kept(cfg);
  }

  /** Sections with their tags, after white space, which stays in the content. */
  lemma {:induction false} SectionsRecovered(cfg: Config, white: string, text: string, rest: seq<Section>, e: Ending, partial: bool)
    requires Ready(cfg) && cfg.format != FormatNone && AllSpaces(white)
    requires FitsSection(cfg, text) && CleanSections(cfg, rest) && CleanEnding(cfg, e)
    ensures Parse(cfg, white + cfg.start + (text + cfg.end + After(cfg, rest, e)), partial)
            == Msg(white, "").Plus(Added(cfg, Kept(cfg), text).Plus(AfterMsg(cfg, rest, e, partial)))
  {
    hide *;
    var tail := text + cfg.end + After(cfg, rest, e);
    TagFirst(cfg, white, tail, partial);
    SectionsTail(cfg, white + cfg.start + tail, |white + cfg.start|, Kept(cfg), text, rest, e, partial);
  }

  /** A first section that is still open. */
  lemma {:induction false} OpenRecovered(cfg: Config, white: string, text: string, partial: bool)
    requires Ready(cfg) && cfg.format != FormatNone && AllSpaces(white) && FindFrom(text, cfg.end, 0).None?
    ensures Parse(cfg, white + cfg.start + text, partial) == Msg(white, "").Plus(AddedOpen(cfg, Kept(cfg), text, partial))
  {
    hide Sections, Tail, Parse, FindFrom, TagAt, SkipSpaces, Handle, AddedOpen, Kept;
    TagFirst(cfg, white, text, partial);
    OpenTail(cfg, white + cfg.start + text, |white + cfg.start|, Kept(cfg), text, partial);
  }

  /** Reasoning that is forced open needs no start tag; white space in front of it is dropped. */
  lemma {:induction false} ForcedRecovered(cfg: Config, white: string, text: string, rest: seq<Section>, e: Ending, partial: bool)
    requires Ready(cfg) && cfg.format != FormatNone && cfg.forcedOpen && AllSpaces(white)
    requires text != "" && !IsSpace(text[0]) && FitsSection(cfg, text) && CleanSections(cfg, rest) && CleanEnding(cfg, e)
    requires !TagAt(cfg, text + cfg.end + After(cfg, rest, e), 0)
    ensures Parse(cfg, white + (text + cfg.end + After(cfg, rest, e)), partial)
            == Added(cfg, "", text).Plus(AfterMsg(cfg, rest, e, partial))
  {
    hide Sections, Tail, Parse, FindFrom, TagAt, SkipSpaces, Handle, Added, AfterMsg, After, FitsSection;
    var tail := text + cfg.end + After(cfg, rest, e);
    var input := white + tail;
    assert input[0..] == input && tail[0] == text[0];
    GapSkipped(input, 0, white, tail);
    TagThere(cfg, input, |white|, tail);
    ParseForced(cfg, input, partial);
    SectionsTail(cfg, input, |white|, "", text, rest, e, partial);
  }

  lemma {:induction false} ForcedOpenRecovered(cfg: Config, white: string, text: string, partial: bool)
    requires Ready(cfg) && cfg.format != FormatNone && cfg.forcedOpen && AllSpaces(white)
    requires text != "" && !IsSpace(text[0]) && FindFrom(text, cfg.end, 0).None? && !TagAt(cfg, text, 0)
    ensures Parse(cfg, white + text, partial) == AddedOpen(cfg, "", text, partial)
  {
    hide Sections, Tail, Parse, FindFrom, TagAt, SkipSpaces, Handle, AddedOpen;
    var input := white + text;
    assert input[0..] == input;
    GapSkipped(input, 0, white, text);
    TagThere(cfg, input, |white|, text);
    ParseForced(cfg, input, partial);
    OpenTail(cfg, input, |white|, "", text, partial);
  }

  /** Without a format, or without a tag where one may stand and none forced open, all of the output is content. */
  lemma NoReasoning(cfg: Config, white: string, content: string, partial: bool)
    requires Ready(cfg) && AllSpaces(white) && (content == "" || !IsSpace(content[0]))
    requires cfg.format == FormatNone || (!cfg.forcedOpen && (content == "" || !TagAt(cfg, content, 0)))
    ensures Parse(cfg, white + content, partial) == Msg(white + content, "")
  {
    hide Sections, Parse, TagAt, SkipSpaces, Handle;
    var input := white + content;
    assert input[0..] == input;
    GapSkipped(input, 0, white, content);
    TagThere(cfg, input, |white|, content);
    ParseBare(cfg, input, partial);
  }
}
