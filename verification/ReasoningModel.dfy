/**
 What the chat parser extracts from model output with the content-only format: reasoning between a
 start tag and an end tag, any number of times at the beginning, then content. The parser is run
 again on every longer prefix of the output, so what matters is how two runs relate.
 */
module ReasoningModel {
  import opened CommonStrings

  datatype Format = FormatNone | FormatAuto | FormatDeepseekLegacy | FormatDeepseek

  /** `common_chat_syntax`, with the tags of the format. */
  datatype Config = Config(format: Format, inContent: bool, forcedOpen: bool, start: string, end: string) {
    predicate Valid() {
      start != "" && end != ""
    }

    function OpenTag(): string {
      if format == FormatDeepseek then "<think>" else start
    }

    function CloseTag(): string {
      if format == FormatDeepseek then "</think>" else end
    }
  }

  /** The two parts of a message that this parser fills; also what one step adds to them. */
  datatype Msg = Msg(content: string, reasoning: string) {
    function Plus(that: Msg): Msg {
      Msg(content + that.content, reasoning + that.reasoning)
    }

    /** Both parts only grew. */
    predicate Extends(that: Msg) {
      that.content <= content && that.reasoning <= reasoning
    }
  }

  const EMPTY := Msg("", "")

  /** What a stretch of reasoning adds, and the pending prefix that remains. */
  function Handle(cfg: Config, pending: string, text: string, closed: bool): (Msg, string) {
    var stripped := Strip(text);
    if stripped == "" then (EMPTY, pending)
    else if cfg.inContent then
      (Msg(cfg.OpenTag() + stripped + (if closed then cfg.CloseTag() else ""), ""), pending)
    else
      (Msg("", pending + stripped), "")
  }

  /** The literal that opened a section is kept when the format forces reasoning open. */
  function PrefixAt(cfg: Config, input: string, pos: nat, pending: string): string {
    if !cfg.forcedOpen || cfg.inContent then pending
    else if pos + |cfg.start| > |input| then ""
    else input[pos..pos + |cfg.start|]
  }

  /** At `pos` the input agrees with the start tag as far as it goes. */
  predicate TagAt(cfg: Config, input: string, pos: nat)
    requires pos <= |input|
  {
    var n := if |cfg.start| <= |input| - pos then |cfg.start| else |input| - pos;
    input[pos..pos + n] == cfg.start[..n]
  }

  /** The loop over reasoning sections, from inside one: what it adds and where it stops reading. */
  function Sections(cfg: Config, input: string, cursor: nat, pending: string, partial: bool): (r: (Msg, nat))
    requires cfg.Valid() && cursor <= |input|
    ensures r.1 <= |input|
    decreases |input| - cursor
  {
    if cursor >= |input| then (EMPTY, |input|)
    else
      match FindFrom(input, cfg.end, cursor)
      case None =>
        var held := PartialStop(input[cursor..], cfg.end);
        var stop := if held.None? then |input| else cursor + held.value;
        (Handle(cfg, pending, input[cursor..stop], held.None? && !partial).0, |input|)
      case Some(e) =>
        var (added, pending') := Handle(cfg, pending, input[cursor..e], true);
        var c := SkipSpaces(input, e + |cfg.end|);
        if c == |input| then (added, c)
        else if TagAt(cfg, input, c) then
          if |input| - c < |cfg.start| then (added, |input|)
          else
            var (more, pos) := Sections(cfg, input, c + |cfg.start|, PrefixAt(cfg, input, c, pending'), partial);
            (added.Plus(more), pos)
        else (added, c)
  }

  /** `try_parse_reasoning` at position `from`: what it adds, where it stops, what it returns. */
  function Reasoning(cfg: Config, input: string, from: nat, partial: bool): (r: (Msg, nat, bool))
    requires cfg.Valid() && from <= |input|
    ensures r.1 <= |input|
  {
    if cfg.format == FormatNone then (EMPTY, from, false)
    else
      var w := SkipSpaces(input, from);
      if w >= |input| then
        if cfg.forcedOpen then (Handle(cfg, "", input[from..], !partial).0, |input|, true)
        else (EMPTY, from, false)
      else if TagAt(cfg, input, w) && |input| - w < |cfg.start| then (EMPTY, |input|, true)
      else if TagAt(cfg, input, w) then
        var (added, pos) := Sections(cfg, input, w + |cfg.start|, PrefixAt(cfg, input, w, ""), partial);
        (Msg(input[from..w], "").Plus(added), pos, true)
      else if cfg.forcedOpen then
        var (added, pos) := Sections(cfg, input, w, "", partial);
        (added, pos, true)
      else (EMPTY, from, false)
  }

  /** `common_chat_parse_content_only`: reasoning, and the rest of the input as content. */
  function Parse(cfg: Config, input: string, partial: bool): Msg
    requires cfg.Valid()
  {
    var (msg, pos, _) := Reasoning(cfg, input, 0, partial);
    msg.Plus(Msg(input[pos..], ""))
  }

  // ----- How the parses of a prefix and of a longer output relate

  /** Like `Sections`, with the rest of the input added as content. */
  function Tail(cfg: Config, input: string, cursor: nat, pending: string, partial: bool): Msg
    requires cfg.Valid() && cursor <= |input|
  {
    var (msg, pos) := Sections(cfg, input, cursor, pending, partial);
    msg.Plus(Msg(input[pos..], ""))
  }

  lemma PlusExtends(a: Msg, b: Msg)
    ensures a.Plus(b).Extends(a)
    ensures a.Plus(EMPTY) == a
  {
  }

  lemma ExtendsTransitive(a: Msg, b: Msg, c: Msg)
    requires b.Extends(a) && c.Extends(b)
    ensures c.Extends(a)
  {
  }

  lemma PlusMonotone(a: Msg, b: Msg, c: Msg)
    requires c.Extends(b)
    ensures a.Plus(c).Extends(a.Plus(b))
  {
  }

  lemma PlusAssociative(a: Msg, b: Msg, c: Msg)
    ensures a.Plus(b).Plus(c) == a.Plus(b.Plus(c))
  {
    assert (a.content + b.content) + c.content == a.content + (b.content + c.content);
    assert (a.reasoning + b.reasoning) + c.reasoning == a.reasoning + (b.reasoning + c.reasoning);
  }

  /** A stretch of reasoning that grows, and may get closed, only adds to the message. */
  lemma HandleMonotone(cfg: Config, pending: string, a: string, b: string, closed: bool)
    requires a <= b
    ensures Handle(cfg, pending, b, closed).0.Extends(Handle(cfg, pending, a, false).0)
  {
    StripMonotone(a, b);
    var s, t := Strip(a), Strip(b);
    if s != "" {
      assert cfg.OpenTag() + s <= cfg.OpenTag() + t + (if closed then cfg.CloseTag() else "");
      assert pending + s <= pending + t;
    }
  }

  lemma TagMonotone(cfg: Config, p: string, q: string, pos: nat)
    requires p <= q && pos <= |p|
    ensures TagAt(cfg, q, pos) ==> TagAt(cfg, p, pos)
    ensures |p| - pos >= |cfg.start| ==> (TagAt(cfg, p, pos) <==> TagAt(cfg, q, pos))
  {
    var n := if |cfg.start| <= |p| - pos then |cfg.start| else |p| - pos;
    var m := if |cfg.start| <= |q| - pos then |cfg.start| else |q| - pos;
    assert q[pos..pos + m][..n] == p[pos..pos + n];
    assert cfg.start[..m][..n] == cfg.start[..n];
  }

  // The five ways a section can go on from `cursor`, as equations.

  lemma TailAtEnd(cfg: Config, input: string, pending: string, partial: bool)
    requires cfg.Valid()
    ensures Tail(cfg, input, |input|, pending, partial) == EMPTY
  {
    hide Handle, FindFrom, PartialStop, SkipSpaces, TagAt;
    assert input[|input|..] == "";
  }

  /** Where the text shown so far of an unclosed section ends. */
  function ShownEnd(cfg: Config, input: string, cursor: nat): (r: nat)
    requires cursor <= |input|
    ensures cursor <= r <= |input|
  {
    match PartialStop(input[cursor..], cfg.end)
    case Some(i) => cursor + i
    case None => |input|
  }

  lemma {:induction false} TailOpen(cfg: Config, input: string, cursor: nat, pending: string, partial: bool)
    requires cfg.Valid() && cursor < |input| && FindFrom(input, cfg.end, cursor).None?
    ensures exists closed {:trigger Handle(cfg, pending, input[cursor..ShownEnd(cfg, input, cursor)], closed)} ::
              && (partial ==> !closed)
              && Tail(cfg, input, cursor, pending, partial)
                 == Handle(cfg, pending, input[cursor..ShownEnd(cfg, input, cursor)], closed).0
  {
    hide Handle, SkipSpaces, TagAt, FindFrom;
    var held := PartialStop(input[cursor..], cfg.end);
    var stop := ShownEnd(cfg, input, cursor);
    var closed := held.None? && !partial;
    var now := Handle(cfg, pending, input[cursor..stop], closed).0;
    assert Sections(cfg, input, cursor, pending, partial) == (now, |input|);
    assert input[|input|..] == "";
    PlusExtends(now, EMPTY);
  }

  /** A section closed at `e`, followed by white space up to `c`. */
  predicate ClosedAt(cfg: Config, input: string, cursor: nat, e: nat, c: nat)
    requires cursor <= |input|
  {
    && cursor < |input|
    && FindFrom(input, cfg.end, cursor) == Some(e)
    && c == SkipSpaces(input, e + |cfg.end|)
  }

  lemma TailLast(cfg: Config, input: string, cursor: nat, pending: string, partial: bool, e: nat, c: nat)
    requires cfg.Valid() && cursor <= |input| && ClosedAt(cfg, input, cursor, e, c)
    requires c == |input| || (TagAt(cfg, input, c) && |input| - c < |cfg.start|)
    ensures Tail(cfg, input, cursor, pending, partial) == Handle(cfg, pending, input[cursor..e], true).0
  {
    hide Handle, FindFrom, PartialStop, SkipSpaces, TagAt, PrefixAt;
    var added := Handle(cfg, pending, input[cursor..e], true).0;
    assert Sections(cfg, input, cursor, pending, partial) == (added, |input|);
    assert input[|input|..] == "";
    PlusExtends(added, EMPTY);
  }

  lemma TailContent(cfg: Config, input: string, cursor: nat, pending: string, partial: bool, e: nat, c: nat)
    requires cfg.Valid() && cursor <= |input| && ClosedAt(cfg, input, cursor, e, c)
    requires c < |input| && !TagAt(cfg, input, c)
    ensures Tail(cfg, input, cursor, pending, partial)
            == Handle(cfg, pending, input[cursor..e], true).0.Plus(Msg(input[c..], ""))
  {
    hide Handle, FindFrom, PartialStop, SkipSpaces, TagAt, PrefixAt;
  }

  lemma SectionsNext(cfg: Config, input: string, cursor: nat, pending: string, partial: bool, e: nat, c: nat)
    requires cfg.Valid() && cursor <= |input| && ClosedAt(cfg, input, cursor, e, c)
    requires c < |input| && TagAt(cfg, input, c) && |input| - c >= |cfg.start|
    ensures var (added, pending') := Handle(cfg, pending, input[cursor..e], true);
            var (more, pos) := Sections(cfg, input, c + |cfg.start|, PrefixAt(cfg, input, c, pending'), partial);
            Sections(cfg, input, cursor, pending, partial) == (added.Plus(more), pos)
  {
    hide Handle, FindFrom, PartialStop, SkipSpaces, TagAt, PrefixAt;
  }

  lemma TailNext(cfg: Config, input: string, cursor: nat, pending: string, partial: bool, e: nat, c: nat)
    requires cfg.Valid() && cursor <= |input| && ClosedAt(cfg, input, cursor, e, c)
    requires c < |input| && TagAt(cfg, input, c) && |input| - c >= |cfg.start|
    ensures var (added, pending') := Handle(cfg, pending, input[cursor..e], true);
            Tail(cfg, input, cursor, pending, partial)
            == added.Plus(Tail(cfg, input, c + |cfg.start|, PrefixAt(cfg, input, c, pending'), partial))
  {
    hide Handle, FindFrom, PartialStop, SkipSpaces, TagAt, PrefixAt, Sections;
    SectionsNext(cfg, input, cursor, pending, partial, e, c);
    var (added, pending') := Handle(cfg, pending, input[cursor..e], true);
    var (more, pos) := Sections(cfg, input, c + |cfg.start|, PrefixAt(cfg, input, c, pending'), partial);
    PlusAssociative(added, more, Msg(input[pos..], ""));
  }

  /** A closed section's contribution stays in front of whatever follows. */
  lemma {:induction false} ClosedSectionStays(cfg: Config, input: string, cursor: nat, pending: string, partial: bool, e: nat)
    requires cfg.Valid() && cursor < |input| && FindFrom(input, cfg.end, cursor) == Some(e)
    ensures Tail(cfg, input, cursor, pending, partial).Extends(Handle(cfg, pending, input[cursor..e], true).0)
  {
    hide Handle, FindFrom, SkipSpaces, TagAt, PrefixAt, Sections, Tail;
    var c := SkipSpaces(input, e + |cfg.end|);
    var (added, pending') := Handle(cfg, pending, input[cursor..e], true);
    if c == |input| || (TagAt(cfg, input, c) && |input| - c < |cfg.start|) {
      TailLast(cfg, input, cursor, pending, partial, e, c);
    } else if !TagAt(cfg, input, c) {
      TailContent(cfg, input, cursor, pending, partial, e, c);
    } else {
      TailNext(cfg, input, cursor, pending, partial, e, c);
    }
  }

  /** While a section is open, the text shown never reaches into an end tag that a longer output completes or begins. */
  lemma {:induction false} ShownEndMonotone(cfg: Config, p: string, q: string, cursor: nat)
    requires cfg.Valid() && p <= q && cursor < |p| && FindFrom(p, cfg.end, cursor).None?
    ensures ShownEnd(cfg, p, cursor) <= ShownEnd(cfg, q, cursor)
    ensures FindFrom(q, cfg.end, cursor).Some? ==> ShownEnd(cfg, p, cursor) <= FindFrom(q, cfg.end, cursor).value
  {
    hide PartialStopFrom, FindFrom, PartialStop, OccursAt, BeginsStop, IsPartialStop;
    NoneShifted(p, cfg.end, cursor);
    assert p[cursor..] <= q[cursor..];
    PartialStopMonotone(p[cursor..], q[cursor..], cfg.end);
    if FindFrom(q, cfg.end, cursor).Some? {
      OccursShifted(q, cfg.end, cursor, FindFrom(q, cfg.end, cursor).value - cursor);
    }
  }

  lemma {:induction false} NoneShifted(s: string, pat: string, from: nat)
    requires from <= |s| && FindFrom(s, pat, from).None?
    ensures forall i :: 0 <= i ==> !OccursAt(s[from..], pat, i)
  {
    forall i: nat
      ensures !OccursAt(s[from..], pat, i)
    {
      OccursShifted(s, pat, from, i);
    }
  }

  lemma OccursShifted(s: string, pat: string, from: nat, i: nat)
    requires from <= |s|
    ensures OccursAt(s[from..], pat, i) <==> OccursAt(s, pat, from + i)
  {
    if from + i + |pat| <= |s| {
      assert s[from..][i..i + |pat|] == s[from + i..from + i + |pat|];
    }
  }

  /** While a section is still open in `p`, what is shown of it begins what `q` shows. */
  lemma {:induction false} OpenSectionMonotone(cfg: Config, p: string, q: string, cursor: nat, pending: string, partial: bool)
    requires cfg.Valid() && p <= q && cursor < |p|
    requires FindFrom(p, cfg.end, cursor).None?
    ensures Tail(cfg, q, cursor, pending, partial).Extends(Tail(cfg, p, cursor, pending, true))
  {
    hide Handle, FindFrom, SkipSpaces, TagAt, PrefixAt, Sections, Tail, ShownEnd, PartialStop;
    TailOpen(cfg, p, cursor, pending, true);
    ShownEndMonotone(cfg, p, q, cursor);
    var shown := p[cursor..ShownEnd(cfg, p, cursor)];
    var now := Handle(cfg, pending, shown, false).0;
    match FindFrom(q, cfg.end, cursor)
    case None =>
      TailOpen(cfg, q, cursor, pending, partial);
      var text := q[cursor..ShownEnd(cfg, q, cursor)];
      HandleMonotone(cfg, pending, shown, text, true);
      HandleMonotone(cfg, pending, shown, text, false);
    case Some(e) =>
      HandleMonotone(cfg, pending, shown, q[cursor..e], true);
      ClosedSectionStays(cfg, q, cursor, pending, partial, e);
      ExtendsTransitive(now, Handle(cfg, pending, q[cursor..e], true).0, Tail(cfg, q, cursor, pending, partial));
  }

  /** The heart of it: from the same place in the same section, the longer output only adds. */
  lemma {:induction false} TailMonotone(cfg: Config, p: string, q: string, cursor: nat, pending: string, partial: bool)
    requires cfg.Valid() && p <= q && cursor <= |p|
    ensures Tail(cfg, q, cursor, pending, partial).Extends(Tail(cfg, p, cursor, pending, true))
    decreases |p| - cursor
  {
    hide Handle, FindFrom, SkipSpaces, TagAt, PrefixAt, Sections, Tail, PartialStop;
    if cursor == |p| {
      TailAtEnd(cfg, p, pending, true);
    } else if FindFrom(p, cfg.end, cursor).None? {
      OpenSectionMonotone(cfg, p, q, cursor, pending, partial);
    } else {
      FindStable(p, q, cfg.end, cursor);
      var e := FindFrom(p, cfg.end, cursor).value;
      assert q[cursor..e] == p[cursor..e];
      var (added, pending') := Handle(cfg, pending, p[cursor..e], true);
      var c := SkipSpaces(p, e + |cfg.end|);
      if c == |p| || (TagAt(cfg, p, c) && |p| - c < |cfg.start|) {
        TailLast(cfg, p, cursor, pending, true, e, c);
        ClosedSectionStays(cfg, q, cursor, pending, partial, e);
      } else {
        SkipSame(p, q, e + |cfg.end|);
        TagMonotone(cfg, p, q, c);
        if !TagAt(cfg, p, c) {
          TailContent(cfg, p, cursor, pending, true, e, c);
          TailContent(cfg, q, cursor, pending, partial, e, c);
          assert p[c..] <= q[c..];
          PlusMonotone(added, Msg(p[c..], ""), Msg(q[c..], ""));
        } else {
          var next := PrefixAt(cfg, p, c, pending');
          SamePrefix(cfg, p, q, c, pending');
          TailMonotone(cfg, p, q, c + |cfg.start|, next, partial);
          PlusMonotone(added, Tail(cfg, p, c + |cfg.start|, next, true), Tail(cfg, q, c + |cfg.start|, next, partial));
          TailNext(cfg, p, cursor, pending, true, e, c);
          TailNext(cfg, q, cursor, pending, partial, e, c);
        }
      }
    }
  }

  lemma SamePrefix(cfg: Config, p: string, q: string, pos: nat, pending: string)
    requires p <= q && pos + |cfg.start| <= |p|
    ensures PrefixAt(cfg, p, pos, pending) == PrefixAt(cfg, q, pos, pending)
  {
    assert p[pos..pos + |cfg.start|] == q[pos..pos + |cfg.start|];
  }

  /** The text of a section does not complete the end tag early. */
  ghost predicate FitsSection(cfg: Config, text: string) {
    forall i :: 0 <= i < |text| ==> !OccursAt(text + cfg.end, cfg.end, i)
  }

  /**
   Output written in the intended shape is taken apart as intended: white space, a tagged section,
   white space, and content that does not begin another section.
   */
  lemma ParseRecovers(cfg: Config, white: string, text: string, gap: string, content: string, partial: bool)
    requires cfg.Valid() && cfg.format != FormatNone && !cfg.inContent && !IsSpace(cfg.start[0])
    requires AllSpaces(white) && AllSpaces(gap) && FitsSection(cfg, text)
    requires content != "" && !IsSpace(content[0]) && !TagAt(cfg, content, 0)
    ensures var input := white + cfg.start + text + cfg.end + gap + content;
            Parse(cfg, input, partial)
            == Msg(white + content, if Strip(text) != "" && cfg.forcedOpen then cfg.start + Strip(text) else Strip(text))
  {
    hide Sections, Tail, Parse, Reasoning, FindFrom, Strip, TagAt, Handle, Msg.Plus, SkipSpaces, Laid;
    var input := white + cfg.start + text + cfg.end + gap + content;
    Layout(cfg, white, text, gap, content, input);
    FindEnd(cfg, white + cfg.start, text, gap + content, input);
    RecoverLaid(cfg, input, white, text, gap, content, partial);
    Assembled(cfg, white, text, content, if cfg.forcedOpen then cfg.start else "");
  }

  lemma {:induction false} RecoverLaid(cfg: Config, input: string, white: string, text: string, gap: string, content: string, partial: bool)
    requires cfg.Valid() && cfg.format != FormatNone && !cfg.inContent && !IsSpace(cfg.start[0])
    requires content != "" && !IsSpace(content[0]) && !TagAt(cfg, content, 0)
    requires Laid(cfg, input, white, text, gap, content)
    requires FindFrom(input, cfg.end, |white| + |cfg.start|) == Some(|white| + |cfg.start| + |text|)
    ensures Parse(cfg, input, partial)
            == Msg(white, "").Plus(Handle(cfg, if cfg.forcedOpen then cfg.start else "", text, true).0.Plus(Msg(content, "")))
  {
    hide Sections, Tail, Parse, Reasoning, FindFrom, Strip, TagAt, Handle, Msg.Plus, SkipSpaces, Laid;
    LaidSpaces(cfg, input, white, text, gap, content);
    LaidTags(cfg, input, white, text, gap, content);
    LaidParts(cfg, input, white, text, gap, content);
    var e := |white| + |cfg.start| + |text|;
    RecoverAt(cfg, input, |white|, e, e + |cfg.end| + |gap|, partial);
  }

  lemma {:induction false} LaidSpaces(cfg: Config, input: string, white: string, text: string, gap: string, content: string)
    requires cfg.Valid() && content != "" && Laid(cfg, input, white, text, gap, content)
    requires !IsSpace(cfg.start[0]) && !IsSpace(content[0])
    ensures var e := |white| + |cfg.start| + |text|;
            && e + |cfg.end| <= |input|
            && SkipSpaces(input, 0) == |white|
            && SkipSpaces(input, e + |cfg.end|) == e + |cfg.end| + |gap|
  {
    hide SkipSpaces;
    var e := |white| + |cfg.start| + |text|;
    SkipTo(input, 0, |white|);
    SkipTo(input, e + |cfg.end|, e + |cfg.end| + |gap|);
  }

  lemma LaidTags(cfg: Config, input: string, white: string, text: string, gap: string, content: string)
    requires cfg.Valid() && content != "" && Laid(cfg, input, white, text, gap, content)
    requires !TagAt(cfg, content, 0)
    ensures var c := |white| + |cfg.start| + |text| + |cfg.end| + |gap|;
            c <= |input| && TagAt(cfg, input, |white|) && !TagAt(cfg, input, c)
  {
    hide TagAt;
    StartTagAt(cfg, input, |white|);
    TagShifted(cfg, input, |white| + |cfg.start| + |text| + |cfg.end| + |gap|);
  }

  lemma LaidParts(cfg: Config, input: string, white: string, text: string, gap: string, content: string)
    requires cfg.Valid() && content != "" && Laid(cfg, input, white, text, gap, content)
    ensures var w, cursor := |white|, |white| + |cfg.start|;
            var e, c := cursor + |text|, cursor + |text| + |cfg.end| + |gap|;
            && |input| == c + |content|
            && input[..w] == white && input[w..cursor] == cfg.start && input[cursor..e] == text && input[c..] == content
  {
  }

  lemma {:induction false} RecoverAt(cfg: Config, input: string, w: nat, e: nat, c: nat, partial: bool)
    requires cfg.Valid() && cfg.format != FormatNone && !cfg.inContent
    requires w + |cfg.start| <= e && e + |cfg.end| <= c < |input|
    requires SkipSpaces(input, 0) == w && TagAt(cfg, input, w) && input[w..w + |cfg.start|] == cfg.start
    requires FindFrom(input, cfg.end, w + |cfg.start|) == Some(e)
    requires SkipSpaces(input, e + |cfg.end|) == c && !TagAt(cfg, input, c)
    ensures var pending := if cfg.forcedOpen then cfg.start else "";
            Parse(cfg, input, partial)
            == Msg(input[..w], "").Plus(Handle(cfg, pending, input[w + |cfg.start|..e], true).0.Plus(Msg(input[c..], "")))
  {
    hide Sections, Tail, Parse, Reasoning, FindFrom, Strip, TagAt, Handle, Msg.Plus, SkipSpaces;
    ParseTag(cfg, input, partial);
    TailContent(cfg, input, w + |cfg.start|, PrefixAt(cfg, input, w, ""), partial, e, c);
  }

  lemma Assembled(cfg: Config, white: string, text: string, content: string, pending: string)
    requires !cfg.inContent && pending == if cfg.forcedOpen then cfg.start else ""
    ensures Msg(white, "").Plus(Handle(cfg, pending, text, true).0.Plus(Msg(content, "")))
            == Msg(white + content, if Strip(text) != "" && cfg.forcedOpen then cfg.start + Strip(text) else Strip(text))
  {
    hide Strip;
    var stripped := Strip(text);
    assert "" + content == content && "" + stripped == stripped && stripped + "" == stripped;
    assert (pending + stripped) + "" == pending + stripped && "" + (pending + stripped) == pending + stripped;
  }

  /** Where the five parts of the output stand. */
  ghost predicate Laid(cfg: Config, input: string, white: string, text: string, gap: string, content: string)
    requires cfg.Valid() && content != ""
  {
    var w, cursor := |white|, |white| + |cfg.start|;
    var e, c := cursor + |text|, cursor + |text| + |cfg.end| + |gap|;
    && |input| == c + |content|
    && input[..w] == white && input[w..cursor] == cfg.start && input[cursor..e] == text && input[c..] == content
    && input[w] == cfg.start[0] && input[c] == content[0]
    && (forall k :: 0 <= k < w ==> IsSpace(input[k]))
    && (forall k :: e + |cfg.end| <= k < c ==> IsSpace(input[k]))
  }

  lemma Layout(cfg: Config, white: string, text: string, gap: string, content: string, input: string)
    requires cfg.Valid() && content != "" && AllSpaces(gap) && AllSpaces(white)
    requires input == white + cfg.start + text + cfg.end + gap + content
    ensures Laid(cfg, input, white, text, gap, content)
    ensures input == (white + cfg.start) + text + cfg.end + (gap + content)
  {
    var e := |white| + |cfg.start| + |text| + |cfg.end|;
    assert forall k :: e <= k < e + |gap| ==> input[k] == gap[k - e];
  }

  lemma StartTagAt(cfg: Config, input: string, pos: nat)
    requires pos + |cfg.start| <= |input| && input[pos..pos + |cfg.start|] == cfg.start
    ensures TagAt(cfg, input, pos)
  {
  }

  lemma {:induction false} SkipTo(input: string, i: nat, w: nat)
    requires i <= w < |input| && !IsSpace(input[w]) && forall k :: i <= k < w ==> IsSpace(input[k])
    ensures SkipSpaces(input, i) == w
  {
  }

  lemma {:induction false} FindEnd(cfg: Config, before: string, text: string, after: string, input: string)
    requires FitsSection(cfg, text) && input == before + text + cfg.end + after
    ensures FindFrom(input, cfg.end, |before|) == Some(|before| + |text|)
  {
    var e := |before| + |text|;
    assert input[e..e + |cfg.end|] == cfg.end;
    assert OccursAt(input, cfg.end, e);
    forall j | |before| <= j < e
      ensures !OccursAt(input, cfg.end, j)
    {
      assert !OccursAt(text + cfg.end, cfg.end, j - |before|);
      assert input[j..j + |cfg.end|] == (text + cfg.end)[j - |before|..j - |before| + |cfg.end|];
    }
  }

  lemma TagShifted(cfg: Config, input: string, pos: nat)
    requires pos <= |input|
    ensures TagAt(cfg, input, pos) <==> TagAt(cfg, input[pos..], 0)
  {
    var rest := input[pos..];
    var n := if |cfg.start| <= |rest| then |cfg.start| else |rest|;
    assert rest[0..0 + n] == input[pos..pos + n];
  }

  /**
   The one situation in which something already shown is taken back: reasoning is not forced open,
   the output begins with white space, and what follows begins the start tag. The white space is
   shown as content, then withdrawn while the tag is incomplete.
   */
  predicate Withdraws(cfg: Config, output: string) {
    && cfg.format != FormatNone && !cfg.forcedOpen && |cfg.start| >= 2
    && var w := SkipSpaces(output, 0);
       0 < w < |output| && output[w] == cfg.start[0]
  }

  // The ways a whole parse can begin, as equations.

  lemma {:induction false} ParseBare(cfg: Config, input: string, partial: bool)
    requires cfg.Valid()
    requires cfg.format == FormatNone
             || (!cfg.forcedOpen && (SkipSpaces(input, 0) == |input| || !TagAt(cfg, input, SkipSpaces(input, 0))))
    ensures Parse(cfg, input, partial) == Msg(input, "")
  {
    hide Sections, Handle, SkipSpaces, TagAt;
    assert input[0..] == input;
  }

  /** The result says whether there is reasoning: it is forced open, or a start tag comes, or begins to, behind white space. */
  lemma {:induction false} ReasoningReturns(cfg: Config, input: string, from: nat, partial: bool)
    requires cfg.Valid() && from <= |input|
    ensures var (added, pos, found) := Reasoning(cfg, input, from, partial);
            && (!found ==> added == EMPTY && pos == from)
            && (found <==> cfg.format != FormatNone
                           && (cfg.forcedOpen || (SkipSpaces(input, from) < |input| && TagAt(cfg, input, SkipSpaces(input, from)))))
  {
    hide Sections, Handle, TagAt;
  }

  lemma {:induction false} ParseForcedWhite(cfg: Config, input: string, partial: bool)
    requires cfg.Valid() && cfg.format != FormatNone && cfg.forcedOpen && SkipSpaces(input, 0) == |input|
    ensures Parse(cfg, input, partial) == EMPTY
  {
    hide Sections, TagAt;
    assert AllSpaces(input) && input[0..] == input;
    var before, after := StripIsMiddle(input);
    assert input[|input|..] == "";
  }

  lemma {:induction false} ParsePartialTag(cfg: Config, input: string, partial: bool)
    requires var w := SkipSpaces(input, 0);
             && cfg.Valid() && cfg.format != FormatNone && w < |input|
             && TagAt(cfg, input, w) && |input| - w < |cfg.start|
    ensures Parse(cfg, input, partial) == EMPTY
  {
    hide Sections, Handle, SkipSpaces, TagAt;
    assert input[|input|..] == "";
  }

  lemma {:induction false} ParseTag(cfg: Config, input: string, partial: bool)
    requires var w := SkipSpaces(input, 0);
             && cfg.Valid() && cfg.format != FormatNone && w < |input|
             && TagAt(cfg, input, w) && |input| - w >= |cfg.start|
    ensures var w := SkipSpaces(input, 0);
            Parse(cfg, input, partial)
            == Msg(input[..w], "").Plus(Tail(cfg, input, w + |cfg.start|, PrefixAt(cfg, input, w, ""), partial))
  {
    hide Sections, Handle, SkipSpaces, TagAt, PrefixAt, Reasoning, Msg.Plus;
    var w := SkipSpaces(input, 0);
    var (m, i) := Sections(cfg, input, w + |cfg.start|, PrefixAt(cfg, input, w, ""), partial);
    ReasoningTag(cfg, input, partial);
    PlusAssociative(Msg(input[..w], ""), m, Msg(input[i..], ""));
  }

  lemma {:induction false} ReasoningTag(cfg: Config, input: string, partial: bool)
    requires var w := SkipSpaces(input, 0);
             && cfg.Valid() && cfg.format != FormatNone && w < |input|
             && TagAt(cfg, input, w) && |input| - w >= |cfg.start|
    ensures var w := SkipSpaces(input, 0);
            var (m, i) := Sections(cfg, input, w + |cfg.start|, PrefixAt(cfg, input, w, ""), partial);
            Reasoning(cfg, input, 0, partial) == (Msg(input[..w], "").Plus(m), i, true)
  {
    hide Sections, Handle, SkipSpaces, TagAt, PrefixAt;
    var w := SkipSpaces(input, 0);
    assert input[0..w] == input[..w];
  }

  lemma {:induction false} ParseForced(cfg: Config, input: string, partial: bool)
    requires var w := SkipSpaces(input, 0);
             && cfg.Valid() && cfg.format != FormatNone && cfg.forcedOpen && w < |input| && !TagAt(cfg, input, w)
    ensures Parse(cfg, input, partial) == Tail(cfg, input, SkipSpaces(input, 0), "", partial)
  {
    hide Sections, Handle, SkipSpaces, TagAt, PrefixAt;
  }

  /** The longer output only adds to what was parsed, unless that is taken back and nothing is left at all. */
  lemma ParseMonotone(cfg: Config, p: string, q: string, partial: bool)
    requires cfg.Valid() && p <= q && (!Withdraws(cfg, q) || Parse(cfg, q, partial) != EMPTY)
    ensures Parse(cfg, q, partial).Extends(Parse(cfg, p, true))
  {
    hide Sections, Handle, SkipSpaces, TagAt, PrefixAt, Tail, Parse, Reasoning, Withdraws;
    var w := SkipSpaces(p, 0);
    if cfg.format == FormatNone {
      ParseBare(cfg, p, true);
      ParseBare(cfg, q, partial);
    } else if w >= |p| {
      WhitePrefixMonotone(cfg, p, q, partial);
    } else {
      SkipSame(p, q, 0);
      TagMonotone(cfg, p, q, w);
      if TagAt(cfg, p, w) && |p| - w < |cfg.start| {
        ParsePartialTag(cfg, p, true);
      } else if TagAt(cfg, p, w) {
        var next, white := PrefixAt(cfg, p, w, ""), Msg(p[..w], "");
        SamePrefix(cfg, p, q, w, "");
        assert q[..w] == p[..w];
        TailMonotone(cfg, p, q, w + |cfg.start|, next, partial);
        PlusMonotone(white, Tail(cfg, p, w + |cfg.start|, next, true), Tail(cfg, q, w + |cfg.start|, next, partial));
        ParseTag(cfg, p, true);
        ParseTag(cfg, q, partial);
      } else if cfg.forcedOpen {
        TailMonotone(cfg, p, q, w, "", partial);
        ParseForced(cfg, p, true);
        ParseForced(cfg, q, partial);
      } else {
        ParseBare(cfg, p, true);
        ParseBare(cfg, q, partial);
      }
    }
  }

  /** The prefix is all white space, possibly empty. */
  lemma {:induction false} WhitePrefixMonotone(cfg: Config, p: string, q: string, partial: bool)
    requires cfg.Valid() && p <= q && cfg.format != FormatNone && SkipSpaces(p, 0) == |p|
    requires !Withdraws(cfg, q) || Parse(cfg, q, partial) != EMPTY
    ensures Parse(cfg, q, partial).Extends(Parse(cfg, p, true))
  {
    hide Sections, Handle, SkipSpaces, TagAt, PrefixAt, Tail, Parse, Reasoning;
    if cfg.forcedOpen {
      ParseForcedWhite(cfg, p, true);
    } else {
      ParseBare(cfg, p, true);
      var w := SkipSpaces(q, 0);
      SkipLonger(p, q, 0);
      if w == |q| || !TagAt(cfg, q, w) {
        ParseBare(cfg, q, partial);
      } else if |q| - w >= |cfg.start| {
        ParseTag(cfg, q, partial);
        assert p <= q[..w];
      } else {
        FirstOfTag(cfg, q, w);
        ParsePartialTag(cfg, q, partial);
        assert p == "";
        assert |Parse(cfg, q, partial).content| >= 0;
      }
    }
  }

  lemma FirstOfTag(cfg: Config, input: string, pos: nat)
    requires cfg.Valid() && pos < |input| && TagAt(cfg, input, pos)
    ensures input[pos] == cfg.start[0]
  {
    var n := if |cfg.start| <= |input| - pos then |cfg.start| else |input| - pos;
    assert input[pos] == input[pos..pos + n][0] == cfg.start[..n][0];
  }

  lemma {:induction false} SkipLonger(p: string, q: string, i: nat)
    requires p <= q && i <= |p| && SkipSpaces(p, i) == |p|
    ensures SkipSpaces(q, i) >= |p|
    decreases |p| - i
  {
    if i < |p| {
      SkipLonger(p, q, i + 1);
    }
  }

  /** Every prefix parse is extended by the parse of every longer prefix. */
  ghost predicate OnlyGrows(cfg: Config, output: string)
    requires cfg.Valid()
  {
    forall i, j :: 0 <= i <= j <= |output| ==>
      Parse(cfg, output[..j], true).Extends(Parse(cfg, output[..i], true))
  }

  /** Streaming an output never takes anything back, except in the one situation above. */
  lemma StreamOnlyGrows(cfg: Config, output: string)
    requires cfg.Valid()
    ensures OnlyGrows(cfg, output) <==> !Withdraws(cfg, output)
  {
    hide Sections, Handle, Parse, Reasoning, Tail;
    if Withdraws(cfg, output) {
      var w := SkipSpaces(output, 0);
      var p, q := output[..w], output[..w + 1];
      SkipExact(output, w);
      ParseBare(cfg, p, true);
      assert q[w..w + 1] == cfg.start[..1];
      ParsePartialTag(cfg, q, true);
      assert !Parse(cfg, output[..w + 1], true).Extends(Parse(cfg, output[..w], true));
    } else {
      forall i, j | 0 <= i <= j <= |output|
        ensures Parse(cfg, output[..j], true).Extends(Parse(cfg, output[..i], true))
      {
        PrefixDoesNotWithdraw(cfg, output, j);
        ParseMonotone(cfg, output[..i], output[..j], true);
      }
    }
  }

  /** The white space in front is recognized in every prefix that contains it. */
  lemma {:induction false} SkipExact(output: string, w: nat)
    requires w == SkipSpaces(output, 0) < |output|
    ensures SkipSpaces(output[..w], 0) == w && SkipSpaces(output[..w + 1], 0) == w
  {
    assert !IsSpace(output[w]);
  }

  lemma PrefixDoesNotWithdraw(cfg: Config, output: string, j: nat)
    requires j <= |output| && !Withdraws(cfg, output)
    ensures !Withdraws(cfg, output[..j])
  {
    var p := output[..j];
    if SkipSpaces(p, 0) < |p| {
      SkipSame(p, output, 0);
    }
  }
}
