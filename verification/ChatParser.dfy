/**
 The chat message parser: a position that moves over the input, and a message that is appended to.
 The reasoning loop is shown to compute what `ReasoningModel` says.
 */
module ChatParser {
  import opened CommonStrings
  import opened ReasoningModel

  datatype ToolCall = ToolCall(name: string, arguments: string, id: string)

  /** A literal found in the input: the text before it, and where it begins and ends. */
  datatype Found = Found(prelude: string, begin: nat, end: nat)

  /** The first full occurrence from `pos` on, or else, in a partial input, a beginning of it at the very end. */
  function FindLiteral(input: string, isPartial: bool, literal: string, pos: nat): (r: Option<Found>)
    requires pos <= |input|
    ensures r.Some? ==> pos <= r.value.begin <= r.value.end <= |input| && r.value.prelude == input[pos..r.value.begin]
  {
    match FindFrom(input, literal, pos)
    case Some(i) => Some(Found(input[pos..i], i, i + |literal|))
    case None =>
      if isPartial then
        match PartialStop(input, literal)
        case Some(i) => if i >= pos then Some(Found(input[pos..i], i, |input|)) else None
        case None => None
      else None
  }

  class Parser {
    const input: string
    const isPartial: bool
    var pos: nat
    var content: string
    var reasoning: string
    var toolCalls: seq<ToolCall>

    ghost predicate Valid()
      reads this
    {
      pos <= |input|
    }

    ghost function Message(): Msg
      reads this
    {
      Msg(content, reasoning)
    }

    constructor (input: string, isPartial: bool)
      ensures Valid() && this.input == input && this.isPartial == isPartial
      ensures pos == 0 && Message() == EMPTY && toolCalls == []
    {
      this.input, this.isPartial := input, isPartial;
      pos, content, reasoning, toolCalls := 0, "", "", [];
    }

    /** Moving past the end is the error "Invalid position!" of the source; no caller below can raise it. */
    method MoveTo(to: nat)
      requires to <= |input|
      modifies `pos
      ensures pos == to
    {
      pos := to;
    }

    method ConsumeRest() returns (rest: string)
      requires Valid()
      modifies `pos
      ensures rest == input[old(pos)..] && pos == |input|
    {
      rest := input[pos..];
      pos := |input|;
    }

    method ConsumeSpaces() returns (consumed: bool)
      requires Valid()
      modifies `pos
      ensures pos == SkipSpaces(input, old(pos)) && (consumed <==> pos != old(pos))
    {
      consumed := false;
      while pos < |input| && IsSpace(input[pos])
        invariant old(pos) <= pos <= |input|
        invariant SkipSpaces(input, pos) == SkipSpaces(input, old(pos))
        invariant consumed <==> pos != old(pos)
      {
        pos := pos + 1;
        consumed := true;
      }
    }

    method TryFindLiteral(literal: string) returns (r: Option<Found>)
      requires Valid()
      modifies `pos
      ensures r == FindLiteral(input, isPartial, literal, old(pos))
      ensures pos == if r.Some? then r.value.end else old(pos)
    {
      var idx := FindFrom(input, literal, pos);
      if idx.Some? {
        r := Some(Found(input[pos..idx.value], idx.value, idx.value + |literal|));
        MoveTo(idx.value + |literal|);
        return;
      }
      if isPartial {
        idx := FindPartialStop(input, literal);
        if idx.Some? && idx.value >= pos {
          r := Some(Found(input[pos..idx.value], idx.value, |input|));
          MoveTo(|input|);
          return;
        }
      }
      return None;
    }

    method HandleReasoning(cfg: Config, pending: string, text: string, closed: bool) returns (pending': string)
      modifies `content, `reasoning
      ensures var (added, left) := Handle(cfg, pending, text, closed);
              Message() == old(Message()).Plus(added) && pending' == left
    {
      hide Strip;
      pending' := pending;
      var stripped := StringStrip(text);
      if stripped == "" {
        WithNothing(Message());
        return;
      }
      ghost var was := Message();
      if cfg.inContent {
        content := content + if cfg.format == FormatDeepseek then "<think>" else cfg.start;
        content := content + stripped;
        Regroup(was.content, cfg.OpenTag(), stripped);
        ghost var shown := cfg.OpenTag() + stripped;
        if closed {
          content := content + if cfg.format == FormatDeepseek then "</think>" else cfg.end;
          Regroup(was.content, shown, cfg.CloseTag());
        }
        assert shown + "" == shown;
        assert reasoning + "" == reasoning;
      } else {
        assert content + "" == content;
        assert "" + stripped == stripped;
        if pending != "" {
          reasoning := reasoning + pending;
          pending' := "";
        }
        reasoning := reasoning + stripped;
        Regroup(was.reasoning, pending, stripped);
        assert was.reasoning + "" == was.reasoning;
      }
    }

    /** `try_parse_reasoning`. */
    method TryParseReasoning(cfg: Config) returns (found: bool)
      requires Valid() && cfg.Valid()
      modifies `pos, `content, `reasoning
      ensures Valid()
      ensures (Message(), pos, found)
              == var (added, stop, ok) := Reasoning(cfg, input, old(pos), isPartial);
                 (old(Message()).Plus(added), stop, ok)
    {
      hide Sections, Handle, TagAt, SkipSpaces;
      assert Message() == old(Message()).Plus(EMPTY);
      if cfg.format == FormatNone {
        return false;
      }
      var whitespaceEnd := AfterSpaces(input, pos);
      if whitespaceEnd >= |input| {
        if cfg.forcedOpen {
          var rest := input[pos..];
          assert Reasoning(cfg, input, pos, isPartial) == (Handle(cfg, "", rest, !isPartial).0, |input|, true);
          if rest != "" {
            var _ := HandleReasoning(cfg, "", rest, !isPartial);
          } else {
            HandleNothing(cfg, "", !isPartial);
          }
          MoveTo(|input|);
          return true;
        }
        return false;
      }

      var cursor := whitespaceEnd;
      var hasStartTag := TagAt(cfg, input, cursor);
      if hasStartTag && |input| - cursor < |cfg.start| {
        MoveTo(|input|);
        return true;
      }
      var pending := "";
      ghost var white := EMPTY;
      if hasStartTag {
        white := Msg(input[pos..whitespaceEnd], "");
        if whitespaceEnd > pos {
          content := content + input[pos..whitespaceEnd];
        } else {
          assert white == EMPTY;
        }
        assert reasoning + "" == reasoning;
        pending := PrefixAt(cfg, input, cursor, pending);
        cursor := cursor + |cfg.start|;
      } else if !cfg.forcedOpen {
        return false;
      }
      assert Message() == old(Message()).Plus(white);
      label Loop:
      ParseSections(cfg, cursor, pending);
      PlusAssociative(old(Message()), white, Sections(cfg, input, cursor, pending, isPartial).0);
      WithNothing(Sections(cfg, input, cursor, pending, isPartial).0);
      return true;
    }

    /** The section has no end tag: show what cannot be the beginning of one. */
    method ShowOpenSection(cfg: Config, cursor: nat, pending: string)
      requires cfg.Valid() && cursor < |input| && FindFrom(input, cfg.end, cursor).None?
      modifies `pos, `content, `reasoning
      ensures Valid()
      ensures (Message(), pos)
              == var (added, stop) := Sections(cfg, input, cursor, pending, isPartial); (old(Message()).Plus(added), stop)
    {
      hide Handle, TagAt, SkipSpaces, FindFrom, PartialStop, Msg.Plus, PrefixAt;
      var partialOff := FindPartialStop(input[cursor..], cfg.end);
      var reasoningEnd := if partialOff.None? then |input| else cursor + partialOff.value;
      if reasoningEnd > cursor {
        var _ := HandleReasoning(cfg, pending, input[cursor..reasoningEnd], partialOff.None? && !isPartial);
      } else {
        assert input[cursor..reasoningEnd] == "";
        HandleNothing(cfg, pending, partialOff.None? && !isPartial);
        WithNothing(Message());
      }
      MoveTo(|input|);
    }

    /** The loop of `try_parse_reasoning`. */
    method ParseSections(cfg: Config, from: nat, prefix: string)
      requires cfg.Valid() && from <= |input|
      modifies `pos, `content, `reasoning
      ensures Valid()
      ensures (Message(), pos)
              == var (added, stop) := Sections(cfg, input, from, prefix, isPartial); (old(Message()).Plus(added), stop)
    {
      hide Sections, Handle, TagAt, SkipSpaces, FindFrom, PartialStop, Msg.Plus, PrefixAt;
      var cursor, pending := from, prefix;
      ghost var done := EMPTY;
      ghost var (all, stop) := Sections(cfg, input, from, prefix, isPartial);
      WithNothing(all);
      WithNothing(Message());
      while true
        invariant from <= cursor <= |input|
        invariant Message() == old(Message()).Plus(done)
        invariant var (added, s) := Sections(cfg, input, cursor, pending, isPartial);
                  all == done.Plus(added) && stop == s
        decreases |input| - cursor
      {
        ghost var rest := Sections(cfg, input, cursor, pending, isPartial).0;
        PlusAssociative(old(Message()), done, rest);
        if cursor >= |input| {
          SectionsAtEnd(cfg, input, pending, isPartial);
          WithNothing(done);
          MoveTo(|input|);
          return;
        }
        var endPos := FindFrom(input, cfg.end, cursor);
        if endPos.None? {
          ShowOpenSection(cfg, cursor, pending);
          return;
        }
        var e := endPos.value;
        ghost var pending0 := pending;
        ghost var (added, left) := Handle(cfg, pending, input[cursor..e], true);
        PlusAssociative(old(Message()), done, added);
        if e > cursor {
          pending := HandleReasoning(cfg, pending, input[cursor..e], true);
        } else {
          assert input[cursor..e] == "";
          pending := HandleReasoning(cfg, pending, "", true);
        }
        var c := AfterSpaces(input, e + |cfg.end|);
        SectionsClosed(cfg, input, cursor, pending0, isPartial, e, c);
        if |input| - c == 0 {
          MoveTo(c);
          return;
        }
        if TagAt(cfg, input, c) {
          if |input| - c < |cfg.start| {
            MoveTo(|input|);
            return;
          }
          pending := PrefixAt(cfg, input, c, pending);
          cursor := c + |cfg.start|;
          PlusAssociative(done, added, Sections(cfg, input, cursor, pending, isPartial).0);
          done := done.Plus(added);
          continue;
        }
        MoveTo(c);
        return;
      }
    }

    /** `common_chat_parse_content_only`; nothing is left over, so `finish` has nothing to complain about. */
    method ParseContentOnly(cfg: Config)
      requires Valid() && cfg.Valid() && pos == 0
      modifies `pos, `content, `reasoning
      ensures pos == |input|
      ensures Message() == old(Message()).Plus(Parse(cfg, input, isPartial))
    {
      hide Reasoning;
      var _ := TryParseReasoning(cfg);
      ghost var added := Reasoning(cfg, input, 0, isPartial).0;
      ghost var stop := pos;
      var rest := ConsumeRest();
      ghost var now := Message();
      content := content + rest;
      assert now.Plus(Msg(rest, "")) == Message();
      PlusAssociative(old(Message()), added, Msg(rest, ""));
    }
  }

  lemma {:induction false} SectionsAtEnd(cfg: Config, input: string, pending: string, partial: bool)
    requires cfg.Valid()
    ensures Sections(cfg, input, |input|, pending, partial) == (EMPTY, |input|)
  {
  }

  /** One closed section, and what may follow it. */
  lemma SectionsClosed(cfg: Config, input: string, cursor: nat, pending: string, partial: bool, e: nat, c: nat)
    requires cfg.Valid() && cursor <= |input| && ClosedAt(cfg, input, cursor, e, c)
    ensures var (added, left) := Handle(cfg, pending, input[cursor..e], true);
            Sections(cfg, input, cursor, pending, partial)
            == if c == |input| then (added, c)
               else if !TagAt(cfg, input, c) then (added, c)
               else if |input| - c < |cfg.start| then (added, |input|)
               else
                 var (more, stop) := Sections(cfg, input, c + |cfg.start|, PrefixAt(cfg, input, c, left), partial);
                 (added.Plus(more), stop)
  {
    hide Handle, TagAt, SkipSpaces, FindFrom, PartialStop, PrefixAt;
  }

  /** The loop that steps over white space. */
  method AfterSpaces(s: string, from: nat) returns (r: nat)
    requires from <= |s|
    ensures r == SkipSpaces(s, from)
  {
    r := from;
    while r < |s| && IsSpace(s[r])
      invariant from <= r <= |s|
      invariant SkipSpaces(s, r) == SkipSpaces(s, from)
    {
      r := r + 1;
    }
  }

  lemma Regroup(a: string, b: string, c: string)
    ensures (a + b) + c == a + (b + c)
  {
  }

  lemma WithNothing(m: Msg)
    ensures m.Plus(EMPTY) == m && EMPTY.Plus(m) == m
  {
    assert "" + m.content == m.content && "" + m.reasoning == m.reasoning;
  }

  lemma HandleNothing(cfg: Config, pending: string, closed: bool)
    ensures Handle(cfg, pending, "", closed) == (EMPTY, pending)
  {
  }
}
