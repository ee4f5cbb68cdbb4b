/**
 What the line editor is meant to be: a list of code points with a cursor, and a list of earlier
 lines that the up and down keys walk through. Nothing here knows about bytes.
 */
module EditorModel {
  import opened Utf8
  import opened Utf8Text

  datatype Key =
    | Insert(ch: CodePoint)
    | Backspace
    | Delete
    | Left
    | Right
    | WordLeft
    | WordRight
    | Home
    | End
    | Up
    | Down
    | Ignored

  datatype Doc = Doc(text: Text, cursor: nat) {
    predicate Valid() {
      cursor <= |text|
    }
  }

  /** `NotViewing` is the index SIZE_MAX of the source. */
  datatype Viewing = NotViewing | At(index: nat)

  datatype Hist<T> = Hist(entries: seq<T>, viewing: Viewing, backup: T) {
    predicate Valid() {
      viewing.At? ==> viewing.index <= |entries|
    }
  }

  datatype Session = Session(doc: Doc, hist: Hist<Text>) {
    predicate Valid() {
      doc.Valid() && hist.Valid()
    }
  }

  type Spaces = Char32 -> bool

  /** Left over the code points that are spaces (`want`) or are not (`!want`). */
  function SkipLeft(text: Text, k: nat, isSpace: Spaces, want: bool): (r: nat)
    requires k <= |text|
    ensures r <= k
    ensures forall i :: r <= i < k ==> isSpace(text[i]) == want
    ensures r == 0 || isSpace(text[r - 1]) != want
  {
    if k > 0 && isSpace(text[k - 1]) == want then SkipLeft(text, k - 1, isSpace, want) else k
  }

  function SkipRight(text: Text, k: nat, isSpace: Spaces, want: bool): (r: nat)
    requires k <= |text|
    ensures k <= r <= |text|
    ensures forall i :: k <= i < r ==> isSpace(text[i]) == want
    ensures r == |text| || isSpace(text[r]) != want
    decreases |text| - k
  {
    if k < |text| && isSpace(text[k]) == want then SkipRight(text, k + 1, isSpace, want) else k
  }

  function WordLeftOf(text: Text, k: nat, isSpace: Spaces): nat
    requires k <= |text|
  {
    SkipLeft(text, SkipLeft(text, k, isSpace, true), isSpace, false)
  }

  function WordRightOf(text: Text, k: nat, isSpace: Spaces): nat
    requires k <= |text|
  {
    SkipRight(text, SkipRight(text, SkipRight(text, k, isSpace, true), isSpace, false), isSpace, true)
  }

  function RemoveAt(text: Text, k: nat): Text
    requires k < |text|
  {
    text[..k] + text[k + 1..]
  }

  function InsertAt(text: Text, k: nat, ch: CodePoint): Text
    requires k <= |text|
  {
    text[..k] + [ch] + text[k..]
  }

  /** The document after a key that does not touch the history. */
  function Edit(doc: Doc, key: Key, isSpace: Spaces): (d: Doc)
    requires doc.Valid()
    ensures d.Valid()
  {
    var Doc(text, k) := doc;
    match key
    case Insert(ch) => Doc(InsertAt(text, k, ch), k + 1)
    case Backspace => if k > 0 then Doc(RemoveAt(text, k - 1), k - 1) else doc
    case Delete => if k < |text| then Doc(RemoveAt(text, k), k) else doc
    case Left => if k > 0 then Doc(text, k - 1) else doc
    case Right => if k < |text| then Doc(text, k + 1) else doc
    case WordLeft => Doc(text, WordLeftOf(text, k, isSpace))
    case WordRight => Doc(text, WordRightOf(text, k, isSpace))
    case Home => Doc(text, 0)
    case End => Doc(text, |text|)
    case _ => doc
  }

  function Show(text: Text): Doc {
    Doc(text, |text|)
  }

  /** The up key. Viewing begins even when there is nothing to view. */
  function GoUp(s: Session): (s': Session)
    requires s.Valid()
    ensures s'.Valid()
  {
    var n := |s.hist.entries|;
    var h := if s.hist.viewing.NotViewing? then Hist(s.hist.entries, At(n), s.doc.text) else s.hist;
    if n == 0 then
      Session(s.doc, h)
    else
      var i := if h.viewing.index > 0 then h.viewing.index - 1 else 0;
      Session(Show(h.entries[i]), h.(viewing := At(i)))
  }

  /** The down key. Going past the newest entry brings the interrupted line back. */
  function GoDown(s: Session): (s': Session)
    requires s.Valid()
    ensures s'.Valid()
  {
    if s.hist.viewing.NotViewing? || s.hist.entries == [] then
      s
    else
      var i := s.hist.viewing.index + 1;
      if i >= |s.hist.entries| then
        Session(Show(s.hist.backup), Hist(s.hist.entries, NotViewing, []))
      else
        Session(Show(s.hist.entries[i]), s.hist.(viewing := At(i)))
  }

  function Step(s: Session, key: Key, isSpace: Spaces): (s': Session)
    requires s.Valid()
    ensures s'.Valid()
  {
    match key
    case Up => GoUp(s)
    case Down => GoDown(s)
    case _ => Session(Edit(s.doc, key, isSpace), s.hist)
  }

  function Run(s: Session, keys: seq<Key>, isSpace: Spaces): (s': Session)
    requires s.Valid()
    ensures s'.Valid()
  {
    if keys == [] then s
    else Step(Run(s, keys[..|keys| - 1], isSpace), keys[|keys| - 1], isSpace)
  }

  /** A submitted line joins the history unless it is empty or repeats the newest entry. */
  function Remember(h: Hist<Text>, text: Text): (h': Hist<Text>)
    requires h.Valid()
    ensures h'.Valid()
  {
    if text == [] then h
    else
      var n := |h.entries|;
      Hist(if n == 0 || h.entries[n - 1] != text then h.entries + [text] else h.entries, NotViewing, [])
  }

  const BACKSLASH: CodePoint := 0x5C
  const SLASH: CodePoint := 0x2F
  const NEWLINE: CodePoint := 0x0A
  const SPACE: CodePoint := 0x20

  /** The line ends in a character that changes what the Enter key does. */
  predicate EndsSpecial(text: Text) {
    text != [] && (text[|text| - 1] == BACKSLASH || text[|text| - 1] == SLASH)
  }

  datatype Outcome = Outcome(text: Text, hist: Hist<Text>, more: bool)

  /** What the Enter key, or the end of input, makes of the text: a final `\` or `/` is a marker and comes off. */
  function Closed(text: Text, endOfStream: bool, multiline: bool): (Text, bool) {
    var n := |text|;
    if EndsSpecial(text) then
      if text[n - 1] == BACKSLASH then (text[..n - 1] + [NEWLINE], !multiline)
      else (if text[..n - 1] == [SPACE] then [] else text[..n - 1], false)
    else if endOfStream then (text, false)
    else (text + [NEWLINE], multiline)
  }

  /** What is handed back when the line is submitted, or input ends. */
  function Submit(s: Session, endOfStream: bool, multiline: bool): (o: Outcome)
    requires s.Valid()
    ensures o.hist.Valid()
  {
    var (line, more) := Closed(s.doc.text, endOfStream, multiline);
    if endOfStream || line == [] then
      Outcome(line, s.hist, more)
    else
      var kept := if line[|line| - 1] == NEWLINE then line[..|line| - 1] else line;
      Outcome(kept, Remember(s.hist, kept), more)
  }

  // ----- What the model promises

  /** Every code point of a stretch is a space (`want`), or none is. */
  ghost predicate Stretch(text: Text, a: nat, b: nat, isSpace: Spaces, want: bool) {
    a <= b <= |text| && forall i :: a <= i < b ==> isSpace(text[i]) == want
  }

  /**
   Control-left goes back over spaces and then over one whole word: to where that word begins, or to
   the start of the line if there is none. No other place is like that.
   */
  lemma WordLeftStops(text: Text, k: nat, isSpace: Spaces)
    requires k <= |text|
    ensures var r := WordLeftOf(text, k, isSpace);
            && (exists m: nat :: Stretch(text, r, m, isSpace, false) && Stretch(text, m, k, isSpace, true) && (m == r ==> r == 0))
            && (r == 0 || isSpace(text[r - 1]))
  {
    var m := SkipLeft(text, k, isSpace, true);
    assert Stretch(text, m, k, isSpace, true);
    assert Stretch(text, WordLeftOf(text, k, isSpace), m, isSpace, false);
  }

  lemma WordLeftUnique(text: Text, k: nat, isSpace: Spaces, r: nat, m: nat)
    requires Stretch(text, r, m, isSpace, false) && Stretch(text, m, k, isSpace, true)
    requires (m == r ==> r == 0) && (r == 0 || isSpace(text[r - 1]))
    ensures r == WordLeftOf(text, k, isSpace)
  {
    SkipLeftIs(text, k, m, isSpace, true);
    SkipLeftIs(text, m, r, isSpace, false);
  }

  lemma {:induction false} SkipLeftIs(text: Text, k: nat, r: nat, isSpace: Spaces, want: bool)
    requires Stretch(text, r, k, isSpace, want) && (r == 0 || isSpace(text[r - 1]) != want)
    ensures SkipLeft(text, k, isSpace, want) == r
    decreases k
  {
    if r < k {
      SkipLeftIs(text, k - 1, r, isSpace, want);
    }
  }

  /**
   Control-right goes over spaces, one word and the spaces behind it: to where the next word begins, or
   to the end of the line. No other place is like that.
   */
  lemma WordRightStops(text: Text, k: nat, isSpace: Spaces)
    requires k <= |text|
    ensures var r := WordRightOf(text, k, isSpace);
            && (exists a: nat, b: nat ::
                  && Stretch(text, k, a, isSpace, true) && Stretch(text, a, b, isSpace, false) && Stretch(text, b, r, isSpace, true)
                  && (a < |text| ==> a < b) && (b < |text| ==> b < r))
            && (r < |text| ==> !isSpace(text[r]))
  {
    var a := SkipRight(text, k, isSpace, true);
    var b := SkipRight(text, a, isSpace, false);
    assert Stretch(text, k, a, isSpace, true) && Stretch(text, a, b, isSpace, false);
    assert Stretch(text, b, WordRightOf(text, k, isSpace), isSpace, true);
  }

  lemma WordRightUnique(text: Text, k: nat, isSpace: Spaces, r: nat, a: nat, b: nat)
    requires Stretch(text, k, a, isSpace, true) && Stretch(text, a, b, isSpace, false) && Stretch(text, b, r, isSpace, true)
    requires (a < |text| ==> a < b) && (b < |text| ==> b < r) && (r < |text| ==> !isSpace(text[r]))
    ensures r == WordRightOf(text, k, isSpace)
  {
    SkipRightIs(text, k, a, isSpace, true);
    SkipRightIs(text, a, b, isSpace, false);
    SkipRightIs(text, b, r, isSpace, true);
  }

  lemma {:induction false} SkipRightIs(text: Text, k: nat, r: nat, isSpace: Spaces, want: bool)
    requires Stretch(text, k, r, isSpace, want) && (r == |text| || isSpace(text[r]) != want)
    ensures SkipRight(text, k, isSpace, want) == r
    decreases |text| - k
  {
    if k < r {
      SkipRightIs(text, k + 1, r, isSpace, want);
    }
  }

  lemma InsertThenBackspace(doc: Doc, ch: CodePoint, isSpace: Spaces)
    requires doc.Valid()
    ensures Edit(Edit(doc, Insert(ch), isSpace), Backspace, isSpace) == doc
  {
  }

  lemma DeleteUndoneByInsert(doc: Doc, isSpace: Spaces)
    requires doc.Valid() && doc.cursor < |doc.text|
    ensures Edit(Edit(Edit(doc, Delete, isSpace), Insert(doc.text[doc.cursor]), isSpace), Left, isSpace) == doc
  {
  }

  lemma BackspaceIsLeftDelete(doc: Doc, isSpace: Spaces)
    requires doc.Valid() && doc.cursor > 0
    ensures Edit(doc, Backspace, isSpace) == Edit(Edit(doc, Left, isSpace), Delete, isSpace)
  {
  }

  function Ups(n: nat): seq<Key> {
    seq(n, _ => Up)
  }

  function Downs(n: nat): seq<Key> {
    seq(n, _ => Down)
  }

  lemma {:induction false} RunConcat(s: Session, a: seq<Key>, b: seq<Key>, isSpace: Spaces)
    requires s.Valid()
    ensures Run(s, a + b, isSpace) == Run(Run(s, a, isSpace), b, isSpace)
  {
    if b == [] {
      assert a + b == a;
    } else {
      var n := |b| - 1;
      assert (a + b)[..|a| + n] == a + b[..n];
      RunConcat(s, a, b[..n], isSpace);
    }
  }

  /** Without entries neither key touches the line, and down does nothing while no entry is shown. */
  lemma NothingToShow(s: Session, isSpace: Spaces)
    requires s.Valid()
    ensures s.hist.entries == [] ==> Step(s, Up, isSpace).doc == s.doc && Step(s, Down, isSpace).doc == s.doc
    ensures s.hist.viewing.NotViewing? ==> Step(s, Down, isSpace) == s
    ensures Step(s, Ignored, isSpace) == s
  {
  }

  // ----- What the keys do to a text

  function Times(key: Key, n: nat): seq<Key> {
    seq(n, _ => key)
  }

  /** Where `n` steps to the right lead, or to the left. */
  lemma {:induction false} ManySteps(s: Session, n: nat, isSpace: Spaces)
    requires s.Valid()
    ensures var size, k := |s.doc.text|, s.doc.cursor;
            && Run(s, Times(Right, n), isSpace) == Session(Doc(s.doc.text, if k + n <= size then k + n else size), s.hist)
            && Run(s, Times(Left, n), isSpace) == Session(Doc(s.doc.text, if n <= k then k - n else 0), s.hist)
  {
    if n > 0 {
      assert Times(Right, n)[..n - 1] == Times(Right, n - 1) && Times(Left, n)[..n - 1] == Times(Left, n - 1);
      ManySteps(s, n - 1, isSpace);
    }
  }

  lemma {:induction false} RunThree(s: Session, a: Key, b: seq<Key>, c: Key, isSpace: Spaces)
    requires s.Valid()
    ensures Run(s, [a] + b + [c], isSpace) == Step(Run(Step(s, a, isSpace), b, isSpace), c, isSpace)
  {
    RunConcat(s, [a] + b, [c], isSpace);
    RunConcat(s, [a], b, isSpace);
    assert [a][..0] == [] && [c][..0] == [];
  }

  /** The place `n` from the start, or the end of the text if it is not so long. */
  function FromStart(text: Text, n: nat): (i: nat)
    ensures i <= |text|
  {
    if n <= |text| then n else |text|
  }

  lemma ToEnds(s: Session, isSpace: Spaces)
    requires s.Valid()
    ensures Step(s, Home, isSpace) == Session(Doc(s.doc.text, 0), s.hist)
    ensures Step(s, End, isSpace) == Session(Doc(s.doc.text, |s.doc.text|), s.hist)
  {
  }

  lemma {:induction false} ToPlace(s: Session, n: nat, key: Key, isSpace: Spaces)
    requires s.Valid()
    ensures var text := s.doc.text;
            && Run(s, [Home] + Times(Right, n) + [key], isSpace) == Step(Session(Doc(text, FromStart(text, n)), s.hist), key, isSpace)
            && Run(s, [End] + Times(Left, n) + [key], isSpace) == Step(Session(Doc(text, |text| - FromStart(text, n)), s.hist), key, isSpace)
  {
    hide Run, Step, Edit;
    ToEnds(s, isSpace);
    var start, end := Session(Doc(s.doc.text, 0), s.hist), Session(Doc(s.doc.text, |s.doc.text|), s.hist);
    ManySteps(start, n, isSpace);
    ManySteps(end, n, isSpace);
    RunThree(s, Home, Times(Right, n), key, isSpace);
    RunThree(s, End, Times(Left, n), key, isSpace);
  }

  /** What three keys do at a place of the text. */
  lemma AtPlace(text: Text, i: nat, hist: Hist<Text>, ch: CodePoint, isSpace: Spaces)
    requires i <= |text| && hist.Valid()
    ensures var s := Session(Doc(text, i), hist);
            && Step(s, Insert(ch), isSpace).doc == Doc(text[..i] + [ch] + text[i..], i + 1)
            && Step(s, Delete, isSpace).doc.text == text[..i] + text[if i < |text| then i + 1 else i..]
            && Step(s, Backspace, isSpace).doc.text == text[..if i > 0 then i - 1 else 0] + text[i..]
  {
    assert text == text[..i] + text[i..];
  }

  /**
   From the start: after Home and `n` times Right, a character is put in at the place `n`, Delete takes
   the one that stands there, and Backspace the one before it.
   */
  lemma {:induction false} HomeAndRights(s: Session, n: nat, ch: CodePoint, isSpace: Spaces)
    requires s.Valid()
    ensures var text, i := s.doc.text, FromStart(s.doc.text, n);
            && Run(s, [Home] + Times(Right, n) + [Insert(ch)], isSpace).doc == Doc(text[..i] + [ch] + text[i..], i + 1)
            && Run(s, [Home] + Times(Right, n) + [Delete], isSpace).doc.text == text[..i] + text[if i < |text| then i + 1 else i..]
            && Run(s, [Home] + Times(Right, n) + [Backspace], isSpace).doc.text == text[..if i > 0 then i - 1 else 0] + text[i..]
  {
    hide Run, Step, Edit;
    ToPlace(s, n, Insert(ch), isSpace);
    ToPlace(s, n, Delete, isSpace);
    ToPlace(s, n, Backspace, isSpace);
    AtPlace(s.doc.text, FromStart(s.doc.text, n), s.hist, ch, isSpace);
  }

  /** From the end: after End and `n` times Left, so many characters stand behind the one put in. */
  lemma {:induction false} EndAndLefts(s: Session, n: nat, ch: CodePoint, isSpace: Spaces)
    requires s.Valid()
    ensures var text, i := s.doc.text, |s.doc.text| - FromStart(s.doc.text, n);
            && Run(s, [End] + Times(Left, n) + [Insert(ch)], isSpace).doc == Doc(text[..i] + [ch] + text[i..], i + 1)
            && Run(s, [End] + Times(Left, n) + [Delete], isSpace).doc.text == text[..i] + text[if i < |text| then i + 1 else i..]
            && Run(s, [End] + Times(Left, n) + [Backspace], isSpace).doc.text == text[..if i > 0 then i - 1 else 0] + text[i..]
  {
    hide Run, Step, Edit;
    ToPlace(s, n, Insert(ch), isSpace);
    ToPlace(s, n, Delete, isSpace);
    ToPlace(s, n, Backspace, isSpace);
    AtPlace(s.doc.text, |s.doc.text| - FromStart(s.doc.text, n), s.hist, ch, isSpace);
  }

  lemma {:induction false} RunTwo(s: Session, a: Key, b: Key, isSpace: Spaces)
    requires s.Valid()
    ensures Run(s, [a, b], isSpace) == Step(Step(s, a, isSpace), b, isSpace)
  {
    hide Step;
    assert [a, b][..1] == [a] && [a][..0] == [];
    assert Run(s, [a], isSpace) == Step(s, a, isSpace);
  }

  /** A character put in right after Home comes first, and right after End last. */
  lemma {:induction false} HomeAndEnd(s: Session, ch: CodePoint, isSpace: Spaces)
    requires s.Valid()
    ensures Run(s, [Home, Insert(ch)], isSpace).doc.text == [ch] + s.doc.text
    ensures Run(s, [End, Insert(ch)], isSpace).doc.text == s.doc.text + [ch]
  {
    hide Run;
    RunTwo(s, Home, Insert(ch), isSpace);
    RunTwo(s, End, Insert(ch), isSpace);
  }

  /** `n` ups from the line being typed show the n-th newest entry, and stay at the oldest one. */
  lemma {:induction false} ManyUps(s: Session, n: nat, isSpace: Spaces)
    requires s.Valid() && s.hist.viewing.NotViewing? && s.hist.entries != [] && n > 0
    ensures var size := |s.hist.entries|;
            var i := if n <= size then size - n else 0;
            Run(s, Ups(n), isSpace) ==
              Session(Show(s.hist.entries[i]), Hist(s.hist.entries, At(i), s.doc.text))
  {
    assert Ups(n)[..n - 1] == Ups(n - 1);
    if n > 1 {
      ManyUps(s, n - 1, isSpace);
    }
  }

  lemma {:induction false} ManyDowns(s: Session, n: nat, isSpace: Spaces)
    requires s.Valid() && s.hist.viewing.At? && s.hist.viewing.index + n < |s.hist.entries|
    ensures n > 0 ==>
              Run(s, Downs(n), isSpace) == Session(Show(s.hist.entries[s.hist.viewing.index + n]),
                                                   s.hist.(viewing := At(s.hist.viewing.index + n)))
  {
    if n > 0 {
      assert Downs(n)[..n - 1] == Downs(n - 1);
      ManyDowns(s, n - 1, isSpace);
    }
  }

  /** As many downs as ups bring back the line that was being typed, with the cursor at its end. */
  lemma {:induction false} UpsThenDownsRestore(s: Session, n: nat, isSpace: Spaces)
    requires s.Valid() && s.hist.viewing.NotViewing? && 0 < n <= |s.hist.entries|
    ensures Run(s, Ups(n) + Downs(n), isSpace) ==
              Session(Show(s.doc.text), Hist(s.hist.entries, NotViewing, []))
  {
    hide Run, Step;
    var top := Run(s, Ups(n), isSpace);
    ManyUps(s, n, isSpace);
    DownsAndOne(top, n - 1, isSpace);
    RunConcat(s, Ups(n), Downs(n), isSpace);
  }

  /** From an entry, the downs to the newest one and one more. */
  lemma {:induction false} DownsAndOne(s: Session, n: nat, isSpace: Spaces)
    requires s.Valid() && s.hist.viewing.At? && s.hist.viewing.index + n + 1 == |s.hist.entries| && s.doc == Show(s.hist.entries[s.hist.viewing.index])
    ensures Run(s, Downs(n + 1), isSpace) == Session(Show(s.hist.backup), Hist(s.hist.entries, NotViewing, []))
  {
    ManyDowns(s, n, isSpace);
    assert Downs(n + 1)[..n] == Downs(n);
    assert Downs(0) == [];
  }

  // ----- What a submitted line comes to

  /** A text without a marker is handed back; the Enter key wants more lines just in multiline mode. */
  lemma SubmitPlain(s: Session, multiline: bool)
    requires s.Valid() && (s.doc.text == [] || (s.doc.text[|s.doc.text| - 1] != 0x5C && s.doc.text[|s.doc.text| - 1] != 0x2F))
    ensures Submit(s, false, multiline).text == s.doc.text && Submit(s, false, multiline).more == multiline
    ensures Submit(s, true, multiline).text == s.doc.text && !Submit(s, true, multiline).more
  {
  }

  /** A final backslash comes off and turns the mode around; at the end of input a newline takes its place. */
  lemma SubmitBackslash(s: Session, line: Text, multiline: bool)
    requires s.Valid() && s.doc.text == line + [0x5C]
    ensures Submit(s, false, multiline).text == line && Submit(s, false, multiline).more == !multiline
    ensures Submit(s, true, multiline).text == line + [0x0A] && Submit(s, true, multiline).more == !multiline
  {
    assert (line + [0x5C])[..|line|] == line;
    assert (line + [0x0A])[..|line|] == line;
  }

  /** A final slash comes off, with a single space before it, and no more is wanted. */
  lemma SubmitSlash(s: Session, line: Text, ended: bool, multiline: bool)
    requires s.Valid() && s.doc.text == line + [0x2F] && (line == [] || line[|line| - 1] != 0x0A)
    ensures Submit(s, ended, multiline).text == (if line == [0x20] then [] else line) && !Submit(s, ended, multiline).more
  {
    assert (line + [0x2F])[..|line|] == line;
  }

  /** A line that was entered is the newest entry, and the first up key shows it; nothing older is lost. */
  lemma SubmitIsRemembered(s: Session, multiline: bool, isSpace: Spaces)
    requires s.Valid()
    ensures var o := Submit(s, false, multiline);
            && (o.text != [] ==>
                  && o.hist == Hist(if s.hist.entries != [] && s.hist.entries[|s.hist.entries| - 1] == o.text then s.hist.entries
                                    else s.hist.entries + [o.text], NotViewing, [])
                  && Run(Session(Doc([], 0), o.hist), [Up], isSpace).doc == Doc(o.text, |o.text|))
            && (o.text == [] ==> o.hist == s.hist)
    ensures Submit(s, true, multiline).hist == s.hist
  {
    assert [Up][..0] == [];
  }

  /** No entry is empty and no two neighbours are equal. */
  ghost predicate Tidy(h: Hist<Text>) {
    && (forall i :: 0 <= i < |h.entries| ==> h.entries[i] != [])
    && (forall i :: 0 < i < |h.entries| ==> h.entries[i - 1] != h.entries[i])
  }

  lemma {:induction false} RunKeepsEntries(s: Session, keys: seq<Key>, isSpace: Spaces)
    requires s.Valid()
    ensures Run(s, keys, isSpace).hist.entries == s.hist.entries
  {
    if keys != [] {
      RunKeepsEntries(s, keys[..|keys| - 1], isSpace);
    }
  }

  lemma SubmitStaysTidy(s: Session, endOfStream: bool, multiline: bool)
    requires s.Valid() && Tidy(s.hist)
    ensures Tidy(Submit(s, endOfStream, multiline).hist)
  {
    var o := Submit(s, endOfStream, multiline);
    if o.hist != s.hist {
      assert o.hist == Remember(s.hist, o.text);
    }
  }

  /** Keys never change the stored lines, and submitting keeps them tidy. */
  lemma {:induction false} HistoryStaysTidy(s: Session, keys: seq<Key>, endOfStream: bool, multiline: bool, isSpace: Spaces)
    requires s.Valid() && Tidy(s.hist)
    ensures Run(s, keys, isSpace).hist.entries == s.hist.entries
    ensures Tidy(Submit(Run(s, keys, isSpace), endOfStream, multiline).hist)
  {
    RunKeepsEntries(s, keys, isSpace);
    SubmitStaysTidy(Run(s, keys, isSpace), endOfStream, multiline);
  }
}
