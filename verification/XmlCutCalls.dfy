/**
 Text that is cut off anywhere, chat-parser-xml-toolcall.cpp:298-626: what the parser has sent by then is a
 beginning of what it sends for the whole text. All calls but the last are complete, and the last one has its
 name and a beginning of its arguments. So a client that is sent the differences never sees one that cannot
 be computed.
 */
module XmlCutCalls {
  import opened CommonStrings
  import opened ChatParser
  import opened ChatDiff
  import opened XmlFind
  import opened XmlModel
  import opened XmlStops
  import opened XmlRoundTrip
  import opened XmlStreaming
  import opened XmlCut
  import XmlForms

  // ---- pairs ----

  /** One pair, as it is written. */
  function PairText(form: Form, it: Item): string {
    it.gap + (form.keyStart + (it.key + (form.keyValSep + (SecondSep(form, it.sepGap) + (it.raw + form.valEnd)))))
  }

  ghost predicate PairReady(form: Form, o: Oracle, it: Item) {
    CleanItem(form, o, it, false, CallEnd(form, false)) && HeldWhileCut(form, o, it)
  }

  /** A key is cut off. */
  lemma {:induction false} StopsAtKey(input: string, form: Form, o: Oracle, name: string, pos: nat, args: Args, gap: string, behind: nat, recovery: bool)
    requires pos <= behind <= |input| && form.Valid() && o.Valid() && AllSpace(gap)
    requires FindLiteral(input, true, form.keyStart, pos) == Some(Found(gap, pos + |gap|, behind)) && behind == pos + |gap| + |form.keyStart|
    requires KeyFrom(input, true, form, behind).None?
    ensures RestStop(input, form, o, name, pos, args, recovery) == KeyStop(input, true, form, o, name, args, behind)
    ensures RestStops(input, form, o, name, pos, args)
  {
    hide FindLiteral, AllSpace, KeyFrom, KeyStop;
  }

  /** A value is cut off. */
  lemma {:induction false} StopsAtValue(input: string, form: Form, o: Oracle, name: string, pos: nat, args: Args, gap: string, behind: nat, key: string, v: nat, recovery: bool)
    requires pos <= behind <= v <= |input| && form.Valid() && o.Valid() && AllSpace(gap)
    requires FindLiteral(input, true, form.keyStart, pos) == Some(Found(gap, pos + |gap|, behind)) && behind == pos + |gap| + |form.keyStart|
    requires KeyFrom(input, true, form, behind) == Some((key, v)) && ValueFrom(input, true, form, o, v).None?
    ensures RestStop(input, form, o, name, pos, args, recovery) == ValueStop(input, true, form, o, name, args, key, v)
    ensures RestStops(input, form, o, name, pos, args)
  {
    hide FindLiteral, AllSpace, KeyFrom, ValueFrom, ValueStop;
  }

  /** From behind a key: cut off before the value or in it. */
  lemma {:induction false} CutBehindKey(input: string, form: Form, o: Oracle, name: string, args: Args, it: Item, v: nat, rest: string) returns (part: string)
    requires Streamable(form) && o.Valid() && (forall s :: o.truncate(s) <= s) && PairReady(form, o, it)
    requires At(input, v, rest) && rest <= SecondSep(form, it.sepGap) + (it.raw + form.valEnd)
    requires |rest| < |SecondSep(form, it.sepGap) + (it.raw + form.valEnd)|
    ensures PartOf(form, it, part) && ValueFrom(input, true, form, o, v).None?
    ensures ValueStop(input, true, form, o, name, args, it.key, v) == CutStop(o, name, Put(args, it.key, Text(part + NEEDLE)))
  {
    hide Streamable, ReadableForm, CutStop, Put, EitherFrom, EitherStop, SepStop, SepEnd, SecondSep, HeldWhileCut, EndsFirst, AllSpace, Understood;
    var sep := SecondSep(form, it.sepGap);
    FormReads(form);
    if |rest| < |sep| {
      PrefixSplit(rest, sep, it.raw + form.valEnd);
      part := "";
      CutInSep(input, form, o, name, args, it.key, v, it.sepGap, rest);
    } else {
      PrefixSplit(rest, sep, it.raw + form.valEnd);
      var behind := rest[|sep|..];
      ReadsSep(input, true, form, v, it.sepGap, behind);
      Ahead(input, v, sep, behind);
      part := CutInValue(input, form, o, name, args, it.key, it, v + |sep|, behind);
    }
  }

  lemma FormReads(form: Form)
    requires Streamable(form)
    ensures ReadableForm(form) && form.Valid() && form.lastValEnd.None? && form.lastToolEnd.None?
    ensures StartsBlack(form.keyStart) && form.keyStart != "" && StartsBlack(form.toolStart)
  {
  }

  /** Cut off within a pair. */
  lemma {:induction false} CutInPair(input: string, form: Form, o: Oracle, w: Writer, name: string, pos: nat, it: Item, args: Args, rest: string,
                                     later: Args, recovery: bool)
    requires Streamable(form) && form.Valid() && Streams(o, w) && PairReady(form, o, it) && name != "" && NewIn(it.key, args)
    requires At(input, pos, rest) && rest <= PairText(form, it) && |rest| < |PairText(form, it)|
    ensures RestStops(input, form, o, name, pos, args)
    ensures Begun(RestStop(input, form, o, name, pos, args, recovery), name, ObjectText(w, args + ([(it.key, ValueOf(form, it))] + later)))
  {
    hide Streamable, ReadableForm, CutStop, OpenStop, Put, FindLiteral, KeyFrom, ValueFrom, KeyStop, ValueStop, RestStop, RestStops, ObjectText,
         SecondSep, HeldWhileCut, EndsFirst, AllSpace, Understood, Begun, ValueOf, NewIn, PairText;
    var tail := it.key + (form.keyValSep + (SecondSep(form, it.sepGap) + (it.raw + form.valEnd)));
    FormReads(form);
    PairParts(form, it);
    if |rest| < |it.gap + form.keyStart| {
      PrefixSplit(rest, it.gap + form.keyStart, tail);
      CutBeforeKey(input, form, o, name, pos, args, it.gap, rest, recovery);
      BegunBetween(o, w, name, args, [(it.key, ValueOf(form, it))] + later);
    } else {
      PrefixSplit(rest, it.gap + form.keyStart, tail);
      var behind := rest[|it.gap + form.keyStart|..];
      assert rest == it.gap + (form.keyStart + behind);
      FindsGap(input, true, pos, it.gap, form.keyStart, behind);
      Ahead(input, pos, it.gap + form.keyStart, behind);
      CutBehindStart(input, form, o, w, name, pos, pos + |it.gap| + |form.keyStart|, it, args, behind, later, recovery);
    }
  }

  lemma PairParts(form: Form, it: Item)
    ensures PairText(form, it)
            == (it.gap + form.keyStart) + (it.key + (form.keyValSep + (SecondSep(form, it.sepGap) + (it.raw + form.valEnd))))
    ensures it.key + (form.keyValSep + (SecondSep(form, it.sepGap) + (it.raw + form.valEnd)))
            == (it.key + form.keyValSep) + (SecondSep(form, it.sepGap) + (it.raw + form.valEnd))
  {
    hide SecondSep;
  }

  lemma {:induction false} CutBehindStart(input: string, form: Form, o: Oracle, w: Writer, name: string, pos: nat, start: nat, it: Item, args: Args,
                                          rest: string, later: Args, recovery: bool)
    requires Streamable(form) && form.Valid() && Streams(o, w) && PairReady(form, o, it) && name != "" && NewIn(it.key, args)
    requires pos <= start <= |input| && FindLiteral(input, true, form.keyStart, pos) == Some(Found(it.gap, pos + |it.gap|, start))
    requires start == pos + |it.gap| + |form.keyStart|
    requires var tail := it.key + (form.keyValSep + (SecondSep(form, it.sepGap) + (it.raw + form.valEnd)));
             At(input, start, rest) && rest <= tail && |rest| < |tail|
    ensures RestStops(input, form, o, name, pos, args)
    ensures Begun(RestStop(input, form, o, name, pos, args, recovery), name, ObjectText(w, args + ([(it.key, ValueOf(form, it))] + later)))
  {
    hide Streamable, ReadableForm, CutStop, OpenStop, Put, FindLiteral, ValueFrom, KeyStop, ValueStop, RestStop, RestStops, ObjectText,
         SecondSep, HeldWhileCut, EndsFirst, AllSpace, Understood, Begun, ValueOf, NewIn, PairText, At;
    var tail := SecondSep(form, it.sepGap) + (it.raw + form.valEnd);
    PairParts(form, it);
    PrefixSplit(rest, it.key + form.keyValSep, tail);
    if |rest| < |it.key + form.keyValSep| {
      var part := CutInKey(input, form, o, start, it.key, rest);
      StopsAtKey(input, form, o, name, pos, args, it.gap, start, recovery);
      BegunInKey(o, w, name, args, it.key, part, ValueOf(form, it), later);
    } else {
      var behind := rest[|it.key + form.keyValSep|..];
      assert rest == it.key + (form.keyValSep + behind);
      FindsEnd(input, true, start, it.key, form.keyValSep, behind);
      var v := start + |it.key| + |form.keyValSep|;
      Ahead(input, start, it.key + form.keyValSep, behind);
      var part := CutBehindKey(input, form, o, name, args, it, v, behind);
      StopsAtValue(input, form, o, name, pos, args, it.gap, start, it.key, v, recovery);
      BegunInValue(o, w, form, name, args, it, part, later);
    }
  }

  // ---- all the pairs of a call ----

  /** The arguments that are still to come. */
  function Pending(form: Form, items: seq<Item>): (args: Args)
    ensures |args| == |items| && forall i :: 0 <= i < |items| ==> args[i] == (items[i].key, ValueOf(form, items[i]))
  {
    seq(|items|, i requires 0 <= i < |items| => (items[i].key, ValueOf(form, items[i])))
  }

  ghost predicate NewKeys(items: seq<Item>, args: Args) {
    && (forall i :: 0 <= i < |items| ==> NewIn(items[i].key, args))
    && forall i, j :: 0 <= i < j < |items| ==> items[i].key != items[j].key
  }

  ghost predicate PairsReady(form: Form, o: Oracle, items: seq<Item>) {
    forall i :: 0 <= i < |items| ==> PairReady(form, o, items[i])
  }

  lemma {:induction false} FirstPair(form: Form, items: seq<Item>, tail: string)
    requires items != [] && form.lastValEnd.None?
    ensures ItemsThen(form, items, tail) == PairText(form, items[0]) + ItemsThen(form, items[1..], tail)
  {
    ItemsThenCons(form, items, tail);
    var it, more := items[0], ItemsThen(form, items[1..], tail);
    SevenParts(it.gap, form.keyStart, it.key, form.keyValSep, SecondSep(form, it.sepGap), it.raw, form.valEnd, more);
  }

  lemma SevenParts(a: string, b: string, c: string, d: string, e: string, f: string, g: string, h: string)
    ensures a + (b + (c + (d + (e + (f + (g + h)))))) == (a + (b + (c + (d + (e + (f + g)))))) + h
  {
  }

  lemma NextKeys(items: seq<Item>, args: Args, v: Val)
    requires items != [] && NewKeys(items, args)
    ensures NewKeys(items[1..], args + [(items[0].key, v)])
  {
    var args' := args + [(items[0].key, v)];
    forall i | 0 <= i < |items[1..]|
      ensures NewIn(items[1..][i].key, args')
    {
      assert NewIn(items[i + 1].key, args) && NewIn(items[0].key, args) && items[0].key != items[i + 1].key;
    }
  }

  lemma NextPending(form: Form, items: seq<Item>, args: Args)
    requires items != []
    ensures args + Pending(form, items) == (args + [(items[0].key, ValueOf(form, items[0]))]) + Pending(form, items[1..])
    ensures args + Pending(form, items) == args + ([(items[0].key, ValueOf(form, items[0]))] + Pending(form, items[1..]))
  {
    hide ValueOf;
  }

  /** Cut off anywhere before the end of a call is complete. */
  lemma {:induction false} CutInPairs(input: string, form: Form, o: Oracle, w: Writer, name: string, pos: nat, items: seq<Item>, args: Args,
                                      endGap: string, rest: string, recovery: bool)
    requires Streamable(form) && form.Valid() && Streams(o, w) && PairsReady(form, o, items) && AllSpace(endGap) && name != "" && NewKeys(items, args)
    requires At(input, pos, rest) && rest <= ItemsThen(form, items, endGap + form.toolEnd)
    requires |rest| < |ItemsThen(form, items, endGap + form.toolEnd)|
    ensures RestStops(input, form, o, name, pos, args)
    ensures Begun(RestStop(input, form, o, name, pos, args, recovery), name, ObjectText(w, args + Pending(form, items)))
    decreases |items|
  {
    hide Streamable, ReadableForm, OpenStop, Put, RestStop, RestStops, ObjectText, HeldWhileCut, AllSpace, Begun, ValueOf, NewIn, PairText, At,
         PairReady, Writes, NewKeys, Pending;
    FormReads(form);
    if items == [] {
      NoItems(form, items, endGap + form.toolEnd);
      CutInEnd(input, form, o, name, pos, args, endGap, rest, recovery);
      BegunBetween(o, w, name, args, Pending(form, items));
    } else {
      var it := items[0];
      var more := ItemsThen(form, items[1..], endGap + form.toolEnd);
      FirstPair(form, items, endGap + form.toolEnd);
      PrefixSplit(rest, PairText(form, it), more);
      NextPending(form, items, args);
      FirstIsNew(items, args);
      if |rest| < |PairText(form, it)| {
        CutInPair(input, form, o, w, name, pos, it, args, rest, Pending(form, items[1..]), recovery);
      } else {
        var behind := rest[|PairText(form, it)|..];
        var next := PastPair(input, form, o, pos, it, behind);
        SameRest(input, form, o, name, pos, args, it, next, recovery);
        PutAppends(args, it.key, ValueOf(form, it));
        NextKeys(items, args, ValueOf(form, it));
        CutInPairs(input, form, o, w, name, next, items[1..], Put(args, it.key, ValueOf(form, it)), endGap, behind, recovery);
      }
    }
  }

  lemma {:induction false} NoItems(form: Form, items: seq<Item>, tail: string)
    requires items == []
    ensures ItemsThen(form, items, tail) == tail
  {
  }

  lemma FirstIsNew(items: seq<Item>, args: Args)
    requires items != [] && NewKeys(items, args)
    ensures NewIn(items[0].key, args) && forall i :: 0 <= i < |args| ==> args[i].0 != items[0].key
  {
  }

  /** A pair that is all there. */
  lemma {:induction false} PastPair(input: string, form: Form, o: Oracle, pos: nat, it: Item, rest: string) returns (next: nat)
    requires Streamable(form) && form.Valid() && o.Valid() && PairReady(form, o, it) && At(input, pos, PairText(form, it) + rest)
    ensures pos <= next <= |input| && At(input, next, rest) && PairRead(input, true, form, o, pos, it, next)
  {
    hide Streamable, ReadableForm, HeldWhileCut, CleanItem, PairRead, At, SecondSep;
    FormReads(form);
    SevenParts(it.gap, form.keyStart, it.key, form.keyValSep, SecondSep(form, it.sepGap), it.raw, form.valEnd, rest);
    assert ValEnd(form, false) == form.valEnd;
    next := ReadsPair(input, true, form, o, pos, it, false, false, rest);
  }

  // ---- calls ----

  /** The text of a call from behind `tool_start`, up to the end of the call. */
  function CallRest(form: Form, c: Call): string {
    c.text + (SoughtText(form.toolSep) + ItemsThen(form, c.items, c.endGap + form.toolEnd))
  }

  /** No literal that may end the name seems to begin in it. */
  predicate CutName(form: Form, c: Call) {
    && form.Valid() && form.toolEnd[0] !in c.text
    && if AllSpace(form.toolSep) then form.keyStart[0] !in c.text else form.toolSep[0] !in c.text
  }

  /** Different keys, none of which looks cut off. */
  ghost predicate CutReady(form: Form, o: Oracle, kimi: bool, c: Call) {
    && CutName(form, c) && NameOf(kimi, c) != "" && PairsReady(form, o, c.items) && NewKeys(c.items, [])
    && AllSpace(c.gap) && AllSpace(c.endGap)
    && (AllSpace(form.toolSep) ==> if c.items == [] then c.endGap == "" else c.items[0].gap == "")
  }

  lemma {:induction false} WholeArgs(form: Form, items: seq<Item>)
    requires NewKeys(items, [])
    ensures ArgsOf(form, items) == [] + Pending(form, items)
  {
    hide ValueOf;
    DifferentKeys(form, items);
  }

  /** The rest of a call whose name has been read. */
  lemma {:induction false} CallIsRest(input: string, form: Form, o: Oracle, kimi: bool, pos: nat, f: Found, recovery: bool)
    requires pos <= |input| && form.Valid() && o.Valid() && NameFrom(input, true, form, pos) == Some(f)
    ensures var name, start := PlainName(kimi, Strip(f.prelude)), if AllSpace(form.toolSep) then f.begin else f.end;
            && CallStop(input, true, form, o, kimi, pos, recovery) == RestStop(input, form, o, name, start, [], recovery)
            && (RestStops(input, form, o, name, start, []) ==> CallFrom(input, true, form, o, kimi, pos).None?)
  {
    hide NameFrom, ArgsFrom, ArgsStop, CloseStop, ClosedCall, AllSpace, PlainName, Strip;
  }

  /** While the name is not complete, nothing is sent. */
  lemma {:induction false} CutInName(input: string, form: Form, o: Oracle, kimi: bool, pos: nat, rest: string, recovery: bool)
    requires Streamable(form) && form.Valid() && o.Valid() && At(input, pos, rest)
    requires form.toolEnd[0] !in rest && if AllSpace(form.toolSep) then form.keyStart[0] !in rest else form.toolSep[0] !in rest
    ensures CallFrom(input, true, form, o, kimi, pos).None? && CallStop(input, true, form, o, kimi, pos, recovery) == Stop([], Partial)
  {
    hide ReadableForm, FindLiteral, AllSpace, TagLike, ArgsFrom, ArgsStop, CloseStop, ClosedCall, PlainName, Strip;
    NotBlank(form.valEnd, form);
    BlankSep(form);
    FindsNoPart(input, pos, rest, form.toolEnd);
    FindsNoPart(input, pos, rest, if AllSpace(form.toolSep) then form.keyStart else form.toolSep);
  }

  lemma BlankSep(form: Form)
    ensures !AllSpace(form.toolSep) ==> form.toolSep != ""
  {
  }

  lemma Lacks(rest: string, text: string, c: char)
    requires rest <= text && c !in text
    ensures c !in rest
  {
    assert forall i :: 0 <= i < |rest| ==> rest[i] == text[i];
  }

  /** The name is read once anything of what follows it is there. */
  lemma {:induction false} NameIsRead(input: string, form: Form, pos: nat, text: string, literal: string, tail: string, rest: string)
    requires Streamable(form) && form.Valid() && form.toolEnd[0] !in text && TagLike(literal)
    requires literal == (if AllSpace(form.toolSep) then form.keyStart else form.toolSep) && literal[0] !in text
    requires At(input, pos, rest) && rest <= text + (literal + tail) && |rest| > |text|
    ensures NameFrom(input, true, form, pos)
            == Some(Found(text, pos + |text|, if |rest| < |text + literal| then |input| else pos + |text| + |literal|))
  {
    hide ReadableForm, FindLiteral, AllSpace, TagLike, CloseOfCall, EndsFirst;
    LacksEndsFirst(text, literal);
    assert text + (literal + tail) == (text + literal) + tail;
    PrefixSplit(rest, text + literal, tail);
    if |rest| < |text + literal| {
      FindsBegun(input, pos, text, literal, rest);
    } else {
      assert rest == text + (literal + rest[|text + literal|..]);
      FindsEnd(input, true, pos, text, literal, rest[|text + literal|..]);
    }
    FirstInText(text, form.toolEnd);
  }

  lemma {:induction false} LacksEndsFirst(text: string, literal: string)
    requires TagLike(literal) && literal[0] !in text
    ensures EndsFirst(text, literal)
  {
    var t := text + literal;
    assert t[|text|..|text| + |literal|] == literal;
    assert OccursAt(t, literal, |text|);
    forall i | 0 <= i < |text|
      ensures !OccursAt(t, literal, i)
    {
      assert i + |literal| <= |t| ==> t[i..i + |literal|][0] == text[i];
    }
  }

  lemma {:induction false} FirstInText(text: string, literal: string)
    requires literal != ""
    ensures FindFrom(text, literal, 0).Some? ==> literal[0] in text
  {
    var r := FindFrom(text, literal, 0);
    if r.Some? {
      assert OccursAt(text, literal, r.value) && text[r.value] == text[r.value..r.value + |literal|][0];
    }
  }

  /** Or read where the end of a call without arguments has begun. */
  lemma {:induction false} BareNameIsRead(input: string, form: Form, pos: nat, text: string, rest: string)
    requires Streamable(form) && form.Valid() && AllSpace(form.toolSep) && form.toolEnd[0] !in text && form.keyStart[0] !in text
    requires At(input, pos, rest) && rest <= text + form.toolEnd && |text| < |rest| < |text + form.toolEnd|
    ensures var f := NameFrom(input, true, form, pos);
            f.Some? && f.value.prelude == text && f.value.begin == pos + |text|
  {
    hide ReadableForm, FindLiteral, AllSpace, TagLike, EndsFirst;
    BareTags(form);
    LacksEndsFirst(text, form.toolEnd);
    FindsBegun(input, pos, text, form.toolEnd, rest);
    FirstInText(text, form.toolEnd);
    FoundStands(input, true, form.keyStart, pos);
    var k := FindLiteral(input, true, form.keyStart, pos);
    if k.Some? {
      KeyAtEnd(input, form, pos, text, rest, k.value.begin);
    }
  }

  lemma BareTags(form: Form)
    requires Streamable(form)
    ensures TagLike(form.toolEnd) && TagLike(form.keyStart) && form.lastToolEnd.None?
  {
  }

  /** A key that seems to begin there begins where the end does. */
  lemma {:induction false} KeyAtEnd(input: string, form: Form, pos: nat, text: string, rest: string, b: nat)
    requires Streamable(form) && form.Valid() && AllSpace(form.toolSep) && form.keyStart[0] !in text
    requires At(input, pos, rest) && rest <= text + form.toolEnd && |rest| < |text + form.toolEnd|
    requires pos <= b < |input| && input[b] == form.keyStart[0]
    ensures b == pos + |text|
  {
    hide ReadableForm, TagLike, AllSpace;
    assert input[b] == rest[b - pos] == (text + form.toolEnd)[b - pos];
    assert forall i :: 0 <= i < |text| ==> text[i] in text && (text + form.toolEnd)[i] == text[i];
    assert forall i :: |text| < i < |text + form.toolEnd| ==>
             (text + form.toolEnd)[i] == form.toolEnd[1..][i - |text| - 1] && form.toolEnd[1..][i - |text| - 1] in form.toolEnd[1..];
  }

  /** Where the rest of a call begins in the text behind its name, and how it stops. */
  lemma {:induction false} CutBehindName(input: string, form: Form, o: Oracle, w: Writer, kimi: bool, pos: nat, c: Call, f: Found, start: nat, rest: string, recovery: bool)
    requires Streamable(form) && form.Valid() && Streams(o, w) && CutReady(form, o, kimi, c)
    requires pos <= start <= |input| && NameFrom(input, true, form, pos) == Some(f) && f.prelude == c.text
    requires start == if AllSpace(form.toolSep) then f.begin else f.end
    requires At(input, start, rest) && rest <= ItemsThen(form, c.items, c.endGap + form.toolEnd)
    requires |rest| < |ItemsThen(form, c.items, c.endGap + form.toolEnd)|
    ensures CallFrom(input, true, form, o, kimi, pos).None?
    ensures Begun(CallStop(input, true, form, o, kimi, pos, recovery), NameOf(kimi, c), ObjectText(w, ArgsOf(form, c.items)))
  {
    hide Streamable, NameFrom, CallFrom, CallStop, RestStop, RestStops, AllSpace, ItemsThen, At, Begun, ObjectText, ArgsOf, PlainName, Strip,
         NewKeys, PairsReady, Writes, Pending;
    CallIsRest(input, form, o, kimi, pos, f, recovery);
    CutInPairs(input, form, o, w, NameOf(kimi, c), start, c.items, [], c.endGap, rest, recovery);
    WholeArgs(form, c.items);
  }

  lemma {:induction false} ItemsNotShorter(form: Form, items: seq<Item>, tail: string)
    ensures |ItemsThen(form, items, tail)| >= |tail|
    decreases |items|
  {
    if items != [] {
      ItemsThenCons(form, items, tail);
      ItemsNotShorter(form, items[1..], tail);
    }
  }

  /** Cut off within a call, from behind `tool_start`: nothing is sent up to the end of its name, and then it has begun. */
  lemma {:induction false} CutInCall(input: string, form: Form, o: Oracle, w: Writer, kimi: bool, pos: nat, c: Call, rest: string, recovery: bool)
    requires Streamable(form) && form.Valid() && Streams(o, w) && CutReady(form, o, kimi, c)
    requires At(input, pos, rest) && rest <= CallRest(form, c) && |rest| < |CallRest(form, c)|
    ensures CallFrom(input, true, form, o, kimi, pos).None?
    ensures var stop := CallStop(input, true, form, o, kimi, pos, recovery);
            if |rest| <= |c.text| then stop == Stop([], Partial) else Begun(stop, NameOf(kimi, c), ObjectText(w, ArgsOf(form, c.items)))
  {
    hide Streamable, NameFrom, CallFrom, CallStop, AllSpace, ItemsThen, At, Begun, ObjectText, ArgsOf, PlainName, Strip,
         NewKeys, PairsReady, Writes, Pending;
    var items := ItemsThen(form, c.items, c.endGap + form.toolEnd);
    PrefixSplit(rest, c.text, SoughtText(form.toolSep) + items);
    if |rest| <= |c.text| {
      Lacks(rest, c.text, form.toolEnd[0]);
      NotBlank("", form);
      BlankSep(form);
      Lacks(rest, c.text, if AllSpace(form.toolSep) then form.keyStart[0] else form.toolSep[0]);
      CutInName(input, form, o, kimi, pos, rest, recovery);
    } else if AllSpace(form.toolSep) {
      CutBehindBareName(input, form, o, w, kimi, pos, c, rest, recovery);
    } else {
      SepIsTag(form);
      NameIsRead(input, form, pos, c.text, form.toolSep, items, rest);
      var f := NameFrom(input, true, form, pos).value;
      assert c.text + (form.toolSep + items) == (c.text + form.toolSep) + items;
      PrefixSplit(rest, c.text + form.toolSep, items);
      ItemsNotShorter(form, c.items, c.endGap + form.toolEnd);
      if |rest| < |c.text + form.toolSep| {
        AtEnd(input);
        CutBehindName(input, form, o, w, kimi, pos, c, f, |input|, "", recovery);
      } else {
        var behind := rest[|c.text + form.toolSep|..];
        Ahead(input, pos, c.text + form.toolSep, behind);
        CutBehindName(input, form, o, w, kimi, pos, c, f, f.end, behind, recovery);
      }
    }
  }

  lemma SepIsTag(form: Form)
    requires Streamable(form) && !AllSpace(form.toolSep)
    ensures TagLike(form.toolSep)
  {
  }

  lemma AtEnd(input: string)
    ensures At(input, |input|, "")
  {
  }

  lemma {:induction false} CutBehindBareName(input: string, form: Form, o: Oracle, w: Writer, kimi: bool, pos: nat, c: Call, rest: string, recovery: bool)
    requires Streamable(form) && form.Valid() && Streams(o, w) && CutReady(form, o, kimi, c) && AllSpace(form.toolSep)
    requires At(input, pos, rest) && rest <= CallRest(form, c) && |c.text| < |rest| < |CallRest(form, c)|
    ensures CallFrom(input, true, form, o, kimi, pos).None?
    ensures Begun(CallStop(input, true, form, o, kimi, pos, recovery), NameOf(kimi, c), ObjectText(w, ArgsOf(form, c.items)))
  {
    hide Streamable, NameFrom, CallFrom, CallStop, AllSpace, ItemsThen, At, Begun, ObjectText, ArgsOf, PlainName, Strip,
         NewKeys, PairsReady, Writes, Pending;
    var items := ItemsThen(form, c.items, c.endGap + form.toolEnd);
    assert CallRest(form, c) == c.text + items;
    PrefixSplit(rest, c.text, items);
    if c.items == [] {
      NoItems(form, c.items, c.endGap + form.toolEnd);
      assert items == form.toolEnd;
      BareNameIsRead(input, form, pos, c.text, rest);
    } else {
      BareTags(form);
      var more := KeyComesFirst(form, c.items, c.endGap + form.toolEnd);
      NameIsRead(input, form, pos, c.text, form.keyStart, more, rest);
    }
    var f := NameFrom(input, true, form, pos).value;
    Ahead(input, pos, c.text, rest[|c.text|..]);
    CutBehindName(input, form, o, w, kimi, pos, c, f, f.begin, rest[|c.text|..], recovery);
  }

  lemma {:induction false} KeyComesFirst(form: Form, items: seq<Item>, tail: string) returns (more: string)
    requires items != [] && items[0].gap == ""
    ensures ItemsThen(form, items, tail) == form.keyStart + more
  {
    ItemsThenCons(form, items, tail);
    var it := items[0];
    more := it.key + (form.keyValSep + (SecondSep(form, it.sepGap) + (it.raw + (ValEnd(form, |items| == 1) + ItemsThen(form, items[1..], tail)))));
    assert "" + (form.keyStart + more) == form.keyStart + more;
  }

  // ---- all calls ----

  /** What has been sent: all that was read, or what goes out when the parser stops. */
  function SentFrom(input: string, form: Form, o: Oracle, kimi: bool, pos: nat, recovery: bool): seq<ToolCall>
    requires pos <= |input| && form.Valid() && o.Valid()
  {
    match CallsFrom(input, true, form, o, kimi, pos)
    case None => CallsStop(input, true, form, o, kimi, pos, recovery).sent
    case Some((calls, _)) => calls
  }

  /** It is a beginning: the same calls, the last one perhaps with fewer arguments. */
  ghost predicate BeginsCalls(sent: seq<ToolCall>, all: seq<ToolCall>) {
    && |sent| <= |all|
    && (forall i :: 0 <= i < |sent| - 1 ==> sent[i] == all[i])
    && (sent != [] ==> var i := |sent| - 1;
          sent[i].name == all[i].name && sent[i].id == all[i].id && sent[i].arguments <= all[i].arguments)
  }

  /** How many calls show in the first `n` characters: those whose names are complete. */
  function Shown(form: Form, calls: seq<Call>, n: int): (k: nat)
    ensures k <= |calls|
    decreases |calls|
  {
    if calls == [] then 0 else
    var c := calls[0];
    if n <= |c.gap| + |form.toolStart| + |c.text| then 0
    else 1 + Shown(form, calls[1..], n - |c.gap| - |form.toolStart| - |CallRest(form, c)|)
  }

  lemma {:induction false} MoreShown(form: Form, calls: seq<Call>, m: int, n: int)
    requires m <= n
    ensures Shown(form, calls, m) <= Shown(form, calls, n)
    decreases |calls|
  {
    hide CallRest;
    if calls != [] {
      var c := calls[0];
      var size := |c.gap| + |form.toolStart| + |CallRest(form, c)|;
      MoreShown(form, calls[1..], m - size, n - size);
    }
  }

  ghost predicate AllCutReady(form: Form, o: Oracle, kimi: bool, calls: seq<Call>) {
    forall i :: 0 <= i < |calls| ==> CutReady(form, o, kimi, calls[i])
  }

  /** Nothing more begins: what looks like the beginning of a call has no name, and nothing is sent for it. */
  lemma {:induction false} NothingMore(input: string, form: Form, o: Oracle, kimi: bool, pos: nat, recovery: bool)
    requires Streamable(form) && form.Valid() && o.Valid() && pos <= |input|
    requires match FindLiteral(input, true, form.toolStart, pos)
             case None => true
             case Some(f) => !AllSpace(f.prelude) || f.end == |input|
    ensures SentFrom(input, form, o, kimi, pos, recovery) == []
    ensures CallsFrom(input, true, form, o, kimi, pos).None? ==> CallsStop(input, true, form, o, kimi, pos, recovery).out == Partial
  {
    hide Streamable, FindLiteral, CallFrom, CallStop, AllSpace;
    FoundAdvances(input, true, form.toolStart, pos);
    var next := NextCall(input, true, form, pos);
    if next.Some? {
      AtEnd(input);
      CutInName(input, form, o, kimi, |input|, "", recovery);
    }
  }

  /** Behind white space and before something else, a literal is not there, or only a beginning of it. */
  lemma {:induction false} NotWhole(input: string, pos: nat, gap: string, literal: string, end: string, rest: string)
    requires TagLike(literal) && StartsBlack(end) && Apart(literal, end) && AllSpace(gap) && At(input, pos, rest) && rest <= gap + end
    ensures match FindLiteral(input, true, literal, pos)
            case None => true
            case Some(f) => !AllSpace(f.prelude) || f.end == |input|
  {
    hide FindLiteral, TagLike, AllSpace, Apart;
    var r := FindLiteral(input, true, literal, pos);
    PrefixSplit(rest, gap, end);
    FoundStands(input, true, literal, pos);
    LiteralIsThere(literal);
    if r.Some? && AllSpace(r.value.prelude) {
      var b := r.value.begin;
      assert input[b] == rest[b - pos] && r.value.prelude == rest[..b - pos];
      SpaceEndsThere(gap, end, rest, b - pos, literal);
      assert input[b..] == rest[|gap|..] <= end;
      OccursBegins(input, literal, b, rest[|gap|..], end);
      NotPrefix(literal, end);
      FoundEnds(input, literal, pos);
    }
  }

  lemma LiteralIsThere(literal: string)
    requires TagLike(literal)
    ensures literal != "" && !IsSpace(literal[0])
  {
  }

  lemma NotPrefix(a: string, b: string)
    requires Apart(a, b)
    ensures !(a <= b)
  {
  }

  lemma SpaceEndsThere(gap: string, end: string, rest: string, i: nat, literal: string)
    requires AllSpace(gap) && StartsBlack(end) && rest <= gap + end && i < |rest| && AllSpace(rest[..i])
    requires literal != "" && rest[i] == literal[0] && !IsSpace(literal[0])
    ensures i == |gap|
  {
    assert forall k :: 0 <= k < |rest| ==> rest[k] == (gap + end)[k];
    assert forall k :: 0 <= k < i ==> rest[k] == rest[..i][k] && IsSpace(rest[k]);
    assert forall k :: 0 <= k < |rest| && k < |gap| ==> IsSpace(rest[k]);
    assert |gap| < |rest| ==> !IsSpace(rest[|gap|]);
  }

  lemma FoundEnds(input: string, literal: string, pos: nat)
    requires pos <= |input|
    ensures var f := FindLiteral(input, true, literal, pos);
            f.Some? && !OccursAt(input, literal, f.value.begin) ==> f.value.end == |input|
  {
  }

  /** The first pair, up to what follows it. */
  lemma {:induction false} FirstFront(form: Form, items: seq<Item>) returns (front: string)
    requires items != []
    ensures forall tail: string :: ItemsThen(form, items, tail) == front + ItemsThen(form, items[1..], tail)
  {
    hide SecondSep, ValEnd, ItemsThen;
    var it, end := items[0], ValEnd(form, |items| == 1);
    front := it.gap + (form.keyStart + (it.key + (form.keyValSep + (SecondSep(form, it.sepGap) + (it.raw + end)))));
    forall tail: string
      ensures ItemsThen(form, items, tail) == front + ItemsThen(form, items[1..], tail)
    {
      ItemsThenCons(form, items, tail);
      SevenParts(it.gap, form.keyStart, it.key, form.keyValSep, SecondSep(form, it.sepGap), it.raw, end, ItemsThen(form, items[1..], tail));
    }
  }

  lemma {:induction false} ItemsAppend(form: Form, items: seq<Item>, tail: string, rest: string)
    ensures ItemsThen(form, items, tail + rest) == ItemsThen(form, items, tail) + rest
    decreases |items|
  {
    hide ItemsThen;
    if items == [] {
      NoItems(form, items, tail);
      NoItems(form, items, tail + rest);
    } else {
      var front := FirstFront(form, items);
      var x, y := ItemsThen(form, items[1..], tail), ItemsThen(form, items[1..], tail + rest);
      ItemsAppend(form, items[1..], tail, rest);
      ThreeParts(front, x, rest);
      assert ItemsThen(form, items, tail + rest) == front + y == front + (x + rest);
    }
  }

  lemma ThreeParts(a: string, b: string, c: string)
    ensures a + (b + c) == (a + b) + c
  {
  }

  /** One call and what follows it. */
  lemma {:induction false} CallParts(form: Form, c: Call, last: bool, rest: string)
    requires form.lastToolEnd.None?
    ensures CallThen(form, c, last, rest) == (c.gap + form.toolStart) + (CallRest(form, c) + rest)
    ensures CallRest(form, c) + rest
            == c.text + (SoughtText(form.toolSep) + ItemsThen(form, c.items, c.endGap + (CallEnd(form, last) + rest)))
  {
    hide ItemsThen, SoughtText;
    var tail := c.endGap + form.toolEnd;
    assert c.endGap + (form.toolEnd + rest) == tail + rest;
    ItemsAppend(form, c.items, tail, rest);
    var items, sep := ItemsThen(form, c.items, tail), SoughtText(form.toolSep);
    assert c.text + (sep + (items + rest)) == (c.text + (sep + items)) + rest;
    assert c.gap + (form.toolStart + ((c.text + (sep + items)) + rest)) == (c.gap + form.toolStart) + ((c.text + (sep + items)) + rest);
  }

  lemma {:induction false} OneCallSent(all: seq<ToolCall>, stop: Stop, name: string, args: string)
    requires all != [] && all[0] == ToolCall(name, args, "") && Begun(stop, name, args)
    ensures BeginsCalls(stop.sent, all)
  {
  }

  lemma {:induction false} MoreCallsSent(first: ToolCall, sent: seq<ToolCall>, all: seq<ToolCall>)
    requires BeginsCalls(sent, all)
    ensures BeginsCalls([first] + sent, [first] + all)
  {
    var s, a := [first] + sent, [first] + all;
    forall i | 0 <= i < |s| - 1
      ensures s[i] == a[i]
    {
      assert i > 0 ==> sent[i - 1] == all[i - 1];
    }
  }

  /** What is sent from one call on, when that call is complete. */
  lemma {:induction false} SentStep(input: string, form: Form, o: Oracle, kimi: bool, pos: nat, start: nat, recovery: bool)
    requires pos <= start <= |input| && form.Valid() && o.Valid() && NextCall(input, true, form, pos) == Some(start)
    ensures var call := CallFrom(input, true, form, o, kimi, start);
            && (call.None? ==>
                  && CallsFrom(input, true, form, o, kimi, pos).None?
                  && CallsStop(input, true, form, o, kimi, pos, recovery) == CallStop(input, true, form, o, kimi, start, recovery))
            && (call.Some? ==>
                  && SentFrom(input, form, o, kimi, pos, recovery) == [call.value.0] + SentFrom(input, form, o, kimi, call.value.1, false)
                  && (CallsFrom(input, true, form, o, kimi, pos).None? <==> CallsFrom(input, true, form, o, kimi, call.value.1).None?)
                  && (CallsFrom(input, true, form, o, kimi, call.value.1).None? ==>
                        CallsStop(input, true, form, o, kimi, pos, recovery).out == CallsStop(input, true, form, o, kimi, call.value.1, false).out))
  {
    hide NextCall, CallFrom, CallStop;
  }

  /** Cut off anywhere in the calls or behind them. */
  lemma {:induction false} CutInCalls(input: string, form: Form, o: Oracle, w: Writer, kimi: bool, pos: nat, calls: seq<Call>, endGap: string,
                                      rest: string, recovery: bool)
    requires Streamable(form) && form.Valid() && Streams(o, w) && CleanCalls(form, o, kimi, calls) && AllCutReady(form, o, kimi, calls)
    requires CleanEnd(form, true, endGap, "")
    requires pos <= |input| && At(input, pos, rest) && rest <= CallsThen(form, calls, endGap + form.scopeEnd)
    ensures forall i :: 0 <= i < |calls| ==> Sends(form, o, kimi, calls[i])
    ensures var sent := SentFrom(input, form, o, kimi, pos, recovery);
            BeginsCalls(sent, AllSent(form, o, kimi, calls)) && |sent| == Shown(form, calls, |rest|)
    ensures CallsFrom(input, true, form, o, kimi, pos).None? ==> CallsStop(input, true, form, o, kimi, pos, recovery).out == Partial
    decreases |calls|
  {
    hide Streamable, ReadableForm, CallFrom, CallStop, CallsFrom, CallsStop, SentFrom, NextCall, CallRest, CallThen, FindLiteral, AllSpace, At, Begun,
         CleanCall, CleanCalls, CutReady, AllCutReady, Sent, Sends, Writes, ArgsOf, ObjectText, BeginsCalls, CleanEnd, AllSent;
    FormReads(form);
    EachSends(form, o, kimi, calls);
    if calls == [] {
      NoCallsThen(form, endGap + form.scopeEnd);
      CutBehindCalls(input, form, o, kimi, pos, endGap, rest, recovery);
      NoneSent(form, o, kimi, calls);
    } else {
      var c, last := calls[0], |calls| == 1;
      var more := CallsThen(form, calls[1..], endGap + form.scopeEnd);
      CallsThenCons(form, calls, endGap + form.scopeEnd);
      CleanCall0(form, o, kimi, calls);
      CallParts(form, c, last, more);
      PrefixSplit(rest, c.gap + form.toolStart, CallRest(form, c) + more);
      if |rest| < |c.gap + form.toolStart| {
        ToolIsTag(form);
        FindsInGap(input, pos, c.gap, form.toolStart, rest);
        NothingMore(input, form, o, kimi, pos, recovery);
        NoneBegun(AllSent(form, o, kimi, calls));
      } else {
        var behind := rest[|c.gap + form.toolStart|..];
        assert rest == c.gap + (form.toolStart + behind);
        FindsGap(input, true, pos, c.gap, form.toolStart, behind);
        StartsHere(input, form, pos, c.gap);
        Ahead(input, pos, c.gap + form.toolStart, behind);
        CutFromCall(input, form, o, w, kimi, pos, pos + |c.gap + form.toolStart|, calls, endGap, behind, recovery);
        CallLength(form, c);
      }
    }
  }

  lemma CallLength(form: Form, c: Call)
    ensures |CallRest(form, c)| >= |c.text|
  {
    hide ItemsThen, SoughtText;
  }

  /** From behind `tool_start`. */
  lemma {:induction false} CutFromCall(input: string, form: Form, o: Oracle, w: Writer, kimi: bool, pos: nat, start: nat, calls: seq<Call>, endGap: string,
                                       rest: string, recovery: bool)
    requires Streamable(form) && form.Valid() && Streams(o, w) && calls != [] && CleanCalls(form, o, kimi, calls) && AllCutReady(form, o, kimi, calls)
    requires CleanEnd(form, true, endGap, "") && pos <= start <= |input| && NextCall(input, true, form, pos) == Some(start)
    requires At(input, start, rest) && rest <= CallRest(form, calls[0]) + CallsThen(form, calls[1..], endGap + form.scopeEnd)
    requires forall i :: 0 <= i < |calls| ==> Sends(form, o, kimi, calls[i])
    ensures var sent := SentFrom(input, form, o, kimi, pos, recovery);
            && BeginsCalls(sent, AllSent(form, o, kimi, calls))
            && |sent| == (if |rest| <= |calls[0].text| then 0 else 1 + Shown(form, calls[1..], |rest| - |CallRest(form, calls[0])|))
    ensures CallsFrom(input, true, form, o, kimi, pos).None? ==> CallsStop(input, true, form, o, kimi, pos, recovery).out == Partial
    decreases |calls|, 0
  {
    hide Streamable, ReadableForm, CallFrom, CallStop, CallsFrom, CallsStop, NextCall, CallRest, CallThen, FindLiteral, AllSpace, At, Begun,
         CleanCall, CleanCalls, CutReady, AllCutReady, Sent, Sends, Writes, ArgsOf, ObjectText, BeginsCalls, CleanEnd, AllSent;
    var c, last := calls[0], |calls| == 1;
    var more := CallsThen(form, calls[1..], endGap + form.scopeEnd);
    FormReads(form);
    PrefixSplit(rest, CallRest(form, c), more);
    CallLength(form, c);
    AllSentCons(form, o, kimi, calls);
    FirstReady(form, o, kimi, calls);
    SentStep(input, form, o, kimi, pos, start, recovery);
    if |rest| < |CallRest(form, c)| {
      CutInCall(input, form, o, w, kimi, start, c, rest, recovery);
      NotShown(form, calls[1..], |rest| - |CallRest(form, c)|);
      if |rest| <= |c.text| {
        NoneBegun(AllSent(form, o, kimi, calls));
      } else {
        SentIsWritten(form, o, w, kimi, c);
        var stop := CallStop(input, true, form, o, kimi, start, recovery);
        assert AllSent(form, o, kimi, calls)[0] == Sent(form, o, kimi, c);
        OneCallSent(AllSent(form, o, kimi, calls), stop, NameOf(kimi, c), ObjectText(w, ArgsOf(form, c.items)));
        BegunIsOne(stop, NameOf(kimi, c), ObjectText(w, ArgsOf(form, c.items)));
      }
    } else {
      var behind := rest[|CallRest(form, c)|..];
      CallParts(form, c, last, behind);
      CleanCall0(form, o, kimi, calls);
      ReadsCall(input, true, form, o, kimi, start, c, last, behind, "");
      BehindCall(input, form, start, c, last, behind);
      CleanCallsTail(form, o, kimi, calls);
      TailReady(form, o, kimi, calls);
      var next := |input| - |behind|;
      CutInCalls(input, form, o, w, kimi, next, calls[1..], endGap, behind, false);
      MoreCallsSent(Sent(form, o, kimi, c), SentFrom(input, form, o, kimi, next, false), AllSent(form, o, kimi, calls[1..]));
    }
  }

  lemma ToolIsTag(form: Form)
    requires Streamable(form)
    ensures TagLike(form.toolStart)
  {
  }

  lemma StartsHere(input: string, form: Form, pos: nat, gap: string)
    requires pos + |gap| + |form.toolStart| <= |input| && form.Valid() && AllSpace(gap)
    requires FindLiteral(input, true, form.toolStart, pos) == Some(Found(gap, pos + |gap|, pos + |gap| + |form.toolStart|))
    ensures NextCall(input, true, form, pos) == Some(pos + |gap + form.toolStart|)
  {
    hide FindLiteral, AllSpace;
  }

  lemma EachSends(form: Form, o: Oracle, kimi: bool, calls: seq<Call>)
    requires CleanCalls(form, o, kimi, calls)
    ensures forall i :: 0 <= i < |calls| ==> Sends(form, o, kimi, calls[i])
  {
    hide Sends;
  }

  lemma {:induction false} NoneSent(form: Form, o: Oracle, kimi: bool, calls: seq<Call>)
    requires calls == []
    ensures AllSent(form, o, kimi, calls) == [] && BeginsCalls([], [])
  {
  }

  lemma NoneBegun(all: seq<ToolCall>)
    ensures BeginsCalls([], all)
  {
  }

  lemma BegunIsOne(stop: Stop, name: string, whole: string)
    requires Begun(stop, name, whole)
    ensures |stop.sent| == 1 && stop.out == Partial
  {
  }

  lemma {:induction false} AllSentCons(form: Form, o: Oracle, kimi: bool, calls: seq<Call>)
    requires calls != [] && forall i :: 0 <= i < |calls| ==> Sends(form, o, kimi, calls[i])
    ensures AllSent(form, o, kimi, calls) == [Sent(form, o, kimi, calls[0])] + AllSent(form, o, kimi, calls[1..])
  {
    hide Sent, Sends;
  }

  lemma FirstReady(form: Form, o: Oracle, kimi: bool, calls: seq<Call>)
    requires calls != [] && AllCutReady(form, o, kimi, calls)
    ensures CutReady(form, o, kimi, calls[0])
  {
    hide CutReady;
  }

  lemma TailReady(form: Form, o: Oracle, kimi: bool, calls: seq<Call>)
    requires calls != [] && AllCutReady(form, o, kimi, calls)
    ensures AllCutReady(form, o, kimi, calls[1..])
  {
    hide CutReady;
  }

  lemma {:induction false} NotShown(form: Form, calls: seq<Call>, n: int)
    requires n <= 0
    ensures Shown(form, calls, n) == 0
  {
  }

  lemma SentIsWritten(form: Form, o: Oracle, w: Writer, kimi: bool, c: Call)
    requires Writes(o, w) && Sends(form, o, kimi, c)
    ensures Sent(form, o, kimi, c) == ToolCall(NameOf(kimi, c), ObjectText(w, ArgsOf(form, c.items)), "")
  {
    hide ArgsOf, ObjectText, NameOf;
  }

  /** Behind the last call nothing more is sent. */
  lemma {:induction false} CutBehindCalls(input: string, form: Form, o: Oracle, kimi: bool, pos: nat, endGap: string, rest: string, recovery: bool)
    requires Streamable(form) && form.Valid() && o.Valid() && CleanEnd(form, true, endGap, "")
    requires At(input, pos, rest) && rest <= endGap + form.scopeEnd
    ensures SentFrom(input, form, o, kimi, pos, recovery) == []
    ensures CallsFrom(input, true, form, o, kimi, pos).None? ==> CallsStop(input, true, form, o, kimi, pos, recovery).out == Partial
  {
    hide FindLiteral, AllSpace, CallsFrom, CallsStop, SentFrom, TagLike, StartsBlack, Apart;
    ToolIsTag(form);
    if form.scopeEnd == "" {
      assert rest == "";
      LiteralIsThere(form.toolStart);
      FindsNoPart(input, pos, rest, form.toolStart);
    } else {
      NotWhole(input, pos, endGap, form.toolStart, form.scopeEnd, rest);
    }
    NothingMore(input, form, o, kimi, pos, recovery);
  }

  // ---- the shipped forms ----

  lemma PlainStreams(form: Form)
    requires ReadableForm(form) && form.lastValEnd.None? && form.lastToolEnd.None? && form.rawArgval.None?
    requires TagLike(form.toolStart) && TagLike(form.keyStart) && TagLike(form.keyValSep) && TagLike(form.valEnd) && TagLike(form.toolEnd)
    requires form.keyValSep2.Some? ==> TagLike(form.keyValSep2.value)
    requires AllSpace(form.scopeStart) || TagLike(form.scopeStart)
    requires if AllSpace(form.toolSep) then form.keyStart[0] == form.toolEnd[0] else TagLike(form.toolSep)
    ensures Streamable(form)
  {
  }

  /** MiniMax-M2, Qwen3-Coder, Seed-OSS and GLM-4.5. */
  lemma StreamableForms()
    ensures Streamable(XmlForms.MINIMAX_M2) && Streamable(XmlForms.QWEN3_CODER)
    ensures Streamable(XmlForms.SEED_OSS) && Streamable(XmlForms.GLM_4_5)
  {
    hide Streamable;
    MinimaxStreams();
    QwenStreams();
    SeedStreams();
    GlmStreams();
  }

  lemma MinimaxTags()
    ensures TagLike("<minimax:tool_call>")
    ensures TagLike("<invoke name=\"")
    ensures TagLike("<parameter name=\"")
    ensures TagLike("</invoke>")
  {
  }

  lemma SepTags()
    ensures TagLike("\">")
    ensures TagLike(">")
  {
  }

  lemma ParameterTags()
    ensures TagLike("</parameter>")
    ensures TagLike("<parameter=")
  {
  }

  lemma FunctionTags()
    ensures TagLike("<function=")
    ensures TagLike("</function>")
  {
  }

  lemma ToolTags()
    ensures TagLike("<tool_call>")
    ensures TagLike("</tool_call>")
    ensures TagLike("<seed:tool_call>")
  {
  }

  lemma ArgTags()
    ensures TagLike("<arg_key>")
    ensures TagLike("</arg_key>")
    ensures TagLike("<arg_value>")
    ensures TagLike("</arg_value>")
  {
  }

  lemma MinimaxStreams()
    ensures Streamable(XmlForms.MINIMAX_M2)
  {
    hide TagLike, ReadableForm, AllSpace, Streamable;
    XmlForms.MinimaxReadable();
    XmlForms.Black("\">");
    MinimaxTags();
    SepTags();
    ParameterTags();
    PlainStreams(XmlForms.MINIMAX_M2);
  }

  lemma QwenStreams()
    ensures Streamable(XmlForms.QWEN3_CODER)
  {
    hide TagLike, ReadableForm, AllSpace, Streamable;
    XmlForms.QwenReadable();
    XmlForms.Black(">");
    ToolTags();
    SepTags();
    ParameterTags();
    FunctionTags();
    PlainStreams(XmlForms.QWEN3_CODER);
  }

  lemma SeedStreams()
    ensures Streamable(XmlForms.SEED_OSS)
  {
    hide TagLike, ReadableForm, AllSpace, Streamable;
    XmlForms.SeedReadable();
    XmlForms.Black(">");
    ToolTags();
    SepTags();
    ParameterTags();
    FunctionTags();
    PlainStreams(XmlForms.SEED_OSS);
  }

  lemma GlmStreams()
    ensures Streamable(XmlForms.GLM_4_5)
  {
    hide TagLike, ReadableForm, AllSpace, Streamable;
    XmlForms.GlmReadable();
    Blank();
    ToolTags();
    ArgTags();
    PlainStreams(XmlForms.GLM_4_5);
  }

  // ---- calls that may be cut off ----

  lemma {:induction false} ItemsAre(f: Form, p: XmlForms.Pads, args: seq<XmlForms.Arg>, gap: string, i: nat)
    requires i < |XmlForms.ItemsOf(f, p, args, gap)|
    ensures |XmlForms.ItemsOf(f, p, args, gap)| == |args|
    ensures var it := XmlForms.ItemsOf(f, p, args, gap)[i]; it.key == args[i].key && it.json == args[i].json
    decreases |args|
  {
    if |args| > 1 {
      ItemsAre(f, p, args[1..], p.val, if i == 0 then 0 else i - 1);
    }
  }

  /** In a form with markup, plain calls are ready to be cut off if their keys differ and none looks cut off. */
  lemma {:induction false} PlainIsReady(f: Form, o: Oracle, p: XmlForms.Pads, c: XmlForms.Said, gap: string)
    requires ReadableForm(f) && XmlForms.MarkedUp(f) && XmlForms.PadsAreSpace(p) && AllSpace(gap) && XmlForms.PlainSaid(f, o, p, c)
    requires forall i :: 0 <= i < |c.args| ==> NoNeedle(c.args[i].key)
    requires forall i, j :: 0 <= i < j < |c.args| ==> c.args[i].key != c.args[j].key
    ensures CutReady(f, o, false, XmlForms.CallOf(f, p, c, gap))
  {
    hide EndsFirst, XmlForms.PlainArg, XmlForms.ItemsOf, Strip, CleanItem, ReadableForm, ArgsOf;
    var call := XmlForms.CallOf(f, p, c, gap);
    FormIsValid(f);
    XmlForms.PlainCall(f, o, p, c, gap, false);
    forall i | 0 <= i < |call.items|
      ensures |call.items| == |c.args| && call.items[i].key == c.args[i].key && PairReady(f, o, call.items[i])
    {
      ItemsAre(f, p, c.args, p.name, i);
      XmlForms.PlainItems(f, o, p, c.args, p.name, i, false, CallEnd(f, false));
      assert XmlForms.PlainArg(f, o, p, c.args[i]);
      ArgIsText(f, o, p, c.args[i]);
    }
  }

  lemma ArgIsText(f: Form, o: Oracle, p: XmlForms.Pads, a: XmlForms.Arg)
    requires f.Valid() && XmlForms.PlainArg(f, o, p, a)
    ensures a.json.None?
  {
    hide Understood;
  }

  // ---- the main results ----

  /** What `parse_xml_tool_calls` has sent of an input that is to go on, however it ends. */
  function SentBy(input: string, form: Form, o: Oracle, kimi: bool, pos: nat): seq<ToolCall>
    requires pos <= |input| && form.Valid() && o.Valid()
  {
    match AllFrom(input, true, form, o, kimi, pos)
    case None => AllStop(input, true, form, o, kimi, pos).sent
    case Some((calls, _)) => calls
  }

  /**
   Of the calls that are written, cut off anywhere, a beginning is sent: as many calls as show their names, all
   complete but the last, and that one with its name and a beginning of its arguments.
   */
  lemma {:induction false} CutAnywhere(before: string, form: Form, o: Oracle, w: Writer, kimi: bool, calls: seq<Call>, endGap: string, n: nat)
    requires Streamable(form) && Streams(o, w) && CleanCalls(form, o, kimi, calls) && AllCutReady(form, o, kimi, calls)
    requires CleanEnd(form, true, endGap, "") && n <= |Written(form, calls, endGap, "")|
    ensures form.Valid() && forall i :: 0 <= i < |calls| ==> Sends(form, o, kimi, calls[i])
    ensures var sent := SentBy(before + Written(form, calls, endGap, "")[..n], form, o, kimi, |before|);
            && BeginsCalls(sent, AllSent(form, o, kimi, calls))
            && |sent| == Shown(form, calls, n - |SoughtText(form.scopeStart)|)
  {
    hide Streamable, ReadableForm, CallsFrom, CallsStop, OpenFrom, CloseFrom, OpenOut, CloseOut, FindLiteral, AllSpace, At, CleanCalls, AllCutReady,
         Sends, Writes, BeginsCalls, CleanEnd, AllSent, SoughtText, CallsThen, Shown;
    var rest := Written(form, calls, endGap, "")[..n];
    var input, pos := before + rest, |before|;
    var scope, tail := SoughtText(form.scopeStart), CallsThen(form, calls, endGap + form.scopeEnd);
    FormReads(form);
    EachSends(form, o, kimi, calls);
    StartsThere(before, rest);
    assert form.scopeEnd + "" == form.scopeEnd;
    PrefixSplit(rest, scope, tail);
    if n < |scope| {
      CutInScope(input, form, pos, rest);
      NoneBegun(AllSent(form, o, kimi, calls));
      NotShown(form, calls, n - |scope|);
    } else {
      var behind := rest[|scope|..];
      ReadsOpen(input, true, form, pos, behind);
      CutInCalls(input, form, o, w, kimi, pos + |scope|, calls, endGap, behind, true);
    }
  }

  /** Cut off where the scope opens: more is waited for once anything of that is there. */
  lemma {:induction false} CutInScope(input: string, form: Form, pos: nat, rest: string)
    requires Streamable(form) && At(input, pos, rest) && rest <= SoughtText(form.scopeStart) && |rest| < |SoughtText(form.scopeStart)|
    ensures pos <= |input| && OpenFrom(input, true, form, pos) == None
    ensures OpenOut(input, true, form, pos) == if rest == "" then Returned(false) else Partial
  {
    hide ReadableForm, FindLiteral, AllSpace;
    Blank();
    assert "" + form.scopeStart == form.scopeStart;
    FindsInGap(input, pos, "", form.scopeStart, rest);
    if rest == "" {
      FindsNoPart(input, pos, rest, form.scopeStart);
    }
  }

  /** So of two cuts the later one shows no fewer calls, and the differences between what is sent for them can be computed. */
  lemma {:induction false} NeverThrows(before: string, form: Form, o: Oracle, w: Writer, kimi: bool, calls: seq<Call>, endGap: string, m: nat, n: nat,
                                       content: string, reasoning: string)
    requires Streamable(form) && Streams(o, w) && CleanCalls(form, o, kimi, calls) && AllCutReady(form, o, kimi, calls)
    requires CleanEnd(form, true, endGap, "") && m <= n <= |Written(form, calls, endGap, "")|
    ensures form.Valid()
    ensures var text := before + Written(form, calls, endGap, "");
            Diffs(ChatMsg(content, reasoning, SentBy(text[..|before| + m], form, o, kimi, |before|)),
                  ChatMsg(content, reasoning, SentBy(text[..|before| + n], form, o, kimi, |before|))).Ok?
  {
    hide Streamable, CleanCalls, AllCutReady, Sends, Writes, CleanEnd, AllSent, SentBy, Written, Shown, Diffs;
    var whole := Written(form, calls, endGap, "");
    var text := before + whole;
    CutAnywhere(before, form, o, w, kimi, calls, endGap, m);
    CutAnywhere(before, form, o, w, kimi, calls, endGap, n);
    MoreShown(form, calls, m - |SoughtText(form.scopeStart)|, n - |SoughtText(form.scopeStart)|);
    assert text[..|before| + m] == before + whole[..m] && text[..|before| + n] == before + whole[..n];
    var a, b := SentBy(before + whole[..m], form, o, kimi, |before|), SentBy(before + whole[..n], form, o, kimi, |before|);
    BothBegin(a, b, AllSent(form, o, kimi, calls), content, reasoning);
  }

  lemma BothBegin(a: seq<ToolCall>, b: seq<ToolCall>, all: seq<ToolCall>, content: string, reasoning: string)
    requires BeginsCalls(a, all) && BeginsCalls(b, all) && |a| <= |b|
    ensures Diffs(ChatMsg(content, reasoning, a), ChatMsg(content, reasoning, b)).Ok?
  {
    hide Diffs;
    DiffsThrow(ChatMsg(content, reasoning, a), ChatMsg(content, reasoning, b));
    if a != [] {
      var i := |a| - 1;
      assert b[i].name == all[i].name && b[i].arguments <= all[i].arguments;
      TwoPrefixes(a[i].arguments, b[i].arguments, all[i].arguments);
    }
  }

  lemma TwoPrefixes(a: string, b: string, c: string)
    requires a <= c && b <= c
    ensures ChatDiff.Comparable(a, b)
  {
    if |a| <= |b| {
      assert a == c[..|a|] == b[..|a|];
    } else {
      assert b == c[..|b|] == a[..|b|];
    }
  }

  /** The keys must differ: a value that is replaced later has been sent by then, and the difference throws. */
  lemma {:induction false} RepeatedKeyThrows(w: Writer, name: string)
    requires w.Valid()
    ensures var first: Args := [("K", Text("A"))];
            var early := DropBrace(ObjectText(w, first));
            var late := ObjectText(w, Put(first, "K", Text("B")));
            Diffs(ChatMsg("", "", [ToolCall(name, early, "")]), ChatMsg("", "", [ToolCall(name, late, "")])).Throws?
  {
    hide Diffs, ObjectText, Members, Escaped, Known;
    var first: Args := [("K", Text("A"))];
    var early, late := DropBrace(ObjectText(w, first)), ObjectText(w, Put(first, "K", Text("B")));
    assert Put(first, "K", Text("B")) == [] + ([("K", Text("B"))] + []) && first == [] + ([("K", Text("A"))] + []);
    Single(w, "A");
    Single(w, "B");
    DiffsThrow(ChatMsg("", "", [ToolCall(name, early, "")]), ChatMsg("", "", [ToolCall(name, late, "")]));
    assert |early| == |late| - 1;
    var n := |UpToValue(w, [], "K")| + 1;
    assert early[n] == 'A' && late[n] == 'B';
  }

  lemma {:induction false} Single(w: Writer, text: string)
    requires w.Valid() && |text| == 1 && 'A' <= text[0] <= 'Z'
    ensures var t := ObjectText(w, [] + ([("K", Text(text))] + []));
            var n := |UpToValue(w, [], "K")| + 1;
            |t| == n + 3 && t[n] == text[0] && t[n + 2] == '}'
  {
    hide ObjectText, UpToValue, Members, Escaped;
    ObjectSplit(w, [], "K", Text(text), []);
    PlainEscaped(w, text);
    NoMembers(w);
  }
}
