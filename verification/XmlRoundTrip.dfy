/**
 Calls written in an XML style are read back: the text that the grammar of `build_grammar_xml_tool_call`
 describes, chat-parser-xml-toolcall.cpp:229-291, with any white space between its parts, is parsed to
 just the calls it was written from. The forms of all formats in chat-parser.cpp are covered.
 */
module XmlRoundTrip {
  import opened CommonStrings
  import opened ChatParser
  import opened XmlFind
  import opened XmlModel

  // ---- writing ----

  /**
   A pair as it is written: the key, and the value's text with the JSON value it is read as, if it is
   one, and the number of its characters. The gaps are white space in front of the pair and of the
   second separator.
   */
  datatype Item = Item(gap: string, key: string, sepGap: string, raw: string, json: Option<(Json, nat)>)

  /** A call as it is written; `text` is its name, perhaps with white space around it. */
  datatype Call = Call(gap: string, text: string, items: seq<Item>, endGap: string)

  /** The closing literal of a call: that of the last one may be different. */
  function CallEnd(form: Form, last: bool): string {
    if last && form.lastToolEnd.Some? then form.lastToolEnd.value else form.toolEnd
  }

  function ValEnd(form: Form, last: bool): string {
    if last && form.lastValEnd.Some? then form.lastValEnd.value else form.valEnd
  }

  function SecondSep(form: Form, gap: string): string {
    match form.keyValSep2
    case None => ""
    case Some(sep) => gap + sep
  }

  /** The text of a literal that the parser looks for; one of white space is left to the gaps. */
  function SoughtText(literal: string): string {
    if AllSpace(literal) then "" else literal
  }

  function ItemsThen(form: Form, items: seq<Item>, rest: string): string {
    if items == [] then rest
    else
      var it := items[0];
      it.gap + (form.keyStart + (it.key + (form.keyValSep + (SecondSep(form, it.sepGap)
      + (it.raw + (ValEnd(form, |items| == 1) + ItemsThen(form, items[1..], rest)))))))
  }

  function CallThen(form: Form, c: Call, last: bool, rest: string): string {
    c.gap + (form.toolStart + (c.text + (SoughtText(form.toolSep)
    + ItemsThen(form, c.items, c.endGap + (CallEnd(form, last) + rest)))))
  }

  function CallsThen(form: Form, calls: seq<Call>, rest: string): string {
    if calls == [] then rest
    else CallThen(form, calls[0], |calls| == 1, CallsThen(form, calls[1..], rest))
  }

  /** The whole text, with `rest` behind it. */
  function Written(form: Form, calls: seq<Call>, endGap: string, rest: string): string {
    SoughtText(form.scopeStart) + CallsThen(form, calls, endGap + (form.scopeEnd + rest))
  }

  // ---- what may be written ----

  predicate Apart(a: string, b: string) {
    !(a <= b) && !(b <= a)
  }

  predicate StartsBlack(s: string) {
    s != "" && !IsSpace(s[0])
  }

  /** What may come next tells itself apart. */
  predicate ReadableForm(form: Form) {
    && form.Valid() && StartsBlack(form.keyStart) && StartsBlack(form.toolStart) && StartsBlack(form.toolEnd)
    && !AllSpace(form.valEnd) && Apart(form.keyStart, form.toolEnd)
    && (form.keyValSep2.Some? ==> StartsBlack(form.keyValSep2.value))
    && (form.scopeEnd == "" || (StartsBlack(form.scopeEnd) && Apart(form.toolStart, form.scopeEnd)))
    && (form.lastValEnd.Some? ==> form.lastValEnd.value == "" && StartsBlack(form.valEnd) && Apart(form.valEnd, form.toolEnd))
    && (form.lastToolEnd.Some? ==>
          var end := form.lastToolEnd.value;
          && StartsBlack(end) && Apart(form.keyStart, end) && Apart(form.valEnd, end) && !AllSpace(form.toolSep)
          && form.scopeEnd != "" && Apart(form.toolEnd, end + form.scopeEnd))
  }

  /** The literal that ends `text` occurs nowhere earlier. */
  predicate EndsFirst(text: string, literal: string) {
    FindFrom(text + literal, literal, 0) == Some(|text|)
  }

  predicate NotIn(text: string, literal: string) {
    FindFrom(text, literal, 0).None?
  }

  /** No place in `text` can be the beginning of `literal`, whatever follows. */
  predicate NoneBegins(text: string, literal: string) {
    forall i :: 0 <= i < |text| ==> Apart(text[i..], literal)
  }

  /** The input from `pos` on. */
  ghost predicate At(input: string, pos: nat, t: string) {
    pos <= |input| && input[pos..] == t
  }

  /** At `pos` stands one text, and behind it another. */
  predicate StandsBefore(input: string, pos: nat, text: string, follow: string) {
    && pos + |text| + |follow| <= |input|
    && input[pos..pos + |text|] == text && input[pos + |text|..pos + |text| + |follow|] == follow
  }

  /**
   Wherever the value stands before `follow`, it is read as it should be: as JSON if it is JSON and
   then white space, and otherwise not as JSON that reaches to its end.
   */
  ghost predicate Understood(form: Form, o: Oracle, it: Item, follow: string) {
    forall input: string, pos: nat ::
      StandsBefore(input, pos, it.raw, follow) ==>
        match it.json
        case Some((json, size)) => form.rawArgval != Some(true) && o.read(input, pos) == JsonValue(json, pos + size)
        case None => form.rawArgval == Some(true) || StaysText(o, input, pos, it.raw)
  }

  predicate StaysText(o: Oracle, input: string, pos: nat, raw: string)
    requires pos + |raw| <= |input|
  {
    match o.read(input, pos)
    case JsonValue(json, end) => pos <= end <= pos + |raw| && (json.marker != "" || !AllSpace(input[end..pos + |raw|]))
    case _ => !o.bare(input, SkipSpaces(input, pos))
  }

  /** What stands behind a value. */
  function Follow(form: Form, last: bool, callEnd: string): string {
    if last && form.lastValEnd.Some? then callEnd else form.valEnd
  }

  ghost predicate CleanItem(form: Form, o: Oracle, it: Item, last: bool, callEnd: string) {
    && AllSpace(it.gap) && AllSpace(it.sepGap) && EndsFirst(it.key, form.keyValSep)
    && Understood(form, o, it, Follow(form, last, callEnd))
    && (form.lastValEnd.None? ==> EndsFirst(it.raw, form.valEnd))
    && match it.json
       case Some((json, size)) => json.marker == "" && 0 < size <= |it.raw| && AllSpace(it.raw[size..])
       case None => form.lastValEnd.None?
  }

  ghost predicate CleanItems(form: Form, o: Oracle, items: seq<Item>, callEnd: string) {
    forall i :: 0 <= i < |items| ==> CleanItem(form, o, items[i], i == |items| - 1, callEnd)
  }

  /** The name ends where it should. */
  predicate CleanName(form: Form, c: Call) {
    if !AllSpace(form.toolSep) then
      && EndsFirst(c.text, form.toolSep) && NotIn(c.text, form.toolEnd)
      && (form.lastToolEnd.Some? ==> NotIn(c.text, form.lastToolEnd.value))
    else if c.items == [] then
      c.endGap == "" && EndsFirst(c.text, form.toolEnd) && NoneBegins(c.text + form.toolEnd, form.keyStart)
    else
      c.items[0].gap == "" && EndsFirst(c.text, form.keyStart) && NotIn(c.text, form.toolEnd)
  }

  function NameOf(kimi: bool, c: Call): string {
    PlainName(kimi, Strip(c.text))
  }

  /** The name as Kimi-K2 writes it: a prefix in front and an index behind. */
  ghost predicate IsIndexed(text: string, name: string) {
    exists digits: string :: text == "functions." + name + ":" + digits && digits != "" && forall i :: 0 <= i < |digits| ==> '0' <= digits[i] <= '9'
  }

  /** Prefix and index come off in that format, and nothing else ever does. */
  lemma NameIs(kimi: bool, text: string, name: string)
    ensures kimi && IsIndexed(text, name) ==> PlainName(kimi, text) == name
    ensures !kimi || (forall n :: !IsIndexed(text, n)) ==> PlainName(kimi, text) == text
  {
    hide PlainName, EndsInIndex;
    if kimi && IsIndexed(text, name) {
      var digits: string :| text == "functions." + name + ":" + digits && digits != "" && forall i :: 0 <= i < |digits| ==> '0' <= digits[i] <= '9';
      IndexOff(text, name, digits);
    }
    OthersStay(kimi, text);
    EndIsIndex(text);
  }

  lemma OthersStay(kimi: bool, text: string)
    ensures !(kimi && "functions." <= text && EndsInIndex(text)) ==> PlainName(kimi, text) == text
  {
  }

  lemma EndIsIndex(text: string)
    ensures "functions." <= text && EndsInIndex(text) ==> exists n :: IsIndexed(text, n)
  {
    if "functions." <= text && EndsInIndex(text) {
      var i :| 0 <= i < |text| - 1 && text[i] == ':' && forall j :: i < j < |text| ==> '0' <= text[j] <= '9';
      PrefixEnds(text, i);
      var name, digits := text[10..i], text[i + 1..];
      Apportion(text, i);
      assert digits != "" && forall k :: 0 <= k < |digits| ==> digits[k] == text[i + 1 + k];
      assert IsIndexed(text, name);
    }
  }

  lemma Apportion(text: string, i: nat)
    requires "functions." <= text && 10 <= i < |text| && text[i] == ':'
    ensures text == "functions." + text[10..i] + ":" + text[i + 1..]
  {
    assert text[..10] == "functions.";
    assert text == text[..10] + text[10..i] + [text[i]] + text[i + 1..];
  }

  /** The colon stands behind the prefix, which has none. */
  lemma PrefixEnds(text: string, i: nat)
    requires "functions." <= text && i < |text| && text[i] == ':'
    ensures i >= 10
  {
    assert forall k :: 0 <= k < 10 ==> text[k] == "functions."[k] != ':';
  }

  lemma IndexOff(text: string, name: string, digits: string)
    requires text == "functions." + name + ":" + digits && digits != "" && forall i :: 0 <= i < |digits| ==> '0' <= digits[i] <= '9'
    ensures PlainName(true, text) == name
  {
    var k := 10 + |name|;
    assert text[k] == ':' && forall j :: k < j < |text| ==> text[j] == digits[j - k - 1];
    assert "functions." <= text && EndsInIndex(text);
    assert text[k..k + 1] == ":";
    assert OccursAt(text, ":", k);
    var i := FindLast(text, ":", |text|).value;
    assert text[i..i + 1] == ":" && text[i] == text[i..i + 1][0];
    assert i == k;
    assert text[10..k] == name;
  }

  function ValueOf(form: Form, it: Item): Val {
    match it.json
    case Some((json, _)) => Parsed(json)
    case None => Text(if form.trimRawArgval then Strip(it.raw) else it.raw)
  }

  // ---- what is sent ----

  /** The keys that are written, each where it comes first. */
  function KeysOf(items: seq<Item>): (keys: seq<string>)
    ensures forall k :: k in keys <==> exists i :: 0 <= i < |items| && items[i].key == k
    ensures forall i, j :: 0 <= i < j < |keys| ==> keys[i] != keys[j]
  {
    if items == [] then [] else
    var n := |items| - 1;
    var before := KeysOf(items[..n]);
    assert items == items[..n] + [items[n]];
    if items[n].key in before then before else before + [items[n].key]
  }

  /** The last pair with a key. */
  function LastWith(items: seq<Item>, key: string): (r: nat)
    requires key in KeysOf(items)
    ensures r < |items| && items[r].key == key && forall j :: r < j < |items| ==> items[j].key != key
  {
    var n := |items| - 1;
    assert items == items[..n] + [items[n]];
    if items[n].key == key then n else LastWith(items[..n], key)
  }

  /** The arguments of a call: one for each key, in the order in which the keys come first, with the value given for it last. */
  function ArgsOf(form: Form, items: seq<Item>): (args: Args)
    ensures |args| == |KeysOf(items)|
    ensures forall i :: 0 <= i < |args| ==> args[i] == (KeysOf(items)[i], ValueOf(form, items[LastWith(items, KeysOf(items)[i])]))
  {
    seq(|KeysOf(items)|, i requires 0 <= i < |KeysOf(items)| =>
      (KeysOf(items)[i], ValueOf(form, items[LastWith(items, KeysOf(items)[i])])))
  }

  /** Pairs whose keys are all different come as they are written. */
  lemma {:induction false} DifferentKeys(form: Form, items: seq<Item>)
    requires forall i, j :: 0 <= i < j < |items| ==> items[i].key != items[j].key
    ensures |ArgsOf(form, items)| == |items|
    ensures forall i :: 0 <= i < |items| ==> ArgsOf(form, items)[i] == (items[i].key, ValueOf(form, items[i]))
  {
    KeysAsWritten(items);
    forall i | 0 <= i < |items|
      ensures ArgsOf(form, items)[i] == (items[i].key, ValueOf(form, items[i]))
    {
      var r := LastWith(items, KeysOf(items)[i]);
      assert r == i;
    }
  }

  lemma {:induction false} KeysAsWritten(items: seq<Item>)
    requires forall i, j :: 0 <= i < j < |items| ==> items[i].key != items[j].key
    ensures |KeysOf(items)| == |items| && forall i :: 0 <= i < |items| ==> KeysOf(items)[i] == items[i].key
    decreases |items|
  {
    if items != [] {
      KeysAsWritten(items[..|items| - 1]);
    }
  }

  /** A new key is put behind the others. */
  lemma {:induction false} PutAppends(args: Args, key: string, val: Val)
    requires forall i :: 0 <= i < |args| ==> args[i].0 != key
    ensures Put(args, key, val) == args + [(key, val)]
    decreases |args|
  {
    if args != [] {
      PutAppends(args[1..], key, val);
      assert [args[0]] + (args[1..] + [(key, val)]) == args + [(key, val)];
    }
  }

  /** A key that is there keeps its place. */
  lemma {:induction false} PutReplaces(args: Args, key: string, val: Val, i: nat)
    requires i < |args| && args[i].0 == key && forall j :: 0 <= j < i ==> args[j].0 != key
    ensures Put(args, key, val) == args[i := (key, val)]
    decreases i
  {
    if i == 0 {
      assert args[0 := (key, val)] == [(key, val)] + args[1..];
    } else {
      PutReplaces(args[1..], key, val, i - 1);
      assert [args[0]] + args[1..][i - 1 := (key, val)] == args[i := (key, val)];
    }
  }

  function PutAll(form: Form, args: Args, items: seq<Item>): Args
    decreases |items|
  {
    if items == [] then args else PutAll(form, Put(args, items[0].key, ValueOf(form, items[0])), items[1..])
  }

  lemma {:induction false} PutLast(form: Form, args: Args, items: seq<Item>)
    requires items != []
    ensures var n := |items| - 1;
            PutAll(form, args, items) == Put(PutAll(form, args, items[..n]), items[n].key, ValueOf(form, items[n]))
    decreases |items|
  {
    hide Put, ValueOf;
    var n := |items| - 1;
    if n > 0 {
      PutLast(form, Put(args, items[0].key, ValueOf(form, items[0])), items[1..]);
      assert items[1..][..n - 1] == items[..n][1..] && items[..n][0] == items[0];
    }
  }

  /** Putting pair after pair gives one argument for each key. */
  lemma {:induction false} PutAllIs(form: Form, items: seq<Item>)
    ensures PutAll(form, [], items) == ArgsOf(form, items)
    decreases |items|
  {
    hide Put, ValueOf, LastWith;
    if items != [] {
      var n := |items| - 1;
      PutAllIs(form, items[..n]);
      PutLast(form, [], items);
      PutOne(form, items);
    }
  }

  lemma PutOne(form: Form, items: seq<Item>)
    requires items != []
    ensures var n := |items| - 1;
            Put(ArgsOf(form, items[..n]), items[n].key, ValueOf(form, items[n])) == ArgsOf(form, items)
  {
    hide Put, ValueOf, LastWith, ArgsOf, KeysOf;
    if items[|items| - 1].key in KeysOf(items[..|items| - 1]) {
      PutOld(form, items);
    } else {
      PutNew(form, items);
    }
  }

  /** The values before the last pair stay, unless it has the same key. */
  lemma OthersSame(form: Form, items: seq<Item>, i: nat)
    requires items != [] && i < |ArgsOf(form, items[..|items| - 1])|
    ensures KeysOf(items[..|items| - 1]) <= KeysOf(items) && i < |ArgsOf(form, items)|
    ensures var n := |items| - 1;
            var before := ArgsOf(form, items[..n])[i];
            ArgsOf(form, items)[i] == (before.0, if before.0 == items[n].key then ValueOf(form, items[n]) else before.1)
  {
    hide ValueOf, LastWith;
    var key := KeysOf(items[..|items| - 1])[i];
    SameLast(items, key);
  }

  lemma PutOld(form: Form, items: seq<Item>)
    requires items != [] && items[|items| - 1].key in KeysOf(items[..|items| - 1])
    ensures var n := |items| - 1;
            Put(ArgsOf(form, items[..n]), items[n].key, ValueOf(form, items[n])) == ArgsOf(form, items)
  {
    hide Put, ValueOf, LastWith, ArgsOf;
    var n := |items| - 1;
    var before, key := ArgsOf(form, items[..n]), items[n].key;
    var i: nat :| i < |before| && KeysOf(items[..n])[i] == key;
    PutReplaces(before, key, ValueOf(form, items[n]), i);
    forall k | 0 <= k < |before|
      ensures |ArgsOf(form, items)| == |before| && ArgsOf(form, items)[k] == before[i := (key, ValueOf(form, items[n]))][k]
    {
      OthersSame(form, items, k);
    }
  }

  lemma PutNew(form: Form, items: seq<Item>)
    requires items != [] && items[|items| - 1].key !in KeysOf(items[..|items| - 1])
    ensures var n := |items| - 1;
            Put(ArgsOf(form, items[..n]), items[n].key, ValueOf(form, items[n])) == ArgsOf(form, items)
  {
    hide Put, ValueOf, LastWith, ArgsOf;
    var n := |items| - 1;
    var before, key := ArgsOf(form, items[..n]), items[n].key;
    PutAppends(before, key, ValueOf(form, items[n]));
    NewLast(items);
    assert KeysOf(items) == KeysOf(items[..n]) + [key];
    forall k | 0 <= k < |before|
      ensures ArgsOf(form, items)[k] == before[k]
    {
      OthersSame(form, items, k);
    }
  }

  lemma {:induction false} NewLast(items: seq<Item>)
    requires items != []
    ensures items[|items| - 1].key in KeysOf(items) && LastWith(items, items[|items| - 1].key) == |items| - 1
  {
  }

  lemma SameLast(items: seq<Item>, key: string)
    requires items != [] && key in KeysOf(items[..|items| - 1])
    ensures key in KeysOf(items)
    ensures LastWith(items, key) == if key == items[|items| - 1].key then |items| - 1 else LastWith(items[..|items| - 1], key)
  {
  }

  /** The call can be sent: it has a name, and its arguments can be written as JSON, which fails only for broken UTF-8. */
  predicate Sends(form: Form, o: Oracle, kimi: bool, c: Call) {
    NameOf(kimi, c) != "" && o.dump(ArgsOf(form, c.items)).Some?
  }

  function Sent(form: Form, o: Oracle, kimi: bool, c: Call): ToolCall
    requires Sends(form, o, kimi, c)
  {
    ToolCall(NameOf(kimi, c), o.dump(ArgsOf(form, c.items)).value, "")
  }

  ghost predicate CleanCall(form: Form, o: Oracle, kimi: bool, c: Call, last: bool) {
    && AllSpace(c.gap) && AllSpace(c.endGap) && CleanName(form, c) && Sends(form, o, kimi, c)
    && (form.lastValEnd.Some? && c.items != [] ==> c.endGap == "")
    && CleanItems(form, o, c.items, CallEnd(form, last))
  }

  ghost predicate CleanCalls(form: Form, o: Oracle, kimi: bool, calls: seq<Call>) {
    forall i :: 0 <= i < |calls| ==> CleanCall(form, o, kimi, calls[i], i == |calls| - 1)
  }

  function AllSent(form: Form, o: Oracle, kimi: bool, calls: seq<Call>): (r: seq<ToolCall>)
    requires forall i :: 0 <= i < |calls| ==> Sends(form, o, kimi, calls[i])
    ensures |r| == |calls|
  {
    if calls == [] then [] else [Sent(form, o, kimi, calls[0])] + AllSent(form, o, kimi, calls[1..])
  }

  /** Behind white space, the literal does not come, nor, in an input that is to go on, a beginning of it. */
  predicate NothingStarts(literal: string, isPartial: bool, rest: string) {
    forall i :: 0 <= i <= |rest| && AllSpace(rest[..i]) ==>
      !(literal <= rest[i..]) && (isPartial && i < |rest| ==> !(rest[i..] <= literal))
  }

  /** What stands behind the last call does not look like another one. */
  predicate CleanEnd(form: Form, isPartial: bool, endGap: string, rest: string) {
    if form.scopeEnd == "" then endGap == "" && NothingStarts(form.toolStart, isPartial, rest)
    else AllSpace(endGap) && (form.lastToolEnd.Some? ==> endGap == "")
  }

  // ---- finding literals ----

  lemma Ahead(input: string, pos: nat, a: string, b: string)
    requires At(input, pos, a + b)
    ensures pos + |a| <= |input| && input[pos..pos + |a|] == a && At(input, pos + |a|, b)
  {
    var t := input[pos..];
    assert t[..|a|] == a && t[|a|..] == b;
    assert t[..|a|] == input[pos..pos + |a|] && t[|a|..] == input[pos + |a|..];
  }

  lemma CharAt(input: string, pos: nat, t: string, i: nat)
    requires At(input, pos, t) && i < |t|
    ensures pos + i < |input| && input[pos + i] == t[i]
  {
  }

  /** The literal that ends a text is found where the text ends. */
  lemma FindsEnd(input: string, isPartial: bool, pos: nat, text: string, literal: string, rest: string)
    requires At(input, pos, text + (literal + rest)) && EndsFirst(text, literal)
    ensures FindLiteral(input, isPartial, literal, pos) == Some(Found(text, pos + |text|, pos + |text| + |literal|))
  {
    hide EndsFirst;
    Ahead(input, pos, text, literal + rest);
    Ahead(input, pos + |text|, literal, rest);
    assert OccursAt(input, literal, pos + |text|);
    var i := FindFrom(input, literal, pos).value;
    if i < pos + |text| {
      var t := text + literal;
      assert t + rest == text + (literal + rest);
      Ahead(input, pos, t, rest);
      SameOccurrence(input, pos, t, literal, i - pos);
      NotEarlier(text, literal, i - pos);
    }
  }

  lemma SameOccurrence(input: string, pos: nat, t: string, literal: string, i: nat)
    requires pos + |t| <= |input| && input[pos..pos + |t|] == t && i + |literal| <= |t|
    ensures OccursAt(input, literal, pos + i) <==> OccursAt(t, literal, i)
  {
    var x, y := t[i..i + |literal|], input[pos + i..pos + i + |literal|];
    forall k | 0 <= k < |literal|
      ensures x[k] == y[k]
    {
      assert input[pos..pos + |t|][i + k] == input[pos + (i + k)];
    }
  }

  lemma NotEarlier(text: string, literal: string, i: nat)
    requires EndsFirst(text, literal) && i < |text|
    ensures !OccursAt(text + literal, literal, i)
  {
  }

  lemma GapEndsFirst(gap: string, literal: string)
    requires AllSpace(gap) && StartsBlack(literal)
    ensures EndsFirst(gap, literal)
  {
    var t := gap + literal;
    assert t[|gap|..|gap| + |literal|] == literal;
    assert OccursAt(t, literal, |gap|);
    forall i | 0 <= i < |gap|
      ensures !OccursAt(t, literal, i)
    {
      assert i + |literal| <= |t| ==> t[i..i + |literal|][0] == gap[i];
    }
  }

  lemma EndsFirstTail(text: string, literal: string, i: nat)
    requires EndsFirst(text, literal) && i <= |text|
    ensures EndsFirst(text[i..], literal)
  {
    var t, u := text + literal, text[i..] + literal;
    assert u == t[i..];
    assert u[|text| - i..|text| - i + |literal|] == literal;
    assert OccursAt(u, literal, |text| - i);
    forall j | 0 <= j < |text| - i
      ensures !OccursAt(u, literal, j)
    {
      NotEarlier(text, literal, i + j);
      assert j + |literal| <= |u| ==> u[j..j + |literal|] == t[i + j..i + j + |literal|];
    }
  }

  /** Behind white space. */
  lemma FindsGap(input: string, isPartial: bool, pos: nat, gap: string, literal: string, rest: string)
    requires At(input, pos, gap + (literal + rest)) && AllSpace(gap) && StartsBlack(literal)
    ensures FindLiteral(input, isPartial, literal, pos) == Some(Found(gap, pos + |gap|, pos + |gap| + |literal|))
  {
    hide FindLiteral;
    GapEndsFirst(gap, literal);
    FindsEnd(input, isPartial, pos, gap, literal, rest);
  }

  lemma FindsHere(input: string, isPartial: bool, pos: nat, literal: string, rest: string)
    requires At(input, pos, literal + rest)
    ensures FindLiteral(input, isPartial, literal, pos) == Some(Found("", pos, pos + |literal|))
  {
    hide FindLiteral;
    assert "" + literal == literal && "" + (literal + rest) == literal + rest;
    assert OccursAt(literal, literal, 0);
    FindsEnd(input, isPartial, pos, "", literal, rest);
  }

  /** Where another literal stands behind white space, this one is found further on if at all. */
  lemma FindsLater(input: string, isPartial: bool, pos: nat, gap: string, literal: string, other: string, rest: string)
    requires At(input, pos, gap + (other + rest)) && AllSpace(gap) && StartsBlack(literal)
    ensures var r := FindLiteral(input, isPartial, literal, pos);
            r.Some? ==> |r.value.prelude| >= |gap| && (Apart(literal, other) ==> |r.value.prelude| > |gap|)
  {
    var r := FindLiteral(input, isPartial, literal, pos);
    Ahead(input, pos, gap, other + rest);
    SpacesThere(input, pos, gap);
    if r.Some? {
      var b := r.value.begin;
      FoundStands(input, isPartial, literal, pos);
      if b == pos + |gap| && Apart(literal, other) {
        Ahead(input, b, other, rest);
        BothStand(input, b, other, literal);
      }
    }
  }

  /** Where a literal is found, it stands there as far as the input goes. */
  lemma FoundStands(input: string, isPartial: bool, literal: string, pos: nat)
    requires pos <= |input|
    ensures var r := FindLiteral(input, isPartial, literal, pos);
            r.Some? ==> StandsAt(input, literal, r.value.begin)
                        && (literal != "" ==> r.value.begin < |input| && input[r.value.begin] == literal[0])
  {
    var r := FindLiteral(input, isPartial, literal, pos);
    if r.Some? {
      var b := r.value.begin;
      if FindFrom(input, literal, pos).Some? {
        assert OccursAt(input, literal, b) && literal[..|literal|] == literal;
        assert literal != "" ==> input[b] == input[b..b + |literal|][0];
      } else {
        assert BeginsStop(input, literal, b) && input[b..] <= literal;
        assert input[b..b + (|input| - b)] == input[b..] == literal[..|input| - b];
        assert input[b] == input[b..][0];
      }
    }
  }

  /** Of two texts at one place, one begins the other. */
  lemma BothStand(input: string, pos: nat, a: string, b: string)
    requires pos + |a| <= |input| && input[pos..pos + |a|] == a
    ensures StandsAt(input, b, pos) ==> !Apart(a, b)
  {
    if StandsAt(input, b, pos) {
      var m := Comparable(input, b, pos);
      var n := if |a| <= m then |a| else m;
      assert a[..n] == input[pos..pos + n] == input[pos..pos + m][..n] == b[..m][..n] == b[..n];
      assert |a| <= m ==> a == a[..n];
      assert m < |a| ==> m == |b| && b == b[..n];
    }
  }

  /** And then it has more than white space in front. */
  lemma FindsNothing(input: string, isPartial: bool, pos: nat, gap: string, literal: string, other: string, rest: string)
    requires At(input, pos, gap + (other + rest)) && AllSpace(gap) && StartsBlack(literal) && StartsBlack(other) && Apart(literal, other)
    ensures match FindLiteral(input, isPartial, literal, pos)
            case None => true
            case Some(f) => !AllSpace(f.prelude)
  {
    var r := FindLiteral(input, isPartial, literal, pos);
    hide FindLiteral;
    FindsLater(input, isPartial, pos, gap, literal, other, rest);
    if r.Some? {
      CharAt(input, pos, gap + (other + rest), |gap|);
      assert r.value.prelude[|gap|] == input[pos + |gap|] == other[0];
    }
  }

  // ---- values ----

  /** A value is closed by the literal that comes first. */
  lemma ClosesAtEnd(input: string, isPartial: bool, form: Form, pos: nat, space: string, rest: string)
    requires ReadableForm(form) && At(input, pos, space + (form.valEnd + rest)) && EndsFirst(space, form.valEnd)
    requires form.lastValEnd.Some? ==> AllSpace(space)
    ensures FindClose(input, isPartial, form.valEnd, form.lastValEnd, form.toolEnd, form.lastToolEnd, pos)
            == (|form.valEnd|, Some(Found(space, pos + |space|, pos + |space| + |form.valEnd|)))
  {
    hide FindLiteral, Apart, EndsFirst, AllSpace;
    FindsEnd(input, isPartial, pos, space, form.valEnd, rest);
    if form.lastValEnd.Some? {
      FindsLater(input, isPartial, pos, space, form.toolEnd, form.valEnd, rest);
      if form.lastToolEnd.Some? {
        FindsLater(input, isPartial, pos, space, form.lastToolEnd.value, form.valEnd, rest);
      }
    }
  }

  /** The last value may need no closing literal of its own: the end of the call closes it. */
  lemma ClosesAtCallEnd(input: string, isPartial: bool, form: Form, pos: nat, space: string, last: bool, rest: string)
    requires ReadableForm(form) && form.lastValEnd.Some? && AllSpace(space)
    requires At(input, pos, space + (CallEnd(form, last) + rest))
    ensures FindClose(input, isPartial, form.valEnd, form.lastValEnd, form.toolEnd, form.lastToolEnd, pos)
            == (0, Some(Found(space, pos + |space|, pos + |space|)))
  {
    hide FindLiteral, Apart, AllSpace;
    var end := CallEnd(form, last);
    Ahead(input, pos, space, end + rest);
    FindsGap(input, isPartial, pos, space, end, rest);
    FindsLater(input, isPartial, pos, space, form.toolEnd, end, rest);
    if form.lastToolEnd.Some? {
      FindsLater(input, isPartial, pos, space, form.lastToolEnd.value, end, rest);
    }
    FindsLater(input, isPartial, pos, space, form.valEnd, end, rest);
  }

  lemma {:induction false} NotAllSkipped(input: string, pos: nat, i: nat)
    requires pos <= i < |input| && !IsSpace(input[i])
    ensures SkipSpaces(input, pos) < |input|
  {
  }

  lemma {:induction false} FollowNotSkipped(input: string, pos: nat, space: string, follow: string, rest: string)
    requires At(input, pos, space + (follow + rest)) && !AllSpace(follow)
    ensures SkipSpaces(input, pos) < |input|
  {
    Ahead(input, pos, space, follow + rest);
    var i :| 0 <= i < |follow| && !IsSpace(follow[i]);
    CharAt(input, pos + |space|, follow + rest, i);
    NotAllSkipped(input, pos, pos + |space| + i);
  }

  lemma FollowBlack(form: Form, last: bool, lastCall: bool)
    requires ReadableForm(form)
    ensures !AllSpace(Follow(form, last, CallEnd(form, lastCall)))
  {
    var f := Follow(form, last, CallEnd(form, lastCall));
    assert StartsBlack(f) ==> !IsSpace(f[0]);
  }

  /** One value, from behind its separator. */
  lemma ReadsValue(input: string, isPartial: bool, form: Form, o: Oracle, pos: nat, it: Item, last: bool, lastCall: bool, rest: string)
    requires ReadableForm(form) && o.Valid() && CleanItem(form, o, it, last, CallEnd(form, lastCall))
    requires At(input, pos, it.raw + (ValEnd(form, last) + rest))
    requires last && form.lastValEnd.Some? ==> exists more :: rest == CallEnd(form, lastCall) + more
    ensures EitherFrom(input, isPartial, form, o, pos)
            == Some((ValueOf(form, it), pos + |it.raw| + |ValEnd(form, last)|))
  {
    hide FindLiteral, EndsFirst, AllSpace, FindClose, Strip, Understood, At, ReadableForm, EitherFrom, CallEnd;
    var callEnd := CallEnd(form, lastCall);
    var follow := Follow(form, last, callEnd);
    var more := rest;
    if last && form.lastValEnd.Some? {
      more :| rest == callEnd + more;
      NoValEnd(form);
      assert "" + rest == rest;
    }
    assert At(input, pos, it.raw + (follow + more));
    UnderstoodHere(input, form, o, pos, it, follow, more);
    if it.json.Some? {
      ReadsJson(input, isPartial, form, pos, it, last, lastCall, more);
      JsonCounts(input, isPartial, form, o, pos, it);
    } else {
      ReadsText(input, isPartial, form, o, pos, it.raw, more);
    }
  }

  lemma UnderstoodHere(input: string, form: Form, o: Oracle, pos: nat, it: Item, follow: string, more: string)
    requires Understood(form, o, it, follow) && At(input, pos, it.raw + (follow + more))
    ensures pos + |it.raw| <= |input|
    ensures match it.json
            case Some((json, size)) => form.rawArgval != Some(true) && o.read(input, pos) == JsonValue(json, pos + size)
            case None => form.rawArgval == Some(true) || StaysText(o, input, pos, it.raw)
  {
    hide StaysText;
    Ahead(input, pos, it.raw, follow + more);
    Ahead(input, pos + |it.raw|, follow, more);
    assert StandsBefore(input, pos, it.raw, follow);
  }

  lemma JsonCounts(input: string, isPartial: bool, form: Form, o: Oracle, pos: nat, it: Item)
    requires o.Valid() && it.json.Some? && form.rawArgval != Some(true)
    requires var (json, size) := it.json.value;
             && pos + size <= |input| && o.read(input, pos) == JsonValue(json, pos + size)
             && ClosingOf(input, isPartial, form, json, pos + size).Counts?
    ensures var (json, size) := it.json.value;
            EitherFrom(input, isPartial, form, o, pos)
            == Some((ValueOf(form, it), ClosingOf(input, isPartial, form, json, pos + size).end))
  {
    hide ClosingOf, TextFrom;
  }

  lemma SplitAt(text: string, n: nat, rest: string)
    requires n <= |text|
    ensures text + rest == text[..n] + (text[n..] + rest)
  {
  }

  /** JSON counts: white space and then its end follow. */
  lemma ReadsJson(input: string, isPartial: bool, form: Form, pos: nat, it: Item, last: bool, lastCall: bool, more: string)
    requires ReadableForm(form) && it.json.Some? && it.json.value.0.marker == ""
    requires 0 < it.json.value.1 <= |it.raw| && AllSpace(it.raw[it.json.value.1..])
    requires form.lastValEnd.None? ==> EndsFirst(it.raw, form.valEnd)
    requires At(input, pos, it.raw + (Follow(form, last, CallEnd(form, lastCall)) + more))
    ensures var (json, size) := it.json.value;
            && pos + size <= |input|
            && ClosingOf(input, isPartial, form, json, pos + size) == Counts(pos + |it.raw| + |ValEnd(form, last)|)
  {
    hide FindLiteral, Apart, EndsFirst, AllSpace, FindClose, ReadableForm, At, ClosingOf, SkipSpaces;
    var (json, size) := it.json.value;
    FollowBlack(form, last, lastCall);
    if last && form.lastValEnd.Some? {
      NoValEnd(form);
      JsonAtCallEnd(input, isPartial, form, pos, it.raw, json, size, lastCall, more);
    } else {
      JsonAtValEnd(input, isPartial, form, pos, it.raw, json, size, more);
    }
  }

  lemma BehindPart(input: string, pos: nat, raw: string, size: nat, rest: string)
    requires size <= |raw| && At(input, pos, raw + rest)
    ensures At(input, pos + size, raw[size..] + rest) && pos + |raw| <= |input|
  {
    SplitAt(raw, size, rest);
    Ahead(input, pos, raw[..size], raw[size..] + rest);
    Ahead(input, pos, raw, rest);
  }

  lemma JsonAtCallEnd(input: string, isPartial: bool, form: Form, pos: nat, raw: string, json: Json, size: nat, lastCall: bool, more: string)
    requires ReadableForm(form) && form.lastValEnd == Some("") && json.marker == "" && size <= |raw| && AllSpace(raw[size..])
    requires !AllSpace(CallEnd(form, lastCall)) && At(input, pos, raw + (CallEnd(form, lastCall) + more))
    ensures pos + size <= |input|
    ensures ClosingOf(input, isPartial, form, json, pos + size) == Counts(pos + |raw|)
  {
    hide FindLiteral, Apart, EndsFirst, AllSpace, FindClose, ReadableForm, At, ClosingOf, SkipSpaces;
    var end := CallEnd(form, lastCall);
    BehindPart(input, pos, raw, size, end + more);
    FollowNotSkipped(input, pos + size, raw[size..], end, more);
    ClosesAtCallEnd(input, isPartial, form, pos + size, raw[size..], lastCall, more);
    Closed(input, isPartial, form, json, pos + size, "", raw[size..]);
  }

  lemma JsonAtValEnd(input: string, isPartial: bool, form: Form, pos: nat, raw: string, json: Json, size: nat, more: string)
    requires ReadableForm(form) && json.marker == "" && size <= |raw| && AllSpace(raw[size..])
    requires form.lastValEnd.None? ==> EndsFirst(raw, form.valEnd)
    requires !AllSpace(form.valEnd) && At(input, pos, raw + (form.valEnd + more))
    ensures pos + size <= |input|
    ensures ClosingOf(input, isPartial, form, json, pos + size) == Counts(pos + |raw| + |form.valEnd|)
  {
    hide FindLiteral, Apart, EndsFirst, AllSpace, FindClose, ReadableForm, At, ClosingOf, SkipSpaces;
    var space := raw[size..];
    LengthThere(input, pos, raw, form.valEnd, more);
    BehindPart(input, pos, raw, size, form.valEnd + more);
    FollowNotSkipped(input, pos + size, space, form.valEnd, more);
    RestEndsFirst(form, raw, size);
    ClosesAtEnd(input, isPartial, form, pos + size, space, more);
    Closed(input, isPartial, form, json, pos + size, form.valEnd, space);
  }

  lemma LengthThere(input: string, pos: nat, a: string, b: string, rest: string)
    requires At(input, pos, a + (b + rest))
    ensures pos + |a| + |b| <= |input|
  {
  }

  lemma RestEndsFirst(form: Form, raw: string, size: nat)
    requires ReadableForm(form) && size <= |raw| && AllSpace(raw[size..])
    requires form.lastValEnd.None? ==> EndsFirst(raw, form.valEnd)
    ensures EndsFirst(raw[size..], form.valEnd)
  {
    hide EndsFirst, AllSpace, ReadableForm;
    if form.lastValEnd.Some? {
      NoValEnd(form);
      GapEndsFirst(raw[size..], form.valEnd);
    } else {
      EndsFirstTail(raw, form.valEnd, size);
    }
  }

  lemma NoValEnd(form: Form)
    requires ReadableForm(form) && form.lastValEnd.Some?
    ensures form.lastValEnd == Some("") && StartsBlack(form.valEnd)
  {
  }

  lemma {:induction false} Closed(input: string, isPartial: bool, form: Form, json: Json, pos: nat, end: string, space: string)
    requires pos + |space| + |end| <= |input| && AllSpace(space) && json.marker == "" && SkipSpaces(input, pos) < |input|
    requires FindClose(input, isPartial, form.valEnd, form.lastValEnd, form.toolEnd, form.lastToolEnd, pos)
             == (|end|, Some(Found(space, pos + |space|, pos + |space| + |end|)))
    ensures ClosingOf(input, isPartial, form, json, pos) == Counts(pos + |space| + |end|)
  {
    hide FindClose, AllSpace, SkipSpaces;
  }

  /** Text stays text. */
  lemma ReadsText(input: string, isPartial: bool, form: Form, o: Oracle, pos: nat, raw: string, more: string)
    requires ReadableForm(form) && o.Valid() && form.lastValEnd.None? && EndsFirst(raw, form.valEnd)
    requires At(input, pos, raw + (form.valEnd + more)) && pos + |raw| <= |input|
    requires form.rawArgval == Some(true) || StaysText(o, input, pos, raw)
    ensures EitherFrom(input, isPartial, form, o, pos)
            == Some((Text(if form.trimRawArgval then Strip(raw) else raw), pos + |raw| + |form.valEnd|))
  {
    hide Apart, EndsFirst, FindClose, Strip, StartsBlack, JsonFrom, ClosingOf, ReadableForm, At;
    ClosesAtEnd(input, isPartial, form, pos, raw, more);
    var j := JsonFrom(input, form, o, pos);
    if j.Some? {
      JsonIsText(input, isPartial, form, o, pos, raw, more);
    }
  }

  /** What was read as JSON within a text is not closed where it ends. */
  lemma JsonIsText(input: string, isPartial: bool, form: Form, o: Oracle, pos: nat, raw: string, more: string)
    requires ReadableForm(form) && o.Valid() && form.lastValEnd.None? && EndsFirst(raw, form.valEnd)
    requires At(input, pos, raw + (form.valEnd + more)) && pos + |raw| <= |input|
    requires form.rawArgval == Some(true) || StaysText(o, input, pos, raw)
    requires JsonFrom(input, form, o, pos).Some?
    ensures ClosingOf(input, isPartial, form, JsonFrom(input, form, o, pos).value.0, JsonFrom(input, form, o, pos).value.1).IsText?
  {
    hide FindLiteral, Apart, EndsFirst, AllSpace, FindClose, StartsBlack;
    var end := JsonFrom(input, form, o, pos).value.1;
    var n := end - pos;
    SplitAt(raw, n, form.valEnd + more);
    Ahead(input, pos, raw[..n], raw[n..] + (form.valEnd + more));
    Ahead(input, end, raw[n..], form.valEnd + more);
    FollowNotSkipped(input, end, raw[n..], form.valEnd, more);
    EndsFirstTail(raw, form.valEnd, n);
    ClosesAtEnd(input, isPartial, form, end, raw[n..], more);
  }

  // ---- pairs ----

  lemma ReadsSep(input: string, isPartial: bool, form: Form, pos: nat, gap: string, rest: string)
    requires ReadableForm(form) && AllSpace(gap) && At(input, pos, SecondSep(form, gap) + rest)
    ensures SepEnd(input, isPartial, form, pos) == Some(pos + |SecondSep(form, gap)|)
  {
    hide FindLiteral, Apart, AllSpace;
    if form.keyValSep2.Some? {
      var sep := form.keyValSep2.value;
      assert gap + sep + rest == gap + (sep + rest);
      FindsGap(input, isPartial, pos, gap, sep, rest);
    }
  }

  lemma {:induction false} ReadsItems(input: string, isPartial: bool, form: Form, o: Oracle, pos: nat, items: seq<Item>, args: Args,
                                      endGap: string, lastCall: bool, rest: string)
    requires ReadableForm(form) && o.Valid() && CleanItems(form, o, items, CallEnd(form, lastCall)) && AllSpace(endGap)
    requires form.lastValEnd.Some? && items != [] ==> endGap == ""
    requires At(input, pos, ItemsThen(form, items, endGap + (CallEnd(form, lastCall) + rest)))
    ensures |endGap + (CallEnd(form, lastCall) + rest)| <= |input|
    ensures ArgsFrom(input, isPartial, form, o, pos, args)
            == Some((PutAll(form, args, items), |input| - |endGap + (CallEnd(form, lastCall) + rest)|))
    decreases |items|
  {
    hide FindLiteral, Apart, AllSpace, EndsFirst, ValueFrom, KeyFrom, CleanItem, ReadableForm, StartsBlack;
    var tail := endGap + (CallEnd(form, lastCall) + rest);
    if items == [] {
      EndApart(form, lastCall);
      FindsNothing(input, isPartial, pos, endGap, form.keyStart, CallEnd(form, lastCall), rest);
      NoMoreArgs(input, isPartial, form, o, pos, args);
    } else {
      var it, last := items[0], |items| == 1;
      var more := ItemsThen(form, items[1..], tail);
      ItemsThenCons(form, items, tail);
      LastFollows(form, items, endGap, lastCall, rest);
      var next := ReadsPair(input, isPartial, form, o, pos, it, last, lastCall, more);
      OneMoreArg(input, isPartial, form, o, pos, args, it, next);
      CleanTail(form, o, items, CallEnd(form, lastCall));
      ReadsItems(input, isPartial, form, o, next, items[1..], Put(args, it.key, ValueOf(form, it)), endGap, lastCall, rest);
    }
  }

  lemma EndApart(form: Form, lastCall: bool)
    requires ReadableForm(form)
    ensures Apart(form.keyStart, CallEnd(form, lastCall)) && StartsBlack(form.keyStart) && StartsBlack(CallEnd(form, lastCall))
    ensures form.Valid()
  {
  }

  lemma {:induction false} ItemsThenCons(form: Form, items: seq<Item>, rest: string)
    requires items != []
    ensures var it := items[0];
            ItemsThen(form, items, rest)
            == it.gap + (form.keyStart + (it.key + (form.keyValSep + (SecondSep(form, it.sepGap)
               + (it.raw + (ValEnd(form, |items| == 1) + ItemsThen(form, items[1..], rest)))))))
  {
  }

  /** Behind the last value comes the end of the call, at once where that is what closes the value. */
  lemma {:induction false} LastFollows(form: Form, items: seq<Item>, endGap: string, lastCall: bool, rest: string)
    requires items != [] && (form.lastValEnd.Some? ==> endGap == "")
    ensures |items| == 1 && form.lastValEnd.Some? ==>
              ItemsThen(form, items[1..], endGap + (CallEnd(form, lastCall) + rest)) == CallEnd(form, lastCall) + rest
  {
    assert "" + (CallEnd(form, lastCall) + rest) == CallEnd(form, lastCall) + rest;
  }

  lemma CleanTail(form: Form, o: Oracle, items: seq<Item>, callEnd: string)
    requires items != [] && CleanItems(form, o, items, callEnd)
    ensures CleanItems(form, o, items[1..], callEnd)
  {
    hide CleanItem;
    forall i | 0 <= i < |items[1..]|
      ensures CleanItem(form, o, items[1..][i], i == |items[1..]| - 1, callEnd)
    {
      assert CleanItem(form, o, items[i + 1], i + 1 == |items| - 1, callEnd);
    }
  }

  lemma {:induction false} NoMoreArgs(input: string, isPartial: bool, form: Form, o: Oracle, pos: nat, args: Args)
    requires pos <= |input| && form.Valid() && o.Valid()
    requires match FindLiteral(input, isPartial, form.keyStart, pos)
             case None => true
             case Some(f) => !AllSpace(f.prelude)
    ensures ArgsFrom(input, isPartial, form, o, pos, args) == Some((args, pos))
  {
    hide FindLiteral, AllSpace, KeyFrom, ValueFrom;
  }

  /** The pair was read up to `next`. */
  ghost predicate PairRead(input: string, isPartial: bool, form: Form, o: Oracle, pos: nat, it: Item, next: nat)
    requires pos <= |input| && form.Valid() && o.Valid()
  {
    var f := FindLiteral(input, isPartial, form.keyStart, pos);
    && f.Some? && AllSpace(f.value.prelude) && f.value.end - f.value.begin == |form.keyStart|
    && var k := KeyFrom(input, isPartial, form, f.value.end);
       && k.Some? && k.value.0 == it.key
       && ValueFrom(input, isPartial, form, o, k.value.1) == Some((ValueOf(form, it), next))
  }

  lemma {:induction false} OneMoreArg(input: string, isPartial: bool, form: Form, o: Oracle, pos: nat, args: Args, it: Item, next: nat)
    requires pos <= |input| && form.Valid() && o.Valid() && PairRead(input, isPartial, form, o, pos, it, next) && pos <= next <= |input|
    ensures ArgsFrom(input, isPartial, form, o, pos, args) == ArgsFrom(input, isPartial, form, o, next, Put(args, it.key, ValueOf(form, it)))
  {
    hide FindLiteral, AllSpace, KeyFrom, ValueFrom;
  }

  /** The key of a pair was read up to `v`. */
  ghost predicate KeyRead(input: string, isPartial: bool, form: Form, pos: nat, key: string, v: nat)
    requires pos <= |input|
  {
    var f := FindLiteral(input, isPartial, form.keyStart, pos);
    && f.Some? && AllSpace(f.value.prelude) && f.value.end - f.value.begin == |form.keyStart|
    && KeyFrom(input, isPartial, form, f.value.end) == Some((key, v))
  }

  lemma ReadsKey(input: string, isPartial: bool, form: Form, pos: nat, gap: string, key: string, rest: string)
    requires ReadableForm(form) && AllSpace(gap) && EndsFirst(key, form.keyValSep)
    requires At(input, pos, gap + (form.keyStart + (key + (form.keyValSep + rest))))
    ensures var v := pos + |gap| + |form.keyStart| + |key| + |form.keyValSep|;
            KeyRead(input, isPartial, form, pos, key, v) && At(input, v, rest)
  {
    hide FindLiteral, Apart, StartsBlack, EndsFirst, AllSpace;
    Ahead(input, pos, gap, form.keyStart + (key + (form.keyValSep + rest)));
    FindsGap(input, isPartial, pos, gap, form.keyStart, key + (form.keyValSep + rest));
    Ahead(input, pos + |gap|, form.keyStart, key + (form.keyValSep + rest));
    var k := pos + |gap| + |form.keyStart|;
    FindsEnd(input, isPartial, k, key, form.keyValSep, rest);
    Ahead(input, k, key, form.keyValSep + rest);
    Ahead(input, k + |key|, form.keyValSep, rest);
  }

  lemma ReadsSepValue(input: string, isPartial: bool, form: Form, o: Oracle, v: nat, it: Item, last: bool, lastCall: bool, rest: string)
    returns (next: nat)
    requires ReadableForm(form) && o.Valid() && CleanItem(form, o, it, last, CallEnd(form, lastCall))
    requires last && form.lastValEnd.Some? ==> exists more :: rest == CallEnd(form, lastCall) + more
    requires At(input, v, SecondSep(form, it.sepGap) + (it.raw + (ValEnd(form, last) + rest)))
    ensures v <= next <= |input| && At(input, next, rest)
    ensures ValueFrom(input, isPartial, form, o, v) == Some((ValueOf(form, it), next))
  {
    hide FindLiteral, Apart, StartsBlack, EndsFirst, AllSpace, EitherFrom, SepEnd, Understood, SecondSep;
    var tail := it.raw + (ValEnd(form, last) + rest);
    var sep := SecondSep(form, it.sepGap);
    ReadsSep(input, isPartial, form, v, it.sepGap, tail);
    Ahead(input, v, sep, tail);
    ReadsValue(input, isPartial, form, o, v + |sep|, it, last, lastCall, rest);
    Ahead(input, v + |sep|, it.raw, ValEnd(form, last) + rest);
    Ahead(input, v + |sep| + |it.raw|, ValEnd(form, last), rest);
    next := v + |sep| + |it.raw| + |ValEnd(form, last)|;
  }

  /** One pair, and what stands behind it. */
  lemma ReadsPair(input: string, isPartial: bool, form: Form, o: Oracle, pos: nat, it: Item, last: bool, lastCall: bool, rest: string)
    returns (next: nat)
    requires ReadableForm(form) && o.Valid() && CleanItem(form, o, it, last, CallEnd(form, lastCall))
    requires last && form.lastValEnd.Some? ==> exists more :: rest == CallEnd(form, lastCall) + more
    requires At(input, pos, it.gap + (form.keyStart + (it.key + (form.keyValSep + (SecondSep(form, it.sepGap)
                            + (it.raw + (ValEnd(form, last) + rest)))))))
    ensures pos <= next <= |input| && At(input, next, rest) && form.Valid()
    ensures PairRead(input, isPartial, form, o, pos, it, next)
  {
    hide FindLiteral, Apart, StartsBlack, EndsFirst, AllSpace, ValueFrom, KeyFrom, Understood, SecondSep;
    var tail := SecondSep(form, it.sepGap) + (it.raw + (ValEnd(form, last) + rest));
    ReadsKey(input, isPartial, form, pos, it.gap, it.key, tail);
    var v := pos + |it.gap| + |form.keyStart| + |it.key| + |form.keyValSep|;
    next := ReadsSepValue(input, isPartial, form, o, v, it, last, lastCall, rest);
  }

  // ---- calls ----

  /** The name with what ends it, when that is a separator of its own. */
  lemma ReadsSepName(input: string, isPartial: bool, form: Form, pos: nat, c: Call, rest: string)
    requires ReadableForm(form) && CleanName(form, c) && !AllSpace(form.toolSep)
    requires At(input, pos, c.text + (form.toolSep + rest))
    ensures NameFrom(input, isPartial, form, pos) == Some(Found(c.text, pos + |c.text|, pos + |c.text| + |form.toolSep|))
  {
    hide FindLiteral, CloseOfCall, EndsFirst;
    FindsEnd(input, isPartial, pos, c.text, form.toolSep, rest);
  }

  /** The name in front of a key. */
  lemma ReadsKeyedName(input: string, isPartial: bool, form: Form, pos: nat, c: Call, rest: string)
    requires ReadableForm(form) && CleanName(form, c) && AllSpace(form.toolSep) && c.items != []
    requires At(input, pos, c.text + (form.keyStart + rest))
    ensures NameFrom(input, isPartial, form, pos) == Some(Found(c.text, pos + |c.text|, pos + |c.text| + |form.keyStart|))
  {
    hide FindLiteral, CloseOfCall, EndsFirst;
    FindsEnd(input, isPartial, pos, c.text, form.keyStart, rest);
  }

  /** The name of a call without arguments: a key found further on belongs to another call. */
  lemma ReadsBareName(input: string, isPartial: bool, form: Form, pos: nat, c: Call, rest: string)
    requires ReadableForm(form) && CleanName(form, c) && AllSpace(form.toolSep) && c.items == []
    requires At(input, pos, c.text + (form.toolEnd + rest))
    ensures NameFrom(input, isPartial, form, pos) == Some(Found(c.text, pos + |c.text|, pos + |c.text| + |form.toolEnd|))
  {
    NotSpaceSep(form);
    FindsEnd(input, isPartial, pos, c.text, form.toolEnd, rest);
    var close := Found(c.text, pos + |c.text|, pos + |c.text| + |form.toolEnd|);
    assert CloseOfCall(input, isPartial, form, pos) == Some(close);
    var f := FindLiteral(input, isPartial, form.keyStart, pos);
    if f.Some? {
      KeyIsFurther(input, isPartial, form, pos, c, rest);
      EndInPrelude(input, pos, c.text, form.toolEnd, f.value.begin, rest);
    } else {
      NotInText(c.text, form.toolEnd);
    }
  }

  lemma NotSpaceSep(form: Form)
    requires ReadableForm(form) && AllSpace(form.toolSep)
    ensures form.lastToolEnd.None?
  {
  }

  lemma {:induction false} NotInText(text: string, literal: string)
    requires EndsFirst(text, literal) && literal != ""
    ensures FindFrom(text, literal, 0).None?
  {
    var r := FindFrom(text, literal, 0);
    if r.Some? {
      var i := r.value;
      assert OccursAt(text, literal, i) && text[i..i + |literal|] == literal;
      assert (text + literal)[i..i + |literal|] == text[i..i + |literal|];
      NotEarlier(text, literal, i);
    }
  }

  lemma KeyIsFurther(input: string, isPartial: bool, form: Form, pos: nat, c: Call, rest: string)
    requires pos <= |input| && NoneBegins(c.text + form.toolEnd, form.keyStart)
    requires At(input, pos, c.text + (form.toolEnd + rest)) && FindLiteral(input, isPartial, form.keyStart, pos).Some?
    ensures FindLiteral(input, isPartial, form.keyStart, pos).value.begin >= pos + |c.text| + |form.toolEnd|
  {
    var t := c.text + form.toolEnd;
    assert t + rest == c.text + (form.toolEnd + rest);
    var b := FindLiteral(input, isPartial, form.keyStart, pos).value.begin;
    FoundStands(input, isPartial, form.keyStart, pos);
    if b < pos + |t| {
      CannotStart(input, pos, t, rest, form.keyStart, b - pos);
    }
  }

  lemma CannotStart(input: string, pos: nat, t: string, rest: string, literal: string, i: nat)
    requires At(input, pos, t + rest) && i < |t| && Apart(t[i..], literal)
    ensures pos + i <= |input| && !StandsAt(input, literal, pos + i)
  {
    SplitAt(t, i, rest);
    Ahead(input, pos, t[..i], t[i..] + rest);
    Ahead(input, pos + i, t[i..], rest);
    BothStand(input, pos + i, t[i..], literal);
  }

  lemma {:induction false} EndInPrelude(input: string, pos: nat, text: string, end: string, begin: nat, rest: string)
    requires At(input, pos, text + (end + rest)) && pos + |text| + |end| <= begin <= |input|
    ensures FindFrom(input[pos..begin], end, 0).Some?
  {
    Ahead(input, pos, text, end + rest);
    Ahead(input, pos + |text|, end, rest);
    var t := input[pos..begin];
    SameOccurrence(input, pos, t, end, |text|);
    assert OccursAt(t, end, |text|);
  }

  /** The name in each case, and the position the pairs are read from. */
  lemma {:induction false} ReadsName(input: string, isPartial: bool, form: Form, pos: nat, c: Call, last: bool, rest: string)
    requires ReadableForm(form) && CleanName(form, c)
    requires At(input, pos, c.text + (SoughtText(form.toolSep) + ItemsThen(form, c.items, c.endGap + (CallEnd(form, last) + rest))))
    ensures var f := NameFrom(input, isPartial, form, pos);
            && f.Some? && f.value.prelude == c.text
            && At(input, if AllSpace(form.toolSep) then f.value.begin else f.value.end,
                  ItemsThen(form, c.items, c.endGap + (CallEnd(form, last) + rest)))
  {
    hide FindLiteral, EndsFirst, NameFrom, Apart, StartsBlack, AllSpace, NotIn, NoneBegins, ReadableForm, ItemsThen, CallEnd, At;
    var tail := c.endGap + (CallEnd(form, last) + rest);
    var items := ItemsThen(form, c.items, tail);
    var sep := SoughtText(form.toolSep);
    Ahead(input, pos, c.text, sep + items);
    Ahead(input, pos + |c.text|, sep, items);
    if !AllSpace(form.toolSep) {
      ReadsSepName(input, isPartial, form, pos, c, items);
    } else if c.items == [] {
      NotSpaceSep(form);
      BareEnd(form, c, last, rest);
      assert sep + items == items;
      ReadsBareName(input, isPartial, form, pos, c, rest);
    } else {
      ItemsThenCons(form, c.items, tail);
      var it := c.items[0];
      var more := it.key + (form.keyValSep + (SecondSep(form, it.sepGap)
                  + (it.raw + (ValEnd(form, |c.items| == 1) + ItemsThen(form, c.items[1..], tail)))));
      KeyFirst(sep, items, it.gap, form.keyStart, more);
      ReadsKeyedName(input, isPartial, form, pos, c, more);
    }
  }

  lemma {:induction false} BareEnd(form: Form, c: Call, last: bool, rest: string)
    requires c.items == [] && c.endGap == "" && form.lastToolEnd.None?
    ensures ItemsThen(form, c.items, c.endGap + (CallEnd(form, last) + rest)) == form.toolEnd + rest
  {
    assert "" + (form.toolEnd + rest) == form.toolEnd + rest;
  }

  lemma KeyFirst(sep: string, items: string, gap: string, keyStart: string, more: string)
    requires sep == "" && gap == "" && items == gap + (keyStart + more)
    ensures sep + items == keyStart + more
  {
  }

  /** The end of a call. */
  lemma ReadsClose(input: string, isPartial: bool, form: Form, o: Oracle, pos: nat, endGap: string, last: bool, name: string, args: Args, rest: string, more: string)
    requires ReadableForm(form) && AllSpace(endGap) && name != "" && o.dump(args).Some?
    requires At(input, pos, endGap + (CallEnd(form, last) + rest))
    requires last && form.lastToolEnd.Some? ==> rest == form.scopeEnd + more
    ensures ClosedCall(input, isPartial, form, o, name, args, pos)
            == Some((ToolCall(name, o.dump(args).value, ""), pos + |endGap| + |CallEnd(form, last)|))
  {
    hide FindLiteral, Apart, StartsBlack, AllSpace, FindClose;
    Ahead(input, pos, endGap, CallEnd(form, last) + rest);
    Ahead(input, pos + |endGap|, CallEnd(form, last), rest);
    if last && form.lastToolEnd.Some? {
      ClosesLast(input, isPartial, form, pos, endGap, more);
    } else {
      ClosesInner(input, isPartial, form, pos, endGap, rest);
    }
  }

  /** A call that is not the last, or has no end of its own: its literal is at least as near as the alternative. */
  lemma ClosesInner(input: string, isPartial: bool, form: Form, pos: nat, endGap: string, rest: string)
    requires ReadableForm(form) && AllSpace(endGap) && At(input, pos, endGap + (form.toolEnd + rest))
    ensures FindClose(input, isPartial, form.toolEnd, form.lastToolEnd, form.scopeEnd, None, pos)
            == (|form.toolEnd|, Some(Found(endGap, pos + |endGap|, pos + |endGap| + |form.toolEnd|)))
  {
    hide FindLiteral, Apart, AllSpace, FindTwo;
    FindsGap(input, isPartial, pos, endGap, form.toolEnd, rest);
    if form.lastToolEnd.Some? {
      TwoNotNearer(input, isPartial, pos, endGap, form.lastToolEnd.value, form.scopeEnd, form.toolEnd, rest);
    }
  }

  lemma TwoNotNearer(input: string, isPartial: bool, pos: nat, gap: string, first: string, second: string, other: string, rest: string)
    requires AllSpace(gap) && StartsBlack(first) && At(input, pos, gap + (other + rest))
    ensures var r := FindTwoFrom(input, isPartial, first, second, pos);
            r.Some? ==> |r.value.prelude| >= |gap|
  {
    hide FindTwo, AllSpace;
    Ahead(input, pos, gap, other + rest);
    SpacesThere(input, pos, gap);
    TwoStartsBlack(input, isPartial, first, second, pos, pos);
  }

  lemma SpacesThere(input: string, pos: nat, gap: string)
    requires pos + |gap| <= |input| && input[pos..pos + |gap|] == gap && AllSpace(gap)
    ensures forall k :: pos <= k < pos + |gap| ==> IsSpace(input[k])
  {
    forall k | pos <= k < pos + |gap|
      ensures IsSpace(input[k])
    {
      assert input[pos..pos + |gap|][k - pos] == gap[k - pos];
    }
  }

  lemma FoundStartsBlack(input: string, isPartial: bool, literal: string, pos: nat)
    requires pos <= |input| && StartsBlack(literal)
    ensures var f := FindLiteral(input, isPartial, literal, pos);
            f.Some? ==> f.value.begin < |input| && !IsSpace(input[f.value.begin])
  {
    var f := FindLiteral(input, isPartial, literal, pos);
    if f.Some? {
      FoundStands(input, isPartial, literal, pos);
    }
  }

  lemma {:induction false} TwoStartsBlack(input: string, isPartial: bool, first: string, second: string, start: nat, pos: nat)
    requires start <= pos <= |input| && first != "" && StartsBlack(first)
    ensures var r := FindTwo(input, isPartial, first, second, start, pos);
            r.Some? ==> r.value.begin < |input| && !IsSpace(input[r.value.begin])
    decreases |input| - pos
  {
    hide FindLiteral, SkipSpaces, StandsAt, Comparable, FoundFrom, FindTwo, IsSpace, StartsBlack;
    NotEmpty(first);
    FindTwoStep(input, isPartial, first, second, start, pos);
    FoundStartsBlack(input, isPartial, first, pos);
    var f := FindLiteral(input, isPartial, first, pos);
    if f.Some? && !StandsAt(input, second, SkipSpaces(input, f.value.end)) {
      TwoStartsBlack(input, isPartial, first, second, start, f.value.begin + 1);
    }
  }

  lemma NotEmpty(s: string)
    requires StartsBlack(s)
    ensures s != ""
  {
  }

  /** The last call, before the end of the scope: the alternative is nearer. */
  lemma ClosesLast(input: string, isPartial: bool, form: Form, pos: nat, endGap: string, more: string)
    requires ReadableForm(form) && AllSpace(endGap) && form.lastToolEnd.Some?
    requires At(input, pos, endGap + (form.lastToolEnd.value + (form.scopeEnd + more)))
    ensures var end := form.lastToolEnd.value;
            FindClose(input, isPartial, form.toolEnd, form.lastToolEnd, form.scopeEnd, None, pos)
            == (|end|, Some(Found(endGap, pos + |endGap|, pos + |endGap| + |end|)))
  {
    hide FindLiteral, Apart, AllSpace, FindTwoFrom;
    var end := form.lastToolEnd.value;
    Ahead(input, pos, endGap, end + (form.scopeEnd + more));
    Ahead(input, pos + |endGap|, end, form.scopeEnd + more);
    LastFound(input, isPartial, form, pos, endGap, more);
    assert end + (form.scopeEnd + more) == (end + form.scopeEnd) + more;
    FindsLater(input, isPartial, pos, endGap, form.toolEnd, end + form.scopeEnd, more);
  }

  lemma LastFound(input: string, isPartial: bool, form: Form, pos: nat, endGap: string, more: string)
    requires ReadableForm(form) && AllSpace(endGap) && form.lastToolEnd.Some?
    requires At(input, pos, endGap + (form.lastToolEnd.value + (form.scopeEnd + more)))
    ensures pos <= |input|
    ensures var r := FindTwoFrom(input, isPartial, form.lastToolEnd.value, form.scopeEnd, pos);
            r.Some? && r.value.prelude == endGap && r.value.begin == pos + |endGap|
  {
    hide FindLiteral, Apart, AllSpace, FindTwo;
    var end := form.lastToolEnd.value;
    Ahead(input, pos, endGap, end + (form.scopeEnd + more));
    Ahead(input, pos + |endGap|, end, form.scopeEnd + more);
    FindsGap(input, isPartial, pos, endGap, end, form.scopeEnd + more);
    ScopeEndStands(input, pos + |endGap| + |end|, form.scopeEnd, more);
    FindTwoStep(input, isPartial, end, form.scopeEnd, pos, pos);
    assert input[pos..pos + |endGap|] == endGap;
  }

  lemma {:induction false} ScopeEndStands(input: string, q: nat, scopeEnd: string, more: string)
    requires At(input, q, scopeEnd + more) && StartsBlack(scopeEnd)
    ensures SkipSpaces(input, q) == q && StandsAt(input, scopeEnd, q)
  {
    Ahead(input, q, scopeEnd, more);
    CharAt(input, q, scopeEnd + more, 0);
  }

  /** One call, from behind its start. */
  lemma {:induction false} ReadsCall(input: string, isPartial: bool, form: Form, o: Oracle, kimi: bool, pos: nat, c: Call, last: bool, rest: string, more: string)
    requires ReadableForm(form) && o.Valid() && CleanCall(form, o, kimi, c, last)
    requires last && form.lastToolEnd.Some? ==> rest == form.scopeEnd + more
    requires At(input, pos, c.text + (SoughtText(form.toolSep) + ItemsThen(form, c.items, c.endGap + (CallEnd(form, last) + rest))))
    ensures |rest| <= |input| && CallFrom(input, isPartial, form, o, kimi, pos) == Some((Sent(form, o, kimi, c), |input| - |rest|))
  {
    hide NameFrom, ArgsFrom, ClosedCall, CleanName, CleanItems, PutAll, ArgsOf, AllSpace, PlainName, Strip, ItemsThen, ReadableForm, At;
    FormIsValid(form);
    var tail := c.endGap + (CallEnd(form, last) + rest);
    ReadsName(input, isPartial, form, pos, c, last, rest);
    var f := NameFrom(input, isPartial, form, pos).value;
    var start := if AllSpace(form.toolSep) then f.begin else f.end;
    ReadsItems(input, isPartial, form, o, start, c.items, [], c.endGap, last, rest);
    var end := |input| - |tail|;
    BehindItems(input, form, start, c.items, tail);
    PutAllIs(form, c.items);
    ReadsClose(input, isPartial, form, o, end, c.endGap, last, NameOf(kimi, c), PutAll(form, [], c.items), rest, more);
  }

  lemma {:induction false} BehindItems(input: string, form: Form, pos: nat, items: seq<Item>, tail: string)
    requires At(input, pos, ItemsThen(form, items, tail))
    ensures |tail| <= |input| && pos <= |input| - |tail| && At(input, |input| - |tail|, tail)
  {
    var front := ItemsFront(form, items, tail);
    Ahead(input, pos, front, tail);
    assert |input| == pos + |front| + |tail|;
  }

  lemma {:induction false} ItemsFront(form: Form, items: seq<Item>, tail: string) returns (front: string)
    ensures ItemsThen(form, items, tail) == front + tail
    decreases |items|
  {
    if items == [] {
      front := "";
    } else {
      var it := items[0];
      var more := ItemsFront(form, items[1..], tail);
      ItemsThenCons(form, items, tail);
      front := it.gap + form.keyStart + it.key + form.keyValSep + SecondSep(form, it.sepGap) + it.raw + ValEnd(form, |items| == 1) + more;
      EightParts(it.gap, form.keyStart, it.key, form.keyValSep, SecondSep(form, it.sepGap), it.raw, ValEnd(form, |items| == 1), more, tail);
    }
  }

  lemma EightParts(a: string, b: string, c: string, d: string, e: string, f: string, g: string, h: string, t: string)
    ensures a + b + c + d + e + f + g + h + t == a + (b + (c + (d + (e + (f + (g + (h + t)))))))
  {
    assert a + b + c + d + (e + (f + (g + (h + t)))) == a + (b + (c + (d + (e + (f + (g + (h + t)))))));
    assert a + b + c + d + e + f + g + h + t == a + b + c + d + (e + (f + (g + (h + t))));
  }

  lemma {:induction false} ReadsCalls(input: string, isPartial: bool, form: Form, o: Oracle, kimi: bool, pos: nat, calls: seq<Call>, endGap: string, rest: string)
    requires ReadableForm(form) && o.Valid() && CleanCalls(form, o, kimi, calls) && CleanEnd(form, isPartial, endGap, rest)
    requires At(input, pos, CallsThen(form, calls, endGap + (form.scopeEnd + rest)))
    ensures forall i :: 0 <= i < |calls| ==> Sends(form, o, kimi, calls[i])
    ensures var tail := endGap + (form.scopeEnd + rest);
            && |tail| <= |input| && At(input, |input| - |tail|, tail)
            && CallsFrom(input, isPartial, form, o, kimi, pos) == Some((AllSent(form, o, kimi, calls), |input| - |tail|))
    decreases |calls|
  {
    hide CallFrom, CleanCall, CleanCalls, NextCall, ReadableForm, CleanEnd, Sends, Sent, At, CallsThen, CallThen, CallEnd, CallsFrom;
    FormIsValid(form);
    var tail := endGap + (form.scopeEnd + rest);
    if calls == [] {
      NoCallsThen(form, tail);
      NoNextCall(input, isPartial, form, pos, endGap, rest);
      WholeTail(input, pos, tail);
      NoMoreCalls(input, isPartial, form, o, kimi, pos);
    } else {
      var c, last := calls[0], |calls| == 1;
      var more := CallsThen(form, calls[1..], tail);
      CallsThenCons(form, calls, tail);
      CleanCall0(form, o, kimi, calls);
      NextCallHere(input, isPartial, form, pos, c, last, more);
      var start := pos + |c.gap| + |form.toolStart|;
      LastCallFollows(isPartial, form, calls, endGap, rest);
      ReadsCall(input, isPartial, form, o, kimi, start, c, last, more, rest);
      BehindCall(input, form, start, c, last, more);
      CleanCallsTail(form, o, kimi, calls);
      ReadsCalls(input, isPartial, form, o, kimi, |input| - |more|, calls[1..], endGap, rest);
      OneMoreCall(input, isPartial, form, o, kimi, pos, start);
    }
  }

  lemma {:induction false} NoCallsThen(form: Form, rest: string)
    ensures CallsThen(form, [], rest) == rest
  {
  }

  lemma {:induction false} CallsThenCons(form: Form, calls: seq<Call>, rest: string)
    requires calls != []
    ensures CallsThen(form, calls, rest) == CallThen(form, calls[0], |calls| == 1, CallsThen(form, calls[1..], rest))
  {
  }

  lemma {:induction false} NoMoreCalls(input: string, isPartial: bool, form: Form, o: Oracle, kimi: bool, pos: nat)
    requires pos <= |input| && form.Valid() && o.Valid() && NextCall(input, isPartial, form, pos) == None
    ensures CallsFrom(input, isPartial, form, o, kimi, pos) == Some(([], pos))
  {
  }

  lemma {:induction false} OneMoreCall(input: string, isPartial: bool, form: Form, o: Oracle, kimi: bool, pos: nat, start: nat)
    requires pos <= start <= |input| && form.Valid() && o.Valid()
    requires NextCall(input, isPartial, form, pos) == Some(start) && CallFrom(input, isPartial, form, o, kimi, start).Some?
    ensures var (call, next) := CallFrom(input, isPartial, form, o, kimi, start).value;
            CallsFrom(input, isPartial, form, o, kimi, pos) == Before(call, CallsFrom(input, isPartial, form, o, kimi, next))
  {
    hide NextCall, CallFrom, Before;
  }

  lemma FormIsValid(form: Form)
    requires ReadableForm(form)
    ensures form.Valid()
  {
  }

  lemma WholeTail(input: string, pos: nat, tail: string)
    requires At(input, pos, tail)
    ensures |tail| <= |input| && pos == |input| - |tail| && At(input, |input| - |tail|, tail)
  {
  }

  lemma CleanCall0(form: Form, o: Oracle, kimi: bool, calls: seq<Call>)
    requires calls != [] && CleanCalls(form, o, kimi, calls)
    ensures CleanCall(form, o, kimi, calls[0], |calls| == 1) && AllSpace(calls[0].gap) && Sends(form, o, kimi, calls[0])
  {
    assert CleanCall(form, o, kimi, calls[0], 0 == |calls| - 1);
  }

  lemma CleanCallsTail(form: Form, o: Oracle, kimi: bool, calls: seq<Call>)
    requires calls != [] && CleanCalls(form, o, kimi, calls)
    ensures CleanCalls(form, o, kimi, calls[1..])
  {
    hide CleanCall;
    forall i | 0 <= i < |calls[1..]|
      ensures CleanCall(form, o, kimi, calls[1..][i], i == |calls[1..]| - 1)
    {
      assert CleanCall(form, o, kimi, calls[i + 1], i + 1 == |calls| - 1);
    }
  }

  /** Behind a last call with an end of its own comes the end of the scope at once. */
  lemma {:induction false} LastCallFollows(isPartial: bool, form: Form, calls: seq<Call>, endGap: string, rest: string)
    requires calls != [] && ReadableForm(form) && CleanEnd(form, isPartial, endGap, rest)
    ensures |calls| == 1 && form.lastToolEnd.Some? ==>
              CallsThen(form, calls[1..], endGap + (form.scopeEnd + rest)) == form.scopeEnd + rest
  {
    assert "" + (form.scopeEnd + rest) == form.scopeEnd + rest;
  }

  lemma {:induction false} NextCallHere(input: string, isPartial: bool, form: Form, pos: nat, c: Call, last: bool, more: string)
    requires ReadableForm(form) && AllSpace(c.gap) && At(input, pos, CallThen(form, c, last, more))
    ensures form.Valid() && NextCall(input, isPartial, form, pos) == Some(pos + |c.gap| + |form.toolStart|)
    ensures At(input, pos + |c.gap| + |form.toolStart|,
               c.text + (SoughtText(form.toolSep) + ItemsThen(form, c.items, c.endGap + (CallEnd(form, last) + more))))
  {
    hide FindLiteral, Apart, AllSpace, ItemsThen;
    var rest := c.text + (SoughtText(form.toolSep) + ItemsThen(form, c.items, c.endGap + (CallEnd(form, last) + more)));
    FindsGap(input, isPartial, pos, c.gap, form.toolStart, rest);
    Ahead(input, pos, c.gap, form.toolStart + rest);
    Ahead(input, pos + |c.gap|, form.toolStart, rest);
  }

  lemma {:induction false} BehindCall(input: string, form: Form, pos: nat, c: Call, last: bool, more: string)
    requires At(input, pos, c.text + (SoughtText(form.toolSep) + ItemsThen(form, c.items, c.endGap + (CallEnd(form, last) + more))))
    ensures |more| <= |input| && pos <= |input| - |more| && At(input, |input| - |more|, more)
  {
    hide ItemsThen, At, SoughtText, CallEnd;
    var tail := c.endGap + (CallEnd(form, last) + more);
    Ahead(input, pos, c.text, SoughtText(form.toolSep) + ItemsThen(form, c.items, tail));
    Ahead(input, pos + |c.text|, SoughtText(form.toolSep), ItemsThen(form, c.items, tail));
    BehindItems(input, form, pos + |c.text| + |SoughtText(form.toolSep)|, c.items, tail);
    var q := |input| - |tail|;
    Ahead(input, q, c.endGap, CallEnd(form, last) + more);
    Ahead(input, q + |c.endGap|, CallEnd(form, last), more);
  }

  lemma NoNextCall(input: string, isPartial: bool, form: Form, pos: nat, endGap: string, rest: string)
    requires ReadableForm(form) && CleanEnd(form, isPartial, endGap, rest) && At(input, pos, endGap + (form.scopeEnd + rest))
    ensures form.Valid() && NextCall(input, isPartial, form, pos) == None
  {
    hide FindLiteral, Apart, AllSpace;
    if form.scopeEnd != "" {
      FindsNothing(input, isPartial, pos, endGap, form.toolStart, form.scopeEnd, rest);
    } else {
      assert endGap + (form.scopeEnd + rest) == rest;
      NoneBehind(input, isPartial, pos, form.toolStart, rest);
    }
    NothingNext(input, isPartial, form, pos);
  }

  lemma NothingNext(input: string, isPartial: bool, form: Form, pos: nat)
    requires pos <= |input| && form.Valid()
    requires match FindLiteral(input, isPartial, form.toolStart, pos)
             case None => true
             case Some(f) => !AllSpace(f.prelude)
    ensures NextCall(input, isPartial, form, pos) == None
  {
    hide FindLiteral, AllSpace;
  }

  lemma NoneBehind(input: string, isPartial: bool, pos: nat, literal: string, rest: string)
    requires At(input, pos, rest) && NothingStarts(literal, isPartial, rest)
    ensures match FindLiteral(input, isPartial, literal, pos)
            case None => true
            case Some(f) => !AllSpace(f.prelude)
  {
    hide AllSpace;
    var r := FindLiteral(input, isPartial, literal, pos);
    if r.Some? {
      var i := r.value.begin - pos;
      assert rest[..i] == r.value.prelude && rest[i..] == input[r.value.begin..];
      if FindFrom(input, literal, pos).Some? {
        assert OccursAt(input, literal, r.value.begin) && literal <= rest[i..];
      } else {
        assert BeginsStop(input, literal, r.value.begin) && i < |rest| && rest[i..] <= literal;
      }
    }
  }

  /**
   Calls written in any readable form are read back whatever stands around them: the same names, the
   same arguments in the same order with text as text and JSON as JSON, and the position right behind
   what was written.
   */
  lemma {:induction false} ReadsWritten(before: string, after: string, isPartial: bool, form: Form, o: Oracle, kimi: bool, calls: seq<Call>, endGap: string)
    requires ReadableForm(form) && o.Valid() && CleanCalls(form, o, kimi, calls) && CleanEnd(form, isPartial, endGap, after)
    ensures forall i :: 0 <= i < |calls| ==> Sends(form, o, kimi, calls[i])
    ensures var input := before + Written(form, calls, endGap, after);
            && form.Valid() && |before| <= |input| - |after|
            && AllFrom(input, isPartial, form, o, kimi, |before|) == Some((AllSent(form, o, kimi, calls), |input| - |after|))
  {
    hide CallsFrom, CleanCalls, CallsThen, AllSent, AllSpace, OpenFrom, CloseFrom, SoughtText, ReadableForm, CleanEnd, Sends, Sent, At;
    var input, pos := before + Written(form, calls, endGap, after), |before|;
    var tail := endGap + (form.scopeEnd + after);
    FormIsValid(form);
    StartsThere(before, Written(form, calls, endGap, after));
    ReadsOpen(input, isPartial, form, pos, CallsThen(form, calls, tail));
    var start := pos + |SoughtText(form.scopeStart)|;
    ReadsCalls(input, isPartial, form, o, kimi, start, calls, endGap, after);
    ReadsEnd(input, isPartial, form, |input| - |tail|, endGap, after);
  }

  lemma StartsThere(before: string, text: string)
    ensures At(before + text, |before|, text)
  {
  }

  lemma ReadsOpen(input: string, isPartial: bool, form: Form, pos: nat, rest: string)
    requires At(input, pos, SoughtText(form.scopeStart) + rest)
    ensures OpenFrom(input, isPartial, form, pos) == Some(pos + |SoughtText(form.scopeStart)|)
    ensures At(input, pos + |SoughtText(form.scopeStart)|, rest) && pos + |SoughtText(form.scopeStart)| <= |input|
  {
    hide FindLiteral, AllSpace;
    Ahead(input, pos, SoughtText(form.scopeStart), rest);
    if !AllSpace(form.scopeStart) {
      FindsHere(input, isPartial, pos, form.scopeStart, rest);
      Blank();
    }
  }

  lemma ReadsEnd(input: string, isPartial: bool, form: Form, pos: nat, endGap: string, after: string)
    requires ReadableForm(form) && CleanEnd(form, isPartial, endGap, after) && At(input, pos, endGap + (form.scopeEnd + after))
    ensures |after| <= |input| && CloseFrom(input, isPartial, form, pos) == Some(|input| - |after|)
  {
    hide FindLiteral, AllSpace, Apart, StartsBlack;
    Ahead(input, pos, endGap, form.scopeEnd + after);
    Ahead(input, pos + |endGap|, form.scopeEnd, after);
    if form.scopeEnd != "" {
      FindsGap(input, isPartial, pos, endGap, form.scopeEnd, after);
    } else {
      FindsHere(input, isPartial, pos, "", after);
      Blank();
    }
  }

  lemma Blank()
    ensures AllSpace("")
  {
  }
}
