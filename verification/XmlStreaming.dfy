/**
 What is sent for a call that is cut off, chat-parser-xml-toolcall.cpp:314-343, 456-475 and 512-575: a
 beginning of what will be sent when the input goes on, and the longest one but for a quotation mark.
 JSON is written as `nlohmann::json::dump` writes it, without spaces; how single characters are
 escaped and other values are written is left open.
 */
module XmlStreaming {
  import opened CommonStrings
  import opened ChatParser
  import opened XmlFind
  import opened XmlModel
  import opened XmlStops
  import XmlRoundTrip

  /** How a character of a string is written, and any other value. */
  datatype Writer = Writer(escape: char -> string, other: Json -> string) {
    /** Every character is written, and letters and underscores as they are. */
    ghost predicate Valid() {
      (forall c :: escape(c) != "") && (forall c :: 'A' <= c <= 'Z' || c == '_' ==> escape(c) == [c])
    }
  }

  function Escaped(w: Writer, s: string): string {
    if s == "" then "" else w.escape(s[0]) + Escaped(w, s[1..])
  }

  function Quoted(w: Writer, s: string): string {
    "\"" + Escaped(w, s) + "\""
  }

  function ValText(w: Writer, v: Val): string {
    match v
    case Text(s) => Quoted(w, s)
    case Parsed(json) => w.other(json)
  }

  function MemberText(w: Writer, key: string, v: Val): string {
    Quoted(w, key) + ":" + ValText(w, v)
  }

  /** The members with commas between, and with one in front if some come before. */
  function Members(w: Writer, args: Args, first: bool): string {
    if args == [] then ""
    else (if first then "" else ",") + MemberText(w, args[0].0, args[0].1) + Members(w, args[1..], false)
  }

  function ObjectText(w: Writer, args: Args): string {
    "{" + Members(w, args, true) + "}"
  }

  /** The oracle writes objects so. */
  ghost predicate Writes(o: Oracle, w: Writer) {
    forall args :: o.dump(args) == Some(ObjectText(w, args))
  }

  // ---- what stands before an argument ----

  /** The object up to where the text of a further key begins. */
  function UpToKey(w: Writer, args: Args): string {
    "{" + Members(w, args, true) + (if args == [] then "" else ",") + "\""
  }

  /** And up to where its value begins. */
  function UpToValue(w: Writer, args: Args, key: string): string {
    UpToKey(w, args) + Escaped(w, key) + "\":"
  }

  lemma {:induction false} EscapedConcat(w: Writer, s: string, t: string)
    ensures Escaped(w, s + t) == Escaped(w, s) + Escaped(w, t)
    decreases |s|
  {
    if s == "" {
      assert s + t == t;
    } else {
      EscapedConcat(w, s[1..], t);
      assert (s + t)[1..] == s[1..] + t;
    }
  }

  lemma {:induction false} PlainEscaped(w: Writer, s: string)
    requires w.Valid() && forall i :: 0 <= i < |s| ==> 'A' <= s[i] <= 'Z' || s[i] == '_'
    ensures Escaped(w, s) == s
    decreases |s|
  {
    if s != "" {
      PlainEscaped(w, s[1..]);
    }
  }

  lemma {:induction false} MembersConcat(w: Writer, a: Args, b: Args, first: bool)
    ensures Members(w, a + b, first) == Members(w, a, first) + Members(w, b, first && a == [])
    decreases |a|
  {
    hide MemberText;
    if a == [] {
      assert a + b == b;
    } else {
      MembersConcat(w, a[1..], b, false);
      assert (a + b)[1..] == a[1..] + b;
    }
  }

  /** The whole object, with an argument picked out. */
  lemma {:induction false} ObjectSplit(w: Writer, args: Args, key: string, v: Val, later: Args)
    ensures ObjectText(w, args + ([(key, v)] + later))
            == UpToValue(w, args, key) + (ValText(w, v) + (Members(w, later, false) + "}"))
    ensures ObjectText(w, args + ([(key, v)] + later))
            == UpToKey(w, args) + (Escaped(w, key) + ("\":" + (ValText(w, v) + (Members(w, later, false) + "}"))))
  {
    hide ValText, Escaped;
    MembersConcat(w, args, [(key, v)] + later, true);
    assert ([(key, v)] + later)[1..] == later;
    var m, l, k, t := Members(w, args, true), Members(w, later, false), Escaped(w, key), ValText(w, v);
    var comma := if args == [] then "" else ",";
    assert Members(w, [(key, v)] + later, args == []) == comma + ("\"" + k + "\"" + ":" + t) + l;
    JoinParts(m, comma, k, t, l);
  }

  lemma JoinParts(m: string, comma: string, k: string, t: string, l: string)
    ensures "{" + (m + (comma + ("\"" + k + "\"" + ":" + t) + l)) + "}"
            == ("{" + m + comma + "\"" + k + "\":") + (t + (l + "}"))
    ensures "{" + (m + (comma + ("\"" + k + "\"" + ":" + t) + l)) + "}"
            == ("{" + m + comma + "\"") + (k + ("\":" + (t + (l + "}"))))
  {
    assert "\"" + k + "\"" + ":" == "\"" + k + "\":";
  }

  // ---- the needle ----

  /** What may stand behind the needle. */
  predicate Closing(s: string) {
    forall i :: 0 <= i < |s| ==> s[i] in ['\'', '"', '}', ':'] || IsSpace(s[i])
  }

  /** The text without a quotation mark at its end. */
  function Unquoted(s: string): (r: string)
    ensures r <= s && |s| <= |r| + 1
  {
    if s != "" && s[|s| - 1] == '"' then s[..|s| - 1] else s
  }

  lemma NeedleFacts()
    ensures |NEEDLE| == 26 && NEEDLE[0] == 'X' && forall i :: 0 < i < |NEEDLE| ==> NEEDLE[i] != 'X'
    ensures forall i :: 0 <= i < |NEEDLE| ==> 'A' <= NEEDLE[i] <= 'Z' || NEEDLE[i] == '_'
  {
  }

  /** The needle found is the one that was put in. */
  lemma {:induction false} NeedleLast(before: string, behind: string)
    requires 'X' !in behind
    ensures FindLast(before + NEEDLE + behind, NEEDLE, |before + NEEDLE + behind|) == Some(|before|)
  {
    var s := before + NEEDLE + behind;
    assert s[|before|..|before| + |NEEDLE|] == NEEDLE;
    assert OccursAt(s, NEEDLE, |before|);
    var r := FindLast(s, NEEDLE, |s|).value;
    NoneFurther(before, behind, r);
  }

  lemma NoneFurther(before: string, behind: string, r: nat)
    requires 'X' !in behind
    ensures |before| < r ==> !OccursAt(before + NEEDLE + behind, NEEDLE, r)
  {
    var s := before + NEEDLE + behind;
    NeedleFacts();
    if |before| < r < |s| {
      assert s[r] == if r < |before| + 26 then NEEDLE[r - |before|] else behind[r - |before| - 26];
      assert s[r] != 'X';
      assert r + |NEEDLE| <= |s| ==> s[r..r + |NEEDLE|][0] == s[r];
    }
  }

  /** The text is cut at the needle if only closing characters follow it, and not at all otherwise. */
  lemma CutAtNeedle(before: string, behind: string)
    requires 'X' !in behind
    ensures PartialJson(before + NEEDLE + behind) == if Closing(behind) then Some(Unquoted(before)) else None
  {
    var s := before + NEEDLE + behind;
    NeedleLast(before, behind);
    assert forall i :: |before| + |NEEDLE| <= i < |s| ==> s[i] == behind[i - |before| - |NEEDLE|];
    assert forall i :: 0 <= i < |behind| ==> behind[i] == s[|before| + |NEEDLE| + i];
    assert s[..|before|] == before;
    assert before != "" ==> s[|before| - 1] == before[|before| - 1] && s[..|before| - 1] == before[..|before| - 1];
  }

  /** Nor is a text without the needle. */
  lemma {:induction false} NotWithoutNeedle(s: string)
    requires FindFrom(s, NEEDLE, 0).None?
    ensures PartialJson(s).None?
  {
    assert forall i: nat :: !OccursAt(s, NEEDLE, i);
  }

  // ---- values, keys and calls that are cut off ----

  /** All that is sent for a call whose value goes on from `text`. */
  ghost predicate BeginsAll(s: string, w: Writer, args: Args, key: string, text: string) {
    forall more: string, later: Args :: s <= ObjectText(w, args + ([(key, Text(text + more))] + later))
  }

  /** What is known of the object while the text of a value is still coming. */
  function Known(w: Writer, args: Args, key: string, text: string): string {
    UpToValue(w, args, key) + "\"" + Escaped(w, text)
  }

  lemma {:induction false} KnownBegins(w: Writer, args: Args, key: string, text: string, more: string, later: Args)
    ensures ObjectText(w, args + ([(key, Text(text + more))] + later))
            == Known(w, args, key, text) + (Escaped(w, more) + ("\"" + (Members(w, later, false) + "}")))
  {
    hide Escaped, Members;
    ObjectSplit(w, args, key, Text(text + more), later);
    EscapedConcat(w, text, more);
    var a, b, c, l := UpToValue(w, args, key), Escaped(w, text), Escaped(w, more), Members(w, later, false);
    assert a + (("\"" + (b + c) + "\"") + (l + "}")) == (a + "\"" + b) + (c + ("\"" + (l + "}")));
  }

  /** It is the longest beginning there is: right behind it a quotation mark may follow, or a letter. */
  lemma KnownIsLongest(w: Writer, args: Args, key: string, text: string, s: string)
    requires w.Valid()
    ensures BeginsAll(s, w, args, key, text) <==> s <= Known(w, args, key, text)
  {
    hide ObjectText, Known, Escaped, Members;
    var known := Known(w, args, key, text);
    forall more: string, later: Args
      ensures known <= ObjectText(w, args + ([(key, Text(text + more))] + later))
    {
      KnownBegins(w, args, key, text, more, later);
    }
    if BeginsAll(s, w, args, key, text) && !(s <= known) {
      KnownBegins(w, args, key, text, "", []);
      KnownBegins(w, args, key, text, "A", []);
      NothingEscaped(w);
      PlainEscaped(w, "A");
      var x, y := ObjectText(w, args + ([(key, Text(text + ""))] + [])), ObjectText(w, args + ([(key, Text(text + "A"))] + []));
      assert s <= x && s <= y;
      PartsThere(s, known, x, y);
    }
  }

  lemma {:induction false} NothingEscaped(w: Writer)
    ensures Escaped(w, "") == ""
  {
  }

  lemma PartsThere(s: string, known: string, x: string, y: string)
    requires s <= x && s <= y && known <= x && known <= y && |x| > |known| && |y| > |known|
    requires x[|known|] != y[|known|]
    ensures s <= known
  {
    assert forall i :: 0 <= i < |s| ==> s[i] == x[i] && s[i] == y[i];
    assert |s| <= |known|;
    assert s == x[..|s|] && known == x[..|known|];
  }

  /** The arguments with a new key, its value cut off. */
  lemma {:induction false} NewKey(args: Args, key: string, v: Val)
    requires forall i :: 0 <= i < |args| ==> args[i].0 != key
    ensures Put(args, key, v) == args + ([(key, v)] + [])
  {
    XmlRoundTrip.PutAppends(args, key, v);
    assert [(key, v)] + [] == [(key, v)];
  }

  /**
   A value that is cut off in its text: what is sent is the longest text that begins all it can go on to,
   but for a quotation mark at its end, which is kept back.
   */
  lemma {:induction false} CutValue(o: Oracle, w: Writer, name: string, args: Args, key: string, text: string)
    requires Writes(o, w) && w.Valid() && name != "" && forall i :: 0 <= i < |args| ==> args[i].0 != key
    ensures CutCall(o, name, Put(args, key, Text(text + NEEDLE))) == [ToolCall(name, Unquoted(Known(w, args, key, text)), "")]
    ensures BeginsAll(Unquoted(Known(w, args, key, text)), w, args, key, text)
  {
    hide Known, Escaped, ObjectText, PartialJson, Members;
    NewKey(args, key, Text(text + NEEDLE));
    KnownBegins(w, args, key, text, NEEDLE, []);
    NeedleFacts();
    PlainEscaped(w, NEEDLE);
    NoMembers(w);
    var known := Known(w, args, key, text);
    assert known + (NEEDLE + ("\"" + ("" + "}"))) == known + NEEDLE + "\"}";
    NoX();
    CutAtNeedle(known, "\"}");
    KnownIsLongest(w, args, key, text, Unquoted(known));
  }

  lemma {:induction false} NoMembers(w: Writer)
    ensures Members(w, [], false) == ""
  {
  }

  /** As long as nothing is known of the value, what is sent begins the object whatever the value is. */
  lemma {:induction false} CutBeforeValue(o: Oracle, w: Writer, name: string, args: Args, key: string, v: Val, later: Args)
    requires Writes(o, w) && w.Valid() && name != "" && forall i :: 0 <= i < |args| ==> args[i].0 != key
    ensures CutCall(o, name, Put(args, key, Text(NEEDLE))) == [ToolCall(name, UpToValue(w, args, key), "")]
    ensures UpToValue(w, args, key) <= ObjectText(w, args + ([(key, v)] + later))
  {
    hide ObjectText, UpToValue;
    assert "" + NEEDLE == NEEDLE;
    CutValue(o, w, name, args, key, "");
    NothingEscaped(w);
    assert Known(w, args, key, "") == UpToValue(w, args, key) + "\"";
    ObjectSplit(w, args, key, v, later);
  }

  /** The object with a key, up to what is behind that. */
  lemma KeyBegins(w: Writer, args: Args, key: string, more: string, v: Val, later: Args) returns (tail: string)
    ensures ObjectText(w, args + ([(key + more, v)] + later)) == UpToKey(w, args) + Escaped(w, key) + (Escaped(w, more) + tail)
    ensures tail == "\":" + (ValText(w, v) + (Members(w, later, false) + "}"))
  {
    hide Escaped, ObjectText, UpToKey, Members, ValText;
    ObjectSplit(w, args, key + more, v, later);
    EscapedConcat(w, key, more);
    tail := "\":" + (ValText(w, v) + (Members(w, later, false) + "}"));
    var a, b, c := UpToKey(w, args), Escaped(w, key), Escaped(w, more);
    assert a + ((b + c) + tail) == a + b + (c + tail);
  }

  /** A key that is cut off: what is sent begins the object whatever the key goes on to and its value is. */
  lemma {:induction false} CutKey(o: Oracle, w: Writer, name: string, args: Args, key: string, more: string, v: Val, later: Args)
    requires Writes(o, w) && w.Valid() && name != "" && forall i :: 0 <= i < |args| ==> args[i].0 != key + NEEDLE
    ensures CutCall(o, name, Put(args, key + NEEDLE, Text(""))) == [ToolCall(name, Unquoted(UpToKey(w, args) + Escaped(w, key)), "")]
    ensures UpToKey(w, args) + Escaped(w, key) <= ObjectText(w, args + ([(key + more, v)] + later))
  {
    hide Escaped, ObjectText, PartialJson, UpToKey, Members, ValText, Unquoted;
    NewKey(args, key + NEEDLE, Text(""));
    var end := KeyBegins(w, args, key, NEEDLE, Text(""), []);
    NeedleFacts();
    PlainEscaped(w, NEEDLE);
    NoMembers(w);
    EmptyText(w);
    var before := UpToKey(w, args) + Escaped(w, key);
    Ends(before);
    NoX();
    CutAtNeedle(before, "\":\"\"}");
    var tail := KeyBegins(w, args, key, more, v, later);
  }

  lemma NoX()
    ensures 'X' !in "\"}" && Closing("\"}") && 'X' !in "\":\"\"}" && Closing("\":\"\"}")
  {
  }

  lemma Ends(before: string)
    ensures before + (NEEDLE + ("\":" + ("\"\"" + ("" + "}")))) == before + NEEDLE + "\":\"\"}"
    ensures Closing("\":\"\"}")
  {
    assert "\":" + ("\"\"" + ("" + "}")) == "\":\"\"}";
  }

  lemma EmptyText(w: Writer)
    ensures ValText(w, Text("")) == "\"\""
  {
    assert Escaped(w, "") == "";
  }

  /** Between two arguments: without its closing brace the object begins every one with more arguments, and no longer text does. */
  lemma {:induction false} CutBetween(w: Writer, args: Args, s: string)
    ensures DropBrace(ObjectText(w, args)) == "{" + Members(w, args, true)
    ensures (forall later: Args :: s <= ObjectText(w, args + later)) <==> s <= DropBrace(ObjectText(w, args))
  {
    hide Members;
    var known := "{" + Members(w, args, true);
    assert ObjectText(w, args) == known + "}" && (known + "}")[..|known|] == known;
    forall later: Args
      ensures ObjectText(w, args + later) == known + (Members(w, later, args == []) + "}")
    {
      MembersConcat(w, args, later, true);
      assert "{" + (Members(w, args, true) + Members(w, later, args == [])) + "}" == known + (Members(w, later, args == []) + "}");
    }
    if forall later: Args :: s <= ObjectText(w, args + later) {
      var one: Args := [("", Text(""))];
      var x, y := ObjectText(w, args + []), ObjectText(w, args + one);
      FirstMember(w, args == []);
      NoneMember(w, args == []);
      assert s <= x && s <= y;
      PartsThere(s, known, x, y);
    }
  }

  lemma {:induction false} FirstMember(w: Writer, first: bool)
    ensures var m := Members(w, [("", Text(""))], first); m != "" && m[0] != '}'
  {
    hide Escaped;
  }

  lemma {:induction false} NoneMember(w: Writer, first: bool)
    ensures Members(w, [], first) == ""
  {
  }

  /** JSON that reaches to the end of a cut-off input counts as complete: what is sent begins every object with more arguments. */
  lemma CutJson(o: Oracle, w: Writer, name: string, args: Args, key: string, json: Json, later: Args)
    requires Writes(o, w) && name != "" && json.dumpMarker == "" && forall i :: 0 <= i < |args| ==> args[i].0 != key
    ensures var cut := DropBrace(ObjectText(w, args + [(key, Parsed(json))]));
            && WaitingCall(o, name, args, key, json) == [ToolCall(name, cut, "")]
            && cut <= ObjectText(w, args + [(key, Parsed(json))] + later)
  {
    hide ObjectText;
    NewKey(args, key, Parsed(json));
    assert [(key, Parsed(json))] + [] == [(key, Parsed(json))];
    var all := args + [(key, Parsed(json))];
    EndsInBrace(w, all);
    CutBetween(w, all, DropBrace(ObjectText(w, all)));
  }

  lemma EndsInBrace(w: Writer, args: Args)
    ensures var t := ObjectText(w, args); t != "" && t[|t| - 1] == '}'
  {
  }

  /** JSON that was healed is sent up to the last marker; it must be there. */
  lemma {:induction false} CutAtMarker(o: Oracle, name: string, args: Args, key: string, json: Json, text: string, before: string, behind: string)
    requires o.dump(Put(args, key, Parsed(json))) == Some(text) && json.dumpMarker != "" && name != ""
    ensures FindFrom(text, json.dumpMarker, 0).None? ==>
              WaitingCall(o, name, args, key, json) == [] && WaitingOut(o, args, key, json) == Aborted
    ensures text == before + json.dumpMarker + behind && (forall i :: |before| < i ==> !OccursAt(text, json.dumpMarker, i)) ==>
              WaitingCall(o, name, args, key, json) == [ToolCall(name, before, "")] && WaitingOut(o, args, key, json) == Partial
  {
    hide Put;
    var marker := json.dumpMarker;
    assert FindFrom(text, marker, 0).None? ==> forall i: nat :: !OccursAt(text, marker, i);
    if text == before + marker + behind && forall i :: |before| < i ==> !OccursAt(text, marker, i) {
      assert text[|before|..|before| + |marker|] == marker;
      assert OccursAt(text, marker, |before|);
      assert text[..|before|] == before;
    }
  }
}
