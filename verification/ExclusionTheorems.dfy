/**
 What the excluding grammar does and does not promise, for all strings.
 */
module ExclusionTheorems {
  import opened CommonStrings
  import opened Gbnf
  import opened ExclusionGrammar

  ghost predicate Contains(s: string, w: string) {
    exists i: nat :: OccursAt(s, w, i)
  }

  /** Some forbidden word occurs; an empty one forbids nothing. */
  ghost predicate ContainsAny(s: string, forbids: seq<string>) {
    exists k :: 0 <= k < |forbids| && forbids[k] != "" && Contains(s, forbids[k])
  }

  /** `s` ends in the beginning, but not the whole, of a forbidden word. */
  ghost predicate EndsInside(s: string, forbids: seq<string>) {
    exists i :: 0 <= i < |s| && StrictlyBeginsSome(forbids, s[i..])
  }

  // ----- Rounds

  lemma MoreWords(a: seq<string>, b: seq<string>, q: string)
    requires forall v :: v in a ==> v in b
    ensures BeginsSome(a, q) ==> BeginsSome(b, q)
    ensures StrictlyBeginsSome(a, q) ==> StrictlyBeginsSome(b, q)
  {
    forall i | 0 <= i < |a|
      ensures exists j :: 0 <= j < |b| && b[j] == a[i]
    {
      assert a[i] in b;
    }
  }

  lemma SameWords(a: seq<string>, b: seq<string>, q: string)
    requires forall v :: v in a <==> v in b
    ensures BeginsSome(a, q) <==> BeginsSome(b, q)
    ensures StrictlyBeginsSome(a, q) <==> StrictlyBeginsSome(b, q)
  {
    MoreWords(a, b, q);
    MoreWords(b, a, q);
  }

  lemma {:induction false} RoundExact(forbids: seq<string>, t: string)
    requires StrictlyBeginsSome(forbids, "")
    ensures Accepts(Round(forbids), t) <==> Leaves(forbids, t)
  {
    var sorted := Sort(forbids);
    SortSorts(forbids);
    ExprExact(sorted, t);
    SameWords(sorted, forbids, "");
    SameWords(sorted, forbids, t);
    if t != "" {
      SameWords(sorted, forbids, t[..|t| - 1]);
    }
  }

  /** A string is a run of rounds. */
  ghost predicate Rounds(forbids: seq<string>, pieces: seq<string>) {
    forall i :: 0 <= i < |pieces| ==> Leaves(forbids, pieces[i])
  }

  function Flatten(pieces: seq<string>): string {
    if pieces == [] then "" else pieces[0] + Flatten(pieces[1..])
  }

  lemma {:induction false} TimesToPieces(forbids: seq<string>, n: nat, s: string) returns (pieces: seq<string>)
    requires StrictlyBeginsSome(forbids, "") && AcceptsTimes(Round(forbids), n, s)
    ensures Rounds(forbids, pieces) && Flatten(pieces) == s
    decreases n
  {
    hide Accepts, Leaves, Round, StrictlyBeginsSome;
    if n == 0 {
      pieces := [];
    } else {
      var k :| 0 <= k <= |s| && Accepts(Round(forbids), s[..k]) && AcceptsTimes(Round(forbids), n - 1, s[k..]);
      RoundExact(forbids, s[..k]);
      var rest := TimesToPieces(forbids, n - 1, s[k..]);
      pieces := [s[..k]] + rest;
      assert pieces[1..] == rest && s[..k] + s[k..] == s;
    }
  }

  lemma {:induction false} PiecesToTimes(forbids: seq<string>, pieces: seq<string>)
    requires StrictlyBeginsSome(forbids, "") && Rounds(forbids, pieces)
    ensures AcceptsTimes(Round(forbids), |pieces|, Flatten(pieces))
    decreases |pieces|
  {
    hide Accepts, Leaves, Round, StrictlyBeginsSome;
    if pieces != [] {
      var t, s := pieces[0], Flatten(pieces);
      RoundExact(forbids, t);
      PiecesToTimes(forbids, pieces[1..]);
      assert s[..|t|] == t && s[|t|..] == Flatten(pieces[1..]);
    }
  }

  /** The grammar accepts exactly the strings made of rounds. */
  lemma {:induction false} AcceptedIsPieces(forbids: seq<string>, s: string)
    requires StrictlyBeginsSome(forbids, "")
    ensures Accepts(MakeExcluding(forbids), s) <==> exists pieces :: Rounds(forbids, pieces) && Flatten(pieces) == s
  {
    if Accepts(MakeExcluding(forbids), s) {
      var n := StarTimes(Round(forbids), s);
      var pieces := TimesToPieces(forbids, n, s);
    }
    if pieces :| Rounds(forbids, pieces) && Flatten(pieces) == s {
      PiecesToTimes(forbids, pieces);
      StarIntro(Round(forbids), |pieces|, s);
    }
  }

  // ----- What is accepted for sure

  /** The place where a string leaves the trie. */
  lemma {:induction false} FirstLeave(forbids: seq<string>, s: string, k: nat) returns (n: nat)
    requires k <= |s| && StrictlyBeginsSome(forbids, s[..k]) && !BeginsSome(forbids, s)
    requires forall j :: 0 < j <= |s| ==> s[..j] !in forbids
    ensures 0 < n <= |s| && Leaves(forbids, s[..n])
    decreases |s| - k
  {
    assert s[..|s|] == s;
    if BeginsSome(forbids, s[..k + 1]) {
      var i :| 0 <= i < |forbids| && s[..k + 1] <= forbids[i];
      assert forbids[i] != s[..k + 1];
      n := FirstLeave(forbids, s, k + 1);
    } else {
      n := k + 1;
      assert s[..k + 1][..k] == s[..k];
    }
  }

  /** In a free string no word is a beginning, and the string begins no word. */
  lemma FreeBeginnings(forbids: seq<string>, s: string)
    requires s != "" && !ContainsAny(s, forbids) && !EndsInside(s, forbids)
    ensures forall j :: 0 < j <= |s| ==> s[..j] !in forbids
    ensures !BeginsSome(forbids, s)
  {
    assert s[0..] == s && s[..|s|] == s;
    forall k, j | 0 <= k < |forbids| && 0 < j <= |s|
      ensures s[..j] != forbids[k]
    {
      assert s[..j] == forbids[k] ==> OccursAt(s, forbids[k], 0);
      assert forbids[k] != "" ==> !Contains(s, forbids[k]);
    }
    forall k | 0 <= k < |forbids|
      ensures !(s <= forbids[k])
    {
      assert s[..|s|] != forbids[k];
      assert !StrictlyBeginsSome(forbids, s[0..]);
    }
  }

  lemma {:induction false} SplitIntoRounds(forbids: seq<string>, s: string) returns (pieces: seq<string>)
    requires StrictlyBeginsSome(forbids, "") && !ContainsAny(s, forbids) && !EndsInside(s, forbids)
    ensures Rounds(forbids, pieces) && Flatten(pieces) == s
    decreases |s|
  {
    if s == "" {
      pieces := [];
    } else {
      FreeBeginnings(forbids, s);
      assert s[..0] == "";
      var n := FirstLeave(forbids, s, 0);
      RestIsFree(forbids, s, n);
      var more := SplitIntoRounds(forbids, s[n..]);
      pieces := [s[..n]] + more;
      assert pieces[1..] == more && s == s[..n] + s[n..];
    }
  }

  lemma RestIsFree(forbids: seq<string>, s: string, n: nat)
    requires n <= |s| && !ContainsAny(s, forbids) && !EndsInside(s, forbids)
    ensures !ContainsAny(s[n..], forbids) && !EndsInside(s[n..], forbids)
  {
    forall k, i: nat | 0 <= k < |forbids| && forbids[k] != ""
      ensures !OccursAt(s[n..], forbids[k], i)
    {
      var w := forbids[k];
      assert i + |w| <= |s[n..]| ==> s[n..][i..i + |w|] == s[n + i..n + i + |w|];
      assert !Contains(s, w);
      assert !OccursAt(s, w, n + i);
    }
    forall i | 0 <= i < |s[n..]|
      ensures !StrictlyBeginsSome(forbids, s[n..][i..])
    {
      assert s[n..][i..] == s[n + i..];
    }
  }

  /** A string with no forbidden word in it, that does not end inside one, is accepted. */
  lemma {:induction false} FreeIsAccepted(forbids: seq<string>, s: string)
    requires !ContainsAny(s, forbids) && !EndsInside(s, forbids)
    ensures Accepts(MakeExcluding(forbids), s)
  {
    if StrictlyBeginsSome(forbids, "") {
      var pieces := SplitIntoRounds(forbids, s);
      AcceptedIsPieces(forbids, s);
    } else {
      NoWordsRound(forbids);
      AnythingAccepted(|s|, s);
      StarIntro(NotIn({}), |s|, s);
    }
  }

  /** Without a word that is not empty the grammar takes any character. */
  lemma NoWordsRound(forbids: seq<string>)
    requires !StrictlyBeginsSome(forbids, "")
    ensures MakeExcluding(forbids) == Repeat(NotIn({}), 0, None)
  {
    forall w | w in forbids
      ensures w == ""
    {
      var i :| 0 <= i < |forbids| && forbids[i] == w;
      assert !("" < forbids[i]);
    }
    SortSorts(forbids);
    ExprExact(Sort(forbids), "");
    SameWords(Sort(forbids), forbids, "");
    assert Round(forbids) == NotIn({});
  }

  lemma {:induction false} AnythingAccepted(n: nat, s: string)
    requires |s| == n
    ensures AcceptsTimes(NotIn({}), n, s)
    decreases n
  {
    if n > 0 {
      AnythingAccepted(n - 1, s[1..]);
      assert Accepts(NotIn({}), s[..1]);
    }
  }

  // ----- What is rejected for sure

  /** No forbidden word begins another, or is listed twice. */
  ghost predicate PrefixFree(forbids: seq<string>) {
    forall i, j :: 0 <= i < |forbids| && 0 <= j < |forbids| && i != j ==> !(forbids[i] <= forbids[j])
  }

  /** Where a round starts, no forbidden word starts. */
  lemma NoWordAtRound(forbids: seq<string>, pieces: seq<string>, k: nat, w: string)
    requires PrefixFree(forbids) && Rounds(forbids, pieces) && k < |pieces| && w in forbids
    ensures !(w <= Flatten(pieces[k..]))
  {
    var t, s := pieces[k], Flatten(pieces[k..]);
    assert pieces[k..][0] == t && pieces[k..][1..] == pieces[k + 1..];
    assert Leaves(forbids, t);
    var i :| 0 <= i < |forbids| && t[..|t| - 1] < forbids[i];
    var j :| 0 <= j < |forbids| && forbids[j] == w;
    assert i == j || !(forbids[j] <= forbids[i]);
    assert !(w <= t[..|t| - 1]);
    assert !(t <= w);
    if w <= s {
      BothBegin(w, t, Flatten(pieces[k + 1..]));
    }
  }

  /** Of two beginnings of a string one begins the other. */
  lemma BothBegin(w: string, t: string, rest: string)
    requires t != "" && w <= t + rest
    ensures t <= w || w <= t[..|t| - 1]
  {
    var s := t + rest;
    if |w| >= |t| {
      assert t == s[..|t|] == w[..|t|];
    } else {
      assert w == s[..|w|] == t[..|t| - 1][..|w|];
    }
  }

  // ----- Reading on through the trie

  /** Some string of rounds begins with `r`. */
  ghost predicate BeginsRounds(forbids: seq<string>, r: string) {
    exists pieces :: Rounds(forbids, pieces) && r <= Flatten(pieces)
  }

  /** What remains of the words that go on with `c`: the node of the trie below. */
  function After(words: seq<string>, c: char): (r: seq<string>)
    ensures forall v :: v in r <==> [c] + v in words
  {
    if words == [] then []
    else
      var rest := After(words[1..], c);
      if words[0] != "" && words[0][0] == c then
        assert [c] + words[0][1..] == words[0];
        [words[0][1..]] + rest
      else rest
  }

  lemma {:induction false} AfterSmaller(words: seq<string>, c: char)
    ensures Total(After(words, c)) + |After(words, c)| <= Total(words)
  {
    if words != [] {
      AfterSmaller(words[1..], c);
      var rest := After(words[1..], c);
      assert ([words[0]] + rest)[1..] == rest;
      if words[0] != "" && words[0][0] == c {
        var r := [words[0][1..]] + rest;
        assert r[1..] == rest;
      }
    }
  }

  /** From a node of the trie a round can be finished: by a character that is not there, here or further down. */
  predicate CanLeave(node: seq<string>)
    decreases Total(node)
  {
    exists c: char ::
      if After(node, c) == [] then StrictlyBeginsSome(node, "")
      else
        AfterSmaller(node, c);
        CanLeave(After(node, c))
  }

  /** Reading `r` from a node of the trie, starting over at the top behind each character that is not there. */
  predicate Walk(root: seq<string>, node: seq<string>, r: string)
    decreases |r|
  {
    if r == "" then CanLeave(node)
    else if After(node, r[0]) == [] then StrictlyBeginsSome(node, "") && (r[1..] == "" || Walk(root, root, r[1..]))
    else Walk(root, After(node, r[0]), r[1..])
  }

  lemma {:induction false} AfterBegins(words: seq<string>, c: char, q: string)
    ensures BeginsSome(words, [c] + q) <==> BeginsSome(After(words, c), q)
    ensures StrictlyBeginsSome(words, [c] + q) <==> StrictlyBeginsSome(After(words, c), q)
  {
    var a := After(words, c);
    forall i | 0 <= i < |a|
      ensures [c] + a[i] in words
      ensures q <= a[i] ==> [c] + q <= [c] + a[i]
      ensures q < a[i] ==> [c] + q < [c] + a[i]
    {
      assert a[i] in a;
    }
    forall i | 0 <= i < |words| && [c] + q <= words[i]
      ensures words[i][1..] in a && q <= words[i][1..]
      ensures [c] + q < words[i] ==> q < words[i][1..]
    {
      assert words[i] == [c] + words[i][1..];
      assert ([c] + q)[1..] == q;
    }
  }

  /** Leaving with the first character, or further down. */
  lemma {:induction false} LeavesStep(node: seq<string>, c: char, t: string)
    ensures Leaves(node, [c] + t)
            <==> if After(node, c) == [] then t == "" && StrictlyBeginsSome(node, "") else Leaves(After(node, c), t)
  {
    var a, u := After(node, c), [c] + t;
    AfterBegins(node, c, t);
    if t == "" {
      assert u[..|u| - 1] == "";
      assert a != [] ==> "" <= a[0];
    } else {
      AfterBegins(node, c, t[..|t| - 1]);
      assert u[..|u| - 1] == [c] + t[..|t| - 1];
    }
  }

  lemma {:induction false} CanLeaveIff(node: seq<string>)
    ensures CanLeave(node) <==> exists t :: Leaves(node, t)
    decreases Total(node)
  {
    hide Leaves;
    if CanLeave(node) {
      var c: char :| if After(node, c) == [] then StrictlyBeginsSome(node, "") else CanLeave(After(node, c));
      var t := "";
      if After(node, c) != [] {
        AfterSmaller(node, c);
        CanLeaveIff(After(node, c));
        t :| Leaves(After(node, c), t);
      }
      LeavesStep(node, c, t);
    }
    if t :| Leaves(node, t) {
      LeavesNotEmpty(node, t);
      var c, u := t[0], t[1..];
      assert t == [c] + u;
      LeavesStep(node, c, u);
      AfterSmaller(node, c);
      if After(node, c) != [] {
        CanLeaveIff(After(node, c));
      }
    }
  }

  lemma LeavesNotEmpty(node: seq<string>, t: string)
    ensures Leaves(node, t) ==> t != ""
  {
  }

  /** From a node: the rest of a round and further rounds, of which `r` is a beginning. */
  ghost predicate BeginsFrom(root: seq<string>, node: seq<string>, r: string) {
    exists t, pieces :: Leaves(node, t) && Rounds(root, pieces) && r <= t + Flatten(pieces)
  }

  lemma {:induction false} WalkIff(root: seq<string>, node: seq<string>, r: string)
    ensures Walk(root, node, r) <==> BeginsFrom(root, node, r)
    decreases |r|
  {
    hide Leaves, BeginsFrom;
    if r == "" {
      CanLeaveIff(node);
      NothingBeginsFrom(root, node);
    } else {
      var c, r' := r[0], r[1..];
      assert r == [c] + r';
      if After(node, c) == [] {
        BeginsFromLeaving(root, node, c, r');
        if r' != "" {
          WalkIff(root, root, r');
        }
      } else {
        BeginsFromBelow(root, node, c, r');
        WalkIff(root, After(node, c), r');
      }
    }
  }

  lemma NothingBeginsFrom(root: seq<string>, node: seq<string>)
    ensures BeginsFrom(root, node, "") <==> exists t :: Leaves(node, t)
  {
    hide Leaves;
    if t :| Leaves(node, t) {
      var pieces: seq<string> := [];
      assert Rounds(root, pieces) && "" <= t + Flatten(pieces);
    }
  }

  lemma {:induction false} BeginsFromLeaving(root: seq<string>, node: seq<string>, c: char, r: string)
    requires After(node, c) == []
    ensures BeginsFrom(root, node, [c] + r) <==> StrictlyBeginsSome(node, "") && (r == "" || BeginsFrom(root, root, r))
  {
    hide Leaves, StrictlyBeginsSome;
    LeavesStep(node, c, "");
    assert [c] + "" == [c];
    if BeginsFrom(root, node, [c] + r) {
      var t, pieces :| Leaves(node, t) && Rounds(root, pieces) && [c] + r <= t + Flatten(pieces);
      LeavesNotEmpty(node, t);
      assert t[0] == (t + Flatten(pieces))[0] == ([c] + r)[0];
      assert t == [c] + t[1..];
      LeavesStep(node, c, t[1..]);
      var f := Flatten(pieces);
      assert (t + f)[1..] == f && ([c] + r)[1..] == r;
      if r != "" {
        assert f == pieces[0] + Flatten(pieces[1..]);
        assert Leaves(root, pieces[0]) && Rounds(root, pieces[1..]);
      }
    }
    if StrictlyBeginsSome(node, "") && r == "" {
      var pieces: seq<string> := [];
      assert Rounds(root, pieces) && [c] + r <= [c] + Flatten(pieces);
    } else if StrictlyBeginsSome(node, "") && BeginsFrom(root, root, r) {
      var t, pieces :| Leaves(root, t) && Rounds(root, pieces) && r <= t + Flatten(pieces);
      var more := [t] + pieces;
      assert more[1..] == pieces;
      assert Rounds(root, more) && [c] + r <= [c] + Flatten(more);
    }
  }

  lemma {:induction false} BeginsFromBelow(root: seq<string>, node: seq<string>, c: char, r: string)
    requires After(node, c) != []
    ensures BeginsFrom(root, node, [c] + r) <==> BeginsFrom(root, After(node, c), r)
  {
    hide Leaves;
    if BeginsFrom(root, node, [c] + r) {
      var t, pieces :| Leaves(node, t) && Rounds(root, pieces) && [c] + r <= t + Flatten(pieces);
      LeavesNotEmpty(node, t);
      assert t[0] == (t + Flatten(pieces))[0] == ([c] + r)[0];
      assert t == [c] + t[1..];
      LeavesStep(node, c, t[1..]);
      assert ([c] + r)[1..] == r && (t + Flatten(pieces))[1..] == t[1..] + Flatten(pieces);
    }
    if t, pieces :| Leaves(After(node, c), t) && Rounds(root, pieces) && r <= t + Flatten(pieces) {
      LeavesStep(node, c, t);
      assert ([c] + t) + Flatten(pieces) == [c] + (t + Flatten(pieces));
    }
  }

  /** Whether a string begins some string of rounds can be read off the trie. */
  lemma {:induction false} BeginsRoundsIff(forbids: seq<string>, r: string)
    ensures BeginsRounds(forbids, r) <==> r == "" || Walk(forbids, forbids, r)
  {
    hide Leaves, Walk;
    WalkIff(forbids, forbids, r);
    if r == "" {
      var pieces: seq<string> := [];
      assert Rounds(forbids, pieces) && r <= Flatten(pieces);
    } else {
      if BeginsRounds(forbids, r) {
        var pieces :| Rounds(forbids, pieces) && r <= Flatten(pieces);
        assert Flatten(pieces) == pieces[0] + Flatten(pieces[1..]);
        assert Leaves(forbids, pieces[0]) && Rounds(forbids, pieces[1..]);
      }
      if t, pieces :| Leaves(forbids, t) && Rounds(forbids, pieces) && r <= t + Flatten(pieces) {
        var more := [t] + pieces;
        assert more[1..] == pieces;
        assert Rounds(forbids, more) && r <= Flatten(more);
      }
    }
  }

  // ----- When the words are really excluded

  ghost predicate ExcludesAll(forbids: seq<string>) {
    forall s :: Accepts(MakeExcluding(forbids), s) ==> !ContainsAny(s, forbids)
  }

  /** A word that lies in a round from `i` on, or starts in it and can go on in the rounds behind. */
  predicate Slips(forbids: seq<string>, t: string, i: nat, w: string) {
    && Leaves(forbids, t) && i < |t| && w in forbids && w != ""
    && (OccursAt(t, w, i) || (t[i..] < w && Walk(forbids, forbids, w[|t| - i..])))
  }

  /** An occurrence of a word in a string of rounds starts in one of them. */
  lemma {:induction false} OccurrenceSlips(forbids: seq<string>, pieces: seq<string>, p: nat, w: string)
    returns (t: string, i: nat)
    requires Rounds(forbids, pieces) && w in forbids && w != "" && OccursAt(Flatten(pieces), w, p)
    ensures Slips(forbids, t, i, w)
    decreases |pieces|
  {
    hide Leaves, Walk;
    t := pieces[0];
    var rest := Flatten(pieces[1..]);
    var s := t + rest;
    if p >= |t| {
      assert s[p..p + |w|] == rest[p - |t|..p - |t| + |w|];
      t, i := OccurrenceSlips(forbids, pieces[1..], p - |t|, w);
    } else {
      i := p;
      assert Leaves(forbids, t);
      if p + |w| <= |t| {
        assert s[p..p + |w|] == t[p..p + |w|];
      } else {
        var n := |t| - p;
        assert w[..n] == s[p..p + |w|][..n] == t[p..];
        assert w[n..] == s[p..p + |w|][n..] == rest[..|w| - n];
        assert Rounds(forbids, pieces[1..]);
        assert BeginsRounds(forbids, w[n..]);
        BeginsRoundsIff(forbids, w[n..]);
      }
    }
  }

  lemma SlipIsContained(forbids: seq<string>, t: string, i: nat, w: string) returns (pieces: seq<string>)
    requires Slips(forbids, t, i, w)
    ensures Rounds(forbids, pieces) && Contains(Flatten(pieces), w)
  {
    hide Leaves, Walk;
    var rest: seq<string> := [];
    if !OccursAt(t, w, i) {
      BeginsRoundsIff(forbids, w[|t| - i..]);
      rest :| Rounds(forbids, rest) && w[|t| - i..] <= Flatten(rest);
    }
    pieces := [t] + rest;
    var s := t + Flatten(rest);
    assert pieces[1..] == rest && Flatten(pieces) == s;
    if OccursAt(t, w, i) {
      assert s[i..i + |w|] == t[i..i + |w|];
    } else {
      var n := |t| - i;
      assert s[i..i + |w|] == t[i..] + Flatten(rest)[..|w| - n] == w[..n] + w[n..] == w;
    }
    assert OccursAt(s, w, i);
  }

  lemma SomeWord(forbids: seq<string>, t: string)
    requires Leaves(forbids, t)
    ensures StrictlyBeginsSome(forbids, "")
  {
    var k :| 0 <= k < |forbids| && t[..|t| - 1] < forbids[k];
    assert "" < forbids[k];
  }

  /** The grammar keeps all forbidden words out if and only if no round lets one slip through, for any list of words. */
  lemma ExcludesAllIff(forbids: seq<string>)
    ensures ExcludesAll(forbids) <==> !exists t, i: nat, w :: Slips(forbids, t, i, w)
  {
    hide Accepts, MakeExcluding, Leaves;
    if t, i: nat, w :| Slips(forbids, t, i, w) {
      SomeWord(forbids, t);
      var pieces := SlipIsContained(forbids, t, i, w);
      AcceptedIsPieces(forbids, Flatten(pieces));
      var k :| 0 <= k < |forbids| && forbids[k] == w;
      assert ContainsAny(Flatten(pieces), forbids);
    } else {
      forall s | Accepts(MakeExcluding(forbids), s)
        ensures !ContainsAny(s, forbids)
      {
        if ContainsAny(s, forbids) {
          var k :| 0 <= k < |forbids| && forbids[k] != "" && Contains(s, forbids[k]);
          var p: nat :| OccursAt(s, forbids[k], p);
          assert "" < forbids[k];
          AcceptedIsPieces(forbids, s);
          var pieces :| Rounds(forbids, pieces) && Flatten(pieces) == s;
          var t, i := OccurrenceSlips(forbids, pieces, p, forbids[k]);
        }
      }
    }
  }

  // ----- A single word

  ghost predicate AllSame(w: string) {
    forall i :: 0 <= i < |w| ==> w[i] == w[0]
  }

  /** What a round lets through covers its last character, which the word does not have there. */
  lemma SameNeverSlips(w: string, t: string, i: nat)
    requires w != "" && AllSame(w)
    ensures !Slips([w], t, i, w)
  {
    LeavesOne(w, t);
    if i < |t| {
      CoversLast(w, t, i);
    }
  }

  lemma CoversLast(w: string, t: string, i: nat)
    requires w != "" && AllSame(w) && i < |t|
    ensures t[i..] < w ==> t[|t| - 1] == w[0]
    ensures OccursAt(t, w, i) && |t| <= |w| ==> t == w
  {
    if t[i..] < w {
      assert t[i..][|t| - 1 - i] == w[|t| - 1 - i];
    }
    if OccursAt(t, w, i) && |t| <= |w| {
      assert t[0..|t|] == t;
    }
  }

  lemma LeavesOne(w: string, t: string)
    ensures Leaves([w], t) <==> t != "" && t[..|t| - 1] < w && !(t <= w)
    ensures Leaves([w], t) <==> t != "" && |t| <= |w| && t[..|t| - 1] == w[..|t| - 1] && t[|t| - 1] != w[|t| - 1]
  {
    assert [w][0] == w;
    if t != "" {
      assert t == t[..|t| - 1] + [t[|t| - 1]];
    }
  }

  /** Two characters suffice to complete any short string to an accepted one. */
  lemma {:induction false} Completable(w: string, b: char, r: string) returns (pad: string, pieces: seq<string>)
    requires w != "" && |r| < |w| && b != w[0]
    ensures Rounds([w], pieces) && Flatten(pieces) == r + pad
    decreases |r|
  {
    if r == "" {
      pad, pieces := "", [];
    } else if r <= w {
      var c := if w[|r|] == b then w[0] else b;
      pad := [c];
      LeavesOne(w, r + pad);
      assert (r + pad)[..|r|] == r == w[..|r|];
      pieces := [r + pad];
      assert pieces[1..] == [] && Flatten([]) == "";
      assert (r + pad) + "" == r + pad;
    } else {
      var n := FirstDifference(r, w);
      var t := r[..n + 1];
      LeavesOne(w, t);
      assert t[..n] == r[..n];
      var more;
      pad, more := Completable(w, b, r[n + 1..]);
      pieces := [t] + more;
      assert pieces[1..] == more && r == t + r[n + 1..];
      assert t + (r[n + 1..] + pad) == r + pad;
    }
  }

  lemma FirstDifference(r: string, w: string) returns (n: nat)
    requires |r| < |w| && !(r <= w)
    ensures n < |r| && r[n] != w[n] && r[..n] == w[..n]
  {
    n := 0;
    while r[n] == w[n]
      invariant n < |r| && r[..n] == w[..n]
      invariant exists i :: n <= i < |r| && r[i] != w[i]
      decreases |r| - n
    {
      n := n + 1;
    }
  }

  /** A string of rounds that contains a word of different characters: its first character, then the word, then more. */
  lemma MixedCounterexample(w: string) returns (pieces: seq<string>)
    requires w != "" && !AllSame(w)
    ensures Rounds([w], pieces) && Contains(Flatten(pieces), w)
  {
    var k := FirstOther(w);
    var t := w[..k] + [w[0]];
    LeavesOne(w, t);
    assert t[..k] == w[..k];
    var pad, more := Completable(w, w[k], w[k..]);
    pieces := [t] + more;
    assert pieces[1..] == more;
    RunOfSame(w, k, pad);
    ContainsShifted(w, w[0], pad, Flatten(pieces));
  }

  lemma ContainsShifted(w: string, a: char, pad: string, s: string)
    requires s == [a] + w + pad
    ensures Contains(s, w)
  {
    assert s[1..1 + |w|] == w;
    assert OccursAt(s, w, 1);
  }

  lemma FirstOther(w: string) returns (k: nat)
    requires w != "" && !AllSame(w)
    ensures 0 < k < |w| && w[k] != w[0] && forall i :: 0 <= i < k ==> w[i] == w[0]
  {
    k := 0;
    while w[k] == w[0]
      invariant k < |w| && forall i :: 0 <= i < k ==> w[i] == w[0]
      invariant exists i :: k <= i < |w| && w[i] != w[0]
      decreases |w| - k
    {
      k := k + 1;
    }
  }

  lemma RunOfSame(w: string, k: nat, pad: string)
    requires k < |w| && forall i :: 0 <= i < k ==> w[i] == w[0]
    ensures (w[..k] + [w[0]]) + (w[k..] + pad) == [w[0]] + w + pad
  {
    assert w[..k] + [w[0]] == [w[0]] + w[..k];
    assert w == w[..k] + w[k..];
  }

  /** For a single word the grammar excludes it everywhere if and only if all its characters are the same. */
  lemma ExcludesIff(w: string)
    requires w != ""
    ensures ExcludesAll([w]) <==> AllSame(w)
  {
    hide Accepts, MakeExcluding, Slips, Leaves;
    ExcludesAllIff([w]);
    if AllSame(w) {
      forall t, i: nat, v | Slips([w], t, i, v)
        ensures false
      {
        SlipWord(w, t, i, v);
        SameNeverSlips(w, t, i);
      }
    } else {
      var pieces := MixedCounterexample(w);
      var p: nat :| OccursAt(Flatten(pieces), w, p);
      var t, i := OccurrenceSlips([w], pieces, p, w);
    }
  }

  lemma SlipWord(w: string, t: string, i: nat, v: string)
    requires Slips([w], t, i, v)
    ensures v == w
  {
  }
}
