/**
 `make_gbnf_excluding`: a grammar meant to accept the strings without certain words. It is a trie of
 the words turned inside out and repeated: each round leaves the trie by a character that continues
 no word. The comment in the source promises more than that gives; here is what it does give.
 */
module ExclusionGrammar {
  import opened CommonStrings
  import opened Gbnf

  // ----- Sorting

  /** Order of `std::string`. */
  predicate StrLe(a: string, b: string) {
    a == "" || (b != "" && (a[0] < b[0] || (a[0] == b[0] && StrLe(a[1..], b[1..]))))
  }

  ghost predicate IsSorted(words: seq<string>) {
    forall i, j :: 0 <= i < j < |words| ==> StrLe(words[i], words[j])
  }

  lemma {:induction false} StrLeTransitive(a: string, b: string, c: string)
    requires StrLe(a, b) && StrLe(b, c)
    ensures StrLe(a, c)
  {
    if a != "" && a[0] == b[0] == c[0] {
      StrLeTransitive(a[1..], b[1..], c[1..]);
    }
  }

  lemma {:induction false} StrLeTotal(a: string, b: string)
    ensures StrLe(a, b) || StrLe(b, a)
  {
    if a != "" && b != "" && a[0] == b[0] {
      StrLeTotal(a[1..], b[1..]);
    }
  }

  function Insert(w: string, words: seq<string>): (r: seq<string>)
    ensures forall v :: v in r <==> v == w || v in words
  {
    if words == [] then [w]
    else if StrLe(w, words[0]) then [w] + words
    else [words[0]] + Insert(w, words[1..])
  }

  function Sort(words: seq<string>): (r: seq<string>)
    ensures forall v :: v in r <==> v in words
  {
    if words == [] then [] else Insert(words[0], Sort(words[1..]))
  }

  lemma {:induction false} InsertSorted(w: string, words: seq<string>)
    requires IsSorted(words)
    ensures IsSorted(Insert(w, words))
  {
    if words != [] {
      forall i | 0 <= i < |words| && StrLe(w, words[0])
        ensures StrLe(w, words[i])
      {
        if i > 0 {
          StrLeTransitive(w, words[0], words[i]);
        }
      }
      if !StrLe(w, words[0]) {
        StrLeTotal(w, words[0]);
        InsertSorted(w, words[1..]);
        var rest := Insert(w, words[1..]);
        forall i | 0 <= i < |rest|
          ensures StrLe(words[0], rest[i])
        {
          assert rest[i] in rest;
        }
      }
    }
  }

  lemma {:induction false} SortSorts(words: seq<string>)
    ensures IsSorted(Sort(words))
  {
    if words != [] {
      SortSorts(words[1..]);
      InsertSorted(words[0], Sort(words[1..]));
    }
  }

  // ----- The trie

  /** The words that go on with one character, with that character taken off. */
  datatype Child = Child(head: char, tails: seq<string>)

  /** How many words from the start begin with `c`. */
  function RunLength(words: seq<string>, c: char): (n: nat)
    ensures n <= |words|
    ensures forall i :: 0 <= i < n ==> words[i] != "" && words[i][0] == c
    ensures n < |words| ==> words[n] == "" || words[n][0] != c
  {
    if words != [] && words[0] != "" && words[0][0] == c then 1 + RunLength(words[1..], c) else 0
  }

  function Tails(words: seq<string>): (tails: seq<string>)
    requires forall i :: 0 <= i < |words| ==> words[i] != ""
    ensures |tails| == |words| && forall i :: 0 <= i < |words| ==> tails[i] == words[i][1..]
  {
    seq(|words|, i requires 0 <= i < |words| => words[i][1..])
  }

  /** Neighbouring words with the same first character make one child; finished words are passed over. */
  function Children(words: seq<string>): seq<Child>
    decreases |words|
  {
    if words == [] then []
    else if words[0] == "" then Children(words[1..])
    else
      var n := RunLength(words, words[0][0]);
      [Child(words[0][0], Tails(words[..n]))] + Children(words[n..])
  }

  function Total(words: seq<string>): nat {
    if words == [] then 0 else |words[0]| + Total(words[1..])
  }

  function ChildTotal(cs: seq<Child>): nat {
    if cs == [] then 0 else Total(cs[0].tails) + ChildTotal(cs[1..])
  }

  lemma {:induction false} TotalSplit(words: seq<string>, n: nat)
    requires n <= |words|
    ensures Total(words) == Total(words[..n]) + Total(words[n..])
  {
    if n == 0 {
      assert words[..0] == [] && words[0..] == words;
    } else {
      TotalSplit(words[1..], n - 1);
      assert words[..n][0] == words[0] && words[..n][1..] == words[1..][..n - 1] && words[n..] == words[1..][n - 1..];
    }
  }

  lemma {:induction false} TotalTails(words: seq<string>)
    requires forall i :: 0 <= i < |words| ==> words[i] != ""
    ensures Total(Tails(words)) + |words| == Total(words)
  {
    if words != [] {
      TotalTails(words[1..]);
      assert Tails(words)[1..] == Tails(words[1..]);
    }
  }

  lemma {:induction false} ChildrenSmaller(words: seq<string>)
    ensures ChildTotal(Children(words)) <= Total(words)
    ensures Children(words) != [] ==> ChildTotal(Children(words)) < Total(words)
    decreases |words|
  {
    if words != [] {
      if words[0] == "" {
        ChildrenSmaller(words[1..]);
      } else {
        var n := RunLength(words, words[0][0]);
        TotalSplit(words, n);
        TotalTails(words[..n]);
        ChildrenSmaller(words[n..]);
      }
    }
  }

  function AltOf(alts: seq<Gram<char>>): Gram<char>
    requires alts != []
  {
    if |alts| == 1 then alts[0] else Alt(alts[0], AltOf(alts[1..]))
  }

  function Heads(cs: seq<Child>): (heads: set<char>)
    ensures forall c :: c in heads <==> exists k :: 0 <= k < |cs| && cs[k].head == c
  {
    set k | 0 <= k < |cs| :: cs[k].head
  }

  /** `build_expr`; `None` for the empty expression. `words` are the words of a range, past the depth reached. */
  function BuildExpr(words: seq<string>): Option<Gram<char>>
    decreases Total(words), 0, 0
  {
    ChildrenSmaller(words);
    var children := Children(words);
    if children == [] then None
    else Some(AltOf([NotIn(Heads(children))] + Branches(children)))
  }

  function Branches(children: seq<Child>): seq<Gram<char>>
    decreases ChildTotal(children), 1, |children|
  {
    if children == [] then []
    else
      (match BuildExpr(children[0].tails)
       case None => []
       case Some(e) => [Cat(Word([children[0].head]), e)]) + Branches(children[1..])
  }

  function Round(forbids: seq<string>): Gram<char> {
    match BuildExpr(Sort(forbids))
    case Some(e) => e
    case None => NotIn(set w | w in forbids && w != "" :: w[0])
  }

  function MakeExcluding(forbids: seq<string>): Gram<char> {
    if forbids == [] then Repeat(NotIn({}), 0, None) else Repeat(Round(forbids), 0, None)
  }

  // ----- What one round accepts

  predicate BeginsSome(words: seq<string>, q: string) {
    exists i :: 0 <= i < |words| && q <= words[i]
  }

  predicate StrictlyBeginsSome(words: seq<string>, q: string) {
    exists i :: 0 <= i < |words| && q < words[i]
  }

  /** Leaving the trie: all but the last character can go on to a word, and the last one goes on to none. */
  predicate Leaves(words: seq<string>, t: string) {
    t != "" && StrictlyBeginsSome(words, t[..|t| - 1]) && !BeginsSome(words, t)
  }

  lemma PrefixByHead(q: string, w: string)
    requires q != ""
    ensures q <= w <==> w != "" && w[0] == q[0] && q[1..] <= w[1..]
    ensures q < w <==> w != "" && w[0] == q[0] && q[1..] < w[1..]
  {
    if w != "" && w[0] == q[0] {
      assert q == [q[0]] + q[1..] && w == [w[0]] + w[1..];
    }
  }

  /** A child for the first character of `q` in which the rest begins some word. */
  ghost predicate SomeChild(cs: seq<Child>, q: string, strictly: bool)
    requires q != ""
  {
    exists k :: 0 <= k < |cs| && cs[k].head == q[0]
                && if strictly then StrictlyBeginsSome(cs[k].tails, q[1..]) else BeginsSome(cs[k].tails, q[1..])
  }

  /** The children hold all words but the finished ones. */
  lemma {:induction false} ChildrenHold(words: seq<string>, q: string)
    requires q != ""
    ensures BeginsSome(words, q) <==> SomeChild(Children(words), q, false)
    ensures StrictlyBeginsSome(words, q) <==> SomeChild(Children(words), q, true)
    decreases |words|
  {
    if words != [] {
      if words[0] == "" {
        ChildrenHold(words[1..], q);
        BeginsSplit(words, 1, q);
        assert forall i :: 0 <= i < |words[..1]| ==> words[..1][i] == "";
      } else {
        var c, n := words[0][0], RunLength(words, words[0][0]);
        var first, rest := Child(c, Tails(words[..n])), Children(words[n..]);
        ChildrenHold(words[n..], q);
        BeginsSplit(words, n, q);
        RunHolds(words[..n], c, q);
        var cs := [first] + rest;
        assert Children(words) == cs;
        SomeChildCons(first, rest, q);
      }
    }
  }

  lemma SomeChildCons(first: Child, rest: seq<Child>, q: string)
    requires q != ""
    ensures SomeChild([first] + rest, q, false)
            <==> (first.head == q[0] && BeginsSome(first.tails, q[1..])) || SomeChild(rest, q, false)
    ensures SomeChild([first] + rest, q, true)
            <==> (first.head == q[0] && StrictlyBeginsSome(first.tails, q[1..])) || SomeChild(rest, q, true)
  {
    var cs := [first] + rest;
    assert forall k :: 0 <= k < |rest| ==> cs[k + 1] == rest[k];
    assert forall k :: 0 < k < |cs| ==> cs[k] == rest[k - 1];
    assert cs[0] == first;
  }

  lemma BeginsSplit(words: seq<string>, n: nat, q: string)
    requires n <= |words|
    ensures BeginsSome(words, q) <==> BeginsSome(words[..n], q) || BeginsSome(words[n..], q)
    ensures StrictlyBeginsSome(words, q) <==> StrictlyBeginsSome(words[..n], q) || StrictlyBeginsSome(words[n..], q)
  {
    assert forall i :: n <= i < |words| ==> words[i] == words[n..][i - n];
    assert forall i :: 0 <= i < |words| - n ==> words[n..][i] == words[n + i];
  }

  lemma RunHolds(run: seq<string>, c: char, q: string)
    requires q != "" && forall i :: 0 <= i < |run| ==> run[i] != "" && run[i][0] == c
    ensures BeginsSome(run, q) <==> c == q[0] && BeginsSome(Tails(run), q[1..])
    ensures StrictlyBeginsSome(run, q) <==> c == q[0] && StrictlyBeginsSome(Tails(run), q[1..])
  {
    forall i | 0 <= i < |run|
      ensures q <= run[i] <==> c == q[0] && q[1..] <= Tails(run)[i]
      ensures q < run[i] <==> c == q[0] && q[1..] < Tails(run)[i]
    {
      PrefixByHead(q, run[i]);
    }
  }

  lemma {:induction false} HeadOccurs(words: seq<string>, k: nat) returns (i: nat)
    requires k < |Children(words)|
    ensures i < |words| && words[i] != "" && words[i][0] == Children(words)[k].head
    decreases |words|
  {
    if words[0] == "" {
      var j := HeadOccurs(words[1..], k);
      i := j + 1;
    } else if k == 0 {
      i := 0;
    } else {
      var n := RunLength(words, words[0][0]);
      var j := HeadOccurs(words[n..], k - 1);
      i := n + j;
    }
  }

  lemma SortedPart(words: seq<string>, n: nat)
    requires IsSorted(words) && n <= |words|
    ensures IsSorted(words[n..])
  {
    assert forall i :: 0 <= i < |words| - n ==> words[n..][i] == words[n + i];
  }

  lemma {:induction false} TailsSorted(words: seq<string>, n: nat)
    requires IsSorted(words) && words != [] && words[0] != "" && n == RunLength(words, words[0][0])
    ensures IsSorted(Tails(words[..n]))
  {
    var tails := Tails(words[..n]);
    forall i, j | 0 <= i < j < |tails|
      ensures StrLe(tails[i], tails[j])
    {
      assert StrLe(words[i], words[j]);
    }
  }

  /** After the run of one character come only greater ones. */
  lemma {:induction false} GreaterAfterRun(words: seq<string>, i: nat)
    requires IsSorted(words) && words != [] && words[0] != "" && RunLength(words, words[0][0]) <= i < |words|
    ensures words[i] != "" && words[i][0] > words[0][0]
  {
    var n := RunLength(words, words[0][0]);
    assert n > 0 && StrLe(words[0], words[n]);
    if n < i {
      assert StrLe(words[n], words[i]);
    }
  }

  /** In a sorted list the children are sorted too, and no two have the same character. */
  lemma {:induction false} ChildrenDistinct(words: seq<string>)
    requires IsSorted(words)
    ensures forall j, k :: 0 <= j < k < |Children(words)| ==> Children(words)[j].head < Children(words)[k].head
    ensures forall k :: 0 <= k < |Children(words)| ==> IsSorted(Children(words)[k].tails)
    decreases |words|
  {
    hide IsSorted, StrLe, RunLength;
    if words != [] {
      if words[0] == "" {
        SortedPart(words, 1);
        ChildrenDistinct(words[1..]);
      } else {
        var n := RunLength(words, words[0][0]);
        SortedPart(words, n);
        TailsSorted(words, n);
        ChildrenDistinct(words[n..]);
        var rest := Children(words[n..]);
        assert Children(words) == [Child(words[0][0], Tails(words[..n]))] + rest;
        forall k | 0 <= k < |rest|
          ensures rest[k].head > words[0][0]
        {
          var i := HeadOccurs(words[n..], k);
          GreaterAfterRun(words, n + i);
        }
      }
    }
  }

  lemma {:induction false} AltOfAccepts(alts: seq<Gram<char>>, t: string)
    requires alts != []
    ensures Accepts(AltOf(alts), t) <==> exists k :: 0 <= k < |alts| && Accepts(alts[k], t)
  {
    if |alts| > 1 {
      AltOfAccepts(alts[1..], t);
      assert forall k :: 0 < k < |alts| ==> alts[k] == alts[1..][k - 1];
      assert forall k :: 0 <= k < |alts| - 1 ==> alts[1..][k] == alts[k + 1];
    }
  }

  /** One round accepts exactly the strings that leave the trie with their last character. */
  lemma {:induction false} ExprExact(words: seq<string>, t: string)
    requires IsSorted(words)
    ensures BuildExpr(words).None? <==> !StrictlyBeginsSome(words, "")
    ensures BuildExpr(words).Some? ==> (Accepts(BuildExpr(words).value, t) <==> Leaves(words, t))
    decreases Total(words), 2, 0
  {
    ChildrenSmaller(words);
    ChildrenDistinct(words);
    ChildrenNone(words);
    var cs := Children(words);
    if cs != [] {
      var branches := Branches(cs);
      AltOfAccepts([NotIn(Heads(cs))] + branches, t);
      var alts := [NotIn(Heads(cs))] + branches;
      assert Accepts(AltOf(alts), t) <==> Accepts(NotIn(Heads(cs)), t) || AnyAccepts(branches, t) by {
        assert forall k :: 0 <= k < |branches| ==> alts[k + 1] == branches[k];
        assert forall k :: 0 < k < |alts| ==> alts[k] == branches[k - 1];
        assert alts[0] == NotIn(Heads(cs));
      }
      BranchesExact(cs, t);
      if t != "" {
        ChildrenHold(words, t);
        LeavesByChild(words, t);
      }
    }
  }

  ghost predicate AnyAccepts(alts: seq<Gram<char>>, t: string) {
    exists k :: 0 <= k < |alts| && Accepts(alts[k], t)
  }

  lemma {:induction false} ChildrenNone(words: seq<string>)
    ensures Children(words) == [] <==> !StrictlyBeginsSome(words, "")
    decreases |words|
  {
    if words != [] {
      if words[0] == "" {
        ChildrenNone(words[1..]);
        BeginsSplit(words, 1, "");
      } else {
        assert "" < words[0];
      }
    }
  }

  /** A child for the first character, left by the rest. */
  ghost predicate ChildLeaves(cs: seq<Child>, t: string) {
    t != "" && exists k :: 0 <= k < |cs| && cs[k].head == t[0] && Leaves(cs[k].tails, t[1..])
  }

  lemma {:induction false} BranchesExact(cs: seq<Child>, t: string)
    requires forall k :: 0 <= k < |cs| ==> IsSorted(cs[k].tails)
    ensures AnyAccepts(Branches(cs), t) <==> ChildLeaves(cs, t)
    decreases ChildTotal(cs), 3, |cs|
  {
    if cs != [] {
      var first, rest := cs[0], cs[1..];
      var here := match BuildExpr(first.tails) { case None => [] case Some(e) => [Cat(Word([first.head]), e)] };
      assert Branches(cs) == here + Branches(rest);
      BranchesExact(rest, t);
      AnyAcceptsConcat(here, Branches(rest), t);
      ChildLeavesCons(first, rest, t);
      assert cs == [first] + rest;
      if t != "" {
        ExprExact(first.tails, t[1..]);
        NoneLeaves(first.tails, t[1..]);
      } else {
        ExprExact(first.tails, "");
      }
      if BuildExpr(first.tails).Some? {
        var e := BuildExpr(first.tails).value;
        CatWord([first.head], e, t);
        if t != "" {
          assert t[..1] == [t[0]];
        }
        OneAccepts(Cat(Word([first.head]), e), t);
      } else {
        assert !AnyAccepts(here, t);
      }
    }
  }

  lemma {:induction false} OneAccepts(g: Gram<char>, t: string)
    ensures AnyAccepts([g], t) <==> Accepts(g, t)
  {
    assert [g][0] == g;
  }

  lemma NoneLeaves(words: seq<string>, t: string)
    ensures !StrictlyBeginsSome(words, "") ==> !Leaves(words, t)
  {
    if Leaves(words, t) {
      var i :| 0 <= i < |words| && t[..|t| - 1] < words[i];
      assert "" < words[i];
    }
  }

  lemma AnyAcceptsConcat(a: seq<Gram<char>>, b: seq<Gram<char>>, t: string)
    ensures AnyAccepts(a + b, t) <==> AnyAccepts(a, t) || AnyAccepts(b, t)
  {
    assert forall k :: 0 <= k < |a| ==> (a + b)[k] == a[k];
    assert forall k :: 0 <= k < |b| ==> (a + b)[|a| + k] == b[k];
    assert forall k :: |a| <= k < |a + b| ==> (a + b)[k] == b[k - |a|];
  }

  lemma ChildLeavesCons(first: Child, rest: seq<Child>, t: string)
    ensures ChildLeaves([first] + rest, t)
            <==> (t != "" && first.head == t[0] && Leaves(first.tails, t[1..])) || ChildLeaves(rest, t)
  {
    var cs := [first] + rest;
    assert forall k :: 0 <= k < |rest| ==> cs[k + 1] == rest[k];
    assert forall k :: 0 < k < |cs| ==> cs[k] == rest[k - 1];
    assert cs[0] == first;
  }

  /** Leaving at once, or through the one child for the first character. */
  lemma {:induction false} LeavesByChild(words: seq<string>, t: string)
    requires IsSorted(words) && t != "" && Children(words) != []
    ensures Leaves(words, t) <==> (|t| == 1 && t[0] !in Heads(Children(words))) || ChildLeaves(Children(words), t)
  {
    var cs := Children(words);
    ChildrenDistinct(words);
    ChildrenHold(words, t);
    ChildrenNone(words);
    if |t| == 1 {
      assert t[..0] == "" && t[1..] == "";
      forall k | 0 <= k < |cs| && cs[k].head == t[0]
        ensures BeginsSome(cs[k].tails, "")
      {
        HeadsHaveTails(words, k);
        assert "" <= cs[k].tails[0];
      }
    } else {
      var q := t[..|t| - 1];
      ChildrenHold(words, q);
      assert q[1..] == t[1..][..|t[1..]| - 1] && q[0] == t[0];
    }
  }

  lemma {:induction false} HeadsHaveTails(words: seq<string>, k: nat)
    requires k < |Children(words)|
    ensures Children(words)[k].tails != []
    decreases |words|
  {
    if words[0] == "" {
      HeadsHaveTails(words[1..], k);
    } else if k > 0 {
      HeadsHaveTails(words[RunLength(words, words[0][0])..], k - 1);
    }
  }
}
