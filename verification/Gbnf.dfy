/**
 Grammars as trees, and the strings they accept. The compilers below write GBNF text; the tree is
 what that text means, over any alphabet of terminal symbols.
 */
module Gbnf {
  import opened CommonStrings

  datatype Gram<T(==)> =
    | Word(word: seq<T>)
    | In(symbols: set<T>)
    | NotIn(excluded: set<T>)
    | Cat(first: Gram<T>, second: Gram<T>)
    | Alt(left: Gram<T>, right: Gram<T>)
    | Repeat(item: Gram<T>, min: nat, max: Option<nat>)

  ghost predicate Accepts<T>(g: Gram<T>, s: seq<T>)
    decreases g, 0
  {
    match g
    case Word(w) => s == w
    case In(symbols) => |s| == 1 && s[0] in symbols
    case NotIn(excluded) => |s| == 1 && s[0] !in excluded
    case Cat(a, b) => exists k :: 0 <= k <= |s| && Accepts(a, s[..k]) && Accepts(b, s[k..])
    case Alt(a, b) => Accepts(a, s) || Accepts(b, s)
    case Repeat(item, min, max) => AcceptsBetween(item, min, max, s)
  }

  /** A number of pieces between the two limits. */
  ghost predicate AcceptsBetween<T>(g: Gram<T>, min: nat, max: Option<nat>, s: seq<T>)
    decreases g, 2
  {
    exists n: nat :: min <= n && (max.None? || n <= max.value) && AcceptsTimes(g, n, s)
  }

  /** `s` is `n` pieces, each accepted by `g`. */
  ghost predicate AcceptsTimes<T>(g: Gram<T>, n: nat, s: seq<T>)
    decreases g, 1, n
  {
    if n == 0 then s == []
    else exists k :: 0 <= k <= |s| && Accepts(g, s[..k]) && AcceptsTimes(g, n - 1, s[k..])
  }

  lemma {:induction false} CatIntro<T>(a: Gram<T>, b: Gram<T>, s: seq<T>, t: seq<T>)
    requires Accepts(a, s) && Accepts(b, t)
    ensures Accepts(Cat(a, b), s + t)
  {
    assert (s + t)[..|s|] == s && (s + t)[|s|..] == t;
  }

  lemma CatApart<T>(a: Gram<T>, b: Gram<T>, s: seq<T>) returns (k: nat)
    requires Accepts(Cat(a, b), s)
    ensures k <= |s| && Accepts(a, s[..k]) && Accepts(b, s[k..])
  {
    k :| 0 <= k <= |s| && Accepts(a, s[..k]) && Accepts(b, s[k..]);
  }

  lemma {:induction false} CatWord<T>(w: seq<T>, b: Gram<T>, s: seq<T>)
    ensures Accepts(Cat(Word(w), b), s) <==> |w| <= |s| && s[..|w|] == w && Accepts(b, s[|w|..])
  {
    if Accepts(Cat(Word(w), b), s) {
      var k :| 0 <= k <= |s| && Accepts(Word(w), s[..k]) && Accepts(b, s[k..]);
    } else if |w| <= |s| && s[..|w|] == w {
      assert Accepts(Word(w), s[..|w|]);
    }
  }

  lemma {:induction false} CatThenWord<T>(a: Gram<T>, w: seq<T>, s: seq<T>)
    ensures Accepts(Cat(a, Word(w)), s) <==> |w| <= |s| && s[|s| - |w|..] == w && Accepts(a, s[..|s| - |w|])
  {
    hide Accepts;
    if Accepts(Cat(a, Word(w)), s) {
      var k := CatApart(a, Word(w), s);
      WordExact(w, s[k..]);
      assert k == |s| - |w|;
    }
    if |w| <= |s| && s[|s| - |w|..] == w && Accepts(a, s[..|s| - |w|]) {
      WordExact(w, w);
      CatIntro(a, Word(w), s[..|s| - |w|], w);
      assert s == s[..|s| - |w|] + w;
    }
  }

  lemma {:induction false} WordExact<T>(w: seq<T>, s: seq<T>)
    ensures Accepts(Word(w), s) <==> s == w
  {
  }

  lemma {:induction false} CatIn<T>(symbols: set<T>, b: Gram<T>, s: seq<T>)
    ensures Accepts(Cat(In(symbols), b), s) <==> s != [] && s[0] in symbols && Accepts(b, s[1..])
  {
    if Accepts(Cat(In(symbols), b), s) {
      var k :| 0 <= k <= |s| && Accepts(In(symbols), s[..k]) && Accepts(b, s[k..]);
    } else if s != [] && s[0] in symbols {
      assert Accepts(In(symbols), s[..1]);
    }
  }

  lemma {:induction false} TimesIn<T>(symbols: set<T>, n: nat, s: seq<T>)
    ensures AcceptsTimes(In(symbols), n, s) <==> |s| == n && forall i :: 0 <= i < n ==> s[i] in symbols
    decreases n
  {
    if n > 0 {
      if AcceptsTimes(In(symbols), n, s) {
        var k :| 0 <= k <= |s| && Accepts(In(symbols), s[..k]) && AcceptsTimes(In(symbols), n - 1, s[k..]);
        TimesIn(symbols, n - 1, s[k..]);
      } else if |s| == n && forall i :: 0 <= i < n ==> s[i] in symbols {
        TimesIn(symbols, n - 1, s[1..]);
        assert Accepts(In(symbols), s[..1]);
      }
    }
  }

  /** A class repeated between `min` and `max` times. */
  lemma {:induction false} RepeatIn<T>(symbols: set<T>, min: nat, max: nat, s: seq<T>)
    ensures Accepts(Repeat(In(symbols), min, Some(max)), s)
            <==> min <= |s| <= max && forall i :: 0 <= i < |s| ==> s[i] in symbols
  {
    TimesIn(symbols, |s|, s);
    RepeatAccepts(In(symbols), min, Some(max), s);
    if Accepts(Repeat(In(symbols), min, Some(max)), s) {
      var n := TimesOf(In(symbols), min, Some(max), s);
      TimesIn(symbols, n, s);
    }
  }

  lemma {:induction false} RepeatAccepts<T>(g: Gram<T>, min: nat, max: Option<nat>, s: seq<T>)
    ensures Accepts(Repeat(g, min, max), s) <==> AcceptsBetween(g, min, max, s)
  {
  }

  lemma TimesOf<T>(g: Gram<T>, min: nat, max: Option<nat>, s: seq<T>) returns (n: nat)
    requires AcceptsBetween(g, min, max, s)
    ensures min <= n && (max.None? || n <= max.value) && AcceptsTimes(g, n, s)
  {
    n :| min <= n && (max.None? || n <= max.value) && AcceptsTimes(g, n, s);
  }

  lemma {:induction false} BetweenOf<T>(g: Gram<T>, min: nat, max: Option<nat>, s: seq<T>, n: nat)
    requires min <= n && (max.None? || n <= max.value) && AcceptsTimes(g, n, s)
    ensures AcceptsBetween(g, min, max, s)
  {
  }

  /** Unbounded repetition: taken apart, and put together. */
  lemma StarTimes<T>(g: Gram<T>, s: seq<T>) returns (n: nat)
    requires Accepts(Repeat(g, 0, None), s)
    ensures AcceptsTimes(g, n, s)
  {
    RepeatAccepts(g, 0, None, s);
    n := TimesOf(g, 0, None, s);
  }

  lemma {:induction false} StarIntro<T>(g: Gram<T>, n: nat, s: seq<T>)
    requires AcceptsTimes(g, n, s)
    ensures Accepts(Repeat(g, 0, None), s)
  {
    BetweenOf(g, 0, None, s, n);
    RepeatAccepts(g, 0, None, s);
  }

  /** What may be left out. */
  lemma {:induction false} RepeatOnce<T>(g: Gram<T>, t: seq<T>)
    ensures Accepts(Repeat(g, 0, Some(1)), t) <==> t == [] || Accepts(g, t)
  {
    RepeatAccepts(g, 0, Some(1), t);
    if Accepts(Repeat(g, 0, Some(1)), t) {
      var n := TimesOf(g, 0, Some(1), t);
      if n == 1 {
        var k :| 0 <= k <= |t| && Accepts(g, t[..k]) && AcceptsTimes(g, 0, t[k..]);
        assert t[..k] == t;
      }
    }
    if t == [] {
      BetweenOf(g, 0, Some(1), t, 0);
    }
    if Accepts(g, t) {
      assert t[..|t|] == t && AcceptsTimes(g, 0, t[|t|..]);
      assert AcceptsTimes(g, 1, t);
      BetweenOf(g, 0, Some(1), t, 1);
    }
  }
}
