/**
 String helpers of common.cpp that the chat parsers rest on: white space, searching, and the search
 for a stop word that may only have begun.
 */
module CommonStrings {

  datatype Option<+T> = None | Some(value: T)

  /** `std::isspace` in the C locale. */
  predicate IsSpace(c: char) {
    c == ' ' || '\t' <= c <= '\r'
  }

  /** The six characters that are white space in the C locale. */
  lemma SixSpaces(c: char)
    ensures IsSpace(c) <==> c in [' ', '\t', '\n', '\U{000B}', '\U{000C}', '\r']
  {
    if c in [' ', '\t', '\n', '\U{000B}', '\U{000C}', '\r'] {
      var i :| 0 <= i < 6 && [' ', '\t', '\n', '\U{000B}', '\U{000C}', '\r'][i] == c;
    }
    if IsSpace(c) {
      assert c as int == 32 || 9 <= c as int <= 13;
      var six := [' ', '\t', '\n', '\U{000B}', '\U{000C}', '\r'];
      assert six[if c == ' ' then 0 else c as int - 8] == c;
    }
  }

  ghost predicate AllSpaces(s: string) {
    forall i :: 0 <= i < |s| ==> IsSpace(s[i])
  }

  /** The first position from `i` on that is not white space. */
  function SkipSpaces(s: string, i: nat): (r: nat)
    requires i <= |s|
    ensures i <= r <= |s|
    ensures forall k :: i <= k < r ==> IsSpace(s[k])
    ensures r < |s| ==> !IsSpace(s[r])
    decreases |s| - i
  {
    if i < |s| && IsSpace(s[i]) then SkipSpaces(s, i + 1) else i
  }

  /** The end of `s[start..end]` once trailing white space is dropped. */
  function TrimEnd(s: string, start: nat, end: nat): (r: nat)
    requires start <= end <= |s|
    ensures start <= r <= end
    ensures forall k :: r <= k < end ==> IsSpace(s[k])
    ensures r > start ==> !IsSpace(s[r - 1])
  {
    if end > start && IsSpace(s[end - 1]) then TrimEnd(s, start, end - 1) else end
  }

  function Strip(s: string): string {
    var start := SkipSpaces(s, 0);
    s[start..TrimEnd(s, start, |s|)]
  }

  method StringStrip(s: string) returns (r: string)
    ensures r == Strip(s)
  {
    var start, end := 0, |s|;
    while start < end && IsSpace(s[start])
      invariant 0 <= start <= end == |s|
      invariant SkipSpaces(s, start) == SkipSpaces(s, 0)
    {
      start := start + 1;
    }
    assert start == SkipSpaces(s, 0);
    while end > start && IsSpace(s[end - 1])
      invariant start <= end <= |s|
      invariant TrimEnd(s, start, end) == TrimEnd(s, start, |s|)
    {
      end := end - 1;
    }
    return s[start..end];
  }

  /** What is stripped is white space, and what is left neither starts nor ends with it. */
  lemma StripIsMiddle(s: string) returns (before: string, after: string)
    ensures s == before + Strip(s) + after && AllSpaces(before) && AllSpaces(after)
    ensures Strip(s) != [] ==> !IsSpace(Strip(s)[0]) && !IsSpace(Strip(s)[|Strip(s)| - 1])
    ensures Strip(s) == [] <==> AllSpaces(s)
  {
    var start := SkipSpaces(s, 0);
    var end := TrimEnd(s, start, |s|);
    before, after := s[..start], s[end..];
    if Strip(s) != [] {
      assert !IsSpace(s[start]);
    } else if start < |s| {
      assert false;
    }
  }

  /** A longer text strips to something that starts with what the shorter one strips to. */
  lemma StripMonotone(a: string, b: string)
    requires a <= b
    ensures Strip(a) <= Strip(b)
  {
    var start := SkipSpaces(a, 0);
    if start < |a| {
      SkipSame(a, b, 0);
      var end, end' := TrimEnd(a, start, |a|), TrimEnd(b, start, |b|);
      assert !IsSpace(a[start]) && end > start;
      assert !IsSpace(b[end - 1]) && end <= end';
    }
  }

  lemma {:induction false} SkipSame(a: string, b: string, i: nat)
    requires a <= b && i <= |a| && SkipSpaces(a, i) < |a|
    ensures SkipSpaces(b, i) == SkipSpaces(a, i)
    decreases |a| - i
  {
    if i < |a| && IsSpace(a[i]) {
      SkipSame(a, b, i + 1);
    }
  }

  /** `pat` stands at position `i` of `s`. */
  predicate OccursAt(s: string, pat: string, i: nat) {
    i + |pat| <= |s| && s[i..i + |pat|] == pat
  }

  /** `std::string::find`: the first occurrence at or after `from`. */
  function FindFrom(s: string, pat: string, from: nat): (r: Option<nat>)
    ensures r.Some? ==> from <= r.value && OccursAt(s, pat, r.value)
    ensures r.Some? ==> forall j :: from <= j < r.value ==> !OccursAt(s, pat, j)
    ensures r.None? ==> forall j :: from <= j ==> !OccursAt(s, pat, j)
    decreases |s| - from
  {
    if from + |pat| > |s| then None
    else if OccursAt(s, pat, from) then Some(from)
    else FindFrom(s, pat, from + 1)
  }

  /** An occurrence found in a text is the one found in any longer text. */
  lemma {:induction false} FindStable(a: string, b: string, pat: string, from: nat)
    requires a <= b && FindFrom(a, pat, from).Some?
    ensures FindFrom(b, pat, from) == FindFrom(a, pat, from)
  {
    var i, r := FindFrom(a, pat, from).value, FindFrom(b, pat, from);
    assert OccursAt(b, pat, i) by {
      assert b[i..i + |pat|] == a[i..i + |pat|];
    }
    assert r.Some? && r.value <= i;
    assert OccursAt(a, pat, r.value) by {
      assert b[r.value..r.value + |pat|] == a[r.value..r.value + |pat|];
    }
  }

  /** The end of `s` from position `i` begins `stop`. */
  predicate BeginsStop(s: string, stop: string, i: nat) {
    i < |s| && s[i..] <= stop
  }

  /** The longest end of `s` that begins `stop`, given by where it starts. */
  ghost predicate IsPartialStop(s: string, stop: string, r: Option<nat>) {
    match r
    case Some(i) => BeginsStop(s, stop, i) && forall j :: 0 <= j < i ==> !BeginsStop(s, stop, j)
    case None => forall j :: 0 <= j ==> !BeginsStop(s, stop, j)
  }

  function PartialStopFrom(s: string, stop: string, i: nat): (r: Option<nat>)
    ensures r.Some? ==> r.value >= i && BeginsStop(s, stop, r.value)
    ensures r.Some? ==> forall j :: i <= j < r.value ==> !BeginsStop(s, stop, j)
    ensures r.None? ==> forall j :: i <= j ==> !BeginsStop(s, stop, j)
    decreases |s| - i
  {
    if i >= |s| then None
    else if BeginsStop(s, stop, i) then Some(i)
    else PartialStopFrom(s, stop, i + 1)
  }

  function PartialStop(s: string, stop: string): (r: Option<nat>)
    ensures IsPartialStop(s, stop, r)
  {
    PartialStopFrom(s, stop, 0)
  }

  /** `string_find_partial_stop`: tries the beginnings of `stop`, longest first. */
  method FindPartialStop(s: string, stop: string) returns (r: Option<nat>)
    ensures r == PartialStop(s, stop)
  {
    if s != "" && stop != "" {
      var last := s[|s| - 1];
      var n: nat := |stop|;
      while n > 0
        invariant n <= |stop|
        invariant forall j :: 0 <= j < |s| - n ==> !BeginsStop(s, stop, j)
      {
        if stop[n - 1] == last {
          var partial := stop[..n];
          if |s| >= |partial| && s[|s| - |partial|..] == partial {
            assert BeginsStop(s, stop, |s| - n);
            return Some(|s| - n);
          }
        }
        n := n - 1;
      }
    }
    return None;
  }

  /** Once a stop word has been completed in `b`, or has begun there, it began no earlier than in the shorter `a`. */
  lemma PartialStopMonotone(a: string, b: string, stop: string)
    requires a <= b && stop != "" && (forall i :: 0 <= i ==> !OccursAt(a, stop, i))
    ensures var held := (match PartialStop(a, stop) case Some(i) => i case None => |a|);
            && (forall i :: OccursAt(b, stop, i) ==> held <= i)
            && (PartialStop(b, stop).Some? ==> held <= PartialStop(b, stop).value)
  {
    var held := match PartialStop(a, stop) case Some(i) => i case None => |a|;
    forall i: nat | i < |a| && (OccursAt(b, stop, i) || BeginsStop(b, stop, i))
      ensures held <= i
    {
      assert b[i..][..|a| - i] == a[i..];
      if OccursAt(b, stop, i) {
        assert i + |stop| <= |a| ==> a[i..i + |stop|] == b[i..i + |stop|];
        assert i + |stop| > |a| by {
          assert !OccursAt(a, stop, i);
        }
        assert stop[..|a| - i] == b[i..i + |stop|][..|a| - i] == a[i..];
      }
      assert BeginsStop(a, stop, i);
    }
  }
}
