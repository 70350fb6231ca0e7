/** The few Python string operations the views rely on: `str.strip`, `str.startswith`,
    `str.split` with a separator, and the case-insensitive substring test of `icontains`. */
module Text {
  import opened Basics

  /** Python's `str.isspace()` for one character. */
  predicate IsSpace(c: char)
  {
    || c == ' ' || c == '\t' || c == '\n' || c == '\r' || c == '\U{B}' || c == '\U{C}'
    || ('\U{1C}' <= c <= '\U{1F}') || c == '\U{85}' || c == '\U{A0}' || c == '\U{1680}'
    || ('\U{2000}' <= c <= '\U{200A}') || c == '\U{2028}' || c == '\U{2029}'
    || c == '\U{202F}' || c == '\U{205F}' || c == '\U{3000}'
  }

  predicate AllSpace(s: string)
  {
    forall k :: 0 <= k < |s| ==> IsSpace(s[k])
  }

  /** `s.lstrip()`. */
  function StripStart(s: string): string
  {
    if s != [] && IsSpace(s[0]) then StripStart(s[1..]) else s
  }

  /** `s.rstrip()`. */
  function StripEnd(s: string): string
  {
    if s != [] && IsSpace(s[|s| - 1]) then StripEnd(s[..|s| - 1]) else s
  }

  /** `s.strip()`. */
  function Strip(s: string): string
  {
    StripEnd(StripStart(s))
  }

  /** `s.lstrip()` is the suffix of `s` left once its leading whitespace is dropped. */
  lemma {:induction false} StripStartMeaning(s: string)
    ensures var r := StripStart(s);
      && |r| <= |s| && r == s[|s| - |r|..] && AllSpace(s[..|s| - |r|]) && (r != [] ==> !IsSpace(r[0]))
    decreases |s|
  {
    if s != [] && IsSpace(s[0]) {
      StripStartMeaning(s[1..]);
      var r := StripStart(s[1..]);
      assert s[..|s| - |r|] == [s[0]] + s[1..][..|s| - 1 - |r|];
      assert s[1..][|s| - 1 - |r|..] == s[|s| - |r|..];
    }
  }

  /** `s.rstrip()` is the prefix of `s` left once its trailing whitespace is dropped. */
  lemma {:induction false} StripEndMeaning(s: string)
    ensures var r := StripEnd(s);
      && |r| <= |s| && r == s[..|r|] && AllSpace(s[|r|..]) && (r != [] ==> !IsSpace(r[|r| - 1]))
    decreases |s|
  {
    if s != [] && IsSpace(s[|s| - 1]) {
      var p := s[..|s| - 1];
      StripEndMeaning(p);
      var r := StripEnd(p);
      assert s[|r|..] == p[|r|..] + [s[|s| - 1]];
      assert p[..|r|] == s[..|r|];
    }
  }

  /** `s.strip()` is the contiguous middle part of `s` that neither starts nor ends with
      whitespace, and everything around it is whitespace. */
  lemma StripMeaning(s: string)
    ensures var r := Strip(s);
      && (exists i :: 0 <= i <= |s| - |r| && r == s[i..i + |r|] && AllSpace(s[..i]) && AllSpace(s[i + |r|..]))
      && (r != [] ==> !IsSpace(r[0]) && !IsSpace(r[|r| - 1]))
  {
    var t := StripStart(s);
    var r := StripEnd(t);
    StripStartMeaning(s);
    StripEndMeaning(t);
    var i := |s| - |t|;
    MiddleOf(s, t, r, i);
    StripEnds(s);
  }

  /** `r`, a prefix of the suffix `t` of `s` that starts at `i`, is the middle of `s`. */
  lemma MiddleOf(s: string, t: string, r: string, i: int)
    requires 0 <= i <= |s| && t == s[i..] && |r| <= |t| && r == t[..|r|]
    requires AllSpace(s[..i]) && AllSpace(t[|r|..])
    ensures 0 <= i <= |s| - |r| && r == s[i..i + |r|] && AllSpace(s[..i]) && AllSpace(s[i + |r|..])
  {
    assert s[i + |r|..] == t[|r|..];
  }

  /** A stripped string that is not empty neither starts nor ends with whitespace. */
  lemma StripEnds(s: string)
    ensures var r := Strip(s); r != [] ==> !IsSpace(r[0]) && !IsSpace(r[|r| - 1])
  {
    var t := StripStart(s);
    var r := StripEnd(t);
    StripStartMeaning(s);
    StripEndMeaning(t);
    if r != [] {
      assert r[0] == t[0];
    }
  }

  /** A string that neither starts nor ends with whitespace strips to itself. */
  lemma StripClean(s: string)
    requires s != [] ==> !IsSpace(s[0]) && !IsSpace(s[|s| - 1])
    ensures Strip(s) == s
  {
    if s != [] {
      assert StripStart(s) == s;
      assert StripEnd(s) == s;
    }
  }

  /** A string strips to nothing exactly when it is blank (empty or all whitespace). */
  lemma StripEmptyIffBlank(s: string)
    ensures Strip(s) == [] <==> AllSpace(s)
  {
    var t := StripStart(s);
    var n := |s| - |t|;
    StripStartMeaning(s);
    StripEndMeaning(t);
    if Strip(s) == [] {
      assert t[0..] == t;
      assert t == [];
      forall k | 0 <= k < |s| ensures IsSpace(s[k]) {
        assert s[..n][k] == s[k];
      }
    } else if t != [] {
      assert t[0] == s[n];
    }
  }

  /** Stripping twice is stripping once. */
  lemma StripIdempotent(s: string)
    ensures Strip(Strip(s)) == Strip(s)
  {
    var r := Strip(s);
    StripEnds(s);
    if r != [] {
      assert StripStart(r) == r;
      assert StripEnd(r) == r;
    }
  }

  predicate StartsWith(s: string, prefix: string)
  {
    |prefix| <= |s| && s[..|prefix|] == prefix
  }

  /** `t` occurs in `s` at position `k`. */
  predicate OccursAt(s: string, t: string, k: int)
  {
    0 <= k && k + |t| <= |s| && s[k..k + |t|] == t
  }

  /** Python's `t in s`. */
  predicate Contains(s: string, t: string)
  {
    exists k :: 0 <= k <= |s| - |t| && OccursAt(s, t, k)
  }

  /** `s.find(t, from)`: the first position at or after `from` where `t` occurs. */
  function FindFrom(s: string, t: string, from: nat): (r: Option<nat>)
    ensures r.Some? ==> from <= r.value && OccursAt(s, t, r.value)
    ensures forall k :: from <= k && (r.None? || k < r.value) ==> !OccursAt(s, t, k)
    decreases |s| - from
  {
    if from + |t| > |s| then None
    else if s[from..from + |t|] == t then Some(from)
    else FindFrom(s, t, from + 1)
  }

  /** `s.split(sep)`: the pieces of `s` between non-overlapping occurrences of `sep`, left to right. */
  function Split(s: string, sep: string): (parts: seq<string>)
    requires sep != []
    ensures |parts| >= 1
    decreases |s|
  {
    match FindFrom(s, sep, 0)
    case None => [s]
    case Some(i) => [s[..i]] + Split(s[i + |sep|..], sep)
  }

  /** `sep.join(parts)`. */
  function Join(parts: seq<string>, sep: string): string
  {
    if |parts| <= 1 then (if parts == [] then "" else parts[0])
    else parts[0] + sep + Join(parts[1..], sep)
  }

  /** Splitting and joining back with the same separator gives the original string. */
  lemma {:induction false} SplitJoin(s: string, sep: string)
    requires sep != []
    ensures Join(Split(s, sep), sep) == s
    decreases |s|
  {
    var f := FindFrom(s, sep, 0);
    if f.Some? {
      var i := f.value;
      var rest := s[i + |sep|..];
      SplitJoin(rest, sep);
      JoinFront(s[..i], Split(rest, sep), sep);
      SplitAt(s, sep, i);
    }
  }

  lemma JoinFront(part: string, tail: seq<string>, sep: string)
    requires |tail| >= 1
    ensures Join([part] + tail, sep) == part + sep + Join(tail, sep)
  {
    assert ([part] + tail)[1..] == tail;
  }

  lemma SplitAt(s: string, sep: string, i: int)
    requires OccursAt(s, sep, i)
    ensures s == s[..i] + sep + s[i + |sep|..]
  {
  }

  /** ASCII lower-casing of one character. */
  function LowerChar(c: char): char
  {
    if 'A' <= c <= 'Z' then (c as int + 32) as char else c
  }

  function Lower(s: string): (r: string)
    ensures |r| == |s| && forall k :: 0 <= k < |s| ==> r[k] == LowerChar(s[k])
  {
    seq(|s|, k requires 0 <= k < |s| => LowerChar(s[k]))
  }

  /** Lower-casing twice is lower-casing once. */
  lemma LowerIdempotent(s: string)
    ensures Lower(Lower(s)) == Lower(s)
  {
  }

  /** Django's `icontains` lookup: `t` occurs in `s` when letters are compared without case. */
  predicate ContainsIgnoreCase(s: string, t: string)
  {
    Contains(Lower(s), Lower(t))
  }
}
