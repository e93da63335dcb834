/** The handful of Python `str` operations the pipeline relies on, written as
    recursive functions over `seq<char>` together with the facts about them
    that the rest of the model uses. */
module Strings {
  import opened Results

  /** Python's `str.isspace()`: the characters `strip()` removes and that the
      regex class `\s` matches in a `str` pattern. */
  predicate IsSpace(c: char) {
    || ('\t' <= c <= '\r')
    || ('\U{1C}' <= c <= ' ')
    || c == '\U{85}' || c == '\U{A0}' || c == '\U{1680}'
    || ('\U{2000}' <= c <= '\U{200A}')
    || c == '\U{2028}' || c == '\U{2029}' || c == '\U{202F}' || c == '\U{205F}' || c == '\U{3000}'
  }

  predicate IsDigit(c: char) { '0' <= c <= '9' }
  predicate IsUpper(c: char) { 'A' <= c <= 'Z' }
  predicate IsLower(c: char) { 'a' <= c <= 'z' }

  predicate StartsWith(s: string, p: string) {
    |p| <= |s| && s[..|p|] == p
  }

  predicate EndsWith(s: string, p: string) {
    |p| <= |s| && s[|s| - |p|..] == p
  }

  /** Python's `p in s` for two strings: `p` occurs somewhere in `s`. */
  predicate Contains(s: string, p: string)
    decreases |s|
  {
    StartsWith(s, p) || (s != [] && Contains(s[1..], p))
  }

  lemma {:induction false} ContainsAt(s: string, p: string, i: nat)
    requires i <= |s| && StartsWith(s[i..], p)
    ensures Contains(s, p)
    decreases i
  {
    if i > 0 {
      assert s[1..][i - 1..] == s[i..];
      ContainsAt(s[1..], p, i - 1);
    }
  }

  lemma {:induction false} ContainsWitness(s: string, p: string) returns (i: nat)
    requires Contains(s, p)
    ensures i + |p| <= |s| && s[i..i + |p|] == p
    decreases |s|
  {
    if StartsWith(s, p) {
      i := 0;
    } else {
      var j := ContainsWitness(s[1..], p);
      assert s[1..][j..j + |p|] == s[j + 1..j + 1 + |p|];
      i := j + 1;
    }
  }

  lemma {:induction false} ShorterNotContains(s: string, p: string)
    requires |s| < |p|
    ensures !Contains(s, p)
    decreases |s|
  {
    if s != [] { ShorterNotContains(s[1..], p); }
  }

  /** The pieces of a concatenation are where one expects them. */
  lemma {:induction false} Concat(a: string, b: string)
    ensures StartsWith(a + b, a) && EndsWith(a + b, b)
    ensures (a + b)[..|a|] == a && (a + b)[|a|..] == b
  {
  }

  /** A prefix of a prefix is a prefix. */
  lemma {:induction false} StartsWithTrans(s: string, p: string, q: string)
    requires StartsWith(s, p) && StartsWith(p, q)
    ensures StartsWith(s, q)
  {
    assert s[..|q|] == s[..|p|][..|q|];
  }

  /** Concatenation regroups freely. */
  lemma {:induction false} Regroup<T>(a: seq<T>, b: seq<T>, c: seq<T>)
    ensures a + (b + c) == (a + b) + c
  {
  }

  /** A slice of the second part of a concatenation, shifted by the first part. */
  lemma {:induction false} SliceAfter(p: string, u: string, lo: nat, hi: nat)
    requires lo <= hi <= |u|
    ensures (p + u)[lo + |p|..hi + |p|] == u[lo..hi]
  {
    assert forall k :: 0 <= k < hi - lo ==> (p + u)[lo + |p|..hi + |p|][k] == u[lo..hi][k];
  }

  /** Slicing a suffix is slicing the whole string further on. */
  lemma {:induction false} SliceShift(s: string, n: nat, p: nat, m: nat)
    requires n <= p && p + m <= |s|
    ensures s[n..][p - n..] == s[p..]
    ensures s[n..][p - n..p - n + m] == s[p..p + m]
  {
  }

  /** An occurrence inside a slice is an occurrence in the whole string. */
  lemma {:induction false} ContainsSlice(s: string, lo: nat, hi: nat, p: string)
    requires lo <= hi <= |s| && Contains(s[lo..hi], p)
    ensures Contains(s, p)
  {
    var i := ContainsWitness(s[lo..hi], p);
    var w := s[lo + i..][..|p|];
    assert forall k :: 0 <= k < |p| ==> w[k] == s[lo..hi][i + k];
    ContainsAt(s, p, lo + i);
  }

  lemma {:induction false} NotContainsChar(s: string, p: string)
    requires p != [] && p[0] !in s
    ensures !Contains(s, p)
    decreases |s|
  {
    if s != [] {
      assert s[0] in s;
      NotContainsChar(s[1..], p);
    }
  }

  /** A prefix that cannot start the pattern adds no occurrence. */
  lemma {:induction false} NotContainsPrefix(x: string, y: string, p: string)
    requires p != [] && p[0] !in x && !Contains(y, p)
    ensures !Contains(x + y, p)
    decreases |x|
  {
    if x == [] {
      assert x + y == y;
    } else {
      assert x[0] in x;
      assert (x + y)[1..] == x[1..] + y;
      NotContainsPrefix(x[1..], y, p);
    }
  }

  // ---------------------------------------------------------------- strip

  /** The number of whitespace characters `s` starts with. */
  function LeadingSpaces(s: string): (n: nat)
    ensures n <= |s|
    ensures forall i :: 0 <= i < n ==> IsSpace(s[i])
    ensures n < |s| ==> !IsSpace(s[n])
    decreases |s|
  {
    if s != [] && IsSpace(s[0]) then 1 + LeadingSpaces(s[1..]) else 0
  }

  /** The number of whitespace characters `s` ends with. */
  function TrailingSpaces(s: string): (n: nat)
    ensures n <= |s|
    ensures forall i :: |s| - n <= i < |s| ==> IsSpace(s[i])
    ensures n < |s| ==> !IsSpace(s[|s| - n - 1])
    decreases |s|
  {
    if s != [] && IsSpace(s[|s| - 1]) then 1 + TrailingSpaces(s[..|s| - 1]) else 0
  }

  /** `s.lstrip()`. */
  function TrimLeft(s: string): string {
    s[LeadingSpaces(s)..]
  }

  /** `s.rstrip()`. */
  function TrimRight(s: string): string {
    s[..|s| - TrailingSpaces(s)]
  }

  /** Python's `s.strip()`. */
  function Strip(s: string): (r: string)
  {
    TrimRight(TrimLeft(s))
  }

  /** What `strip()` leaves is a slice of the input with only whitespace cut
      off on either side, and it neither starts nor ends with whitespace. */
  lemma {:induction false} StripSlice(s: string) returns (lo: nat)
    ensures lo + |Strip(s)| <= |s| && Strip(s) == s[lo..lo + |Strip(s)|]
    ensures forall k :: 0 <= k < lo ==> IsSpace(s[k])
    ensures forall k :: lo + |Strip(s)| <= k < |s| ==> IsSpace(s[k])
    ensures Strip(s) == [] || (!IsSpace(Strip(s)[0]) && !IsSpace(Strip(s)[|Strip(s)| - 1]))
  {
    lo := LeadingSpaces(s);
    var t := s[lo..];
    var n := TrailingSpaces(t);
    var r := t[..|t| - n];
    assert Strip(s) == r;
    assert r == s[lo..lo + |r|];
    forall k | lo + |r| <= k < |s|
      ensures IsSpace(s[k])
    {
      assert s[k] == t[k - lo];
    }
    if r != [] {
      assert r[0] == s[lo];
      assert r[|r| - 1] == t[|t| - n - 1];
    }
  }

  /** Stripping cannot create an occurrence. */
  lemma {:induction false} StripKeepsAbsent(s: string, p: string)
    requires !Contains(s, p)
    ensures !Contains(Strip(s), p)
  {
    var lo := StripSlice(s);
    if Contains(Strip(s), p) {
      ContainsSlice(s, lo, lo + |Strip(s)|, p);
    }
  }

  /** A line is blank (`not line.strip()`) exactly when every character is whitespace. */
  lemma {:induction false} StripEmptyIff(s: string)
    ensures Strip(s) == [] <==> forall i :: 0 <= i < |s| ==> IsSpace(s[i])
  {
    var lo := StripSlice(s);
    if Strip(s) != [] {
      assert !IsSpace(s[lo]) by { assert Strip(s)[0] == s[lo]; }
    }
  }

  /** Text that already has no surrounding whitespace is left alone by strip. */
  lemma {:induction false} StripTrimmed(t: string)
    requires t == [] || (!IsSpace(t[0]) && !IsSpace(t[|t| - 1]))
    ensures Strip(t) == t
  {
    assert LeadingSpaces(t) == 0;
    assert t[0..] == t;
    assert TrailingSpaces(t) == 0;
    assert t[..|t|] == t;
  }

  /** Leading whitespace adds to the count of the rest. */
  lemma {:induction false} LeadingSpacesAppend(a: string, t: string)
    requires forall i :: 0 <= i < |a| ==> IsSpace(a[i])
    ensures LeadingSpaces(a + t) == |a| + LeadingSpaces(t)
    decreases |a|
  {
    if a != [] {
      assert (a + t)[0] == a[0];
      assert (a + t)[1..] == a[1..] + t;
      LeadingSpacesAppend(a[1..], t);
    } else {
      assert a + t == t;
    }
  }

  /** Trailing whitespace adds to the count of what precedes it. */
  lemma {:induction false} TrailingSpacesAppend(t: string, b: string)
    requires forall i :: 0 <= i < |b| ==> IsSpace(b[i])
    ensures TrailingSpaces(t + b) == |b| + TrailingSpaces(t)
    decreases |b|
  {
    if b != [] {
      assert (t + b)[|t + b| - 1] == b[|b| - 1];
      assert (t + b)[..|t + b| - 1] == t + b[..|b| - 1];
      TrailingSpacesAppend(t, b[..|b| - 1]);
    } else {
      assert t + b == t;
    }
  }

  /** Padding a trimmed text with whitespace on both sides strips back to it. */
  lemma {:induction false} StripPadded(a: string, t: string, b: string)
    requires forall i :: 0 <= i < |a| ==> IsSpace(a[i])
    requires forall i :: 0 <= i < |b| ==> IsSpace(b[i])
    requires t == [] || (!IsSpace(t[0]) && !IsSpace(t[|t| - 1]))
    ensures Strip(a + t + b) == t
  {
    var s := a + (t + b);
    Regroup(a, t, b);
    if t == [] {
      assert TrimLeft(s) == [] by {
        assert s == (a + b) + [];
        LeadingSpacesAppend(a + b, []);
      }
    } else {
      assert TrimLeft(s) == t + b by {
        LeadingSpacesAppend(a, t + b);
        assert (t + b)[0] == t[0];
        Concat(a, t + b);
      }
      TrailingSpacesAppend(t, b);
      assert TrailingSpaces(t) == 0;
      Concat(t, b);
    }
  }

  // ---------------------------------------------------------------- replace

  /** Python's `s.replace(pat, rep)`: occurrences are found left to right and
      do not overlap. */
  function ReplaceAll(s: string, pat: string, rep: string): (r: string)
    requires pat != []
    ensures !Contains(s, pat) ==> r == s
    decreases |s|
  {
    if StartsWith(s, pat) then rep + ReplaceAll(s[|pat|..], pat, rep)
    else if s == [] then []
    else [s[0]] + ReplaceAll(s[1..], pat, rep)
  }

  /** A prefix in which the pattern cannot even start passes through unchanged. */
  lemma {:induction false} ReplaceAllAppend(x: string, y: string, pat: string, rep: string)
    requires pat != [] && pat[0] !in x
    ensures ReplaceAll(x + y, pat, rep) == x + ReplaceAll(y, pat, rep)
    decreases |x|
  {
    if x != [] {
      assert x[0] in x;
      assert (x + y)[1..] == x[1..] + y;
      ReplaceAllAppend(x[1..], y, pat, rep);
    } else {
      assert x + y == y;
    }
  }

  // ---------------------------------------------------------------- split / join

  /** Python's `s.split('\n')`. */
  function SplitLines(s: string): (lines: seq<string>)
    ensures |lines| >= 1
    decreases |s|
  {
    if s == [] then [""]
    else
      var rest := SplitLines(s[1..]);
      if s[0] == '\n' then [""] + rest
      else [[s[0]] + rest[0]] + rest[1..]
  }

  /** No piece of a split holds a line break. */
  lemma {:induction false} SplitLinesNoBreak(s: string)
    ensures forall i :: 0 <= i < |SplitLines(s)| ==> '\n' !in SplitLines(s)[i]
    decreases |s|
  {
    if s != [] {
      var rest := SplitLines(s[1..]);
      SplitLinesNoBreak(s[1..]);
      if s[0] != '\n' {
        var first := [s[0]] + rest[0];
        assert forall k :: 0 <= k < |first| ==> first[k] == s[0] || first[k] == rest[0][k - 1];
        assert forall i :: 1 <= i < |SplitLines(s)| ==> SplitLines(s)[i] == rest[i];
      }
    }
  }

  /** Python's `"\n".join(parts)`. */
  function JoinLines(parts: seq<string>): (s: string)
    decreases |parts|
  {
    if parts == [] then ""
    else if |parts| == 1 then parts[0]
    else parts[0] + "\n" + JoinLines(parts[1..])
  }

  lemma {:induction false} JoinLinesCons(c: char, x: string, tail: seq<string>)
    ensures JoinLines([[c] + x] + tail) == [c] + JoinLines([x] + tail)
  {
    if tail != [] {
      assert ([[c] + x] + tail)[1..] == tail;
      assert ([x] + tail)[1..] == tail;
    }
  }

  /** Splitting on newlines and joining with newlines gives back the text. */
  lemma {:induction false} JoinSplit(s: string)
    ensures JoinLines(SplitLines(s)) == s
    decreases |s|
  {
    if s != [] {
      var rest := SplitLines(s[1..]);
      JoinSplit(s[1..]);
      assert s == [s[0]] + s[1..];
      if s[0] == '\n' {
        assert SplitLines(s) == [""] + rest;
        assert ([""] + rest)[1..] == rest;
        assert JoinLines([""] + rest) == "" + "\n" + JoinLines(rest);
      } else {
        assert SplitLines(s) == [[s[0]] + rest[0]] + rest[1..];
        assert rest == [rest[0]] + rest[1..];
        JoinLinesCons(s[0], rest[0], rest[1..]);
      }
    }
  }

  /** Splitting distributes over a newline. */
  lemma {:induction false} SplitLinesAppend(a: string, b: string)
    ensures SplitLines(a + "\n" + b) == SplitLines(a) + SplitLines(b)
    decreases |a|
  {
    if a == [] {
      assert a + "\n" + b == "\n" + b;
      assert ("\n" + b)[1..] == b;
    } else {
      var s := a + "\n" + b;
      assert s[0] == a[0] && s[1..] == a[1..] + "\n" + b;
      SplitLinesAppend(a[1..], b);
      var A, B := SplitLines(a[1..]), SplitLines(b);
      var rest := SplitLines(s[1..]);
      assert rest == A + B;
      if a[0] == '\n' {
        Regroup([""], A, B);
      } else {
        assert rest[0] == A[0] && rest[1..] == A[1..] + B;
        Regroup([[a[0]] + A[0]], A[1..], B);
      }
    }
  }

  lemma {:induction false} SplitLinesSingle(a: string)
    requires '\n' !in a
    ensures SplitLines(a) == [a]
    decreases |a|
  {
    if a != [] {
      assert a[0] in a;
      assert forall c :: c in a[1..] ==> c in a;
      SplitLinesSingle(a[1..]);
      assert [a[0]] + a[1..] == a;
    }
  }

  /** Joining newline-free lines and splitting again gives back the lines. */
  lemma {:induction false} SplitJoin(parts: seq<string>)
    requires |parts| >= 1
    requires forall i :: 0 <= i < |parts| ==> '\n' !in parts[i]
    ensures SplitLines(JoinLines(parts)) == parts
    decreases |parts|
  {
    SplitLinesSingle(parts[0]);
    if |parts| > 1 {
      SplitLinesAppend(parts[0], JoinLines(parts[1..]));
      SplitJoin(parts[1..]);
    }
  }

  lemma {:induction false} JoinLinesStartsWith(parts: seq<string>)
    requires parts != []
    ensures StartsWith(JoinLines(parts), parts[0])
  {
  }

  // ---------------------------------------------------------------- search

  /** The first position where `p` occurs in `s`, if any: where the lazy
      group of a regular expression closes, at the first closer. */
  function IndexOf(s: string, p: string): (r: Option<nat>)
    ensures r.Some? ==> r.value + |p| <= |s| && s[r.value..r.value + |p|] == p
    decreases |s|
  {
    if StartsWith(s, p) then Some(0)
    else if s == [] then None
    else match IndexOf(s[1..], p)
      case Some(k) =>
        assert s[k + 1..k + 1 + |p|] == s[1..][k..k + |p|];
        Some(k + 1)
      case None => None
  }

  /** The search finds an occurrence exactly when there is one, and it finds
      the first. */
  lemma {:induction false} IndexOfFirst(s: string, p: string)
    ensures IndexOf(s, p).Some? <==> Contains(s, p)
    ensures IndexOf(s, p).Some? ==> forall k :: 0 <= k < IndexOf(s, p).value ==> !StartsWith(s[k..], p)
    decreases |s|
  {
    if !StartsWith(s, p) && s != [] {
      IndexOfFirst(s[1..], p);
      if IndexOf(s, p).Some? {
        forall k | 1 <= k < IndexOf(s, p).value
          ensures !StartsWith(s[k..], p)
        {
          assert s[k..] == s[1..][k - 1..];
        }
        assert s[0..] == s;
      }
    }
  }

  /** Text appended after the first occurrence does not move it. */
  lemma {:induction false} IndexOfExtend(t: string, p: string, y: string)
    requires IndexOf(t, p).Some?
    ensures IndexOf(t + y, p) == IndexOf(t, p)
    decreases |t|
  {
    assert |p| <= |t|;
    assert (t + y)[..|p|] == t[..|p|];
    if !StartsWith(t, p) {
      assert (t + y)[1..] == t[1..] + y;
      IndexOfExtend(t[1..], p, y);
    }
  }

  /** When `p` starts with a character absent from `inner`, the first `p` in
      `inner + p` is the one right after `inner`. */
  lemma {:induction false} IndexOfAfterFree(inner: string, p: string)
    requires p != [] && p[0] !in inner
    ensures IndexOf(inner + p, p) == Some(|inner|)
  {
    assert (inner + p)[|inner|..] == p;
    ContainsAt(inner + p, p, |inner|);
    IndexOfFirst(inner + p, p);
    var r := IndexOf(inner + p, p).value;
    if r < |inner| {
      assert false;
    }
  }

  /** The first position of character `c` in `s`, if any. */
  function FirstIndex(s: string, c: char): (r: Option<nat>)
    ensures r.Some? ==> r.value < |s| && s[r.value] == c
    decreases |s|
  {
    if s == [] then None
    else if s[0] == c then Some(0)
    else match FirstIndex(s[1..], c)
      case Some(k) => Some(k + 1)
      case None => None
  }

  /** The last position of character `c` in `s`, if any. */
  function LastIndex(s: string, c: char): (r: Option<nat>)
    ensures r.Some? ==> r.value < |s| && s[r.value] == c
    decreases |s|
  {
    if s == [] then None
    else if s[|s| - 1] == c then Some(|s| - 1)
    else LastIndex(s[..|s| - 1], c)
  }

  /** `FirstIndex` finds the first occurrence, and finds none only when
      there is none. */
  lemma {:induction false} FirstIndexSpec(s: string, c: char)
    ensures FirstIndex(s, c).None? ==> forall k :: 0 <= k < |s| ==> s[k] != c
    ensures FirstIndex(s, c).Some? ==> forall k :: 0 <= k < FirstIndex(s, c).value ==> s[k] != c
    decreases |s|
  {
    if s != [] && s[0] != c {
      FirstIndexSpec(s[1..], c);
      assert forall k :: 1 <= k < |s| ==> s[k] == s[1..][k - 1];
    }
  }

  /** `LastIndex` finds the last occurrence, and finds none only when there
      is none. */
  lemma {:induction false} LastIndexSpec(s: string, c: char)
    ensures LastIndex(s, c).None? ==> forall k :: 0 <= k < |s| ==> s[k] != c
    ensures LastIndex(s, c).Some? ==> forall k :: LastIndex(s, c).value < k < |s| ==> s[k] != c
    decreases |s|
  {
    if s != [] && s[|s| - 1] != c {
      LastIndexSpec(s[..|s| - 1], c);
      assert forall k :: 0 <= k < |s| - 1 ==> s[k] == s[..|s| - 1][k];
    }
  }

  /** Characters before the searched text shift the first position by their number. */
  lemma {:induction false} FirstIndexAfter(p: string, u: string, c: char)
    requires c !in p
    ensures FirstIndex(p + u, c) == (match FirstIndex(u, c) case Some(k) => Some(k + |p|) case None => None)
    decreases |p|
  {
    if p == [] {
      assert p + u == u;
    } else {
      assert p[0] in p;
      assert (p + u)[1..] == p[1..] + u;
      FirstIndexAfter(p[1..], u, c);
    }
  }

  /** Characters after the searched text do not move its first position. */
  lemma {:induction false} FirstIndexBefore(t: string, q: string, c: char)
    requires c !in q
    ensures FirstIndex(t + q, c) == FirstIndex(t, c)
    decreases |t|
  {
    if t == [] {
      assert t + q == q;
      assert forall k :: 0 <= k < |q| ==> q[k] in q;
    } else {
      assert (t + q)[1..] == t[1..] + q;
      FirstIndexBefore(t[1..], q, c);
    }
  }

  /** Characters before the searched text shift the last position by their number. */
  lemma {:induction false} LastIndexAfter(p: string, u: string, c: char)
    requires c !in p
    ensures LastIndex(p + u, c) == (match LastIndex(u, c) case Some(k) => Some(k + |p|) case None => None)
    decreases |u|
  {
    if u == [] {
      assert p + u == p;
      assert forall k :: 0 <= k < |p| ==> p[k] in p;
    } else {
      assert (p + u)[..|p + u| - 1] == p + u[..|u| - 1];
      LastIndexAfter(p, u[..|u| - 1], c);
    }
  }

  /** Characters after the searched text do not move its last position. */
  lemma {:induction false} LastIndexBefore(t: string, q: string, c: char)
    requires c !in q
    ensures LastIndex(t + q, c) == LastIndex(t, c)
    decreases |q|
  {
    if q == [] {
      assert t + q == t;
    } else {
      assert q[|q| - 1] in q;
      assert (t + q)[..|t + q| - 1] == t + q[..|q| - 1];
      LastIndexBefore(t, q[..|q| - 1], c);
    }
  }

  // ---------------------------------------------------------------- numbers

  function DigitChar(d: nat): (c: char)
    requires d < 10
    ensures IsDigit(c) && c as int - '0' as int == d
  {
    ('0' as int + d) as char
  }

  /** Python's `str(n)` for a natural number. */
  function NatToString(n: nat): (s: string)
    ensures |s| >= 1
    ensures forall i :: 0 <= i < |s| ==> IsDigit(s[i])
    decreases n
  {
    if n < 10 then [DigitChar(n)] else NatToString(n / 10) + [DigitChar(n % 10)]
  }

  /** The number a string of decimal digits denotes. */
  function DigitsValue(s: string): nat
    requires forall i :: 0 <= i < |s| ==> IsDigit(s[i])
    decreases |s|
  {
    if s == [] then 0
    else
      assert IsDigit(s[|s| - 1]);
      DigitsValue(s[..|s| - 1]) * 10 + (s[|s| - 1] as int - '0' as int)
  }

  /** Reading back the decimal text of a number gives the number. */
  lemma {:induction false} NatToStringValue(n: nat)
    ensures DigitsValue(NatToString(n)) == n
    decreases n
  {
    var s := NatToString(n);
    if n < 10 {
      assert s[..0] == [];
    } else {
      NatToStringValue(n / 10);
      assert s[..|s| - 1] == NatToString(n / 10);
    }
  }
}
