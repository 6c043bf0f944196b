/**
 * The pieces of Python's `str` type that the annotation reply parser relies on:
 * `isspace()`, `strip()`, `upper()`, `startswith()`, `split(':', 1)` and
 * `splitlines()`. A string is a sequence of Unicode scalar values.
 */
module PyStr {

  /** `c.isspace()`: the characters that `str.strip()` with no argument removes. */
  predicate IsSpace(c: char) {
    ('\t' <= c <= '\r') || ('\U{1C}' <= c <= ' ') || c == '\U{85}' || c == '\U{A0}'
    || c == '\U{1680}' || ('\U{2000}' <= c <= '\U{200A}') || c == '\U{2028}' || c == '\U{2029}'
    || c == '\U{202F}' || c == '\U{205F}' || c == '\U{3000}'
  }

  /** The line boundaries of `str.splitlines()` ("\r\n" also counts as a single one). */
  predicate IsLineBreak(c: char) {
    ('\n' <= c <= '\r') || ('\U{1C}' <= c <= '\U{1E}') || c == '\U{85}' || c == '\U{2028}' || c == '\U{2029}'
  }

  predicate AllSpace(s: string) {
    forall i :: 0 <= i < |s| ==> IsSpace(s[i])
  }

  /** A single line: nothing in it that `splitlines()` would split at. */
  predicate NoBreaks(s: string) {
    forall i :: 0 <= i < |s| ==> !IsLineBreak(s[i])
  }

  // ---------------------------------------------------------------------------
  // upper()

  /** Upper-casing of one character, restricted to ASCII letters. */
  function ToUpper(c: char): char {
    if 'a' <= c <= 'z' then (c as int - 32) as char else c
  }

  /** `s.upper()`, character by character. */
  function Upper(s: string): string {
    seq(|s|, i requires 0 <= i < |s| => ToUpper(s[i]))
  }

  /** A string without lower-case ASCII letters is its own `upper()`. */
  lemma UpperIdentity(s: string)
    requires forall i :: 0 <= i < |s| ==> !('a' <= s[i] <= 'z')
    ensures Upper(s) == s
  {
  }

  lemma UpperKeepsSpace(c: char)
    ensures IsSpace(ToUpper(c)) == IsSpace(c)
  {
  }

  // ---------------------------------------------------------------------------
  // strip()

  /** Length of the longest all-whitespace prefix. */
  ghost function LeadCount(s: string): (n: nat)
    ensures n <= |s|
    ensures forall i :: 0 <= i < n ==> IsSpace(s[i])
    ensures n < |s| ==> !IsSpace(s[n])
  {
    if s == [] || !IsSpace(s[0]) then 0 else 1 + LeadCount(s[1..])
  }

  /** Length of the longest all-whitespace suffix. */
  ghost function TrailCount(s: string): (n: nat)
    ensures n <= |s|
    ensures forall i :: |s| - n <= i < |s| ==> IsSpace(s[i])
    ensures n < |s| ==> !IsSpace(s[|s| - 1 - n])
  {
    if s == [] || !IsSpace(s[|s| - 1]) then 0 else 1 + TrailCount(s[..|s| - 1])
  }

  /** `s.lstrip()`. */
  function TrimStart(s: string): string {
    if s != [] && IsSpace(s[0]) then TrimStart(s[1..]) else s
  }

  /** `s.rstrip()`. */
  function TrimEnd(s: string): string {
    if s != [] && IsSpace(s[|s| - 1]) then TrimEnd(s[..|s| - 1]) else s
  }

  /** `s.strip()`. */
  function Strip(s: string): string {
    TrimEnd(TrimStart(s))
  }

  lemma {:induction false} TrimStartAt(s: string, lo: nat)
    requires lo <= |s|
    requires forall i :: 0 <= i < lo ==> IsSpace(s[i])
    requires lo < |s| ==> !IsSpace(s[lo])
    ensures TrimStart(s) == s[lo..]
    decreases lo
  {
    if lo > 0 {
      TrimStartAt(s[1..], lo - 1);
      assert s[1..][lo - 1..] == s[lo..];
    }
  }

  lemma {:induction false} TrimEndAt(s: string, hi: nat)
    requires hi <= |s|
    requires forall i :: hi <= i < |s| ==> IsSpace(s[i])
    requires 0 < hi ==> !IsSpace(s[hi - 1])
    ensures TrimEnd(s) == s[..hi]
    decreases |s| - hi
  {
    if hi < |s| {
      TrimEndAt(s[..|s| - 1], hi);
      assert s[..|s| - 1][..hi] == s[..hi];
    }
  }

  /** Any slice with whitespace outside and non-space ends is what `strip()` keeps. */
  lemma StripUnique(s: string, lo: nat, hi: nat)
    requires lo <= hi <= |s|
    requires forall i :: 0 <= i < lo ==> IsSpace(s[i])
    requires forall i :: hi <= i < |s| ==> IsSpace(s[i])
    requires lo < hi ==> !IsSpace(s[lo]) && !IsSpace(s[hi - 1])
    ensures Strip(s) == s[lo..hi]
  {
    if lo == hi {
      TrimStartAt(s, |s|);
      assert TrimStart(s) == [];
    } else {
      TrimStartAt(s, lo);
      var t := s[lo..];
      TrimEndAt(t, hi - lo);
      assert t[..hi - lo] == s[lo..hi];
    }
  }

  /**
   * The slice `s[lo..hi]` that `strip()` keeps: everything outside it is
   * whitespace and, unless it is empty, it starts and ends with a non-space.
   */
  ghost function StripBounds(s: string): (b: (nat, nat))
    ensures b.0 <= b.1 <= |s|
    ensures forall i :: 0 <= i < b.0 ==> IsSpace(s[i])
    ensures forall i :: b.1 <= i < |s| ==> IsSpace(s[i])
    ensures b.0 < b.1 ==> !IsSpace(s[b.0]) && !IsSpace(s[b.1 - 1])
  {
    var lo := LeadCount(s);
    var t := s[lo..];
    var hi := lo + |t| - TrailCount(t);
    assert lo < |s| ==> !IsSpace(t[0]);
    (lo, hi)
  }

  lemma StripAt(s: string)
    ensures Strip(s) == s[StripBounds(s).0..StripBounds(s).1]
  {
    var b := StripBounds(s);
    StripUnique(s, b.0, b.1);
  }

  /** Stripping a suffix that starts inside the kept slice. */
  lemma StripSuffixFrom(s: string, j: nat)
    requires StripBounds(s).0 <= j <= StripBounds(s).1
    ensures Strip(s[j..]) == Strip(s[j..StripBounds(s).1])
  {
    var b := StripBounds(s);
    var mid, tail := s[j..b.1], s[b.1..];
    assert s[j..] == mid + tail;
    assert AllSpace(tail);
    StripTrailing(mid, tail);
  }

  /** A prefix that starts and ends with a non-space survives `strip()`. */
  lemma StripKeepsPrefix(p: string, rest: string)
    requires p != [] && !IsSpace(p[0]) && !IsSpace(p[|p| - 1])
    ensures StartsWith(Strip(p + rest), p)
  {
    var s := p + rest;
    var b := StripBounds(s);
    StripAt(s);
    assert s[0] == p[0] && s[|p| - 1] == p[|p| - 1];
    assert b.0 == 0;
    assert |p| <= b.1;
    assert Strip(s)[..|p|] == s[..|p|] == p;
  }

  /** An upper-case prefix that survives `strip()` also survives `strip().upper()`. */
  lemma UpperStripKeepsPrefix(p: string, rest: string)
    requires p != [] && !IsSpace(p[0]) && !IsSpace(p[|p| - 1])
    requires Upper(p) == p
    ensures StartsWith(Upper(Strip(p + rest)), p)
  {
    var t := Strip(p + rest);
    StripKeepsPrefix(p, rest);
    UpperSlice(t, 0, |p|);
    assert t[0..|p|] == p;
  }

  lemma StripLeading(ws: string, s: string)
    requires AllSpace(ws)
    ensures Strip(ws + s) == Strip(s)
  {
    var b := StripBounds(s);
    StripAt(s);
    var t := ws + s;
    forall i | 0 <= i < |ws| + b.0 ensures IsSpace(t[i]) {
      if i < |ws| { assert t[i] == ws[i]; } else { assert t[i] == s[i - |ws|]; }
    }
    forall i | |ws| + b.1 <= i < |t| ensures IsSpace(t[i]) {
      assert t[i] == s[i - |ws|];
    }
    StripUnique(t, |ws| + b.0, |ws| + b.1);
    assert t[|ws| + b.0..|ws| + b.1] == s[b.0..b.1];
  }

  lemma StripTrailing(s: string, ws: string)
    requires AllSpace(ws)
    ensures Strip(s + ws) == Strip(s)
  {
    var b := StripBounds(s);
    StripAt(s);
    var t := s + ws;
    forall i | 0 <= i < b.0 ensures IsSpace(t[i]) {
      assert t[i] == s[i];
    }
    forall i | b.1 <= i < |t| ensures IsSpace(t[i]) {
      if i < |s| { assert t[i] == s[i]; } else { assert t[i] == ws[i - |s|]; }
    }
    StripUnique(t, b.0, b.1);
    assert t[b.0..b.1] == s[b.0..b.1];
  }

  /** Whitespace added on either side does not change what `strip()` keeps. */
  lemma StripPadding(ws1: string, s: string, ws2: string)
    requires AllSpace(ws1) && AllSpace(ws2)
    ensures Strip(ws1 + s + ws2) == Strip(s)
  {
    var t := s + ws2;
    assert ws1 + s + ws2 == ws1 + t;
    StripLeading(ws1, t);
    StripTrailing(s, ws2);
  }

  lemma UpperSpaces(s: string)
    ensures forall i :: 0 <= i < |s| ==> IsSpace(Upper(s)[i]) == IsSpace(s[i])
  {
    forall i | 0 <= i < |s|
      ensures IsSpace(Upper(s)[i]) == IsSpace(s[i])
    {
      UpperKeepsSpace(s[i]);
    }
  }

  lemma UpperSlice(s: string, lo: nat, hi: nat)
    requires lo <= hi <= |s|
    ensures Upper(s[lo..hi]) == Upper(s)[lo..hi]
  {
  }

  /** `strip()` then `upper()` is `upper()` then `strip()`. */
  lemma UpperStripCommute(s: string)
    ensures Upper(Strip(s)) == Strip(Upper(s))
  {
    var b := StripBounds(s);
    StripAt(s);
    var u := Upper(s);
    UpperSlice(s, b.0, b.1);
    UpperSpaces(s);
    StripUnique(u, b.0, b.1);
  }

  // ---------------------------------------------------------------------------
  // startswith() and split(c, 1)

  predicate StartsWith(s: string, prefix: string) {
    |prefix| <= |s| && s[..|prefix|] == prefix
  }

  /** Index of the first occurrence of `c` in `s`, or `|s|` when there is none. */
  function IndexOf(s: string, c: char): (r: nat)
    ensures r <= |s|
    ensures r < |s| <==> c in s
    ensures forall i :: 0 <= i < r ==> s[i] != c
    ensures r < |s| ==> s[r] == c
  {
    if s == [] then 0 else if s[0] == c then 0 else 1 + IndexOf(s[1..], c)
  }

  /** The first occurrence in a prefix is the first occurrence in the whole. */
  lemma IndexOfPrefix(p: string, rest: string, c: char)
    requires c in p
    ensures IndexOf(p + rest, c) == IndexOf(p, c)
  {
    var s := p + rest;
    var i := IndexOf(p, c);
    assert s[i] == c;
    forall j | 0 <= j < i ensures s[j] != c {
      assert s[j] == p[j];
    }
  }

  /** `s.split(c, 1)[1]`: what follows the first occurrence of `c`. */
  function AfterFirst(s: string, c: char): string
    requires c in s
  {
    s[IndexOf(s, c) + 1..]
  }

  /**
   * Whatever follows a prefix ending in its first `c`, separated by one space,
   * is recovered by splitting at `c` and stripping, if it is already stripped.
   */
  lemma AfterPrefixValue(p: string, c: char, v: string)
    requires c in p && IndexOf(p, c) == |p| - 1
    requires Strip(v) == v
    ensures c in p + " " + v
    ensures Strip(AfterFirst(p + " " + v, c)) == v
  {
    var rest := " " + v;
    assert p + " " + v == p + rest;
    IndexOfPrefix(p, rest, c);
    assert (p + rest)[|p|..] == rest;
    assert AllSpace(" ");
    StripLeading(" ", v);
  }

  // ---------------------------------------------------------------------------
  // splitlines()

  /**
   * `splitlines()` scanning `s` with `line` as the part of the current line
   * read so far: a boundary ends the current line, "\r\n" is one boundary, and
   * a boundary at the very end does not start a further, empty line.
   */
  function SplitFrom(line: string, s: string): seq<string>
    decreases |s|
  {
    if s == [] then
      if line == [] then [] else [line]
    else if IsLineBreak(s[0]) then
      var rest := if s[0] == '\r' && |s| > 1 && s[1] == '\n' then s[2..] else s[1..];
      [line] + SplitFrom([], rest)
    else
      SplitFrom(line + [s[0]], s[1..])
  }

  /** `s.splitlines()`. */
  function SplitLines(s: string): seq<string> {
    SplitFrom([], s)
  }

  /** No line that `splitlines()` returns holds a boundary. */
  lemma {:induction false} SplitFromLines(line: string, s: string)
    requires NoBreaks(line)
    ensures forall k :: 0 <= k < |SplitFrom(line, s)| ==> NoBreaks(SplitFrom(line, s)[k])
    decreases |s|
  {
    if s == [] {
    } else if IsLineBreak(s[0]) {
      var rest := if s[0] == '\r' && |s| > 1 && s[1] == '\n' then s[2..] else s[1..];
      SplitFromLines([], rest);
    } else {
      SplitFromLines(line + [s[0]], s[1..]);
    }
  }

  /** Every line followed by "\n": the text `splitlines()` takes apart again. */
  function Terminated(lines: seq<string>): string {
    if lines == [] then [] else lines[0] + "\n" + Terminated(lines[1..])
  }

  /** A run of ordinary characters followed by "\n" completes the current line. */
  lemma {:induction false} SplitFromLine(line: string, x: string, rest: string)
    requires NoBreaks(x)
    ensures SplitFrom(line, x + "\n" + rest) == [line + x] + SplitLines(rest)
    decreases |x|
  {
    if x == [] {
      var s := x + "\n" + rest;
      assert s[0] == '\n' && s[1..] == rest;
      assert line + x == line;
    } else {
      assert x + "\n" + rest == [x[0]] + (x[1..] + "\n" + rest);
      SplitFromLine(line + [x[0]], x[1..], rest);
      assert line + [x[0]] + x[1..] == line + x;
    }
  }

  /** A run of ordinary characters at the end of the text is the last line. */
  lemma {:induction false} SplitFromLast(line: string, x: string)
    requires NoBreaks(x)
    ensures SplitFrom(line, x) == if line + x == [] then [] else [line + x]
    decreases |x|
  {
    if x == [] {
      assert line + x == line;
    } else {
      SplitFromLast(line + [x[0]], x[1..]);
      assert line + [x[0]] + x[1..] == line + x;
    }
  }

  /**
   * Round trip of `splitlines()`: single lines, each ended by "\n", then an
   * unterminated last line, split back into exactly those lines.
   */
  lemma {:induction false} SplitTerminated(lines: seq<string>, tail: string)
    requires forall k :: 0 <= k < |lines| ==> NoBreaks(lines[k])
    requires NoBreaks(tail)
    ensures SplitLines(Terminated(lines) + tail) == lines + (if tail == [] then [] else [tail])
    decreases |lines|
  {
    if lines == [] {
      assert Terminated(lines) + tail == tail;
      SplitFromLast([], tail);
    } else {
      var rest := Terminated(lines[1..]) + tail;
      assert Terminated(lines) + tail == lines[0] + "\n" + rest;
      SplitFromLine([], lines[0], rest);
      SplitTerminated(lines[1..], tail);
      assert [] + lines[0] == lines[0];
      assert lines == [lines[0]] + lines[1..];
    }
  }

  /** A text that ends with "\n" splits independently of what follows it. */
  lemma {:induction false} SplitAfterNewline(line: string, a: string, b: string)
    requires a != [] && a[|a| - 1] == '\n'
    ensures SplitFrom(line, a + b) == SplitFrom(line, a) + SplitLines(b)
    decreases |a|
  {
    var s := a + b;
    assert s[0] == a[0];
    if IsLineBreak(a[0]) {
      var crlf := a[0] == '\r' && |a| > 1 && a[1] == '\n';
      assert crlf == (s[0] == '\r' && |s| > 1 && s[1] == '\n');
      var restA := if crlf then a[2..] else a[1..];
      assert (if crlf then s[2..] else s[1..]) == restA + b;
      if restA == [] {
        assert restA + b == b;
      } else {
        SplitAfterNewline([], restA, b);
      }
    } else {
      assert s[1..] == a[1..] + b;
      SplitAfterNewline(line + [a[0]], a[1..], b);
    }
  }
}
