/** Python string primitives the crawler relies on: `str.isspace`, `str.strip`,
    the `in` operator, `str.lower` (for ASCII text), `str.split`, `str.join`,
    `str.replace` and the regex word-character class. */
module Text {

  /** Python's `str.isspace()`, which is also what the regex class `\s` matches. */
  predicate IsSpace(c: char) {
    || c == ' '
    || ('\t' <= c <= '\r')
    || ('\U{1C}' <= c <= '\U{1F}')
    || c == '\U{85}'
    || c == '\U{A0}'
    || c == '\U{1680}'
    || ('\U{2000}' <= c <= '\U{200A}')
    || c == '\U{2028}'
    || c == '\U{2029}'
    || c == '\U{202F}'
    || c == '\U{205F}'
    || c == '\U{3000}'
  }

  predicate IsAsciiLetter(c: char) {
    ('a' <= c <= 'z') || ('A' <= c <= 'Z')
  }

  /** The regex class `\w` on ASCII and Latin-1: letters, digits, `_`, and the
      Latin-1 letters and numeric signs (ª ² ³ µ ¹ º ¼ ½ ¾, À-ÿ except × and ÷). */
  predicate IsWordChar(c: char) {
    || IsAsciiLetter(c)
    || ('0' <= c <= '9')
    || c == '_'
    || c == '\U{AA}' || c == '\U{B2}' || c == '\U{B3}' || c == '\U{B5}'
    || c == '\U{B9}' || c == '\U{BA}'
    || ('\U{BC}' <= c <= '\U{BE}')
    || ('\U{C0}' <= c <= '\U{FF}' && c != '\U{D7}' && c != '\U{F7}')
  }

  /** `str.lstrip()`: drop leading whitespace. */
  function StripStart(s: string): (r: string)
    ensures |r| <= |s| && r == s[|s| - |r|..]
    ensures forall i :: 0 <= i < |s| - |r| ==> IsSpace(s[i])
    ensures |r| > 0 ==> !IsSpace(r[0])
  {
    if |s| > 0 && IsSpace(s[0]) then StripStart(s[1..]) else s
  }

  /** `str.rstrip()`: drop trailing whitespace. */
  function StripEnd(s: string): (r: string)
    ensures |r| <= |s| && r == s[..|r|]
    ensures forall i :: |r| <= i < |s| ==> IsSpace(s[i])
    ensures |r| > 0 ==> !IsSpace(r[|r| - 1])
  {
    if |s| > 0 && IsSpace(s[|s| - 1]) then StripEnd(s[..|s| - 1]) else s
  }

  /** `r` is `s` with the whitespace prefix `s[..lo]` and a whitespace suffix removed. */
  ghost predicate TrimmedAt(s: string, r: string, lo: nat) {
    && lo + |r| <= |s|
    && r == s[lo..lo + |r|]
    && (forall i :: 0 <= i < lo ==> IsSpace(s[i]))
    && (forall i :: lo + |r| <= i < |s| ==> IsSpace(s[i]))
  }

  /** Removing a whitespace prefix and then a whitespace suffix trims both ends. */
  lemma TrimBoth(s: string, t: string, r: string)
    requires |t| <= |s| && t == s[|s| - |t|..]
    requires forall i :: 0 <= i < |s| - |t| ==> IsSpace(s[i])
    requires |r| <= |t| && r == t[..|r|]
    requires forall i :: |r| <= i < |t| ==> IsSpace(t[i])
    requires |t| > 0 ==> !IsSpace(t[0])
    requires |r| > 0 ==> !IsSpace(r[|r| - 1])
    ensures exists lo: nat :: TrimmedAt(s, r, lo)
    ensures |r| > 0 ==> !IsSpace(r[0]) && !IsSpace(r[|r| - 1])
  {
    var lo := |s| - |t|;
    forall i | lo + |r| <= i < |s| ensures IsSpace(s[i]) {
      assert s[i] == t[i - lo];
    }
    assert TrimmedAt(s, r, lo);
    if |r| > 0 {
      assert r[0] == t[0];
    }
  }

  /** `str.strip()`: the infix of `s` left after removing whitespace at both ends. */
  function Strip(s: string): (r: string)
    ensures exists lo: nat :: TrimmedAt(s, r, lo)
    ensures |r| > 0 ==> !IsSpace(r[0]) && !IsSpace(r[|r| - 1])
  {
    var t := StripStart(s);
    assert |t| <= |s| && t == s[|s| - |t|..];
    var r := StripEnd(t);
    assert |r| <= |t| && r == t[..|r|];
    TrimBoth(s, t, r);
    r
  }

  /** Python's `s[:-1]`: everything but the last character (nothing for ""). */
  function DropLast(s: string): (r: string)
    ensures |s| > 0 ==> |r| == |s| - 1 && r == s[..|s| - 1]
    ensures |s| == 0 ==> r == s
  {
    if |s| == 0 then s else s[..|s| - 1]
  }

  /** `pat` occurs in `s` starting at index `i`. */
  predicate OccursAt(s: string, pat: string, i: nat) {
    i + |pat| <= |s| && s[i..i + |pat|] == pat
  }

  /** Python's `pat in s`. */
  predicate Contains(s: string, pat: string) {
    exists i: nat | i <= |s| :: OccursAt(s, pat, i)
  }

  function LowerChar(c: char): char {
    if 'A' <= c <= 'Z' then (c as int + 32) as char else c
  }

  /** `str.lower()` restricted to ASCII letters; other characters are kept. */
  function AsciiLower(s: string): (r: string)
    ensures |r| == |s|
    ensures forall i :: 0 <= i < |s| ==> r[i] == LowerChar(s[i])
  {
    seq(|s|, i requires 0 <= i < |s| => LowerChar(s[i]))
  }

  /** Python's `s.split(sep)`: the pieces between leftmost non-overlapping occurrences. */
  function SplitOn(s: string, sep: string): (parts: seq<string>)
    requires |sep| > 0
    ensures |parts| >= 1
    decreases |s|
  {
    if |s| < |sep| then [s]
    else if s[..|sep|] == sep then [[]] + SplitOn(s[|sep|..], sep)
    else
      var rest := SplitOn(s[1..], sep);
      [[s[0]] + rest[0]] + rest[1..]
  }

  /** Python's `sep.join(parts)`. */
  function JoinWith(parts: seq<string>, sep: string): string
    requires |parts| >= 1
  {
    if |parts| == 1 then parts[0] else parts[0] + sep + JoinWith(parts[1..], sep)
  }

  /** Python's `s.replace(pat, rep)`: scan left to right, replacing each
      non-overlapping occurrence of `pat`. */
  function ReplaceAll(s: string, pat: string, rep: string): string
    requires |pat| > 0
    decreases |s|
  {
    if |s| < |pat| then s
    else if s[..|pat|] == pat then rep + ReplaceAll(s[|pat|..], pat, rep)
    else [s[0]] + ReplaceAll(s[1..], pat, rep)
  }

  lemma JoinConsFirst(c: char, parts: seq<string>, sep: string)
    requires |parts| >= 1
    ensures JoinWith([[c] + parts[0]] + parts[1..], sep) == [c] + JoinWith(parts, sep)
  {
    var ps := [[c] + parts[0]] + parts[1..];
    if |parts| > 1 {
      assert ps[1..] == parts[1..];
    }
  }

  /** Joining the pieces of a split with the same separator gives the string back. */
  lemma {:induction false} JoinSplit(s: string, sep: string)
    requires |sep| > 0
    ensures JoinWith(SplitOn(s, sep), sep) == s
    decreases |s|
  {
    if |s| < |sep| {
    } else if s[..|sep|] == sep {
      var rest := SplitOn(s[|sep|..], sep);
      JoinSplit(s[|sep|..], sep);
      assert ([[]] + rest)[1..] == rest;
      assert s == sep + s[|sep|..];
    } else {
      var rest := SplitOn(s[1..], sep);
      JoinSplit(s[1..], sep);
      JoinConsFirst(s[0], rest, sep);
      assert s == [s[0]] + s[1..];
    }
  }

  /** Python documents `s.replace(a, b)` as `b.join(s.split(a))`; the scanner agrees. */
  lemma {:induction false} ReplaceIsJoinOfSplit(s: string, pat: string, rep: string)
    requires |pat| > 0
    ensures ReplaceAll(s, pat, rep) == JoinWith(SplitOn(s, pat), rep)
    decreases |s|
  {
    if |s| < |pat| {
    } else if s[..|pat|] == pat {
      var rest := SplitOn(s[|pat|..], pat);
      ReplaceIsJoinOfSplit(s[|pat|..], pat, rep);
      assert ([[]] + rest)[1..] == rest;
    } else {
      var rest := SplitOn(s[1..], pat);
      ReplaceIsJoinOfSplit(s[1..], pat, rep);
      JoinConsFirst(s[0], rest, rep);
    }
  }

  /** A piece with no occurrence of the separator's first character is split off intact. */
  lemma {:induction false} SplitPieceThenSep(p: string, sep: string, tail: string)
    requires |sep| > 0
    requires forall i :: 0 <= i < |p| ==> p[i] != sep[0]
    ensures SplitOn(p + sep + tail, sep) == [p] + SplitOn(tail, sep)
    decreases |p|
  {
    var s := p + sep + tail;
    if |p| == 0 {
      assert s[..|sep|] == sep;
      assert s[|sep|..] == tail;
    } else {
      assert s[0] == p[0] != sep[0];
      assert s[..|sep|] != sep by { assert s[..|sep|][0] != sep[0]; }
      assert s[1..] == p[1..] + sep + tail;
      SplitPieceThenSep(p[1..], sep, tail);
      assert [p[0]] + p[1..] == p;
    }
  }

  lemma {:induction false} SplitPieceAlone(p: string, sep: string)
    requires |sep| > 0
    requires forall i :: 0 <= i < |p| ==> p[i] != sep[0]
    ensures SplitOn(p, sep) == [p]
    decreases |p|
  {
    if |p| >= |sep| {
      assert p[..|sep|] != sep by { assert p[..|sep|][0] != sep[0]; }
      SplitPieceAlone(p[1..], sep);
      assert [p[0]] + p[1..] == p;
    }
  }

  /** Splitting a join gives the pieces back when no piece contains the
      separator's first character. */
  lemma {:induction false} SplitJoin(parts: seq<string>, sep: string)
    requires |parts| >= 1 && |sep| > 0
    requires forall k, i :: 0 <= k < |parts| && 0 <= i < |parts[k]| ==> parts[k][i] != sep[0]
    ensures SplitOn(JoinWith(parts, sep), sep) == parts
    decreases |parts|
  {
    if |parts| == 1 {
      SplitPieceAlone(parts[0], sep);
    } else {
      var tail := JoinWith(parts[1..], sep);
      assert forall i :: 0 <= i < |parts[0]| ==> parts[0][i] != sep[0];
      SplitPieceThenSep(parts[0], sep, tail);
      forall k, i | 0 <= k < |parts[1..]| && 0 <= i < |parts[1..][k]|
        ensures parts[1..][k][i] != sep[0]
      {
        assert parts[1..][k] == parts[k + 1];
      }
      SplitJoin(parts[1..], sep);
      assert [parts[0]] + parts[1..] == parts;
    }
  }
}
