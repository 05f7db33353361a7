/**
 * The PHP string builtins the scraper relies on, over `string` (a sequence of characters):
 * strtolower, str_contains on a lower-cased haystack, trim, str_ireplace with an empty
 * replacement. Case folding is ASCII only, as in PHP 8.2 and later.
 */
module Text {

  /** The characters trim() strips when no character list is given. */
  predicate IsTrimSpace(c: char) {
    c == ' ' || c == '\t' || c == '\n' || c == '\r' || c == '\0' || c == '\U{B}'
  }

  predicate IsDigit(c: char) {
    '0' <= c <= '9'
  }

  function LowerChar(c: char): char {
    if 'A' <= c <= 'Z' then (c as int + 32) as char else c
  }

  /** strtolower */
  function Lower(s: string): (r: string)
    ensures |r| == |s|
  {
    seq(|s|, i requires 0 <= i < |s| => LowerChar(s[i]))
  }

  /** A lower-case `pat` occurs in `s` at index `i`, ignoring the case of `s`. */
  predicate OccursAt(s: string, pat: string, i: int) {
    0 <= i && i + |pat| <= |s| && forall k :: 0 <= k < |pat| ==> LowerChar(s[i + k]) == pat[k]
  }

  /** str_contains(strtolower(s), pat) for a lower-case `pat`. */
  predicate ContainsCI(s: string, pat: string) {
    exists i :: 0 <= i <= |s| - |pat| && OccursAt(s, pat, i)
  }

  /** An occurrence inside a slice is an occurrence in the whole string. */
  lemma {:induction false} ContainsInSlice(s: string, a: nat, b: nat, pat: string)
    requires a <= b <= |s|
    requires ContainsCI(s[a..b], pat)
    ensures ContainsCI(s, pat)
  {
    var i :| 0 <= i <= |s[a..b]| - |pat| && OccursAt(s[a..b], pat, i);
    forall k | 0 <= k < |pat|
      ensures LowerChar(s[a + i + k]) == pat[k]
    {
      assert s[a..b][i + k] == s[a + i + k];
    }
    assert OccursAt(s, pat, a + i);
  }

  /** ltrim(s): drops leading trim characters and nothing else. */
  function TrimLeft(s: string): (r: string)
    ensures |r| <= |s| && r == s[|s| - |r|..]
    ensures forall i :: 0 <= i < |s| - |r| ==> IsTrimSpace(s[i])
    ensures r == [] || !IsTrimSpace(r[0])
    decreases |s|
  {
    if |s| > 0 && IsTrimSpace(s[0]) then TrimLeft(s[1..]) else s
  }

  /** rtrim(s): drops trailing trim characters and nothing else. */
  function TrimRight(s: string): (r: string)
    ensures |r| <= |s| && r == s[..|r|]
    ensures forall i :: |r| <= i < |s| ==> IsTrimSpace(s[i])
    ensures r == [] || !IsTrimSpace(r[|r| - 1])
    decreases |s|
  {
    if |s| > 0 && IsTrimSpace(s[|s| - 1]) then TrimRight(s[..|s| - 1]) else s
  }

  predicate IsTrimmed(s: string) {
    s == [] || (!IsTrimSpace(s[0]) && !IsTrimSpace(s[|s| - 1]))
  }

  /** trim(s): the result has no trim character at either end, and is the slice of `s`
      that is preceded and followed only by trim characters. */
  function Trim(s: string): (r: string)
    ensures IsTrimmed(r)
    ensures var a := |s| - |TrimLeft(s)|; a + |r| <= |s| && r == s[a..a + |r|]
    ensures var a := |s| - |TrimLeft(s)|; forall i :: 0 <= i < a ==> IsTrimSpace(s[i])
    ensures var a := |s| - |TrimLeft(s)|; forall i :: a + |r| <= i < |s| ==> IsTrimSpace(s[i])
  {
    var l := TrimLeft(s);
    TrimRightIsTrimmed(l);
    PrefixOfSuffix(s, |s| - |l|, |TrimRight(l)|);
    SpacesAfterPrefix(s, |s| - |l|, |TrimRight(l)|);
    TrimRight(l)
  }

  /** rtrim() of a string that does not start with a trim character is trimmed. */
  lemma TrimRightIsTrimmed(l: string)
    requires l == [] || !IsTrimSpace(l[0])
    ensures IsTrimmed(TrimRight(l))
  {
    var r := TrimRight(l);
    if r != [] {
      assert r[0] == l[0];
    }
  }

  /** Trim characters after a prefix of a suffix are trim characters of the whole string. */
  lemma SpacesAfterPrefix(s: string, a: nat, n: nat)
    requires a + n <= |s|
    requires forall j :: n <= j < |s| - a ==> IsTrimSpace(s[a..][j])
    ensures forall i :: a + n <= i < |s| ==> IsTrimSpace(s[i])
  {
    forall i | a + n <= i < |s|
      ensures IsTrimSpace(s[i])
    {
      assert s[i] == s[a..][i - a];
    }
  }

  /** A prefix of a suffix is a slice. */
  lemma PrefixOfSuffix(s: string, a: nat, n: nat)
    requires a + n <= |s|
    ensures s[a..][..n] == s[a..a + n]
  {
  }

  /** trim() changes nothing on a string that is already trimmed. */
  lemma TrimOfTrimmed(s: string)
    requires IsTrimmed(s)
    ensures Trim(s) == s
  {
  }

  /** One leading trim character before a trimmed string is all trim() removes. */
  lemma TrimAfterOneSpace(c: char, s: string)
    requires IsTrimSpace(c) && IsTrimmed(s)
    ensures Trim([c] + s) == s
  {
    assert ([c] + s)[1..] == s;
    TrimOfTrimmed(s);
  }

  /** Only trim characters around a trimmed string: trim() returns that string. */
  lemma {:induction false} TrimOfPadded(p: string, m: string, q: string)
    requires forall i :: 0 <= i < |p| ==> IsTrimSpace(p[i])
    requires forall i :: 0 <= i < |q| ==> IsTrimSpace(q[i])
    requires IsTrimmed(m)
    ensures Trim(p + m + q) == m
  {
    var s := p + m + q;
    if m != [] {
      assert s[|p|] == m[0];
      assert s[|p| + |m| - 1] == m[|m| - 1];
      assert s[|p|..|p| + |m|] == m;
    }
  }

  /** Before a head with no trim character at either end, trim() only strips the tail. */
  lemma TrimAfterHead(h: string, s: string)
    requires h != [] && !IsTrimSpace(h[0]) && !IsTrimSpace(h[|h| - 1])
    ensures Trim(h + s) == h + TrimRight(s)
  {
    var t := TrimRight(s);
    var rest := s[|t|..];
    assert s == t + rest;
    assert (h + t)[0] == h[0];
    assert (h + t)[|h + t| - 1] == if t == [] then h[|h| - 1] else t[|t| - 1];
    assert h + s == [] + (h + t) + rest;
    TrimOfPadded([], h + t, rest);
  }

  /** rtrim() ignores trailing trim characters. */
  lemma {:induction false} TrimRightDropsSpaces(x: string, q: string)
    requires forall i :: 0 <= i < |q| ==> IsTrimSpace(q[i])
    ensures TrimRight(x + q) == TrimRight(x)
    decreases |q|
  {
    if q != [] {
      assert (x + q)[|x + q| - 1] == q[|q| - 1];
      assert (x + q)[..|x + q| - 1] == x + q[..|q| - 1];
      TrimRightDropsSpaces(x, q[..|q| - 1]);
    } else {
      assert x + q == x;
    }
  }

  /** Three consecutive slices make up the whole string. */
  lemma SplitThree(s: string, i: nat, j: nat)
    requires i <= j <= |s|
    ensures s == s[..i] + s[i..j] + s[j..]
  {
  }

  /** rtrim() on a trimmed string between runs of trim characters keeps the leading run
      and the string, or nothing when the string is empty. */
  lemma TrimRightOfPadded3(p: string, m: string, q: string)
    requires forall i :: 0 <= i < |p| ==> IsTrimSpace(p[i])
    requires forall i :: 0 <= i < |q| ==> IsTrimSpace(q[i])
    requires IsTrimmed(m)
    ensures TrimRight(p + m + q) == if m == [] then [] else p + m
  {
    TrimRightDropsSpaces(p + m, q);
    if m == [] {
      assert p + m == [] + p;
      TrimRightDropsSpaces([], p);
    } else {
      assert (p + m)[|p + m| - 1] == m[|m| - 1];
    }
  }

  /** rtrim() then trim() on a trimmed string between runs of trim characters gives that string. */
  lemma TrimOfTrimRightPadded(p: string, m: string, q: string)
    requires forall i :: 0 <= i < |p| ==> IsTrimSpace(p[i])
    requires forall i :: 0 <= i < |q| ==> IsTrimSpace(q[i])
    requires IsTrimmed(m)
    ensures Trim(TrimRight(p + m + q)) == m
  {
    TrimRightOfPadded3(p, m, q);
    if m != [] {
      TrimOfPadded(p, m, []);
      assert p + m + [] == p + m;
    }
  }

  /** trim() splits its input into leading trim characters, the result, and trailing trim characters. */
  lemma TrimSplit(s: string) returns (p: string, q: string)
    ensures s == p + Trim(s) + q
    ensures forall i :: 0 <= i < |p| ==> IsTrimSpace(p[i])
    ensures forall i :: 0 <= i < |q| ==> IsTrimSpace(q[i])
  {
    var m := Trim(s);
    var a := |s| - |TrimLeft(s)|;
    p, q := s[..a], s[a + |m|..];
    SplitThree(s, a, a + |m|);
    forall i | 0 <= i < |q|
      ensures IsTrimSpace(q[i])
    {
      assert q[i] == s[a + |m| + i];
    }
  }

  /** Stripping the tail first does not change what trim() returns. */
  lemma TrimOfTrimRight(s: string)
    ensures Trim(TrimRight(s)) == Trim(s)
  {
    var p, q := TrimSplit(s);
    TrimOfTrimRightPadded(p, Trim(s), q);
  }

  /** str_ireplace(pat, '', s) for a non-empty lower-case `pat`: every non-overlapping
      occurrence, found left to right without rescanning the output, is removed. */
  function RemoveAllCI(s: string, pat: string): (r: string)
    requires pat != []
    ensures |r| <= |s|
    decreases |s|
  {
    if |s| < |pat| then s
    else if Lower(s[..|pat|]) == pat then RemoveAllCI(s[|pat|..], pat)
    else [s[0]] + RemoveAllCI(s[1..], pat)
  }

  /** An occurrence of `pat` at the very start is removed, and the scan resumes after it. */
  lemma RemoveLeadingOccurrence(lab: string, t: string, pat: string)
    requires pat != [] && |lab| == |pat| && Lower(lab) == pat
    ensures RemoveAllCI(lab + t, pat) == RemoveAllCI(t, pat)
  {
    assert (lab + t)[..|pat|] == lab;
    assert (lab + t)[|pat|..] == t;
  }

  /** With no occurrence of `pat`, str_ireplace returns its subject unchanged. */
  lemma {:induction false} RemoveAllAbsent(s: string, pat: string)
    requires pat != []
    requires !ContainsCI(s, pat)
    ensures RemoveAllCI(s, pat) == s
    decreases |s|
  {
    if |s| >= |pat| {
      assert !OccursAt(s, pat, 0);
      assert s[1..] == s[1..|s|];
      if ContainsCI(s[1..], pat) {
        ContainsInSlice(s, 1, |s|, pat);
      }
      RemoveAllAbsent(s[1..], pat);
      assert [s[0]] + s[1..] == s;
    }
  }
}
