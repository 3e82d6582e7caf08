/**
 * The one JavaScript string built-in the task store relies on:
 * String.prototype.trim, which removes leading and trailing white space.
 * ECMAScript 2024, section 22.1.3.32, defines the removed code points as
 * those of WhiteSpace (section 12.2) and LineTerminator (section 12.3).
 */
module JsString {

  /** The code points of WhiteSpace: TAB, VT, FF, ZWNBSP and the characters
      of Unicode category Zs. */
  const WhiteSpaceCodePoints: set<int> :=
    {0x0009, 0x000B, 0x000C, 0xFEFF,
     0x0020, 0x00A0, 0x1680, 0x2000, 0x2001, 0x2002, 0x2003, 0x2004, 0x2005,
     0x2006, 0x2007, 0x2008, 0x2009, 0x200A, 0x202F, 0x205F, 0x3000}

  /** The code points of LineTerminator: LF, CR, LS and PS. */
  const LineTerminatorCodePoints: set<int> := {0x000A, 0x000D, 0x2028, 0x2029}

  /** A code point that trim removes. */
  predicate IsWhitespace(c: char) {
    var n := c as int;
    n == 0x0009 || n == 0x000A || n == 0x000B || n == 0x000C || n == 0x000D
    || n == 0x0020 || n == 0x00A0 || n == 0x1680 || (0x2000 <= n <= 0x200A)
    || n == 0x2028 || n == 0x2029 || n == 0x202F || n == 0x205F
    || n == 0x3000 || n == 0xFEFF
  }

  /** The code points IsWhitespace accepts are exactly those of the
      WhiteSpace and LineTerminator tables. */
  lemma WhitespaceTables(c: char)
    ensures IsWhitespace(c) <==> (c as int) in WhiteSpaceCodePoints + LineTerminatorCodePoints
  {
  }

  predicate AllWhitespace(s: string) {
    forall i :: 0 <= i < |s| ==> IsWhitespace(s[i])
  }

  /** A string that trim leaves alone: empty, or starting and ending with a
      code point that is not white space. */
  predicate IsTrimmed(s: string) {
    s == [] || (!IsWhitespace(s[0]) && !IsWhitespace(s[|s| - 1]))
  }

  /** The length of the longest all-white-space prefix of `s`. */
  function LeadingWhitespace(s: string): (n: nat)
    ensures n <= |s|
    ensures AllWhitespace(s[..n])
    ensures n < |s| ==> !IsWhitespace(s[n])
  {
    if s == [] || !IsWhitespace(s[0]) then 0
    else
      var m := LeadingWhitespace(s[1..]);
      assert s[..m + 1] == [s[0]] + s[1..][..m];
      m + 1
  }

  /** The length of the longest all-white-space suffix of `s`. */
  function TrailingWhitespace(s: string): (n: nat)
    ensures n <= |s|
    ensures AllWhitespace(s[|s| - n..])
    ensures n < |s| ==> !IsWhitespace(s[|s| - 1 - n])
  {
    if s == [] || !IsWhitespace(s[|s| - 1]) then 0
    else
      var init := s[..|s| - 1];
      var m := TrailingWhitespace(init);
      assert s[|s| - (m + 1)..] == init[|init| - m..] + [s[|s| - 1]];
      m + 1
  }

  /** String.prototype.trim: `s` without its leading and trailing white space.
      The result is empty exactly when `s` is all white space, and it is
      trimmed; TrimIsSlice and TrimOfPadded say which piece of `s` it is. */
  function Trim(s: string): (r: string)
    ensures |r| <= |s|
    ensures r == [] <==> AllWhitespace(s)
    ensures IsTrimmed(r)
  {
    var lo := LeadingWhitespace(s);
    var rest := s[lo..];
    var r := rest[..|rest| - TrailingWhitespace(rest)];
    TrimSplit(s, lo, rest, r);
    r
  }

  /** Where the piece Trim cuts out of `s` lies: only white space before it
      and after it. */
  lemma TrimSlice(s: string, lo: nat, rest: string, r: string)
    requires lo == LeadingWhitespace(s) && rest == s[lo..]
    requires r == rest[..|rest| - TrailingWhitespace(rest)]
    ensures lo + |r| <= |s| && s[lo..lo + |r|] == r
    ensures AllWhitespace(s[..lo]) && AllWhitespace(s[lo + |r|..])
  {
    SuffixParts(s, lo, lo + |r|);
  }

  /** Cutting the suffix `s[lo..]` at `hi - lo` gives `s[lo..hi]` and
      `s[hi..]`, so white space after the cut in one is white space in the
      other. */
  lemma SuffixParts(s: string, lo: nat, hi: nat)
    requires lo <= hi <= |s|
    ensures s[lo..][..hi - lo] == s[lo..hi]
    ensures AllWhitespace(s[lo..][hi - lo..]) ==> AllWhitespace(s[hi..])
  {
    assert s[lo..][hi - lo..] == s[hi..];
  }

  /** The piece Trim cuts out of `s` is trimmed, and it is empty exactly when
      `s` is all white space. */
  lemma TrimSplit(s: string, lo: nat, rest: string, r: string)
    requires lo == LeadingWhitespace(s) && rest == s[lo..]
    requires r == rest[..|rest| - TrailingWhitespace(rest)]
    ensures r == [] <==> AllWhitespace(s)
    ensures IsTrimmed(r)
  {
    var t := TrailingWhitespace(rest);
    assert |r| == |rest| - t;
    if r == [] {
      assert rest[|rest| - t..] == rest;
      assert rest == [];
      assert s == s[..lo];
    } else {
      assert r[0] == rest[0] == s[lo];
      assert r[|r| - 1] == rest[|rest| - 1 - t];
      assert !AllWhitespace(s) by {
        assert !IsWhitespace(s[lo]);
      }
    }
  }

  /** The trim of `s` is a contiguous piece of `s` with only white space
      before and after it. */
  lemma TrimIsSlice(s: string)
    ensures var r := Trim(s);
            exists lo :: 0 <= lo <= |s| - |r| && s[lo..lo + |r|] == r
                         && AllWhitespace(s[..lo]) && AllWhitespace(s[lo + |r|..])
  {
    var lo := LeadingWhitespace(s);
    var rest := s[lo..];
    var r := rest[..|rest| - TrailingWhitespace(rest)];
    TrimSlice(s, lo, rest, r);
    assert 0 <= lo <= |s| - |r| && s[lo..lo + |r|] == r
           && AllWhitespace(s[..lo]) && AllWhitespace(s[lo + |r|..]);
  }

  /** Trim leaves a string alone exactly when it has no surrounding white
      space. */
  lemma TrimOfTrimmed(s: string)
    ensures Trim(s) == s <==> IsTrimmed(s)
  {
    if s != [] && IsTrimmed(s) {
      assert LeadingWhitespace(s) == 0;
      assert s[0..] == s;
      assert TrailingWhitespace(s) == 0;
    }
  }

  /** Trimming twice is trimming once. */
  lemma TrimIdempotent(s: string)
    ensures Trim(Trim(s)) == Trim(s)
  {
    TrimOfTrimmed(Trim(s));
  }

  /** White space in front of a string that does not start with white space
      is exactly its leading white space. */
  lemma {:induction false} LeadingOfPadded(a: string, r: string)
    requires AllWhitespace(a)
    requires r == [] || !IsWhitespace(r[0])
    ensures LeadingWhitespace(a + r) == |a| + LeadingWhitespace(r)
  {
    if a != [] {
      assert (a + r)[1..] == a[1..] + r;
      LeadingOfPadded(a[1..], r);
    } else {
      assert a + r == r;
    }
  }

  /** White space after a string that does not end with white space is
      exactly its trailing white space. */
  lemma {:induction false} TrailingOfPadded(r: string, b: string)
    requires AllWhitespace(b)
    requires r == [] || !IsWhitespace(r[|r| - 1])
    ensures TrailingWhitespace(r + b) == |b| + TrailingWhitespace(r)
  {
    if b != [] {
      assert (r + b)[..|r + b| - 1] == r + b[..|b| - 1];
      TrailingOfPadded(r, b[..|b| - 1]);
    } else {
      assert r + b == r;
    }
  }

  /** Trim removes exactly the surrounding white space: a trimmed string
      padded on both sides with white space trims back to itself. Together
      with Trim's own contract this pins Trim down uniquely. */
  lemma TrimOfPadded(a: string, r: string, b: string)
    requires AllWhitespace(a) && AllWhitespace(b)
    requires r != [] && IsTrimmed(r)
    ensures Trim(a + r + b) == r
  {
    LeadingOfPadded(a, r + b);
    assert LeadingWhitespace(r + b) == 0;
    assert a + r + b == a + (r + b);
    var rest := (a + r + b)[|a|..];
    assert rest == r + b;
    TrailingOfPadded(r, b);
    assert TrailingWhitespace(r) == 0;
    assert rest[..|rest| - TrailingWhitespace(rest)] == r;
  }
}
