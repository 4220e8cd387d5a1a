/** The parts of Rust's `str` API the scraper relies on, over `seq<char>`:
    `trim`, `contains` with a string pattern, `replace(c, "")`, and reversal
    of a character sequence. */
module Text {

  /** The 25 code points with the Unicode White_Space property, listed one by one. */
  const WhiteSpaceTable: set<char> := {
    '\t', '\n', '\U{0B}', '\U{0C}', '\r', ' ', '\U{85}', '\U{A0}', '\U{1680}',
    '\U{2000}', '\U{2001}', '\U{2002}', '\U{2003}', '\U{2004}', '\U{2005}',
    '\U{2006}', '\U{2007}', '\U{2008}', '\U{2009}', '\U{200A}',
    '\U{2028}', '\U{2029}', '\U{202F}', '\U{205F}', '\U{3000}'
  }

  /** Rust's `char::is_whitespace`: the Unicode White_Space code points,
      written as ranges. */
  predicate IsWhitespace(c: char)
    ensures IsWhitespace(c) <==> c in WhiteSpaceTable
  {
    || ('\t' <= c <= '\r')
    || c == ' '
    || c == '\U{85}'
    || c == '\U{A0}'
    || c == '\U{1680}'
    || ('\U{2000}' <= c <= '\U{200A}')
    || c == '\U{2028}'
    || c == '\U{2029}'
    || c == '\U{202F}'
    || c == '\U{205F}'
    || c == '\U{3000}'
  }

  ghost predicate AllWhitespace(s: string) {
    forall i :: 0 <= i < |s| ==> IsWhitespace(s[i])
  }

  /** Neither the first nor the last character is whitespace. */
  predicate NoEdgeWhitespace(s: string) {
    |s| > 0 ==> !IsWhitespace(s[0]) && !IsWhitespace(s[|s| - 1])
  }

  /** `r` is `s` with a whitespace run of length `a` cut from the front and a
      whitespace run cut from the back, and nothing more can be cut. */
  ghost predicate TrimmedAt(s: string, a: int, r: string) {
    && 0 <= a <= a + |r| <= |s|
    && r == s[a..a + |r|]
    && AllWhitespace(s[..a])
    && AllWhitespace(s[a + |r|..])
    && NoEdgeWhitespace(r)
  }

  function TrimStart(s: string): (r: string)
    ensures |r| <= |s| && r == s[|s| - |r|..]
    ensures AllWhitespace(s[..|s| - |r|])
    ensures |r| > 0 ==> !IsWhitespace(r[0])
    decreases |s|
  {
    if |s| > 0 && IsWhitespace(s[0]) then
      var r := TrimStart(s[1..]);
      WhitespaceRunExtends(s, r);
      r
    else
      s
  }

  /** A whitespace run cut after a leading whitespace character extends to
      cover that character. */
  lemma WhitespaceRunExtends(s: string, r: string)
    requires |s| > 0 && IsWhitespace(s[0])
    requires |r| <= |s| - 1 && r == s[1..][|s| - 1 - |r|..] && AllWhitespace(s[1..][..|s| - 1 - |r|])
    ensures r == s[|s| - |r|..] && AllWhitespace(s[..|s| - |r|])
  {
    forall i | 1 <= i < |s| - |r| ensures IsWhitespace(s[i]) {
      assert s[i] == s[1..][..|s| - 1 - |r|][i - 1];
    }
  }

  function TrimEnd(s: string): (r: string)
    ensures |r| <= |s| && r == s[..|r|]
    ensures AllWhitespace(s[|r|..])
    ensures |r| > 0 ==> !IsWhitespace(r[|r| - 1])
    decreases |s|
  {
    if |s| > 0 && IsWhitespace(s[|s| - 1]) then
      var r := TrimEnd(s[..|s| - 1]);
      assert s[|r|..] == s[..|s| - 1][|r|..] + [s[|s| - 1]];
      r
    else
      s
  }

  /** Rust's `str::trim`. */
  function Trim(s: string): (r: string)
    ensures exists a :: TrimmedAt(s, a, r)
  {
    var t := TrimStart(s);
    var r := TrimEnd(t);
    TrimmedFromParts(s, t, r);
    r
  }

  /** Cutting a whitespace run from the front and then one from the back
      leaves the two edges as `TrimmedAt` describes them. */
  lemma TrimmedFromParts(s: string, t: string, r: string)
    requires |t| <= |s| && t == s[|s| - |t|..] && AllWhitespace(s[..|s| - |t|])
    requires |t| > 0 ==> !IsWhitespace(t[0])
    requires |r| <= |t| && r == t[..|r|] && AllWhitespace(t[|r|..])
    requires |r| > 0 ==> !IsWhitespace(r[|r| - 1])
    ensures TrimmedAt(s, |s| - |t|, r)
  {
    var a := |s| - |t|;
    assert r == s[a..a + |r|];
    assert s[a + |r|..] == t[|r|..];
    if |r| > 0 {
      assert r[0] == t[0];
    }
  }

  /** Every character outside the kept part is whitespace. */
  lemma TrimmedEdges(s: string, a: int, r: string)
    requires TrimmedAt(s, a, r)
    ensures forall k :: 0 <= k < a ==> IsWhitespace(s[k])
    ensures forall k :: a + |r| <= k < |s| ==> IsWhitespace(s[k])
  {
    forall k | 0 <= k < a ensures IsWhitespace(s[k]) {
      assert s[..a][k] == s[k];
    }
    forall k | a + |r| <= k < |s| ensures IsWhitespace(s[k]) {
      assert s[a + |r|..][k - a - |r|] == s[k];
    }
  }

  /** Trimming leaves nothing exactly when the whole string is whitespace. */
  lemma TrimmedEmptyIffBlank(s: string, a: int, r: string)
    requires TrimmedAt(s, a, r)
    ensures |r| == 0 <==> AllWhitespace(s)
  {
    TrimmedEdges(s, a, r);
    if |r| > 0 {
      assert s[a] == r[0];
    }
  }

  /** Trimming has exactly one possible outcome: any way of cutting edge
      whitespace until none is left yields `Trim(s)`. */
  lemma TrimUnique(s: string, a: int, r: string)
    requires TrimmedAt(s, a, r)
    ensures r == Trim(s)
  {
    var t := Trim(s);
    var b :| TrimmedAt(s, b, t);
    TrimmedEmptyIffBlank(s, a, r);
    TrimmedEmptyIffBlank(s, b, t);
    if |r| > 0 {
      TrimmedEdges(s, a, r);
      TrimmedEdges(s, b, t);
      assert s[a] == r[0] && s[b] == t[0];
      assert a == b;
      assert s[a + |r| - 1] == r[|r| - 1] && s[b + |t| - 1] == t[|t| - 1];
      assert |r| == |t|;
    }
  }

  /** Trimming a string with no edge whitespace leaves it as it is. */
  lemma TrimIdentity(s: string)
    requires NoEdgeWhitespace(s)
    ensures Trim(s) == s
  {
    assert TrimmedAt(s, 0, s);
    TrimUnique(s, 0, s);
  }

  /** `s` read back to front, as `chars().rev()` yields it. */
  function Reverse(s: string): (r: string)
    ensures |r| == |s|
    ensures forall i :: 0 <= i < |s| ==> r[i] == s[|s| - 1 - i]
  {
    seq(|s|, i requires 0 <= i < |s| => s[|s| - 1 - i])
  }

  /** Reading back to front twice restores the order. */
  lemma ReverseInvolution(s: string)
    ensures Reverse(Reverse(s)) == s
  {
    var r := Reverse(s);
    forall i | 0 <= i < |s| ensures Reverse(r)[i] == s[i] {
      assert Reverse(r)[i] == r[|s| - 1 - i];
    }
  }

  /** `pattern` occurs in `s` starting at position `i`. */
  ghost predicate OccursAt(s: string, pattern: string, i: int) {
    0 <= i && i + |pattern| <= |s| && s[i..i + |pattern|] == pattern
  }

  /** Rust's `str::contains` with a string pattern: is `pattern` a prefix of
      some suffix of `s`? */
  predicate Contains(s: string, pattern: string)
    ensures Contains(s, pattern) ==> |pattern| <= |s|
    decreases |s|
  {
    || (|pattern| <= |s| && s[..|pattern|] == pattern)
    || (|s| > 0 && Contains(s[1..], pattern))
  }

  /** `Contains` holds exactly when the pattern occurs at some position. */
  lemma {:induction false} ContainsIffOccurs(s: string, pattern: string)
    ensures Contains(s, pattern) <==> exists i :: OccursAt(s, pattern, i)
    decreases |s|
  {
    if |pattern| <= |s| && s[..|pattern|] == pattern {
      assert OccursAt(s, pattern, 0);
    } else if |s| == 0 {
    } else {
      ContainsIffOccurs(s[1..], pattern);
      if i :| OccursAt(s[1..], pattern, i) {
        assert s[1..][i..i + |pattern|] == s[i + 1..i + 1 + |pattern|];
        assert OccursAt(s, pattern, i + 1);
      }
      if i :| OccursAt(s, pattern, i) {
        assert i != 0;
        assert s[1..][i - 1..i - 1 + |pattern|] == s[i..i + |pattern|];
        assert OccursAt(s[1..], pattern, i - 1);
      }
    }
  }

  /** `b` can be turned into `a` by deleting characters. */
  ghost predicate IsSubsequence(a: string, b: string)
    decreases |b|
  {
    || |a| == 0
    || (|b| > 0 && ((a[0] == b[0] && IsSubsequence(a[1..], b[1..])) || IsSubsequence(a, b[1..])))
  }

  /** Rust's `s.replace(c, "")` for a one-character pattern: every `c` is
      deleted and everything else is kept, in order. */
  function RemoveAll(s: string, c: char): (r: string)
    ensures c !in r
    ensures IsSubsequence(r, s)
    ensures forall x :: x != c ==> multiset(r)[x] == multiset(s)[x]
    decreases |s|
  {
    if |s| == 0 then []
    else
      var rest := RemoveAll(s[1..], c);
      assert s == [s[0]] + s[1..];
      if s[0] == c then rest else [s[0]] + rest
  }
}
