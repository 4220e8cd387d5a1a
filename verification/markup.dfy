/** The text normaliser of `src/models.rs`: `strip_html`, which removes tags
    from a cell's markup, and `get_inner_html`, which cuts an element's
    serialised markup down to what lies between its opening and closing tags. */
module Markup {
  import opened Text

  // ---------------------------------------------------------------------------
  // strip_html
  // ---------------------------------------------------------------------------

  /** The loop of `strip_html` from a given value of its `inside` flag: `<`
      raises the flag, `>` lowers it, both are always dropped, and any other
      character is kept exactly when the flag is down. */
  function Scan(s: string, inside: bool): (r: string)
    ensures |r| <= |s|
    ensures '<' !in r && '>' !in r
    ensures IsSubsequence(r, s)
    decreases |s|
  {
    if |s| == 0 then []
    else if s[0] == '<' then Scan(s[1..], true)
    else if s[0] == '>' then Scan(s[1..], false)
    else if inside then Scan(s[1..], inside)
    else [s[0]] + Scan(s[1..], inside)
  }

  /** The value of the `inside` flag once the loop has consumed `s`. */
  function ScanState(s: string, inside: bool): (r: bool)
    ensures '<' !in s && '>' !in s ==> r == inside
    ensures |s| > 0 && s[|s| - 1] == '<' ==> r
    ensures |s| > 0 && s[|s| - 1] == '>' ==> !r
    decreases |s|
  {
    if |s| == 0 then inside
    else ScanState(s[1..], if s[0] == '<' then true else if s[0] == '>' then false else inside)
  }

  function StripHtml(html: string): (r: string)
    ensures '<' !in r && '>' !in r
    ensures IsSubsequence(r, html)
  {
    Scan(html, false)
  }

  /** After reading `prefix`, the reader is inside a tag: some `<` in it has
      no `>` after it. */
  ghost predicate InsideTag(prefix: string) {
    exists i :: 0 <= i < |prefix| && prefix[i] == '<' && '>' !in prefix[i + 1..]
  }

  /** The visible text of `s`, position by position: a character survives when
      it is not an angle bracket and does not sit inside a tag. This is the
      meaning of tag stripping, stated without the scanner's flag. */
  ghost function Visible(s: string): string
    decreases |s|
  {
    if |s| == 0 then []
    else
      var k := |s| - 1;
      Visible(s[..k]) + (if s[k] == '<' || s[k] == '>' || InsideTag(s[..k]) then [] else [s[k]])
  }

  /** Feeding one more character to the loop appends at most that character. */
  lemma {:induction false} ScanSnoc(p: string, c: char, inside: bool)
    ensures Scan(p + [c], inside)
         == Scan(p, inside) + (if c == '<' || c == '>' || ScanState(p, inside) then [] else [c])
    ensures ScanState(p + [c], inside)
         == if c == '<' then true else if c == '>' then false else ScanState(p, inside)
    decreases |p|
  {
    if |p| == 0 {
      assert p + [c] == [c];
    } else {
      assert (p + [c])[1..] == p[1..] + [c];
      ScanSnoc(p[1..], c, if p[0] == '<' then true else if p[0] == '>' then false else inside);
    }
  }

  lemma InsideTagSnoc(p: string, c: char)
    ensures InsideTag(p + [c]) <==> c == '<' || (c != '>' && InsideTag(p))
  {
    var s := p + [c];
    if c == '<' {
      assert s[|p|] == '<' && s[|p| + 1..] == [];
      assert InsideTag(s);
    } else if c != '>' && InsideTag(p) {
      var i :| 0 <= i < |p| && p[i] == '<' && '>' !in p[i + 1..];
      assert s[i + 1..] == p[i + 1..] + [c];
      assert s[i] == '<';
      assert InsideTag(s);
    }
    if InsideTag(s) && c != '<' {
      var i :| 0 <= i < |s| && s[i] == '<' && '>' !in s[i + 1..];
      assert i < |p|;
      assert s[i + 1..] == p[i + 1..] + [c];
      assert c in s[i + 1..];
      assert p[i] == '<';
      assert '>' !in p[i + 1..];
      assert InsideTag(p);
    }
  }

  /** The loop's flag, started down, is up exactly when the input read so far
      leaves the reader inside a tag. */
  lemma {:induction false} ScanStateIsInsideTag(s: string)
    ensures ScanState(s, false) == InsideTag(s)
    decreases |s|
  {
    if |s| > 0 {
      var p, c := s[..|s| - 1], s[|s| - 1];
      assert s == p + [c];
      ScanSnoc(p, c, false);
      ScanStateIsInsideTag(p);
      InsideTagSnoc(p, c);
    }
  }

  /** `strip_html` keeps exactly the visible characters, in order. */
  lemma {:induction false} StripHtmlIsVisible(s: string)
    ensures StripHtml(s) == Visible(s)
    decreases |s|
  {
    if |s| > 0 {
      var p, c := s[..|s| - 1], s[|s| - 1];
      assert s == p + [c];
      ScanSnoc(p, c, false);
      ScanStateIsInsideTag(p);
      StripHtmlIsVisible(p);
    }
  }

  lemma {:induction false} ScanIdentity(s: string)
    requires '<' !in s && '>' !in s
    ensures Scan(s, false) == s
    ensures !ScanState(s, false)
    decreases |s|
  {
    if |s| > 0 {
      assert '<' !in s[1..] && '>' !in s[1..];
      ScanIdentity(s[1..]);
    }
  }

  /** Text without angle brackets passes through untouched. */
  lemma StripHtmlIdentity(s: string)
    requires '<' !in s && '>' !in s
    ensures StripHtml(s) == s
  {
    ScanIdentity(s);
  }

  /** The loop over a concatenation is the loop over each part, the second
      started from the flag the first left behind. */
  lemma {:induction false} ScanAppend(a: string, b: string, inside: bool)
    ensures Scan(a + b, inside) == Scan(a, inside) + Scan(b, ScanState(a, inside))
    ensures ScanState(a + b, inside) == ScanState(b, ScanState(a, inside))
    decreases |a|
  {
    if |a| > 0 {
      var next := if a[0] == '<' then true else if a[0] == '>' then false else inside;
      assert (a + b)[0] == a[0] && (a + b)[1..] == a[1..] + b;
      ScanAppend(a[1..], b, next);
    } else {
      assert a + b == b;
    }
  }

  /** The tags around a table cell's text are removed and the text kept. */
  lemma StripHtmlOfCell(text: string)
    requires '<' !in text && '>' !in text
    ensures StripHtml("<td>" + text + "</td>") == text
  {
    ScanAppend("<td>", text, false);
    ScanIdentity(text);
    ScanAppend("<td>" + text, "</td>", false);
  }

  /** Stripping twice is stripping once. */
  lemma StripHtmlIdempotent(s: string)
    ensures StripHtml(StripHtml(s)) == StripHtml(s)
  {
    StripHtmlIdentity(StripHtml(s));
  }

  /** Every angle bracket is dropped, even a `>` that closes no tag. */
  lemma StrayCloseDropped()
    ensures StripHtml("a>b") == "ab"
  {
    assert Scan("a>b"[1..], false) == Scan("b", false);
  }

  // ---------------------------------------------------------------------------
  // get_inner_html
  // ---------------------------------------------------------------------------

  /** One loop of `get_inner_html` from a given value of its `pass` flag:
      characters are skipped until the first `c`, which is dropped and raises
      the flag; from then on every character is kept. */
  function KeepAfterFirst(s: string, c: char, pass: bool): (r: string)
    ensures pass ==> r == s
    ensures !pass && c !in s ==> r == []
    ensures !pass ==> forall i :: 0 <= i < |s| && s[i] == c && c !in s[..i] ==> r == s[i + 1..]
    decreases |s|
  {
    if |s| == 0 then []
    else if !pass && s[0] == c then KeepAfterFirst(s[1..], c, true)
    else
      var rest := KeepAfterFirst(s[1..], c, pass);
      assert forall i :: 1 <= i < |s| && c !in s[..i] ==> c !in s[1..][..i - 1] by {
        forall i | 1 <= i < |s| && c !in s[..i] ensures c !in s[1..][..i - 1] {
          assert s[1..][..i - 1] == s[1..i];
        }
      }
      if pass then [s[0]] + rest else rest
  }

  /** Whatever the flag, the loop returns a suffix of its input. */
  lemma {:induction false} KeepAfterFirstIsSuffix(s: string, c: char, pass: bool)
    ensures var r := KeepAfterFirst(s, c, pass); |r| <= |s| && r == s[|s| - |r|..]
    decreases |s|
  {
    if |s| > 0 {
      KeepAfterFirstIsSuffix(s[1..], c, if !pass && s[0] == c then true else pass);
    }
  }

  /** The second loop of `get_inner_html`, run over the reversed text and
      reversed back: drop the last `<` and everything after it. */
  function KeepBeforeLast(t: string): (r: string)
    ensures |r| <= |t| && r == t[..|r|]
  {
    var u := Reverse(t);
    var v := KeepAfterFirst(u, '<', false);
    KeepAfterFirstIsSuffix(u, '<', false);
    ReverseOfReversedSuffix(t, |v|);
    Reverse(v)
  }

  /** Reversing a suffix of the reversal gives back a prefix. */
  lemma ReverseOfReversedSuffix(t: string, n: nat)
    requires n <= |t|
    ensures Reverse(Reverse(t)[|t| - n..]) == t[..n]
  {
    var v := Reverse(t)[|t| - n..];
    forall m | 0 <= m < n ensures Reverse(v)[m] == t[m] {
      assert Reverse(v)[m] == v[n - 1 - m] == Reverse(t)[|t| - 1 - m];
    }
  }

  lemma KeepBeforeLastCut(t: string, j: nat)
    requires j < |t| && t[j] == '<' && '<' !in t[j + 1..]
    ensures KeepBeforeLast(t) == t[..j]
  {
    var u := Reverse(t);
    var i := |t| - 1 - j;
    assert u[i] == '<';
    assert '<' !in u[..i] by {
      forall k | 0 <= k < i ensures u[..i][k] != '<' {
        assert u[..i][k] == t[|t| - 1 - k] == t[j + 1..][|t| - 1 - k - (j + 1)];
      }
    }
    assert KeepAfterFirst(u, '<', false) == u[i + 1..];
    ReverseOfReversedSuffix(t, j);
  }

  lemma KeepBeforeLastNone(t: string)
    requires '<' !in t
    ensures KeepBeforeLast(t) == []
  {
    var u := Reverse(t);
    assert '<' !in u by {
      forall k | 0 <= k < |u| ensures u[k] != '<' {
        assert u[k] == t[|t| - 1 - k];
      }
    }
  }

  /** `get_inner_html` on an element's serialised markup. */
  function GetInnerHtml(html: string): (r: string)
    ensures NoEdgeWhitespace(r)
  {
    Trim(KeepBeforeLast(KeepAfterFirst(html, '>', false)))
  }

  /** The last `<` of `html` past position `k` is the last `<` of the
      suffix from `k`. */
  lemma LastOpenInSuffix(html: string, k: nat, j: nat)
    requires k <= j < |html|
    requires html[j] == '<' && '<' !in html[j + 1..]
    ensures KeepBeforeLast(html[k..]) == html[k..j]
  {
    var t := html[k..];
    assert t[j - k] == '<';
    assert t[j - k + 1..] == html[j + 1..];
    KeepBeforeLastCut(t, j - k);
    assert t[..j - k] == html[k..j];
  }

  /** With the opening tag ending at `i` (the first `>`) and the closing tag
      starting at `j` (the last `<`, after `i`), the result is the trimmed text
      strictly between them, nested markup included. */
  lemma InnerHtmlBetween(html: string, i: nat, j: nat)
    requires i < j < |html|
    requires html[i] == '>' && '>' !in html[..i]
    requires html[j] == '<' && '<' !in html[j + 1..]
    ensures GetInnerHtml(html) == Trim(html[i + 1..j])
  {
    assert KeepAfterFirst(html, '>', false) == html[i + 1..];
    LastOpenInSuffix(html, i + 1, j);
  }

  /** Without any `>` there is no opening tag to cut, and nothing is returned. */
  lemma InnerHtmlWithoutTagEnd(html: string)
    requires '>' !in html
    ensures GetInnerHtml(html) == []
  {
    KeepBeforeLastNone([]);
    TrimIdentity([]);
  }

  /** Without a `<` after the first `>` there is no closing tag, and nothing
      is returned. */
  lemma InnerHtmlWithoutClosingTag(html: string, i: nat)
    requires i < |html| && html[i] == '>' && '>' !in html[..i]
    requires '<' !in html[i + 1..]
    ensures GetInnerHtml(html) == []
  {
    KeepBeforeLastNone(html[i + 1..]);
    TrimIdentity([]);
  }

  /** For an element serialised as opening tag, content, closing tag, the
      result is the trimmed content, whatever markup the content holds. */
  lemma InnerHtmlOfElement(open: string, content: string, close: string)
    requires |open| > 0 && open[|open| - 1] == '>' && '>' !in open[..|open| - 1]
    requires |close| > 0 && close[0] == '<' && '<' !in close[1..]
    ensures GetInnerHtml(open + content + close) == Trim(content)
  {
    var html := open + content + close;
    var i, j := |open| - 1, |open| + |content|;
    assert html[i] == '>' && html[..i] == open[..i];
    assert html[j] == '<' && html[j + 1..] == close[1..];
    assert html[i + 1..j] == content;
    InnerHtmlBetween(html, i, j);
  }

  /** Round trip: wrapping content that has no edge whitespace in a table
      cell and extracting it again gives the content back verbatim, nested
      tags included (`<td>some <b>bold</b> text</td>` yields
      `some <b>bold</b> text`). */
  lemma InnerHtmlOfCell(content: string)
    requires NoEdgeWhitespace(content)
    ensures GetInnerHtml("<td>" + content + "</td>") == content
  {
    assert "<td>"[..3] == "<td" && "</td>"[1..] == "/td>";
    InnerHtmlOfElement("<td>", content, "</td>");
    TrimIdentity(content);
  }

  /** A bold element gives back its text. */
  lemma InnerHtmlOfBold(x: string)
    requires NoEdgeWhitespace(x)
    ensures GetInnerHtml("<b>" + x + "</b>") == x
  {
    assert "<b>"[..2] == "<b" && "</b>"[1..] == "/b>";
    InnerHtmlOfElement("<b>", x, "</b>");
    TrimIdentity(x);
  }

  /** Extraction is not idempotent: nested markup kept by the first call is
      cut by a second one. */
  lemma InnerHtmlNotIdempotent(x: string, inner: string)
    requires NoEdgeWhitespace(x) && inner == "<b>" + x + "</b>"
    ensures GetInnerHtml("<td>" + inner + "</td>") == inner
    ensures GetInnerHtml(GetInnerHtml("<td>" + inner + "</td>")) == x != inner
  {
    assert inner[0] == '<' && inner[|inner| - 1] == '>';
    InnerHtmlOfCell(inner);
    InnerHtmlOfBold(x);
  }

  /** Nor is it idempotent on a plain cell: the text the first call returns
      has no `>` to end an opening tag, so a second call returns nothing. */
  lemma InnerHtmlOfPlainCellNotIdempotent(x: string)
    requires NoEdgeWhitespace(x) && |x| > 0 && '>' !in x
    ensures GetInnerHtml("<td>" + x + "</td>") == x
    ensures GetInnerHtml(GetInnerHtml("<td>" + x + "</td>")) == [] != x
  {
    InnerHtmlOfCell(x);
    InnerHtmlWithoutTagEnd(x);
  }
}
