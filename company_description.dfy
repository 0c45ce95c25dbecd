/**
 * The "About the Company" block of the job detail page
 * (src/components/CompanyDescription.tsx): the description is cut into
 * paragraphs at blank lines, the first two are shown, and the rest appear
 * behind a "Read More" toggle. Inside a paragraph every line but the last is
 * followed by a line break.
 */
module CompanyDescription {
  import opened Sequences

  // ---------------------------------------------------------------------
  // Splitting at blank lines: `description.split(/\n\n+/)`
  // ---------------------------------------------------------------------

  /** No two consecutive newlines, i.e. no match of the separator pattern. */
  predicate NoBlankLine(s: string)
  {
    forall i :: 0 <= i < |s| - 1 ==> !(s[i] == '\n' && s[i + 1] == '\n')
  }

  /** The text after a run of newlines: the greedy `+` consumes all of them. */
  function DropNewlines(s: string): (r: string)
    ensures |r| <= |s|
    ensures s != [] && s[0] == '\n' ==> |r| < |s|
    ensures r == [] || r[0] != '\n'
  {
    if s != [] && s[0] == '\n' then DropNewlines(s[1..]) else s
  }

  /**
   * The pieces of `s` between matches of `\n\n+`, scanning from the left:
   * a match at the front ends the current piece (which is then empty) and
   * swallows the whole run of newlines; any other character joins the first
   * piece of the rest. An empty text gives one empty piece.
   */
  function SplitAtBlankLines(s: string): (pieces: seq<string>)
    ensures |pieces| >= 1
    ensures pieces[0] <= s
    decreases |s|
  {
    if |s| >= 2 && s[0] == '\n' && s[1] == '\n' then
      [""] + SplitAtBlankLines(DropNewlines(s))
    else if s == [] then
      [""]
    else
      var rest := SplitAtBlankLines(s[1..]);
      [[s[0]] + rest[0]] + rest[1..]
  }

  /** No piece contains a match of the separator. */
  lemma {:induction false} PiecesHaveNoBlankLine(s: string)
    ensures forall p :: p in SplitAtBlankLines(s) ==> NoBlankLine(p)
    decreases |s|
  {
    if |s| >= 2 && s[0] == '\n' && s[1] == '\n' {
      PiecesHaveNoBlankLine(DropNewlines(s));
    } else if s != [] {
      var rest := SplitAtBlankLines(s[1..]);
      PiecesHaveNoBlankLine(s[1..]);
      assert rest[0] in rest;
      assert rest[0] != [] ==> rest[0][0] == s[1];
      NoBlankLinePrepend(s[0], rest[0]);
      assert SplitAtBlankLines(s) == [[s[0]] + rest[0]] + rest[1..];
      forall p | p in SplitAtBlankLines(s) ensures NoBlankLine(p) {
        if p != [s[0]] + rest[0] {
          assert p in rest[1..];
        }
      }
    }
  }

  lemma NoBlankLinePrepend(c: char, t: string)
    requires NoBlankLine(t) && (c == '\n' ==> t == [] || t[0] != '\n')
    ensures NoBlankLine([c] + t)
  {
    var u := [c] + t;
    forall i | 0 <= i < |u| - 1 ensures !(u[i] == '\n' && u[i + 1] == '\n') {
      if i > 0 {
        assert u[i] == t[i - 1] && u[i + 1] == t[i];
      } else {
        assert u[0] == c && u[1] == t[0];
      }
    }
  }

  /** Pieces joined with a separator between neighbours. */
  function Join(parts: seq<string>, sep: string): string
  {
    if parts == [] then []
    else if |parts| == 1 then parts[0]
    else parts[0] + sep + Join(parts[1..], sep)
  }

  /** Reference definition: every run of three or more newlines shortened to exactly two. */
  function CollapseBlankRuns(s: string): string
  {
    if |s| >= 3 && s[0] == '\n' && s[1] == '\n' && s[2] == '\n' then CollapseBlankRuns(s[1..])
    else if s == [] then []
    else [s[0]] + CollapseBlankRuns(s[1..])
  }

  lemma {:induction false} CollapseAtRun(s: string)
    requires |s| >= 2 && s[0] == '\n' && s[1] == '\n'
    ensures CollapseBlankRuns(s) == "\n\n" + CollapseBlankRuns(DropNewlines(s))
    decreases |s|
  {
    if |s| >= 3 && s[2] == '\n' {
      assert CollapseBlankRuns(s) == CollapseBlankRuns(s[1..]);
      assert DropNewlines(s) == DropNewlines(s[1..]);
      CollapseAtRun(s[1..]);
    } else {
      var rest := s[2..];
      assert s[1..][1..] == rest;
      assert CollapseBlankRuns(s) == "\n" + CollapseBlankRuns(s[1..]);
      assert CollapseBlankRuns(s[1..]) == "\n" + CollapseBlankRuns(rest);
      assert DropNewlines(s) == DropNewlines(s[1..]);
      assert DropNewlines(s[1..]) == DropNewlines(rest);
      assert DropNewlines(rest) == rest;
    }
  }

  lemma {:induction false} JoinPrepend(c: char, parts: seq<string>, sep: string)
    requires |parts| >= 1
    ensures Join([[c] + parts[0]] + parts[1..], sep) == [c] + Join(parts, sep)
  {
    var parts' := [[c] + parts[0]] + parts[1..];
    assert parts'[1..] == parts[1..];
  }

  /**
   * The pieces are what remains of the text between runs of two or more
   * newlines: putting one blank line back between neighbours gives the text
   * with every such run shortened to one blank line.
   */
  lemma {:induction false} SplitAtBlankLinesRoundTrip(s: string)
    ensures Join(SplitAtBlankLines(s), "\n\n") == CollapseBlankRuns(s)
    decreases |s|
  {
    if |s| >= 2 && s[0] == '\n' && s[1] == '\n' {
      var d := DropNewlines(s);
      var rest := SplitAtBlankLines(d);
      assert SplitAtBlankLines(s) == [""] + rest;
      assert ([""] + rest)[1..] == rest;
      assert Join([""] + rest, "\n\n") == "" + "\n\n" + Join(rest, "\n\n");
      SplitAtBlankLinesRoundTrip(d);
      CollapseAtRun(s);
    } else if s != [] {
      var rest := SplitAtBlankLines(s[1..]);
      assert SplitAtBlankLines(s) == [[s[0]] + rest[0]] + rest[1..];
      assert CollapseBlankRuns(s) == [s[0]] + CollapseBlankRuns(s[1..]);
      SplitAtBlankLinesRoundTrip(s[1..]);
      JoinPrepend(s[0], rest, "\n\n");
    }
  }

  // ---------------------------------------------------------------------
  // `String.prototype.trim`
  // ---------------------------------------------------------------------

  /** The ECMAScript WhiteSpace and LineTerminator code points: what `trim` strips. */
  predicate IsTrimmable(c: char)
  {
    || c == '\t' || c == '\n' || c == '\U{000B}' || c == '\U{000C}' || c == '\r' || c == ' '
    || c == '\U{00A0}' || c == '\U{1680}' || ('\U{2000}' <= c <= '\U{200A}')
    || c == '\U{2028}' || c == '\U{2029}' || c == '\U{202F}' || c == '\U{205F}'
    || c == '\U{3000}' || c == '\U{FEFF}'
  }

  /** Every character of `s` is stripped by `trim`. */
  predicate AllTrimmable(s: string)
  {
    forall k :: 0 <= k < |s| ==> IsTrimmable(s[k])
  }

  /** Index of the first character at or after `i` that `trim` keeps. */
  function SkipLeading(s: string, i: nat): (k: nat)
    requires i <= |s|
    ensures i <= k <= |s|
    ensures forall m :: i <= m < k ==> IsTrimmable(s[m])
    ensures k < |s| ==> !IsTrimmable(s[k])
    decreases |s| - i
  {
    if i == |s| || !IsTrimmable(s[i]) then i else SkipLeading(s, i + 1)
  }

  /** End of the text once trailing characters are stripped, never going below `lo`. */
  function SkipTrailing(s: string, lo: nat, j: nat): (k: nat)
    requires lo <= j <= |s|
    ensures lo <= k <= j
    ensures forall m :: k <= m < j ==> IsTrimmable(s[m])
    ensures k > lo ==> !IsTrimmable(s[k - 1])
    decreases j
  {
    if j == lo || !IsTrimmable(s[j - 1]) then j else SkipTrailing(s, lo, j - 1)
  }

  /** `r` is `s` without a white-space prefix and a white-space suffix. */
  ghost predicate IsTrimmingOf(r: string, s: string)
  {
    exists i, j :: 0 <= i <= j <= |s| && r == s[i..j] && AllTrimmable(s[..i]) && AllTrimmable(s[j..])
  }

  /** `s.trim()`: the text without its leading and trailing white space. */
  function Trim(s: string): (r: string)
    ensures r == [] || (!IsTrimmable(r[0]) && !IsTrimmable(r[|r| - 1]))
    ensures r == [] <==> AllTrimmable(s)
    ensures IsTrimmingOf(r, s)
    ensures NoBlankLine(s) ==> NoBlankLine(r)
  {
    var i := SkipLeading(s, 0);
    var j := SkipTrailing(s, i, |s|);
    assert AllTrimmable(s[..i]) && AllTrimmable(s[j..]);
    assert i < |s| ==> !IsTrimmable(s[i]) && i < j;
    NoBlankLineSlice(s, i, j);
    s[i..j]
  }

  /** Trimming text that has nothing to strip leaves it as it is. */
  lemma TrimOfTrimmed(s: string)
    requires s != [] && !IsTrimmable(s[0]) && !IsTrimmable(s[|s| - 1])
    ensures Trim(s) == s
  {
  }

  /** A piece of text without a blank line has none in any part of it. */
  lemma NoBlankLineSlice(s: string, i: nat, j: nat)
    requires i <= j <= |s|
    ensures NoBlankLine(s) ==> NoBlankLine(s[i..j])
  {
    var t := s[i..j];
    if NoBlankLine(s) {
      forall k | 0 <= k < |t| - 1 ensures !(t[k] == '\n' && t[k + 1] == '\n') {
        assert t[k] == s[i + k] && t[k + 1] == s[i + k + 1];
      }
    }
  }

  // ---------------------------------------------------------------------
  // Paragraphs, preview and the rest
  // ---------------------------------------------------------------------

  /** `.filter(p => p.length > 0)`. */
  function DropEmpty(ps: seq<string>): (r: seq<string>)
    ensures forall p :: p in r ==> p != [] && p in ps
    ensures forall p :: p in ps && p != [] ==> p in r
    ensures forall p :: p != [] ==> multiset(r)[p] == multiset(ps)[p]
    ensures IsSubsequence(r, ps)
  {
    if ps == [] then []
    else
      var rest := DropEmpty(ps[1..]);
      assert ps == [ps[0]] + ps[1..];
      if ps[0] == [] then rest
      else
        assert ([ps[0]] + rest)[1..] == rest;
        [ps[0]] + rest
  }

  /** The trimmed pieces, in order. */
  function TrimAll(pieces: seq<string>): (r: seq<string>)
    ensures |r| == |pieces|
    ensures forall k :: 0 <= k < |r| ==> IsTrimmingOf(r[k], pieces[k])
    ensures forall k :: 0 <= k < |r| ==> r[k] == [] || (!IsTrimmable(r[k][0]) && !IsTrimmable(r[k][|r[k]| - 1]))
  {
    seq(|pieces|, k requires 0 <= k < |pieces| => Trim(pieces[k]))
  }

  /** `paragraphs`: split at blank lines, trim each piece, drop the empty ones. */
  function Paragraphs(description: string): (ps: seq<string>)
    ensures forall p :: p in ps ==> p != [] && !IsTrimmable(p[0]) && !IsTrimmable(p[|p| - 1])
    ensures forall p :: p in ps ==> NoBlankLine(p)
    ensures IsSubsequence(ps, TrimAll(SplitAtBlankLines(description)))
    ensures forall p :: p != [] ==> multiset(ps)[p] == multiset(TrimAll(SplitAtBlankLines(description)))[p]
    ensures |ps| <= |SplitAtBlankLines(description)|
  {
    var pieces := SplitAtBlankLines(description);
    var trimmed := TrimAll(pieces);
    PiecesHaveNoBlankLine(description);
    TrimAllKeepsNoBlankLine(pieces);
    SubsequenceIsNoLonger(DropEmpty(trimmed), trimmed);
    DropEmpty(trimmed)
  }

  lemma TrimAllKeepsNoBlankLine(pieces: seq<string>)
    requires forall p :: p in pieces ==> NoBlankLine(p)
    ensures forall p :: p in TrimAll(pieces) ==> NoBlankLine(p) && (p == [] || (!IsTrimmable(p[0]) && !IsTrimmable(p[|p| - 1])))
  {
    var trimmed := TrimAll(pieces);
    forall p | p in trimmed ensures NoBlankLine(p) && (p == [] || (!IsTrimmable(p[0]) && !IsTrimmable(p[|p| - 1]))) {
      var k :| 0 <= k < |trimmed| && trimmed[k] == p;
      assert pieces[k] in pieces;
    }
  }

  lemma {:induction false} SubsequenceIsNoLonger<T>(a: seq<T>, b: seq<T>)
    requires IsSubsequence(a, b)
    ensures |a| <= |b|
    decreases |b|
  {
    if a != [] {
      if a[0] == b[0] && IsSubsequence(a[1..], b[1..]) {
        SubsequenceIsNoLonger(a[1..], b[1..]);
      } else {
        SubsequenceIsNoLonger(a, b[1..]);
      }
    }
  }

  /** Well-formed paragraphs: non-empty, nothing to trim, no blank line inside. */
  predicate IsParagraph(p: string)
  {
    p != [] && !IsTrimmable(p[0]) && !IsTrimmable(p[|p| - 1]) && NoBlankLine(p)
  }

  lemma {:induction false} SplitWithoutBlankLine(p: string)
    requires NoBlankLine(p)
    ensures SplitAtBlankLines(p) == [p]
    decreases |p|
  {
    if p != [] {
      assert NoBlankLine(p[1..]) by {
        NoBlankLineSlice(p, 1, |p|);
      }
      assert |p| >= 2 ==> !(p[0] == '\n' && p[1] == '\n');
      SplitWithoutBlankLine(p[1..]);
      assert [p[0]] + p[1..] == p;
    }
  }

  lemma {:induction false} SplitAfterPiece(p: string, rest: string)
    requires NoBlankLine(p) && (p == [] || p[|p| - 1] != '\n')
    requires rest == [] || rest[0] != '\n'
    ensures SplitAtBlankLines(p + "\n\n" + rest) == [p] + SplitAtBlankLines(rest)
    decreases |p|
  {
    var s := p + "\n\n" + rest;
    if p == [] {
      assert s == "\n\n" + rest;
      assert s[1..][1..] == rest;
      assert DropNewlines(rest) == rest;
      assert DropNewlines(s) == DropNewlines(s[1..]) == DropNewlines(s[1..][1..]);
      assert SplitAtBlankLines(s) == [""] + SplitAtBlankLines(DropNewlines(s));
    } else {
      var p' := p[1..];
      NoBlankLineSlice(p, 1, |p|);
      assert s[0] == p[0];
      assert s[1..] == p' + "\n\n" + rest;
      assert !(s[0] == '\n' && s[1] == '\n') by {
        if p[0] == '\n' {
          assert |p| >= 2;
          assert s[1] == p[1];
        }
      }
      SplitAfterPiece(p', rest);
      var r := SplitAtBlankLines(s[1..]);
      assert r == [p'] + SplitAtBlankLines(rest);
      assert SplitAtBlankLines(s) == [[s[0]] + r[0]] + r[1..];
      assert r[0] == p' && r[1..] == SplitAtBlankLines(rest);
      assert [s[0]] + p' == p;
    }
  }

  /** Splitting text made of paragraphs joined by blank lines gives those paragraphs back. */
  lemma {:induction false} SplitJoinedParagraphs(ps: seq<string>)
    requires |ps| >= 1 && forall k :: 0 <= k < |ps| ==> IsParagraph(ps[k])
    ensures SplitAtBlankLines(Join(ps, "\n\n")) == ps
  {
    if |ps| == 1 {
      SplitWithoutBlankLine(ps[0]);
    } else {
      SplitJoinedParagraphs(ps[1..]);
      var tail := Join(ps[1..], "\n\n");
      assert tail[0] == ps[1][0] by {
        JoinStartsWithFirst(ps[1..], "\n\n");
      }
      SplitAfterPiece(ps[0], tail);
      assert Join(ps, "\n\n") == ps[0] + "\n\n" + tail;
      assert ps == [ps[0]] + ps[1..];
    }
  }

  lemma {:induction false} JoinStartsWithFirst(parts: seq<string>, sep: string)
    requires |parts| >= 1 && parts[0] != []
    ensures Join(parts, sep) != [] && Join(parts, sep)[0] == parts[0][0]
  {
  }

  /**
   * Round trip: paragraphs written out with a blank line between them are
   * read back as exactly those paragraphs, in order.
   */
  lemma ParagraphsOfJoinedParagraphs(ps: seq<string>)
    requires forall k :: 0 <= k < |ps| ==> IsParagraph(ps[k])
    ensures Paragraphs(Join(ps, "\n\n")) == ps
  {
    if ps == [] {
      EmptyDescriptionHasNoParagraphs();
    } else {
      NonEmptyParagraphsRoundTrip(ps);
    }
  }

  lemma EmptyDescriptionHasNoParagraphs()
    ensures Paragraphs("") == []
  {
    assert SplitAtBlankLines("") == [""];
    assert TrimAll([""]) == [""];
  }

  lemma NonEmptyParagraphsRoundTrip(ps: seq<string>)
    requires |ps| >= 1 && forall k :: 0 <= k < |ps| ==> IsParagraph(ps[k])
    ensures Paragraphs(Join(ps, "\n\n")) == ps
  {
    SplitJoinedParagraphs(ps);
    TrimAllOfParagraphs(ps);
    DropEmptyOfNonEmpty(ps);
    calc {
      Paragraphs(Join(ps, "\n\n"));
      DropEmpty(TrimAll(SplitAtBlankLines(Join(ps, "\n\n"))));
      DropEmpty(TrimAll(ps));
      ps;
    }
  }

  lemma TrimAllOfParagraphs(ps: seq<string>)
    requires forall k :: 0 <= k < |ps| ==> IsParagraph(ps[k])
    ensures TrimAll(ps) == ps
  {
    forall k | 0 <= k < |ps| ensures TrimAll(ps)[k] == ps[k] {
      TrimOfTrimmed(ps[k]);
    }
  }

  lemma {:induction false} DropEmptyOfNonEmpty(ps: seq<string>)
    requires forall k :: 0 <= k < |ps| ==> ps[k] != []
    ensures DropEmpty(ps) == ps
  {
    if ps != [] {
      DropEmptyOfNonEmpty(ps[1..]);
    }
  }

  /** `paragraphs.slice(0, 2)`. */
  function Preview(ps: seq<string>): (r: seq<string>)
    ensures r <= ps
    ensures |r| == if |ps| < 2 then |ps| else 2
  {
    if |ps| < 2 then ps else ps[..2]
  }

  /** `paragraphs.slice(2)`: together with the preview, the full list. */
  function Remaining(ps: seq<string>): (r: seq<string>)
    ensures Preview(ps) + r == ps
  {
    if |ps| < 2 then [] else ps[2..]
  }

  /** `hasMore`: some paragraph is hidden while collapsed. */
  function HasMore(ps: seq<string>): (b: bool)
    ensures b <==> |ps| > 2
  {
    |Remaining(ps)| > 0
  }

  // ---------------------------------------------------------------------
  // Lines inside a paragraph
  // ---------------------------------------------------------------------

  /** `paragraph.split('\n')`. */
  function SplitLines(p: string): (lines: seq<string>)
    ensures |lines| >= 1
    ensures forall l :: l in lines ==> '\n' !in l
  {
    if p == [] then [""]
    else
      var rest := SplitLines(p[1..]);
      if p[0] == '\n' then [""] + rest
      else [[p[0]] + rest[0]] + rest[1..]
  }

  /** The lines, put back together with newlines, are the paragraph. */
  lemma {:induction false} SplitLinesRoundTrip(p: string)
    ensures Join(SplitLines(p), "\n") == p
  {
    if p != [] {
      var rest := SplitLines(p[1..]);
      SplitLinesRoundTrip(p[1..]);
      if p[0] == '\n' {
        assert ([""] + rest)[1..] == rest;
        assert p == [p[0]] + p[1..];
      } else {
        JoinPrepend(p[0], rest, "\n");
        assert p == [p[0]] + p[1..];
      }
    }
  }

  /** One rendered line: its text and whether a `<br />` follows it. */
  datatype LineSpan = LineSpan(text: string, br: bool)

  /** A paragraph as rendered: each line, with a break unless it is the last. */
  function RenderParagraph(p: string): seq<LineSpan>
  {
    var lines := SplitLines(p);
    seq(|lines|, i requires 0 <= i < |lines| => LineSpan(lines[i], i < |lines| - 1))
  }

  /** Number of line breaks rendered. */
  function BreakCount(spans: seq<LineSpan>): nat
  {
    if spans == [] then 0 else (if spans[0].br then 1 else 0) + BreakCount(spans[1..])
  }

  /** What a reader sees: each line's text, a break becoming a newline. */
  function VisibleText(spans: seq<LineSpan>): string
  {
    if spans == [] then [] else spans[0].text + (if spans[0].br then "\n" else "") + VisibleText(spans[1..])
  }

  lemma {:induction false} BreakCountOfLastless(spans: seq<LineSpan>)
    requires |spans| >= 1
    requires forall i :: 0 <= i < |spans| ==> (spans[i].br <==> i < |spans| - 1)
    ensures BreakCount(spans) == |spans| - 1
  {
    if |spans| > 1 {
      var tail := spans[1..];
      assert forall i :: 0 <= i < |tail| ==> tail[i] == spans[i + 1];
      BreakCountOfLastless(tail);
    }
  }

  lemma {:induction false} VisibleTextOfLines(lines: seq<string>, spans: seq<LineSpan>)
    requires |lines| >= 1 && |spans| == |lines|
    requires forall i :: 0 <= i < |spans| ==> spans[i] == LineSpan(lines[i], i < |lines| - 1)
    ensures VisibleText(spans) == Join(lines, "\n")
  {
    if |lines| > 1 {
      var tail := spans[1..];
      assert forall i :: 0 <= i < |tail| ==> tail[i] == spans[i + 1];
      VisibleTextOfLines(lines[1..], tail);
    }
  }

  /**
   * Within a paragraph a break goes between consecutive lines and not after
   * the last, so there is one break fewer than lines, and the rendered lines
   * read as the paragraph itself.
   */
  lemma LineBreaksBetweenLines(p: string)
    ensures BreakCount(RenderParagraph(p)) == |SplitLines(p)| - 1
    ensures !RenderParagraph(p)[|RenderParagraph(p)| - 1].br
    ensures VisibleText(RenderParagraph(p)) == p
  {
    BreakCountOfLastless(RenderParagraph(p));
    VisibleTextOfLines(SplitLines(p), RenderParagraph(p));
    SplitLinesRoundTrip(p);
  }

  // ---------------------------------------------------------------------
  // The component's state
  // ---------------------------------------------------------------------

  /** The rendered component: its paragraphs and the `isExpanded` flag. */
  class DescriptionView {
    const paragraphs: seq<string>
    var isExpanded: bool

    /** Mounting: the paragraphs of the description, collapsed. */
    constructor (description: string)
      ensures paragraphs == Paragraphs(description) && !isExpanded
    {
      paragraphs := Paragraphs(description);
      isExpanded := false;
    }

    /** Whether the "Read More" / "Show Less" button is rendered. */
    function ShowsButton(): (b: bool)
      ensures b <==> |paragraphs| > 2
    {
      HasMore(paragraphs)
    }

    /** The paragraphs on screen, in order: the preview, then the rest when expanded. */
    function Shown(): (r: seq<string>)
      reads this
      ensures !isExpanded ==> r == Preview(paragraphs)
      ensures isExpanded ==> r == paragraphs
      ensures r <= paragraphs
    {
      Preview(paragraphs) + (if isExpanded then Remaining(paragraphs) else [])
    }

    /** The button's click handler; the button exists only when there is more to show. */
    method ClickToggle()
      requires ShowsButton()
      modifies this
      ensures isExpanded == !old(isExpanded)
    {
      isExpanded := !isExpanded;
    }
  }

  /** Collapsed, every paragraph is on screen exactly when there is no button. */
  lemma CollapsedShowsAllIffNoButton(v: DescriptionView)
    requires !v.isExpanded
    ensures v.Shown() == v.paragraphs <==> !v.ShowsButton()
  {
    if v.ShowsButton() {
      assert |v.Shown()| == 2 < |v.paragraphs|;
    }
  }
}
