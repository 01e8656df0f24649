/** Multi-keyword highlighting (`HIGHLIGHT_COLORS`, `getHighlightColor`,
    `highlightText`). Each keyword, folded by `normalizeTurkish`, is used as
    a literal pattern matched ignoring case, and every match is wrapped in a
    `<mark>` element whose background is the keyword's palette colour. The
    keywords are applied one after another, each to the previous output. */
module Highlight {
  import opened Strings
  import opened Normalize

  /** The eight highlight colours, in keyword order. */
  const Palette: seq<string> :=
    ["#FBBF24", "#34D399", "#60A5FA", "#F87171", "#A78BFA", "#FB923C", "#EC4899", "#14B8A6"]

  /** `getHighlightColor(index)`: the palette, cycled. */
  function HighlightColor(index: nat): (color: string)
    ensures color in Palette
  {
    Palette[index % |Palette|]
  }

  /** Colours repeat every eight keywords. */
  lemma ColorPeriodic(index: nat)
    ensures HighlightColor(index + 8) == HighlightColor(index)
  {
  }

  /** The palette's colours are pairwise different. */
  lemma PaletteDistinct()
    ensures forall x, y :: 0 <= x < y < |Palette| ==> Palette[x] != Palette[y]
  {
    forall x, y | 0 <= x < y < |Palette| ensures Palette[x] != Palette[y] {
      assert Palette[x][1..4] != Palette[y][1..4] || Palette[x][4..] != Palette[y][4..];
    }
  }

  /** Any eight consecutive keywords get eight different colours. */
  lemma ColorsDistinct(i: nat, j: nat)
    requires i < j < i + 8
    ensures HighlightColor(i) != HighlightColor(j)
  {
    PaletteDistinct();
    var a, b := i % 8, j % 8;
    assert a != b;
  }

  /** No palette colour contains `>`, so it cannot end the tag it sits in. */
  lemma PaletteHasNoTagEnd(index: nat)
    ensures '>' !in HighlightColor(index)
  {
  }

  // ---------------------------------------------------------------------
  // The markup

  /** Everything of the opening tag between its `<` and its `>`. */
  function OpenTagBody(color: string): string
  {
    "mark style=\"background-color: " + color + "; padding: 2px 4px; border-radius: 2px;\""
  }

  function OpenTag(color: string): string
  {
    "<" + OpenTagBody(color) + ">"
  }

  const CloseTag: string := "</mark>"

  /** The replacement `<mark style="…">$1</mark>` for the matched text `m`. */
  function Mark(color: string, m: string): string
  {
    OpenTag(color) + m + CloseTag
  }

  // ---------------------------------------------------------------------
  // `text.replace(new RegExp(`(${pattern})`, 'gi'), …)` with the pattern
  // taken literally

  /** `t` starts with `p`, comparing characters ignoring case. */
  predicate MatchesAt(canon: char -> char, t: string, p: string)
  {
    |p| <= |t| && forall j :: 0 <= j < |p| ==> canon(t[j]) == canon(p[j])
  }

  /** `p` occurs somewhere in `t`, ignoring case. */
  predicate OccursIgnoringCase(canon: char -> char, t: string, p: string)
  {
    exists i :: 0 <= i <= |t| - |p| && MatchesAt(canon, t[i..], p)
  }

  /** Global replacement: scanning left to right, every leftmost
      non-overlapping match of `p` is wrapped in a mark with its own text.
      An empty pattern matches the empty string before every character and
      at the end, as a global regular expression does. */
  function ReplaceAll(canon: char -> char, t: string, p: string, color: string): string
    decreases |t|
  {
    if p == [] then
      Mark(color, []) + (if t == [] then [] else [t[0]] + ReplaceAll(canon, t[1..], p, color))
    else if |t| < |p| then t
    else if MatchesAt(canon, t, p) then Mark(color, t[..|p|]) + ReplaceAll(canon, t[|p|..], p, color)
    else [t[0]] + ReplaceAll(canon, t[1..], p, color)
  }

  /** The empty pattern occurs in every text. */
  lemma EmptyPatternOccurs(canon: char -> char, t: string)
    ensures OccursIgnoringCase(canon, t, [])
  {
    assert t[0..] == t && MatchesAt(canon, t[0..], []);
  }

  /** A pattern that never occurs leaves the text unchanged. */
  lemma {:induction false} ReplaceNoOccurrence(canon: char -> char, t: string, p: string, color: string)
    requires !OccursIgnoringCase(canon, t, p)
    ensures ReplaceAll(canon, t, p, color) == t
    decreases |t|
  {
    assert t[0..] == t;
    EmptyPatternOccurs(canon, t);
    if |t| >= |p| {
      assert !MatchesAt(canon, t, p);
      forall i | 0 <= i <= |t[1..]| - |p| ensures !MatchesAt(canon, t[1..][i..], p) {
        assert t[1..][i..] == t[i + 1..];
      }
      ReplaceNoOccurrence(canon, t[1..], p, color);
    }
  }

  /** `i` is the leftmost position where `p` matches in `t`. */
  predicate FirstMatchAt(canon: char -> char, t: string, p: string, i: nat)
  {
    i + |p| <= |t| && MatchesAt(canon, t[i..], p)
    && forall j :: 0 <= j < i ==> !MatchesAt(canon, t[j..], p)
  }

  /** An occurrence at `k` means there is a leftmost one, at or before `k`. */
  lemma {:induction false} LeftmostMatch(canon: char -> char, t: string, p: string, k: nat)
    requires k + |p| <= |t| && MatchesAt(canon, t[k..], p)
    ensures exists i: nat :: i <= k && FirstMatchAt(canon, t, p, i)
    decreases k
  {
    if exists m :: 0 <= m < k && MatchesAt(canon, t[m..], p) {
      var m :| 0 <= m < k && MatchesAt(canon, t[m..], p);
      LeftmostMatch(canon, t, p, m);
    } else {
      assert FirstMatchAt(canon, t, p, k);
    }
  }

  /** Where the text from `k` on starts with a match of a non-empty pattern,
      the match is wrapped and the scan goes on after it. */
  lemma ReplaceMatchAt(canon: char -> char, t: string, p: string, color: string, k: nat)
    requires p != [] && k + |p| <= |t| && MatchesAt(canon, t[k..], p)
    ensures ReplaceAll(canon, t[k..], p, color) == Mark(color, t[k..k + |p|]) + ReplaceAll(canon, t[k + |p|..], p, color)
  {
    assert t[k..][..|p|] == t[k..k + |p|] && t[k..][|p|..] == t[k + |p|..];
  }

  /** Where the text from `k` on does not start with a match of a non-empty
      pattern, the scan copies one character and goes on. */
  lemma ReplaceSkipAt(canon: char -> char, t: string, p: string, color: string, k: nat)
    requires p != [] && k + |p| <= |t| && !MatchesAt(canon, t[k..], p)
    ensures ReplaceAll(canon, t[k..], p, color) == [t[k]] + ReplaceAll(canon, t[k + 1..], p, color)
  {
    assert t[k..][1..] == t[k + 1..];
  }

  /** An empty prefix can be dropped from a three-part concatenation. */
  lemma EmptyFront(a: string, m: string, r: string)
    requires a == []
    ensures a + m + r == m + r
  {
  }

  /** Putting the character at `k` back in front of `t[k + 1..i]`. */
  lemma ConsRegroup(t: string, k: nat, i: nat, m: string, r: string)
    requires k < i <= |t|
    ensures [t[k]] + (t[k + 1..i] + m + r) == t[k..i] + m + r
  {
    assert [t[k]] + t[k + 1..i] == t[k..i];
  }

  /** From `k` on, the scan copies the text up to the leftmost match at `i`,
      wraps that match in a mark with its own text, and carries on after
      it. */
  lemma {:induction false} ReplaceUpTo(canon: char -> char, t: string, p: string, color: string, k: nat, i: nat)
    requires p != [] && k <= i && i + |p| <= |t| && MatchesAt(canon, t[i..], p)
    requires forall j :: k <= j < i ==> !MatchesAt(canon, t[j..], p)
    ensures ReplaceAll(canon, t[k..], p, color)
         == t[k..i] + Mark(color, t[i..i + |p|]) + ReplaceAll(canon, t[i + |p|..], p, color)
    decreases i - k
  {
    var m, r := Mark(color, t[i..i + |p|]), ReplaceAll(canon, t[i + |p|..], p, color);
    if k == i {
      ReplaceMatchAt(canon, t, p, color, i);
      EmptyFront(t[k..i], m, r);
    } else {
      ReplaceSkipAt(canon, t, p, color, k);
      ReplaceUpTo(canon, t, p, color, k + 1, i);
      ConsRegroup(t, k, i, m, r);
    }
  }

  /** The scan copies the text up to the leftmost match of a non-empty
      pattern, wraps that match in a mark with its own text, and carries on
      after it. */
  lemma ReplaceLeftmost(canon: char -> char, t: string, p: string, color: string, i: nat)
    requires p != [] && FirstMatchAt(canon, t, p, i)
    ensures ReplaceAll(canon, t, p, color)
         == t[..i] + Mark(color, t[i..i + |p|]) + ReplaceAll(canon, t[i + |p|..], p, color)
  {
    ReplaceUpTo(canon, t, p, color, 0, i);
    assert t[0..] == t && t[0..i] == t[..i];
  }

  /** `out` is `before` with its leftmost match of `p` wrapped in a mark of
      `color`, followed by one replacement pass over the rest. */
  ghost predicate WrapsFirstMatch(canon: char -> char, before: string, p: string, color: string, out: string)
  {
    exists j: nat ::
      FirstMatchAt(canon, before, p, j)
      && out == before[..j] + Mark(color, before[j..j + |p|]) + ReplaceAll(canon, before[j + |p|..], p, color)
  }

  /** A text with a mark in it contains the mark's opening tag. */
  lemma MarkShowsTag(a: string, color: string, m: string, r: string)
    ensures Contains(a + Mark(color, m) + r, OpenTag(color))
  {
    var tag := OpenTag(color);
    var s := a + Mark(color, m) + r;
    assert s == a + tag + (m + CloseTag + r);
    assert s[|a|..|a| + |tag|] == tag;
    assert OccursAt(s, tag, |a|);
  }

  /** A non-empty pattern that occurs gets its leftmost match wrapped in a
      mark of the given colour, so the output holds that colour's opening
      tag. */
  lemma ReplaceMarksLeftmost(canon: char -> char, t: string, p: string, color: string)
    requires p != [] && OccursIgnoringCase(canon, t, p)
    ensures WrapsFirstMatch(canon, t, p, color, ReplaceAll(canon, t, p, color))
    ensures Contains(ReplaceAll(canon, t, p, color), OpenTag(color))
  {
    var k :| 0 <= k <= |t| - |p| && MatchesAt(canon, t[k..], p);
    LeftmostMatch(canon, t, p, k);
    var i: nat :| i <= k && FirstMatchAt(canon, t, p, i);
    ReplaceLeftmost(canon, t, p, color, i);
    MarkShowsTag(t[..i], color, t[i..i + |p|], ReplaceAll(canon, t[i + |p|..], p, color));
  }

  // ---------------------------------------------------------------------
  // highlightText

  /** What `highlightText(text, keywords)` returns: keyword `i` (folded)
      is wrapped in colour `i`, in the output of the keywords before it. */
  function Highlighted(c: Casing, text: string, keywords: seq<string>): string
    decreases |keywords|
  {
    if keywords == [] then text
    else
      var i := |keywords| - 1;
      ReplaceAll(c.canon, Highlighted(c, text, keywords[..i]), NormalizeTurkish(c.lower, keywords[i]), HighlightColor(i))
  }

  /** `highlightText`: the `forEach` over the keywords, reassigning the
      accumulated text. */
  method HighlightText(c: Casing, text: string, keywords: seq<string>) returns (highlighted: string)
    ensures highlighted == Highlighted(c, text, keywords)
  {
    highlighted := text;
    var index := 0;
    while index < |keywords|
      invariant 0 <= index <= |keywords|
      invariant highlighted == Highlighted(c, text, keywords[..index])
    {
      var normalized := NormalizeTurkish(c.lower, keywords[index]);
      var color := HighlightColor(index);
      assert keywords[..index + 1][..index] == keywords[..index];
      highlighted := ReplaceAll(c.canon, highlighted, normalized, color);
      index := index + 1;
    }
    assert keywords[..index] == keywords;
  }

  /** Keyword `i` is wrapped in colour `i`, applied to the output of the
      keywords before it. */
  lemma HighlightStep(c: Casing, t: string, ks: seq<string>, i: nat)
    requires i < |ks|
    ensures Highlighted(c, t, ks[..i + 1]) ==
            ReplaceAll(c.canon, Highlighted(c, t, ks[..i]), NormalizeTurkish(c.lower, ks[i]), HighlightColor(i))
  {
    assert ks[..i + 1][..i] == ks[..i];
  }

  /** Keyword `i`, when its folded form is non-empty and occurs ignoring case
      in the output of the keywords before it, has its leftmost match there
      wrapped in a mark of colour `getHighlightColor(i)`, and the opening tag
      of that colour is in the output. */
  lemma HighlightMarksKeyword(c: Casing, t: string, ks: seq<string>, i: nat)
    requires i < |ks|
    requires NormalizeTurkish(c.lower, ks[i]) != []
    requires OccursIgnoringCase(c.canon, Highlighted(c, t, ks[..i]), NormalizeTurkish(c.lower, ks[i]))
    ensures WrapsFirstMatch(c.canon, Highlighted(c, t, ks[..i]), NormalizeTurkish(c.lower, ks[i]), HighlightColor(i),
                            Highlighted(c, t, ks[..i + 1]))
    ensures Contains(Highlighted(c, t, ks[..i + 1]), OpenTag(HighlightColor(i)))
  {
    var before, p, color := Highlighted(c, t, ks[..i]), NormalizeTurkish(c.lower, ks[i]), HighlightColor(i);
    HighlightStep(c, t, ks, i);
    ReplaceMarksLeftmost(c.canon, before, p, color);
  }

  /** The first keyword's leftmost match in the text itself is wrapped in
      the first palette colour. */
  lemma HighlightFirstKeyword(c: Casing, t: string, ks: seq<string>)
    requires ks != [] && NormalizeTurkish(c.lower, ks[0]) != []
    requires OccursIgnoringCase(c.canon, t, NormalizeTurkish(c.lower, ks[0]))
    ensures WrapsFirstMatch(c.canon, t, NormalizeTurkish(c.lower, ks[0]), HighlightColor(0), Highlighted(c, t, ks[..1]))
  {
    assert ks[..0] == [];
    HighlightMarksKeyword(c, t, ks, 0);
  }

  /** With no keywords, or keywords none of which occurs, the text comes back
      unchanged. */
  lemma {:induction false} HighlightNoOccurrence(c: Casing, t: string, ks: seq<string>)
    requires forall k :: 0 <= k < |ks| ==> !OccursIgnoringCase(c.canon, t, NormalizeTurkish(c.lower, ks[k]))
    ensures Highlighted(c, t, ks) == t
    decreases |ks|
  {
    if ks != [] {
      var i := |ks| - 1;
      HighlightNoOccurrence(c, t, ks[..i]);
      ReplaceNoOccurrence(c.canon, t, NormalizeTurkish(c.lower, ks[i]), HighlightColor(i));
    }
  }

  // ---------------------------------------------------------------------
  // Removing the markup again

  /** `s` with every `<…>` tag deleted; `inTag` says whether the scan is
      inside a tag. */
  function StripMarkup(s: string, inTag: bool): string
  {
    if s == [] then []
    else if inTag then StripMarkup(s[1..], s[0] != '>')
    else if s[0] == '<' then StripMarkup(s[1..], true)
    else [s[0]] + StripMarkup(s[1..], false)
  }

  lemma {:induction false} StripText(a: string, b: string)
    requires '<' !in a
    ensures StripMarkup(a + b, false) == a + StripMarkup(b, false)
  {
    if a != [] {
      assert (a + b)[0] == a[0] && (a + b)[1..] == a[1..] + b;
      StripText(a[1..], b);
    } else {
      assert a + b == b;
    }
  }

  lemma {:induction false} StripTagRest(x: string, b: string)
    requires '>' !in x
    ensures StripMarkup(x + ">" + b, true) == StripMarkup(b, false)
  {
    if x == [] {
      assert x + ">" + b == ">" + b && (">" + b)[1..] == b;
    } else {
      assert (x + ">" + b)[0] == x[0] && (x + ">" + b)[1..] == x[1..] + ">" + b;
      StripTagRest(x[1..], b);
    }
  }

  /** Deleting the tags of one mark leaves the marked text. */
  lemma StripMark(color: string, m: string, b: string)
    requires '>' !in color && '<' !in m
    ensures StripMarkup(Mark(color, m) + b, false) == m + StripMarkup(b, false)
  {
    var body := OpenTagBody(color);
    assert '>' !in body;
    var rest := m + (CloseTag + b);
    var inner := body + ">" + rest;
    assert Mark(color, m) + b == "<" + inner;
    assert ("<" + inner)[0] == '<' && ("<" + inner)[1..] == inner;
    assert StripMarkup("<" + inner, false) == StripMarkup(inner, true);
    StripTagRest(body, rest);
    StripText(m, CloseTag + b);
    var close := "/mark" + ">" + b;
    assert CloseTag + b == "<" + close;
    assert ("<" + close)[0] == '<' && ("<" + close)[1..] == close;
    assert StripMarkup("<" + close, false) == StripMarkup(close, true);
    assert '>' !in "/mark";
    StripTagRest("/mark", b);
  }

  /** Deleting the inserted tags after one replacement pass gives back the
      input, when the input has no markup of its own. */
  lemma {:induction false} StripReplaceAll(canon: char -> char, t: string, p: string, color: string)
    requires '<' !in t && '>' !in color
    ensures StripMarkup(ReplaceAll(canon, t, p, color), false) == t
    decreases |t|
  {
    if p == [] {
      if t == [] {
        StripMark(color, [], []);
      } else {
        StripReplaceAll(canon, t[1..], p, color);
        StripMark(color, [], [t[0]] + ReplaceAll(canon, t[1..], p, color));
        StripText([t[0]], ReplaceAll(canon, t[1..], p, color));
        assert [t[0]] + t[1..] == t;
      }
    } else if |t| < |p| {
      StripText(t, []);
      assert t + [] == t;
    } else if MatchesAt(canon, t, p) {
      StripReplaceAll(canon, t[|p|..], p, color);
      StripMark(color, t[..|p|], ReplaceAll(canon, t[|p|..], p, color));
      assert t[..|p|] + t[|p|..] == t;
    } else {
      StripReplaceAll(canon, t[1..], p, color);
      StripText([t[0]], ReplaceAll(canon, t[1..], p, color));
      assert [t[0]] + t[1..] == t;
    }
  }

  /** For a single keyword, deleting the inserted `<mark …>` and `</mark>`
      tags gives back the input, when the input has no markup of its own. */
  lemma HighlightSingleStrip(c: Casing, t: string, keyword: string)
    requires '<' !in t
    ensures StripMarkup(Highlighted(c, t, [keyword]), false) == t
  {
    PaletteHasNoTagEnd(0);
    assert [keyword][..0] == [];
    StripReplaceAll(c.canon, t, NormalizeTurkish(c.lower, keyword), HighlightColor(0));
  }
}
