/** `extractSnippet`: a window of context around the first match of a
    keyword, found in the folded text and cut from the original text. */
module Snippet {
  import opened Strings
  import opened Normalize

  /** The context length `searchBooks` uses (the parameter's default). */
  const DefaultContextLength: nat := 300

  const Ellipsis: string := "..."

  /** The window of `text`, with an ellipsis on each side where text was
      cut off. */
  function Framed(text: string, start: nat, end: nat): string
    requires start <= end <= |text|
  {
    (if start > 0 then Ellipsis else []) + text[start..end] + (if end < |text| then Ellipsis else [])
  }

  /** What `extractSnippet(text, keyword, contextLength)` returns. Because
      folding keeps lengths, the position found in the folded text is a
      position in `text`, and the match ends within `text`. */
  function SnippetOf(lower: char -> char, text: string, keyword: string, contextLength: nat): (snippet: string)
    ensures |snippet| <= 2 * contextLength + |keyword| + 2 * |Ellipsis|
  {
    var index := IndexOf(NormalizeTurkish(lower, text), NormalizeTurkish(lower, keyword));
    if index == -1 then text[..Min(contextLength, |text|)] + Ellipsis
    else
      var start := Max(0, index - contextLength);
      var end := Min(|text|, index + |keyword| + contextLength);
      Framed(text, start, end)
  }

  /** `extractSnippet`: the window is cut out, then an ellipsis is put in
      front when text was cut off before it and behind when text was cut off
      after it. */
  method ExtractSnippet(lower: char -> char, text: string, keyword: string, contextLength: nat)
    returns (snippet: string)
    ensures snippet == SnippetOf(lower, text, keyword, contextLength)
  {
    var normalized := NormalizeTurkish(lower, text);
    var keywordNormalized := NormalizeTurkish(lower, keyword);
    var index := IndexOf(normalized, keywordNormalized);
    if index == -1 {
      SnippetWithoutMatch(lower, text, keyword, contextLength);
      snippet := text[..Min(contextLength, |text|)] + Ellipsis;
      assert snippet == SnippetOf(lower, text, keyword, contextLength);
      return;
    }
    var start := Max(0, index - contextLength);
    var end := Min(|text|, index + |keyword| + contextLength);
    snippet := text[start..end];
    ghost var before: string, after: string := [], [];
    if start > 0 {
      snippet := Ellipsis + snippet;
      before := Ellipsis;
    }
    assert snippet == before + text[start..end];
    if end < |text| {
      snippet := snippet + Ellipsis;
      after := Ellipsis;
    }
    assert snippet == before + text[start..end] + after;
    SnippetFound(lower, text, keyword, contextLength, index);
  }

  /** When the folded keyword is absent, the snippet is the first
      `contextLength` characters followed by an ellipsis. */
  lemma SnippetWithoutMatch(lower: char -> char, text: string, keyword: string, contextLength: nat)
    requires !Contains(NormalizeTurkish(lower, text), NormalizeTurkish(lower, keyword))
    ensures SnippetOf(lower, text, keyword, contextLength) == text[..Min(contextLength, |text|)] + Ellipsis
  {
  }

  /** `[start, end)` is the context window of a match of length `len` at
      `index` in a text of length `n`: it reaches `contextLength` characters
      to either side of the match and is cut short only by the text's ends. */
  predicate IsContextWindow(n: nat, index: int, len: nat, contextLength: nat, start: int, end: int)
  {
    0 <= start <= index && index + len <= end <= n
    && index - start <= contextLength && (start == 0 || start == index - contextLength)
    && end - (index + len) <= contextLength && (end == n || end == index + len + contextLength)
  }

  /** When the folded keyword occurs, its first position `index` is a match
      that fits in `text`, and the snippet is the framed window around it. */
  lemma SnippetFound(lower: char -> char, text: string, keyword: string, contextLength: nat, index: int)
    requires Contains(NormalizeTurkish(lower, text), NormalizeTurkish(lower, keyword))
    requires index == IndexOf(NormalizeTurkish(lower, text), NormalizeTurkish(lower, keyword))
    ensures 0 <= index && index + |keyword| <= |text|
    ensures OccursAt(NormalizeTurkish(lower, text), NormalizeTurkish(lower, keyword), index)
    ensures SnippetOf(lower, text, keyword, contextLength)
         == Framed(text, Max(0, index - contextLength), Min(|text|, index + |keyword| + contextLength))
  {
  }

  /** When the folded keyword occurs, the snippet is the context window
      around its first occurrence, marked where it was cut; the window is at
      most `2 * contextLength + |keyword|` long. */
  lemma SnippetWindow(lower: char -> char, text: string, keyword: string, contextLength: nat)
    requires Contains(NormalizeTurkish(lower, text), NormalizeTurkish(lower, keyword))
    ensures var index := IndexOf(NormalizeTurkish(lower, text), NormalizeTurkish(lower, keyword));
      exists start: nat, end: nat ::
        IsContextWindow(|text|, index, |keyword|, contextLength, start, end)
        && end - start <= 2 * contextLength + |keyword|
        && SnippetOf(lower, text, keyword, contextLength) == Framed(text, start, end)
  {
    var index := IndexOf(NormalizeTurkish(lower, text), NormalizeTurkish(lower, keyword));
    var start := Max(0, index - contextLength);
    var end := Min(|text|, index + |keyword| + contextLength);
    assert IsContextWindow(|text|, index, |keyword|, contextLength, start, end);
  }

  /** When the folded keyword occurs in the text, it occurs in the folded
      snippet too: the window always covers the first match. */
  lemma SnippetContainsKeyword(lower: char -> char, text: string, keyword: string, contextLength: nat)
    requires Contains(NormalizeTurkish(lower, text), NormalizeTurkish(lower, keyword))
    ensures Contains(NormalizeTurkish(lower, SnippetOf(lower, text, keyword, contextLength)),
                     NormalizeTurkish(lower, keyword))
  {
    var index := IndexOf(NormalizeTurkish(lower, text), NormalizeTurkish(lower, keyword));
    SnippetFound(lower, text, keyword, contextLength, index);
    FramedKeepsMatch(lower, text, NormalizeTurkish(lower, keyword), index,
                     Max(0, index - contextLength), Min(|text|, index + |keyword| + contextLength));
  }

  /** A framed window around a folded match still contains the match once
      folded. */
  lemma FramedKeepsMatch(lower: char -> char, text: string, k: string, index: int, start: nat, end: nat)
    requires start <= index && index + |k| <= end <= |text|
    requires OccursAt(NormalizeTurkish(lower, text), k, index)
    ensures Contains(NormalizeTurkish(lower, Framed(text, start, end)), k)
  {
    var pre: string := if start > 0 then Ellipsis else [];
    var suf: string := if end < |text| then Ellipsis else [];
    WindowKeepsMatch(lower, text, k, index, start, end, pre, suf);
  }

  /** A window around a folded match, framed by anything, still contains the
      match once folded. */
  lemma WindowKeepsMatch(lower: char -> char, text: string, k: string, index: int, start: int, end: int,
                         pre: string, suf: string)
    requires 0 <= start <= index && index + |k| <= end <= |text|
    requires OccursAt(NormalizeTurkish(lower, text), k, index)
    ensures Contains(NormalizeTurkish(lower, pre + text[start..end] + suf), k)
  {
    var window := text[start..end];
    ContainsInWindow(NormalizeTurkish(lower, text), k, index, start, end);
    NormalizeSlice(lower, text, start, end);
    NormalizeThree(lower, pre, window, suf);
    ContainsExtend(NormalizeTurkish(lower, pre), NormalizeTurkish(lower, window), NormalizeTurkish(lower, suf), k);
  }

  lemma NormalizeThree(lower: char -> char, a: string, b: string, c: string)
    ensures NormalizeTurkish(lower, a + b + c)
         == NormalizeTurkish(lower, a) + NormalizeTurkish(lower, b) + NormalizeTurkish(lower, c)
  {
    NormalizeConcat(lower, a + b, c);
    NormalizeConcat(lower, a, b);
  }
}
