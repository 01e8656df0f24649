/** Turkish-aware case folding (`normalizeTurkish`). The host's
    `toLowerCase` is not modelled concretely: it is the parameter `lower`, a
    character-by-character map, so it never changes a string's length. */
module Normalize {

  /** The host's case behaviour, which the model leaves abstract: `lower` is
      what `toLowerCase` does to one character, and `canon` is the
      canonical form the `i` flag of a regular expression compares
      characters by (two characters match ignoring case when their
      canonical forms are equal). */
  datatype Casing = Casing(lower: char -> char, canon: char -> char)

  /** `text.toLowerCase()` under the character map `lower`. */
  function ToLower(lower: char -> char, s: string): (r: string)
    ensures |r| == |s|
    ensures forall i :: 0 <= i < |s| ==> r[i] == lower(s[i])
  {
    seq(|s|, i requires 0 <= i < |s| => lower(s[i]))
  }

  /** `s.replace(/from/g, to)` for a single character `from`. */
  function ReplaceChar(s: string, from: char, to: char): (r: string)
    ensures |r| == |s|
    ensures forall i :: 0 <= i < |s| ==> r[i] == if s[i] == from then to else s[i]
  {
    seq(|s|, i requires 0 <= i < |s| => if s[i] == from then to else s[i])
  }

  /** `normalizeTurkish`: lower-case, then replace `i` by `i`, dotted
      capital `İ` (U+0130) by `i`, and capital `I` by dotless `ı` (U+0131). */
  function NormalizeTurkish(lower: char -> char, text: string): (r: string)
    ensures |r| == |text|
    ensures 'I' !in r && '\U{0130}' !in r
  {
    var s := ToLower(lower, text);
    var s1 := ReplaceChar(s, 'i', 'i');
    var s2 := ReplaceChar(s1, '\U{0130}', 'i');
    assert '\U{0130}' !in s2;
    var s3 := ReplaceChar(s2, 'I', '\U{0131}');
    assert forall k :: 0 <= k < |s3| ==> s3[k] != '\U{0130}';
    s3
  }

  /** What folding does to one character. */
  function FoldChar(lower: char -> char, c: char): char
  {
    var d := lower(c);
    if d == '\U{0130}' then 'i' else if d == 'I' then '\U{0131}' else d
  }

  /** Folding works character by character. */
  lemma NormalizeAt(lower: char -> char, s: string, i: int)
    requires 0 <= i < |s|
    ensures NormalizeTurkish(lower, s)[i] == FoldChar(lower, s[i])
  {
  }

  /** Folding a concatenation folds each part. */
  lemma NormalizeConcat(lower: char -> char, a: string, b: string)
    ensures NormalizeTurkish(lower, a + b) == NormalizeTurkish(lower, a) + NormalizeTurkish(lower, b)
  {
    var l, r1, r2 := NormalizeTurkish(lower, a + b), NormalizeTurkish(lower, a), NormalizeTurkish(lower, b);
    forall i | 0 <= i < |a + b| ensures l[i] == (r1 + r2)[i] {
      NormalizeAt(lower, a + b, i);
      if i < |a| { NormalizeAt(lower, a, i); } else { NormalizeAt(lower, b, i - |a|); }
    }
  }

  /** Folding a slice is slicing the folded text, so positions found in the
      folded text are positions in the original. */
  lemma NormalizeSlice(lower: char -> char, s: string, i: int, j: int)
    requires 0 <= i <= j <= |s|
    ensures NormalizeTurkish(lower, s[i..j]) == NormalizeTurkish(lower, s)[i..j]
  {
    forall k | 0 <= k < j - i
      ensures NormalizeTurkish(lower, s[i..j])[k] == NormalizeTurkish(lower, s)[i + k]
    {
      NormalizeAt(lower, s[i..j], k);
      NormalizeAt(lower, s, i + k);
    }
  }

  /** Folding is idempotent when the host's lower-casing is, and when it
      leaves the two letters the replacements produce (`i`, `ı`) alone. */
  lemma NormalizeIdempotent(lower: char -> char, s: string)
    requires forall c :: lower(lower(c)) == lower(c)
    requires lower('i') == 'i' && lower('\U{0131}') == '\U{0131}'
    ensures NormalizeTurkish(lower, NormalizeTurkish(lower, s)) == NormalizeTurkish(lower, s)
  {
    var n := NormalizeTurkish(lower, s);
    forall i | 0 <= i < |s| ensures NormalizeTurkish(lower, n)[i] == n[i] {
      NormalizeAt(lower, n, i);
      NormalizeAt(lower, s, i);
      assert lower(lower(s[i])) == lower(s[i]);
    }
  }

  /** With a lower-casing that turns `I` into `i` (as the locale-independent
      `toLowerCase` does), the dotless-I replacement never applies: capital
      `I` folds like `i` and not like dotless `ı`. */
  lemma CapitalIFoldsToDottedI(lower: char -> char)
    requires lower('I') == 'i' && lower('i') == 'i' && lower('\U{0131}') == '\U{0131}'
    ensures NormalizeTurkish(lower, "I") == NormalizeTurkish(lower, "i") == "i"
    ensures NormalizeTurkish(lower, "I") != NormalizeTurkish(lower, "\U{0131}")
  {
    NormalizeAt(lower, "I", 0);
    NormalizeAt(lower, "\U{0131}", 0);
    NormalizeAt(lower, "i", 0);
  }

  /** When lower-casing leaves dotted capital `İ` as it is or turns it into
      `i`, the `İ` replacement makes it fold like `i`. */
  lemma DottedCapitalIFoldsToI(lower: char -> char)
    requires lower('\U{0130}') == '\U{0130}' || lower('\U{0130}') == 'i'
    requires lower('i') == 'i'
    ensures NormalizeTurkish(lower, "\U{0130}") == NormalizeTurkish(lower, "i") == "i"
  {
    NormalizeAt(lower, "\U{0130}", 0);
    NormalizeAt(lower, "i", 0);
  }
}
