/** String and sequence primitives of the JavaScript runtime that the search
    engine relies on: `includes`, `indexOf`, `trim`, `split` and `slice`. */
module Strings {

  datatype Option<T> = None | Some(value: T)

  function Min(a: int, b: int): int { if a <= b then a else b }
  function Max(a: int, b: int): int { if a >= b then a else b }

  /** `p` occurs in `s` at position `i`. */
  predicate OccursAt(s: string, p: string, i: int)
  {
    0 <= i && i + |p| <= |s| && s[i..i + |p|] == p
  }

  /** `s.includes(p)`: `p` is a contiguous substring of `s`. */
  predicate Contains(s: string, p: string)
  {
    exists i :: 0 <= i <= |s| - |p| && OccursAt(s, p, i)
  }

  /** `s.indexOf(p)`, searching from position `from`. */
  function IndexOfFrom(s: string, p: string, from: nat): (r: int)
    requires from <= |s| + 1
    ensures r == -1 || (from <= r && OccursAt(s, p, r))
    ensures forall j :: from <= j && (r == -1 || j < r) ==> !OccursAt(s, p, j)
    decreases |s| + 1 - from
  {
    if from + |p| > |s| then
      assert forall j :: from <= j ==> !OccursAt(s, p, j);
      -1
    else if s[from..from + |p|] == p then from
    else IndexOfFrom(s, p, from + 1)
  }

  /** `s.indexOf(p)`: the first position where `p` occurs, or -1 when it
      does not occur at all. */
  function IndexOf(s: string, p: string): (r: int)
    ensures r == -1 <==> !Contains(s, p)
    ensures r != -1 ==> OccursAt(s, p, r) && forall j :: 0 <= j < r ==> !OccursAt(s, p, j)
  {
    IndexOfFrom(s, p, 0)
  }

  /** A substring of a slice is a substring of the whole. */
  lemma ContainsInWindow(s: string, p: string, i: int, start: int, end: int)
    requires 0 <= start <= i && i + |p| <= end <= |s|
    requires OccursAt(s, p, i)
    ensures Contains(s[start..end], p)
  {
    var w := s[start..end];
    assert w[i - start..i - start + |p|] == s[i..i + |p|] by {
      forall k | i - start <= k < i - start + |p| ensures w[k] == s[start + k] { }
    }
    assert OccursAt(w, p, i - start);
  }

  /** Adding text around a string keeps what it contains. */
  lemma ContainsExtend(a: string, s: string, b: string, p: string)
    requires Contains(s, p)
    ensures Contains(a + s + b, p)
  {
    var i :| 0 <= i <= |s| - |p| && OccursAt(s, p, i);
    assert (a + s + b)[|a| + i..|a| + i + |p|] == s[i..i + |p|];
    assert OccursAt(a + s + b, p, |a| + i);
  }

  // ---------------------------------------------------------------------
  // String.prototype.trim

  /** The characters `trim` removes: ECMAScript WhiteSpace (tab, vertical
      tab, form feed, space, no-break space, byte order mark and the other
      space separators of category Zs) and LineTerminator (line feed,
      carriage return, line and paragraph separators). */
  predicate IsWhiteSpace(c: char)
  {
    c == '\t' || c == '\n' || c == '\U{000B}' || c == '\U{000C}' || c == '\r' || c == ' '
    || c == '\U{00A0}' || c == '\U{1680}' || ('\U{2000}' <= c <= '\U{200A}')
    || c == '\U{2028}' || c == '\U{2029}' || c == '\U{202F}' || c == '\U{205F}'
    || c == '\U{3000}' || c == '\U{FEFF}'
  }

  predicate AllWhiteSpace(s: string)
  {
    forall i :: 0 <= i < |s| ==> IsWhiteSpace(s[i])
  }

  /** The number of white-space characters `s` starts with. */
  function LeadingSpace(s: string): (k: nat)
    ensures k <= |s| && AllWhiteSpace(s[..k])
    ensures k == |s| || !IsWhiteSpace(s[k])
  {
    if s != [] && IsWhiteSpace(s[0]) then
      var k := LeadingSpace(s[1..]);
      k + 1
    else 0
  }

  /** Where the white space that `s` ends with begins. */
  function TrailingSpace(s: string): (k: nat)
    ensures k <= |s| && AllWhiteSpace(s[k..])
    ensures k == 0 || !IsWhiteSpace(s[k - 1])
  {
    if s != [] && IsWhiteSpace(s[|s| - 1]) then
      var k := TrailingSpace(s[..|s| - 1]);
      assert forall j :: 0 <= j < |s| - 1 - k ==> s[k..][j] == s[..|s| - 1][k..][j];
      k
    else |s|
  }

  /** `s.trim()`: `s` without its leading and trailing white space. */
  function Trim(s: string): (r: string)
    ensures r == [] || (!IsWhiteSpace(r[0]) && !IsWhiteSpace(r[|r| - 1]))
    ensures exists i, j :: 0 <= i <= j <= |s| && r == s[i..j]
                           && AllWhiteSpace(s[..i]) && AllWhiteSpace(s[j..])
  {
    var i := LeadingSpace(s);
    var t := s[i..];
    var k := TrailingSpace(t);
    assert s[i + k..] == t[k..];
    assert k > 0 ==> t[0] == s[i];
    t[..k]
  }

  /** Trimming leaves nothing exactly when the string is all white space. */
  lemma TrimEmptyIff(s: string)
    ensures Trim(s) == [] <==> AllWhiteSpace(s)
  {
    var r := Trim(s);
    var i, j :| 0 <= i <= j <= |s| && r == s[i..j] && AllWhiteSpace(s[..i]) && AllWhiteSpace(s[j..]);
    if r != [] {
      assert r[0] == s[i] && !IsWhiteSpace(s[i]);
    }
    if r == [] {
      forall k | 0 <= k < |s| ensures IsWhiteSpace(s[k]) {
        if k < i { assert s[k] == s[..i][k]; } else { assert s[k] == s[j..][k - j]; }
      }
    }
  }

  // ---------------------------------------------------------------------
  // String.prototype.split with a one-character separator

  /** `s.split(sep)`: the pieces between separators, always at least one
      (the empty string splits into one empty piece). */
  function Split(s: string, sep: char): (r: seq<string>)
    ensures |r| >= 1
    ensures forall k :: 0 <= k < |r| ==> sep !in r[k]
  {
    if s == [] then [[]]
    else if s[0] == sep then [[]] + Split(s[1..], sep)
    else
      var rest := Split(s[1..], sep);
      [[s[0]] + rest[0]] + rest[1..]
  }

  /** `pieces.join(sep)`. */
  function Join(pieces: seq<string>, sep: char): string
    requires |pieces| >= 1
  {
    if |pieces| == 1 then pieces[0] else pieces[0] + [sep] + Join(pieces[1..], sep)
  }

  /** Splitting loses nothing: joining the pieces gives back the input. */
  lemma {:induction false} SplitJoin(s: string, sep: char)
    ensures Join(Split(s, sep), sep) == s
  {
    if s == [] {
    } else if s[0] == sep {
      SplitJoin(s[1..], sep);
      assert Split(s, sep)[1..] == Split(s[1..], sep);
    } else {
      var rest := Split(s[1..], sep);
      SplitJoin(s[1..], sep);
      var r := Split(s, sep);
      assert r[0] == [s[0]] + rest[0];
      if |rest| == 1 {
        assert Join(r, sep) == [s[0]] + rest[0];
      } else {
        assert r[1..] == rest[1..];
        assert Join(r, sep) == [s[0]] + rest[0] + [sep] + Join(rest[1..], sep);
      }
    }
  }

  /** Every character of the input lies in some piece or is a separator. */
  lemma {:induction false} SplitCovers(s: string, sep: char, i: int)
    requires 0 <= i < |s| && s[i] != sep
    ensures exists k :: 0 <= k < |Split(s, sep)| && s[i] in Split(s, sep)[k]
  {
    var r := Split(s, sep);
    if i == 0 {
      assert s[0] in r[0];
    } else {
      SplitCovers(s[1..], sep, i - 1);
      var rest := Split(s[1..], sep);
      var k :| 0 <= k < |rest| && s[1..][i - 1] in rest[k];
      if s[0] == sep {
        assert r[k + 1] == rest[k];
      } else if k == 0 {
        assert r[0] == [s[0]] + rest[0];
      } else {
        assert r[k] == rest[k];
      }
    }
  }

  /** Every piece's characters come from the input. */
  lemma {:induction false} SplitPiecesFromInput(s: string, sep: char, k: int, c: char)
    requires 0 <= k < |Split(s, sep)| && c in Split(s, sep)[k]
    ensures c in s
  {
    if s == [] {
    } else if s[0] == sep {
      SplitPiecesFromInput(s[1..], sep, k - 1, c);
    } else {
      var rest := Split(s[1..], sep);
      if k == 0 {
        if c != s[0] { SplitPiecesFromInput(s[1..], sep, 0, c); }
      } else {
        SplitPiecesFromInput(s[1..], sep, k, c);
      }
    }
  }

  // ---------------------------------------------------------------------
  // Array.prototype.slice

  /** A `slice` index: negative counts from the end, anything is clamped to
      the bounds. */
  function SliceIndex(n: nat, i: int): (r: nat)
    ensures r <= n
    ensures 0 <= i <= n ==> r == i
  {
    if i < 0 then Max(n + i, 0) else Min(i, n)
  }

  /** `s.slice(start, end)`; `s.slice(start)` is `JsSlice(s, start, |s|)`. */
  function JsSlice<T>(s: seq<T>, start: int, end: int): (r: seq<T>)
    ensures |r| <= |s|
  {
    var from := SliceIndex(|s|, start);
    var to := SliceIndex(|s|, end);
    if from >= to then [] else s[from..to]
  }

  /** A window of length `len >= 0` never yields more than `len` elements,
      whatever the signs of its bounds. */
  lemma JsSliceLength<T>(s: seq<T>, start: int, len: int)
    requires len >= 0
    ensures |JsSlice(s, start, start + len)| <= len
  {
  }
}
