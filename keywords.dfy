/** The keyword split of `searchBooks`: the query is cut at every comma,
    each piece is trimmed, and empty pieces are dropped. Order and
    duplicates are kept. */
module Keywords {
  import opened Strings

  /** `pieces.map(k => k.trim())`. */
  function TrimAll(pieces: seq<string>): (r: seq<string>)
    ensures |r| == |pieces|
    ensures forall k :: 0 <= k < |r| ==> r[k] == Trim(pieces[k])
  {
    if pieces == [] then [] else [Trim(pieces[0])] + TrimAll(pieces[1..])
  }

  /** `pieces.filter(k => k.length > 0)`. */
  function NonEmpty(pieces: seq<string>): (r: seq<string>)
    ensures forall k :: 0 <= k < |r| ==> r[k] != [] && r[k] in pieces
  {
    if pieces == [] then []
    else if pieces[0] == [] then NonEmpty(pieces[1..])
    else [pieces[0]] + NonEmpty(pieces[1..])
  }

  /** The keywords of a query, in query order. */
  function ParseKeywords(query: string): seq<string>
  {
    NonEmpty(TrimAll(Split(query, ',')))
  }

  /** A query made only of commas and white space. */
  predicate IsBlankQuery(query: string)
  {
    forall i :: 0 <= i < |query| ==> query[i] == ',' || IsWhiteSpace(query[i])
  }

  lemma {:induction false} NonEmptyEmptyIff(pieces: seq<string>)
    ensures NonEmpty(pieces) == [] <==> forall k :: 0 <= k < |pieces| ==> pieces[k] == []
  {
    if pieces != [] {
      NonEmptyEmptyIff(pieces[1..]);
      assert forall k :: 1 <= k < |pieces| ==> pieces[k] == pieces[1..][k - 1];
    }
  }

  /** A query has no keywords exactly when it is blank: empty, or only
      commas and white space. */
  lemma KeywordsEmptyIff(query: string)
    ensures ParseKeywords(query) == [] <==> IsBlankQuery(query)
  {
    var pieces := Split(query, ',');
    var trimmed := TrimAll(pieces);
    NonEmptyEmptyIff(trimmed);
    if IsBlankQuery(query) {
      forall k | 0 <= k < |pieces| ensures trimmed[k] == [] {
        forall j | 0 <= j < |pieces[k]| ensures IsWhiteSpace(pieces[k][j]) {
          SplitPiecesFromInput(query, ',', k, pieces[k][j]);
        }
        TrimEmptyIff(pieces[k]);
      }
    } else {
      var i :| 0 <= i < |query| && query[i] != ',' && !IsWhiteSpace(query[i]);
      SplitCovers(query, ',', i);
      var k :| 0 <= k < |pieces| && query[i] in pieces[k];
      TrimEmptyIff(pieces[k]);
    }
  }

  /** Every piece of a joined sequence is a substring of the result. */
  lemma {:induction false} JoinContainsPiece(pieces: seq<string>, sep: char, k: int)
    requires 0 <= k < |pieces|
    ensures Contains(Join(pieces, sep), pieces[k])
  {
    if |pieces| == 1 {
      assert OccursAt(Join(pieces, sep), pieces[0], 0);
    } else if k == 0 {
      assert OccursAt(Join(pieces, sep), pieces[0], 0);
    } else {
      JoinContainsPiece(pieces[1..], sep, k - 1);
      ContainsExtend(pieces[0] + [sep], Join(pieces[1..], sep), [], pieces[k]);
      assert pieces[0] + [sep] + Join(pieces[1..], sep) + [] == Join(pieces, sep);
    }
  }

  /** Substring containment is transitive. */
  lemma ContainsTrans(s: string, t: string, u: string)
    requires Contains(s, t) && Contains(t, u)
    ensures Contains(s, u)
  {
    var i :| 0 <= i <= |s| - |t| && OccursAt(s, t, i);
    var j :| 0 <= j <= |t| - |u| && OccursAt(t, u, j);
    forall k | 0 <= k < |u| ensures s[i + j..i + j + |u|][k] == u[k] {
      assert s[i..i + |t|][j + k] == t[j + k];
      assert t[j..j + |u|][k] == t[j + k];
    }
    assert OccursAt(s, u, i + j);
  }

  /** A trimmed piece is a substring of the piece. */
  lemma TrimContained(p: string)
    ensures Contains(p, Trim(p))
    ensures forall c :: c in Trim(p) ==> c in p
  {
    var i, j :| 0 <= i <= j <= |p| && Trim(p) == p[i..j]
                && AllWhiteSpace(p[..i]) && AllWhiteSpace(p[j..]);
    assert OccursAt(p, Trim(p), i);
  }

  /** Every keyword is non-empty, has no comma, begins and ends with a
      character that is not white space, and is a substring of the query. */
  lemma KeywordShape(query: string, k: int)
    requires 0 <= k < |ParseKeywords(query)|
    ensures var kw := ParseKeywords(query)[k];
      kw != [] && ',' !in kw && !IsWhiteSpace(kw[0]) && !IsWhiteSpace(kw[|kw| - 1])
      && Contains(query, kw)
  {
    var pieces := Split(query, ',');
    var trimmed := TrimAll(pieces);
    var kw := ParseKeywords(query)[k];
    assert kw in trimmed;
    var m :| 0 <= m < |trimmed| && trimmed[m] == kw;
    TrimContained(pieces[m]);
    SplitJoin(query, ',');
    JoinContainsPiece(pieces, ',', m);
    ContainsTrans(query, pieces[m], kw);
  }

  /** Splitting off, and then extending, the first piece of a concatenation
      of pieces. */
  lemma ConcatHead(h: string, left: seq<string>, right: seq<string>)
    requires |left| >= 1
    ensures (left + right)[0] == left[0] && (left + right)[1..] == left[1..] + right
    ensures [h + left[0]] + (left[1..] + right) == ([h + left[0]] + left[1..]) + right
  {
  }

  lemma {:induction false} SplitAppend(a: string, sep: char, b: string)
    ensures Split(a + [sep] + b, sep) == Split(a, sep) + Split(b, sep)
  {
    var s := a + [sep] + b;
    if a == [] {
      assert s == [sep] + b && s[1..] == b;
      assert Split(s, sep) == [[]] + Split(b, sep);
    } else {
      var t := a[1..] + [sep] + b;
      assert s[0] == a[0] && s[1..] == t;
      SplitAppend(a[1..], sep, b);
      var left := Split(a[1..], sep);
      if a[0] == sep {
        assert Split(s, sep) == [[]] + Split(t, sep);
        assert Split(a, sep) == [[]] + left;
      } else {
        ConcatHead([a[0]], left, Split(b, sep));
        assert Split(s, sep) == [[a[0]] + Split(t, sep)[0]] + Split(t, sep)[1..];
      }
    }
  }

  lemma {:induction false} TrimAllAppend(p: seq<string>, q: seq<string>)
    ensures TrimAll(p + q) == TrimAll(p) + TrimAll(q)
  {
  }

  lemma {:induction false} NonEmptyAppend(p: seq<string>, q: seq<string>)
    ensures NonEmpty(p + q) == NonEmpty(p) + NonEmpty(q)
  {
    if p == [] {
      assert p + q == q;
    } else {
      var t := p[1..] + q;
      assert (p + q)[0] == p[0] && (p + q)[1..] == t;
      NonEmptyAppend(p[1..], q);
      var head: seq<string> := if p[0] == [] then [] else [p[0]];
      assert NonEmpty(p + q) == head + NonEmpty(t);
      assert NonEmpty(p) == head + NonEmpty(p[1..]);
    }
  }

  /** Keywords keep query order and duplicates: the keywords of `a,b` are
      those of `a` followed by those of `b`. */
  lemma KeywordsAppend(a: string, b: string)
    ensures ParseKeywords(a + "," + b) == ParseKeywords(a) + ParseKeywords(b)
  {
    SplitAppend(a, ',', b);
    TrimAllAppend(Split(a, ','), Split(b, ','));
    NonEmptyAppend(TrimAll(Split(a, ',')), TrimAll(Split(b, ',')));
  }

  lemma {:induction false} SplitNoSeparator(w: string, sep: char)
    requires sep !in w
    ensures Split(w, sep) == [w]
  {
    if w != [] {
      SplitNoSeparator(w[1..], sep);
      assert [w[0]] + w[1..] == w;
    }
  }

  /** A piece that is already a keyword parses to itself. */
  lemma SingleKeyword(w: string)
    requires w != [] && ',' !in w && !IsWhiteSpace(w[0]) && !IsWhiteSpace(w[|w| - 1])
    ensures ParseKeywords(w) == [w]
  {
    SplitNoSeparator(w, ',');
    assert LeadingSpace(w) == 0;
    assert w[0..] == w;
    assert TrailingSpace(w) == |w|;
    assert Trim(w) == w;
    assert TrimAll([w]) == [w];
    assert [w][1..] == [];
    assert NonEmpty([w]) == [w];
  }

  /** Duplicates are kept: `"a,a"` gives two keywords `a`. */
  lemma DuplicatesKept(w: string)
    requires w != [] && ',' !in w && !IsWhiteSpace(w[0]) && !IsWhiteSpace(w[|w| - 1])
    ensures ParseKeywords(w + "," + w) == [w, w]
  {
    KeywordsAppend(w, w);
    SingleKeyword(w);
  }
}
