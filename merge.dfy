/**
 * `merge_lexicons`: a full outer join of two lexicons on the word. Words of
 * both sides appear once each, in ascending order; the `forms` column of each
 * side is kept under a suffixed name (`forms_csw`, `forms_nwl`), the
 * definition is the first side's when it has one and the second side's
 * otherwise, and two flags tell which words only one side has.
 */
module Merge {
  import opened Wrappers
  import opened Lexicon

  /** Python's `<` on strings: code point by code point, a proper prefix first. */
  predicate Below(a: string, b: string)
  {
    if a == [] then b != []
    else b != [] && (a[0] < b[0] || (a[0] == b[0] && Below(a[1..], b[1..])))
  }

  lemma {:induction false} BelowIrreflexive(a: string)
    ensures !Below(a, a)
  {
    if a != [] {
      BelowIrreflexive(a[1..]);
    }
  }

  lemma {:induction false} BelowTransitive(a: string, b: string, c: string)
    requires Below(a, b) && Below(b, c)
    ensures Below(a, c)
  {
    if a != [] && a[0] == b[0] && b[0] == c[0] {
      BelowTransitive(a[1..], b[1..], c[1..]);
    }
  }

  lemma {:induction false} BelowTotal(a: string, b: string)
    requires a != b
    ensures Below(a, b) || Below(b, a)
  {
    if a != [] && b != [] && a[0] == b[0] {
      assert a == [a[0]] + a[1..] && b == [b[0]] + b[1..];
      BelowTotal(a[1..], b[1..]);
    }
  }

  lemma BelowAsymmetric(a: string, b: string)
    requires Below(a, b)
    ensures !Below(b, a)
  {
    if Below(b, a) {
      BelowTransitive(a, b, a);
      BelowIrreflexive(a);
    }
  }

  /** Strictly ascending, so also free of repeats. */
  ghost predicate Ascending(s: seq<string>)
  {
    forall i, j :: 0 <= i < j < |s| ==> Below(s[i], s[j])
  }

  /** Puts `x` into its place in an ascending sequence, unless it is there already. */
  function Insert(s: seq<string>, x: string): (r: seq<string>)
    ensures forall y :: y in r <==> y in s || y == x
  {
    if s == [] then [x]
    else if s[0] == x then s
    else if Below(x, s[0]) then [x] + s
    else [s[0]] + Insert(s[1..], x)
  }

  lemma {:induction false} InsertAscending(s: seq<string>, x: string)
    requires Ascending(s)
    ensures Ascending(Insert(s, x))
  {
    if s != [] && s[0] != x {
      if Below(x, s[0]) {
        forall j | 0 < j < |s| ensures Below(x, s[j]) {
          BelowTransitive(x, s[0], s[j]);
        }
      } else {
        BelowTotal(x, s[0]);
        InsertAscending(s[1..], x);
        var r := Insert(s[1..], x);
        forall j | 0 <= j < |r| ensures Below(s[0], r[j]) {
          assert r[j] in r;
          if r[j] != x {
            var k :| 0 <= k < |s[1..]| && s[1..][k] == r[j];
            assert s[k + 1] == r[j];
          }
        }
      }
    }
  }

  /** The distinct words of `words` in ascending order: the order of an outer join's index. */
  function SortedWords(words: seq<string>): (r: seq<string>)
    ensures forall y :: y in r <==> y in words
  {
    if words == [] then [] else Insert(SortedWords(words[1..]), words[0])
  }

  lemma {:induction false} SortedWordsAscending(words: seq<string>)
    ensures Ascending(SortedWords(words))
  {
    if words != [] {
      SortedWordsAscending(words[1..]);
      InsertAscending(SortedWords(words[1..]), words[0]);
    }
  }

  lemma SameElementsBothEmpty(a: seq<string>, b: seq<string>)
    requires forall y :: y in a <==> y in b
    ensures a == [] <==> b == []
  {
    if a != [] {
      assert a[0] in a;
    }
    if b != [] {
      assert b[0] in b;
    }
  }

  /** Two ascending sequences with the same elements are the same sequence. */
  lemma {:induction false} AscendingUnique(a: seq<string>, b: seq<string>)
    requires Ascending(a) && Ascending(b)
    requires forall y :: y in a <==> y in b
    ensures a == b
  {
    SameElementsBothEmpty(a, b);
    if a != [] {
      assert a[0] in b && b[0] in a;
      if a[0] != b[0] {
        var i :| 0 <= i < |b| && b[i] == a[0];
        var j :| 0 <= j < |a| && a[j] == b[0];
        assert Below(b[0], a[0]) by { assert i > 0; }
        assert Below(a[0], b[0]) by { assert j > 0; }
        BelowAsymmetric(a[0], b[0]);
      }
      forall y ensures y in a[1..] <==> y in b[1..] {
        if y in a[1..] {
          var k :| 0 <= k < |a| - 1 && a[1..][k] == y;
          assert Below(a[0], y) by { assert a[k + 1] == y; }
          BelowIrreflexive(y);
          assert y in b;
        }
        if y in b[1..] {
          var k :| 0 <= k < |b| - 1 && b[1..][k] == y;
          assert Below(b[0], y) by { assert b[k + 1] == y; }
          BelowIrreflexive(y);
          assert y in a;
        }
      }
      AscendingUnique(a[1..], b[1..]);
      assert a == [a[0]] + a[1..] && b == [b[0]] + b[1..];
    }
  }

  /** The words of a table, row by row. */
  function WordList<E>(rows: seq<Row<E>>): (ws: seq<string>)
    ensures |ws| == |rows|
    ensures forall i :: 0 <= i < |rows| ==> ws[i] == rows[i].word
  {
    seq(|rows|, i requires 0 <= i < |rows| => rows[i].word)
  }

  /** The columns of the row with word `w`, if there is one. */
  function Lookup(rows: seq<Row<Entry>>, w: string): (e: Option<Entry>)
    ensures e.None? <==> w !in Words(rows)
    ensures e.Some? ==> exists i :: 0 <= i < |rows| && rows[i].word == w && rows[i].entry == e.value
  {
    if rows == [] then None
    else if rows[0].word == w then Some(rows[0].entry)
    else
      assert Words(rows) == {rows[0].word} + Words(rows[1..]) by {
        forall x | x in Words(rows) ensures x in {rows[0].word} + Words(rows[1..]) {
          var i :| 0 <= i < |rows| && rows[i].word == x;
          if i > 0 { assert rows[1..][i - 1].word == x; }
        }
      }
      Lookup(rows[1..], w)
  }

  /** In a table without repeated words, looking a row's word up finds that row. */
  lemma {:induction false} LookupAt(rows: seq<Row<Entry>>, i: nat)
    requires DistinctWords(rows) && i < |rows|
    ensures Lookup(rows, rows[i].word) == Some(rows[i].entry)
  {
    if i > 0 {
      assert rows[0].word != rows[i].word;
      LookupAt(rows[1..], i - 1);
    }
  }

  /** `combine_first`: the first value unless it is missing. */
  function Coalesce(first: Option<string>, second: Option<string>): (r: Option<string>)
    ensures first.Some? ==> r == first
    ensures r == first || r == second
    ensures r.None? <==> first.None? && second.None?
  {
    if first.Some? then first else second
  }

  /** The merged row for `w` from its rows on either side (at least one of them present). */
  function Joined(w: string, csw: Option<Entry>, nwl: Option<Entry>): (r: Row<MergedEntry>)
    ensures r.word == w && r.points.None?
    ensures !(r.entry.cswOnly && r.entry.nwlOnly)
    ensures csw.Some? && nwl.Some? ==> !r.entry.cswOnly && !r.entry.nwlOnly
    ensures csw.Some? && csw.value.definition.Some? ==> r.entry.definition == csw.value.definition
    ensures r.entry.definition.Some?
            <==> (csw.Some? && csw.value.definition.Some?) || (nwl.Some? && nwl.value.definition.Some?)
  {
    var cswDefinition := if csw.Some? then csw.value.definition else None;
    var nwlDefinition := if nwl.Some? then nwl.value.definition else None;
    Row(w, MergedEntry(
      formsCsw := if csw.Some? then Some(csw.value.forms) else None,
      formsNwl := if nwl.Some? then Some(nwl.value.forms) else None,
      definition := Coalesce(cswDefinition, nwlDefinition),
      cswOnly := csw.Some? && nwl.None?,
      nwlOnly := csw.None? && nwl.Some?), None)
  }

  /** The join's index holds exactly the words of the two tables. */
  lemma KeysAreWords(csw: seq<Row<Entry>>, nwl: seq<Row<Entry>>)
    ensures forall w :: w in SortedWords(WordList(csw) + WordList(nwl)) <==> w in Words(csw) + Words(nwl)
  {
    var all := WordList(csw) + WordList(nwl);
    forall w ensures w in all <==> w in Words(csw) + Words(nwl) {
      if w in all {
        var i :| 0 <= i < |all| && all[i] == w;
        if i < |csw| { assert csw[i].word == w; } else { assert nwl[i - |csw|].word == w; }
      }
      if w in Words(csw) {
        var i :| 0 <= i < |csw| && csw[i].word == w;
        assert all[i] == w;
      }
      if w in Words(nwl) {
        var i :| 0 <= i < |nwl| && nwl[i].word == w;
        assert all[|csw| + i] == w;
      }
    }
  }

  /**
   * `merge_lexicons(csw, nwl)`: one row per word of either side, in ascending
   * word order, so no word twice and no word lost.
   */
  function MergeLexicons(csw: seq<Row<Entry>>, nwl: seq<Row<Entry>>): (merged: seq<Row<MergedEntry>>)
    requires DistinctWords(csw) && DistinctWords(nwl)
    ensures Ascending(WordList(merged))
    ensures Words(merged) == Words(csw) + Words(nwl)
  {
    var keys := SortedWords(WordList(csw) + WordList(nwl));
    SortedWordsAscending(WordList(csw) + WordList(nwl));
    KeysAreWords(csw, nwl);
    var merged := seq(|keys|, k requires 0 <= k < |keys| => Joined(keys[k], Lookup(csw, keys[k]), Lookup(nwl, keys[k])));
    assert WordList(merged) == keys;
    assert Words(merged) == Words(csw) + Words(nwl) by {
      forall w ensures w in Words(merged) <==> w in keys {
        if w in keys {
          var k :| 0 <= k < |keys| && keys[k] == w;
          assert merged[k].word == w;
        }
      }
    }
    merged
  }

  /** Each merged row joins the two sides' rows for its word. */
  lemma MergedRowAt(csw: seq<Row<Entry>>, nwl: seq<Row<Entry>>, k: nat)
    requires DistinctWords(csw) && DistinctWords(nwl)
    requires k < |MergeLexicons(csw, nwl)|
    ensures var row := MergeLexicons(csw, nwl)[k];
            row == Joined(row.word, Lookup(csw, row.word), Lookup(nwl, row.word))
  {
  }

  /** A merged table never repeats a word. */
  lemma MergedWordsDistinct(csw: seq<Row<Entry>>, nwl: seq<Row<Entry>>)
    requires DistinctWords(csw) && DistinctWords(nwl)
    ensures DistinctWords(MergeLexicons(csw, nwl))
  {
    var merged := MergeLexicons(csw, nwl);
    forall i, j | 0 <= i < j < |merged| ensures merged[i].word != merged[j].word {
      assert Below(WordList(merged)[i], WordList(merged)[j]);
      BelowIrreflexive(merged[i].word);
    }
  }

  /**
   * The flags: `csw_only` iff the word is only in the first table, `nwl_only`
   * iff it is only in the second; never both, and neither iff it is in both.
   */
  lemma MergeFlags(csw: seq<Row<Entry>>, nwl: seq<Row<Entry>>, k: nat)
    requires DistinctWords(csw) && DistinctWords(nwl)
    requires k < |MergeLexicons(csw, nwl)|
    ensures var row := MergeLexicons(csw, nwl)[k];
            && (row.entry.cswOnly <==> row.word in Words(csw) && row.word !in Words(nwl))
            && (row.entry.nwlOnly <==> row.word !in Words(csw) && row.word in Words(nwl))
            && !(row.entry.cswOnly && row.entry.nwlOnly)
            && (!row.entry.cswOnly && !row.entry.nwlOnly <==> row.word in Words(csw) && row.word in Words(nwl))
  {
    var merged := MergeLexicons(csw, nwl);
    MergedRowAt(csw, nwl, k);
    assert merged[k].word in Words(merged);
  }

  /**
   * What the first table's row for a word becomes: its forms under `forms_csw`,
   * and its definition, when it has one, wins.
   */
  lemma MergeKeepsFirstRow(csw: seq<Row<Entry>>, nwl: seq<Row<Entry>>, k: nat, i: nat)
    requires DistinctWords(csw) && DistinctWords(nwl)
    requires k < |MergeLexicons(csw, nwl)| && i < |csw|
    requires csw[i].word == MergeLexicons(csw, nwl)[k].word
    ensures var row := MergeLexicons(csw, nwl)[k];
            && row.entry.formsCsw == Some(csw[i].entry.forms)
            && (csw[i].entry.definition.Some? ==> row.entry.definition == csw[i].entry.definition)
  {
    MergedRowAt(csw, nwl, k);
    LookupAt(csw, i);
  }

  /**
   * What the second table's row for a word becomes: its forms under
   * `forms_nwl`, and its definition when the first table has none for the word.
   */
  lemma MergeKeepsSecondRow(csw: seq<Row<Entry>>, nwl: seq<Row<Entry>>, k: nat, j: nat)
    requires DistinctWords(csw) && DistinctWords(nwl)
    requires k < |MergeLexicons(csw, nwl)| && j < |nwl|
    requires nwl[j].word == MergeLexicons(csw, nwl)[k].word
    ensures var row := MergeLexicons(csw, nwl)[k];
            && row.entry.formsNwl == Some(nwl[j].entry.forms)
            && ((forall i :: 0 <= i < |csw| && csw[i].word == row.word ==> csw[i].entry.definition.None?)
                ==> row.entry.definition == nwl[j].entry.definition)
  {
    var row := MergeLexicons(csw, nwl)[k];
    MergedRowAt(csw, nwl, k);
    LookupAt(nwl, j);
  }

  /** A side that lacks the word contributes nothing: its `forms` column is absent. */
  lemma MergeAbsentSide(csw: seq<Row<Entry>>, nwl: seq<Row<Entry>>, k: nat)
    requires DistinctWords(csw) && DistinctWords(nwl)
    requires k < |MergeLexicons(csw, nwl)|
    ensures var row := MergeLexicons(csw, nwl)[k];
            && (row.word !in Words(csw) ==> row.entry.formsCsw == None)
            && (row.word !in Words(nwl) ==> row.entry.formsNwl == None)
            && row.points == None
  {
    MergedRowAt(csw, nwl, k);
  }

  /**
   * Swapping the two tables gives the same words in the same order, with the
   * two flags swapped: membership does not depend on which side is first.
   */
  lemma MergeSymmetricMembership(csw: seq<Row<Entry>>, nwl: seq<Row<Entry>>, k: nat)
    requires DistinctWords(csw) && DistinctWords(nwl)
    ensures WordList(MergeLexicons(csw, nwl)) == WordList(MergeLexicons(nwl, csw))
    ensures k < |MergeLexicons(csw, nwl)| ==>
              && MergeLexicons(csw, nwl)[k].entry.cswOnly == MergeLexicons(nwl, csw)[k].entry.nwlOnly
              && MergeLexicons(csw, nwl)[k].entry.nwlOnly == MergeLexicons(nwl, csw)[k].entry.cswOnly
  {
    var ab, ba := MergeLexicons(csw, nwl), MergeLexicons(nwl, csw);
    forall y ensures y in WordList(ab) <==> y in WordList(ba) {
      if y in WordList(ab) {
        var k :| 0 <= k < |ab| && WordList(ab)[k] == y;
        assert ab[k].word in Words(ab);
        assert y in Words(ba);
        var m :| 0 <= m < |ba| && ba[m].word == y;
        assert WordList(ba)[m] == y;
      }
      if y in WordList(ba) {
        var k :| 0 <= k < |ba| && WordList(ba)[k] == y;
        assert ba[k].word in Words(ba);
        assert y in Words(ab);
        var m :| 0 <= m < |ab| && ab[m].word == y;
        assert WordList(ab)[m] == y;
      }
    }
    AscendingUnique(WordList(ab), WordList(ba));
    if k < |ab| {
      assert ab[k].word == ba[k].word by {
        assert WordList(ab)[k] == WordList(ba)[k];
      }
      MergeFlags(csw, nwl, k);
      MergeFlags(nwl, csw, k);
    }
  }
}
