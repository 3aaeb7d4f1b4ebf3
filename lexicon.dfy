/**
 * The rows of a lexicon table. The table's index is the word; the other
 * columns depend on how the table was made: a lexicon read from a word list
 * has `definition` and `forms`, a merged one has the columns `merge_lexicons`
 * leaves, and `add_points` adds `points` to either.
 */
module Lexicon {
  import opened Wrappers

  /** The columns of a lexicon read from a word list: an optional definition and the inflected forms. */
  datatype Entry = Entry(definition: Option<string>, forms: seq<string>)

  /**
   * The columns of a merged lexicon: each side's `forms` (absent when the word
   * is not in that side), the coalesced `definition`, and the two membership flags.
   */
  datatype MergedEntry = MergedEntry(
    formsCsw: Option<seq<string>>,
    formsNwl: Option<seq<string>>,
    definition: Option<string>,
    cswOnly: bool,
    nwlOnly: bool)

  /** One row: the index value, the other columns, and `points` once it has been computed. */
  datatype Row<E> = Row(word: string, entry: E, points: Option<int>)

  /** Column names, in the order the tables hold them. */
  const LoadedColumns: seq<string> := ["definition", "forms"]
  const MergedColumns: seq<string> := ["forms_csw", "forms_nwl", "definition", "csw_only", "nwl_only"]
  const PointsColumn: string := "points"

  /** The words (index values) of a table. */
  function Words<E>(rows: seq<Row<E>>): (words: set<string>)
  {
    set i | 0 <= i < |rows| :: rows[i].word
  }

  /** No word is the index of two rows. */
  predicate DistinctWords<E>(rows: seq<Row<E>>)
  {
    forall i, j :: 0 <= i < j < |rows| ==> rows[i].word != rows[j].word
  }

  /** `a` is `b` with some elements left out, in the same order. */
  ghost predicate IsSubsequence<T>(a: seq<T>, b: seq<T>)
  {
    || a == []
    || (b != [] && ((a[0] == b[0] && IsSubsequence(a[1..], b[1..])) || IsSubsequence(a, b[1..])))
  }

  /**
   * Boolean-mask selection `self[mask]` with the mask computed from the index:
   * the rows whose word satisfies `keep`, unchanged, in their order.
   */
  function Filter<E>(rows: seq<Row<E>>, keep: string -> bool): (r: seq<Row<E>>)
    ensures |r| <= |rows|
    ensures forall x :: x in r ==> x in rows && keep(x.word)
    ensures forall x :: x in rows && keep(x.word) ==> x in r
  {
    if rows == [] then []
    else (if keep(rows[0].word) then [rows[0]] else []) + Filter(rows[1..], keep)
  }

  /** Selection keeps the rows in order and adds nothing. */
  lemma {:induction false} FilterIsSubsequence<E>(rows: seq<Row<E>>, keep: string -> bool)
    ensures IsSubsequence(Filter(rows, keep), rows)
  {
    if rows != [] {
      var rest := Filter(rows[1..], keep);
      FilterIsSubsequence(rows[1..], keep);
      if keep(rows[0].word) {
        assert Filter(rows, keep) == [rows[0]] + rest;
        assert ([rows[0]] + rest)[1..] == rest;
      } else {
        assert Filter(rows, keep) == rest;
      }
    }
  }

  /** Selection distributes over concatenation, so row order is kept across any split. */
  lemma {:induction false} FilterAppend<E>(a: seq<Row<E>>, b: seq<Row<E>>, keep: string -> bool)
    ensures Filter(a + b, keep) == Filter(a, keep) + Filter(b, keep)
  {
    if a == [] {
      assert a + b == b;
    } else {
      var h := if keep(a[0].word) then [a[0]] else [];
      assert (a + b)[0] == a[0];
      assert (a + b)[1..] == a[1..] + b;
      assert Filter(a + b, keep) == h + Filter(a[1..] + b, keep);
      FilterAppend(a[1..], b, keep);
      assert h + (Filter(a[1..], keep) + Filter(b, keep)) == (h + Filter(a[1..], keep)) + Filter(b, keep);
    }
  }

  /** Selecting twice with the same mask selects nothing more. */
  lemma {:induction false} FilterIdempotent<E>(rows: seq<Row<E>>, keep: string -> bool)
    ensures Filter(Filter(rows, keep), keep) == Filter(rows, keep)
  {
    if rows != [] {
      FilterIdempotent(rows[1..], keep);
      var head := if keep(rows[0].word) then [rows[0]] else [];
      FilterAppend(head, Filter(rows[1..], keep), keep);
    }
  }
}
