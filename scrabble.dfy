/**
 * The `Scrabble` table: rows keyed by word, a list of column names, and the
 * optional list of columns to show. Points are added in place; matching
 * gives a new table with the same display setting and, unless rack matching
 * runs on a table without rows, the same columns.
 */
module Frame {
  import opened Wrappers
  import opened Text
  import opened Tiles
  import opened Lexicon
  import opened Matcher
  import opened Zyzzyva

  /** Raised by `__repr__` when no selected display column is in the table. */
  datatype DisplayError = NoDisplayColumnPresent(selected: seq<string>)

  /**
   * The names of `selected` that are columns, in the order selected; a name
   * selected twice is shown twice.
   */
  function Present(selected: seq<string>, columns: seq<string>): (r: seq<string>)
    ensures forall c :: c in r <==> c in selected && c in columns
    ensures forall c :: multiset(r)[c] == if c in columns then multiset(selected)[c] else 0
    ensures IsSubsequence(r, selected)
  {
    if selected == [] then []
    else
      assert selected == [selected[0]] + selected[1..];
      if selected[0] in columns then [selected[0]] + Present(selected[1..], columns)
      else Present(selected[1..], columns)
  }

  class Scrabble<E> {
    var rows: seq<Row<E>>
    var columns: seq<string>
    var displayColumns: Option<seq<string>>

    /** A row has points exactly when the table has a `points` column, and then they are the word's. */
    ghost predicate Valid()
      reads this
    {
      forall i :: 0 <= i < |rows| ==>
        if PointsColumn in columns then rows[i].points == Some(Points(rows[i].word))
        else rows[i].points == None
    }

    /** `Scrabble(df, display_columns=...)`. */
    constructor (rows: seq<Row<E>>, columns: seq<string>, displayColumns: Option<seq<string>>)
      ensures this.rows == rows && this.columns == columns && this.displayColumns == displayColumns
    {
      this.rows := rows;
      this.columns := columns;
      this.displayColumns := displayColumns;
    }

    /**
     * `add_points`: every row's points become its word's score, and the table
     * gains a `points` column unless it had one; nothing else changes.
     */
    method AddPoints()
      modifies this
      ensures |rows| == |old(rows)|
      ensures forall i :: 0 <= i < |rows| ==>
                rows[i] == old(rows[i]).(points := Some(Points(old(rows[i]).word)))
      ensures columns == if PointsColumn in old(columns) then old(columns) else old(columns) + [PointsColumn]
      ensures displayColumns == old(displayColumns)
      ensures Valid()
    {
      var i := 0;
      while i < |rows|
        invariant 0 <= i <= |rows| == |old(rows)|
        invariant columns == old(columns) && displayColumns == old(displayColumns)
        invariant forall k :: 0 <= k < i ==>
                    rows[k] == old(rows[k]).(points := Some(Points(old(rows[k]).word)))
        invariant forall k :: i <= k < |rows| ==> rows[k] == old(rows[k])
      {
        rows := rows[i := rows[i].(points := Some(Points(rows[i].word)))];
        i := i + 1;
      }
      if PointsColumn !in columns {
        columns := columns + [PointsColumn];
      }
    }

    /**
     * `match`: the rows the pattern selects, in a new table with the same
     * columns; a pattern without '_' goes through `match_rack`, and so loses
     * the columns of a table without rows.
     */
    method Match(pattern: string) returns (found: Scrabble<E>)
      ensures fresh(found)
      ensures found.rows == Matcher.Match(rows, pattern)
      ensures found.columns == if rows == [] && '_' !in pattern then [] else columns
      ensures found.displayColumns == displayColumns
      ensures Valid() ==> found.Valid()
    {
      if '_' in pattern {
        found := new Scrabble(Matcher.Match(rows, pattern), columns, displayColumns);
        MatchKeepsValid(rows, Matcher.Match(rows, pattern), columns);
      } else {
        found := MatchRack(pattern);
      }
    }

    /**
     * `match_rack`: the rows whose word the rack can form, in a new table with
     * the same columns. On a table without rows the mask is an empty index of
     * objects, which pandas reads as a list of column names, so the result
     * has no columns either.
     */
    method MatchRack(rack: string) returns (found: Scrabble<E>)
      ensures fresh(found)
      ensures found.rows == Matcher.MatchRack(rows, rack)
      ensures found.columns == if rows == [] then [] else columns
      ensures found.displayColumns == displayColumns
      ensures Valid() ==> found.Valid()
    {
      var kept := Matcher.MatchRack(rows, rack);
      found := new Scrabble(kept, if rows == [] then [] else columns, displayColumns);
      MatchKeepsValid(rows, kept, columns);
    }

    /**
     * The columns `__repr__` shows: all of them unless display columns are
     * selected; otherwise the selected ones that exist, in the order selected,
     * and an error when none of them exists.
     */
    function ShownColumns(): (r: Result<seq<string>, DisplayError>)
      reads this
      ensures displayColumns.None? || displayColumns.value == [] ==> r == Success(columns)
      ensures displayColumns.Some? && displayColumns.value != [] ==>
                && (r.Failure? <==> forall k :: 0 <= k < |displayColumns.value| ==> displayColumns.value[k] !in columns)
                && (r.Failure? ==> r.error == NoDisplayColumnPresent(displayColumns.value))
                && (r.Success? ==> IsSubsequence(r.value, displayColumns.value))
                && (r.Success? ==> forall c :: c in r.value <==> c in displayColumns.value && c in columns)
                && (r.Success? ==> forall c :: multiset(r.value)[c]
                                               == if c in columns then multiset(displayColumns.value)[c] else 0)
    {
      if displayColumns.None? || displayColumns.value == [] then Success(columns)
      else
        var available := Present(displayColumns.value, columns);
        if available != [] then
          assert available[0] in displayColumns.value && available[0] in columns;
          Success(available)
        else Failure(NoDisplayColumnPresent(displayColumns.value))
    }
  }

  /** Keeping only some rows keeps the points invariant. */
  lemma MatchKeepsValid<E>(rows: seq<Row<E>>, kept: seq<Row<E>>, columns: seq<string>)
    requires forall x :: x in kept ==> x in rows
    ensures (forall i :: 0 <= i < |rows| ==>
               if PointsColumn in columns then rows[i].points == Some(Points(rows[i].word))
               else rows[i].points == None)
            ==> (forall i :: 0 <= i < |kept| ==>
               if PointsColumn in columns then kept[i].points == Some(Points(kept[i].word))
               else kept[i].points == None)
  {
    forall i | 0 <= i < |kept| ensures kept[i] in rows {
    }
  }

  /**
   * `load_zyzzyva_lexicon`: the file's rows under the columns `definition` and
   * `forms`, or an empty table with no columns when the file cannot be read.
   */
  method LoadZyzzyvaLexicon(file: Option<seq<string>>) returns (lexicon: Scrabble<Entry>)
    ensures fresh(lexicon)
    ensures file.Some? ==> lexicon.rows == ParseAll(file.value) && lexicon.columns == LoadedColumns
    ensures file.None? ==> lexicon.rows == [] && lexicon.columns == []
    ensures lexicon.displayColumns == None
    ensures lexicon.Valid()
  {
    if file.None? {
      lexicon := new Scrabble([], [], None);
    } else {
      var data := LoadRows(file.value);
      lexicon := new Scrabble(data, LoadedColumns, None);
    }
  }
}
