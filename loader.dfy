/**
 * The `Loader`: holds the two lexicons once read and the merged table once
 * built. Reading a lexicon never leaves it unset (an unreadable file gives an
 * empty table without columns), and merging refuses to run while either
 * lexicon is unset and fails when either has no `definition` column.
 */
module Loading {
  import opened Wrappers
  import opened Lexicon
  import opened Merge
  import opened Frame
  import Zyzzyva

  /**
   * Raised by `create_merged`: a lexicon has not been read, or the join has no
   * column of the given name to coalesce.
   */
  datatype LoaderError = LexiconsNotLoaded | MissingColumn(name: string)

  /**
   * `pd.merge` adds the `_csw` and `_nwl` suffixes only to column names both
   * tables have, so `definition_csw` exists exactly when both have `definition`.
   */
  predicate JoinHasDefinitions(cswColumns: seq<string>, nwlColumns: seq<string>)
  {
    "definition" in cswColumns && "definition" in nwlColumns
  }

  class Loader {
    var csw: Scrabble?<Entry>
    var nwl: Scrabble?<Entry>
    var data: Scrabble?<MergedEntry>

    /** A loader with nothing read yet. */
    constructor ()
      ensures csw == null && nwl == null && data == null
    {
      csw := null;
      nwl := null;
      data := null;
    }

    /** `load_csw`: reads the first lexicon from the contents of its file. */
    method LoadCsw(file: Option<seq<string>>) returns (lexicon: Scrabble<Entry>)
      modifies this
      ensures fresh(lexicon) && csw == lexicon
      ensures file.Some? ==> lexicon.rows == Zyzzyva.ParseAll(file.value) && lexicon.columns == LoadedColumns
      ensures file.None? ==> lexicon.rows == [] && lexicon.columns == []
      ensures nwl == old(nwl) && data == old(data)
      ensures lexicon.displayColumns == None && lexicon.Valid()
    {
      lexicon := LoadZyzzyvaLexicon(file);
      csw := lexicon;
    }

    /** `load_nwl`: reads the second lexicon from the contents of its file. */
    method LoadNwl(file: Option<seq<string>>) returns (lexicon: Scrabble<Entry>)
      modifies this
      ensures fresh(lexicon) && nwl == lexicon
      ensures file.Some? ==> lexicon.rows == Zyzzyva.ParseAll(file.value) && lexicon.columns == LoadedColumns
      ensures file.None? ==> lexicon.rows == [] && lexicon.columns == []
      ensures csw == old(csw) && data == old(data)
      ensures lexicon.displayColumns == None && lexicon.Valid()
    {
      lexicon := LoadZyzzyvaLexicon(file);
      nwl := lexicon;
    }

    /**
     * `create_merged`: an error, with nothing changed, while either lexicon is
     * unset or when the join has no `definition_csw` column to coalesce (a
     * lexicon read from an unreadable file has no columns); otherwise the
     * merge of the two, which also becomes `data`. Its columns are the five
     * merged ones only when neither lexicon has gained `points`.
     */
    method CreateMerged() returns (r: Result<Scrabble<MergedEntry>, LoaderError>)
      requires csw != null && nwl != null ==> DistinctWords(csw.rows) && DistinctWords(nwl.rows)
      modifies this
      ensures csw == old(csw) && nwl == old(nwl)
      ensures old(csw) == null || old(nwl) == null ==> r == Failure(LexiconsNotLoaded) && data == old(data)
      ensures old(csw) != null && old(nwl) != null && !JoinHasDefinitions(old(csw.columns), old(nwl.columns)) ==>
                r == Failure(MissingColumn("definition_csw")) && data == old(data)
      ensures old(csw) != null && old(nwl) != null && JoinHasDefinitions(old(csw.columns), old(nwl.columns)) ==>
                && r.Success? && fresh(r.value) && data == r.value
                && r.value.rows == MergeLexicons(old(csw.rows), old(nwl.rows))
                && r.value.displayColumns == None
      ensures old(csw) != null && old(nwl) != null && JoinHasDefinitions(old(csw.columns), old(nwl.columns))
              && PointsColumn !in old(csw.columns) && PointsColumn !in old(nwl.columns) ==>
                r.Success? && r.value.columns == MergedColumns && r.value.Valid()
    {
      if csw == null || nwl == null {
        return Failure(LexiconsNotLoaded);
      }
      if !JoinHasDefinitions(csw.columns, nwl.columns) {
        return Failure(MissingColumn("definition_csw"));
      }
      var rows := MergeLexicons(csw.rows, nwl.rows);
      forall k | 0 <= k < |rows| ensures rows[k].points == None {
        MergeAbsentSide(csw.rows, nwl.rows, k);
      }
      assert PointsColumn !in MergedColumns;
      var merged := new Scrabble(rows, MergedColumns, None);
      data := merged;
      r := Success(merged);
    }

    /**
     * `load_merged`: reads both lexicons and merges them; the merge fails,
     * leaving `data` as it was, exactly when a file cannot be read.
     */
    method LoadMerged(cswFile: Option<seq<string>>, nwlFile: Option<seq<string>>)
      returns (r: Result<Scrabble<MergedEntry>, LoaderError>)
      requires cswFile.Some? ==> DistinctWords(Zyzzyva.ParseAll(cswFile.value))
      requires nwlFile.Some? ==> DistinctWords(Zyzzyva.ParseAll(nwlFile.value))
      modifies this
      ensures csw != null && nwl != null && fresh(csw) && fresh(nwl)
      ensures DistinctWords(csw.rows) && DistinctWords(nwl.rows)
      ensures cswFile.Some? ==> csw.rows == Zyzzyva.ParseAll(cswFile.value)
      ensures nwlFile.Some? ==> nwl.rows == Zyzzyva.ParseAll(nwlFile.value)
      ensures r.Success? <==> cswFile.Some? && nwlFile.Some?
      ensures r.Failure? ==> r.error == MissingColumn("definition_csw") && data == old(data)
      ensures r.Success? ==> fresh(r.value) && data == r.value && r.value.rows == MergeLexicons(csw.rows, nwl.rows)
      ensures r.Success? ==> r.value.columns == MergedColumns && r.value.displayColumns == None && r.value.Valid()
    {
      var _ := LoadCsw(cswFile);
      var _ := LoadNwl(nwlFile);
      assert "definition" in LoadedColumns && PointsColumn !in LoadedColumns;
      r := CreateMerged();
    }
  }
}
