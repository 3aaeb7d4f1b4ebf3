# Scrabble word lists, modelled in Dafny

This project models `scrabble.py`, a small tool for working with Scrabble word
lists. It has four parts:

- **Reading.** The tool reads the two Zyzzyva lexicons: CSW, the Collins
  Scrabble Words list, and NWL, the NASPA Word List.
- **Merging.** It merges them into one table keyed by word. The table keeps
  each list's forms, a coalesced definition, and two flags for words that
  only one list has.
- **Scoring.** It adds each word's score from the English tile values.
- **Matching.** It searches the table in two ways.
  - A pattern with `_` is a fixed-position pattern. Each `_` stands for one
    letter.
  - Any other pattern is a rack of tiles, where `?` is a blank.

The model has one module per concern:

| module | file | models |
|---|---|---|
| `Wrappers` | wrappers.dfy | `Option` and `Result`, which stand for `None` and for raised errors |
| `Text` | text.dfy | the string operations the source uses: `upper`, `strip` and `strip('[]')`, and `split(',')`; `IndexOf` and `LastIndexOf` find the cut that `split(' ', 1)` and `rsplit('[', 1)` make; `Join` and `Padded` serve only the model's line writer `Format` and its round trip |
| `Tiles` | tiles.dfy | the `POINTS_EN` and `DISTRIB_EN` tables and the word score |
| `Lexicon` | lexicon.dfy | table rows and column names, and row filtering |
| `Rack` | rack.dfy | the rack rule of `match_rack` |
| `FixedPosition` | fixed.dfy | how `match` turns a `_` pattern into a regular expression, and how that expression matches |
| `Matcher` | matcher.dfy | how `match` chooses between fixed-position matching and rack matching |
| `Merge` | merge.dfy | the outer join of `merge_lexicons` |
| `Zyzzyva` | zyzzyva.dfy | the line format read by `load_zyzzyva_lexicon` |
| `Frame` | scrabble.dfy | the `Scrabble` table class |
| `Loading` | loader.dfy | the `Loader` class |

**Table state.**
- A table is a `Scrabble` object with three fields: its rows (word, columns,
  optional points), its column names, and its optional display columns.
- `AddPoints` updates the rows in place with a loop.
- The loader's `csw`, `nwl` and `data` fields are nullable references. This
  mirrors the `None` the Python attributes start with.

**Matching.** The code sends every pattern without `_` to rack matching. That
includes a pattern such as `^A.*Z$`, which the docstring of `match` presents as
a regular expression. The model follows the code, and
`Matcher.RegexLookingPatternIsRack` shows what happens: `^A.*Z$` used as a rack
matches neither AMAZE nor ABUZZ.

**Fixed-position patterns.** These are modelled as the code builds them:
1. each `_` becomes `.{1}`;
2. the whole pattern is upper-cased;
3. the result is anchored with `^…$`.

The model then compiles that regular expression (its only constructs are
literals and `.{1}`) into one atom per position. It matches the atoms with
Python's `re.match` semantics:
- `.` does not match a line break;
- `$` also matches just before a final line break.

Word case is compared as written, so an upper-case pattern does not match a
lower-case word.

## Model

| member | source | states |
|---|---|---|
| Tiles.TablesShareKeys | scrabble.py:12-21 | the points table and the distribution table have the same keys |
| Tiles.TableKeysAreSymbols | scrabble.py:12-16 | the points table's keys are exactly the 26 capital letters and `?` |
| Tiles.TableSize | scrabble.py:12-21 | both tables have 27 entries |
| Tiles.DistributionTotal | scrabble.py:17-21 | the distribution adds up to a 100-tile set |
| Tiles.LetterPoints | scrabble.py:203-204 | a character scores at most 10, and only a letter scores anything (the `get(…, 0)` default covers everything else) |
| Tiles.Points | scrabble.py:203-204 | a word scores at most 10 per character, and scores nothing exactly when none of its characters scores anything |
| Tiles.PointsAppend | scrabble.py:203-204 | the score is a sum: the score of a concatenation is the sum of the scores |
| Tiles.PointsIgnoresCase | scrabble.py:204 | letters are upper-cased before lookup, so case does not change a score |
| Tiles.PointsSkipsNonTiles | scrabble.py:204 | a character with no entry in the table adds nothing |
| Tiles.PointsExamples | scrabble.py:203-204 | CAT and cat score 5; two blanks score 0 |
| Rack.FormableIffDeficit | scrabble.py:278-281 | the counting rule (letters the rack lacks are at most the blanks) holds exactly when the word can be laid tile by tile, using a blank only where the letter's own tile has run out |
| Rack.CanFormIffFormable | scrabble.py:274-283 | `can_form` on the upper-cased rack and word is that tile-laying reading |
| Rack.FormableLength | scrabble.py:278-281 | a word that can be laid needs no more tiles than there are |
| Rack.MatchedWordFitsRack | scrabble.py:274-283 | a matched word (without `?` of its own) is no longer than the rack |
| Rack.CanForm | scrabble.py:276-281 | a word whose letters the rack holds, with their counts, always matches; with no blank in the rack, a word matches exactly when the rack holds its letters with their counts |
| Rack.MissingLetterRejects | scrabble.py:278-281 | without blanks, a letter the rack lacks rules the word out |
| Rack.MoreTilesKeepMatch | scrabble.py:278-281 | adding a tile to the rack never loses a match |
| Rack.CanFormIgnoresCase | scrabble.py:276-279 | rack and word are upper-cased, so case does not matter |
| Rack.AllayFromLalla | scrabble.py:256-259 | the rack LALLA?? forms ALLAY |
| Rack.AlarmFromLalla | scrabble.py:256-259 | the rack LALLA?? forms ALARM |
| Rack.CatFromCaBlank | scrabble.py:278-281 | the rack CA? forms CAT |
| Rack.CabFromCaBlank | scrabble.py:278-281 | the rack CA? forms CAB |
| Rack.NoDogFromCaBlank | scrabble.py:278-281 | the rack CA? does not form DOG (three letters missing, one blank) |
| Rack.NoBatFromAb | scrabble.py:278-281 | the rack AB does not form BAT |
| FixedPosition.ReplaceBlanks | scrabble.py:267 | the replacement leaves no `_`, and a pattern without `_` comes back unchanged |
| FixedPosition.Atoms | scrabble.py:266-268 | one position per pattern character |
| FixedPosition.ReplacementParses | scrabble.py:267 | the upper-cased replacement reads back as one atom per pattern character: any character for `_`, the upper-cased letter otherwise |
| FixedPosition.Translate | scrabble.py:266-268 | the anchored, upper-cased expression built from a pattern without other regex metacharacters compiles to exactly one atom per pattern position |
| FixedPosition.FixedMatches | scrabble.py:266-272 | a word (without line breaks) matches exactly when it has the pattern's length and has the upper-cased pattern letter at every non-`_` position |
| FixedPosition.AllBlanksMatchLength | scrabble.py:266-272 | a pattern of only `_` matches exactly the words of its length |
| FixedPosition.PatternCaseIgnored | scrabble.py:267 | the pattern is upper-cased, so its case does not matter |
| FixedPosition.NineLetterExamples | scrabble.py:249-253 | `__O_E_O__` matches WHOLESOME and CLOSEDOWN but not WHOLESOMELY |
| FixedPosition.SecondLetterExamples | scrabble.py:266-272 | `_O__` matches BOAT and ROOM but not OATS; `_o__` matches ROOM |
| FixedPosition.LineBreakExamples | scrabble.py:268-272 | `A_` matches `AB` followed by a line break but not `A` and a line break; `a_` does not match the lower-case `ab` |
| Lexicon.Filter | scrabble.py:272 | boolean selection keeps exactly the rows whose word passes, and no more rows than there were |
| Lexicon.FilterIsSubsequence | scrabble.py:272 | selection keeps the rows in their order |
| Lexicon.FilterAppend | scrabble.py:272 | selecting from two tables one after the other is selecting from each |
| Lexicon.FilterIdempotent | scrabble.py:272 | selecting twice with the same test is selecting once |
| Matcher.MatchRack | scrabble.py:274-283 | the result is exactly the rows whose word the rack can form |
| Matcher.Match | scrabble.py:230-272 | with `_` in the pattern, exactly the rows whose word fits the positions; otherwise `match_rack`'s result |
| Matcher.MatchIsSubsequence | scrabble.py:230-272 | matching keeps rows in table order |
| Matcher.MatchRackIsSubsequence | scrabble.py:283 | rack matching keeps rows unchanged and in table order |
| Matcher.MatchIdempotent | scrabble.py:230-272 | matching a match again with the same pattern changes nothing |
| Matcher.MatchAppend | scrabble.py:230-272 | matching distributes over concatenated tables |
| Matcher.RegexRackRejects | scrabble.py:269-270 | `^A.*Z$` used as a rack forms neither ABUZZ nor AMAZE |
| Matcher.RegexLookingPatternIsRack | scrabble.py:242-245 | the docstring's regex example `^A.*Z$` goes to rack matching, so a table of ABUZZ and AMAZE yields no rows |
| Matcher.SecondLetterTable | scrabble.py:266-272 | of BOAT, OATS and ROOM, `_O__` keeps BOAT and ROOM, in that order |
| Merge.BelowIrreflexive | scrabble.py:175-182 | the word order of the join's index is irreflexive |
| Merge.BelowTransitive | scrabble.py:175-182 | the word order is transitive |
| Merge.BelowTotal | scrabble.py:175-182 | any two different words are ordered one way or the other |
| Merge.InsertAscending | scrabble.py:175-182 | inserting a word into an ascending list keeps it ascending |
| Merge.SortedWords | scrabble.py:175-182 | the sorted index holds exactly the given words |
| Merge.SortedWordsAscending | scrabble.py:175-182 | the sorted index is strictly ascending |
| Merge.AscendingUnique | scrabble.py:175-182 | only one ascending list has a given set of words, so the join's row order is determined |
| Merge.Lookup | scrabble.py:175-182 | a word finds a row exactly when the table has it, and the row found has that word |
| Merge.LookupAt | scrabble.py:175-182 | in a table without repeated words, looking up a row's word finds that row |
| Merge.Coalesce | scrabble.py:185-187 | `combine_first`: the first value when present, otherwise the second; missing only when both are |
| Merge.Joined | scrabble.py:175-191 | one merged row: never both flags, neither flag when both sides have the word, the first side's definition when it has one, a definition exactly when either side has one, and no points |
| Merge.MergeLexicons | scrabble.py:170-199 | the merged words are ascending and are exactly the words of either lexicon |
| Merge.MergedWordsDistinct | scrabble.py:175-182 | the merged table has no word twice |
| Merge.MergeFlags | scrabble.py:189-191 | `csw_only` holds exactly when only the first lexicon has the word, `nwl_only` exactly when only the second has it; never both; neither exactly when both have it |
| Merge.MergeKeepsFirstRow | scrabble.py:180-187 | the first lexicon's forms land under `forms_csw`, and its definition, when present, wins |
| Merge.MergeKeepsSecondRow | scrabble.py:180-187 | the second lexicon's forms land under `forms_nwl`, and its definition is used when the first has none |
| Merge.MergeAbsentSide | scrabble.py:175-182 | a lexicon without the word leaves its forms column empty; the merge carries no points |
| Merge.MergeSymmetricMembership | scrabble.py:175-191 | swapping the lexicons gives the same words in the same order with the two flags exchanged |
| Zyzzyva.ParseForms | scrabble.py:151-155 | a bracketed part always yields at least one form, since splitting never gives an empty list |
| Zyzzyva.LoadRows | scrabble.py:140-159 | the loop appends, in line order, the row each non-blank line gives |
| Zyzzyva.ParseLine | scrabble.py:142-159 | a line gives no row exactly when it is all whitespace; a row has no points, has a definition exactly when the stripped line has a space, and has forms only with a definition |
| Zyzzyva.ParsedWordShape | scrabble.py:145-146 | the word of a row is non-empty, has no space and no surrounding whitespace |
| Zyzzyva.ParseDefinition | scrabble.py:150-158 | the text after the word always gives a definition; forms exactly when both brackets appear; without them, the definition is `strip()` of that text |
| Text.StripSurrounded | scrabble.py:142 | `strip()` removes exactly the whitespace at each end: whitespace, then a core with no whitespace at its ends, then whitespace strips back to that core |
| Zyzzyva.ParseAllAppend | scrabble.py:140-159 | reading two runs of lines is reading each in turn |
| Zyzzyva.LineRowKept | scrabble.py:140-159 | every non-blank line's row is in the result |
| Zyzzyva.RowsFromLines | scrabble.py:140-159 | every row of the result comes from a line |
| Zyzzyva.ParseAll | scrabble.py:140-159 | no more rows than lines, and no row has points |
| Zyzzyva.FormatRoundTrip | scrabble.py:140-159 | reading a line written in the Zyzzyva format (word; word and definition; word, definition and bracketed forms) gives back the row it was written from |
| Zyzzyva.LineAfterWord | scrabble.py:141-147 | the word ends at the first space, and the text after that space is the definition part |
| Zyzzyva.BracketedDefinition | scrabble.py:150-156 | a definition followed by bracketed forms splits back into the two at the last `[` |
| Zyzzyva.SplitForms | scrabble.py:152-155 | splitting forms written with `, ` at commas and stripping each gives them back |
| Zyzzyva.StripClosingBracket | scrabble.py:152 | `strip('[]')` removes the closing bracket and nothing of a bracket-free text |
| Frame.Present | scrabble.py:216-218 | the available display columns are exactly the selected names that are columns, in selection order, each as often as it was selected |
| Frame.Scrabble.AddPoints | scrabble.py:201-206 | every row's points become its word's score, the `points` column is added unless present, nothing else changes, and points agree with the column afterwards |
| Frame.Scrabble.Match | scrabble.py:230-272 | a new table holding `match`'s rows and the same display columns; the same columns, except that a pattern without `_` on a table without rows goes through `match_rack` and leaves no columns; the points invariant carries over |
| Frame.Scrabble.MatchRack | scrabble.py:274-283 | a new table holding `match_rack`'s rows and the same display columns; the same columns unless the table has no rows, when the empty mask selects no columns; the points invariant carries over |
| Frame.Scrabble.ShownColumns | scrabble.py:208-228 | with no (or an empty) selection, all columns; otherwise the existing selected columns in selection order, repeats kept; an error naming the selection exactly when none exists |
| Frame.LoadZyzzyvaLexicon | scrabble.py:131-167 | a readable file gives its rows under `definition` and `forms`; an unreadable one gives an empty table with no columns; no display columns and no points |
| Loading.Loader.constructor | scrabble.py:37-41 | both lexicons and the merged table start unset |
| Loading.Loader.LoadCsw | scrabble.py:43-50 | the first lexicon is read and stored, without display columns and with the points invariant, and nothing else changes |
| Loading.Loader.LoadNwl | scrabble.py:52-59 | the second lexicon is read and stored, without display columns and with the points invariant, and nothing else changes |
| Loading.Loader.CreateMerged | scrabble.py:74-81 | an error, with nothing changed, while either lexicon is unset; a missing `definition_csw` column error, with nothing changed, unless both lexicons have a `definition` column; otherwise the merge, with no display columns, stored as `data`; the merged columns and the points invariant when neither lexicon has gained `points` |
| Loading.Loader.LoadMerged | scrabble.py:83-87 | succeeds exactly when both files can be read, and then merges what was read; otherwise fails on the missing `definition_csw` column with `data` unchanged; a merge has the five merged columns, no display columns and the points invariant |

## Left out

- Files are not opened. A lexicon file is given as its lines, or as `None`
  when it cannot be read.
  - Printed messages and the hard-coded file paths are not modelled.
  - `load_csv` and `to_csv` (CSV reading and writing) are not modelled.
- The `except` branches of `load_csw` and `load_nwl` are not modelled.
  `load_zyzzyva_lexicon` already turns every failure into an empty table, so
  these branches only run on failures outside the modelled code.
- pandas itself is not modelled. A table is its rows (word, columns, points)
  plus its column names.
  - Columns are fixed per table kind: `definition` and `forms` for a read
    lexicon, and the five merged columns for a merge.
  - A read lexicon can only gain `points`, which leaves its `definition`
    column alone. So whether the merge finds its `definition_csw` column
    depends only on whether both lexicons have `definition`.
  - The text `__repr__` prints is not modelled, only which columns it shows.
  - The `list(...)` reassignment in `__repr__` is not modelled, because it
    does not change the selected names.
- `ShownColumns` treats the display selection as a list of names. A plain
  string, which Python would split into characters, is not modelled.
- `FixedMatches` supports only patterns without other regular-expression
  metacharacters (`.^$*+?{}[]\|()`). A pattern mixing `_` with real regex
  syntax needs a general regex engine, which is not modelled.
- Matcher.Match and FixedPosition.FixedMatches read every character of a `_`
  pattern other than `_` literally. The source hands such characters to the
  regex engine, so `_.` matches `AB` there and `_A?` matches `B`; the model
  matches neither.
- Frame.Scrabble.Match does not model the table of an unreadable file, whose
  index is a range of numbers: a `_` pattern then raises `AttributeError` at
  `.str` in the source, while the model returns a table without rows.
- Matcher.Match does not model the `re.compile` call at the start of
  `match`. A `re.error` from it is ignored, but any other exception escapes:
  a repetition count too large for Python's regex engine (`A{4294967295}`)
  makes `match` raise, where the model returns the rack matches.
- `Upper` maps only the ASCII letters a–z. Python's full Unicode case
  mapping is not modelled.
- Merge.MergeLexicons requires each lexicon to list every word once, as a
  Zyzzyva word list does. pandas would pair every row of a word repeated
  within one lexicon with every row of the other; that many-to-many join is
  not modelled.
- Loading.Loader.CreateMerged and Loading.Loader.LoadMerged carry the same
  requirement on the lexicons they merge.
- Merge.MergeLexicons does not carry a `points` column through the merge.
  `load_merged` reads both lexicons afresh, so neither has one there, but a
  lexicon given `points` by `add_points` before `create_merged` does.
- Loading.Loader.CreateMerged promises the five merged columns, and rows
  that agree with them, only when neither lexicon has a `points` column.
  Otherwise pandas carries `points` into the merge, or `points_csw` and
  `points_nwl` when both lexicons have one; the model then states only that
  the merge succeeds, its rows and that it has no display columns.
- The text of exception messages is not modelled. Errors are the values
  `LexiconsNotLoaded`, `MissingColumn` (the `KeyError` of `merge_lexicons`)
  and `NoDisplayColumnPresent`.
