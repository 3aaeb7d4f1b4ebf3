/**
 * English tile constants and word scoring: the letter values and the tile
 * distribution of an English set, with '?' standing for a blank tile.
 */
module Tiles {
  import opened Text

  /** The value of each tile. */
  const PointsEn: map<char, nat> := map[
    'A' := 1, 'B' := 3, 'C' := 3, 'D' := 2, 'E' := 1, 'F' := 4, 'G' := 2, 'H' := 4, 'I' := 1,
    'J' := 8, 'K' := 5, 'L' := 1, 'M' := 3, 'N' := 1, 'O' := 1, 'P' := 3, 'Q' := 10, 'R' := 1,
    'S' := 1, 'T' := 1, 'U' := 1, 'V' := 4, 'W' := 4, 'X' := 8, 'Y' := 4, 'Z' := 10, '?' := 0
  ]

  /** How many tiles of each kind a set holds. */
  const DistribEn: map<char, nat> := map[
    'A' := 9, 'B' := 2, 'C' := 2, 'D' := 4, 'E' := 12, 'F' := 2, 'G' := 3, 'H' := 2, 'I' := 9,
    'J' := 1, 'K' := 1, 'L' := 4, 'M' := 2, 'N' := 6, 'O' := 8, 'P' := 2, 'Q' := 1, 'R' := 6,
    'S' := 4, 'T' := 6, 'U' := 4, 'V' := 2, 'W' := 2, 'X' := 1, 'Y' := 2, 'Z' := 1, '?' := 2
  ]

  /** The 27 tile symbols, in the order the tables list them. */
  const Symbols: string := "ABCDEFGHIJKLMNOPQRSTUVWXYZ?"

  /** The set of symbols a string holds. */
  function SymbolSet(s: string): (symbols: set<char>)
  {
    set i | 0 <= i < |s| :: s[i]
  }

  /** Both tables have the same keys: every tile kind has a value and a count. */
  lemma TablesShareKeys()
    ensures PointsEn.Keys == DistribEn.Keys
  {
  }

  /** The keys are exactly the 27 symbols A..Z and '?'. */
  lemma TableKeysAreSymbols()
    ensures PointsEn.Keys == SymbolSet(Symbols)
  {
    var d := {'A', 'B', 'C', 'D', 'E', 'F', 'G', 'H', 'I', 'J', 'K', 'L', 'M', 'N', 'O', 'P', 'Q',
              'R', 'S', 'T', 'U', 'V', 'W', 'X', 'Y', 'Z', '?'};
    assert PointsEn.Keys == d;
    forall c | c in d ensures c in SymbolSet(Symbols) {
      assert c in Symbols;
      var i := IndexOf(Symbols, c);
    }
  }

  /** No symbol is listed twice. */
  lemma SymbolsDistinct()
    ensures forall i, j :: 0 <= i < j < |Symbols| ==> Symbols[i] != Symbols[j]
  {
    forall i, j | 0 <= i < j < |Symbols| ensures Symbols[i] != Symbols[j] {
      assert Symbols[i] as int < Symbols[j] as int || j == 26;
    }
  }

  /** So each table has 27 keys. */
  lemma TableSize()
    ensures |PointsEn.Keys| == 27 && |DistribEn.Keys| == 27
  {
    TablesShareKeys();
    TableKeysAreSymbols();
    SymbolsDistinct();
    DistinctCard(Symbols);
  }

  /** The tile counts, a few letters at a time. */
  lemma CountsAToD()
    ensures DistribEn['A'] == 9
         && DistribEn['B'] == 2
         && DistribEn['C'] == 2
         && DistribEn['D'] == 4
  {
  }

  lemma CountsEToG()
    ensures DistribEn['E'] == 12
         && DistribEn['F'] == 2
         && DistribEn['G'] == 3
  {
  }

  lemma CountsHToK()
    ensures DistribEn['H'] == 2
         && DistribEn['I'] == 9
         && DistribEn['J'] == 1
         && DistribEn['K'] == 1
  {
  }

  lemma CountsLToN()
    ensures DistribEn['L'] == 4
         && DistribEn['M'] == 2
         && DistribEn['N'] == 6
  {
  }

  lemma CountsOToR()
    ensures DistribEn['O'] == 8
         && DistribEn['P'] == 2
         && DistribEn['Q'] == 1
         && DistribEn['R'] == 6
  {
  }

  lemma CountsSToU()
    ensures DistribEn['S'] == 4
         && DistribEn['T'] == 6
         && DistribEn['U'] == 4
  {
  }

  lemma CountsVToX()
    ensures DistribEn['V'] == 2
         && DistribEn['W'] == 2
         && DistribEn['X'] == 1
  {
  }

  lemma CountsYToBlank()
    ensures DistribEn['Y'] == 2
         && DistribEn['Z'] == 1
         && DistribEn['?'] == 2
  {
  }

  /** A full English set holds 100 tiles: the 27 counts add up to 100. */
  lemma DistributionTotal()
    ensures DistribEn['A'] + DistribEn['B'] + DistribEn['C'] + DistribEn['D'] + DistribEn['E'] + DistribEn['F'] + DistribEn['G']
          + DistribEn['H'] + DistribEn['I'] + DistribEn['J'] + DistribEn['K'] + DistribEn['L'] + DistribEn['M'] + DistribEn['N']
          + DistribEn['O'] + DistribEn['P'] + DistribEn['Q'] + DistribEn['R'] + DistribEn['S'] + DistribEn['T'] + DistribEn['U']
          + DistribEn['V'] + DistribEn['W'] + DistribEn['X'] + DistribEn['Y'] + DistribEn['Z'] + DistribEn['?'] == 100
  {
    CountsAToD(); CountsEToG(); CountsHToK(); CountsLToN(); CountsOToR(); CountsSToU(); CountsVToX(); CountsYToBlank();
  }

  /** A string with no repeated character has as many distinct characters as its length. */
  lemma {:induction false} DistinctCard(s: string)
    requires forall i, j :: 0 <= i < j < |s| ==> s[i] != s[j]
    ensures |SymbolSet(s)| == |s|
  {
    if s != [] {
      var rest := SymbolSet(s[1..]);
      DistinctCard(s[1..]);
      assert SymbolSet(s) == {s[0]} + rest by {
        forall c | c in rest ensures c in SymbolSet(s) {
          var i :| 0 <= i < |s| - 1 && s[1..][i] == c;
          assert s[i + 1] == c;
        }
      }
      assert s[0] !in rest;
    }
  }

  /** The value of one character of a word: its upper-case tile value, or 0 when it is not a tile. */
  function LetterPoints(c: char): (p: nat)
    ensures p <= 10
    ensures p > 0 ==> 'A' <= Upper(c) <= 'Z'
  {
    var u := Upper(c);
    if u in PointsEn then PointsEn[u] else 0
  }

  /** `calculate_points`: the sum of the letter values of `word`. */
  function Points(word: string): (score: nat)
    ensures score <= 10 * |word|
    ensures score == 0 <==> forall i :: 0 <= i < |word| ==> LetterPoints(word[i]) == 0
  {
    if word == [] then 0
    else
      var rest := Points(word[1..]);
      assert forall i :: 1 <= i < |word| ==> word[i] == word[1..][i - 1];
      LetterPoints(word[0]) + rest
  }

  /** Scores add up over concatenation. */
  lemma {:induction false} PointsAppend(a: string, b: string)
    ensures Points(a + b) == Points(a) + Points(b)
  {
    if a != [] {
      assert (a + b)[1..] == a[1..] + b;
      PointsAppend(a[1..], b);
    } else {
      assert a + b == b;
    }
  }

  /** Scoring ignores case: a word scores what its upper-case form scores. */
  lemma {:induction false} PointsIgnoresCase(word: string)
    ensures Points(UpperStr(word)) == Points(word)
  {
    if word != [] {
      UpperIdempotent(word[0]);
      assert UpperStr(word)[1..] == UpperStr(word[1..]);
      PointsIgnoresCase(word[1..]);
    }
  }

  /** A character outside the table, such as a digit or a hyphen, scores nothing. */
  lemma {:induction false} PointsSkipsNonTiles(word: string, c: char)
    requires Upper(c) !in PointsEn
    ensures Points(word + [c]) == Points(word)
  {
    PointsAppend(word, [c]);
  }

  /** The worked example: CAT scores C=3, A=1, T=1, so 5; blanks score nothing. */
  lemma PointsExamples()
    ensures Points("CAT") == 5
    ensures Points("cat") == 5
    ensures Points("??") == 0
  {
    CatPoints();
    PointsIgnoresCase("cat");
    assert UpperStr("cat") == "CAT";
    BlankPoints();
  }

  lemma CatPoints()
    ensures Points("CAT") == 5
  {
    assert PointsEn['C'] == 3 && PointsEn['A'] == 1 && PointsEn['T'] == 1;
    assert "CAT"[1..] == "AT" && "AT"[1..] == "T" && "T"[1..] == "";
  }

  lemma BlankPoints()
    ensures Points("??") == 0
  {
    assert PointsEn['?'] == 0;
    assert "??"[1..] == "?" && "?"[1..] == "";
  }
}
