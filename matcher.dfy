/**
 * `match`: the pattern decides which matcher runs. A pattern containing '_'
 * is a fixed-position pattern; every other pattern, whatever it looks like,
 * is a rack. The test compilation of the pattern as a regular expression
 * ignores a `re.error`, so it has no counterpart here; any other exception it
 * raises is not modelled.
 */
module Matcher {
  import opened Text
  import opened Lexicon
  import opened Rack
  import opened FixedPosition

  /** `match_rack`: the rows whose word can be laid from the rack. */
  function MatchRack<E>(rows: seq<Row<E>>, rack: string): (r: seq<Row<E>>)
    ensures forall x :: x in r ==> x in rows && CanForm(rack, x.word)
    ensures forall x :: x in rows && CanForm(rack, x.word) ==> x in r
  {
    Filter(rows, w => CanForm(rack, w))
  }

  /**
   * `match`: with a '_' in the pattern, the rows whose word fits the fixed
   * positions; without one, exactly what rack matching returns.
   */
  function Match<E>(rows: seq<Row<E>>, pattern: string): (r: seq<Row<E>>)
    ensures '_' in pattern ==> forall x :: x in r ==> x in rows && FixedMatches(pattern, x.word)
    ensures '_' in pattern ==> forall x :: x in rows && FixedMatches(pattern, x.word) ==> x in r
    ensures '_' !in pattern ==> r == MatchRack(rows, pattern)
  {
    if '_' in pattern then Filter(rows, w => FixedMatches(pattern, w)) else MatchRack(rows, pattern)
  }

  /** The result of a match is the input's rows, unchanged and in order, with some left out. */
  lemma MatchIsSubsequence<E>(rows: seq<Row<E>>, pattern: string)
    ensures IsSubsequence(Match(rows, pattern), rows)
  {
    if '_' in pattern {
      FilterIsSubsequence(rows, w => FixedMatches(pattern, w));
    } else {
      FilterIsSubsequence(rows, w => CanForm(pattern, w));
    }
  }

  /** `match_rack` too returns the input's rows, unchanged and in order. */
  lemma MatchRackIsSubsequence<E>(rows: seq<Row<E>>, rack: string)
    ensures IsSubsequence(MatchRack(rows, rack), rows)
  {
    FilterIsSubsequence(rows, w => CanForm(rack, w));
  }

  /** Matching a match again with the same pattern changes nothing. */
  lemma MatchIdempotent<E>(rows: seq<Row<E>>, pattern: string)
    ensures Match(Match(rows, pattern), pattern) == Match(rows, pattern)
  {
    if '_' in pattern {
      FilterIdempotent(rows, w => FixedMatches(pattern, w));
    } else {
      FilterIdempotent(rows, w => CanForm(pattern, w));
    }
  }

  /** Each row is judged on its own: matching a concatenation matches the parts. */
  lemma MatchAppend<E>(a: seq<Row<E>>, b: seq<Row<E>>, pattern: string)
    ensures Match(a + b, pattern) == Match(a, pattern) + Match(b, pattern)
  {
    if '_' in pattern {
      FilterAppend(a, b, w => FixedMatches(pattern, w));
    } else {
      FilterAppend(a, b, w => CanForm(pattern, w));
    }
  }

  /** The "rack" ^ A . * Z $ has no blank and lacks B, U, M and E. */
  lemma RegexRackRejects()
    ensures !CanForm("^A.*Z$", "ABUZZ") && !CanForm("^A.*Z$", "AMAZE")
  {
    RegexRackRejectsAbuzz();
    RegexRackRejectsAmaze();
  }

  lemma RegexRackRejectsAbuzz()
    ensures !CanForm("^A.*Z$", "ABUZZ")
  {
    UpperStrOfUpper("^A.*Z$");
    UpperStrOfUpper("ABUZZ");
    assert "ABUZZ"[1] == 'B';
    MissingLetterRejects("^A.*Z$", "ABUZZ", 'B');
  }

  lemma RegexRackRejectsAmaze()
    ensures !CanForm("^A.*Z$", "AMAZE")
  {
    UpperStrOfUpper("^A.*Z$");
    UpperStrOfUpper("AMAZE");
    assert "AMAZE"[1] == 'M';
    MissingLetterRejects("^A.*Z$", "AMAZE", 'M');
  }

  /**
   * A pattern written as a regular expression but without '_' is read as a
   * rack: ^A.*Z$ keeps neither ABUZZ nor AMAZE, although both start with A.
   */
  lemma RegexLookingPatternIsRack(abuzz: Row<int>, amaze: Row<int>)
    requires abuzz.word == "ABUZZ" && amaze.word == "AMAZE"
    ensures Match([abuzz, amaze], "^A.*Z$") == []
  {
    assert '_' !in "^A.*Z$";
    RegexRackRejects();
    var keep := w => CanForm("^A.*Z$", w);
    assert [abuzz, amaze][1..] == [amaze];
    assert Filter([amaze], keep) == [];
  }

  /** With the lexicon BOAT, OATS, ROOM, the pattern _O__ returns the rows of BOAT and ROOM. */
  lemma SecondLetterTable(boat: Row<int>, oats: Row<int>, room: Row<int>)
    requires boat.word == "BOAT" && oats.word == "OATS" && room.word == "ROOM"
    ensures Match([boat, oats, room], "_O__") == [boat, room]
  {
    SecondLetterExamples();
    assert '_' in "_O__";
    var keep := w => FixedMatches("_O__", w);
    assert [boat, oats, room][1..] == [oats, room];
    assert [oats, room][1..] == [room];
    assert Filter([room], keep) == [room];
    assert Filter([oats, room], keep) == [room];
  }
}
