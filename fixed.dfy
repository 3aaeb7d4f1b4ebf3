/**
 * Fixed-position patterns: a pattern in which '_' marks a free square and
 * every other character a letter that must sit at that position. `match`
 * turns such a pattern into a regular expression (each '_' becomes `.{1}`,
 * the whole upper-cased, anchored by `^` and `$`) and keeps the words that
 * `str.match` accepts. The model covers the part of the regular-expression
 * language that this translation produces for patterns free of regular
 * expression metacharacters.
 */
module FixedPosition {
  import opened Text
  import opened Wrappers

  /** One element of the translated expression: `.{1}`, or a literal character. */
  datatype Atom = AnyChar | Literal(c: char)

  /** The characters with a meaning of their own in a Python regular expression. */
  predicate IsMeta(c: char)
  {
    c in ".^$*+?{}[]\\|()"
  }

  /** A pattern of '_' and characters that a regular expression takes literally. */
  predicate PlainPattern(p: string)
  {
    forall i :: 0 <= i < |p| ==> p[i] == '_' || !IsMeta(p[i])
  }

  /** `pattern.replace('_', '.{1}')`. */
  function ReplaceBlanks(p: string): (r: string)
    ensures '_' !in r
    ensures '_' !in p ==> r == p
  {
    if p == [] then []
    else
      assert p == [p[0]] + p[1..];
      (if p[0] == '_' then ".{1}" else [p[0]]) + ReplaceBlanks(p[1..])
  }

  /**
   * The expression `match` hands to `str.match`: `^` + the upper-cased
   * replacement + `$`. For a pattern free of other metacharacters it compiles
   * to one atom per pattern position.
   */
  function Translate(p: string): (regex: string)
    ensures PlainPattern(p) ==> Compile(regex) == Some(Atoms(p))
  {
    var regex := "^" + UpperStr(ReplaceBlanks(p)) + "$";
    assert regex[1..|regex| - 1] == UpperStr(ReplaceBlanks(p));
    if PlainPattern(p) then (ReplacementParses(p); regex) else regex
  }

  /** Reads a sequence of `.{1}` and literal characters; `None` for any other construct. */
  function ParseAtoms(body: string): (atoms: Option<seq<Atom>>)
    decreases |body|
  {
    if body == [] then Some([])
    else if |body| >= 4 && body[..4] == ".{1}" then
      match ParseAtoms(body[4..])
      case Some(rest) => Some([AnyChar] + rest)
      case None => None
    else if IsMeta(body[0]) then None
    else
      match ParseAtoms(body[1..])
      case Some(rest) => Some([Literal(body[0])] + rest)
      case None => None
  }

  /** Reads an expression of the form `^...$` in that subset. */
  function Compile(regex: string): (atoms: Option<seq<Atom>>)
  {
    if |regex| >= 2 && regex[0] == '^' && regex[|regex| - 1] == '$' then ParseAtoms(regex[1..|regex| - 1])
    else None
  }

  /** What each position of a pattern asks for: anything at '_', else the upper-cased character. */
  function Atoms(p: string): (atoms: seq<Atom>)
    ensures |atoms| == |p|
  {
    seq(|p|, i requires 0 <= i < |p| => if p[i] == '_' then AnyChar else Literal(Upper(p[i])))
  }

  /** `.` accepts every character but a line break; a literal accepts itself. */
  predicate Accepts(a: Atom, c: char)
  {
    match a
    case AnyChar => c != '\n'
    case Literal(l) => c == l
  }

  /** `s` is exactly one accepted character per atom. */
  predicate AtomsMatch(atoms: seq<Atom>, s: string)
  {
    |s| == |atoms| && forall i :: 0 <= i < |s| ==> Accepts(atoms[i], s[i])
  }

  /** `re.match` of `^atoms$`: Python's `$` also matches just before a final line break. */
  predicate Anchored(atoms: seq<Atom>, w: string)
  {
    || AtomsMatch(atoms, w)
    || (|w| == |atoms| + 1 && w[|atoms|] == '\n' && AtomsMatch(atoms, w[..|atoms|]))
  }

  /**
   * Whether `match` keeps `word` for the fixed-position pattern `p`: for a word
   * without line breaks, exactly when the lengths agree and every non-'_'
   * position holds the pattern's upper-cased character.
   */
  predicate FixedMatches(p: string, word: string)
    ensures '\n' !in word ==>
              (FixedMatches(p, word)
               <==> |word| == |p| && forall i :: 0 <= i < |p| ==> p[i] == '_' || word[i] == Upper(p[i]))
  {
    AnchoredAtoms(p, word);
    Anchored(Atoms(p), word)
  }

  /** The anchored atoms of a pattern, read position by position. */
  lemma AnchoredAtoms(p: string, word: string)
    ensures '\n' !in word ==>
              (Anchored(Atoms(p), word)
               <==> |word| == |p| && forall i :: 0 <= i < |p| ==> p[i] == '_' || word[i] == Upper(p[i]))
  {
    if '\n' !in word {
      if |word| == |p| + 1 {
        assert word[|p|] in word;
      }
      if |word| == |p| && forall i :: 0 <= i < |p| ==> p[i] == '_' || word[i] == Upper(p[i]) {
        forall i | 0 <= i < |p| ensures Accepts(Atoms(p)[i], word[i]) {
          assert word[i] in word;
        }
      }
    }
  }

  lemma UpperKeepsPlain(c: char)
    requires !IsMeta(c)
    ensures !IsMeta(Upper(c))
  {
  }

  /** Upper-casing distributes over the pieces of the replacement. */
  lemma {:induction false} ReplaceBlanksHead(p: string)
    requires p != []
    ensures UpperStr(ReplaceBlanks(p))
         == UpperStr(if p[0] == '_' then ".{1}" else [p[0]]) + UpperStr(ReplaceBlanks(p[1..]))
  {
    UpperStrAppend(if p[0] == '_' then ".{1}" else [p[0]], ReplaceBlanks(p[1..]));
  }

  /**
   * For a pattern free of metacharacters, the expression `match` builds reads
   * back as one atom per pattern position: `.{1}` for each '_' and the
   * upper-cased character elsewhere.
   */
  lemma {:induction false} ReplacementParses(p: string)
    requires PlainPattern(p)
    ensures ParseAtoms(UpperStr(ReplaceBlanks(p))) == Some(Atoms(p))
  {
    if p != [] {
      var rest := UpperStr(ReplaceBlanks(p[1..]));
      ReplaceBlanksHead(p);
      PlainTail(p);
      ReplacementParses(p[1..]);
      AtomsHead(p);
      if p[0] == '_' {
        UpperBlankReplacement();
        ParseBlankHead(rest);
      } else {
        UpperKeepsPlain(p[0]);
        assert UpperStr([p[0]]) == [Upper(p[0])];
        ParsePlainHead(Upper(p[0]), rest);
      }
    }
  }

  lemma AtomsHead(p: string)
    requires p != []
    ensures Atoms(p) == [if p[0] == '_' then AnyChar else Literal(Upper(p[0]))] + Atoms(p[1..])
  {
    assert Atoms(p) == [Atoms(p)[0]] + Atoms(p[1..]);
  }

  lemma PlainTail(p: string)
    requires PlainPattern(p) && p != []
    ensures PlainPattern(p[1..])
  {
    forall i | 0 <= i < |p| - 1 ensures p[1..][i] == '_' || !IsMeta(p[1..][i]) {
      assert p[1..][i] == p[i + 1];
    }
  }

  lemma UpperBlankReplacement()
    ensures UpperStr(".{1}") == ".{1}"
  {
  }

  /** `.{1}` in front reads as one more any-character atom. */
  lemma ParseBlankHead(rest: string)
    ensures ParseAtoms(".{1}" + rest) == match ParseAtoms(rest)
                                         case Some(atoms) => Some([AnyChar] + atoms)
                                         case None => None
  {
    var body := ".{1}" + rest;
    assert body[..4] == ".{1}" && body[4..] == rest;
  }

  /** A character that is no metacharacter in front reads as one more literal atom. */
  lemma ParsePlainHead(c: char, rest: string)
    requires !IsMeta(c)
    ensures ParseAtoms([c] + rest) == match ParseAtoms(rest)
                                      case Some(atoms) => Some([Literal(c)] + atoms)
                                      case None => None
  {
    var body := [c] + rest;
    assert body[0] == c && body[1..] == rest;
    assert body[0] != '.';
  }

  /** A pattern of n blanks matches exactly the words of length n (without line breaks). */
  lemma AllBlanksMatchLength(p: string, word: string)
    requires forall i :: 0 <= i < |p| ==> p[i] == '_'
    requires '\n' !in word
    ensures FixedMatches(p, word) <==> |word| == |p|
  {
  }

  /** The pattern's letters match whatever their case; the word's letters must be upper case. */
  lemma PatternCaseIgnored(p: string, word: string)
    ensures FixedMatches(p, word) == FixedMatches(UpperStr(p), word)
  {
    assert Atoms(p) == Atoms(UpperStr(p)) by {
      forall i | 0 <= i < |p| ensures Atoms(p)[i] == Atoms(UpperStr(p))[i] {
        UpperIdempotent(p[i]);
      }
    }
  }

  /** The documented example: __O_E_O__ finds WHOLESOME and CLOSEDOWN. */
  lemma NineLetterExamples()
    ensures FixedMatches("__O_E_O__", "WHOLESOME")
    ensures FixedMatches("__O_E_O__", "CLOSEDOWN")
    ensures !FixedMatches("__O_E_O__", "WHOLESOMELY")
  {
  }

  /** _O__ keeps BOAT and ROOM (O second) and drops OATS. */
  lemma SecondLetterExamples()
    ensures FixedMatches("_O__", "BOAT") && FixedMatches("_o__", "ROOM")
    ensures FixedMatches("_O__", "ROOM") && !FixedMatches("_O__", "OATS")
  {
    assert "OATS"[1] != 'O';
  }

  /** `$` in Python also matches before a final line break, and `.` never matches one. */
  lemma LineBreakExamples()
    ensures FixedMatches("A_", "AB\n")
    ensures !FixedMatches("A_", "A\n")
    ensures !FixedMatches("a_", "ab")
  {
    assert "AB\n"[..2] == "AB";
    assert !AtomsMatch(Atoms("A_"), "A\n") by {
      assert !Accepts(Atoms("A_")[1], "A\n"[1]);
    }
    assert !Accepts(Atoms("a_")[0], "ab"[0]);
  }
}
