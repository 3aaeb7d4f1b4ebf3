/**
 * Rack matching: can a word be laid with the tiles of a rack, where '?' is a
 * blank tile that stands for any letter?
 */
module Rack {
  import opened Text

  /**
   * `can_form` for the rack `rack`: both sides upper-cased and counted, the
   * letters the word needs beyond what the rack holds (multiset difference keeps
   * only positive counts, as Counter subtraction does) number at most the
   * rack's blanks.
   */
  predicate CanForm(rack: string, word: string)
    ensures multiset(UpperStr(word)) <= multiset(UpperStr(rack)) ==> CanForm(rack, word)
    ensures '?' !in UpperStr(rack) ==>
              (CanForm(rack, word) <==> multiset(UpperStr(word)) <= multiset(UpperStr(rack)))
  {
    var have := multiset(UpperStr(rack));
    NoDeficitIffContained(multiset(UpperStr(word)), have);
    |multiset(UpperStr(word)) - have| <= have['?']
  }

  /** Nothing is missing exactly when every needed tile is held. */
  lemma NoDeficitIffContained(need: multiset<char>, have: multiset<char>)
    ensures |need - have| == 0 <==> need <= have
  {
    if |need - have| == 0 {
      forall x ensures need[x] <= have[x] {
        assert (need - have)[x] == 0;
      }
    }
    if need <= have {
      assert need - have == multiset{};
    }
  }

  /**
   * Laying `word` tile by tile from `tiles`: each character takes a tile of its
   * own kind when one is left, otherwise a blank; it fails when neither is left.
   */
  predicate Formable(word: string, tiles: multiset<char>)
  {
    if word == [] then true
    else if word[0] in tiles then Formable(word[1..], tiles - multiset{word[0]})
    else if '?' in tiles then Formable(word[1..], tiles - multiset{'?'})
    else false
  }

  /**
   * The counting rule and laying the tiles one by one agree for every word
   * without a literal '?': the word fits iff its deficit is covered by blanks.
   */
  lemma {:induction false} FormableIffDeficit(word: string, tiles: multiset<char>)
    requires '?' !in word
    ensures Formable(word, tiles) <==> |multiset(word) - tiles| <= tiles['?']
  {
    if word != [] {
      var c, rest := word[0], word[1..];
      assert word == [c] + rest;
      assert multiset(word) == multiset(rest) + multiset{c};
      if c in tiles {
        FormableIffDeficit(rest, tiles - multiset{c});
        DeficitTakesTile(multiset(rest), tiles, c);
      } else if '?' in tiles {
        FormableIffDeficit(rest, tiles - multiset{'?'});
        DeficitTakesBlank(multiset(rest), tiles, c);
      } else {
        assert c in multiset(word) - tiles;
      }
    }
  }

  /** Taking a tile the character matches leaves the rest of the deficit unchanged. */
  lemma DeficitTakesTile(need: multiset<char>, tiles: multiset<char>, c: char)
    requires c in tiles
    ensures (need + multiset{c}) - tiles == need - (tiles - multiset{c})
  {
    var a, b := (need + multiset{c}) - tiles, need - (tiles - multiset{c});
    forall x ensures a[x] == b[x] {
      if x == c { } else { }
    }
    assert a == b;
  }

  /** A character the tiles lack adds one to the deficit, and one blank pays for it. */
  lemma DeficitTakesBlank(need: multiset<char>, tiles: multiset<char>, c: char)
    requires c !in tiles && '?' in tiles && '?' !in need
    ensures (need + multiset{c}) - tiles == (need - (tiles - multiset{'?'})) + multiset{c}
  {
    var a, b := (need + multiset{c}) - tiles, (need - (tiles - multiset{'?'})) + multiset{c};
    forall x ensures a[x] == b[x] {
      if x == c { } else if x == '?' { } else { }
    }
    assert a == b;
  }

  /** The rack rule is the tile-by-tile rule on the upper-cased word and rack. */
  lemma CanFormIffFormable(rack: string, word: string)
    requires '?' !in UpperStr(word)
    ensures CanForm(rack, word) <==> Formable(UpperStr(word), multiset(UpperStr(rack)))
  {
    FormableIffDeficit(UpperStr(word), multiset(UpperStr(rack)));
  }

  /** Each character laid uses up one tile, so a formable word is no longer than the tiles. */
  lemma {:induction false} FormableLength(word: string, tiles: multiset<char>)
    requires Formable(word, tiles)
    ensures |word| <= |tiles|
  {
    if word != [] {
      var t := if word[0] in tiles then word[0] else '?';
      FormableLength(word[1..], tiles - multiset{t});
    }
  }

  /** A matched word with no literal '?' is no longer than the rack. */
  lemma MatchedWordFitsRack(rack: string, word: string)
    requires '?' !in UpperStr(word)
    requires CanForm(rack, word)
    ensures |word| <= |rack|
  {
    CanFormIffFormable(rack, word);
    FormableLength(UpperStr(word), multiset(UpperStr(rack)));
  }

  /** A rack without blanks rejects any word needing a letter the rack lacks. */
  lemma MissingLetterRejects(rack: string, word: string, c: char)
    requires '?' !in UpperStr(rack)
    requires c in UpperStr(word) && c !in UpperStr(rack)
    ensures !CanForm(rack, word)
  {
    assert c in multiset(UpperStr(word)) - multiset(UpperStr(rack));
  }

  /** Adding a tile to the rack never loses a match. */
  lemma MoreTilesKeepMatch(rack: string, word: string, c: char)
    requires CanForm(rack, word)
    ensures CanForm(rack + [c], word)
  {
    UpperStrAppend(rack, [c]);
    var have := multiset(UpperStr(rack));
    assert UpperStr([c]) == [Upper(c)];
    assert UpperStr(rack + [c]) == UpperStr(rack) + [Upper(c)];
    assert multiset(UpperStr(rack + [c])) == have + multiset{Upper(c)};
    DeficitShrinks(multiset(UpperStr(word)), have, Upper(c));
  }

  /** One more tile never makes the deficit larger, nor the blanks fewer. */
  lemma DeficitShrinks(need: multiset<char>, have: multiset<char>, u: char)
    ensures |need - (have + multiset{u})| <= |need - have|
    ensures (have + multiset{u})['?'] >= have['?']
  {
    var more := have + multiset{u};
    if u in need - have {
      assert need - have == (need - more) + multiset{u} by {
        forall x ensures (need - have)[x] == ((need - more) + multiset{u})[x] {
          if x == u { } else { }
        }
      }
    } else {
      assert need - have == need - more by {
        forall x ensures (need - have)[x] == (need - more)[x] {
          if x == u { } else { }
        }
      }
    }
  }

  /** Matching ignores case on both sides. */
  lemma CanFormIgnoresCase(rack: string, word: string)
    ensures CanForm(rack, word) == CanForm(UpperStr(rack), UpperStr(word))
  {
    UpperStrIdempotent(rack);
    UpperStrIdempotent(word);
  }

  /** An upper-case string is its own upper-case form. */
  lemma UpperStrOfUpper(s: string)
    requires forall i :: 0 <= i < |s| ==> !('a' <= s[i] <= 'z')
    ensures UpperStr(s) == s
  {
  }

  /** The verdict for a rack and a word once both tile counts are known. */
  lemma Verdict(rack: string, word: string, have: multiset<char>, need: multiset<char>)
    requires multiset(UpperStr(rack)) == have && multiset(UpperStr(word)) == need
    ensures CanForm(rack, word) <==> |need - have| <= have['?']
  {
  }

  /** LALLA?? gives ALLAY: only Y is missing, and one of the two blanks covers it. */
  lemma AllayFromLalla()
    ensures CanForm("LALLA??", "ALLAY")
  {
    UpperStrOfUpper("LALLA??");
    UpperStrOfUpper("ALLAY");
    AllayFromLallaDeficit();
    Verdict("LALLA??", "ALLAY", multiset{'L', 'A', 'L', 'L', 'A', '?', '?'}, multiset{'A', 'L', 'L', 'A', 'Y'});
  }

  lemma AllayFromLallaDeficit()
    ensures multiset{'A', 'L', 'L', 'A', 'Y'} - multiset{'L', 'A', 'L', 'L', 'A', '?', '?'} == multiset{'Y'}
    ensures multiset{'L', 'A', 'L', 'L', 'A', '?', '?'}['?'] == 2
  {
    var deficit := multiset{'A', 'L', 'L', 'A', 'Y'} - multiset{'L', 'A', 'L', 'L', 'A', '?', '?'};
    forall x ensures deficit[x] == multiset{'Y'}[x] {
      if x == 'A' { } else if x == 'L' { } else if x == 'Y' { } else { }
    }
    assert deficit == multiset{'Y'};
  }

  /** LALLA?? gives ALARM: R and M are missing, and the two blanks cover them. */
  lemma AlarmFromLalla()
    ensures CanForm("LALLA??", "ALARM")
  {
    UpperStrOfUpper("LALLA??");
    UpperStrOfUpper("ALARM");
    AlarmFromLallaDeficit();
    Verdict("LALLA??", "ALARM", multiset{'L', 'A', 'L', 'L', 'A', '?', '?'}, multiset{'A', 'L', 'A', 'R', 'M'});
  }

  lemma AlarmFromLallaDeficit()
    ensures multiset{'A', 'L', 'A', 'R', 'M'} - multiset{'L', 'A', 'L', 'L', 'A', '?', '?'} == multiset{'R', 'M'}
    ensures multiset{'L', 'A', 'L', 'L', 'A', '?', '?'}['?'] == 2
  {
    var deficit := multiset{'A', 'L', 'A', 'R', 'M'} - multiset{'L', 'A', 'L', 'L', 'A', '?', '?'};
    forall x ensures deficit[x] == multiset{'R', 'M'}[x] {
      if x == 'A' { } else if x == 'L' { } else if x == 'R' { } else if x == 'M' { } else { }
    }
    assert deficit == multiset{'R', 'M'};
  }

  /** CA? gives CAT: the blank stands for T. */
  lemma CatFromCaBlank()
    ensures CanForm("CA?", "CAT")
  {
    UpperStrOfUpper("CA?");
    UpperStrOfUpper("CAT");
    CatFromCaBlankDeficit();
    Verdict("CA?", "CAT", multiset{'C', 'A', '?'}, multiset{'C', 'A', 'T'});
  }

  lemma CatFromCaBlankDeficit()
    ensures multiset{'C', 'A', 'T'} - multiset{'C', 'A', '?'} == multiset{'T'}
    ensures multiset{'C', 'A', '?'}['?'] == 1
  {
    var deficit := multiset{'C', 'A', 'T'} - multiset{'C', 'A', '?'};
    forall x ensures deficit[x] == multiset{'T'}[x] {
      if x == 'A' { } else if x == 'C' { } else if x == 'T' { } else { }
    }
    assert deficit == multiset{'T'};
  }

  /** CA? gives CAB: the blank stands for B. */
  lemma CabFromCaBlank()
    ensures CanForm("CA?", "CAB")
  {
    UpperStrOfUpper("CA?");
    UpperStrOfUpper("CAB");
    CabFromCaBlankDeficit();
    Verdict("CA?", "CAB", multiset{'C', 'A', '?'}, multiset{'C', 'A', 'B'});
  }

  lemma CabFromCaBlankDeficit()
    ensures multiset{'C', 'A', 'B'} - multiset{'C', 'A', '?'} == multiset{'B'}
    ensures multiset{'C', 'A', '?'}['?'] == 1
  {
    var deficit := multiset{'C', 'A', 'B'} - multiset{'C', 'A', '?'};
    forall x ensures deficit[x] == multiset{'B'}[x] {
      if x == 'A' { } else if x == 'B' { } else if x == 'C' { } else { }
    }
    assert deficit == multiset{'B'};
  }

  /** CA? does not give DOG: three letters are missing and there is one blank. */
  lemma NoDogFromCaBlank()
    ensures !CanForm("CA?", "DOG")
  {
    UpperStrOfUpper("CA?");
    UpperStrOfUpper("DOG");
    NoDogFromCaBlankDeficit();
    Verdict("CA?", "DOG", multiset{'C', 'A', '?'}, multiset{'D', 'O', 'G'});
  }

  lemma NoDogFromCaBlankDeficit()
    ensures multiset{'D', 'O', 'G'} - multiset{'C', 'A', '?'} == multiset{'D', 'O', 'G'}
    ensures multiset{'C', 'A', '?'}['?'] == 1
  {
    var deficit := multiset{'D', 'O', 'G'} - multiset{'C', 'A', '?'};
    forall x ensures deficit[x] == multiset{'D', 'O', 'G'}[x] {
      if x == 'A' { } else if x == 'C' { } else if x == 'D' { } else if x == 'G' { } else if x == 'O' { } else { }
    }
    assert deficit == multiset{'D', 'O', 'G'};
  }

  /** AB does not give BAT: T is missing and there is no blank. */
  lemma NoBatFromAb()
    ensures !CanForm("AB", "BAT")
  {
    UpperStrOfUpper("AB");
    UpperStrOfUpper("BAT");
    NoBatFromAbDeficit();
    Verdict("AB", "BAT", multiset{'A', 'B'}, multiset{'B', 'A', 'T'});
  }

  lemma NoBatFromAbDeficit()
    ensures multiset{'B', 'A', 'T'} - multiset{'A', 'B'} == multiset{'T'}
    ensures multiset{'A', 'B'}['?'] == 0
  {
    var deficit := multiset{'B', 'A', 'T'} - multiset{'A', 'B'};
    forall x ensures deficit[x] == multiset{'T'}[x] {
      if x == 'A' { } else if x == 'B' { } else if x == 'T' { } else { }
    }
    assert deficit == multiset{'T'};
  }
}
