/**
 * Reading a Zyzzyva word list: one word per line, optionally followed by a
 * space and a definition, whose last bracketed part lists the word's forms,
 * as in `WORD a definition [FORM1, FORM2]`.
 */
module Zyzzyva {
  import opened Wrappers
  import opened Text
  import opened Lexicon

  /** The characters `strip('[]')` removes. */
  predicate IsBracket(c: char)
  {
    c == '[' || c == ']'
  }

  /** Every piece stripped of surrounding whitespace. */
  function StripEach(parts: seq<string>): (r: seq<string>)
    ensures |r| == |parts|
    ensures forall k :: 0 <= k < |parts| ==> r[k] == Strip(parts[k])
  {
    seq(|parts|, k requires 0 <= k < |parts| => Strip(parts[k]))
  }

  /**
   * The row one line of the file gives, or `None` for a blank line. The word
   * ends at the first space; what follows it is the definition.
   */
  function ParseLine(line: string): (r: Option<Row<Entry>>)
    ensures r.None? <==> forall i :: 0 <= i < |line| ==> IsSpace(line[i])
    ensures r.Some? ==> r.value.points.None?
    ensures r.Some? ==> (r.value.entry.definition.None? <==> ' ' !in Strip(line))
    ensures r.Some? && r.value.entry.forms != [] ==> r.value.entry.definition.Some?
  {
    StripEmptyIff(line);
    var s := Strip(line);
    if s == [] then None
    else
      var i := IndexOf(s, ' ');
      var word := Strip(s[..i]);
      if i == |s| then Some(Row(word, Entry(None, []), None))
      else Some(Row(word, ParseDefinition(s[i + 1..]), None))
  }

  /**
   * The columns of what follows the word: with both brackets present, split
   * at the last `[` into the definition (kept as it is) and the forms
   * (brackets stripped, split at commas, each stripped); otherwise the whole
   * text, stripped, is the definition and there are no forms.
   */
  function ParseDefinition(rest: string): (entry: Entry)
    ensures entry.definition.Some?
    ensures entry.forms != [] <==> '[' in rest && ']' in rest
    ensures !('[' in rest && ']' in rest) ==> entry.definition == Some(Strip(rest))
  {
    if '[' in rest && ']' in rest then
      var j := LastIndexOf(rest, '[');
      Entry(Some(rest[..j]), ParseForms(rest[j + 1..]))
    else
      Entry(Some(Strip(rest)), [])
  }

  /** The forms after the last `[`: brackets stripped, split at commas, each stripped. */
  function ParseForms(text: string): (forms: seq<string>)
    ensures |forms| >= 1
  {
    StripEach(Split(StripBy(text, IsBracket), ','))
  }

  /** The rows of a whole file, in line order, blank lines skipped. */
  function ParseAll(lines: seq<string>): (rows: seq<Row<Entry>>)
    ensures |rows| <= |lines|
    ensures forall k :: 0 <= k < |rows| ==> rows[k].points.None?
  {
    if lines == [] then []
    else
      var last := ParseLine(lines[|lines| - 1]);
      ParseAll(lines[..|lines| - 1]) + (if last.Some? then [last.value] else [])
  }

  /** The loop of `load_zyzzyva_lexicon`: one row appended per non-blank line. */
  method LoadRows(lines: seq<string>) returns (data: seq<Row<Entry>>)
    ensures data == ParseAll(lines)
  {
    data := [];
    var i := 0;
    while i < |lines|
      invariant 0 <= i <= |lines|
      invariant data == ParseAll(lines[..i])
    {
      var parsed := ParseLine(lines[i]);
      PrefixSnoc(lines, i);
      ParseAllSnoc(lines[..i], lines[i]);
      if parsed.Some? {
        data := data + [parsed.value];
      }
      i := i + 1;
    }
    assert lines[..i] == lines;
  }

  /**
   * The word of a parsed line is not empty, holds no space and has no
   * whitespace at its ends; the row has no points yet.
   */
  lemma ParsedWordShape(line: string)
    requires ParseLine(line).Some?
    ensures var row := ParseLine(line).value;
            && row.word != []
            && ' ' !in row.word
            && Trimmed(row.word)
            && row.points == None
  {
    var s := Strip(line);
    StripShape(line);
    var i := IndexOf(s, ' ');
    assert IsSpace(' ');
    assert i > 0;
    StripEmptyIff(s[..i]);
    assert !IsSpace(s[..i][0]);
    StripShape(s[..i]);
  }

  /** One more line adds its row, if it gives one, at the end. */
  lemma ParseAllSnoc(lines: seq<string>, line: string)
    ensures ParseAll(lines + [line])
         == ParseAll(lines) + (if ParseLine(line).Some? then [ParseLine(line).value] else [])
  {
    var all := lines + [line];
    assert all[..|all| - 1] == lines && all[|all| - 1] == line;
  }

  /** The rows of two files read one after the other. */
  lemma {:induction false} ParseAllAppend(a: seq<string>, b: seq<string>)
    ensures ParseAll(a + b) == ParseAll(a) + ParseAll(b)
    decreases |b|
  {
    if b == [] {
      assert a + b == a;
    } else {
      var b', x := b[..|b| - 1], b[|b| - 1];
      LastSplit(a, b);
      ParseAllAppend(a, b');
      ParseAllSnoc(a + b', x);
      ParseAllSnoc(b', x);
      AppendAssoc(ParseAll(a), ParseAll(b'), if ParseLine(x).Some? then [ParseLine(x).value] else []);
    }
  }

  /** A non-empty sequence is its front followed by its last element, also after a prefix. */
  lemma LastSplit<T>(a: seq<T>, b: seq<T>)
    requires b != []
    ensures b == b[..|b| - 1] + [b[|b| - 1]]
    ensures a + b == (a + b[..|b| - 1]) + [b[|b| - 1]]
  {
  }

  lemma PrefixSnoc<T>(s: seq<T>, i: nat)
    requires i < |s|
    ensures s[..i + 1] == s[..i] + [s[i]]
  {
  }

  lemma AppendAssoc<T>(x: seq<T>, y: seq<T>, z: seq<T>)
    ensures (x + y) + z == x + (y + z)
  {
  }

  /** Every non-blank line's row is read. */
  lemma {:induction false} LineRowKept(lines: seq<string>, k: nat)
    requires k < |lines| && ParseLine(lines[k]).Some?
    ensures ParseLine(lines[k]).value in ParseAll(lines)
  {
    if k < |lines| - 1 {
      var init := lines[..|lines| - 1];
      assert init[k] == lines[k];
      LineRowKept(init, k);
    }
  }

  /** Every row read comes from a line of the file. */
  lemma {:induction false} RowsFromLines(lines: seq<string>)
    ensures forall row :: row in ParseAll(lines) ==> exists i :: 0 <= i < |lines| && ParseLine(lines[i]) == Some(row)
  {
    if lines != [] {
      var init := lines[..|lines| - 1];
      RowsFromLines(init);
      forall row | row in ParseAll(lines)
        ensures exists i :: 0 <= i < |lines| && ParseLine(lines[i]) == Some(row)
      {
        if row in ParseAll(init) {
          var i :| 0 <= i < |init| && ParseLine(init[i]) == Some(row);
          assert lines[i] == init[i];
        } else {
          assert ParseLine(lines[|lines| - 1]) == Some(row);
        }
      }
    }
  }

  /** A list of forms as the file writes it: `, ` between forms, none of them bracketed. */
  predicate FormsWritable(forms: seq<string>)
  {
    && |forms| >= 1
    && forall k :: 0 <= k < |forms| ==>
         Trimmed(forms[k]) && ',' !in forms[k] && '[' !in forms[k] && ']' !in forms[k]
  }

  /** A word as the file writes it: not empty and no whitespace. */
  predicate WordWritable(word: string)
  {
    word != [] && forall k :: 0 <= k < |word| ==> !IsSpace(word[k])
  }

  /** The rows a file line can say, in the three shapes the reader distinguishes. */
  predicate Writable(row: Row<Entry>)
  {
    && WordWritable(row.word)
    && row.points == None
    && match row.entry.definition
       case None => row.entry.forms == []
       case Some(d) =>
         if row.entry.forms == [] then d != [] && Trimmed(d) && !('[' in d && ']' in d)
         else FormsWritable(row.entry.forms)
  }

  /** The line that says `row`. */
  function Format(row: Row<Entry>): (line: string)
  {
    match row.entry.definition
    case None => row.word
    case Some(d) =>
      if row.entry.forms == [] then row.word + " " + d
      else row.word + " " + d + "[" + Join(row.entry.forms, ", ") + "]"
  }

  /** Reading a written line gives back the row it was written from. */
  lemma FormatRoundTrip(row: Row<Entry>)
    requires Writable(row)
    ensures ParseLine(Format(row)) == Some(row)
  {
    var w := row.word;
    match row.entry.definition
    case None =>
      assert IsSpace(' ');
      StripTrimmed(w);
      IndexOfIsFirst(w, ' ', |w|);
    case Some(d) =>
      if row.entry.forms == [] {
        LineAfterWord(w, d);
        StripTrimmed(d);
      } else {
        var rest := d + "[" + Join(row.entry.forms, ", ") + "]";
        assert w + " " + d + "[" + Join(row.entry.forms, ", ") + "]" == w + " " + rest;
        LineAfterWord(w, rest);
        BracketedDefinition(d, row.entry.forms);
      }
  }

  /** A written word, a space and a definition ending in a non-space: the word, then the definition's columns. */
  lemma LineAfterWord(w: string, rest: string)
    requires WordWritable(w)
    requires rest != [] && !IsSpace(rest[|rest| - 1])
    ensures ParseLine(w + " " + rest) == Some(Row(w, ParseDefinition(rest), None))
  {
    var line := w + " " + rest;
    assert IsSpace(' ');
    assert ' ' !in w;
    StripTrimmed(w);
    assert line[|line| - 1] == rest[|rest| - 1];
    StripTrimmed(line);
    assert line[..|w|] == w;
    IndexOfIsFirst(line, ' ', |w|);
    assert line[|w| + 1..] == rest;
  }

  /** A definition followed by bracketed forms splits back into the two. */
  lemma BracketedDefinition(d: string, forms: seq<string>)
    requires FormsWritable(forms)
    ensures ParseDefinition(d + "[" + Join(forms, ", ") + "]") == Entry(Some(d), forms)
  {
    JoinExcludes(forms, ", ", '[');
    JoinExcludes(forms, ", ", ']');
    SplitForms(forms);
    BracketedText(d, Join(forms, ", "), forms);
  }

  lemma BracketedText(d: string, joined: string, forms: seq<string>)
    requires '[' !in joined && ']' !in joined
    requires StripEach(Split(joined, ',')) == forms
    ensures ParseDefinition(d + "[" + joined + "]") == Entry(Some(d), forms)
  {
    LastBracketAt(d, joined);
    StripClosingBracket(joined);
  }

  /** The `[` after the definition is the last one when the forms have none. */
  lemma LastBracketAt(d: string, joined: string)
    requires '[' !in joined
    ensures var rest := d + "[" + joined + "]";
            && '[' in rest && ']' in rest
            && LastIndexOf(rest, '[') == |d|
            && rest[..|d|] == d
            && rest[|d| + 1..] == joined + "]"
  {
    var rest := d + "[" + joined + "]";
    assert rest[|d|] == '[';
    assert rest[|rest| - 1] == ']';
    forall m | |d| < m < |rest| ensures rest[m] != '[' {
      if m < |rest| - 1 {
        assert rest[m] == joined[m - |d| - 1];
      }
    }
    assert rest[..|d|] == d;
    assert rest[|d| + 1..] == joined + "]";
  }

  /** Splitting the written forms at commas and stripping each gives the forms back. */
  lemma SplitForms(forms: seq<string>)
    requires FormsWritable(forms)
    ensures StripEach(Split(Join(forms, ", "), ',')) == forms
  {
    assert ", " == [','] + " ";
    SplitJoin(forms, ',', " ");
    var pieces := Split(Join(forms, ", "), ',');
    assert |pieces| == |forms|;
    forall k | 0 <= k < |forms| ensures Strip(pieces[k]) == forms[k] {
      if k == 0 {
        StripTrimmed(forms[0]);
      } else {
        assert pieces[k] == Padded(forms[1..], " ")[k - 1];
        StripPadded(forms[k]);
      }
    }
  }

  lemma StripPadded(f: string)
    requires Trimmed(f)
    ensures Strip(" " + f) == f
  {
    assert IsSpace(' ');
    StripSpacePrefix(' ', f);
    StripTrimmed(f);
  }

  /** `strip('[]')` removes the closing bracket of a bracket-free text. */
  lemma StripClosingBracket(t: string)
    requires '[' !in t && ']' !in t
    ensures StripBy(t + "]", IsBracket) == t
  {
    var s := t + "]";
    var l := TrimLeft(s, IsBracket);
    if t != [] {
      assert !IsBracket(s[0]);
      assert l == s;
      var r := TrimRight(l, IsBracket);
      assert !IsBracket(s[|t| - 1]);
      assert IsBracket(s[|s| - 1]);
      assert r == t;
    } else {
      assert l == [];
    }
  }
}
