/**
 * The pieces of Python's `str` behaviour the lexicon code relies on: upper-casing,
 * `strip`, `split` and searching for a character.
 */
module Text {

  /** Python's `str.upper()` on one character, for ASCII: 'a'..'z' become 'A'..'Z'. */
  function Upper(c: char): (u: char)
    ensures !('a' <= u <= 'z')
  {
    if 'a' <= c <= 'z' then (c as int - 32) as char else c
  }

  /** `s.upper()`, character by character. */
  function UpperStr(s: string): (u: string)
    ensures |u| == |s|
    ensures forall i :: 0 <= i < |s| ==> u[i] == Upper(s[i])
  {
    seq(|s|, i requires 0 <= i < |s| => Upper(s[i]))
  }

  lemma UpperIdempotent(c: char)
    ensures Upper(Upper(c)) == Upper(c)
  {
  }

  lemma UpperStrIdempotent(s: string)
    ensures UpperStr(UpperStr(s)) == UpperStr(s)
  {
  }

  lemma UpperStrAppend(a: string, b: string)
    ensures UpperStr(a + b) == UpperStr(a) + UpperStr(b)
  {
  }

  /** The characters for which Python's `str.isspace()` holds, so the ones `str.strip()` removes. */
  predicate IsSpace(c: char)
  {
    var n := c as int;
    || 9 <= n <= 13 || 28 <= n <= 32 || n == 0x85 || n == 0xA0 || n == 0x1680
    || 0x2000 <= n <= 0x200A || n == 0x2028 || n == 0x2029 || n == 0x202F
    || n == 0x205F || n == 0x3000
  }

  /** Drops the leading characters of `s` that satisfy `drop`. */
  function TrimLeft(s: string, drop: char -> bool): (r: string)
    ensures |r| <= |s| && r == s[|s| - |r|..]
    ensures r != [] ==> !drop(r[0])
    ensures forall i :: 0 <= i < |s| - |r| ==> drop(s[i])
  {
    if |s| > 0 && drop(s[0]) then TrimLeft(s[1..], drop) else s
  }

  /** Drops the trailing characters of `s` that satisfy `drop`. */
  function TrimRight(s: string, drop: char -> bool): (r: string)
    ensures |r| <= |s| && r == s[..|r|]
    ensures r != [] ==> !drop(r[|r| - 1])
    ensures forall i :: |r| <= i < |s| ==> drop(s[i])
  {
    if |s| > 0 && drop(s[|s| - 1]) then TrimRight(s[..|s| - 1], drop) else s
  }

  /** `s.strip(chars)` with the characters given as a predicate. */
  function StripBy(s: string, drop: char -> bool): (r: string)
    ensures |r| <= |s|
    ensures r != [] ==> !drop(r[0]) && !drop(r[|r| - 1])
  {
    var l := TrimLeft(s, drop);
    assert TrimRight(l, drop) != [] ==> TrimRight(l, drop)[0] == l[0];
    TrimRight(TrimLeft(s, drop), drop)
  }

  /** `s.strip()`: whitespace removed at both ends. */
  function Strip(s: string): (r: string)
    ensures Trimmed(r)
  {
    StripBy(s, IsSpace)
  }

  /** No whitespace at either end, so `Strip` leaves the string as it is. */
  predicate Trimmed(s: string)
  {
    s != [] ==> !IsSpace(s[0]) && !IsSpace(s[|s| - 1])
  }

  /** `s.strip()` is empty exactly when every character of `s` is whitespace. */
  lemma StripEmptyIff(s: string)
    ensures Strip(s) == [] <==> forall i :: 0 <= i < |s| ==> IsSpace(s[i])
  {
    var l := TrimLeft(s, IsSpace);
    if l != [] {
      assert s[|s| - |l|] == l[0];
    }
  }

  /** `s.strip()` has no whitespace at its ends and is a slice of `s`. */
  lemma StripShape(s: string)
    ensures Trimmed(Strip(s))
    ensures forall c :: c in Strip(s) ==> c in s
  {
    var l := TrimLeft(s, IsSpace);
    var r := TrimRight(l, IsSpace);
    var i := |s| - |l|;
    assert r == s[i..i + |r|];
    if r != [] {
      assert r[0] == l[0];
    }
  }

  /**
   * `s.strip()` takes off exactly a run of whitespace at each end: whatever
   * all-whitespace `lead` and `trail` surround a core with no whitespace at
   * its ends, stripping gives back that core.
   */
  lemma StripSurrounded(lead: string, core: string, trail: string)
    requires forall k :: 0 <= k < |lead| ==> IsSpace(lead[k])
    requires Trimmed(core)
    requires forall k :: 0 <= k < |trail| ==> IsSpace(trail[k])
    ensures Strip(lead + core + trail) == core
  {
    if core == [] {
      SpacesStripEmpty(lead, trail);
      assert lead + core + trail == lead + trail;
    } else {
      assert lead + core + trail == lead + (core + trail);
      TrimLeftLead(lead, core + trail, IsSpace);
      TrimRightTrail(core, trail, IsSpace);
    }
  }

  /** Nothing but whitespace strips to nothing. */
  lemma SpacesStripEmpty(lead: string, trail: string)
    requires forall k :: 0 <= k < |lead| ==> IsSpace(lead[k])
    requires forall k :: 0 <= k < |trail| ==> IsSpace(trail[k])
    ensures Strip(lead + trail) == []
  {
    var s := lead + trail;
    forall k | 0 <= k < |s| ensures IsSpace(s[k]) {
      if k >= |lead| {
        assert s[k] == trail[k - |lead|];
      }
    }
    StripEmptyIff(s);
  }

  /** Leading characters that `drop` accepts are cut up to the first one it refuses. */
  lemma {:induction false} TrimLeftLead(lead: string, rest: string, drop: char -> bool)
    requires forall k :: 0 <= k < |lead| ==> drop(lead[k])
    requires rest == [] || !drop(rest[0])
    ensures TrimLeft(lead + rest, drop) == rest
    decreases |lead|
  {
    var s := lead + rest;
    if lead == [] {
      assert s == rest;
    } else {
      assert s[0] == lead[0];
      assert s[1..] == lead[1..] + rest;
      TrimLeftLead(lead[1..], rest, drop);
    }
  }

  /** Trailing characters that `drop` accepts are cut back to the last one it refuses. */
  lemma {:induction false} TrimRightTrail(core: string, trail: string, drop: char -> bool)
    requires core == [] || !drop(core[|core| - 1])
    requires forall k :: 0 <= k < |trail| ==> drop(trail[k])
    ensures TrimRight(core + trail, drop) == core
    decreases |trail|
  {
    var s := core + trail;
    if trail == [] {
      assert s == core;
    } else {
      assert s[|s| - 1] == trail[|trail| - 1];
      assert s[..|s| - 1] == core + trail[..|trail| - 1];
      TrimRightTrail(core, trail[..|trail| - 1], drop);
    }
  }

  /** Stripping a string with nothing to strip changes nothing. */
  lemma StripTrimmed(s: string)
    requires Trimmed(s)
    ensures Strip(s) == s
  {
  }

  /** Leading whitespace makes no difference to `strip()`. */
  lemma StripSpacePrefix(c: char, s: string)
    requires IsSpace(c)
    ensures Strip([c] + s) == Strip(s)
  {
    assert ([c] + s)[1..] == s;
  }

  /** The first index of `c` in `s`, or `|s|` when `c` does not occur. */
  function IndexOf(s: string, c: char): (i: nat)
    ensures i <= |s|
    ensures i < |s| ==> s[i] == c
    ensures forall j :: 0 <= j < i ==> s[j] != c
    ensures c in s ==> i < |s|
  {
    if s == [] then 0
    else if s[0] == c then 0
    else 1 + IndexOf(s[1..], c)
  }

  /** The last index of `c` in `s`, or `|s|` when `c` does not occur. */
  function LastIndexOf(s: string, c: char): (i: nat)
    ensures i <= |s|
    ensures i < |s| ==> s[i] == c && forall j :: i < j < |s| ==> s[j] != c
    ensures i == |s| ==> c !in s
  {
    if s == [] then 0
    else if s[|s| - 1] == c then |s| - 1
    else
      var k := LastIndexOf(s[..|s| - 1], c);
      if k == |s| - 1 then |s| else k
  }

  /** Python's `s.split(sep)` for a one-character separator: always at least one piece. */
  function Split(s: string, sep: char): (parts: seq<string>)
    ensures |parts| >= 1
    ensures forall k :: 0 <= k < |parts| ==> sep !in parts[k]
    decreases |s|
  {
    var i := IndexOf(s, sep);
    if i == |s| then [s] else [s[..i]] + Split(s[i + 1..], sep)
  }

  /** `glue.join(parts)`. */
  function Join(parts: seq<string>, glue: string): (s: string)
  {
    if parts == [] then []
    else if |parts| == 1 then parts[0]
    else parts[0] + glue + Join(parts[1..], glue)
  }

  /** A character in neither the pieces nor the glue is not in the joined string. */
  lemma {:induction false} JoinExcludes(parts: seq<string>, glue: string, c: char)
    requires c !in glue
    requires forall k :: 0 <= k < |parts| ==> c !in parts[k]
    ensures c !in Join(parts, glue)
  {
    if |parts| > 1 {
      JoinExcludes(parts[1..], glue, c);
    }
  }

  /** Each piece with `pad` in front. */
  function Padded(parts: seq<string>, pad: string): (r: seq<string>)
    ensures |r| == |parts|
    ensures forall k :: 0 <= k < |parts| ==> r[k] == pad + parts[k]
  {
    if parts == [] then [] else [pad + parts[0]] + Padded(parts[1..], pad)
  }

  /**
   * Splitting on `sep` undoes joining with a glue that starts with `sep`,
   * as long as no piece (and no rest of the glue) contains `sep`: the pieces
   * after the first come back with the rest of the glue in front.
   */
  lemma {:induction false} SplitJoin(parts: seq<string>, sep: char, pad: string)
    requires |parts| >= 1
    requires sep !in pad
    requires forall k :: 0 <= k < |parts| ==> sep !in parts[k]
    ensures Split(Join(parts, [sep] + pad), sep) == [parts[0]] + Padded(parts[1..], pad)
  {
    if |parts| == 1 {
      IndexOfIsFirst(parts[0], sep, |parts[0]|);
    } else {
      var rest := Join(parts[1..], [sep] + pad);
      assert Join(parts, [sep] + pad) == parts[0] + [sep] + (pad + rest);
      SplitAt(parts[0], sep, pad + rest);
      SplitJoin(parts[1..], sep, pad);
      SplitPrefix(pad, rest, sep);
      assert parts[1..][1..] == parts[2..];
    }
  }

  /** A separator-free prefix followed by the separator is the first piece. */
  lemma SplitAt(a: string, sep: char, b: string)
    requires sep !in a
    ensures Split(a + [sep] + b, sep) == [a] + Split(b, sep)
  {
    var t := a + [sep] + b;
    IndexOfIsFirst(t, sep, |a|);
    assert t[..|a|] == a;
    assert t[|a| + 1..] == b;
  }

  /** A separator-free prefix is glued onto the first piece. */
  lemma SplitPrefix(pre: string, s: string, sep: char)
    requires sep !in pre
    ensures Split(pre + s, sep) == [pre + Split(s, sep)[0]] + Split(s, sep)[1..]
  {
    var i := IndexOf(s, sep);
    if i == |s| {
      assert sep !in pre + s;
      SplitWhole(s, sep);
      SplitWhole(pre + s, sep);
    } else {
      assert sep !in s[..i] by {
        forall j | 0 <= j < i ensures s[..i][j] != sep {
          assert s[..i][j] == s[j];
        }
      }
      assert s == s[..i] + [sep] + s[i + 1..];
      SplitPrefixAt(pre, s[..i], s[i + 1..], sep);
    }
  }

  lemma SplitPrefixAt(pre: string, a: string, b: string, sep: char)
    requires sep !in pre && sep !in a
    ensures Split(pre + (a + [sep] + b), sep) == [pre + a] + Split(b, sep)
    ensures Split(a + [sep] + b, sep) == [a] + Split(b, sep)
  {
    SplitAt(a, sep, b);
    assert pre + (a + [sep] + b) == (pre + a) + [sep] + b;
    SplitAt(pre + a, sep, b);
  }

  /** Without the separator, a string is its only piece. */
  lemma SplitWhole(s: string, sep: char)
    requires sep !in s
    ensures Split(s, sep) == [s]
  {
    IndexOfIsFirst(s, sep, |s|);
  }

  /** `IndexOf` is the first occurrence (or the length). */
  lemma IndexOfIsFirst(s: string, c: char, i: nat)
    requires i <= |s|
    requires i < |s| ==> s[i] == c
    requires forall j :: 0 <= j < i ==> s[j] != c
    ensures IndexOf(s, c) == i
  {
    var k := IndexOf(s, c);
  }
}
