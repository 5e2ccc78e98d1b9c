/**
 * The Python string operations the extractor relies on: `str.isspace`,
 * `str.strip()` with no argument, `str.split(sep)` for a one-character
 * separator and its inverse `sep.join(pieces)`.
 */
module Text {

  /** The code points for which Python's `str.isspace()` holds. */
  const SpaceCodes: set<int> :=
    {0x09, 0x0A, 0x0B, 0x0C, 0x0D, 0x1C, 0x1D, 0x1E, 0x1F, 0x20, 0x85, 0xA0, 0x1680,
     0x2000, 0x2001, 0x2002, 0x2003, 0x2004, 0x2005, 0x2006, 0x2007, 0x2008, 0x2009, 0x200A,
     0x2028, 0x2029, 0x202F, 0x205F, 0x3000}

  /** Python's `str.isspace()` for one character (the characters `strip()` removes). */
  predicate IsSpace(c: char) {
    c as int in SpaceCodes
  }

  predicate AllSpace(s: string) {
    forall k :: 0 <= k < |s| ==> IsSpace(s[k])
  }

  /** The first index at or after `i` that does not hold whitespace (or `|s|`). */
  function SkipSpaces(s: string, i: nat): (j: nat)
    requires i <= |s|
    ensures i <= j <= |s|
    decreases |s| - i
  {
    if i < |s| && IsSpace(s[i]) then SkipSpaces(s, i + 1) else i
  }

  /** What `SkipSpaces` passes over is whitespace, and it stops at the first character that is not. */
  lemma {:induction false} SkipSpacesSpec(s: string, i: nat)
    requires i <= |s|
    ensures forall k :: i <= k < SkipSpaces(s, i) ==> IsSpace(s[k])
    ensures SkipSpaces(s, i) < |s| ==> !IsSpace(s[SkipSpaces(s, i)])
    decreases |s| - i
  {
    if i < |s| && IsSpace(s[i]) {
      SkipSpacesSpec(s, i + 1);
    }
  }

  /** The index after the last character before `j` (and at or after `lo`) that is not whitespace. */
  function SkipSpacesBack(s: string, lo: nat, j: nat): (i: nat)
    requires lo <= j <= |s|
    ensures lo <= i <= j
    decreases j
  {
    if j > lo && IsSpace(s[j - 1]) then SkipSpacesBack(s, lo, j - 1) else j
  }

  /** What `SkipSpacesBack` passes over is whitespace, and it stops after the last character that is not. */
  lemma {:induction false} SkipSpacesBackSpec(s: string, lo: nat, j: nat)
    requires lo <= j <= |s|
    ensures forall k :: SkipSpacesBack(s, lo, j) <= k < j ==> IsSpace(s[k])
    ensures SkipSpacesBack(s, lo, j) > lo ==> !IsSpace(s[SkipSpacesBack(s, lo, j) - 1])
    decreases j
  {
    if j > lo && IsSpace(s[j - 1]) {
      SkipSpacesBackSpec(s, lo, j - 1);
    }
  }

  /**
   * `r` is `s[i..]` cut where its trailing whitespace begins, `s[..i]` is
   * whitespace, and `r` neither starts nor ends with whitespace.
   */
  predicate StrippedAt(s: string, i: nat, r: string) {
    && i + |r| <= |s|
    && r == s[i..i + |r|]
    && (forall k :: 0 <= k < i ==> IsSpace(s[k]))
    && (forall k :: i + |r| <= k < |s| ==> IsSpace(s[k]))
    && (r == [] || (!IsSpace(r[0]) && !IsSpace(r[|r| - 1])))
  }

  /** Python's `s.strip()`: `s` without its leading and trailing whitespace. */
  function Strip(s: string): string {
    var i := SkipSpaces(s, 0);
    s[i..SkipSpacesBack(s, i, |s|)]
  }

  /**
   * `s.strip()` is the slice of `s` left after removing whitespace on both
   * sides; it is empty exactly when `s` is all whitespace.
   */
  lemma StripSpec(s: string)
    ensures StrippedAt(s, SkipSpaces(s, 0), Strip(s))
    ensures Strip(s) == [] <==> AllSpace(s)
  {
    var i := SkipSpaces(s, 0);
    var j := SkipSpacesBack(s, i, |s|);
    SkipSpacesSpec(s, 0);
    SkipSpacesBackSpec(s, i, |s|);
    assert j > i ==> s[i..j][0] == s[i] && s[i..j][j - i - 1] == s[j - 1];
  }

  /** Only one slice of `s` is stripped of whitespace on both sides. */
  lemma StrippedUnique(s: string, i: nat, r: string, i': nat, r': string)
    requires StrippedAt(s, i, r) && StrippedAt(s, i', r')
    ensures r == r'
  {
    StrippedEmpty(s, i, r);
    StrippedEmpty(s, i', r');
    if r != [] {
      assert s[i] == r[0] && s[i'] == r'[0];
      assert i == i';
      assert s[i + |r| - 1] == r[|r| - 1] && s[i' + |r'| - 1] == r'[|r'| - 1];
      assert |r| == |r'|;
    }
  }

  /** A stripped slice is empty exactly when the whole text is whitespace. */
  lemma StrippedEmpty(s: string, i: nat, r: string)
    requires StrippedAt(s, i, r)
    ensures r == [] <==> AllSpace(s)
  {
    if r != [] {
      assert s[i] == r[0];
    }
  }

  /** A whitespace character put in front keeps a slice stripped, one place further on. */
  lemma StrippedShift(c: char, s: string, i: nat, r: string)
    requires IsSpace(c) && StrippedAt(s, i, r)
    ensures StrippedAt([c] + s, i + 1, r)
  {
    var cs := [c] + s;
    assert cs[i + 1..i + 1 + |r|] == s[i..i + |r|];
    forall k | 0 <= k < i + 1 ensures IsSpace(cs[k]) {
      if k > 0 { assert cs[k] == s[k - 1]; }
    }
    forall k | i + 1 + |r| <= k < |cs| ensures IsSpace(cs[k]) {
      assert cs[k] == s[k - 1];
    }
  }

  /** A whitespace character put after keeps a slice stripped. */
  lemma StrippedExtend(s: string, c: char, i: nat, r: string)
    requires IsSpace(c) && StrippedAt(s, i, r)
    ensures StrippedAt(s + [c], i, r)
  {
    var sc := s + [c];
    assert sc[i..i + |r|] == s[i..i + |r|];
    forall k | 0 <= k < i ensures IsSpace(sc[k]) {
      assert sc[k] == s[k];
    }
    forall k | i + |r| <= k < |sc| ensures IsSpace(sc[k]) {
      if k < |s| { assert sc[k] == s[k]; }
    }
  }

  /** A character known to be whitespace in front of `s` does not change `s.strip()`. */
  lemma StripCons(c: char, s: string)
    requires IsSpace(c)
    ensures Strip([c] + s) == Strip(s)
  {
    StripSpec(s);
    StripSpec([c] + s);
    StrippedShift(c, s, SkipSpaces(s, 0), Strip(s));
    StrippedUnique([c] + s, SkipSpaces(s, 0) + 1, Strip(s), SkipSpaces([c] + s, 0), Strip([c] + s));
  }

  /** A character known to be whitespace after `s` does not change `s.strip()`. */
  lemma StripSnoc(s: string, c: char)
    requires IsSpace(c)
    ensures Strip(s + [c]) == Strip(s)
  {
    StripSpec(s);
    StripSpec(s + [c]);
    StrippedExtend(s, c, SkipSpaces(s, 0), Strip(s));
    StrippedUnique(s + [c], SkipSpaces(s, 0), Strip(s), SkipSpaces(s + [c], 0), Strip(s + [c]));
  }

  /** Python's `sep.join(pieces)`. */
  function Join(pieces: seq<string>, sep: char): string
    decreases |pieces|
  {
    if |pieces| == 0 then []
    else if |pieces| == 1 then pieces[0]
    else pieces[0] + [sep] + Join(pieces[1..], sep)
  }

  /** Python's `s.split(sep)`: the pieces between the occurrences of `sep`. */
  function Split(s: string, sep: char): (r: seq<string>)
    ensures |r| >= 1
    decreases |s|
  {
    if s == [] then [[]]
    else
      var rest := Split(s[1..], sep);
      if s[0] == sep then [[]] + rest
      else [[s[0]] + rest[0]] + rest[1..]
  }

  /** No piece of `s.split(sep)` holds `sep`, and rejoining the pieces gives `s` back. */
  lemma {:induction false} SplitSpec(s: string, sep: char)
    ensures forall k :: 0 <= k < |Split(s, sep)| ==> sep !in Split(s, sep)[k]
    ensures Join(Split(s, sep), sep) == s
    decreases |s|
  {
    if s != [] {
      var rest := Split(s[1..], sep);
      SplitSpec(s[1..], sep);
      if s[0] == sep {
        assert ([[]] + rest)[1..] == rest;
      } else {
        var r := [[s[0]] + rest[0]] + rest[1..];
        assert r[1..] == rest[1..];
        assert sep !in [s[0]] + rest[0];
        assert s == [s[0]] + s[1..];
      }
    }
  }

  lemma {:induction false} SplitNoSep(p: string, sep: char)
    requires sep !in p
    ensures Split(p, sep) == [p]
    decreases |p|
  {
    if p != [] {
      assert sep !in p[1..] by { assert forall c :: c in p[1..] ==> c in p; }
      SplitNoSep(p[1..], sep);
      assert [p[0]] + p[1..] == p;
    }
  }

  lemma {:induction false} SplitAfterPiece(p: string, t: string, sep: char)
    requires sep !in p
    ensures Split(p + [sep] + t, sep) == [p] + Split(t, sep)
    decreases |p|
  {
    if p == [] {
      assert p + [sep] + t == [sep] + t;
      assert ([sep] + t)[1..] == t;
    } else {
      assert sep !in p[1..] by { assert forall c :: c in p[1..] ==> c in p; }
      SplitAfterPiece(p[1..], t, sep);
      assert (p + [sep] + t)[1..] == p[1..] + [sep] + t;
      assert [p[0]] + p[1..] == p;
    }
  }

  /** `split` undoes `join` when no piece holds the separator. */
  lemma {:induction false} SplitJoin(pieces: seq<string>, sep: char)
    requires |pieces| >= 1
    requires forall k :: 0 <= k < |pieces| ==> sep !in pieces[k]
    ensures Split(Join(pieces, sep), sep) == pieces
    decreases |pieces|
  {
    if |pieces| == 1 {
      SplitNoSep(pieces[0], sep);
    } else {
      SplitJoin(pieces[1..], sep);
      SplitAfterPiece(pieces[0], Join(pieces[1..], sep), sep);
      assert [pieces[0]] + pieces[1..] == pieces;
    }
  }

  /** Appending the separator to the text adds an empty last piece. */
  lemma {:induction false} SplitSnocSep(s: string, sep: char)
    ensures Split(s + [sep], sep) == Split(s, sep) + [[]]
    decreases |s|
  {
    if s == [] {
      assert Split([sep], sep) == [[]] + Split([], sep);
    } else {
      SplitSnocSep(s[1..], sep);
      assert (s + [sep])[1..] == s[1..] + [sep];
    }
  }

  /** Appending any other character to the text extends the last piece. */
  lemma {:induction false} SplitSnocOther(s: string, c: char, sep: char)
    requires c != sep
    ensures var p := Split(s, sep);
            Split(s + [c], sep) == p[..|p| - 1] + [p[|p| - 1] + [c]]
    decreases |s|
  {
    if s == [] {
      var rest := Split([c][1..], sep);
      assert s + [c] == [c] && [c][1..] == [];
      assert rest == [[]];
      assert [c] + rest[0] == [c];
      assert rest[1..] == [];
      var p := Split(s, sep);
      assert p[..0] + [p[0] + [c]] == [[c]];
    } else {
      SplitSnocOther(s[1..], c, sep);
      assert (s + [c])[1..] == s[1..] + [c];
      var rest := Split(s[1..], sep);
      if s[0] != sep && |rest| == 1 {
        assert [s[0]] + (rest[0] + [c]) == ([s[0]] + rest[0]) + [c];
      }
    }
  }
}
