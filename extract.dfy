/**
 * `parse_market_from_html` (scraper.py:104-123) from the point where the
 * CSS selection has produced the rows: each row is given as the text
 * `row.get_text(separator="\n")` returns for it.
 */
module Extract {
  import opened Wrappers
  import opened Text

  /** `{"pair": ..., "price": ..., "change_24h": ...}`: the only record shape the extractor builds. */
  datatype Record = Record(pair: string, price: string, change24h: string)

  const Newline: char := '\n'

  /** A value the extractor can put in a record: non-empty, stripped, on one line. */
  predicate IsField(f: string) {
    f != [] && !IsSpace(f[0]) && !IsSpace(f[|f| - 1]) && Newline !in f
  }

  predicate WellFormed(rec: Record) {
    IsField(rec.pair) && IsField(rec.price) && IsField(rec.change24h)
  }

  /** Every piece stripped, with the pieces that strip to nothing dropped, in order (scraper.py:115). */
  function NonBlankStripped(pieces: seq<string>): (r: seq<string>)
    ensures |r| <= |pieces|
    decreases |pieces|
  {
    if pieces == [] then []
    else
      var p := Strip(pieces[0]);
      (if p == [] then [] else [p]) + NonBlankStripped(pieces[1..])
  }

  /** The cleaned-up lines of a row (scraper.py:114-115). */
  function Parts(text: string): seq<string> {
    NonBlankStripped(Split(Strip(text), Newline))
  }

  /** Every part is a value a record can hold. */
  lemma PartsAreFields(text: string)
    ensures forall k :: 0 <= k < |Parts(text)| ==> IsField(Parts(text)[k])
  {
    SplitSpec(Strip(text), Newline);
    NonBlankKeepsOut(Split(Strip(text), Newline), Newline);
  }

  /** What one row contributes: a record from its first three parts, or nothing (scraper.py:116-120). */
  function RowRecord(text: string): Option<Record> {
    var parts := Parts(text);
    if |parts| >= 3 then Some(Record(parts[0], parts[1], parts[2])) else None
  }

  /** The records `extract` finds in `rows`, in row order: one per row it accepts. */
  function Collect(rows: seq<string>, extract: string -> Option<Record>): (r: seq<Record>)
    ensures |r| <= |rows|
    decreases |rows|
  {
    if rows == [] then []
    else
      var last := extract(rows[|rows| - 1]);
      Collect(rows[..|rows| - 1], extract) + (if last.Some? then [last.value] else [])
  }

  /** The records of all rows, in row order, with no cap. */
  function RowRecords(rows: seq<string>): seq<Record> {
    Collect(rows, RowRecord)
  }

  /** Every record the extractor builds has three non-empty, stripped, one-line fields. */
  lemma RowRecordsWellFormed(rows: seq<string>)
    ensures forall k :: 0 <= k < |RowRecords(rows)| ==> WellFormed(RowRecords(rows)[k])
  {
    forall t | RowRecord(t).Some? ensures WellFormed(RowRecord(t).value) {
      PartsAreFields(t);
    }
    CollectKeeps(rows, RowRecord, WellFormed);
  }

  /** `MAX_ROWS` is truthy: a non-zero number. */
  predicate Capped(maxRows: Option<int>) {
    maxRows.Some? && maxRows.value != 0
  }

  /**
   * What `parse_market_from_html` returns: the records of all rows, cut
   * short once `MAX_ROWS` is truthy and the count has reached it.
   */
  function ParseSpec(rows: seq<string>, maxRows: Option<int>): seq<Record> {
    var all := RowRecords(rows);
    if Capped(maxRows) && maxRows.value > 0 then
      if |all| <= maxRows.value then all else all[..maxRows.value]
    else if Capped(maxRows) then
      RowRecords(rows[..if rows == [] then 0 else 1])
    else all
  }

  /**
   * The result is a prefix of the records of all rows, so it keeps their
   * order and is no longer than the rows. A positive `MAX_ROWS` keeps the
   * first `MAX_ROWS` records; `None` or `0` keeps all; a negative
   * `MAX_ROWS` is truthy and never exceeds a length, so only the first row
   * is looked at.
   */
  lemma ParseSpecShape(rows: seq<string>, maxRows: Option<int>)
    ensures var r := ParseSpec(rows, maxRows);
            && |r| <= |rows|
            && |r| <= |RowRecords(rows)| && r == RowRecords(rows)[..|r|]
            && (forall k :: 0 <= k < |r| ==> WellFormed(r[k]))
            && (!Capped(maxRows) ==> r == RowRecords(rows))
            && (Capped(maxRows) && maxRows.value > 0 ==>
                  |r| == if |RowRecords(rows)| <= maxRows.value then |RowRecords(rows)| else maxRows.value)
            && (Capped(maxRows) && maxRows.value < 0 ==> |r| <= 1 && r == RowRecords(rows[..|r|]))
  {
    RowRecordsWellFormed(rows);
    if Capped(maxRows) && maxRows.value < 0 {
      var first := rows[..if rows == [] then 0 else 1];
      RowRecordsAppend(first, rows[|first|..]);
      assert first + rows[|first|..] == rows;
      calc {
        ParseSpec(rows, maxRows);
        RowRecords(first);
        RowRecords(rows[..|RowRecords(first)|]);
      }
    }
  }

  /** The loop of scraper.py:113-123. */
  method ParseMarketFromHtml(rows: seq<string>, maxRows: Option<int>) returns (results: seq<Record>)
    ensures results == ParseSpec(rows, maxRows)
  {
    results := [];
    var i := 0;
    while i < |rows|
      invariant 0 <= i <= |rows|
      invariant results == Collect(rows[..i], RowRecord)
      invariant Capped(maxRows) ==> i == 0 || |results| < maxRows.value
    {
      var parts := Parts(rows[i]);
      if |parts| >= 3 {
        results := results + [Record(parts[0], parts[1], parts[2])];
      }
      RowRecordsSnoc(rows, i);
      i := i + 1;
      if Capped(maxRows) && |results| >= maxRows.value {
        ParseStopsAt(rows, maxRows, i);
        return;
      }
    }
    assert rows[..i] == rows;
    ParseRunsOut(rows, maxRows);
  }

  /** One more row adds the record of its first three parts, if it has three. */
  lemma RowRecordsSnoc(rows: seq<string>, i: nat)
    requires i < |rows|
    ensures var parts := Parts(rows[i]);
            Collect(rows[..i + 1], RowRecord) ==
              Collect(rows[..i], RowRecord) + (if |parts| >= 3 then [Record(parts[0], parts[1], parts[2])] else [])
  {
    assert rows[..i + 1][..i] == rows[..i];
  }

  /** A loop that goes through every row returns the records of all rows. */
  lemma ParseRunsOut(rows: seq<string>, maxRows: Option<int>)
    requires !Capped(maxRows) || rows == [] || |Collect(rows, RowRecord)| < maxRows.value
    ensures ParseSpec(rows, maxRows) == Collect(rows, RowRecord)
  {
    if Capped(maxRows) && rows == [] {
      assert rows[..0] == rows;
    }
  }

  /**
   * The loop leaves after row `i - 1` when that row brings the count up to
   * `MAX_ROWS` for the first time: the records found so far are the result.
   */
  lemma ParseStopsAt(rows: seq<string>, maxRows: Option<int>, i: nat)
    requires 0 < i <= |rows| && Capped(maxRows)
    requires |Collect(rows[..i], RowRecord)| >= maxRows.value
    requires i == 1 || |Collect(rows[..i - 1], RowRecord)| < maxRows.value
    ensures ParseSpec(rows, maxRows) == Collect(rows[..i], RowRecord)
  {
    var found := Collect(rows[..i], RowRecord);
    assert rows[..i][..i - 1] == rows[..i - 1];
    CollectAppend(rows[..i], rows[i..], RowRecord);
    assert rows[..i] + rows[i..] == rows;
    if maxRows.value > 0 {
      assert |found| == maxRows.value;
      assert RowRecords(rows)[..maxRows.value] == found;
    }
  }

  // ---------------------------------------------------------------------
  // Lemmas about the extractor

  lemma {:induction false} CollectAppend(a: seq<string>, b: seq<string>, extract: string -> Option<Record>)
    ensures Collect(a + b, extract) == Collect(a, extract) + Collect(b, extract)
    decreases |b|
  {
    if b == [] {
      assert a + b == a;
    } else {
      var b' := b[..|b| - 1];
      CollectAppend(a, b', extract);
      assert (a + b)[..|a + b| - 1] == a + b';
      assert (a + b)[|a + b| - 1] == b[|b| - 1];
    }
  }

  lemma RowRecordsAppend(a: seq<string>, b: seq<string>)
    ensures RowRecords(a + b) == RowRecords(a) + RowRecords(b)
  {
    CollectAppend(a, b, RowRecord);
  }

  lemma {:induction false} CollectKeeps(rows: seq<string>, extract: string -> Option<Record>, p: Record -> bool)
    requires forall t :: extract(t).Some? ==> p(extract(t).value)
    ensures forall k :: 0 <= k < |Collect(rows, extract)| ==> p(Collect(rows, extract)[k])
    decreases |rows|
  {
    if rows != [] {
      CollectKeeps(rows[..|rows| - 1], extract, p);
    }
  }

  lemma {:induction false} NonBlankKeepsOut(pieces: seq<string>, c: char)
    requires forall k :: 0 <= k < |pieces| ==> c !in pieces[k]
    ensures forall k :: 0 <= k < |NonBlankStripped(pieces)| ==>
              var f := NonBlankStripped(pieces)[k];
              f != [] && !IsSpace(f[0]) && !IsSpace(f[|f| - 1]) && c !in f
    decreases |pieces|
  {
    if pieces != [] {
      StripSpec(pieces[0]);
      StripKeepsOut(pieces[0], c);
      NonBlankKeepsOut(pieces[1..], c);
    }
  }

  lemma StripKeepsOut(s: string, c: char)
    requires c !in s
    ensures c !in Strip(s)
  {
    StripSpec(s);
    var r := Strip(s);
    var i := SkipSpaces(s, 0);
    forall k | 0 <= k < |r| ensures r[k] != c {
      assert r[k] == s[i + k];
    }
  }

  lemma {:induction false} NonBlankAppend(a: seq<string>, b: seq<string>)
    ensures NonBlankStripped(a + b) == NonBlankStripped(a) + NonBlankStripped(b)
    decreases |a|
  {
    if a != [] {
      var p := Strip(a[0]);
      var head := if p == [] then [] else [p];
      calc {
        NonBlankStripped(a + b);
        { assert (a + b)[0] == a[0]; assert (a + b)[1..] == a[1..] + b; }
        head + NonBlankStripped(a[1..] + b);
        { NonBlankAppend(a[1..], b); }
        head + NonBlankStripped(a[1..]) + NonBlankStripped(b);
      }
    } else {
      assert a + b == b;
    }
  }

  /** The non-blank stripped lines of a text: line 115 applied to the raw split. */
  function NonBlankLines(s: string): seq<string> {
    NonBlankStripped(Split(s, Newline))
  }

  lemma LeadingSpaceIgnored(c: char, s: string)
    requires IsSpace(c)
    ensures NonBlankLines([c] + s) == NonBlankLines(s)
  {
    var t := Split(s, Newline);
    assert ([c] + s)[1..] == s;
    if c == Newline {
      assert Split([c] + s, Newline) == [[]] + t;
      NonBlankAppend([[]], t);
    } else {
      var u := Split([c] + s, Newline);
      assert u == [[c] + t[0]] + t[1..];
      StripCons(c, t[0]);
      assert u[1..] == t[1..];
    }
  }

  lemma TrailingSpaceIgnored(s: string, c: char)
    requires IsSpace(c)
    ensures NonBlankLines(s + [c]) == NonBlankLines(s)
  {
    var p := Split(s, Newline);
    if c == Newline {
      SplitSnocSep(s, Newline);
      NonBlankAppend(p, [[]]);
    } else {
      TrailingBlankIgnored(s, c);
    }
  }

  lemma TrailingBlankIgnored(s: string, c: char)
    requires IsSpace(c) && c != Newline
    ensures NonBlankLines(s + [c]) == NonBlankLines(s)
  {
    var p := Split(s, Newline);
    var n := |p|;
    var init, x := p[..n - 1], p[n - 1];
    SplitSnocOther(s, c, Newline);
    assert Split(s + [c], Newline) == init + [x + [c]];
    NonBlankAppend(init, [x + [c]]);
    NonBlankAppend(init, [x]);
    StripSnoc(x, c);
    SameStrip(x + [c], x);
    assert init + [x] == p;
  }

  lemma SameStrip(x: string, y: string)
    requires Strip(x) == Strip(y)
    ensures NonBlankStripped([x]) == NonBlankStripped([y])
  {
    assert [x][1..] == [] == [y][1..];
  }

  lemma {:induction false} SpacePrefixInvariant(f: string -> seq<string>, w: string, s: string)
    requires forall c, t :: IsSpace(c) ==> f([c] + t) == f(t)
    requires AllSpace(w)
    ensures f(w + s) == f(s)
    decreases |w|
  {
    if w != [] {
      SpacePrefixInvariant(f, w[1..], s);
      assert w + s == [w[0]] + (w[1..] + s);
    } else {
      assert w + s == s;
    }
  }

  lemma {:induction false} SpaceSuffixInvariant(f: string -> seq<string>, s: string, w: string)
    requires forall t, c :: IsSpace(c) ==> f(t + [c]) == f(t)
    requires AllSpace(w)
    ensures f(s + w) == f(s)
    decreases |w|
  {
    if w != [] {
      var w' := w[..|w| - 1];
      SpaceSuffixInvariant(f, s, w');
      assert s + w == (s + w') + [w[|w| - 1]];
    } else {
      assert s + w == s;
    }
  }

  lemma LeadingSpacesIgnored(w: string, s: string)
    requires AllSpace(w)
    ensures NonBlankLines(w + s) == NonBlankLines(s)
  {
    forall c, t | IsSpace(c) ensures NonBlankLines([c] + t) == NonBlankLines(t) {
      LeadingSpaceIgnored(c, t);
    }
    SpacePrefixInvariant(NonBlankLines, w, s);
  }

  lemma TrailingSpacesIgnored(s: string, w: string)
    requires AllSpace(w)
    ensures NonBlankLines(s + w) == NonBlankLines(s)
  {
    forall t, c | IsSpace(c) ensures NonBlankLines(t + [c]) == NonBlankLines(t) {
      TrailingSpaceIgnored(t, c);
    }
    SpaceSuffixInvariant(NonBlankLines, s, w);
  }

  /** The outer `strip()` at line 114 does not change the parts. */
  lemma OuterStripIrrelevant(text: string)
    ensures Parts(text) == NonBlankLines(text)
  {
    var r := Strip(text);
    var i := SkipSpaces(text, 0);
    var j := i + |r|;
    StripSpec(text);
    assert text == text[..i] + r + text[j..];
    assert AllSpace(text[..i]);
    assert AllSpace(text[j..]);
    LeadingSpacesIgnored(text[..i], r + text[j..]);
    TrailingSpacesIgnored(r, text[j..]);
    assert text[..i] + (r + text[j..]) == text;
  }

  lemma {:induction false} JoinAppend(a: seq<string>, b: seq<string>, sep: char)
    requires |a| >= 1 && |b| >= 1
    ensures Join(a + b, sep) == Join(a, sep) + [sep] + Join(b, sep)
    decreases |a|
  {
    if |a| == 1 {
      assert (a + b)[1..] == b;
    } else {
      JoinAppend(a[1..], b, sep);
      assert (a + b)[1..] == a[1..] + b;
    }
  }

  /** Splitting a row at one line break splits its parts there. */
  lemma PartsConcat(a: string, b: string)
    ensures Parts(a + [Newline] + b) == Parts(a) + Parts(b)
  {
    var pa, pb := Split(a, Newline), Split(b, Newline);
    SplitSpec(a, Newline);
    SplitSpec(b, Newline);
    JoinAppend(pa, pb, Newline);
    SplitJoin(pa + pb, Newline);
    NonBlankAppend(pa, pb);
    OuterStripIrrelevant(a + [Newline] + b);
    OuterStripIrrelevant(a);
    OuterStripIrrelevant(b);
  }

  /**
   * For a row whose text is its text chunks joined by line breaks (what
   * `get_text(separator="\n")` builds), when no chunk itself contains a line
   * break, the record holds the first three chunks that are not blank,
   * stripped; a row with fewer such chunks gives none.
   */
  lemma RowOfChunks(chunks: seq<string>)
    requires forall k :: 0 <= k < |chunks| ==> Newline !in chunks[k]
    ensures var nb := NonBlankStripped(chunks);
            RowRecord(Join(chunks, Newline)) ==
              if |nb| >= 3 then Some(Record(nb[0], nb[1], nb[2])) else None
  {
    OuterStripIrrelevant(Join(chunks, Newline));
    if chunks != [] {
      SplitJoin(chunks, Newline);
    }
  }

  /** Once a row has three parts, whatever follows on later lines is ignored. */
  lemma LaterLinesIgnored(a: string, b: string)
    requires |Parts(a)| >= 3
    ensures RowRecord(a + [Newline] + b) == RowRecord(a)
  {
    PartsConcat(a, b);
  }

  lemma {:induction false} CollectSources(rows: seq<string>, extract: string -> Option<Record>) returns (idx: seq<nat>)
    ensures |idx| == |Collect(rows, extract)|
    ensures forall k :: 0 <= k < |idx| ==>
              idx[k] < |rows| && extract(rows[idx[k]]) == Some(Collect(rows, extract)[k])
    ensures forall k, l :: 0 <= k < l < |idx| ==> idx[k] < idx[l]
    ensures forall i :: 0 <= i < |rows| && extract(rows[i]).Some? ==> i in idx
    decreases |rows|
  {
    if rows == [] {
      idx := [];
    } else {
      var n := |rows| - 1;
      var init := rows[..n];
      var prev := CollectSources(init, extract);
      assert forall i :: 0 <= i < n ==> init[i] == rows[i];
      if extract(rows[n]).Some? {
        idx := prev + [n];
      } else {
        idx := prev;
      }
    }
  }

  /**
   * Every record comes from one row, in row order, and every row that yields
   * a record is represented: `idx` gives, for each record, the row it came from.
   */
  lemma RecordsFromRows(rows: seq<string>) returns (idx: seq<nat>)
    ensures |idx| == |RowRecords(rows)|
    ensures forall k :: 0 <= k < |idx| ==>
              idx[k] < |rows| && RowRecord(rows[idx[k]]) == Some(RowRecords(rows)[k])
    ensures forall k, l :: 0 <= k < l < |idx| ==> idx[k] < idx[l]
    ensures forall i :: 0 <= i < |rows| && RowRecord(rows[i]).Some? ==> i in idx
  {
    idx := CollectSources(rows, RowRecord);
  }
}
