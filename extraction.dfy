/**
 * The manifest builder (gdelt_extraction.py): every line of the index that
 * splits into exactly three whitespace-separated tokens, and whose URL's
 * last path segment starts with a `YYYYMMDDHHMM` timestamp inside
 * [start, end], is written out as a (size, hash, URL) row after one header row.
 */
module Extraction {
  import opened Wrappers
  import opened Text
  import opened Timestamp

  const Header: seq<string> := ["File Size", "MD5 Hash", "URL"]

  /** `start_date = datetime(2021, 2, 10)`; the end of the range is `datetime.today()`, a parameter here. */
  const RangeStart := DateTime(2021, 2, 10, 0, 0, 0, 0)

  /** `file_url.split('/')[-1][:12]`: at most twelve characters from the start of the last segment. */
  function DateKey(url: string): (key: string)
    ensures key <= LastSegment(url)
    ensures |key| == if |LastSegment(url)| < 12 then |LastSegment(url)| else 12
  {
    var seg := LastSegment(url);
    seg[..if |seg| < 12 then |seg| else 12]
  }

  /** `start_date <= file_date <= end_date`, both ends inclusive. */
  predicate InRange(d: DateTime, start: DateTime, end: DateTime) {
    NotAfter(start, d) && NotAfter(d, end)
  }

  /** The row written for one index line, or None when the line is skipped. */
  function KeptRow(line: string, start: DateTime, end: DateTime): Option<seq<string>> {
    var parts := Split(line);
    if |parts| != 3 then None
    else match ParseMinutes(DateKey(parts[2]))
      case None => None
      case Some(d) => if InRange(d, start, end) then Some(parts) else None
  }

  /** The data rows written for `lines`, in index order. */
  function FilterLines(lines: seq<string>, start: DateTime, end: DateTime): seq<seq<string>> {
    if lines == [] then []
    else
      var rest := FilterLines(lines[1..], start, end);
      match KeptRow(lines[0], start, end)
      case None => rest
      case Some(row) => [row] + rest
  }

  /**
   * A line is kept exactly when it has three tokens and its URL's last
   * segment begins with the twelve-digit rendering of a valid date and time
   * inside the range; the row kept is the three tokens unchanged.
   */
  lemma KeptRowMeaning(line: string, start: DateTime, end: DateTime)
    ensures KeptRow(line, start, end).Some? <==>
      |Split(line)| == 3 &&
      exists d :: Valid(d) && d.second == 0 && d.microsecond == 0 && InRange(d, start, end) &&
                  FormatMinutes(d) <= LastSegment(Split(line)[2])
    ensures KeptRow(line, start, end).Some? ==> KeptRow(line, start, end).value == Split(line)
  {
    var parts := Split(line);
    if |parts| == 3 {
      if KeptRow(line, start, end).Some? {
        KeptRowWitness(parts[2], start, end);
      }
      if exists d :: Valid(d) && d.second == 0 && d.microsecond == 0 && InRange(d, start, end) &&
                     FormatMinutes(d) <= LastSegment(parts[2]) {
        var d :| Valid(d) && d.second == 0 && d.microsecond == 0 && InRange(d, start, end) &&
                 FormatMinutes(d) <= LastSegment(parts[2]);
        KeptRowOfWitness(parts[2], d);
      }
    }
  }

  /** A date key that parses renders back from the date it parses to. */
  lemma KeptRowWitness(url: string, start: DateTime, end: DateTime)
    requires ParseMinutes(DateKey(url)).Some? && InRange(ParseMinutes(DateKey(url)).value, start, end)
    ensures var d := ParseMinutes(DateKey(url)).value;
      Valid(d) && d.second == 0 && d.microsecond == 0 && InRange(d, start, end) &&
      FormatMinutes(d) <= LastSegment(url)
  {
    FormatOfParseMinutes(DateKey(url));
  }

  /** A last segment that starts with the rendering of a valid date makes the date key parse to it. */
  lemma KeptRowOfWitness(url: string, d: DateTime)
    requires Valid(d) && d.second == 0 && d.microsecond == 0 && FormatMinutes(d) <= LastSegment(url)
    ensures ParseMinutes(DateKey(url)) == Some(d)
  {
    assert DateKey(url) == FormatMinutes(d);
    ParseMinutesOfFormat(d);
  }

  /** Filtering is line by line: the rows for `a + b` are the rows for `a` followed by those for `b`. */
  lemma {:induction false} FilterAppend(a: seq<string>, b: seq<string>, start: DateTime, end: DateTime)
    ensures FilterLines(a + b, start, end) == FilterLines(a, start, end) + FilterLines(b, start, end)
  {
    if a != [] {
      assert (a + b)[1..] == a[1..] + b;
      FilterAppend(a[1..], b, start, end);
    } else {
      assert a + b == b;
    }
  }

  /** Every row written has three non-empty whitespace-free tokens. */
  lemma {:induction false} FilteredRowsTokens(lines: seq<string>, start: DateTime, end: DateTime)
    ensures forall row :: row in FilterLines(lines, start, end) ==>
      |row| == 3 && forall t :: t in row ==> t != [] && SpaceFree(t)
  {
    if lines != [] {
      FilteredRowsTokens(lines[1..], start, end);
    }
  }

  /** Every row written has a date key that parses to a date and time inside the range. */
  lemma {:induction false} FilteredRowsInRange(lines: seq<string>, start: DateTime, end: DateTime)
    ensures forall row :: row in FilterLines(lines, start, end) ==>
      |row| == 3 &&
      ParseMinutes(DateKey(row[2])).Some? && InRange(ParseMinutes(DateKey(row[2])).value, start, end)
  {
    if lines != [] {
      FilteredRowsInRange(lines[1..], start, end);
    }
  }

  /** The calendar day is 10 February 2021 or later. */
  predicate OnOrAfterStartDay(d: DateTime) {
    d.year > 2021 || (d.year == 2021 && (d.month > 2 || (d.month == 2 && d.day >= 10)))
  }

  lemma OnOrAfterRangeStart(d: DateTime)
    requires NotAfter(RangeStart, d)
    ensures OnOrAfterStartDay(d)
  {
    var a, b := Fields(RangeStart), Fields(d);
    assert LexNotAfter(a, b);
    assert a[0] == 2021 && b[0] == d.year;
    if d.year == 2021 {
      var a1, b1 := a[1..], b[1..];
      assert LexNotAfter(a1, b1);
      assert a1[0] == 2 && b1[0] == d.month;
      if d.month == 2 {
        var a2, b2 := a1[1..], b1[1..];
        assert LexNotAfter(a2, b2);
        assert a2[0] == 10 && b2[0] == d.day;
      }
    }
  }

  /** With the script's own start date, every row written is dated 10 February 2021 or later. */
  lemma ScriptRowsFromRangeStart(lines: seq<string>, end: DateTime)
    ensures forall row :: row in FilterLines(lines, RangeStart, end) ==>
      |row| == 3 && ParseMinutes(DateKey(row[2])).Some? && OnOrAfterStartDay(ParseMinutes(DateKey(row[2])).value)
  {
    FilteredRowsInRange(lines, RangeStart, end);
    forall row | row in FilterLines(lines, RangeStart, end)
      ensures OnOrAfterStartDay(ParseMinutes(DateKey(row[2])).value)
    {
      OnOrAfterRangeStart(ParseMinutes(DateKey(row[2])).value);
    }
  }

  /** With an empty range (end before start) nothing but the header is written. */
  lemma EmptyRangeKeepsNothing(lines: seq<string>, start: DateTime, end: DateTime)
    requires !NotAfter(start, end)
    ensures FilterLines(lines, start, end) == []
  {
    var rows := FilterLines(lines, start, end);
    if rows != [] {
      FilteredRowsInRange(lines, start, end);
      var d := ParseMinutes(DateKey(rows[0][2])).value;
      NotAfterTotalOrder(start, d, end);
    }
  }

  /** The indices of the lines that are kept, in increasing order. */
  ghost function KeptPositions(lines: seq<string>, start: DateTime, end: DateTime): seq<nat> {
    if lines == [] then []
    else
      var n := |lines| - 1;
      KeptPositions(lines[..n], start, end) + if KeptRow(lines[n], start, end).Some? then [n] else []
  }

  lemma {:induction false} KeptPositionsIncrease(lines: seq<string>, start: DateTime, end: DateTime)
    ensures forall k :: 0 <= k < |KeptPositions(lines, start, end)| ==> KeptPositions(lines, start, end)[k] < |lines|
    ensures forall k, l :: 0 <= k < l < |KeptPositions(lines, start, end)| ==>
      KeptPositions(lines, start, end)[k] < KeptPositions(lines, start, end)[l]
  {
    if lines != [] {
      var n := |lines| - 1;
      var pos0 := KeptPositions(lines[..n], start, end);
      var tail: seq<nat> := if KeptRow(lines[n], start, end).Some? then [n] else [];
      KeptPositionsIncrease(lines[..n], start, end);
      var pos := KeptPositions(lines, start, end);
      assert pos == pos0 + tail;
      assert |lines[..n]| == n;
      forall k | 0 <= k < |pos|
        ensures pos[k] < |lines| && (k < |pos0| ==> pos[k] < n)
      {
        if k < |pos0| {
          assert pos[k] == pos0[k];
        } else {
          assert pos[k] == tail[k - |pos0|];
        }
      }
    }
  }

  /** Membership in positions below `n`, extended by at most `n` itself. */
  lemma InExtended(pos0: seq<nat>, tail: seq<nat>, n: nat, i: nat)
    requires forall k :: 0 <= k < |pos0| ==> pos0[k] < n
    requires tail == [] || tail == [n]
    ensures i in pos0 + tail <==> (i < n && i in pos0) || (i == n && tail != [])
  {
  }

  lemma {:induction false} KeptPositionsExact(lines: seq<string>, start: DateTime, end: DateTime)
    ensures forall i :: 0 <= i < |lines| ==>
      (i in KeptPositions(lines, start, end) <==> KeptRow(lines[i], start, end).Some?)
  {
    if lines != [] {
      var n := |lines| - 1;
      var init := lines[..n];
      KeptPositionsExact(init, start, end);
      KeptPositionsIncrease(init, start, end);
      var pos0 := KeptPositions(init, start, end);
      var tail: seq<nat> := if KeptRow(lines[n], start, end).Some? then [n] else [];
      assert KeptPositions(lines, start, end) == pos0 + tail;
      assert |init| == n;
      forall i | 0 <= i < |lines|
        ensures i in pos0 + tail <==> KeptRow(lines[i], start, end).Some?
      {
        InExtended(pos0, tail, n, i);
        if i < n {
          assert lines[i] == init[i];
        }
      }
    }
  }

  lemma {:induction false} KeptPositionsRows(lines: seq<string>, start: DateTime, end: DateTime)
    ensures |KeptPositions(lines, start, end)| == |FilterLines(lines, start, end)|
    ensures forall k :: 0 <= k < |KeptPositions(lines, start, end)| ==>
      KeptPositions(lines, start, end)[k] < |lines| &&
      FilterLines(lines, start, end)[k] == Split(lines[KeptPositions(lines, start, end)[k]])
  {
    if lines != [] {
      var n := |lines| - 1;
      var init := lines[..n];
      KeptPositionsRows(init, start, end);
      KeptPositionsIncrease(init, start, end);
      FilterSnoc(lines, n, start, end);
      assert lines[..n + 1] == lines;
      KeptRowMeaning(lines[n], start, end);
      var pos0, rows0 := KeptPositions(init, start, end), FilterLines(init, start, end);
      var kept := KeptRow(lines[n], start, end).Some?;
      var pos := pos0 + if kept then [n] else [];
      var rows := rows0 + if kept then [Split(lines[n])] else [];
      assert KeptPositions(lines, start, end) == pos;
      assert FilterLines(lines, start, end) == rows;
      assert |init| == n;
      forall k | 0 <= k < |pos|
        ensures pos[k] < |lines| && rows[k] == Split(lines[pos[k]])
      {
        if k < |pos0| {
          assert pos[k] == pos0[k] && rows[k] == rows0[k];
          assert lines[pos0[k]] == init[pos0[k]];
        }
      }
    }
  }

  /**
   * The rows written are a subsequence of the index: row k is the token
   * list of line `KeptPositions[k]`, the positions increase, and a line's
   * position is among them exactly when the line is kept.
   */
  lemma FilterIsSubsequence(lines: seq<string>, start: DateTime, end: DateTime)
    ensures var pos := KeptPositions(lines, start, end);
      var rows := FilterLines(lines, start, end);
      |pos| == |rows| &&
      (forall k :: 0 <= k < |pos| ==> pos[k] < |lines| && rows[k] == Split(lines[pos[k]])) &&
      (forall k, l :: 0 <= k < l < |pos| ==> pos[k] < pos[l]) &&
      (forall i :: 0 <= i < |lines| ==> (i in pos <==> KeptRow(lines[i], start, end).Some?))
  {
    KeptPositionsIncrease(lines, start, end);
    KeptPositionsExact(lines, start, end);
    KeptPositionsRows(lines, start, end);
  }

  /**
   * The whole file written for `lines`: the header, written once and first,
   * then the kept rows. The header never reappears, because its first
   * column "File Size" contains a space and no token does.
   */
  lemma HeaderWrittenOnce(lines: seq<string>, start: DateTime, end: DateTime)
    ensures var written := [Header] + FilterLines(lines, start, end);
      written[0] == Header && forall k :: 1 <= k < |written| ==> written[k] != Header
  {
    var rows := FilterLines(lines, start, end);
    FilteredRowsTokens(lines, start, end);
    assert !SpaceFree(Header[0]) by {
      assert IsSpace(Header[0][4]);
    }
    forall k | 0 <= k < |rows|
      ensures rows[k] != Header
    {
      assert rows[k] in rows;
      assert rows[k][0] in rows[k];
    }
  }

  /** Filtering one more line appends that line's row, if it is kept. */
  lemma FilterSnoc(lines: seq<string>, i: nat, start: DateTime, end: DateTime)
    requires i < |lines|
    ensures FilterLines(lines[..i + 1], start, end) ==
      FilterLines(lines[..i], start, end) +
      (if KeptRow(lines[i], start, end).Some? then [KeptRow(lines[i], start, end).value] else [])
  {
    FilterAppend(lines[..i], [lines[i]], start, end);
    assert lines[..i + 1] == lines[..i] + [lines[i]];
    assert FilterLines([lines[i]][1..], start, end) == [];
  }

  /**
   * The module-level loop of gdelt_extraction.py over an index fetched as
   * `lines`: the header, then the rows of the kept lines in index order.
   */
  method BuildManifest(lines: seq<string>, start: DateTime, end: DateTime) returns (written: seq<seq<string>>)
    ensures written == [Header] + FilterLines(lines, start, end)
  {
    written := [Header];
    for i := 0 to |lines|
      invariant written == [Header] + FilterLines(lines[..i], start, end)
    {
      FilterSnoc(lines, i, start, end);
      var parts := Split(lines[i]);
      if |parts| != 3 {
        continue;
      }
      var fileSize, md5Hash, fileUrl := parts[0], parts[1], parts[2];
      var fileDate := ParseMinutes(DateKey(fileUrl));
      if fileDate.None? {
        continue;
      }
      if NotAfter(start, fileDate.value) && NotAfter(fileDate.value, end) {
        assert [fileSize, md5Hash, fileUrl] == parts;
        written := written + [[fileSize, md5Hash, fileUrl]];
      }
    }
    assert lines[..|lines|] == lines;
  }
}
