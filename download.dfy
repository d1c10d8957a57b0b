/**
 * The snapshot processor (gdelt_data_download.py): it reads the manifest,
 * selects the sentiment archives published on the four-hour cadence,
 * decodes each member of each archive, and appends a (timestamp, tone)
 * record for every valid row to the partition of that row's year.
 *
 * The network and zip library are the parameter `fetch`, whose result says
 * whether the archive arrived, the request raised a ValueError (skipped by
 * the handler around the download) or failed otherwise (which ends the
 * run); the CSV reader over the decoded text's lines is `readCsv`; Python's
 * `float()` is `parseTone`.
 */
module Download {
  import opened Wrappers
  import opened Text
  import opened Timestamp
  import opened Charset
  import Extraction

  /** The substring that identifies a sentiment (GKG) archive. */
  const Marker := "gkg.csv.zip"

  /** `file_url.split('/')[-1][:14]`: at most fourteen characters from the start of the last segment. */
  function TimestampKey(url: string): (key: string)
    ensures key <= LastSegment(url)
    ensures |key| == if |LastSegment(url)| < 14 then |LastSegment(url)| else 14
  {
    var seg := LastSegment(url);
    seg[..if |seg| < 14 then |seg| else 14]
  }

  /** `hour % 4 == 0 and minute == 0 and second == 0`. */
  predicate OnCadence(d: DateTime) {
    d.hour % 4 == 0 && d.minute == 0 && d.second == 0
  }

  /** Whether the manifest URL is downloaded: a GKG archive whose timestamp is on the cadence. */
  predicate Selected(url: string) {
    Contains(url, Marker) &&
    match ParseSeconds(TimestampKey(url))
    case None => false
    case Some(d) => OnCadence(d)
  }

  /** The cadence spelled out: 00, 04, 08, 12, 16 or 20 o'clock sharp. */
  predicate OnCadenceHours(d: DateTime) {
    (d.hour == 0 || d.hour == 4 || d.hour == 8 || d.hour == 12 || d.hour == 16 || d.hour == 20) &&
    d.minute == 0 && d.second == 0
  }

  lemma CadenceHours(d: DateTime)
    requires Valid(d)
    ensures OnCadence(d) <==> OnCadenceHours(d)
  {
  }

  /** The URL's last segment begins with the fourteen-digit rendering of `d`. */
  predicate StampedWith(url: string, d: DateTime) {
    Valid(d) && d.microsecond == 0 && FormatSeconds(d) <= LastSegment(url)
  }

  lemma SelectedOnlyIf(url: string) returns (d: DateTime)
    requires Selected(url)
    ensures StampedWith(url, d) && OnCadenceHours(d)
  {
    var key := TimestampKey(url);
    d := ParseSeconds(key).value;
    FormatOfParseSeconds(key);
    CadenceHours(d);
  }

  lemma SelectedIf(url: string, d: DateTime)
    requires Contains(url, Marker) && StampedWith(url, d) && OnCadenceHours(d)
    ensures Selected(url)
  {
    assert TimestampKey(url) == FormatSeconds(d);
    ParseSecondsOfFormat(d);
    CadenceHours(d);
  }

  /**
   * A URL is selected exactly when it contains the marker and its last
   * segment begins with the fourteen-digit rendering of a valid datetime at
   * 00, 04, 08, 12, 16 or 20 o'clock sharp.
   */
  lemma SelectedMeaning(url: string)
    ensures Selected(url) <==>
      Contains(url, Marker) && exists d :: StampedWith(url, d) && OnCadenceHours(d)
  {
    if Selected(url) {
      var d := SelectedOnlyIf(url);
    }
    if Contains(url, Marker) && exists d :: StampedWith(url, d) && OnCadenceHours(d) {
      var d :| StampedWith(url, d) && OnCadenceHours(d);
      SelectedIf(url, d);
    }
  }

  // Rows and partitions

  /** One line of a year partition: the row's timestamp text and its tone. */
  datatype Record = Record(date: string, tone: real)

  /** The errors the source does not catch; each ends the whole run. */
  datatype Failure =
    | NoHeaderRow          // `next(reader)` on an empty manifest raises StopIteration
    | ManifestRowTooShort  // `row[2]` raises IndexError
    | FetchFailed(url: string)  // the download failed other than by a ValueError
    | EmptyRow             // `row[0]` raises IndexError
    | RowTooShort          // `row[7]` raises IndexError

  /** The per-year partitions: year -> records in the order they were appended. */
  type Partitions = map<int, seq<Record>>

  function Partition(parts: Partitions, year: int): seq<Record> {
    if year in parts then parts[year] else []
  }

  /** A record belongs in partition `year`: its timestamp parses and has that year. */
  predicate Filed(r: Record, year: int) {
    ParseSeconds(r.date).Some? && ParseSeconds(r.date).value.year == year
  }

  /** Every record sits in the partition of its own year. */
  predicate WellFiled(parts: Partitions) {
    forall y, i :: y in parts && 0 <= i < |parts[y]| ==> Filed(parts[y][i], y)
  }

  /** What `process_gkg_row` does with one row. */
  datatype RowVerdict = Crash(failure: Failure) | Skip | Keep(year: int, record: Record)

  function ExamineRow(row: seq<string>, parseTone: string -> Option<real>): RowVerdict {
    if |row| == 0 then Crash(EmptyRow)
    else match ParseSeconds(row[0])
      case None => Skip
      case Some(d) =>
        if |row| <= 7 then Crash(RowTooShort)
        else match parseTone(row[7])
          case None => Skip
          case Some(tone) => Keep(d.year, Record(row[0], tone))
  }

  /** The result of processing rows: the partitions so far and the error that stopped it, if any. */
  datatype Progress = Progress(parts: Partitions, failure: Option<Failure>)

  function Step(parts: Partitions, v: RowVerdict): Progress {
    match v
    case Crash(f) => Progress(parts, Some(f))
    case Skip => Progress(parts, None)
    case Keep(y, r) => Progress(parts[y := Partition(parts, y) + [r]], None)
  }

  /** The loop `for row in csvreader: process_gkg_row(row)`, stopping at the first error. */
  function RunRows(parts: Partitions, rows: seq<seq<string>>, parseTone: string -> Option<real>): Progress
    decreases |rows|
  {
    if rows == [] then Progress(parts, None)
    else
      var p := Step(parts, ExamineRow(rows[0], parseTone));
      if p.failure.Some? then p else RunRows(p.parts, rows[1..], parseTone)
  }

  /** The loop over the archive's members: decode each, read its rows, process them. */
  function RunArchive(parts: Partitions, members: seq<seq<Byte>>,
                      readCsv: string -> seq<seq<string>>, parseTone: string -> Option<real>): Progress
    decreases |members|
  {
    if members == [] then Progress(parts, None)
    else
      var p := RunRows(parts, readCsv(DecodeContent(members[0])), parseTone);
      if p.failure.Some? then p else RunArchive(p.parts, members[1..], readCsv, parseTone)
  }

  /** What downloading and opening one archive gives. */
  datatype Fetch =
    | Archive(members: seq<seq<Byte>>)  // the members' bytes, in `namelist()` order
    | Rejected     // a ValueError (requests' InvalidURL, MissingSchema, InvalidSchema), caught around the download
    | Unavailable  // any other error: an HTTP error status, a transport error, not a zip archive

  /** The result of a run: partitions, the URLs fetched in order, and the error that ended it, if any. */
  datatype Run = Run(parts: Partitions, fetched: seq<string>, failure: Option<Failure>)

  /** One manifest entry: its URL column, then, when the URL is selected, the download and the archive. */
  function RunEntry(parts: Partitions, row: seq<string>, fetch: string -> Fetch,
                    readCsv: string -> seq<seq<string>>, parseTone: string -> Option<real>): Run {
    if |row| < 3 then Run(parts, [], Some(ManifestRowTooShort))
    else
      var url := row[2];
      if !Selected(url) then Run(parts, [], None)
      else match fetch(url)
        case Unavailable => Run(parts, [url], Some(FetchFailed(url)))
        case Rejected => Run(parts, [url], None)
        case Archive(members) =>
          var p := RunArchive(parts, members, readCsv, parseTone);
          Run(p.parts, [url], p.failure)
  }

  /** The loop over the manifest rows after the header, stopping at the first error. */
  function RunEntries(parts: Partitions, rows: seq<seq<string>>, fetch: string -> Fetch,
                      readCsv: string -> seq<seq<string>>, parseTone: string -> Option<real>): Run
    decreases |rows|
  {
    if rows == [] then Run(parts, [], None)
    else
      var e := RunEntry(parts, rows[0], fetch, readCsv, parseTone);
      if e.failure.Some? then e
      else
        var rest := RunEntries(e.parts, rows[1..], fetch, readCsv, parseTone);
        Run(rest.parts, e.fetched + rest.fetched, rest.failure)
  }

  /** `process_gkg_file_links`: skip the header row, then process the entries. */
  function RunManifest(parts: Partitions, manifest: seq<seq<string>>, fetch: string -> Fetch,
                       readCsv: string -> seq<seq<string>>, parseTone: string -> Option<real>): Run {
    if manifest == [] then Run(parts, [], Some(NoHeaderRow))
    else RunEntries(parts, manifest[1..], fetch, readCsv, parseTone)
  }

  // What the runs append

  /** The records a row sequence contributes to partition `year`, in row order, up to the first error. */
  function KeptFor(rows: seq<seq<string>>, year: int, parseTone: string -> Option<real>): seq<Record>
    decreases |rows|
  {
    if rows == [] then []
    else match ExamineRow(rows[0], parseTone)
      case Crash(_) => []
      case Skip => KeptFor(rows[1..], year, parseTone)
      case Keep(y, r) => (if y == year then [r] else []) + KeptFor(rows[1..], year, parseTone)
  }

  /** No row of `rows` makes `process_gkg_row` raise. */
  predicate CompletesRows(rows: seq<seq<string>>, parseTone: string -> Option<real>) {
    forall i :: 0 <= i < |rows| ==> !ExamineRow(rows[i], parseTone).Crash?
  }

  /**
   * The meaning of one row: an empty row is an error; a row whose field 0
   * is no timestamp is skipped whatever its length and field 7; a row with
   * a timestamp but no field 7 is an error; otherwise it is kept exactly
   * when field 7 is a number, as the record (field 0, tone) filed under its
   * own year.
   */
  lemma ExamineRowMeaning(row: seq<string>, parseTone: string -> Option<real>)
    ensures ExamineRow(row, parseTone) == Crash(EmptyRow) <==> row == []
    ensures row != [] && ParseSeconds(row[0]).None? ==> ExamineRow(row, parseTone) == Skip
    ensures ExamineRow(row, parseTone) == Crash(RowTooShort) <==>
      row != [] && ParseSeconds(row[0]).Some? && |row| < 8
    ensures ExamineRow(row, parseTone).Keep? <==>
      |row| >= 8 && ParseSeconds(row[0]).Some? && parseTone(row[7]).Some?
    ensures ExamineRow(row, parseTone).Keep? ==>
      Filed(ExamineRow(row, parseTone).record, ExamineRow(row, parseTone).year) &&
      ExamineRow(row, parseTone).record == Record(row[0], parseTone(row[7]).value)
  {
  }

  /**
   * A field 0 longer than fourteen characters never parses (the format
   * consumes at most fourteen and the rest is unconverted data), so such a
   * row is skipped: this is the fate of every row whose field 0 is a GKG 2.x
   * record identifier such as "20210315120000-0".
   */
  lemma OverlongDateSkipped(row: seq<string>, parseTone: string -> Option<real>)
    requires row != [] && |row[0]| > 14
    ensures ExamineRow(row, parseTone) == Skip
  {
    assert ParseSeconds(row[0]) == None;
  }

  lemma StepAppends(parts: Partitions, v: RowVerdict, y: int)
    ensures Partition(Step(parts, v).parts, y) ==
            Partition(parts, y) + (if v.Keep? && v.year == y then [v.record] else [])
    ensures y in Step(parts, v).parts <==> y in parts || (v.Keep? && v.year == y)
  {
  }

  /** One step followed by appending `later` to partition `y` of its result. */
  lemma StepThenAppend(parts: Partitions, v: RowVerdict, q: Partitions, later: seq<Record>, y: int)
    requires Partition(q, y) == Partition(Step(parts, v).parts, y) + later
    ensures Partition(q, y) ==
      Partition(parts, y) + ((if v.Keep? && v.year == y then [v.record] else []) + later)
  {
    StepAppends(parts, v, y);
    var before, added := Partition(parts, y), if v.Keep? && v.year == y then [v.record] else [];
    assert (before + added) + later == before + (added + later);
  }

  lemma KeptForUnfold(rows: seq<seq<string>>, year: int, parseTone: string -> Option<real>)
    requires rows != [] && !ExamineRow(rows[0], parseTone).Crash?
    ensures var v := ExamineRow(rows[0], parseTone);
      KeptFor(rows, year, parseTone) ==
        (if v.Keep? && v.year == year then [v.record] else []) + KeptFor(rows[1..], year, parseTone)
  {
  }

  /** RunRowsAppends for one partition. */
  lemma {:induction false} RunRowsAppendsAt(parts: Partitions, rows: seq<seq<string>>,
                                            parseTone: string -> Option<real>, y: int)
    ensures Partition(RunRows(parts, rows, parseTone).parts, y) == Partition(parts, y) + KeptFor(rows, y, parseTone)
    decreases |rows|
  {
    if rows != [] {
      var v := ExamineRow(rows[0], parseTone);
      var p := Step(parts, v);
      if !v.Crash? {
        RunRowsAppendsAt(p.parts, rows[1..], parseTone, y);
        KeptForUnfold(rows, y, parseTone);
        var q := RunRows(p.parts, rows[1..], parseTone).parts;
        assert RunRows(parts, rows, parseTone).parts == q;
        StepThenAppend(parts, v, q, KeptFor(rows[1..], y, parseTone), y);
      }
    }
  }

  /** RunRowsYears for one year. */
  lemma {:induction false} RunRowsYearsAt(parts: Partitions, rows: seq<seq<string>>,
                                          parseTone: string -> Option<real>, y: int)
    ensures y in RunRows(parts, rows, parseTone).parts <==> y in parts || KeptFor(rows, y, parseTone) != []
    decreases |rows|
  {
    if rows != [] {
      var v := ExamineRow(rows[0], parseTone);
      var p := Step(parts, v);
      if !v.Crash? {
        StepAppends(parts, v, y);
        RunRowsYearsAt(p.parts, rows[1..], parseTone, y);
        KeptForUnfold(rows, y, parseTone);
        assert RunRows(parts, rows, parseTone).parts == RunRows(p.parts, rows[1..], parseTone).parts;
      }
    }
  }

  /**
   * Processing rows appends, to each partition, exactly the records of
   * that year's valid rows in row order, up to the first error; a partition
   * no row contributes to is unchanged.
   */
  lemma RunRowsAppends(parts: Partitions, rows: seq<seq<string>>, parseTone: string -> Option<real>)
    ensures forall y :: Partition(RunRows(parts, rows, parseTone).parts, y) ==
                        Partition(parts, y) + KeptFor(rows, y, parseTone)
  {
    forall y ensures Partition(RunRows(parts, rows, parseTone).parts, y) ==
                     Partition(parts, y) + KeptFor(rows, y, parseTone)
    {
      RunRowsAppendsAt(parts, rows, parseTone, y);
    }
  }

  /** Only years that some row contributes to are added as partitions. */
  lemma RunRowsYears(parts: Partitions, rows: seq<seq<string>>, parseTone: string -> Option<real>)
    ensures forall y :: y in RunRows(parts, rows, parseTone).parts <==>
                        y in parts || KeptFor(rows, y, parseTone) != []
  {
    forall y ensures y in RunRows(parts, rows, parseTone).parts <==>
                     y in parts || KeptFor(rows, y, parseTone) != []
    {
      RunRowsYearsAt(parts, rows, parseTone, y);
    }
  }

  /** Processing rows stops with an error exactly when some row raises. */
  lemma {:induction false} RunRowsFailure(parts: Partitions, rows: seq<seq<string>>, parseTone: string -> Option<real>)
    ensures RunRows(parts, rows, parseTone).failure.None? <==> CompletesRows(rows, parseTone)
    decreases |rows|
  {
    if rows != [] {
      var v := ExamineRow(rows[0], parseTone);
      RunRowsFailure(Step(parts, v).parts, rows[1..], parseTone);
      assert forall i :: 1 <= i < |rows| ==> rows[i] == rows[1..][i - 1];
    }
  }

  /** Processing `a + b` is processing `a`, then, unless it failed, `b`. */
  lemma {:induction false} RunRowsConcat(parts: Partitions, a: seq<seq<string>>, b: seq<seq<string>>,
                                         parseTone: string -> Option<real>)
    ensures RunRows(parts, a + b, parseTone) ==
      if RunRows(parts, a, parseTone).failure.Some? then RunRows(parts, a, parseTone)
      else RunRows(RunRows(parts, a, parseTone).parts, b, parseTone)
    decreases |a|
  {
    if a == [] {
      assert a + b == b;
    } else {
      assert (a + b)[0] == a[0] && (a + b)[1..] == a[1..] + b;
      var p := Step(parts, ExamineRow(a[0], parseTone));
      if p.failure.None? {
        RunRowsConcat(p.parts, a[1..], b, parseTone);
      }
    }
  }

  lemma CompletesRowsUnfold(rows: seq<seq<string>>, parseTone: string -> Option<real>)
    requires rows != []
    ensures CompletesRows(rows, parseTone) <==>
      !ExamineRow(rows[0], parseTone).Crash? && CompletesRows(rows[1..], parseTone)
  {
    assert forall i :: 1 <= i < |rows| ==> rows[i] == rows[1..][i - 1];
  }

  lemma {:induction false} KeptForConcat(a: seq<seq<string>>, b: seq<seq<string>>, year: int,
                                         parseTone: string -> Option<real>)
    ensures KeptFor(a + b, year, parseTone) ==
      KeptFor(a, year, parseTone) + if CompletesRows(a, parseTone) then KeptFor(b, year, parseTone) else []
    decreases |a|
  {
    if a == [] {
      assert a + b == b;
    } else {
      assert (a + b)[0] == a[0] && (a + b)[1..] == a[1..] + b;
      CompletesRowsUnfold(a, parseTone);
      var v := ExamineRow(a[0], parseTone);
      if !v.Crash? {
        KeptForConcat(a[1..], b, year, parseTone);
        KeptForUnfold(a, year, parseTone);
        KeptForUnfold(a + b, year, parseTone);
        var added := if v.Keep? && v.year == year then [v.record] else [];
        var tail := if CompletesRows(a[1..], parseTone) then KeptFor(b, year, parseTone) else [];
        assert KeptFor(a + b, year, parseTone) == added + (KeptFor(a[1..], year, parseTone) + tail);
      }
    }
  }

  /** Every record a row sequence contributes to partition `year` belongs there. */
  lemma {:induction false} KeptForFiled(rows: seq<seq<string>>, year: int, parseTone: string -> Option<real>)
    ensures forall r :: r in KeptFor(rows, year, parseTone) ==> Filed(r, year)
    decreases |rows|
  {
    if rows != [] {
      KeptForFiled(rows[1..], year, parseTone);
    }
  }

  /** From the per-year law of appending: a well-filed store stays well filed. */
  lemma AppendingKeepsFiled(parts: Partitions, next: Partitions, rows: seq<seq<string>>, parseTone: string -> Option<real>)
    requires WellFiled(parts)
    requires forall y :: Partition(next, y) == Partition(parts, y) + KeptFor(rows, y, parseTone)
    ensures WellFiled(next)
  {
    forall y, i | y in next && 0 <= i < |next[y]|
      ensures Filed(next[y][i], y)
    {
      assert next[y] == Partition(parts, y) + KeptFor(rows, y, parseTone);
      if i >= |Partition(parts, y)| {
        KeptForFiled(rows, y, parseTone);
        assert next[y][i] in KeptFor(rows, y, parseTone);
      }
    }
  }

  /** The data rows of all members of an archive, in member order. */
  function ArchiveRows(members: seq<seq<Byte>>, readCsv: string -> seq<seq<string>>): seq<seq<string>> {
    if members == [] then [] else readCsv(DecodeContent(members[0])) + ArchiveRows(members[1..], readCsv)
  }

  /** Processing an archive member by member is processing the concatenation of their rows. */
  lemma {:induction false} RunArchiveIsRunRows(parts: Partitions, members: seq<seq<Byte>>,
                                               readCsv: string -> seq<seq<string>>, parseTone: string -> Option<real>)
    ensures RunArchive(parts, members, readCsv, parseTone) == RunRows(parts, ArchiveRows(members, readCsv), parseTone)
    decreases |members|
  {
    if members != [] {
      var rows := readCsv(DecodeContent(members[0]));
      RunRowsConcat(parts, rows, ArchiveRows(members[1..], readCsv), parseTone);
      var p := RunRows(parts, rows, parseTone);
      if p.failure.None? {
        RunArchiveIsRunRows(p.parts, members[1..], readCsv, parseTone);
      }
    }
  }

  /** The data rows of every selected archive, in manifest order, up to the first error of the manifest loop. */
  function EntriesRows(rows: seq<seq<string>>, fetch: string -> Fetch,
                       readCsv: string -> seq<seq<string>>): seq<seq<string>>
    decreases |rows|
  {
    if rows == [] || |rows[0]| < 3 then []
    else if !Selected(rows[0][2]) then EntriesRows(rows[1..], fetch, readCsv)
    else match fetch(rows[0][2])
      case Unavailable => []
      case Rejected => EntriesRows(rows[1..], fetch, readCsv)
      case Archive(members) => ArchiveRows(members, readCsv) + EntriesRows(rows[1..], fetch, readCsv)
  }

  /** RunEntriesAppends for one partition. */
  lemma {:induction false} RunEntriesAppendsAt(parts: Partitions, rows: seq<seq<string>>,
      fetch: string -> Fetch, readCsv: string -> seq<seq<string>>, parseTone: string -> Option<real>, y: int)
    ensures Partition(RunEntries(parts, rows, fetch, readCsv, parseTone).parts, y) ==
            Partition(parts, y) + KeptFor(EntriesRows(rows, fetch, readCsv), y, parseTone)
    decreases |rows|
  {
    if rows == [] || |rows[0]| < 3 {
      assert EntriesRows(rows, fetch, readCsv) == [];
      assert RunEntries(parts, rows, fetch, readCsv, parseTone).parts == parts;
      assert Partition(parts, y) + [] == Partition(parts, y);
    } else {
      var url := rows[0][2];
      var e := RunEntry(parts, rows[0], fetch, readCsv, parseTone);
      if !Selected(url) || fetch(url).Rejected? {
        assert e.parts == parts && e.failure.None?;
        assert RunEntries(parts, rows, fetch, readCsv, parseTone).parts ==
               RunEntries(parts, rows[1..], fetch, readCsv, parseTone).parts;
        assert EntriesRows(rows, fetch, readCsv) == EntriesRows(rows[1..], fetch, readCsv);
        RunEntriesAppendsAt(parts, rows[1..], fetch, readCsv, parseTone, y);
      } else if fetch(url).Archive? {
        ArchiveEntryAppendsAt(parts, rows, fetch, readCsv, parseTone, y);
      } else {
        assert EntriesRows(rows, fetch, readCsv) == [];
        assert RunEntries(parts, rows, fetch, readCsv, parseTone).parts == parts;
        assert Partition(parts, y) + [] == Partition(parts, y);
      }
    }
  }

  /** How the manifest loop goes on after an entry whose archive arrived. */
  lemma ArchiveEntryUnfold(parts: Partitions, rows: seq<seq<string>>,
      fetch: string -> Fetch, readCsv: string -> seq<seq<string>>, parseTone: string -> Option<real>)
    requires rows != [] && |rows[0]| >= 3 && Selected(rows[0][2]) && fetch(rows[0][2]).Archive?
    ensures EntriesRows(rows, fetch, readCsv) ==
            ArchiveRows(fetch(rows[0][2]).members, readCsv) + EntriesRows(rows[1..], fetch, readCsv)
    ensures RunArchive(parts, fetch(rows[0][2]).members, readCsv, parseTone).failure.None? ==>
            RunEntries(parts, rows, fetch, readCsv, parseTone).parts ==
            RunEntries(RunArchive(parts, fetch(rows[0][2]).members, readCsv, parseTone).parts,
                       rows[1..], fetch, readCsv, parseTone).parts
    ensures RunArchive(parts, fetch(rows[0][2]).members, readCsv, parseTone).failure.Some? ==>
            RunEntries(parts, rows, fetch, readCsv, parseTone).parts ==
            RunArchive(parts, fetch(rows[0][2]).members, readCsv, parseTone).parts
  {
    var url := rows[0][2];
    var p := RunArchive(parts, fetch(url).members, readCsv, parseTone);
    assert RunEntry(parts, rows[0], fetch, readCsv, parseTone) == Run(p.parts, [url], p.failure);
  }

  /** RunRowsAppendsAt and RunRowsFailure for the rows of a whole archive. */
  lemma RunArchiveAppendsAt(parts: Partitions, members: seq<seq<Byte>>,
      readCsv: string -> seq<seq<string>>, parseTone: string -> Option<real>, y: int)
    ensures Partition(RunArchive(parts, members, readCsv, parseTone).parts, y) ==
            Partition(parts, y) + KeptFor(ArchiveRows(members, readCsv), y, parseTone)
    ensures RunArchive(parts, members, readCsv, parseTone).failure.None? <==>
            CompletesRows(ArchiveRows(members, readCsv), parseTone)
  {
    RunArchiveIsRunRows(parts, members, readCsv, parseTone);
    RunRowsAppendsAt(parts, ArchiveRows(members, readCsv), parseTone, y);
    RunRowsFailure(parts, ArchiveRows(members, readCsv), parseTone);
  }

  /** Appending a first batch and then, if the run goes on, a second one. */
  lemma AppendThenMaybe(final: Partitions, mid: Partitions, next: Partitions, y: int,
                        before: seq<Record>, first: seq<Record>, rest: seq<Record>, goesOn: bool)
    requires Partition(mid, y) == before + first
    requires goesOn ==> Partition(next, y) == Partition(mid, y) + rest
    requires final == if goesOn then next else mid
    ensures Partition(final, y) == before + (first + if goesOn then rest else [])
  {
    if goesOn {
      assert (before + first) + rest == before + (first + rest);
    } else {
      assert first + [] == first;
    }
  }

  /** The step of RunEntriesAppendsAt for an entry whose archive arrived. */
  lemma {:induction false} ArchiveEntryAppendsAt(parts: Partitions, rows: seq<seq<string>>,
      fetch: string -> Fetch, readCsv: string -> seq<seq<string>>, parseTone: string -> Option<real>, y: int)
    requires rows != [] && |rows[0]| >= 3 && Selected(rows[0][2]) && fetch(rows[0][2]).Archive?
    ensures Partition(RunEntries(parts, rows, fetch, readCsv, parseTone).parts, y) ==
            Partition(parts, y) + KeptFor(EntriesRows(rows, fetch, readCsv), y, parseTone)
    decreases |rows|, 0
  {
    var members := fetch(rows[0][2]).members;
    var archiveRows := ArchiveRows(members, readCsv);
    var later := EntriesRows(rows[1..], fetch, readCsv);
    var p := RunArchive(parts, members, readCsv, parseTone);
    var next := RunEntries(p.parts, rows[1..], fetch, readCsv, parseTone).parts;
    ArchiveEntryUnfold(parts, rows, fetch, readCsv, parseTone);
    RunArchiveAppendsAt(parts, members, readCsv, parseTone, y);
    KeptForConcat(archiveRows, later, y, parseTone);
    if p.failure.None? {
      RunEntriesAppendsAt(p.parts, rows[1..], fetch, readCsv, parseTone, y);
    }
    AppendThenMaybe(RunEntries(parts, rows, fetch, readCsv, parseTone).parts, p.parts, next, y,
                    Partition(parts, y), KeptFor(archiveRows, y, parseTone), KeptFor(later, y, parseTone),
                    p.failure.None?);
  }

  /**
   * A manifest run appends, to each partition, exactly that year's records
   * from the valid rows of the selected archives, in manifest, member and
   * row order, up to the first error.
   */
  lemma RunEntriesAppends(parts: Partitions, rows: seq<seq<string>>,
      fetch: string -> Fetch, readCsv: string -> seq<seq<string>>, parseTone: string -> Option<real>)
    ensures forall y :: Partition(RunEntries(parts, rows, fetch, readCsv, parseTone).parts, y) ==
                        Partition(parts, y) + KeptFor(EntriesRows(rows, fetch, readCsv), y, parseTone)
  {
    forall y ensures Partition(RunEntries(parts, rows, fetch, readCsv, parseTone).parts, y) ==
                     Partition(parts, y) + KeptFor(EntriesRows(rows, fetch, readCsv), y, parseTone)
    {
      RunEntriesAppendsAt(parts, rows, fetch, readCsv, parseTone, y);
    }
  }

  /** Every record in every partition keeps belonging to its partition's year across a manifest run. */
  lemma RunManifestKeepsFiled(parts: Partitions, manifest: seq<seq<string>>,
      fetch: string -> Fetch, readCsv: string -> seq<seq<string>>, parseTone: string -> Option<real>)
    requires WellFiled(parts)
    ensures WellFiled(RunManifest(parts, manifest, fetch, readCsv, parseTone).parts)
  {
    if manifest != [] {
      RunEntriesAppends(parts, manifest[1..], fetch, readCsv, parseTone);
      AppendingKeepsFiled(parts, RunManifest(parts, manifest, fetch, readCsv, parseTone).parts,
                          EntriesRows(manifest[1..], fetch, readCsv), parseTone);
    }
  }

  /**
   * The partitions only grow at their ends: whatever a partition held before
   * a manifest run is a prefix of what it holds after.
   */
  lemma RunManifestAppendOnly(parts: Partitions, manifest: seq<seq<string>>,
      fetch: string -> Fetch, readCsv: string -> seq<seq<string>>, parseTone: string -> Option<real>)
    ensures forall y :: Partition(parts, y) <= Partition(RunManifest(parts, manifest, fetch, readCsv, parseTone).parts, y)
  {
    if manifest != [] {
      RunEntriesAppends(parts, manifest[1..], fetch, readCsv, parseTone);
    }
  }

  /**
   * No deduplication: running the processor twice on the same manifest
   * appends the same records twice.
   */
  lemma RerunAppendsTwice(parts: Partitions, manifest: seq<seq<string>>,
      fetch: string -> Fetch, readCsv: string -> seq<seq<string>>, parseTone: string -> Option<real>)
    ensures var once := RunManifest(parts, manifest, fetch, readCsv, parseTone).parts;
      var twice := RunManifest(once, manifest, fetch, readCsv, parseTone).parts;
      forall y :: Partition(parts, y) <= Partition(once, y) &&
        Partition(twice, y) == Partition(once, y) + Partition(once, y)[|Partition(parts, y)|..]
  {
    var once := RunManifest(parts, manifest, fetch, readCsv, parseTone).parts;
    if manifest != [] {
      RunEntriesAppends(parts, manifest[1..], fetch, readCsv, parseTone);
      RunEntriesAppends(once, manifest[1..], fetch, readCsv, parseTone);
      forall y ensures Partition(once, y)[|Partition(parts, y)|..] ==
                       KeptFor(EntriesRows(manifest[1..], fetch, readCsv), y, parseTone)
      {
        assert Partition(once, y) == Partition(parts, y) + KeptFor(EntriesRows(manifest[1..], fetch, readCsv), y, parseTone);
      }
    }
  }

  // What the runs fetch

  /** The URLs of the rows that pass the selection, in manifest order, up to the first row without a URL column. */
  function SelectedUrls(rows: seq<seq<string>>): seq<string>
    decreases |rows|
  {
    if rows == [] || |rows[0]| < 3 then []
    else (if Selected(rows[0][2]) then [rows[0][2]] else []) + SelectedUrls(rows[1..])
  }

  /** Every URL in SelectedUrls passes the selection and is the URL column of a manifest row. */
  lemma {:induction false} SelectedUrlsFromRows(rows: seq<seq<string>>)
    ensures forall u :: u in SelectedUrls(rows) ==>
      Selected(u) && exists k :: 0 <= k < |rows| && |rows[k]| >= 3 && rows[k][2] == u
    decreases |rows|
  {
    if rows != [] && |rows[0]| >= 3 {
      SelectedUrlsFromRows(rows[1..]);
      forall u | u in SelectedUrls(rows[1..])
        ensures exists k :: 0 <= k < |rows| && |rows[k]| >= 3 && rows[k][2] == u
      {
        var k :| 0 <= k < |rows[1..]| && |rows[1..][k]| >= 3 && rows[1..][k][2] == u;
        assert rows[k + 1] == rows[1..][k];
      }
    }
  }

  /**
   * The URLs fetched are the selected ones in manifest order: a prefix of
   * SelectedUrls, and all of it when the run completes.
   */
  lemma {:induction false} FetchedAreSelected(parts: Partitions, rows: seq<seq<string>>,
      fetch: string -> Fetch, readCsv: string -> seq<seq<string>>, parseTone: string -> Option<real>)
    ensures RunEntries(parts, rows, fetch, readCsv, parseTone).fetched <= SelectedUrls(rows)
    ensures RunEntries(parts, rows, fetch, readCsv, parseTone).failure.None? ==>
            RunEntries(parts, rows, fetch, readCsv, parseTone).fetched == SelectedUrls(rows)
    decreases |rows|
  {
    if rows != [] && |rows[0]| >= 3 {
      var url := rows[0][2];
      if !Selected(url) || fetch(url).Rejected? {
        FetchedAreSelected(parts, rows[1..], fetch, readCsv, parseTone);
      } else if fetch(url).Archive? {
        var p := RunArchive(parts, fetch(url).members, readCsv, parseTone);
        if p.failure.None? {
          FetchedAreSelected(p.parts, rows[1..], fetch, readCsv, parseTone);
        }
      }
    }
  }

  /**
   * The handler around the download also catches a ValueError raised by the
   * request itself: such an entry is skipped like one with a bad timestamp
   * (though it was attempted), and the following entries are still processed.
   * Any other failure of the download ends the run.
   */
  lemma FetchOutcomes(parts: Partitions, row: seq<string>, rows: seq<seq<string>>,
      fetch: string -> Fetch, readCsv: string -> seq<seq<string>>, parseTone: string -> Option<real>)
    requires |row| >= 3 && Selected(row[2])
    ensures var run := RunEntries(parts, [row] + rows, fetch, readCsv, parseTone);
      var later := RunEntries(parts, rows, fetch, readCsv, parseTone);
      (fetch(row[2]) == Rejected ==> run == Run(later.parts, [row[2]] + later.fetched, later.failure)) &&
      (fetch(row[2]) == Unavailable ==> run == Run(parts, [row[2]], Some(FetchFailed(row[2]))))
  {
    assert ([row] + rows)[0] == row && ([row] + rows)[1..] == rows;
  }

  /**
   * The manifest's first row is never considered: it may be anything, the
   * run is the same. An empty manifest is an error (no header to skip).
   */
  lemma HeaderNeverConsidered(parts: Partitions, header1: seq<string>, header2: seq<string>, rows: seq<seq<string>>,
      fetch: string -> Fetch, readCsv: string -> seq<seq<string>>, parseTone: string -> Option<real>)
    ensures RunManifest(parts, [header1] + rows, fetch, readCsv, parseTone) ==
            RunManifest(parts, [header2] + rows, fetch, readCsv, parseTone)
    ensures RunManifest(parts, [], fetch, readCsv, parseTone) == Run(parts, [], Some(NoHeaderRow))
  {
    assert ([header1] + rows)[1..] == rows == ([header2] + rows)[1..];
  }

  /**
   * The manifest written by the builder runs without a manifest error, and
   * every URL fetched from it passes the selection and carries a date key
   * inside the builder's range.
   */
  lemma PipelineFetchesOnlySelectedInRange(lines: seq<string>, start: DateTime, end: DateTime, parts: Partitions,
      fetch: string -> Fetch, readCsv: string -> seq<seq<string>>, parseTone: string -> Option<real>)
    ensures var run := RunManifest(parts, [Extraction.Header] + Extraction.FilterLines(lines, start, end),
                                   fetch, readCsv, parseTone);
      run.failure != Some(NoHeaderRow) && run.failure != Some(ManifestRowTooShort) &&
      forall u :: u in run.fetched ==>
        Selected(u) && ParseMinutes(Extraction.DateKey(u)).Some? &&
        Extraction.InRange(ParseMinutes(Extraction.DateKey(u)).value, start, end)
  {
    var rows := Extraction.FilterLines(lines, start, end);
    var manifest := [Extraction.Header] + rows;
    assert manifest[1..] == rows;
    Extraction.FilteredRowsInRange(lines, start, end);
    FetchedAreSelected(parts, rows, fetch, readCsv, parseTone);
    SelectedUrlsFromRows(rows);
    NoShortRows(parts, rows, fetch, readCsv, parseTone);
    var run := RunManifest(parts, manifest, fetch, readCsv, parseTone);
    forall u | u in run.fetched
      ensures Selected(u) && ParseMinutes(Extraction.DateKey(u)).Some? &&
        Extraction.InRange(ParseMinutes(Extraction.DateKey(u)).value, start, end)
    {
      assert u in SelectedUrls(rows);
      var k :| 0 <= k < |rows| && |rows[k]| >= 3 && rows[k][2] == u;
      assert rows[k] in rows;
    }
  }

  lemma {:induction false} NoShortRows(parts: Partitions, rows: seq<seq<string>>,
      fetch: string -> Fetch, readCsv: string -> seq<seq<string>>, parseTone: string -> Option<real>)
    requires forall k :: 0 <= k < |rows| ==> |rows[k]| == 3
    ensures RunEntries(parts, rows, fetch, readCsv, parseTone).failure != Some(ManifestRowTooShort)
    ensures RunEntries(parts, rows, fetch, readCsv, parseTone).failure != Some(NoHeaderRow)
    decreases |rows|
  {
    if rows != [] {
      var url := rows[0][2];
      assert forall k :: 0 <= k < |rows[1..]| ==> rows[1..][k] == rows[k + 1];
      if !Selected(url) || fetch(url).Rejected? {
        NoShortRows(parts, rows[1..], fetch, readCsv, parseTone);
      } else if fetch(url).Archive? {
        RunArchiveNeverManifestFailure(parts, rows, fetch, readCsv, parseTone);
        var p := RunArchive(parts, fetch(url).members, readCsv, parseTone);
        if p.failure.None? {
          NoShortRows(p.parts, rows[1..], fetch, readCsv, parseTone);
        }
      }
    }
  }

  lemma RunArchiveNeverManifestFailure(parts: Partitions, rows: seq<seq<string>>,
      fetch: string -> Fetch, readCsv: string -> seq<seq<string>>, parseTone: string -> Option<real>)
    requires rows != [] && |rows[0]| >= 3 && Selected(rows[0][2]) && fetch(rows[0][2]).Archive?
    ensures var f := RunArchive(parts, fetch(rows[0][2]).members, readCsv, parseTone).failure;
      f != Some(ManifestRowTooShort) && f != Some(NoHeaderRow)
  {
    var members := fetch(rows[0][2]).members;
    RunArchiveIsRunRows(parts, members, readCsv, parseTone);
    RowsNeverManifestFailure(parts, ArchiveRows(members, readCsv), parseTone);
  }

  lemma {:induction false} RowsNeverManifestFailure(parts: Partitions, rows: seq<seq<string>>, parseTone: string -> Option<real>)
    ensures RunRows(parts, rows, parseTone).failure != Some(ManifestRowTooShort)
    ensures RunRows(parts, rows, parseTone).failure != Some(NoHeaderRow)
    decreases |rows|
  {
    if rows != [] {
      var p := Step(parts, ExamineRow(rows[0], parseTone));
      if p.failure.None? {
        RowsNeverManifestFailure(p.parts, rows[1..], parseTone);
      }
    }
  }

  // Examples

  lemma ExampleYearDigits()
    ensures Padded(2021, 4) == "2021"
  {
    assert Padded(2, 1) == "2";
    assert Padded(20, 2) == "20";
    assert Padded(202, 3) == "202";
  }

  lemma ExampleStampDigits()
    ensures Padded(2021, 4) == "2021" && Padded(3, 2) == "03" && Padded(15, 2) == "15"
    ensures Padded(12, 2) == "12" && Padded(0, 2) == "00"
  {
    ExampleYearDigits();
    assert Padded(1, 1) == "1" && Padded(0, 1) == "0";
  }

  lemma ExampleStampFormat()
    ensures FitsSlots(DateTime(2021, 3, 15, 12, 0, 0, 0))
    ensures FormatSeconds(DateTime(2021, 3, 15, 12, 0, 0, 0)) == "20210315120000"
  {
    ExampleStampDigits();
    assert FormatSeconds(DateTime(2021, 3, 15, 12, 0, 0, 0)) == "2021" + "03" + "15" + "12" + "00" + "00";
  }

  lemma ExampleStampParses()
    ensures ParseSeconds("20210315120000") == Some(DateTime(2021, 3, 15, 12, 0, 0, 0))
  {
    ExampleStampFormat();
    ParseSecondsOfFormat(DateTime(2021, 3, 15, 12, 0, 0, 0));
  }

  /** A valid row with timestamp 20210315120000 and tone -2.5 adds that record to the 2021 partition and nothing else. */
  lemma ExampleRowFiledUnder2021(parts: Partitions, parseTone: string -> Option<real>)
    requires parseTone("-2.5") == Some(-2.5)
    ensures var row := ["20210315120000", "", "", "", "", "", "", "-2.5"];
      RunRows(parts, [row], parseTone) ==
        Progress(parts[2021 := Partition(parts, 2021) + [Record("20210315120000", -2.5)]], None)
  {
    var row := ["20210315120000", "", "", "", "", "", "", "-2.5"];
    ExampleStampParses();
    assert ExamineRow(row, parseTone) == Keep(2021, Record("20210315120000", -2.5));
    assert [row][1..] == [];
  }

  /** Two kept rows of year `y` around a skipped one: both records are appended in order, and nothing else. */
  lemma ThreeRowsRun(parts: Partitions, good1: seq<string>, bad: seq<string>, good2: seq<string>, y: int,
      parseTone: string -> Option<real>)
    requires ExamineRow(good1, parseTone).Keep? && ExamineRow(good1, parseTone).year == y
    requires ExamineRow(good2, parseTone).Keep? && ExamineRow(good2, parseTone).year == y
    requires ExamineRow(bad, parseTone) == Skip
    ensures var p := RunRows(parts, [good1, bad, good2], parseTone);
      p.failure == None &&
      Partition(p.parts, y) ==
        Partition(parts, y) + [ExamineRow(good1, parseTone).record, ExamineRow(good2, parseTone).record] &&
      forall z :: z != y ==> Partition(p.parts, z) == Partition(parts, z)
  {
    var rows := [good1, bad, good2];
    var r1, r2 := ExamineRow(good1, parseTone).record, ExamineRow(good2, parseTone).record;
    assert rows[1..] == [bad, good2] && rows[1..][1..] == [good2] && rows[1..][1..][1..] == [];
    RunRowsFailure(parts, rows, parseTone);
    forall z ensures KeptFor(rows, z, parseTone) == if z == y then [r1, r2] else []
    {
      KeptForUnfold(rows, z, parseTone);
      KeptForUnfold(rows[1..], z, parseTone);
      KeptForUnfold(rows[1..][1..], z, parseTone);
    }
    forall z ensures Partition(RunRows(parts, rows, parseTone).parts, z) ==
      Partition(parts, z) + if z == y then [r1, r2] else []
    {
      RunRowsAppendsAt(parts, rows, parseTone, z);
    }
  }

  /**
   * One selected manifest entry whose archive holds two valid rows of year
   * `y` around one row that is dropped: exactly the two records are
   * appended, in order, and no other partition changes.
   */
  lemma OneArchiveScenario(parts: Partitions, header: seq<string>, entry: seq<string>, member: seq<Byte>,
      good1: seq<string>, bad: seq<string>, good2: seq<string>, y: int,
      fetch: string -> Fetch, readCsv: string -> seq<seq<string>>, parseTone: string -> Option<real>)
    requires |entry| == 3 && Selected(entry[2]) && fetch(entry[2]) == Archive([member])
    requires readCsv(DecodeContent(member)) == [good1, bad, good2]
    requires ExamineRow(good1, parseTone).Keep? && ExamineRow(good1, parseTone).year == y
    requires ExamineRow(good2, parseTone).Keep? && ExamineRow(good2, parseTone).year == y
    requires ExamineRow(bad, parseTone) == Skip
    ensures var run := RunManifest(parts, [header, entry], fetch, readCsv, parseTone);
      run.failure == None && run.fetched == [entry[2]] &&
      Partition(run.parts, y) ==
        Partition(parts, y) + [ExamineRow(good1, parseTone).record, ExamineRow(good2, parseTone).record] &&
      forall z :: z != y ==> Partition(run.parts, z) == Partition(parts, z)
  {
    var rows := [good1, bad, good2];
    assert [header, entry][1..] == [entry] && [entry][1..] == [];
    assert ArchiveRows([member], readCsv) == rows by {
      assert ArchiveRows([member][1..], readCsv) == [];
      assert rows + [] == rows;
    }
    RunArchiveIsRunRows(parts, [member], readCsv, parseTone);
    ThreeRowsRun(parts, good1, bad, good2, y, parseTone);
    var p := RunArchive(parts, [member], readCsv, parseTone);
    assert RunEntries(parts, [entry], fetch, readCsv, parseTone) == Run(p.parts, [entry[2]], None) by {
      assert RunEntries(p.parts, [entry][1..], fetch, readCsv, parseTone) == Run(p.parts, [], None);
    }
  }

  // Partition files

  /** Python's `str(n)` for a non-negative integer: decimal, no leading zeros. */
  function Decimal(n: nat): (s: string)
    ensures AllDigits(s) && 1 <= |s| && (n >= 10 ==> |s| >= 2)
    ensures Number(s) == n && (|s| == 1 || s[0] != '0')
  {
    if n < 10 then [Digit(n)]
    else
      var p := Decimal(n / 10);
      var s := p + [Digit(n % 10)];
      assert s[..|s| - 1] == p && s[0] == p[0];
      s
  }

  /** Distinct numbers have distinct decimal renderings. */
  lemma {:induction false} DecimalInjective(a: nat, b: nat)
    requires Decimal(a) == Decimal(b)
    ensures a == b
  {
    if a >= 10 && b >= 10 {
      var da, db := Decimal(a), Decimal(b);
      assert da[..|da| - 1] == Decimal(a / 10) && db[..|db| - 1] == Decimal(b / 10);
      DecimalInjective(a / 10, b / 10);
      assert Digit(a % 10) == da[|da| - 1] == db[|db| - 1] == Digit(b % 10);
    }
  }

  /** `f'./gkg_data/{file_year}'`, the partition's directory. */
  function PartitionDir(year: nat): string {
    "./gkg_data/" + Decimal(year)
  }

  /** `f'./gkg_data/{file_year}/{file_year}_sentiment_data.csv'`, the partition's file. */
  function PartitionPath(year: nat): string {
    PartitionDir(year) + "/" + Decimal(year) + "_sentiment_data.csv"
  }

  /** The number of decimal digits that start `s`. */
  function LeadingDigits(s: string): (n: nat)
    ensures n <= |s|
  {
    if s == [] || !IsDigit(s[0]) then 0 else 1 + LeadingDigits(s[1..])
  }

  lemma {:induction false} LeadingDigitsOf(d: string, rest: string)
    requires AllDigits(d) && rest != [] && !IsDigit(rest[0])
    ensures LeadingDigits(d + rest) == |d|
    decreases |d|
  {
    if d == [] {
      assert d + rest == rest;
    } else {
      assert (d + rest)[1..] == d[1..] + rest;
      LeadingDigitsOf(d[1..], rest);
    }
  }

  /** Digit strings followed by the same text up to a non-digit agree. */
  lemma DigitPrefixesAgree(da: string, ra: string, db: string, rb: string)
    requires AllDigits(da) && AllDigits(db) && da + ra == db + rb
    requires ra != [] && !IsDigit(ra[0]) && rb != [] && !IsDigit(rb[0])
    ensures da == db
  {
    LeadingDigitsOf(da, ra);
    LeadingDigitsOf(db, rb);
    assert da == (da + ra)[..|da|];
    assert db == (db + rb)[..|db|];
  }

  /** The partition path regrouped as the prefix, the year, then the rest. */
  lemma PartitionPathShape(year: nat)
    ensures PartitionPath(year) ==
      "./gkg_data/" + (Decimal(year) + ("/" + Decimal(year) + "_sentiment_data.csv"))
  {
    var d := Decimal(year);
    var prefix, rest := "./gkg_data/", "/" + d + "_sentiment_data.csv";
    assert PartitionPath(year) == prefix + d + rest;
  }

  lemma PrefixCancels(prefix: string, x: string, y: string)
    requires prefix + x == prefix + y
    ensures x == y
  {
    assert x == (prefix + x)[|prefix|..];
    assert y == (prefix + y)[|prefix|..];
  }

  /** Distinct years are written to distinct files, so keying the partitions by year loses nothing. */
  lemma PartitionPathInjective(a: nat, b: nat)
    requires PartitionPath(a) == PartitionPath(b)
    ensures a == b
  {
    var restA := "/" + Decimal(a) + "_sentiment_data.csv";
    var restB := "/" + Decimal(b) + "_sentiment_data.csv";
    PartitionPathShape(a);
    PartitionPathShape(b);
    PrefixCancels("./gkg_data/", Decimal(a) + restA, Decimal(b) + restB);
    DigitPrefixesAgree(Decimal(a), restA, Decimal(b), restB);
    DecimalInjective(a, b);
  }

  // The processor as an object: the year partitions on disk

  /**
   * The directory tree `./gkg_data/` as the processor changes it: one
   * append-only partition per year, modelled as a map from the year to the
   * records in the order they were written.
   */
  class SentimentStore {
    var partitions: Partitions

    /**
     * Every record sits in the partition of its own year. The processor
     * keeps this but does not demand it: earlier content of the files is
     * whatever it is.
     */
    ghost predicate Valid()
      reads this
    {
      WellFiled(partitions)
    }

    constructor ()
      ensures Valid() && partitions == map[]
    {
      partitions := map[];
    }

    /** `process_gkg_row`: validate field 0, then field 7, then append one record to the year's file. */
    method ProcessRow(row: seq<string>, parseTone: string -> Option<real>) returns (failure: Option<Failure>)
      modifies this
      ensures old(Valid()) ==> Valid()
      ensures Progress(partitions, failure) == Step(old(partitions), ExamineRow(row, parseTone))
    {
      if |row| == 0 {
        return Some(EmptyRow);
      }
      var dateStr := row[0];
      var fileTime := ParseSeconds(dateStr);
      if fileTime.None? {
        return None;
      }
      if |row| <= 7 {
        return Some(RowTooShort);
      }
      var tone := parseTone(row[7]);
      if tone.None? {
        return None;
      }
      var fileYear := fileTime.value.year;
      var existing := if fileYear in partitions then partitions[fileYear] else [];
      partitions := partitions[fileYear := existing + [Record(dateStr, tone.value)]];
      failure := None;
    }

    /** The loop over the CSV rows of one decoded member: stop at the first row that raises. */
    method ProcessRows(rows: seq<seq<string>>, parseTone: string -> Option<real>) returns (failure: Option<Failure>)
      modifies this
      ensures old(Valid()) ==> Valid()
      ensures Progress(partitions, failure) == RunRows(old(partitions), rows, parseTone)
    {
      var i := 0;
      while i < |rows|
        invariant 0 <= i <= |rows| && (old(Valid()) ==> Valid())
        invariant RunRows(partitions, rows[i..], parseTone) == RunRows(old(partitions), rows, parseTone)
      {
        assert rows[i..][0] == rows[i] && rows[i..][1..] == rows[i + 1..];
        failure := ProcessRow(rows[i], parseTone);
        if failure.Some? {
          return;
        }
        i := i + 1;
      }
      failure := None;
    }

    /**
     * The body of `download_unzip_and_process_gkg` after the download: for
     * each member, decode as UTF-8 or else ISO-8859-1, read its rows and
     * process them.
     */
    method ProcessArchive(members: seq<seq<Byte>>, readCsv: string -> seq<seq<string>>,
                          parseTone: string -> Option<real>) returns (failure: Option<Failure>)
      modifies this
      ensures old(Valid()) ==> Valid()
      ensures Progress(partitions, failure) == RunArchive(old(partitions), members, readCsv, parseTone)
    {
      var j := 0;
      while j < |members|
        invariant 0 <= j <= |members| && (old(Valid()) ==> Valid())
        invariant RunArchive(partitions, members[j..], readCsv, parseTone) ==
                  RunArchive(old(partitions), members, readCsv, parseTone)
      {
        assert members[j..][0] == members[j] && members[j..][1..] == members[j + 1..];
        var content := members[j];
        var decoded: string;
        var utf8 := DecodeUtf8(content);
        if utf8.Some? {
          decoded := utf8.value;
        } else {
          decoded := DecodeLatin1(content);
        }
        assert decoded == DecodeContent(content);
        failure := ProcessRows(readCsv(decoded), parseTone);
        if failure.Some? {
          return;
        }
        j := j + 1;
      }
      failure := None;
    }

    /**
     * One iteration of the loop in `process_gkg_file_links`: take the URL
     * from column 2 and, when it is selected, fetch the archive and process
     * it. Returns the URL when a download was attempted.
     */
    method ProcessEntry(row: seq<string>, fetch: string -> Fetch,
                        readCsv: string -> seq<seq<string>>, parseTone: string -> Option<real>)
      returns (attempted: seq<string>, failure: Option<Failure>)
      modifies this
      ensures old(Valid()) ==> Valid()
      ensures Run(partitions, attempted, failure) == RunEntry(old(partitions), row, fetch, readCsv, parseTone)
    {
      if |row| < 3 {
        return [], Some(ManifestRowTooShort);
      }
      var fileUrl := row[2];
      attempted, failure := [], None;
      if Contains(fileUrl, Marker) {
        var fileTime := ParseSeconds(TimestampKey(fileUrl));
        if fileTime.Some? && OnCadence(fileTime.value) {
          attempted := [fileUrl];
          var archive := fetch(fileUrl);
          match archive
          case Unavailable =>
            failure := Some(FetchFailed(fileUrl));
          case Rejected =>
          case Archive(members) =>
            failure := ProcessArchive(members, readCsv, parseTone);
        }
      }
    }

    /**
     * `process_gkg_file_links`: skip the header row, then process the
     * entries in order. Returns the URLs whose download was attempted.
     */
    method ProcessManifest(manifest: seq<seq<string>>, fetch: string -> Fetch,
                           readCsv: string -> seq<seq<string>>, parseTone: string -> Option<real>)
      returns (fetched: seq<string>, failure: Option<Failure>)
      modifies this
      ensures old(Valid()) ==> Valid()
      ensures Run(partitions, fetched, failure) == RunManifest(old(partitions), manifest, fetch, readCsv, parseTone)
    {
      fetched := [];
      if |manifest| == 0 {
        return fetched, Some(NoHeaderRow);
      }
      var i := 1;
      while i < |manifest|
        invariant 1 <= i <= |manifest| && (old(Valid()) ==> Valid())
        invariant RunEntries(old(partitions), manifest[1..], fetch, readCsv, parseTone) ==
          Run(RunEntries(partitions, manifest[i..], fetch, readCsv, parseTone).parts,
              fetched + RunEntries(partitions, manifest[i..], fetch, readCsv, parseTone).fetched,
              RunEntries(partitions, manifest[i..], fetch, readCsv, parseTone).failure)
      {
        assert manifest[i..][0] == manifest[i] && manifest[i..][1..] == manifest[i + 1..];
        ghost var cur := RunEntries(partitions, manifest[i..], fetch, readCsv, parseTone);
        ghost var fetchedBefore := fetched;
        var attempted;
        attempted, failure := ProcessEntry(manifest[i], fetch, readCsv, parseTone);
        fetched := fetched + attempted;
        if failure.Some? {
          return fetched, failure;
        }
        ghost var rest := RunEntries(partitions, manifest[i + 1..], fetch, readCsv, parseTone);
        assert cur == Run(rest.parts, attempted + rest.fetched, rest.failure);
        assert fetchedBefore + (attempted + rest.fetched) == fetched + rest.fetched;
        i := i + 1;
      }
      failure := None;
    }
  }
}
