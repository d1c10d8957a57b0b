# GDELT sentiment pipeline, modelled in Dafny

The pipeline has two scripts.

- **Manifest builder** (`gdelt_extraction.py`). It reads the GDELT 2.0 master file list, one line of
  `size hash URL` per published file. It keeps the lines whose URL's last path segment starts with a
  `YYYYMMDDHHMM` timestamp in the range [10 February 2021, today]. It writes them as CSV rows after a
  header row.
- **Snapshot processor** (`gdelt_data_download.py`). It reads that manifest back and skips the header.
  It picks the GKG archives (URL containing `gkg.csv.zip`) whose `YYYYMMDDHHMMSS` timestamp falls on a
  four-hour cadence (00, 04, …, 20 o'clock sharp). For each one it downloads the archive and decodes every
  member as UTF-8, falling back to ISO-8859-1. From every CSV row whose field 0 is a timestamp and whose
  field 7 is a number, it appends `(field 0, tone)` to the partition file of the timestamp's year,
  `./gkg_data/<year>/<year>_sentiment_data.csv`.

The project has six modules:

- `wrappers.dfy`: `Option`.
- `text.dfy`: Python's `str.split()`, `split('/')[-1]` and the substring test `in`.
- `timestamp.dfy`: the two `strptime` formats as fixed-width digit fields, with the Gregorian
  validity check and datetime ordering.
- `charset.dfy`: the UTF-8 decoder of RFC 3629 (section 4, including the ban on overlong forms and
  surrogates), its encoder, and ISO-8859-1.
- `extraction.dfy`: the manifest filter, as a function and as the loop that writes the file.
- `download.dfy`: the selection predicate, row processing, year partitioning and the manifest loop. The
  loop appears twice: as functions over the partitions, and as the `SentimentStore` class whose
  `partitions` field the methods update in place.

Each method's `ensures` ties its new state to a specification function. The properties are proved as
lemmas about those functions.

The following become parameters of the model:

- the network and the zip library: `fetch`, which returns the archive's member bytes, `Rejected` for a
  `ValueError` raised by the request, or `Unavailable` for any other failure;
- the CSV reader: `readCsv`;
- Python's `float()`: `parseTone`;
- the master list's lines: `lines`;
- `start_date`: `start` (the script's value is `Extraction.RangeStart`);
- `datetime.today()`: `end`.

## Model

| member | source | states |
|---|---|---|
| Text.Split | gdelt_extraction.py:23 | every token of `line.split()` is non-empty and contains no whitespace |
| Text.SplitWord | gdelt_extraction.py:23 | a non-empty word without whitespace is a single token |
| Text.SplitAtSpace | gdelt_extraction.py:23 | any whitespace character separates: the tokens of `a + [c] + b` are those of `a` followed by those of `b`, so a run of whitespace is one separator, leading and trailing whitespace give no token, and no other character is lost; with `Text.SplitWord` this determines the split |
| Text.SplitJoinSpaced | gdelt_extraction.py:23 | splitting space-joined non-empty whitespace-free tokens gives the tokens back |
| Text.LastSegmentAfterSlash | gdelt_extraction.py:35 | `split('/')[-1]` of `dir + "/" + name` is `name` when `name` has no slash |
| Text.Contains | gdelt_data_download.py:74 | `pat in text` holds exactly when `pat` occurs at some position of `text` |
| Timestamp.DaysInMonth | gdelt_extraction.py:36 | a Gregorian month has 28 to 31 days; the accepted-day lemmas below fix each month's length |
| Timestamp.NotAfterTotalOrder | gdelt_extraction.py:41 | datetime comparison is total, antisymmetric and transitive |
| Timestamp.NumberOfPadded | gdelt_extraction.py:36 | reading back a zero-padded field gives the number |
| Timestamp.PaddedOfNumber | gdelt_extraction.py:36 | zero-padding the value of a digit field gives the field back |
| Timestamp.FormatOfFields | gdelt_extraction.py:36 | a 12- or 14-digit string is the rendering of the fields read from it |
| Timestamp.ParseMinutesOfFormat | gdelt_extraction.py:36 | `%Y%m%d%H%M` parses the rendering of a datetime back to it exactly when the datetime is valid |
| Timestamp.ParseSecondsOfFormat | gdelt_data_download.py:77 | `%Y%m%d%H%M%S` parses the rendering of a datetime back to it exactly when the datetime is valid |
| Timestamp.FormatOfParseMinutes | gdelt_extraction.py:36 | whatever `%Y%m%d%H%M` accepts is a valid datetime with zero seconds that renders back to the input |
| Timestamp.FormatOfParseSeconds | gdelt_data_download.py:46 | whatever `%Y%m%d%H%M%S` accepts is a valid datetime that renders back to the input |
| Timestamp.LeapDayAccepted | gdelt_extraction.py:36 | 29 February parses exactly in leap years |
| Timestamp.Day30Accepted | gdelt_extraction.py:36 | a 30th parses in every month but February |
| Timestamp.Day31Accepted | gdelt_extraction.py:36 | a 31st parses exactly in January, March, May, July, August, October and December |
| Charset.DecodeFirst | gdelt_data_download.py:31 | a decoded UTF-8 sequence is 1 to 4 bytes long and lies inside the input |
| Charset.DecodeFirstOfEncodeChar | gdelt_data_download.py:31 | the first character of the encoding of `c`, followed by anything, decodes to `c` and uses all of `c`'s bytes |
| Charset.EncodeCharOfDecodeFirst | gdelt_data_download.py:31 | a decoded sequence is exactly the encoding of the character it yields |
| Charset.DecodeOfEncodeUtf8 | gdelt_data_download.py:31 | decoding the UTF-8 encoding of any text gives the text back |
| Charset.EncodeOfDecodeUtf8 | gdelt_data_download.py:31 | bytes that decode as UTF-8 are the encoding of their decoding, so decoding is injective |
| Charset.DecodeLatin1 | gdelt_data_download.py:33 | ISO-8859-1 yields one character per byte, with the byte's value |
| Charset.DecodeContentOfUtf8 | gdelt_data_download.py:30-33 | the fallback decoding of valid UTF-8 is its UTF-8 decoding |
| Charset.DecodeContentOfNonUtf8 | gdelt_data_download.py:30-33 | bytes that are no UTF-8 encoding decode byte by byte as ISO-8859-1 |
| Charset.AsciiDecodesAlike | gdelt_data_download.py:30-33 | for bytes below 0x80 both decodings agree |
| Extraction.DateKey | gdelt_extraction.py:35 | the key is the first `min(12, length)` characters of the URL's last segment |
| Extraction.KeptRowMeaning | gdelt_extraction.py:23-42 | a line is written exactly when it has three tokens and its URL's last segment starts with the 12-digit rendering of a valid datetime inside the range; the row written is the three tokens |
| Extraction.FilterAppend | gdelt_extraction.py:22-42 | filtering is line by line: the rows of `a + b` are those of `a` followed by those of `b` |
| Extraction.FilteredRowsTokens | gdelt_extraction.py:23-31 | every row written has three non-empty whitespace-free fields |
| Extraction.FilteredRowsInRange | gdelt_extraction.py:34-42 | every row written has a date key that parses to a datetime inside the range |
| Extraction.OnOrAfterRangeStart | gdelt_extraction.py:9 | a datetime not before `datetime(2021, 2, 10)` falls on 10 February 2021 or a later day |
| Extraction.ScriptRowsFromRangeStart | gdelt_extraction.py:9-42 | with the script's start date, every row written has a date key on 10 February 2021 or later |
| Extraction.EmptyRangeKeepsNothing | gdelt_extraction.py:41 | when the end is before the start, no data row is written |
| Extraction.FilterIsSubsequence | gdelt_extraction.py:22-42 | the rows written are the kept lines' tokens at increasing positions, and a line's position is among them exactly when the line is kept |
| Extraction.HeaderWrittenOnce | gdelt_extraction.py:19 | the header comes first and never again, because no data row equals it |
| Extraction.BuildManifest | gdelt_extraction.py:17-42 | the loop writes the header followed by exactly the filtered rows |
| Download.TimestampKey | gdelt_data_download.py:75 | the key is the first `min(14, length)` characters of the URL's last segment |
| Download.CadenceHours | gdelt_data_download.py:79 | for a valid datetime, `hour % 4 == 0` with zero minutes and seconds means 00, 04, 08, 12, 16 or 20 o'clock sharp |
| Download.SelectedMeaning | gdelt_data_download.py:74-79 | a URL is downloaded exactly when it contains `gkg.csv.zip` and its last segment starts with the 14-digit rendering of a valid datetime on the cadence |
| Download.ExamineRowMeaning | gdelt_data_download.py:41-54 | an empty row raises; a row with no timestamp in field 0 is skipped; a timestamped row without field 7 raises; otherwise the row is kept exactly when field 7 is a number, as (field 0, tone) under its own year |
| Download.OverlongDateSkipped | gdelt_data_download.py:44-48 | a row whose field 0 is longer than 14 characters is skipped |
| Download.StepAppends | gdelt_data_download.py:56-63 | one kept row appends one record to its year's partition and changes no other |
| Download.RunRowsAppends | gdelt_data_download.py:37-38 | after a row loop, each year's partition is its old content followed by that year's kept records in row order, up to the first error |
| Download.RunRowsYears | gdelt_data_download.py:56-58 | a year has a partition afterwards exactly when it had one before or a record was kept for it |
| Download.RunRowsFailure | gdelt_data_download.py:37-38 | a row loop ends without an error exactly when no row raises |
| Download.RunRowsConcat | gdelt_data_download.py:37-38 | the loop over `a + b` is the loop over `a`, then the loop over `b` if `a` raised nothing |
| Download.KeptForConcat | gdelt_data_download.py:37-38 | the records kept from `a + b` are those of `a` followed, if `a` raised nothing, by those of `b` |
| Download.KeptForFiled | gdelt_data_download.py:46-61 | every record kept for a year has a timestamp of that year |
| Download.AppendingKeepsFiled | gdelt_data_download.py:56-63 | appending kept records keeps every record in the partition of its own year |
| Download.RunArchiveIsRunRows | gdelt_data_download.py:23-38 | processing an archive is one row loop over the concatenated rows of its decoded members |
| Download.RunEntriesAppends | gdelt_data_download.py:72-83 | after the manifest loop, each partition is its old content followed by the kept records of the downloaded archives, in manifest and row order |
| Download.RunManifestKeepsFiled | gdelt_data_download.py:56-63 | a manifest run keeps every record in the partition of its own year |
| Download.RunManifestAppendOnly | gdelt_data_download.py:61 | files are opened for append: what a partition held before a run is a prefix of what it holds after |
| Download.RerunAppendsTwice | gdelt_data_download.py:61-63 | a second run over the same manifest, with the same downloads, appends the same records again; nothing is deduplicated |
| Download.SelectedUrlsFromRows | gdelt_data_download.py:72-75 | every selected URL passes the selection and is the URL column of a manifest row |
| Download.FetchedAreSelected | gdelt_data_download.py:72-81 | downloads are attempted for the selected URLs in manifest order: a prefix of them, and all of them when the run completes |
| Download.FetchOutcomes | gdelt_data_download.py:76-83 | a `ValueError` from the download skips that entry and the loop goes on; any other download failure ends the run |
| Download.HeaderNeverConsidered | gdelt_data_download.py:66-69 | the first manifest row is never looked at, and an empty manifest is an error |
| Download.NoShortRows | gdelt_data_download.py:73 | a manifest of three-column rows never fails on `row[2]` |
| Download.RowsNeverManifestFailure | gdelt_data_download.py:37-38 | a row loop fails only with row errors |
| Download.PipelineFetchesOnlySelectedInRange | gdelt_data_download.py:66-83 | on a manifest written by the builder, the processor never fails on the manifest, and every URL it fetches passes the selection and has a date key inside the builder's range |
| Download.ExampleStampParses | gdelt_data_download.py:77 | `20210315120000` parses to 15 March 2021, 12:00:00 |
| Download.ExampleRowFiledUnder2021 | gdelt_data_download.py:41-63 | a row stamped `20210315120000` with tone `-2.5` is kept under 2021 |
| Download.ThreeRowsRun | gdelt_data_download.py:37-38 | two kept rows around a skipped one give the two records in order, in their year |
| Download.OneArchiveScenario | gdelt_data_download.py:66-83 | a manifest with one selected single-member archive fetches that URL and files its two good records |
| Download.Decimal | gdelt_data_download.py:57 | `str(year)` is a non-empty digit string whose value is the year, with no leading zero unless it is `0` |
| Download.DecimalInjective | gdelt_data_download.py:57 | different years have different decimal renderings |
| Download.PartitionPathInjective | gdelt_data_download.py:61 | different years are written to different files |
| Download.SentimentStore.constructor | gdelt_data_download.py:56-63 | the store starts with no partitions |
| Download.SentimentStore.ProcessRow | gdelt_data_download.py:41-63 | the method updates the partitions and returns its error exactly as the row step does, and a store whose records all sit in their own year stays so |
| Download.SentimentStore.ProcessRows | gdelt_data_download.py:37-38 | the loop reaches the state and error of the row-loop function |
| Download.SentimentStore.ProcessArchive | gdelt_data_download.py:23-38 | the loop over members, with UTF-8 tried first and ISO-8859-1 as the fallback, reaches the state and error of the archive function |
| Download.SentimentStore.ProcessEntry | gdelt_data_download.py:73-83 | one manifest entry changes the state, attempts the download and fails as the entry function says |
| Download.SentimentStore.ProcessManifest | gdelt_data_download.py:66-83 | the manifest loop reaches the partitions, list of attempted downloads and error of the manifest function |

## Left out

- Network I/O (`requests.get`, `raise_for_status`) and the zip library are the `fetch` parameter. The
  members arrive as byte strings in `namelist()` order.
- An archive whose later member fails to decompress, after earlier members were processed, is not
  modelled: a fetch either delivers every member or fails before any row is processed.
- The master list is the `lines` parameter. Reading it (`response.text.splitlines()`) is not modelled.
- CSV parsing and writing are not modelled: quoting, `decoded_content.splitlines()`,
  `csv.field_size_limit`, a field larger than that limit or a NUL byte. The rows a decoded member yields
  are the `readCsv` parameter.
- `Download.PipelineFetchesOnlySelectedInRange` takes for granted that reading the manifest file back gives the rows
  written. That holds for CSV rows of whitespace-free fields, but the CSV layer is not modelled.
- Python's `float()` is the `parseTone` parameter, and tones are `real`. Floating-point rounding and the
  text `writerow` uses for a float are not modelled.
- `Timestamp.ParseSeconds` and `Timestamp.ParseMinutes` accept only the fixed-width form. Python's
  `strptime` also accepts single-digit month, day, hour, minute and second fields, a space-padded day and
  non-ASCII decimal digits, when the whole string is consumed. For the 12- and 14-character slices of a
  long enough segment this admits only the space-padded day and other digit scripts. It admits more for
  shorter segments and for the unsliced row field 0.
- `datetime.today()` is the `end` parameter of the builder. No clock is modelled.
- `print` at gdelt_extraction.py:44 and gdelt_data_download.py:80 has no effect on the model.
- Directory creation (`os.path.exists`, `os.makedirs`) is not modelled. The model keeps the content of
  each partition file; the directory and file names are `Download.PartitionDir` and
  `Download.PartitionPath`.
- File-system errors (a full disk, permissions) are not modelled, and neither are memory errors.
- The unused `file_name` (gdelt_data_download.py:14) is not modelled. The module-level calls that start
  the scripts (gdelt_extraction.py:13, gdelt_data_download.py:86) are the callers of the model's entry
  points; they are not modelled separately.
- The manifest file name `gdelt_filtered_files.csv` is not modelled: the builder's output is handed to
  the processor as a value.
