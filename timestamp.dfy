/**
 * Python's `datetime` as far as the two scripts use it: the proleptic
 * Gregorian calendar, chronological comparison, and `strptime` with the
 * formats '%Y%m%d%H%M' and '%Y%m%d%H%M%S' read as fixed-width digit fields.
 */
module Timestamp {
  import opened Wrappers

  /** A `datetime.datetime` value (naive, no time zone). */
  datatype DateTime = DateTime(year: int, month: int, day: int,
                               hour: int, minute: int, second: int, microsecond: int)

  const MinYear := 1
  const MaxYear := 9999

  predicate IsLeapYear(y: int) {
    y % 4 == 0 && (y % 100 != 0 || y % 400 == 0)
  }

  function DaysInMonth(y: int, m: int): (n: int)
    requires 1 <= m <= 12
    ensures 28 <= n <= 31
  {
    if m == 2 then (if IsLeapYear(y) then 29 else 28)
    else if m == 4 || m == 6 || m == 9 || m == 11 then 30
    else 31
  }

  /** The ranges `datetime(...)` checks; a value outside them raises ValueError. */
  predicate Valid(d: DateTime) {
    MinYear <= d.year <= MaxYear && 1 <= d.month <= 12 && 1 <= d.day <= DaysInMonth(d.year, d.month) &&
    0 <= d.hour < 24 && 0 <= d.minute < 60 && 0 <= d.second < 60 && 0 <= d.microsecond < 1000000
  }

  function Fields(d: DateTime): seq<int> {
    [d.year, d.month, d.day, d.hour, d.minute, d.second, d.microsecond]
  }

  predicate LexNotAfter(a: seq<int>, b: seq<int>)
    requires |a| == |b|
  {
    a == [] || a[0] < b[0] || (a[0] == b[0] && LexNotAfter(a[1..], b[1..]))
  }

  /** `a <= b` on datetimes: field by field, most significant first. */
  predicate NotAfter(a: DateTime, b: DateTime) {
    LexNotAfter(Fields(a), Fields(b))
  }

  lemma {:induction false} LexTotalOrder(a: seq<int>, b: seq<int>, c: seq<int>)
    requires |a| == |b| == |c|
    ensures LexNotAfter(a, b) || LexNotAfter(b, a)
    ensures LexNotAfter(a, b) && LexNotAfter(b, a) ==> a == b
    ensures LexNotAfter(a, b) && LexNotAfter(b, c) ==> LexNotAfter(a, c)
  {
    if a != [] {
      LexTotalOrder(a[1..], b[1..], c[1..]);
      assert a == [a[0]] + a[1..] && b == [b[0]] + b[1..];
    }
  }

  /** `<=` on datetimes is a total order: any two compare, and it is antisymmetric and transitive. */
  lemma NotAfterTotalOrder(a: DateTime, b: DateTime, c: DateTime)
    ensures NotAfter(a, b) || NotAfter(b, a)
    ensures NotAfter(a, b) && NotAfter(b, a) ==> a == b
    ensures NotAfter(a, b) && NotAfter(b, c) ==> NotAfter(a, c)
  {
    LexTotalOrder(Fields(a), Fields(b), Fields(c));
  }

  // Decimal digits

  predicate IsDigit(c: char) {
    '0' <= c <= '9'
  }

  predicate AllDigits(s: string) {
    forall i :: 0 <= i < |s| ==> IsDigit(s[i])
  }

  function Pow10(w: nat): nat {
    if w == 0 then 1 else 10 * Pow10(w - 1)
  }

  /** The value of a string of decimal digits, as `int()` reads it. */
  function Number(s: string): nat
    requires AllDigits(s)
  {
    if s == [] then 0 else 10 * Number(s[..|s| - 1]) + (s[|s| - 1] as int - '0' as int)
  }

  function Digit(n: int): (c: char)
    requires 0 <= n < 10
    ensures IsDigit(c) && c as int - '0' as int == n
  {
    ('0' as int + n) as char
  }

  /** `n` written in `width` decimal digits with leading zeros (the `%04d` / `%02d` rendering). */
  function Padded(n: nat, width: nat): (s: string)
    ensures |s| == width && AllDigits(s)
  {
    if width == 0 then [] else Padded(n / 10, width - 1) + [Digit(n % 10)]
  }

  lemma {:induction false} NumberOfPadded(n: nat, width: nat)
    requires n < Pow10(width)
    ensures Number(Padded(n, width)) == n
  {
    if width > 0 {
      var s := Padded(n, width);
      assert s[..|s| - 1] == Padded(n / 10, width - 1);
      NumberOfPadded(n / 10, width - 1);
    }
  }

  lemma {:induction false} PaddedOfNumber(s: string)
    requires AllDigits(s)
    ensures Number(s) < Pow10(|s|)
    ensures Padded(Number(s), |s|) == s
  {
    if s != [] {
      var init := s[..|s| - 1];
      PaddedOfNumber(init);
      var n := Number(s);
      var d := s[|s| - 1] as int - '0' as int;
      assert n / 10 == Number(init) && n % 10 == d;
      assert s == init + [s[|s| - 1]];
    }
  }

  // The two strptime formats

  /** Each field of `d` fits its fixed-width decimal slot. */
  predicate FitsSlots(d: DateTime) {
    0 <= d.year < 10000 && 0 <= d.month < 100 && 0 <= d.day < 100 &&
    0 <= d.hour < 100 && 0 <= d.minute < 100 && 0 <= d.second < 100
  }

  /** The 12-character `YYYYMMDDHHMM` rendering of `d` (seconds dropped). */
  function FormatMinutes(d: DateTime): (s: string)
    requires FitsSlots(d)
    ensures |s| == 12 && AllDigits(s)
  {
    Padded(d.year, 4) + Padded(d.month, 2) + Padded(d.day, 2) + Padded(d.hour, 2) + Padded(d.minute, 2)
  }

  /** The 14-character `YYYYMMDDHHMMSS` rendering of `d`. */
  function FormatSeconds(d: DateTime): (s: string)
    requires FitsSlots(d)
    ensures |s| == 14 && AllDigits(s)
  {
    FormatMinutes(d) + Padded(d.second, 2)
  }

  lemma AllDigitsSlice(s: string, i: nat, j: nat)
    requires i <= j <= |s| && AllDigits(s)
    ensures AllDigits(s[i..j])
  {
    forall k | 0 <= k < j - i ensures IsDigit(s[i..j][k]) {
      assert s[i..j][k] == s[i + k];
    }
  }

  function SliceNumber(s: string, i: nat, j: nat): nat
    requires i <= j <= |s| && AllDigits(s)
  {
    AllDigitsSlice(s, i, j);
    Number(s[i..j])
  }

  /** The fields read positionally from a 12- or 14-digit string. */
  function FieldsOf(s: string): DateTime
    requires (|s| == 12 || |s| == 14) && AllDigits(s)
  {
    DateTime(SliceNumber(s, 0, 4), SliceNumber(s, 4, 6), SliceNumber(s, 6, 8),
             SliceNumber(s, 8, 10), SliceNumber(s, 10, 12),
             if |s| == 14 then SliceNumber(s, 12, 14) else 0, 0)
  }

  /** `datetime.strptime(s, '%Y%m%d%H%M')`, None where it raises ValueError. */
  function ParseMinutes(s: string): Option<DateTime> {
    if |s| == 12 && AllDigits(s) && Valid(FieldsOf(s)) then Some(FieldsOf(s)) else None
  }

  /** `datetime.strptime(s, '%Y%m%d%H%M%S')`, None where it raises ValueError. */
  function ParseSeconds(s: string): Option<DateTime> {
    if |s| == 14 && AllDigits(s) && Valid(FieldsOf(s)) then Some(FieldsOf(s)) else None
  }

  lemma FieldsOfFormat(d: DateTime, s: string)
    requires FitsSlots(d) && d.microsecond == 0
    requires s == FormatMinutes(d) || s == FormatSeconds(d)
    ensures FieldsOf(s) == if |s| == 14 then d else d.(second := 0)
  {
    var y, mo, da, h, mi := Padded(d.year, 4), Padded(d.month, 2), Padded(d.day, 2), Padded(d.hour, 2), Padded(d.minute, 2);
    var se := Padded(d.second, 2);
    assert s[0..4] == y && s[4..6] == mo && s[6..8] == da && s[8..10] == h && s[10..12] == mi;
    assert |s| == 14 ==> s[12..14] == se;
    NumberOfPadded(d.year, 4);
    NumberOfPadded(d.month, 2);
    NumberOfPadded(d.day, 2);
    NumberOfPadded(d.hour, 2);
    NumberOfPadded(d.minute, 2);
    NumberOfPadded(d.second, 2);
  }

  lemma SliceRoundTrip(s: string, i: nat, j: nat)
    requires i <= j <= |s| && AllDigits(s)
    ensures SliceNumber(s, i, j) < Pow10(j - i) && Padded(SliceNumber(s, i, j), j - i) == s[i..j]
  {
    AllDigitsSlice(s, i, j);
    PaddedOfNumber(s[i..j]);
  }

  lemma SliceConcat(s: string, i: nat, j: nat, k: nat)
    requires i <= j <= k <= |s|
    ensures s[i..j] + s[j..k] == s[i..k]
  {
  }

  lemma FormatMinutesOfFields(s: string)
    requires (|s| == 12 || |s| == 14) && AllDigits(s)
    ensures FitsSlots(FieldsOf(s)) && FormatMinutes(FieldsOf(s)) == s[..12]
  {
    var d := FieldsOf(s);
    assert Pow10(2) == 100 && Pow10(4) == 10000;
    if |s| == 14 {
      SliceRoundTrip(s, 12, 14);
    }
    SliceRoundTrip(s, 0, 4);
    SliceRoundTrip(s, 4, 6);
    SliceRoundTrip(s, 6, 8);
    SliceRoundTrip(s, 8, 10);
    SliceRoundTrip(s, 10, 12);
    SliceConcat(s, 0, 4, 6);
    SliceConcat(s, 0, 6, 8);
    SliceConcat(s, 0, 8, 10);
    SliceConcat(s, 0, 10, 12);
    var p6 := Padded(d.year, 4) + Padded(d.month, 2);
    assert p6 == s[0..6];
    var p8 := p6 + Padded(d.day, 2);
    assert p8 == s[0..8];
    var p10 := p8 + Padded(d.hour, 2);
    assert p10 == s[0..10];
    assert FormatMinutes(d) == p10 + Padded(d.minute, 2) == s[0..12];
  }

  lemma FormatOfFields(s: string)
    requires (|s| == 12 || |s| == 14) && AllDigits(s)
    ensures FitsSlots(FieldsOf(s)) && FieldsOf(s).microsecond == 0
    ensures s == if |s| == 14 then FormatSeconds(FieldsOf(s)) else FormatMinutes(FieldsOf(s))
  {
    FormatMinutesOfFields(s);
    if |s| == 14 {
      assert Pow10(2) == 100;
      SliceRoundTrip(s, 12, 14);
      assert s == s[..12] + s[12..14];
    } else {
      assert s == s[..12];
    }
  }

  /**
   * Parsing the 14-digit rendering of a datetime gives that datetime back
   * exactly when it is a valid date and time; otherwise strptime fails.
   */
  lemma ParseSecondsOfFormat(d: DateTime)
    requires FitsSlots(d) && d.microsecond == 0
    ensures ParseSeconds(FormatSeconds(d)) == if Valid(d) then Some(d) else None
  {
    FieldsOfFormat(d, FormatSeconds(d));
  }

  /** The 12-digit counterpart of ParseSecondsOfFormat; the seconds are always zero. */
  lemma ParseMinutesOfFormat(d: DateTime)
    requires FitsSlots(d) && d.second == 0 && d.microsecond == 0
    ensures ParseMinutes(FormatMinutes(d)) == if Valid(d) then Some(d) else None
  {
    FieldsOfFormat(d, FormatMinutes(d));
  }

  /** Whatever ParseSeconds accepts is the rendering of the valid datetime it returns. */
  lemma FormatOfParseSeconds(s: string)
    requires ParseSeconds(s).Some?
    ensures Valid(ParseSeconds(s).value) && ParseSeconds(s).value.microsecond == 0
    ensures FormatSeconds(ParseSeconds(s).value) == s
  {
    FormatOfFields(s);
  }

  /** Whatever ParseMinutes accepts is the rendering of the valid datetime it returns, with zero seconds. */
  lemma FormatOfParseMinutes(s: string)
    requires ParseMinutes(s).Some?
    ensures Valid(ParseMinutes(s).value)
    ensures ParseMinutes(s).value.second == 0 && ParseMinutes(s).value.microsecond == 0
    ensures FormatMinutes(ParseMinutes(s).value) == s
  {
    FormatOfFields(s);
  }

  /** The 29th of February is accepted exactly in Gregorian leap years. */
  lemma LeapDayAccepted(y: int, h: int, mi: int)
    requires MinYear <= y <= MaxYear && 0 <= h < 24 && 0 <= mi < 60
    ensures ParseMinutes(FormatMinutes(DateTime(y, 2, 29, h, mi, 0, 0))).Some? <==> IsLeapYear(y)
  {
    ParseMinutesOfFormat(DateTime(y, 2, 29, h, mi, 0, 0));
  }

  /**
   * The 30th is accepted in every month but February. With LeapDayAccepted,
   * Day31Accepted and the lower bound 28 this fixes the length of every month.
   */
  lemma Day30Accepted(y: int, m: int, h: int, mi: int)
    requires MinYear <= y <= MaxYear && 1 <= m <= 12 && 0 <= h < 24 && 0 <= mi < 60
    ensures ParseMinutes(FormatMinutes(DateTime(y, m, 30, h, mi, 0, 0))).Some? <==> m != 2
  {
    ParseMinutesOfFormat(DateTime(y, m, 30, h, mi, 0, 0));
  }

  /** The 31st is accepted exactly in January, March, May, July, August, October and December. */
  lemma Day31Accepted(y: int, m: int, h: int, mi: int)
    requires MinYear <= y <= MaxYear && 1 <= m <= 12 && 0 <= h < 24 && 0 <= mi < 60
    ensures ParseMinutes(FormatMinutes(DateTime(y, m, 31, h, mi, 0, 0))).Some? <==>
            (m == 1 || m == 3 || m == 5 || m == 7 || m == 8 || m == 10 || m == 12)
  {
    ParseMinutesOfFormat(DateTime(y, m, 31, h, mi, 0, 0));
  }
}
