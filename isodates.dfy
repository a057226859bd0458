/** The part of `datetime.fromisoformat` the date validators rely on:
    naive date-times `YYYY-MM-DD[<sep>HH[:MM[:SS[.fff|.ffffff]]]]`, where
    the separator is any single character, checked against the calendar;
    plus the truncation a `DateValidator` applies for its precision. */
module IsoDates {
  import opened Wrappers
  import opened Values
  import opened Literals

  predicate IsLeap(y: int) {
    y % 4 == 0 && (y % 100 != 0 || y % 400 == 0)
  }

  function DaysInMonth(y: int, m: int): int
    requires 1 <= m <= 12
  {
    if m == 2 then (if IsLeap(y) then 29 else 28)
    else if m == 4 || m == 6 || m == 9 || m == 11 then 30
    else 31
  }

  /** The ranges `datetime(...)` accepts. */
  predicate ValidDateTime(dt: DateTimeRec) {
    && 1 <= dt.year <= 9999 && 1 <= dt.month <= 12 && 1 <= dt.day <= DaysInMonth(dt.year, dt.month)
    && 0 <= dt.hour < 24 && 0 <= dt.minute < 60 && 0 <= dt.second < 60 && 0 <= dt.micro < 1000000
  }

  /** The number written by the `n` characters of `s` from `lo`, if they are
      all digits. */
  function Field(s: string, lo: nat, n: nat): (r: Option<nat>)
    requires lo + n <= |s|
    ensures r.Some? ==> AllDigits(s[lo..lo + n]) && r.value == DigitsValue(s[lo..lo + n])
  {
    if AllDigits(s[lo..lo + n]) then Some(DigitsValue(s[lo..lo + n])) else None
  }

  /** Time of day `(hour, minute, second, microsecond)` from `HH`,
      `HH:MM`, `HH:MM:SS`, `HH:MM:SS.fff` or `HH:MM:SS.ffffff`; three
      fraction digits are milliseconds. */
  function ParseTime(t: string): Option<(nat, nat, nat, nat)> {
    if |t| != 2 && |t| != 5 && |t| != 8 && |t| != 12 && |t| != 15 then None
    else if |t| >= 5 && t[2] != ':' then None
    else if |t| >= 8 && t[5] != ':' then None
    else if |t| >= 12 && t[8] != '.' then None
    else
      match (Field(t, 0, 2),
             if |t| >= 5 then Field(t, 3, 2) else Some(0),
             if |t| >= 8 then Field(t, 6, 2) else Some(0),
             if |t| == 12 then Field(t, 9, 3) else if |t| == 15 then Field(t, 9, 6) else Some(0))
      case (Some(h), Some(mi), Some(sec), Some(f)) => Some((h, mi, sec, if |t| == 12 then f * 1000 else f))
      case _ => None
  }

  /** `datetime.fromisoformat(s)` for naive date-times; `None` where Python
      raises `ValueError`. */
  function ParseIsoDateTime(s: string): (r: Option<DateTimeRec>)
    ensures r.Some? ==> ValidDateTime(r.value)
  {
    if |s| < 10 || |s| == 11 || s[4] != '-' || s[7] != '-' then None
    else
      match (Field(s, 0, 4), Field(s, 5, 2), Field(s, 8, 2),
             if |s| == 10 then Some((0, 0, 0, 0)) else ParseTime(s[11..]))
      case (Some(y), Some(m), Some(d), Some((h, mi, sec, f))) =>
        var dt := DateTimeRec(y, m, d, h, mi, sec, f);
        if ValidDateTime(dt) then Some(dt) else None
      case _ => None
  }

  // ------------------------------------------------------------------
  // The partner of the parser: `datetime.isoformat(timespec="microseconds")`
  // ------------------------------------------------------------------

  function DigitChar(k: nat): char
    requires k < 10
  {
    ('0' as int + k) as char
  }

  /** `n` written with exactly `w` digits, zero-padded. */
  function PadDigits(n: nat, w: nat): (r: string)
    requires n < Pow10Nat(w)
    ensures |r| == w && AllDigits(r) && DigitsValue(r) == n
  {
    if w == 0 then ""
    else
      var r := PadDigits(n / 10, w - 1) + [DigitChar(n % 10)];
      assert r[..|r| - 1] == PadDigits(n / 10, w - 1);
      r
  }

  /** `YYYY-MM-DD`. */
  function FormatDate(dt: DateTimeRec): string
    requires ValidDateTime(dt)
  {
    PadDigits(dt.year, 4) + "-" + PadDigits(dt.month, 2) + "-" + PadDigits(dt.day, 2)
  }

  /** `HH:MM:SS.ffffff`. */
  function FormatTime(dt: DateTimeRec): string
    requires ValidDateTime(dt)
  {
    PadDigits(dt.hour, 2) + ":" + PadDigits(dt.minute, 2) + ":" + PadDigits(dt.second, 2)
    + "." + PadDigits(dt.micro, 6)
  }

  function FormatIso(dt: DateTimeRec): string
    requires ValidDateTime(dt)
  {
    FormatDate(dt) + "T" + FormatTime(dt)
  }

  lemma FieldOfPadded(s: string, lo: nat, n: nat, w: nat)
    requires n < Pow10Nat(w) && lo + w <= |s| && s[lo..lo + w] == PadDigits(n, w)
    ensures Field(s, lo, w) == Some(n)
  {
  }

  /** The full time of day is read back field by field. */
  lemma TimeRoundTrip(dt: DateTimeRec)
    requires ValidDateTime(dt)
    ensures ParseTime(FormatTime(dt)) == Some((dt.hour, dt.minute, dt.second, dt.micro))
  {
    var t := FormatTime(dt);
    assert |t| == 15;
    FieldOfPadded(t, 0, dt.hour, 2);
    FieldOfPadded(t, 3, dt.minute, 2);
    FieldOfPadded(t, 6, dt.second, 2);
    FieldOfPadded(t, 9, dt.micro, 6);
  }

  /** The ISO form starts and ends with a digit. */
  lemma FormatIsoDigitEnds(dt: DateTimeRec)
    requires ValidDateTime(dt)
    ensures var s := FormatIso(dt); |s| == 26 && IsDigit(s[0]) && IsDigit(s[25])
  {
    var s := FormatIso(dt);
    assert s[0] == PadDigits(dt.year, 4)[0];
    assert s[25] == PadDigits(dt.micro, 6)[5];
  }

  /** Every valid date-time, written in full ISO form, is read back as
      itself. */
  lemma IsoRoundTrip(dt: DateTimeRec)
    requires ValidDateTime(dt)
    ensures ParseIsoDateTime(FormatIso(dt)) == Some(dt)
  {
    var s := FormatIso(dt);
    assert |s| == 26;
    assert s[..10] == FormatDate(dt);
    FieldOfPadded(s, 0, dt.year, 4);
    FieldOfPadded(s, 5, dt.month, 2);
    FieldOfPadded(s, 8, dt.day, 2);
    assert s[11..] == FormatTime(dt);
    TimeRoundTrip(dt);
  }

  // ------------------------------------------------------------------
  // Truncation by precision
  // ------------------------------------------------------------------

  datatype Precision = Day | Hour | Minute | Second

  /** The precision names `DateValidator` understands. */
  function PrecisionOf(name: string): Option<Precision> {
    if name == "day" then Some(Day)
    else if name == "hour" then Some(Hour)
    else if name == "minute" then Some(Minute)
    else if name == "second" then Some(Second)
    else None
  }

  /** `dt` with every field finer than `p` set to zero (for `Day` this is
      what comparing `d.date()` compares). */
  function Truncate(dt: DateTimeRec, p: Precision): DateTimeRec {
    match p
    case Day => dt.(hour := 0, minute := 0, second := 0, micro := 0)
    case Hour => dt.(minute := 0, second := 0, micro := 0)
    case Minute => dt.(second := 0, micro := 0)
    case Second => dt.(micro := 0)
  }

  function Rank(p: Precision): nat {
    match p
    case Day => 0
    case Hour => 1
    case Minute => 2
    case Second => 3
  }

  /** Agreement at a finer precision implies agreement at every coarser
      one, and equal date-times agree at every precision. */
  lemma TruncateCoarsens(a: DateTimeRec, b: DateTimeRec, fine: Precision, coarse: Precision)
    requires Rank(coarse) <= Rank(fine)
    ensures Truncate(a, fine) == Truncate(b, fine) ==> Truncate(a, coarse) == Truncate(b, coarse)
    ensures a == b ==> Truncate(a, coarse) == Truncate(b, coarse)
  {
  }
}
