/**
  RCS revision dates (`YYYY.MM.DD.HH.MM.SS`, two-digit years meaning 19xx) turned
  into Unix timestamps in UTC, with Python's `int()` for the fields and Python's
  `datetime` rules for which field combinations are dates at all.
 */
module RcsDate {
  import opened Wrappers
  import opened Text

  // ---------------------------------------------------------------------------
  // Decimal numerals, as Python's `int(str)` reads them
  // ---------------------------------------------------------------------------

  predicate IsDigit(c: char) {
    '0' <= c <= '9'
  }

  function DigitOf(c: char): nat
    requires IsDigit(c)
  {
    (c as int) - ('0' as int)
  }

  function DigitChar(d: nat): (c: char)
    requires d < 10
    ensures IsDigit(c) && DigitOf(c) == d
  {
    (('0' as int) + d) as char
  }

  /** Only ASCII digits, at least one. */
  predicate AllDigits(t: string) {
    |t| > 0 && forall k :: 0 <= k < |t| ==> IsDigit(t[k])
  }

  /** Digits and underscores only. */
  predicate DigitsOrUnderscores(t: string) {
    forall k :: 0 <= k < |t| ==> IsDigit(t[k]) || t[k] == '_'
  }

  /**
    The body of a base-10 literal accepted by `int()`: digits, where a single
    underscore may separate two digits.
   */
  predicate DigitBody(t: string) {
    && |t| > 0
    && IsDigit(t[0]) && IsDigit(t[|t| - 1])
    && DigitsOrUnderscores(t)
    && forall k :: 0 <= k < |t| - 1 && t[k] == '_' ==> t[k + 1] != '_'
  }

  /** The value of a run of digits, underscores being ignored. */
  function DigitsValue(t: string): nat
    requires DigitsOrUnderscores(t)
    decreases |t|
  {
    if |t| == 0 then 0
    else if t[|t| - 1] == '_' then DigitsValue(t[..|t| - 1])
    else DigitsValue(t[..|t| - 1]) * 10 + DigitOf(t[|t| - 1])
  }

  /**
    `int(s)`: surrounding white space is ignored, one optional sign, then a digit
    body; anything else is a `ValueError`, here `None`.
   */
  function ParseInt(s: string): Option<int>
  {
    var t := Strip(s);
    var signed := |t| > 0 && (t[0] == '+' || t[0] == '-');
    var body := if signed then t[1..] else t;
    if !DigitBody(body) then None
    else if signed && t[0] == '-' then Some(-(DigitsValue(body) as int))
    else Some(DigitsValue(body))
  }

  /** `str(n)` for a natural number: its shortest decimal numeral. */
  function NatToString(n: nat): (r: string)
    ensures AllDigits(r)
    ensures r[0] != '0' || n == 0
    decreases n
  {
    if n < 10 then [DigitChar(n)] else NatToString(n / 10) + [DigitChar(n % 10)]
  }

  function Zeros(k: nat): (r: string)
    ensures |r| == k && forall j :: 0 <= j < k ==> r[j] == '0'
  {
    if k == 0 then "" else "0" + Zeros(k - 1)
  }

  /** `n` written with leading zeros up to `width` characters, as RCS writes date fields. */
  function PadTo(n: nat, width: nat): (r: string)
    ensures AllDigits(r) && |r| >= width
  {
    var d := NatToString(n);
    if |d| < width then Zeros(width - |d|) + d else d
  }

  lemma AllDigitsBody(t: string)
    requires AllDigits(t)
    ensures DigitBody(t)
  {
  }

  lemma {:induction false} NatToStringValue(n: nat)
    ensures DigitsValue(NatToString(n)) == n
    decreases n
  {
    var r := NatToString(n);
    if n >= 10 {
      NatToStringValue(n / 10);
      assert r[..|r| - 1] == NatToString(n / 10);
    }
  }

  /** One more digit on the right: the value is shifted by one decimal place. */
  lemma DigitsValueSnoc(a: string, c: char)
    requires DigitsOrUnderscores(a) && IsDigit(c)
    ensures DigitsOrUnderscores(a + [c])
    ensures DigitsValue(a + [c]) == DigitsValue(a) * 10 + DigitOf(c)
  {
    assert (a + [c])[..|a|] == a;
  }

  /** Leading zeros do not change the value. */
  lemma {:induction false} DigitsValueZeros(k: nat, d: string)
    requires |d| == 0 || AllDigits(d)
    ensures DigitsOrUnderscores(Zeros(k) + d)
    ensures DigitsValue(Zeros(k) + d) == DigitsValue(d)
    decreases |d|
  {
    if |d| == 0 {
      assert Zeros(k) + d == Zeros(k);
      ZerosValue(k);
    } else {
      var d' := d[..|d| - 1];
      var c := d[|d| - 1];
      assert d == d' + [c];
      assert Zeros(k) + d == (Zeros(k) + d') + [c];
      DigitsValueZeros(k, d');
      DigitsValueSnoc(Zeros(k) + d', c);
      DigitsValueSnoc(d', c);
    }
  }

  lemma {:induction false} ZerosValue(k: nat)
    ensures DigitsOrUnderscores(Zeros(k)) && DigitsValue(Zeros(k)) == 0
    decreases k
  {
    if k > 0 {
      assert Zeros(k)[..k - 1] == Zeros(k - 1);
      ZerosValue(k - 1);
    }
  }

  /** Reading a zero-padded numeral back gives the number: `int(f"{n:0{w}d}") == n`. */
  lemma PadToValue(n: nat, width: nat)
    ensures DigitsValue(PadTo(n, width)) == n
  {
    var d := NatToString(n);
    NatToStringValue(n);
    if |d| < width {
      DigitsValueZeros(width - |d|, d);
    }
  }

  /** `int()` of a plain digit string is its value. */
  lemma ParseIntDigits(t: string)
    requires AllDigits(t)
    ensures ParseInt(t) == Some(DigitsValue(t))
  {
    assert Stripped(t) by {
      assert IsDigit(t[0]) && IsDigit(t[|t| - 1]);
    }
    StripOfStripped(t);
  }

  /** `int()` inverts zero-padded formatting. */
  lemma ParseIntPadTo(n: nat, width: nat)
    ensures ParseInt(PadTo(n, width)) == Some(n)
  {
    ParseIntDigits(PadTo(n, width));
    PadToValue(n, width);
  }

  /** A leading minus sign negates. */
  lemma ParseIntNegative(n: nat)
    ensures ParseInt("-" + NatToString(n)) == Some(-(n as int))
  {
    var d := NatToString(n);
    var t := "-" + d;
    NegativeStripped(d);
    assert t[1..] == d;
    NatToStringValue(n);
  }

  /** A minus sign followed by digits is left alone by `strip()`. */
  lemma NegativeStripped(d: string)
    requires AllDigits(d)
    ensures Strip("-" + d) == "-" + d
  {
    var t := "-" + d;
    assert Stripped(t) by {
      assert t[|t| - 1] == d[|d| - 1];
      assert IsDigit(d[|d| - 1]);
    }
    StripOfStripped(t);
  }

  /** Text without a single digit, blank text included, is rejected. */
  lemma ParseIntNeedsDigit(s: string)
    requires forall k :: 0 <= k < |s| ==> !IsDigit(s[k])
    ensures ParseInt(s) == None
  {
    var t := Strip(s);
    StripChars(s);
    if |t| > 0 {
      var body := if t[0] == '+' || t[0] == '-' then t[1..] else t;
      if |body| > 0 {
        assert body[0] in t;
      }
    }
  }

  // ---------------------------------------------------------------------------
  // The proleptic Gregorian calendar of Python's `datetime`
  // ---------------------------------------------------------------------------

  datatype Stamp = Stamp(year: int, month: int, day: int, hour: int, minute: int, second: int)

  predicate IsLeap(y: int) {
    y % 4 == 0 && (y % 100 != 0 || y % 400 == 0)
  }

  function YearLength(y: int): int {
    if IsLeap(y) then 366 else 365
  }

  function DaysInMonth(y: int, m: int): (n: int)
    requires 1 <= m <= 12
    ensures 28 <= n <= 31
  {
    if m == 2 then (if IsLeap(y) then 29 else 28)
    else if m == 4 || m == 6 || m == 9 || m == 11 then 30
    else 31
  }

  /** Days in the months of year `y` before month `m`, as Python's cumulative table gives them. */
  function DaysBeforeMonth(y: int, m: int): int
    requires 1 <= m <= 12
  {
    var table := [0, 0, 31, 59, 90, 120, 151, 181, 212, 243, 273, 304, 334];
    table[m] + (if m > 2 && IsLeap(y) then 1 else 0)
  }

  /** Days in the years before year `y` (year 1 starting on day 0), by Python's closed formula. */
  function DaysBeforeYear(y: int): int
    requires y >= 1
  {
    var p := y - 1;
    p * 365 + p / 4 - p / 100 + p / 400
  }

  /** What `datetime(...)` accepts: year 1..9999, a real month and day, a time of day. */
  predicate ValidStamp(st: Stamp) {
    && 1 <= st.year <= 9999
    && 1 <= st.month <= 12
    && 1 <= st.day <= DaysInMonth(st.year, st.month)
    && 0 <= st.hour < 24
    && 0 <= st.minute < 60
    && 0 <= st.second < 60
  }

  /** Days from 0001-01-01 to 1970-01-01. */
  const EpochDay: int := 719162

  /** Days since 0001-01-01. */
  function DayNumber(st: Stamp): int
    requires ValidStamp(st)
  {
    DaysBeforeYear(st.year) + DaysBeforeMonth(st.year, st.month) + st.day - 1
  }

  /** `int(datetime(..., tzinfo=timezone.utc).timestamp())`. */
  function EpochSeconds(st: Stamp): int
    requires ValidStamp(st)
  {
    (DayNumber(st) - EpochDay) * 86400 + st.hour * 3600 + st.minute * 60 + st.second
  }

  /** The independent count of days: one year at a time. */
  function CountDays(y: int): int
    requires y >= 1
    decreases y
  {
    if y == 1 then 0 else CountDays(y - 1) + YearLength(y - 1)
  }

  lemma DivisibilityChain(y: int)
    ensures y % 400 == 0 ==> y % 100 == 0
    ensures y % 100 == 0 ==> y % 4 == 0
  {
  }

  lemma DivSucc4(p: int)
    ensures (p + 1) / 4 == p / 4 + (if (p + 1) % 4 == 0 then 1 else 0)
  {
  }

  lemma DivSucc100(p: int)
    ensures (p + 1) / 100 == p / 100 + (if (p + 1) % 100 == 0 then 1 else 0)
  {
  }

  lemma DivSucc400(p: int)
    ensures (p + 1) / 400 == p / 400 + (if (p + 1) % 400 == 0 then 1 else 0)
  {
  }

  /** Consecutive values of the closed formula differ by the length of the year. */
  lemma DaysBeforeYearStep(y: int)
    requires y >= 1
    ensures DaysBeforeYear(y + 1) == DaysBeforeYear(y) + YearLength(y)
  {
    DivisibilityChain(y);
    DivSucc4(y - 1);
    DivSucc100(y - 1);
    DivSucc400(y - 1);
  }

  /** Python's closed formula agrees with counting the days year by year. */
  lemma {:induction false} DaysBeforeYearCounts(y: int)
    requires y >= 1
    ensures DaysBeforeYear(y) == CountDays(y)
    decreases y
  {
    if y > 1 {
      DaysBeforeYearCounts(y - 1);
      DaysBeforeYearStep(y - 1);
    }
  }

  /** The epoch constant is the day count of 1970-01-01. */
  lemma EpochDayIs1970()
    ensures EpochDay == DaysBeforeYear(1970)
    ensures EpochSeconds(Stamp(1970, 1, 1, 0, 0, 0)) == 0
  {
  }

  /** The table agrees with adding up month lengths. */
  lemma DaysBeforeMonthStep(y: int, m: int)
    requires 1 <= m < 12
    ensures DaysBeforeMonth(y, m + 1) == DaysBeforeMonth(y, m) + DaysInMonth(y, m)
  {
  }

  lemma DaysBeforeMonthYear(y: int)
    ensures DaysBeforeMonth(y, 12) + DaysInMonth(y, 12) == YearLength(y)
  {
  }

  lemma {:induction false} DaysBeforeMonthOrder(y: int, m1: int, m2: int)
    requires 1 <= m1 < m2 <= 12
    ensures DaysBeforeMonth(y, m1) + DaysInMonth(y, m1) <= DaysBeforeMonth(y, m2)
    decreases m2 - m1
  {
    DaysBeforeMonthStep(y, m1);
    if m1 + 1 < m2 {
      DaysBeforeMonthOrder(y, m1 + 1, m2);
    }
  }

  lemma {:induction false} DaysBeforeYearOrder(y1: int, y2: int)
    requires 1 <= y1 < y2
    ensures DaysBeforeYear(y1) + YearLength(y1) <= DaysBeforeYear(y2)
    decreases y2 - y1
  {
    DaysBeforeYearStep(y1);
    if y1 + 1 < y2 {
      DaysBeforeYearOrder(y1 + 1, y2);
      DaysBeforeYearStep(y1 + 1);
    }
  }

  /** Every valid date falls inside its own year. */
  lemma DayInYear(st: Stamp)
    requires ValidStamp(st)
    ensures DaysBeforeYear(st.year) <= DayNumber(st) < DaysBeforeYear(st.year) + YearLength(st.year)
  {
    DaysBeforeMonthYear(st.year);
    if st.month < 12 {
      DaysBeforeMonthOrder(st.year, st.month, 12);
    }
  }

  /** Field-by-field (lexicographic) order of date and time. */
  predicate Before(a: Stamp, b: Stamp) {
    || a.year < b.year
    || (a.year == b.year && a.month < b.month)
    || (a.year == b.year && a.month == b.month && a.day < b.day)
    || (a.year == b.year && a.month == b.month && a.day == b.day && a.hour < b.hour)
    || (a.year == b.year && a.month == b.month && a.day == b.day && a.hour == b.hour && a.minute < b.minute)
    || (a.year == b.year && a.month == b.month && a.day == b.day && a.hour == b.hour && a.minute == b.minute
        && a.second < b.second)
  }

  lemma DayNumberOrder(a: Stamp, b: Stamp)
    requires ValidStamp(a) && ValidStamp(b)
    requires a.year < b.year || (a.year == b.year && a.month < b.month)
    ensures DayNumber(a) < DayNumber(b)
  {
    DayInYear(a);
    DayInYear(b);
    if a.year < b.year {
      DaysBeforeYearOrder(a.year, b.year);
    } else {
      DaysBeforeMonthOrder(a.year, a.month, b.month);
    }
  }

  /** Later dates have larger timestamps; in particular the timestamp is one-to-one. */
  lemma EpochSecondsMonotone(a: Stamp, b: Stamp)
    requires ValidStamp(a) && ValidStamp(b) && Before(a, b)
    ensures EpochSeconds(a) < EpochSeconds(b)
  {
    if a.year < b.year || (a.year == b.year && a.month < b.month) {
      DayNumberOrder(a, b);
    }
  }

  // ---------------------------------------------------------------------------
  // parse_rcs_date
  // ---------------------------------------------------------------------------

  /** All present: the values in order; any absent: absent (the first `ValueError` ends `list(map(...))`). */
  function AllPresent(opts: seq<Option<int>>): (r: Option<seq<int>>)
    ensures r.Some? ==> |r.value| == |opts|
  {
    if |opts| == 0 then Some([])
    else
      match (opts[0], AllPresent(opts[1..]))
      case (Some(v), Some(vs)) => Some([v] + vs)
      case _ => None
  }

  /** `AllPresent` is present exactly when every entry is, and then holds their values. */
  lemma {:induction false} AllPresentOf(opts: seq<Option<int>>)
    ensures AllPresent(opts).Some? <==> forall k :: 0 <= k < |opts| ==> opts[k].Some?
    ensures AllPresent(opts).Some? ==> forall k :: 0 <= k < |opts| ==> AllPresent(opts).value[k] == opts[k].value
    decreases |opts|
  {
    if |opts| > 0 {
      AllPresentOf(opts[1..]);
      assert forall k :: 1 <= k < |opts| ==> opts[k] == opts[1..][k - 1];
    }
  }

  /** `map(int, fields)`, one outcome per field. */
  function EachParsed(fields: seq<string>): (r: seq<Option<int>>)
    ensures |r| == |fields| && forall k :: 0 <= k < |fields| ==> r[k] == ParseInt(fields[k])
  {
    seq(|fields|, k requires 0 <= k < |fields| => ParseInt(fields[k]))
  }

  /** `list(map(int, fields))`: every field must parse. */
  function ParseFields(fields: seq<string>): Option<seq<int>>
  {
    AllPresent(EachParsed(fields))
  }

  /** `datetime(*parts_i)` or its `ValueError`. */
  function ToStamp(v: seq<int>): (r: Option<Stamp>)
    requires |v| == 6
    ensures r.Some? <==> ValidStamp(Stamp(v[0], v[1], v[2], v[3], v[4], v[5]))
    ensures r.Some? ==> r.value == Stamp(v[0], v[1], v[2], v[3], v[4], v[5])
  {
    var st := Stamp(v[0], v[1], v[2], v[3], v[4], v[5]);
    if ValidStamp(st) then Some(st) else None
  }

  /**
    `parse_rcs_date(s)`. Fewer than six dot-separated fields hand the unstripped
    text to `datetime.fromisoformat` (the `iso` parameter); a year of fewer than
    three characters gets "19" in front; fields after the sixth are ignored; any
    unparsable field or impossible date gives the current time `now`.
   */
  function ParseRcsDate(s: string, now: int, iso: string -> Option<int>): int
  {
    var parts := Split(Strip(s), '.');
    if |parts| < 6 then iso(s).GetOr(now)
    else SixFieldsDate(parts[..6], now)
  }

  /** The date the first six fields name, or `now` when they name none. */
  function SixFieldsDate(six: seq<string>, now: int): int
    requires |six| == 6
  {
    match ParseFields([YearField(six[0])] + six[1..])
    case None => now
    case Some(v) =>
      match ToStamp(v)
      case None => now
      case Some(st) => EpochSeconds(st)
  }

  /** A year of fewer than three characters is read with "19" in front. */
  function YearField(y: string): string {
    if |y| < 3 then "19" + y else y
  }

  /** The value an all-digit year field stands for, with "19" put in front of one or two digits. */
  function YearValue(f: string): nat
    requires AllDigits(f)
  {
    if |f| == 1 then 190 + DigitsValue(f)
    else if |f| == 2 then 1900 + DigitsValue(f)
    else DigitsValue(f)
  }

  /** Six all-digit fields joined by dots, an RCS date as `rlog` prints it. */
  predicate DateFields(fs: seq<string>) {
    |fs| == 6 && forall k :: 0 <= k < 6 ==> AllDigits(fs[k])
  }

  function FieldsStamp(fs: seq<string>): Stamp
    requires DateFields(fs)
  {
    Stamp(YearValue(fs[0]), DigitsValue(fs[1]), DigitsValue(fs[2]),
          DigitsValue(fs[3]), DigitsValue(fs[4]), DigitsValue(fs[5]))
  }

  lemma NineteenValue()
    ensures DigitsOrUnderscores("19") && DigitsValue("19") == 19
  {
    assert "19" == "1" + ['9'] && "1" == "" + ['1'];
    DigitsValueSnoc("", '1');
    DigitsValueSnoc("1", '9');
  }

  lemma ShortYearValue(f: string)
    requires AllDigits(f) && |f| < 3
    ensures AllDigits("19" + f) && DigitsValue("19" + f) == YearValue(f)
  {
    NineteenValue();
    DigitsValueSnoc("19", f[0]);
    DigitsValueSnoc("", f[0]);
    if |f| == 1 {
      assert "19" + f == "19" + [f[0]];
      assert f == "" + [f[0]];
    } else {
      assert "19" + f == ("19" + [f[0]]) + [f[1]];
      assert f == ("" + [f[0]]) + [f[1]];
      DigitsValueSnoc("19" + [f[0]], f[1]);
      DigitsValueSnoc("" + [f[0]], f[1]);
    }
  }

  lemma YearFieldParses(f: string)
    requires AllDigits(f)
    ensures ParseInt(YearField(f)) == Some(YearValue(f))
  {
    if |f| < 3 {
      ShortYearValue(f);
      ParseIntDigits("19" + f);
    } else {
      ParseIntDigits(f);
    }
  }

  lemma JoinedDateStripped(fs: seq<string>)
    requires DateFields(fs)
    ensures Strip(Join(fs, ".")) == Join(fs, ".")
  {
    var s := Join(fs, ".");
    assert fs[0][0] == s[0] by {
      JoinStartsWithFirst(fs, ".");
    }
    JoinEndsWithLast(fs, ".");
    assert IsDigit(fs[5][|fs[5]| - 1]);
    assert Stripped(s);
    StripOfStripped(s);
  }

  lemma SplitDateFields(fs: seq<string>)
    requires DateFields(fs)
    ensures Split(Join(fs, "."), '.') == fs
  {
    forall k | 0 <= k < |fs| ensures '.' !in fs[k] {
      assert AllDigits(fs[k]);
    }
    SplitJoin(fs, '.');
  }

  /** Every field parsing gives the list of their values. */
  lemma ParseFieldsValues(fields: seq<string>, vs: seq<int>)
    requires |fields| == |vs|
    requires forall k :: 0 <= k < |fields| ==> ParseInt(fields[k]) == Some(vs[k])
    ensures ParseFields(fields) == Some(vs)
  {
    var opts := EachParsed(fields);
    assert forall k :: 0 <= k < |opts| ==> opts[k] == Some(vs[k]);
    AllPresentOf(opts);
    var r := AllPresent(opts).value;
    assert forall k :: 0 <= k < |r| ==> r[k] == vs[k];
    assert r == vs;
  }

  /** The six fields as `parse_rcs_date` hands them to `int()`, year prefix included. */
  lemma DateFieldsParse(fs: seq<string>)
    requires DateFields(fs)
    ensures var st := FieldsStamp(fs);
      ParseFields([YearField(fs[0])] + fs[1..])
        == Some([st.year, st.month, st.day, st.hour, st.minute, st.second])
  {
    var st := FieldsStamp(fs);
    var fields := [YearField(fs[0])] + fs[1..];
    var vs := [st.year, st.month, st.day, st.hour, st.minute, st.second];
    forall k | 0 <= k < 6 ensures ParseInt(fields[k]) == Some(vs[k]) {
      if k == 0 {
        YearFieldParses(fs[0]);
      } else {
        assert fields[k] == fs[k];
        ParseIntDigits(fs[k]);
      }
    }
    ParseFieldsValues(fields, vs);
  }

  /**
    A well-formed RCS date reads as the timestamp of the date its fields name,
    and as `now` when they name no date (month 13, February 30, hour 24, ...).
   */
  lemma ParseRcsDateFields(fs: seq<string>, now: int, iso: string -> Option<int>)
    requires DateFields(fs)
    ensures var st := FieldsStamp(fs);
      ParseRcsDate(Join(fs, "."), now, iso) == if ValidStamp(st) then EpochSeconds(st) else now
  {
    ParseRcsDateSix(fs, now, iso);
    DateFieldsParse(fs);
  }

  /** Writing a valid date the way RCS does and reading it back gives its timestamp. */
  lemma ParseRcsDateRoundTrip(st: Stamp, now: int, iso: string -> Option<int>)
    requires ValidStamp(st)
    ensures ParseRcsDate(Format(st), now, iso) == EpochSeconds(st)
  {
    var fs := FormatFields(st);
    PadToValue(st.year, 4);
    PadToValue(st.month, 2);
    PadToValue(st.day, 2);
    PadToValue(st.hour, 2);
    PadToValue(st.minute, 2);
    PadToValue(st.second, 2);
    assert FieldsStamp(fs) == st;
    ParseRcsDateFields(fs, now, iso);
  }

  function FormatFields(st: Stamp): (fs: seq<string>)
    requires ValidStamp(st)
    ensures DateFields(fs)
  {
    [PadTo(st.year, 4), PadTo(st.month, 2), PadTo(st.day, 2),
     PadTo(st.hour, 2), PadTo(st.minute, 2), PadTo(st.second, 2)]
  }

  /** `YYYY.MM.DD.HH.MM.SS`, zero-padded, the form `rlog` prints. */
  function Format(st: Stamp): string
    requires ValidStamp(st)
  {
    Join(FormatFields(st), ".")
  }

  /**
    Text with fewer than five dots, so fewer than six dot-separated fields, is
    not an RCS date and goes to `fromisoformat` unchanged.
   */
  lemma ParseRcsDateFallback(s: string, now: int, iso: string -> Option<int>)
    requires multiset(s)['.'] < 5
    ensures ParseRcsDate(s, now, iso) == iso(s).GetOr(now)
  {
    StripCount(s, '.');
    SplitCount(Strip(s), '.');
  }

  /** `strip()` of a well-formed date followed by a dot and more text only trims the end of that text. */
  lemma StripDateTail(fs: seq<string>, tail: string)
    requires DateFields(fs)
    ensures Strip(Join(fs, ".") + "." + tail) == Join(fs, ".") + ("." + TrimRight(tail))
  {
    var d := Join(fs, ".");
    var s := d + "." + tail;
    JoinStartsWithFirst(fs, ".");
    JoinEndsWithLast(fs, ".");
    assert IsDigit(fs[5][|fs[5]| - 1]) && IsDigit(fs[0][0]);
    assert TrimLeft(s) == s by {
      assert s[0] == d[0];
    }
    assert s == d + ("." + tail);
    TrimRightAppend(d, "." + tail);
    TrimRightAppend(".", tail);
  }

  /** The fields of a well-formed date followed by a dot and more text start with the date's six. */
  lemma SplitDateTail(fs: seq<string>, u: string)
    requires DateFields(fs)
    ensures var parts := Split(Join(fs, ".") + ("." + u), '.');
      |parts| >= 6 && parts[..6] == fs
  {
    forall k | 0 <= k < |fs| ensures '.' !in fs[k] {
      assert AllDigits(fs[k]);
    }
    assert Join(fs, ".") + ("." + u) == Join(fs, ['.']) + ['.'] + u;
    SplitAfterJoin(fs, '.', u);
  }

  /** Only the first six fields count: a well-formed date followed by more fields reads as the date alone. */
  lemma ParseRcsDateExtra(fs: seq<string>, tail: string, now: int, iso: string -> Option<int>)
    requires DateFields(fs)
    ensures ParseRcsDate(Join(fs, ".") + "." + tail, now, iso) == ParseRcsDate(Join(fs, "."), now, iso)
  {
    ParseRcsDateSix(fs, now, iso);
    StripDateTail(fs, tail);
    SplitDateTail(fs, TrimRight(tail));
  }

  /** A well-formed date reads as the date its six fields name. */
  lemma ParseRcsDateSix(fs: seq<string>, now: int, iso: string -> Option<int>)
    requires DateFields(fs)
    ensures ParseRcsDate(Join(fs, "."), now, iso) == SixFieldsDate(fs, now)
  {
    JoinedDateStripped(fs);
    SplitDateFields(fs);
    assert fs[..6] == fs;
  }

  /** Any of the first six fields that `int()` rejects makes the date the current time. */
  lemma ParseRcsDateBadField(s: string, k: int, now: int, iso: string -> Option<int>)
    requires |Split(Strip(s), '.')| >= 6 && 0 <= k < 6
    requires var parts := Split(Strip(s), '.');
      ParseInt(if k == 0 then YearField(parts[0]) else parts[k]) == None
    ensures ParseRcsDate(s, now, iso) == now
  {
    var six := Split(Strip(s), '.')[..6];
    SixFieldsBad(six, k, now);
  }

  /** `list(map(int, ...))` fails as soon as one of the six fields does. */
  lemma SixFieldsBad(six: seq<string>, k: int, now: int)
    requires |six| == 6 && 0 <= k < 6
    requires ParseInt(if k == 0 then YearField(six[0]) else six[k]) == None
    ensures SixFieldsDate(six, now) == now
  {
    var fields := [YearField(six[0])] + six[1..];
    var opts := EachParsed(fields);
    assert opts[k] == None;
    AllPresentOf(opts);
  }

  lemma TwoDigitValue(t: string)
    requires |t| == 2 && AllDigits(t)
    ensures DigitsValue(t) == 10 * DigitOf(t[0]) + DigitOf(t[1])
  {
    assert t == ("" + [t[0]]) + [t[1]];
    DigitsValueSnoc("", t[0]);
    DigitsValueSnoc("" + [t[0]], t[1]);
  }

  lemma FourDigitValue(t: string)
    requires |t| == 4 && AllDigits(t)
    ensures DigitsValue(t) == 100 * DigitsValue(t[..2]) + 10 * DigitOf(t[2]) + DigitOf(t[3])
  {
    assert t == (t[..2] + [t[2]]) + [t[3]];
    DigitsValueSnoc(t[..2], t[2]);
    DigitsValueSnoc(t[..2] + [t[2]], t[3]);
  }

  /** A date text whose fields are known reads as their timestamp. */
  lemma ParseRcsDateOf(fs: seq<string>, s: string, st: Stamp, now: int, iso: string -> Option<int>)
    requires DateFields(fs) && Join(fs, ".") == s
    requires FieldsStamp(fs) == st && ValidStamp(st)
    ensures ParseRcsDate(s, now, iso) == EpochSeconds(st)
  {
    ParseRcsDateFields(fs, now, iso);
  }

  lemma FieldsOf1999()
    ensures DateFields(["99", "12", "31", "23", "59", "59"])
    ensures FieldsStamp(["99", "12", "31", "23", "59", "59"]) == Stamp(1999, 12, 31, 23, 59, 59)
  {
    TwoDigitValue("99");
    TwoDigitValue("12");
    TwoDigitValue("31");
    TwoDigitValue("23");
    TwoDigitValue("59");
  }

  /** Six fields joined by a separator, written out. */
  lemma JoinSix(a: string, b: string, c: string, d: string, e: string, f: string, sep: string)
    ensures Join([a, b, c, d, e, f], sep) == a + (sep + (b + (sep + (c + (sep + (d + (sep + (e + (sep + f)))))))))
  {
    assert [e, f][1..] == [f];
    assert Join([e, f], sep) == e + (sep + f);
    assert [d, e, f][1..] == [e, f];
    assert Join([d, e, f], sep) == d + (sep + Join([e, f], sep));
    assert [c, d, e, f][1..] == [d, e, f];
    assert Join([c, d, e, f], sep) == c + (sep + Join([d, e, f], sep));
    assert [b, c, d, e, f][1..] == [c, d, e, f];
    assert Join([b, c, d, e, f], sep) == b + (sep + Join([c, d, e, f], sep));
    assert [a, b, c, d, e, f][1..] == [b, c, d, e, f];
  }

  lemma Join1999()
    ensures Join(["99", "12", "31", "23", "59", "59"], ".") == "99.12.31.23.59.59"
  {
    JoinSix("99", "12", "31", "23", "59", "59", ".");
  }

  lemma FieldsOfOctober()
    ensures DateFields(["2023", "10", "27", "10", "30", "00"])
    ensures FieldsStamp(["2023", "10", "27", "10", "30", "00"]) == Stamp(2023, 10, 27, 10, 30, 0)
  {
    FourDigitValue("2023");
    assert "2023"[..2] == "20";
    TwoDigitValue("20");
    TwoDigitValue("10");
    TwoDigitValue("27");
    TwoDigitValue("30");
    TwoDigitValue("00");
  }

  lemma JoinOctober()
    ensures Join(["2023", "10", "27", "10", "30", "00"], ".") == "2023.10.27.10.30.00"
  {
    JoinSix("2023", "10", "27", "10", "30", "00", ".");
  }

  lemma FieldsOfNovember()
    ensures DateFields(["2023", "11", "21", "11", "00", "00"])
    ensures FieldsStamp(["2023", "11", "21", "11", "00", "00"]) == Stamp(2023, 11, 21, 11, 0, 0)
  {
    FourDigitValue("2023");
    assert "2023"[..2] == "20";
    TwoDigitValue("20");
    TwoDigitValue("11");
    TwoDigitValue("21");
    TwoDigitValue("00");
  }

  lemma JoinNovember()
    ensures Join(["2023", "11", "21", "11", "00", "00"], ".") == "2023.11.21.11.00.00"
  {
    JoinSix("2023", "11", "21", "11", "00", "00", ".");
  }

  lemma EpochOfExamples()
    ensures EpochSeconds(Stamp(1999, 12, 31, 23, 59, 59)) == 946684799
    ensures EpochSeconds(Stamp(2023, 10, 27, 10, 30, 0)) == 1698402600
    ensures EpochSeconds(Stamp(2023, 11, 21, 11, 0, 0)) == 1700564400
  {
  }

  /** The converter's own examples, a two-digit year read as 1999 among them. */
  lemma ParseRcsDateExamples(now: int, iso: string -> Option<int>)
    ensures ParseRcsDate("99.12.31.23.59.59", now, iso) == 946684799
    ensures ParseRcsDate("2023.10.27.10.30.00", now, iso) == 1698402600
    ensures ParseRcsDate("2023.11.21.11.00.00", now, iso) == 1700564400
  {
    EpochOfExamples();
    FieldsOf1999();
    Join1999();
    ParseRcsDateOf(["99", "12", "31", "23", "59", "59"], "99.12.31.23.59.59",
      Stamp(1999, 12, 31, 23, 59, 59), now, iso);
    FieldsOfOctober();
    JoinOctober();
    ParseRcsDateOf(["2023", "10", "27", "10", "30", "00"], "2023.10.27.10.30.00",
      Stamp(2023, 10, 27, 10, 30, 0), now, iso);
    FieldsOfNovember();
    JoinNovember();
    ParseRcsDateOf(["2023", "11", "21", "11", "00", "00"], "2023.11.21.11.00.00",
      Stamp(2023, 11, 21, 11, 0, 0), now, iso);
  }
}
