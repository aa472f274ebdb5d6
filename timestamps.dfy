/**
 * The timestamp parser `parse_date`: two `strptime` formats tried in turn,
 * `%Y-%m-%dT%H:%M:%S.%fZ` and then `%Y-%m-%dT%H:%M:%S%z`, after which the
 * zone is dropped without being applied. Only the fixed-width ASCII subset
 * of what `strptime` accepts is modelled.
 */
module Timestamps {
  import opened Results

  /** A naive (zone-less) date and time, the fields of a Python `datetime`. */
  datatype DateTime = DateTime(year: int, month: int, day: int,
                               hour: int, minute: int, second: int, microsecond: int)

  /** The zone designator that `%z` read: `Z`, or `+HHMM` / `+HH:MM` with either sign. */
  datatype ZoneSuffix = Zulu | Numeric(negative: bool, hours: nat, minutes: nat, colon: bool)

  /** A `datetime` that still carries the zone `strptime` attached to it. */
  datatype Zoned = Zoned(local: DateTime, zone: ZoneSuffix)

  /** The `ValueError` raised when the text matches neither format. */
  datatype ParseError = ParseError(input: string)

  predicate IsLeapYear(y: int) {
    y % 4 == 0 && (y % 100 != 0 || y % 400 == 0)
  }

  function DaysInMonth(y: int, m: int): int
    requires 1 <= m <= 12
  {
    if m == 2 then (if IsLeapYear(y) then 29 else 28)
    else if m == 4 || m == 6 || m == 9 || m == 11 then 30
    else 31
  }

  /** The field ranges the `datetime` constructor enforces. */
  predicate Valid(d: DateTime) {
    && 1 <= d.year <= 9999
    && 1 <= d.month <= 12
    && 1 <= d.day <= DaysInMonth(d.year, d.month)
    && 0 <= d.hour <= 23
    && 0 <= d.minute <= 59
    && 0 <= d.second <= 59
    && 0 <= d.microsecond <= 999999
  }

  /** Python's `<` on two naive datetimes: lexicographic on the fields. */
  predicate Before(a: DateTime, b: DateTime) {
    if a.year != b.year then a.year < b.year
    else if a.month != b.month then a.month < b.month
    else if a.day != b.day then a.day < b.day
    else if a.hour != b.hour then a.hour < b.hour
    else if a.minute != b.minute then a.minute < b.minute
    else if a.second != b.second then a.second < b.second
    else a.microsecond < b.microsecond
  }

  lemma BeforeIsStrictTotalOrder(a: DateTime, b: DateTime, c: DateTime)
    ensures !Before(a, a)
    ensures Before(a, b) && Before(b, c) ==> Before(a, c)
    ensures a != b ==> (Before(a, b) <==> !Before(b, a))
  {
  }

  // ---------------------------------------------------------------- digits

  predicate IsDigit(c: char) {
    '0' <= c <= '9'
  }

  predicate AllDigits(s: string) {
    forall i :: 0 <= i < |s| ==> IsDigit(s[i])
  }

  function DigitValue(c: char): nat
    requires IsDigit(c)
  {
    c as int - '0' as int
  }

  function DigitChar(n: nat): char
    requires n < 10
  {
    ('0' as int + n) as char
  }

  function Pow10(k: nat): (r: nat)
    ensures r > 0
  {
    if k == 0 then 1 else 10 * Pow10(k - 1)
  }

  /** The number a run of decimal digits denotes. */
  function Value(s: string): nat
    requires AllDigits(s)
    decreases |s|
  {
    if s == [] then 0 else Value(s[..|s| - 1]) * 10 + DigitValue(s[|s| - 1])
  }

  /** `n` written with exactly `w` decimal digits, zero-padded on the left. */
  function Pad(n: nat, w: nat): (r: string)
    ensures |r| == w && AllDigits(r)
  {
    if w == 0 then [] else Pad(n / 10, w - 1) + [DigitChar(n % 10)]
  }

  lemma {:induction false} ValueBound(s: string)
    requires AllDigits(s)
    ensures Value(s) < Pow10(|s|)
    decreases |s|
  {
    if s != [] {
      ValueBound(s[..|s| - 1]);
    }
  }

  lemma {:induction false} ValueOfPad(n: nat, w: nat)
    requires n < Pow10(w)
    ensures Value(Pad(n, w)) == n
  {
    if w > 0 {
      var p := Pad(n, w);
      assert p[..w - 1] == Pad(n / 10, w - 1);
      ValueOfPad(n / 10, w - 1);
    }
  }

  lemma {:induction false} PadOfValue(s: string)
    requires AllDigits(s)
    ensures Pad(Value(s), |s|) == s
    decreases |s|
  {
    if s != [] {
      var front := s[..|s| - 1];
      PadOfValue(front);
      var v := Value(s);
      assert v / 10 == Value(front) && v % 10 == DigitValue(s[|s| - 1]);
      assert s == front + [s[|s| - 1]];
    }
  }

  // ---------------------------------------------------------- the formats

  /** `YYYY-MM-DDTHH:MM:SS`: the common head of both formats, microsecond zero. */
  function ParseClock(p: string): (r: Option<DateTime>)
    requires |p| == 19
    ensures r.Some? ==> Valid(r.value) && r.value.microsecond == 0
  {
    if && p[4] == '-' && p[7] == '-' && p[10] == 'T' && p[13] == ':' && p[16] == ':'
       && AllDigits(p[0..4]) && AllDigits(p[5..7]) && AllDigits(p[8..10])
       && AllDigits(p[11..13]) && AllDigits(p[14..16]) && AllDigits(p[17..19])
    then
      var d := DateTime(Value(p[0..4]), Value(p[5..7]), Value(p[8..10]),
                        Value(p[11..13]), Value(p[14..16]), Value(p[17..19]), 0);
      if Valid(d) then Some(d) else None
    else None
  }

  /** `%Y-%m-%dT%H:%M:%S.%fZ`: one to six fraction digits, read as microseconds. */
  function ParseWithFraction(s: string): (r: Option<DateTime>)
    ensures r.Some? ==> Valid(r.value)
  {
    if 22 <= |s| <= 27 && s[19] == '.' && s[|s| - 1] == 'Z' && AllDigits(s[20..|s| - 1]) then
      var fraction := s[20..|s| - 1];
      match ParseClock(s[..19])
      case None => None
      case Some(c) =>
        ValueBound(fraction);
        MicrosBound(Value(fraction), |fraction|);
        Some(c.(microsecond := Micros(Value(fraction), |fraction|)))
    else None
  }

  /** The weight of the last of `k` fraction digits, in microseconds. */
  function Unit(k: nat): nat
    requires 1 <= k <= 6
  {
    match k
    case 1 => 100000
    case 2 => 10000
    case 3 => 1000
    case 4 => 100
    case 5 => 10
    case 6 => 1
  }

  /** `%f`: the value `v` of `k` fraction digits, right-padded with zeros to six digits. */
  function Micros(v: nat, k: nat): nat
    requires 1 <= k <= 6
  {
    v * Unit(k)
  }

  lemma MicrosBound(v: nat, k: nat)
    requires 1 <= k <= 6 && v < Pow10(k)
    ensures Micros(v, k) < 1000000
  {
    match k
    case 1 => assert Pow10(1) == 10;
    case 2 => assert Pow10(2) == 100;
    case 3 => assert Pow10(3) == 1000;
    case 4 => assert Pow10(4) == 10000;
    case 5 => assert Pow10(5) == 100000;
    case 6 => assert Pow10(6) == 1000000;
  }

  /** What `%z` accepts here: `Z`, `+HHMM` or `+HH:MM` (either sign), an offset below 24 hours. */
  function ParseSuffix(t: string): (r: Option<ZoneSuffix>)
    ensures r.Some? ==> ValidSuffix(r.value)
  {
    if t == "Z" then Some(Zulu)
    else if && (|t| == 5 || (|t| == 6 && t[3] == ':'))
            && (t[0] == '+' || t[0] == '-')
            && AllDigits(t[1..3]) && AllDigits(t[|t| - 2..])
    then
      var hours := Value(t[1..3]);
      var minutes := Value(t[|t| - 2..]);
      if hours <= 23 && minutes <= 59 then Some(Numeric(t[0] == '-', hours, minutes, |t| == 6))
      else None
    else None
  }

  predicate ValidSuffix(z: ZoneSuffix) {
    z.Numeric? ==> z.hours <= 23 && z.minutes <= 59
  }

  /** `%Y-%m-%dT%H:%M:%S%z`: the clock fields followed by a zone designator. */
  function ParseWithOffset(s: string): (r: Option<Zoned>)
    ensures r.Some? ==> Valid(r.value.local) && r.value.local.microsecond == 0
  {
    if |s| < 20 then None
    else
      match ParseClock(s[..19])
      case None => None
      case Some(c) =>
        match ParseSuffix(s[19..])
        case None => None
        case Some(z) => Some(Zoned(c, z))
  }

  /**
   * `parse_date`: the fraction format first; only when it fails, the offset
   * format; the zone is then discarded without shifting any field.
   */
  function ParseDate(s: string): (r: Result<DateTime, ParseError>)
    ensures r.Ok? ==> Valid(r.value)
    ensures r.Err? ==> r.error == ParseError(s)
  {
    match ParseWithFraction(s)
    case Some(d) => Ok(d)
    case None =>
      match ParseWithOffset(s)
      case Some(z) => Ok(z.local)
      case None => Err(ParseError(s))
  }

  // ----------------------------------------------------------- rendering

  function FormatClock(d: DateTime): (r: string)
    requires Valid(d)
  {
    Pad(d.year, 4) + "-" + Pad(d.month, 2) + "-" + Pad(d.day, 2) + "T"
      + Pad(d.hour, 2) + ":" + Pad(d.minute, 2) + ":" + Pad(d.second, 2)
  }

  /** `d` in the first format with `k` fraction digits (`k` = 3 is the `.fffZ` of the catalogs). */
  function FormatWithFraction(d: DateTime, k: nat): string
    requires Valid(d) && 1 <= k <= 6
  {
    FormatClock(d) + "." + Pad(FractionDigits(d.microsecond, k), k) + "Z"
  }

  /** The microseconds `m` kept by a `k`-digit fraction: `m` with its last `6 - k` digits dropped. */
  function FractionDigits(m: nat, k: nat): nat
    requires 1 <= k <= 6
  {
    m / Unit(k)
  }

  /** `m` ends in at least `6 - k` zero digits, so a `k`-digit fraction shows it exactly. */
  predicate Representable(m: nat, k: nat)
    requires 1 <= k <= 6
  {
    m % Unit(k) == 0
  }

  function RenderSuffix(z: ZoneSuffix): string {
    match z
    case Zulu => "Z"
    case Numeric(negative, hours, minutes, colon) =>
      [if negative then '-' else '+'] + Pad(hours, 2) + (if colon then ":" else "") + Pad(minutes, 2)
  }

  /** `d` in the second format, with zone designator `z`. */
  function FormatWithOffset(d: DateTime, z: ZoneSuffix): string
    requires Valid(d)
  {
    FormatClock(d) + RenderSuffix(z)
  }

  // ---------------------------------------------------- round trips

  lemma FractionScaling(m: nat, v: nat, k: nat)
    requires 1 <= k <= 6
    ensures FractionDigits(Micros(v, k), k) == v && Representable(Micros(v, k), k)
    ensures Representable(m, k) ==> Micros(FractionDigits(m, k), k) == m
    ensures m < 1000000 ==> FractionDigits(m, k) < Pow10(k)
  {
    match k
    case 1 => assert Pow10(1) == 10;
    case 2 => assert Pow10(2) == 100;
    case 3 => assert Pow10(3) == 1000;
    case 4 => assert Pow10(4) == 10000;
    case 5 => assert Pow10(5) == 100000;
    case 6 => assert Pow10(6) == 1000000;
  }

  /** Where the fields of a `YYYY-MM-DDTHH:MM:SS` text sit. */
  lemma ClockSlices(y: string, mo: string, da: string, h: string, mi: string, se: string)
    requires |y| == 4 && |mo| == 2 && |da| == 2 && |h| == 2 && |mi| == 2 && |se| == 2
    ensures var c := y + "-" + mo + "-" + da + "T" + h + ":" + mi + ":" + se;
      && |c| == 19 && c[0..4] == y && c[4] == '-' && c[5..7] == mo && c[7] == '-'
      && c[8..10] == da && c[10] == 'T' && c[11..13] == h && c[13] == ':'
      && c[14..16] == mi && c[16] == ':' && c[17..19] == se
  {
  }

  lemma ClockRoundTrip(d: DateTime)
    requires Valid(d)
    ensures |FormatClock(d)| == 19
    ensures ParseClock(FormatClock(d)) == Some(d.(microsecond := 0))
  {
    var y := PadField(d.year, 4);
    var mo := PadField(d.month, 2);
    var da := PadField(d.day, 2);
    var h := PadField(d.hour, 2);
    var mi := PadField(d.minute, 2);
    var se := PadField(d.second, 2);
    ClockOfFields(d, y, mo, da, h, mi, se);
  }

  lemma PadField(n: nat, w: nat) returns (r: string)
    requires w == 2 || w == 4
    requires n < (if w == 2 then 100 else 10000)
    ensures r == Pad(n, w) && |r| == w && AllDigits(r) && Value(r) == n
  {
    assert Pow10(4) == 10000 && Pow10(2) == 100;
    ValueOfPad(n, w);
    r := Pad(n, w);
  }

  /** Digit runs denoting the fields of a valid `d`, laid out as `YYYY-MM-DDTHH:MM:SS`, parse back to `d`. */
  lemma ClockOfFields(d: DateTime, y: string, mo: string, da: string, h: string, mi: string, se: string)
    requires Valid(d)
    requires |y| == 4 && |mo| == 2 && |da| == 2 && |h| == 2 && |mi| == 2 && |se| == 2
    requires AllDigits(y) && AllDigits(mo) && AllDigits(da) && AllDigits(h) && AllDigits(mi) && AllDigits(se)
    requires Value(y) == d.year && Value(mo) == d.month && Value(da) == d.day
    requires Value(h) == d.hour && Value(mi) == d.minute && Value(se) == d.second
    ensures var c := y + "-" + mo + "-" + da + "T" + h + ":" + mi + ":" + se;
      |c| == 19 && ParseClock(c) == Some(d.(microsecond := 0))
  {
    var c := y + "-" + mo + "-" + da + "T" + h + ":" + mi + ":" + se;
    ClockSlices(y, mo, da, h, mi, se);
    ParseClockOf(c, d);
  }

  /** `ParseClock` on a text whose separators and digit runs are right. */
  lemma ParseClockOf(p: string, d: DateTime)
    requires |p| == 19 && Valid(d)
    requires p[4] == '-' && p[7] == '-' && p[10] == 'T' && p[13] == ':' && p[16] == ':'
    requires AllDigits(p[0..4]) && AllDigits(p[5..7]) && AllDigits(p[8..10])
    requires AllDigits(p[11..13]) && AllDigits(p[14..16]) && AllDigits(p[17..19])
    requires Value(p[0..4]) == d.year && Value(p[5..7]) == d.month && Value(p[8..10]) == d.day
    requires Value(p[11..13]) == d.hour && Value(p[14..16]) == d.minute && Value(p[17..19]) == d.second
    ensures ParseClock(p) == Some(d.(microsecond := 0))
  {
  }

  lemma ClockComplete(p: string)
    requires |p| == 19 && ParseClock(p).Some?
    ensures FormatClock(ParseClock(p).value) == p
  {
    var d := ParseClock(p).value;
    PadOfValue(p[0..4]);
    PadOfValue(p[5..7]);
    PadOfValue(p[8..10]);
    PadOfValue(p[11..13]);
    PadOfValue(p[14..16]);
    PadOfValue(p[17..19]);
    assert p == p[0..4] + [p[4]] + p[5..7] + [p[7]] + p[8..10] + [p[10]]
              + p[11..13] + [p[13]] + p[14..16] + [p[16]] + p[17..19];
  }

  lemma SuffixRoundTrip(z: ZoneSuffix)
    requires ValidSuffix(z)
    ensures ParseSuffix(RenderSuffix(z)) == Some(z)
  {
    if z.Numeric? {
      var t := RenderSuffix(z);
      var hh := Pad(z.hours, 2);
      var mm := Pad(z.minutes, 2);
      assert Pow10(2) == 100;
      ValueOfPad(z.hours, 2);
      ValueOfPad(z.minutes, 2);
      assert t[1..3] == hh;
      assert t[|t| - 2..] == mm;
    }
  }

  lemma SuffixComplete(t: string)
    requires ParseSuffix(t).Some?
    ensures RenderSuffix(ParseSuffix(t).value) == t
  {
    if t != "Z" {
      PadOfValue(t[1..3]);
      PadOfValue(t[|t| - 2..]);
      if |t| == 5 {
        assert t == [t[0]] + t[1..3] + t[|t| - 2..];
      } else {
        assert t == [t[0]] + t[1..3] + [t[3]] + t[|t| - 2..];
      }
    }
  }

  /** A date printed in the first format parses back to exactly its fields. */
  lemma FractionRoundTrip(d: DateTime, k: nat)
    requires Valid(d) && 1 <= k <= 6 && Representable(d.microsecond, k)
    ensures ParseDate(FormatWithFraction(d, k)) == Ok(d)
  {
    var clock, f := FormatClock(d), Pad(FractionDigits(d.microsecond, k), k);
    var s := FormatWithFraction(d, k);
    ClockRoundTrip(d);
    FractionSlices(clock, f);
    FractionScaling(d.microsecond, 0, k);
    ValueOfPad(FractionDigits(d.microsecond, k), k);
    assert Micros(Value(f), k) == d.microsecond;
    assert ParseWithFraction(s) == Some(d);
  }

  lemma FractionSlices(clock: string, f: string)
    requires |clock| == 19
    ensures var s := clock + "." + f + "Z";
      |s| == 21 + |f| && s[..19] == clock && s[19] == '.' && s[|s| - 1] == 'Z' && s[20..|s| - 1] == f
  {
  }

  /** A date printed in the second format parses back to its clock fields, whatever the zone. */
  lemma OffsetRoundTrip(d: DateTime, z: ZoneSuffix)
    requires Valid(d) && d.microsecond == 0 && ValidSuffix(z)
    ensures ParseDate(FormatWithOffset(d, z)) == Ok(d)
  {
    var s := FormatWithOffset(d, z);
    ClockRoundTrip(d);
    assert s[..19] == FormatClock(d);
    assert s[19..] == RenderSuffix(z);
    SuffixRoundTrip(z);
    assert s[19] != '.';
  }

  /**
   * The zone is dropped, not applied: `...T10:00:00+02:00`, `...T10:00:00Z` and
   * `...T10:00:00.0Z` all give the same naive datetime.
   */
  lemma ZoneDiscarded(d: DateTime, z: ZoneSuffix, k: nat)
    requires Valid(d) && d.microsecond == 0 && ValidSuffix(z) && 1 <= k <= 6
    ensures ParseDate(FormatWithOffset(d, z)) == ParseDate(FormatWithFraction(d, k))
  {
    OffsetRoundTrip(d, z);
    FractionScaling(0, 0, k);
    FractionRoundTrip(d, k);
  }

  /** Every text `parse_date` accepts is one of the two renderings of its result. */
  lemma ParseDateComplete(s: string)
    requires ParseDate(s).Ok?
    ensures var d := ParseDate(s).value;
      || (exists k :: 1 <= k <= 6 && Representable(d.microsecond, k) && s == FormatWithFraction(d, k))
      || (exists z :: ValidSuffix(z) && d.microsecond == 0 && s == FormatWithOffset(d, z))
  {
    if ParseWithFraction(s).Some? {
      FractionComplete(s);
    } else {
      OffsetComplete(s);
    }
  }

  lemma FractionComplete(s: string)
    requires ParseWithFraction(s).Some?
    ensures var d := ParseWithFraction(s).value;
      exists k :: 1 <= k <= 6 && Representable(d.microsecond, k) && s == FormatWithFraction(d, k)
  {
    var d := ParseWithFraction(s).value;
    var f := s[20..|s| - 1];
    var k := |f|;
    var c := ParseClock(s[..19]).value;
    ClockComplete(s[..19]);
    assert FormatClock(d) == FormatClock(c);
    FractionScaling(d.microsecond, Value(f), k);
    PadOfValue(f);
    assert s == s[..19] + "." + f + "Z";
    assert s == FormatWithFraction(d, k);
  }

  lemma OffsetComplete(s: string)
    requires ParseWithOffset(s).Some?
    ensures var zd := ParseWithOffset(s).value;
      ValidSuffix(zd.zone) && zd.local.microsecond == 0 && s == FormatWithOffset(zd.local, zd.zone)
  {
    var zd := ParseWithOffset(s).value;
    ClockComplete(s[..19]);
    SuffixComplete(s[19..]);
    assert s == s[..19] + s[19..];
  }

  /** No text matches both formats, so trying them in the other order would give the same results. */
  lemma FormatsDisjoint(s: string)
    ensures !(ParseWithFraction(s).Some? && ParseWithOffset(s).Some?)
  {
  }

  /** An out-of-range month fails both formats and raises. */
  lemma MonthThirteenRejected()
    ensures ParseDate("2023-13-01T10:00:00.000Z").Err?
    ensures ParseDate("2023-13-01T10:00:00+02:00").Err?
  {
    var a := "2023-13-01T10:00:00.000Z";
    var b := "2023-13-01T10:00:00+02:00";
    assert a[..19] == b[..19] == "2023-13-01T10:00:00";
    assert "2023-13-01T10:00:00"[5..7] == "13";
    assert Value("13") == 13 by {
      assert "13"[..1] == "1";
    }
  }
}
