/**
 Timestamps as texts: Go's `RFC3339Nano` layout, the JSON form of a time, and the
 strict reader of section 5.6 of RFC 3339 that Go's JSON decoder applies.
 */
module Rfc3339 {
  import opened Wrappers
  import opened Decimal
  import opened Calendar

  const SECOND: int := 1_000_000_000
  const MINUTE: int := 60_000_000_000

  /** An instant with the zone it was given in, as minutes east of UTC. */
  datatype Time = Time(instant: Instant, offset: int) {
    function Local(): Instant
    {
      instant + offset * MINUTE
    }

    function Utc(): Time
    {
      Time(instant, 0)
    }

    /** What `MarshalJSON` accepts: a four-digit local year and a zone below 24 hours. */
    predicate Printable()
    {
      FourDigitYear(Local()) && -1440 < offset < 1440
    }
  }

  // ---- Writing ----

  function FractionText(nanos: nat): string
  {
    if nanos == 0 then "" else "." + TrimZeros(Fixed(nanos, 9))
  }

  function ZoneText(offset: int): string
  {
    if offset == 0 then "Z"
    else
      var m: nat := if offset < 0 then -offset else offset;
      [if offset < 0 then '-' else '+'] + (Fixed(m / 60, 2) + (":" + (Fixed(m % 60, 2) + "")))
  }

  function TimeOfDayText(h: nat, m: nat, sec: nat, rest: string): string
  {
    "T" + (Fixed(h, 2) + (":" + (Fixed(m, 2) + (":" + (Fixed(sec, 2) + rest)))))
  }

  function SecondsText(sec: nat, rest: string): string
  {
    TimeOfDayText(sec / 3600, sec / 60 % 60, sec % 60, rest)
  }

  function ClockText(ns: nat, offset: int): string
  {
    SecondsText(ns / SECOND, FractionText(ns % SECOND) + ZoneText(offset))
  }

  function MonthDayText(month: nat, day: nat, rest: string): string
  {
    "-" + (Fixed(month, 2) + ("-" + (Fixed(day, 2) + rest)))
  }

  function Stamp(year: int, month: nat, day: nat, clock: string): string
  {
    YearText(year) + MonthDayText(month, day, clock)
  }

  function Rfc3339Nano(t: Time): string
  {
    var c := DateOf(DayOf(t.Local()));
    Stamp(c.year, c.month, c.day, ClockText(t.Local() % DAY, t.offset))
  }

  // ---- Reading ----

  /** A numeral of exactly `w` digits. */
  function Take(s: string, w: nat): (r: Option<(nat, string)>)
    ensures r.Some? ==> |s| >= w && s == s[..w] + r.value.1
  {
    if |s| >= w && AllDigits(s[..w]) then Some((Value(s[..w]), s[w..])) else None
  }

  function Skip(s: string, c: char): Option<string>
  {
    if s != [] && s[0] == c then Some(s[1..]) else None
  }

  /** A fraction of a second in nanoseconds; digits past the ninth are dropped. */
  function ReadFraction(s: string): Option<(nat, string)>
  {
    if s == [] || s[0] != '.' then Some((0, s))
    else
      var (f, rest) := Span(s[1..]);
      if f == [] then None
      else if |f| > 9 then Some((Scaled(f[..9], 9), rest))
      else Some((Scaled(f, 9), rest))
  }

  function ReadHourMinute(s: string): Option<(nat, string)>
  {
    var (h, s1) :- Take(s, 2);
    var s2 :- Skip(s1, ':');
    var (m, rest) :- Take(s2, 2);
    if h > 23 || m > 59 then None else Some((60 * h + m, rest))
  }

  function ReadZone(s: string): Option<(int, string)>
  {
    if s == [] then None
    else if s[0] == 'Z' then Some((0, s[1..]))
    else if s[0] != '+' && s[0] != '-' then None
    else
      var (m, rest) :- ReadHourMinute(s[1..]);
      Some((if s[0] == '-' then -(m as int) else m, rest))
  }

  /** `T15:04:05`, in seconds. */
  function ReadSeconds(s: string): Option<(nat, string)>
  {
    var s0 :- Skip(s, 'T');
    var (h, s1) :- Take(s0, 2);
    var s2 :- Skip(s1, ':');
    var (m, s3) :- Take(s2, 2);
    var s4 :- Skip(s3, ':');
    var (sec, rest) :- Take(s4, 2);
    if h > 23 || m > 59 || sec > 59 then None
    else Some((3600 * h + 60 * m + sec, rest))
  }

  function ReadClock(s: string): Option<(nat, int)>
  {
    var (sec, s0) :- ReadSeconds(s);
    var (frac, s1) :- ReadFraction(s0);
    var (offset, rest) :- ReadZone(s1);
    if rest == [] then Some((sec * SECOND + frac, offset)) else None
  }

  function ReadMonthDay(s: string): Option<(nat, nat, string)>
  {
    var s0 :- Skip(s, '-');
    var (month, s1) :- Take(s0, 2);
    var s2 :- Skip(s1, '-');
    var (day, rest) :- Take(s2, 2);
    Some((month, day, rest))
  }

  function ReadDate(s: string): Option<(Date, string)>
  {
    var (year, s0) :- Take(s, 4);
    var (month, day, rest) :- ReadMonthDay(s0);
    if ValidDate(Date(year, month, day)) then Some((Date(year, month, day), rest)) else None
  }

  /** `time.Parse("2006-01-02", s)`. */
  function ParseDate(s: string): Option<Date>
  {
    var (c, rest) :- ReadDate(s);
    if rest == [] then Some(c) else None
  }

  function ParseTime(s: string): Option<Time>
  {
    var (c, s0) :- ReadDate(s);
    var (ns, offset) :- ReadClock(s0);
    Some(Time(DaysOf(c) * DAY + ns - offset * MINUTE, offset))
  }

  // ---- Reading what was written ----

  lemma TakeFixed(n: nat, w: nat, rest: string)
    requires n < Pow10(w)
    ensures Take(Fixed(n, w) + rest, w) == Some((n, rest))
  {
    FixedValue(n, w);
    var s := Fixed(n, w) + rest;
    assert s[..w] == Fixed(n, w) && s[w..] == rest;
  }

  lemma SkipChar(c: char, rest: string)
    ensures Skip([c] + rest, c) == Some(rest)
  {
  }

  lemma ReadDottedFraction(f: string, zone: string)
    requires AllDigits(f) && |f| <= 9 && Scaled(f, 9) > 0
    requires zone != [] && !IsDigit(zone[0])
    ensures ReadFraction("." + (f + zone)) == Some((Scaled(f, 9), zone))
  {
    SpanSplits(f, zone);
    assert ("." + (f + zone))[1..] == f + zone;
    assert Value([]) == 0;
  }

  lemma NanosFraction(nanos: nat)
    requires nanos < SECOND
    ensures var f := TrimZeros(Fixed(nanos, 9));
      AllDigits(f) && |f| <= 9 && Scaled(f, 9) == nanos
  {
    assert Pow10(9) == 1_000_000_000 by {
      assert Pow10(3) == 1000 && Pow10(6) == 1000000;
    }
    hide Pow10, Fixed, TrimZeros, Value, Scaled;
    FixedValue(nanos, 9);
    TrimKeepsValue(Fixed(nanos, 9));
  }

  /** Digits past the ninth are dropped. */
  lemma LongFractionRead(f: string, more: string, zone: string)
    requires |f| == 9 && more != [] && AllDigits(f) && AllDigits(more) && zone != [] && !IsDigit(zone[0])
    ensures ReadFraction("." + (f + more + zone)) == Some((Value(f), zone))
  {
    hide Value;
    SpanSplits(f + more, zone);
    assert ("." + (f + more + zone))[1..] == f + more + zone && (f + more)[..9] == f;
    assert Pow10(0) == 1;
  }

  lemma ReadFractionText(nanos: nat, zone: string)
    requires nanos < SECOND
    requires zone != [] && !IsDigit(zone[0]) && zone[0] != '.'
    ensures ReadFraction(FractionText(nanos) + zone) == Some((nanos, zone))
  {
    hide Pow10, Fixed, TrimZeros, Scaled, Span;
    if nanos == 0 {
      assert FractionText(nanos) + zone == zone;
    } else {
      var f := TrimZeros(Fixed(nanos, 9));
      NanosFraction(nanos);
      assert FractionText(nanos) + zone == "." + (f + zone);
      hide ReadFraction;
      ReadDottedFraction(f, zone);
    }
  }

  lemma {:induction false} TrimmedEnd(s: string)
    ensures TrimZeros(s) != [] ==> TrimZeros(s)[|TrimZeros(s)| - 1] != '0'
  {
    if s != [] && s[|s| - 1] == '0' {
      TrimmedEnd(s[..|s| - 1]);
    }
  }

  /** A fraction reads as its nanoseconds and has no needless zeros; there is none for a whole second. */
  lemma FractionShape(nanos: nat)
    requires nanos < SECOND
    ensures nanos == 0 ==> FractionText(nanos) == ""
    ensures nanos > 0 ==>
      var f := FractionText(nanos);
      && 2 <= |f| <= 10 && f[0] == '.' && f[|f| - 1] != '0'
      && AllDigits(f[1..]) && Scaled(f[1..], 9) == nanos
  {
    if nanos > 0 {
      NanosFraction(nanos);
      TrimmedEnd(Fixed(nanos, 9));
      hide TrimZeros, Fixed;
      var f := TrimZeros(Fixed(nanos, 9));
      assert ("." + f)[1..] == f;
    }
  }

  lemma ReadHourMinuteText(h: nat, m: nat, rest: string)
    requires h <= 23 && m <= 59
    ensures ReadHourMinute(Fixed(h, 2) + (":" + (Fixed(m, 2) + rest))) == Some((60 * h + m, rest))
  {
    assert Pow10(2) == 100;
    hide Take, Skip, Fixed, Pow10;
    TakeFixed(h, 2, ":" + (Fixed(m, 2) + rest));
    SkipChar(':', Fixed(m, 2) + rest);
    TakeFixed(m, 2, rest);
  }

  lemma ReadZoneText(offset: int)
    requires -1440 < offset < 1440
    ensures ReadZone(ZoneText(offset)) == Some((offset, ""))
    ensures ZoneText(offset) != [] && !IsDigit(ZoneText(offset)[0]) && ZoneText(offset)[0] != '.'
  {
    hide ReadHourMinute, Fixed;
    var s := ZoneText(offset);
    if offset != 0 {
      var m: nat := if offset < 0 then -offset else offset;
      ReadHourMinuteText(m / 60, m % 60, "");
      assert s[1..] == Fixed(m / 60, 2) + (":" + (Fixed(m % 60, 2) + ""));
    } else {
      assert s[1..] == "";
    }
  }

  lemma ReadTimeOfDay(h: nat, m: nat, sec: nat, rest: string)
    requires h <= 23 && m <= 59 && sec <= 59
    ensures ReadSeconds(TimeOfDayText(h, m, sec, rest)) == Some((3600 * h + 60 * m + sec, rest))
  {
    assert Pow10(2) == 100;
    hide Take, Skip, Fixed, Pow10;
    var s4 := Fixed(sec, 2) + rest;
    var s2 := Fixed(m, 2) + (":" + s4);
    SkipChar('T', Fixed(h, 2) + (":" + s2));
    TakeFixed(h, 2, ":" + s2);
    SkipChar(':', s2);
    TakeFixed(m, 2, ":" + s4);
    SkipChar(':', s4);
    TakeFixed(sec, 2, rest);
  }

  lemma ReadClockText(ns: nat, offset: int)
    requires ns < DAY && -1440 < offset < 1440
    ensures ReadClock(ClockText(ns, offset)) == Some((ns, offset))
    ensures ClockText(ns, offset) != [] && ClockText(ns, offset)[0] == 'T'
  {
    hide ReadSeconds, ReadFraction, ReadZone, FractionText, ZoneText, Fixed;
    var n := ns / SECOND;
    var rest := FractionText(ns % SECOND) + ZoneText(offset);
    assert n == 3600 * (n / 3600) + 60 * (n / 60 % 60) + n % 60;
    ReadTimeOfDay(n / 3600, n / 60 % 60, n % 60, rest);
    ReadZoneText(offset);
    ReadFractionText(ns % SECOND, ZoneText(offset));
    assert ns == n * SECOND + ns % SECOND;
  }

  lemma ReadMonthDayText(month: nat, day: nat, rest: string)
    requires month < 100 && day < 100
    ensures ReadMonthDay(MonthDayText(month, day, rest)) == Some((month, day, rest))
  {
    assert Pow10(2) == 100;
    hide Take, Skip, Fixed, Pow10;
    SkipChar('-', Fixed(month, 2) + ("-" + (Fixed(day, 2) + rest)));
    TakeFixed(month, 2, "-" + (Fixed(day, 2) + rest));
    SkipChar('-', Fixed(day, 2) + rest);
    TakeFixed(day, 2, rest);
  }

  lemma ReadDateText(c: Date, rest: string)
    requires ValidDate(c) && 0 <= c.year <= 9999
    ensures ReadDate(Stamp(c.year, c.month, c.day, rest)) == Some((c, rest))
  {
    assert Pow10(4) == 10000;
    DateFields(c);
    hide Take, Fixed, ReadMonthDay, MonthDayText, Pow10;
    TakeFixed(c.year, 4, MonthDayText(c.month, c.day, rest));
    ReadMonthDayText(c.month, c.day, rest);
  }

  lemma ParseDateText(c: Date)
    requires ValidDate(c) && 0 <= c.year <= 9999
    ensures ParseDate(DateText(c)) == Some(c)
  {
    hide ReadDate, ValidDate, Fixed;
    DateFields(c);
    ReadDateText(c, "");
    assert Fixed(c.day, 2) + "" == Fixed(c.day, 2);
  }

  lemma ParseParts(s: string, c: Date, s0: string, ns: nat, t: Time)
    requires ReadDate(s) == Some((c, s0)) && ReadClock(s0) == Some((ns, t.offset))
    requires ValidDate(c) && DaysOf(c) * DAY + ns == t.Local()
    ensures ParseTime(s) == Some(t)
  {
    hide ReadDate, ReadClock, DaysOf, ValidDate;
  }

  lemma DayAndTime(t: Instant)
    ensures t == DayOf(t) * DAY + t % DAY && 0 <= t % DAY < DAY
  {
  }

  lemma ParseStamp(c: Date, ns: nat, t: Time)
    requires ValidDate(c) && 0 <= c.year <= 9999 && ns < DAY && -1440 < t.offset < 1440
    requires DaysOf(c) * DAY + ns == t.Local()
    ensures ParseTime(Stamp(c.year, c.month, c.day, ClockText(ns, t.offset))) == Some(t)
  {
    var clock := ClockText(ns, t.offset);
    ReadDateText(c, clock);
    ReadClockText(ns, t.offset);
    ParseParts(Stamp(c.year, c.month, c.day, clock), c, clock, ns, t);
  }

  lemma LocalParts(local: Instant)
    ensures DaysOf(DateOf(DayOf(local))) * DAY + local % DAY == local && 0 <= local % DAY < DAY
  {
    DaysOfDateOf(DayOf(local));
    DayAndTime(local);
  }

  /** A time survives being printed and read, zone and nanoseconds included. */
  lemma ParseTimeText(t: Time)
    requires t.Printable()
    ensures ParseTime(Rfc3339Nano(t)) == Some(t)
  {
    LocalParts(t.Local());
    ParseStamp(DateOf(DayOf(t.Local())), t.Local() % DAY, t);
  }

  // ---- Which times can be read ----

  lemma FractionBound(s: string)
    requires ReadFraction(s).Some?
    ensures ReadFraction(s).value.0 < SECOND
  {
    assert Pow10(9) == 1_000_000_000 by {
      assert Pow10(3) == 1000 && Pow10(6) == 1000000;
    }
    hide Pow10, Value, Scaled;
    if s != [] && s[0] == '.' {
      var f := Span(s[1..]).0;
      ScaledBound(if |f| > 9 then f[..9] else f, 9);
    }
  }

  lemma ClockBound(s: string)
    requires ReadClock(s).Some?
    ensures ReadClock(s).value.0 < DAY && -1440 < ReadClock(s).value.1 < 1440
  {
    SecondsBound(s);
    var s0 := ReadSeconds(s).value.1;
    FractionBound(s0);
    ZoneBound(ReadFraction(s0).value.1);
    hide ReadSeconds, ReadFraction, ReadZone;
  }

  lemma SecondsBound(s: string)
    requires ReadSeconds(s).Some?
    ensures ReadSeconds(s).value.0 < 86400
  {
    hide Take, Skip;
  }

  lemma ZoneBound(s: string)
    requires ReadZone(s).Some?
    ensures -1440 < ReadZone(s).value.0 < 1440
  {
    hide Take, Skip;
  }

  lemma DateBound(s: string)
    requires ReadDate(s).Some?
    ensures var c := ReadDate(s).value.0; ValidDate(c) && 0 <= c.year <= 9999
  {
    assert Pow10(4) == 10000;
    hide ReadMonthDay, ValidDate, Pow10;
    ValueFixed(s[..4]);
  }

  lemma DayOfDate(c: Date, ns: nat)
    requires ValidDate(c) && ns < DAY
    ensures DateOf(DayOf(DaysOf(c) * DAY + ns)) == c
  {
    hide DateOf, DaysOf, ValidDate;
    DateOfDaysOf(c);
  }

  /** Every time that is read can be printed: its local year has four digits. */
  lemma ParsedIsPrintable(s: string)
    requires ParseTime(s).Some?
    ensures ParseTime(s).value.Printable()
  {
    hide ReadDate, ReadClock, DaysOf, DateOf, DayOf, ValidDate;
    DateBound(s);
    var (c, s0) := ReadDate(s).value;
    ClockBound(s0);
    DayOfDate(c, ReadClock(s0).value.0);
    assert ParseTime(s).value.Local() == DaysOf(c) * DAY + ReadClock(s0).value.0;
  }

  lemma ZeroTimePrintable()
    ensures Time(0, 0).Printable()
  {
    EpochIsFirst();
    hide DaysOf, DateOf, DayOf, ValidDate;
    DayOfDate(Date(1, 1, 1), 0);
    assert Time(0, 0).Local() == 0;
  }

  /** In UTC such a time is in a year from -1 to 10000. */
  lemma PrintableYears(t: Time)
    requires t.Printable()
    ensures -1 <= YearAt(t.instant) <= 10000
  {
    hide YearOf, ValidDate, DaysBeforeYear;
    var d := DayOf(t.Local());
    assert d - 1 <= DayOf(t.instant) <= d + 1;
    NextDayYear(d - 1);
    NextDayYear(d);
    YearOfDate(d);
    YearOfDate(DayOf(t.instant));
  }

  lemma YearOfDate(d: int)
    ensures DateOf(d).year == YearOf(d)
  {
  }

  // ---- Distinct instants print differently, in any year ----

  /** The first `T` ends the date, wherever the year's digits put it. */
  lemma DateEndsAtT(y: int, month: nat, day: nat, clock: string)
    requires clock != [] && clock[0] == 'T'
    ensures var s := YearText(y) + MonthDayText(month, day, clock);
      && |s| > |YearText(y)| + 6
      && s[|YearText(y)| + 6] == 'T'
      && forall i :: 0 <= i < |YearText(y)| + 6 ==> s[i] != 'T'
  {
    YearTextValue(y);
    var a := MonthDayText(month, day, clock);
    assert a[1..3] == Fixed(month, 2) && a[4..6] == Fixed(day, 2) && a[6] == 'T';
    assert a[1] == a[1..3][0] && a[2] == a[1..3][1] && a[4] == a[4..6][0] && a[5] == a[4..6][1];
    var n := |YearText(y)|;
    forall i | 0 <= i < n ensures YearText(y)[i] != 'T' {
      if i > 0 { assert YearText(y)[i] == YearText(y)[1..][i - 1]; }
    }
  }

  lemma SplitAfterYear(y: int, a: string, z: int, b: string)
    requires YearText(y) + a == YearText(z) + b && |YearText(y)| == |YearText(z)|
    ensures y == z && a == b
  {
    var n, s := |YearText(y)|, YearText(y) + a;
    assert s[..n] == YearText(y) && s[n..] == a;
    assert s[..n] == YearText(z) && s[n..] == b;
    YearTextValue(y);
    YearTextValue(z);
  }

  lemma StampInjective(y: int, m: nat, d: nat, clock: string, z: int, k: nat, e: nat, other: string)
    requires m < 100 && d < 100 && k < 100 && e < 100
    requires clock != [] && clock[0] == 'T' && other != [] && other[0] == 'T'
    requires Stamp(y, m, d, clock) == Stamp(z, k, e, other)
    ensures y == z && m == k && d == e && clock == other
  {
    DateEndsAtT(y, m, d, clock);
    DateEndsAtT(z, k, e, other);
    SplitAfterYear(y, MonthDayText(m, d, clock), z, MonthDayText(k, e, other));
    ReadMonthDayText(m, d, clock);
    ReadMonthDayText(k, e, other);
  }

  lemma DatedInjective(c: Date, x: nat, a: Instant, e: Date, y: nat, b: Instant)
    requires ValidDate(c) && ValidDate(e) && x < DAY && y < DAY
    requires DaysOf(c) * DAY + x == a && DaysOf(e) * DAY + y == b
    requires Stamp(c.year, c.month, c.day, ClockText(x, 0)) == Stamp(e.year, e.month, e.day, ClockText(y, 0))
    ensures a == b
  {
    DateFields(c);
    DateFields(e);
    StampInjective(c.year, c.month, c.day, ClockText(x, 0), e.year, e.month, e.day, ClockText(y, 0));
    ReadClockText(x, 0);
    ReadClockText(y, 0);
  }

  lemma UtcText(a: Instant)
    ensures var c := DateOf(DayOf(a));
      Rfc3339Nano(Time(a, 0)) == Stamp(c.year, c.month, c.day, ClockText(a % DAY, 0))
  {
    assert Time(a, 0).Local() == a;
  }

  /** UTC timestamps are equal exactly for equal instants, in any year. */
  lemma UtcTextInjective(a: Instant, b: Instant)
    requires Rfc3339Nano(Time(a, 0)) == Rfc3339Nano(Time(b, 0))
    ensures a == b
  {
    UtcText(a);
    UtcText(b);
    LocalParts(a);
    LocalParts(b);
    DatedInjective(DateOf(DayOf(a)), a % DAY, a, DateOf(DayOf(b)), b % DAY, b);
  }
}
