/** The restricted ISO 8601 duration of serialization/duration.go (section 4.4.3.2 of ISO 8601-1,
    without fractional units other than seconds): eight integer fields, a normalisation that carries
    small units into larger ones, a `P…T…` renderer and a conversion to a fixed length in nanoseconds.
    The parser, which works on the Go regular expressions, is module DurationParsing. */
module Duration {
  import opened Wrappers
  import opened Text

  /** The eight fields of the `duration` struct, as a value. */
  datatype Fields = Fields(years: int, months: int, weeks: int, days: int,
                           hours: int, minutes: int, seconds: int, milliSeconds: int)

  const Zero := Fields(0, 0, 0, 0, 0, 0, 0, 0)

  const ErrBadFormat := Error("bad format string")
  const ErrWeeksNotWithYearsOrMonth := Error("weeks are not allowed with years or months")
  const ErrMonthsInDurationUseOverload :=
    Error("months are not allowed with the ToDuration method, use the overload instead")

  // The units of Go's time.Duration, in nanoseconds.
  const Second := 1_000_000_000
  const Minute := 60 * Second
  const Hour := 60 * Minute
  const Day := 24 * Hour

  predicate NonNegative(f: Fields) {
    f.years >= 0 && f.months >= 0 && f.weeks >= 0 && f.days >= 0
    && f.hours >= 0 && f.minutes >= 0 && f.seconds >= 0 && f.milliSeconds >= 0
  }

  // ---------------------------------------------------------------- normalize, one carry at a time
  // Factors: 1000 ms a second, 60 s a minute, 60 min an hour, 24 h a day, 7 days a week, 12 months a year.

  function CarryMilliSeconds(f: Fields): Fields {
    if f.milliSeconds >= 1000
    then f.(seconds := f.seconds + f.milliSeconds / 1000, milliSeconds := f.milliSeconds % 1000)
    else f
  }

  function CarrySeconds(f: Fields): Fields {
    if f.seconds >= 60 then f.(minutes := f.minutes + f.seconds / 60, seconds := f.seconds % 60) else f
  }

  function CarryMinutes(f: Fields): Fields {
    if f.minutes >= 60 then f.(hours := f.hours + f.minutes / 60, minutes := f.minutes % 60) else f
  }

  function CarryHours(f: Fields): Fields {
    if f.hours >= 24 then f.(days := f.days + f.hours / 24, hours := f.hours % 24) else f
  }

  /** Days become weeks only when there are neither months nor years. */
  function CarryDays(f: Fields): Fields {
    if f.days >= 7 && f.months == 0 && f.years == 0
    then f.(weeks := f.weeks + f.days / 7, days := f.days % 7)
    else f
  }

  /** Months become years only when there are strictly more than twelve. */
  function CarryMonths(f: Fields): Fields {
    if f.months > 12 then f.(years := f.years + f.months / 12, months := f.months % 12) else f
  }

  /** The fields as `normalize` leaves them, whether or not it then reports an error. */
  function Normalized(f: Fields): Fields {
    CarryMonths(CarryDays(CarryHours(CarryMinutes(CarrySeconds(CarryMilliSeconds(f))))))
  }

  predicate WeeksWithYearsOrMonths(f: Fields) {
    f.weeks != 0 && (f.years != 0 || f.months != 0)
  }

  /** What `normalize` returns. */
  function NormalizeError(f: Fields): Option<Error> {
    if WeeksWithYearsOrMonths(Normalized(f)) then Some(ErrWeeksNotWithYearsOrMonth) else None
  }

  // ---------------------------------------------------------------- what normalisation preserves

  /** The fixed-length part of a duration (weeks and smaller units) in milliseconds. */
  function FixedMillis(f: Fields): int {
    f.milliSeconds + 1000 * (f.seconds + 60 * (f.minutes + 60 * (f.hours + 24 * (f.days + 7 * f.weeks))))
  }

  /** The calendar part of a duration (years and months) in months. */
  function CalendarMonths(f: Fields): int {
    f.months + 12 * f.years
  }

  predicate SameLength(f: Fields, g: Fields) {
    FixedMillis(f) == FixedMillis(g) && CalendarMonths(f) == CalendarMonths(g)
  }

  lemma DivMod(x: int, k: int)
    requires k > 0
    ensures x == k * (x / k) + x % k
  {
  }

  lemma CarryMilliSecondsExact(f: Fields)
    ensures SameLength(CarryMilliSeconds(f), f)
  {
    DivMod(f.milliSeconds, 1000);
  }

  lemma CarrySecondsExact(f: Fields)
    ensures SameLength(CarrySeconds(f), f)
  {
    DivMod(f.seconds, 60);
  }

  lemma CarryMinutesExact(f: Fields)
    ensures SameLength(CarryMinutes(f), f)
  {
    DivMod(f.minutes, 60);
  }

  lemma CarryHoursExact(f: Fields)
    ensures SameLength(CarryHours(f), f)
  {
    DivMod(f.hours, 24);
  }

  lemma CarryDaysExact(f: Fields)
    ensures SameLength(CarryDays(f), f)
  {
    DivMod(f.days, 7);
  }

  lemma CarryMonthsExact(f: Fields)
    ensures SameLength(CarryMonths(f), f)
  {
    DivMod(f.months, 12);
  }

  /** Every carry is exact: normalisation changes neither the fixed-length part nor the calendar part. */
  lemma NormalizePreservesLength(f: Fields)
    ensures FixedMillis(Normalized(f)) == FixedMillis(f)
    ensures CalendarMonths(Normalized(f)) == CalendarMonths(f)
  {
    var f1 := CarryMilliSeconds(f);
    var f2 := CarrySeconds(f1);
    var f3 := CarryMinutes(f2);
    var f4 := CarryHours(f3);
    var f5 := CarryDays(f4);
    CarryMilliSecondsExact(f);
    CarrySecondsExact(f1);
    CarryMinutesExact(f2);
    CarryHoursExact(f3);
    CarryDaysExact(f4);
    CarryMonthsExact(f5);
  }

  /** For non-negative fields every unit below a day is in range afterwards, months never exceed twelve,
      and days are below a week unless months or years blocked the carry. */
  lemma NormalizeBounds(f: Fields)
    requires NonNegative(f)
    ensures var n := Normalized(f);
      && NonNegative(n)
      && n.milliSeconds < 1000 && n.seconds < 60 && n.minutes < 60 && n.hours < 24
      && n.months <= 12
      && (f.months == 0 && f.years == 0 ==> n.days < 7)
  {
  }

  /** Weeks are never carried into anything: they only grow, by the days carried into them,
      and not at all when there are months or years. */
  lemma NormalizeWeeks(f: Fields)
    ensures f.days >= 0 && f.hours >= 0 ==> Normalized(f).weeks >= f.weeks
    ensures f.months != 0 || f.years != 0 ==> Normalized(f).weeks == f.weeks && Normalized(f).days >= f.days
  {
  }

  /** The month carry is strict: twelve months stay twelve months, thirteen become a year and a month. */
  lemma MonthCarryIsStrict(f: Fields)
    ensures f.months == 12 ==> Normalized(f).months == 12 && Normalized(f).years == f.years
    ensures f.months == 13 ==> Normalized(f).months == 1 && Normalized(f).years == f.years + 1
  {
  }

  /** For non-negative fields the error depends only on the input: weeks together with years or months. */
  lemma NormalizeErrorOfInput(f: Fields)
    requires NonNegative(f)
    ensures NormalizeError(f).Some? <==> f.weeks != 0 && (f.years != 0 || f.months != 0)
  {
    var n := Normalized(f);
    if f.months > 12 {
      assert n.years >= 1;
    }
  }

  /** Normalising twice is normalising once, for non-negative fields (error or not). */
  lemma NormalizeIdempotent(f: Fields)
    requires NonNegative(f)
    ensures Normalized(Normalized(f)) == Normalized(f)
    ensures NormalizeError(Normalized(f)) == NormalizeError(f)
  {
    NormalizeBounds(f);
    var n := Normalized(f);
    if f.months > 12 {
      assert n.years >= 1;
    }
  }

  /** With negative years the month carry can clear the calendar part after the day carry was skipped,
      so a second pass then carries days into weeks: idempotence needs non-negative fields. */
  lemma NormalizeNotIdempotentForNegativeYears()
    ensures var f := Zero.(years := -2, months := 24, days := 10);
      && Normalized(f) == Zero.(days := 10)
      && Normalized(Normalized(f)) == Zero.(weeks := 1, days := 3)
  {
    var f := Zero.(years := -2, months := 24, days := 10);
    assert CarryHours(CarryMinutes(CarrySeconds(CarryMilliSeconds(f)))) == f;
    assert CarryDays(f) == f;
    assert 24 / 12 == 2 && 24 % 12 == 0;
    var g := Zero.(days := 10);
    assert CarryHours(CarryMinutes(CarrySeconds(CarryMilliSeconds(g)))) == g;
    assert 10 / 7 == 1 && 10 % 7 == 3;
  }

  // ---------------------------------------------------------------- rendering

  /** `fmt.Sprintf("%d<unit>", n)` when `n` is positive, nothing otherwise. */
  function Part(n: int, unit: char): string {
    if n > 0 then Decimal(n) + [unit] else ""
  }

  /** `hasTimePart`. */
  predicate HasTimePart(f: Fields) {
    f.hours != 0 || f.minutes != 0 || f.seconds != 0
  }

  /** The text `string` writes for already normalised fields: `P`, the positive date units in the order
      years, months, weeks, days, then `T` and the positive time units if there is a time part.
      Milliseconds are never written. */
  function Render(f: Fields): string {
    "P" + DateText(f) + (if HasTimePart(f) then "T" + TimeText(f) else "")
  }

  lemma PartShape(n: int, unit: char)
    ensures Part(n, unit) == "" || (|Part(n, unit)| >= 2 && AllDigits(Part(n, unit)[..|Part(n, unit)| - 1])
                                     && Part(n, unit)[|Part(n, unit)| - 1] == unit)
    ensures forall c :: c in Part(n, unit) ==> IsDigit(c) || c == unit
  {
    if n > 0 {
      var d := Decimal(n);
      assert Part(n, unit)[..|Part(n, unit)| - 1] == d;
      forall c | c in Part(n, unit) ensures IsDigit(c) || c == unit {
        var k :| 0 <= k < |Part(n, unit)| && Part(n, unit)[k] == c;
        if k < |d| { assert c == d[k]; }
      }
    }
  }

  /** The date units of the rendered text. */
  function DateText(f: Fields): string {
    Part(f.years, 'Y') + Part(f.months, 'M') + Part(f.weeks, 'W') + Part(f.days, 'D')
  }

  /** The time units of the rendered text, after the `T`. */
  function TimeText(f: Fields): string {
    Part(f.hours, 'H') + Part(f.minutes, 'M') + Part(f.seconds, 'S')
  }

  lemma PartLacks(n: int, unit: char, l: char)
    requires !IsDigit(l) && l != unit
    ensures l !in Part(n, unit)
  {
    PartShape(n, unit);
  }

  /** Neither the date units nor the time units contain a designator other than their units. */
  lemma TextsLack(f: Fields, l: char)
    requires l == 'T' || l == 'P'
    ensures l !in DateText(f) && l !in TimeText(f)
  {
    PartLacks(f.years, 'Y', l);
    PartLacks(f.months, 'M', l);
    PartLacks(f.weeks, 'W', l);
    PartLacks(f.days, 'D', l);
    PartLacks(f.hours, 'H', l);
    PartLacks(f.minutes, 'M', l);
    PartLacks(f.seconds, 'S', l);
  }

  /** The rendered text has a `T` exactly when the fields have a time part; it starts with `P` and has no
      other `P`. */
  lemma RenderDesignators(f: Fields)
    ensures |Render(f)| >= 1 && Render(f)[0] == 'P' && 'P' !in Render(f)[1..]
    ensures 'T' in Render(f) <==> HasTimePart(f)
  {
    TextsLack(f, 'T');
    TextsLack(f, 'P');
    Designators(DateText(f), TimeText(f), HasTimePart(f));
  }

  lemma Designators(date: string, time: string, t: bool)
    requires 'P' !in date && 'T' !in date && 'P' !in time && 'T' !in time
    ensures var s := "P" + date + (if t then "T" + time else "");
      |s| >= 1 && s[0] == 'P' && 'P' !in s[1..] && ('T' in s <==> t)
  {
    var tail := if t then "T" + time else "";
    var s := "P" + date + tail;
    assert s[1..] == date + tail;
    if t {
      assert s[1 + |date|] == 'T';
    }
  }

  /** The normalisations exercised by the package's own tests. */
  lemma NormalizeExamples()
    ensures Normalized(Zero.(milliSeconds := 1001)) == Zero.(seconds := 1, milliSeconds := 1)
    ensures Normalized(Zero.(seconds := 61)) == Zero.(minutes := 1, seconds := 1)
    ensures Normalized(Zero.(minutes := 61)) == Zero.(hours := 1, minutes := 1)
    ensures Normalized(Zero.(hours := 25)) == Zero.(days := 1, hours := 1)
    ensures Normalized(Zero.(days := 8)) == Zero.(weeks := 1, days := 1)
    ensures Normalized(Zero.(weeks := 56)) == Zero.(weeks := 56)
    ensures Normalized(Zero.(months := 2, days := 15)) == Zero.(months := 2, days := 15)
    ensures Normalized(Zero.(months := 13)) == Zero.(years := 1, months := 1)
    ensures NormalizeError(Zero.(months := 13, weeks := 10)) == Some(ErrWeeksNotWithYearsOrMonth)
    ensures NormalizeError(Zero.(years := 13, weeks := 10)) == Some(ErrWeeksNotWithYearsOrMonth)
  {
    assert 1001 / 1000 == 1 && 1001 % 1000 == 1;
    assert 61 / 60 == 1 && 61 % 60 == 1;
    assert 25 / 24 == 1 && 25 % 24 == 1;
    assert 8 / 7 == 1 && 8 % 7 == 1;
    assert 13 / 12 == 1 && 13 % 12 == 1;
  }

  /** The texts the package's tests expect for the normalised values with a time part. */
  lemma RenderExamples()
    ensures Render(Zero.(seconds := 1, milliSeconds := 1)) == "PT1S"
    ensures Render(Zero.(minutes := 1, seconds := 1)) == "PT1M1S"
    ensures Render(Zero.(hours := 1, minutes := 1)) == "PT1H1M"
    ensures Render(Zero.(days := 1, hours := 1)) == "P1DT1H"
  {
    assert Decimal(1) == "1";
  }

  /** The texts the package's tests expect for the normalised values with only date units. */
  lemma RenderDateExamples()
    ensures Render(Zero.(weeks := 1, days := 1)) == "P1W1D"
    ensures Render(Zero.(weeks := 56)) == "P56W"
    ensures Render(Zero.(months := 2, days := 15)) == "P2M15D"
    ensures Render(Zero.(years := 1, months := 1)) == "P1Y1M"
  {
    assert Decimal(1) == "1";
    assert Decimal(2) == "2";
    assert Decimal(15) == "15";
    assert Decimal(56) == "56" by { assert Decimal(5) == "5"; }
  }

  // ---------------------------------------------------------------- fixed length

  /** What `toDurationWithMonths(daysInAMonth)` adds up for normalised fields, in nanoseconds:
      365-day years, `daysInAMonth`-day months, 7-day weeks, then days, hours, minutes and seconds. */
  function LengthNanos(f: Fields, daysInAMonth: int): int {
    Day * 365 * f.years + Day * daysInAMonth * f.months + Day * 7 * f.weeks + Day * f.days
    + Hour * f.hours + Minute * f.minutes + Second * f.seconds
  }

  /** For non-negative fields the fixed length is the whole seconds of the input's fixed-length part
      (the milliseconds below a second are dropped) plus the normalised calendar part. */
  lemma LengthDropsMilliSeconds(f: Fields, daysInAMonth: int)
    requires NonNegative(f)
    ensures var n := Normalized(f);
      LengthNanos(n, daysInAMonth)
      == Second * (FixedMillis(f) / 1000) + Day * (365 * n.years + daysInAMonth * n.months)
  {
    var n := Normalized(f);
    NormalizePreservesLength(f);
    NormalizeBounds(f);
    var whole := n.seconds + 60 * (n.minutes + 60 * (n.hours + 24 * (n.days + 7 * n.weeks)));
    assert FixedMillis(f) == 1000 * whole + n.milliSeconds;
    assert FixedMillis(f) / 1000 == whole;
    CalendarScale(n.years, n.months, daysInAMonth);
  }

  lemma CalendarScale(y: int, m: int, k: int)
    ensures Day * 365 * y + Day * k * m == Day * (365 * y + k * m)
  {
  }

  // ---------------------------------------------------------------- the struct

  /** Appending four pieces one at a time is appending their concatenation. */
  lemma Regroup(a: string, b: string, c: string, d: string, e: string)
    ensures a + b + c + d + e == a + (b + c + d + e)
  {
  }

  /** Appending three pieces one at a time is appending their concatenation. */
  lemma Regroup3(a: string, b: string, c: string, d: string)
    ensures a + b + c + d == a + (b + c + d)
  {
  }

  /** The appends of `string` after normalising: `P`, the date units, then `T` and the time units
      if there is a time part. */
  method WriteText(f: Fields) returns (s: string)
    ensures s == Render(f)
  {
    // Each `Part` is one `if d.<unit> > 0 { s += fmt.Sprintf("%d<unit>", …) }`.
    var y, mo, w, d := Part(f.years, 'Y'), Part(f.months, 'M'), Part(f.weeks, 'W'), Part(f.days, 'D');
    s := "P";
    s := s + y;
    s := s + mo;
    s := s + w;
    s := s + d;
    Regroup("P", y, mo, w, d);
    if f.hours != 0 || f.minutes != 0 || f.seconds != 0 {
      var h, mi, se := Part(f.hours, 'H'), Part(f.minutes, 'M'), Part(f.seconds, 'S');
      var t := "T";
      t := t + h;
      t := t + mi;
      t := t + se;
      Regroup3("T", h, mi, se);
      s := s + t;
    }
  }

  /** The `duration` struct; its methods have pointer receivers and update the fields in place. */
  class Duration {
    var years: int
    var months: int
    var weeks: int
    var days: int
    var hours: int
    var minutes: int
    var seconds: int
    var milliSeconds: int

    function Value(): Fields
      reads this
    {
      Fields(years, months, weeks, days, hours, minutes, seconds, milliSeconds)
    }

    constructor (f: Fields)
      ensures Value() == f
    {
      years, months, weeks, days := f.years, f.months, f.weeks, f.days;
      hours, minutes, seconds, milliSeconds := f.hours, f.minutes, f.seconds, f.milliSeconds;
    }

    // The six carries of `normalize`, each in place.

    method CarryMilliSecondsInPlace()
      modifies this
      ensures Value() == CarryMilliSeconds(old(Value()))
    {
      if milliSeconds >= 1000 {
        seconds := seconds + milliSeconds / 1000;
        milliSeconds := milliSeconds % 1000;
      }
    }

    method CarrySecondsInPlace()
      modifies this
      ensures Value() == CarrySeconds(old(Value()))
    {
      if seconds >= 60 {
        minutes := minutes + seconds / 60;
        seconds := seconds % 60;
      }
    }

    method CarryMinutesInPlace()
      modifies this
      ensures Value() == CarryMinutes(old(Value()))
    {
      if minutes >= 60 {
        hours := hours + minutes / 60;
        minutes := minutes % 60;
      }
    }

    method CarryHoursInPlace()
      modifies this
      ensures Value() == CarryHours(old(Value()))
    {
      if hours >= 24 {
        days := days + hours / 24;
        hours := hours % 24;
      }
    }

    method CarryDaysInPlace()
      modifies this
      ensures Value() == CarryDays(old(Value()))
    {
      if days >= 7 && months == 0 && years == 0 {
        weeks := weeks + days / 7;
        days := days % 7;
      }
    }

    method CarryMonthsInPlace()
      modifies this
      ensures Value() == CarryMonths(old(Value()))
    {
      if months > 12 {
        years := years + months / 12;
        months := months % 12;
      }
    }

    /** `normalize`: the carries are written to the fields before the weeks check, so they stay even
        when the error is returned. */
    method Normalize() returns (err: Option<Error>)
      modifies this
      ensures Value() == Normalized(old(Value()))
      ensures err == NormalizeError(old(Value()))
    {
      CarryMilliSecondsInPlace();
      CarrySecondsInPlace();
      CarryMinutesInPlace();
      CarryHoursInPlace();
      CarryDaysInPlace();
      CarryMonthsInPlace();
      if weeks != 0 && (years != 0 || months != 0) {
        return Some(ErrWeeksNotWithYearsOrMonth);
      }
      return None;
    }

    /** `string`: normalises, then writes the text. A `Failure` stands for the panic with the
        normalisation error. */
    method String() returns (r: Result<string, Error>)
      modifies this
      ensures Value() == Normalized(old(Value()))
      ensures r == if NormalizeError(old(Value())).Some? then Failure(ErrWeeksNotWithYearsOrMonth)
                   else Success(Render(Value()))
    {
      var err := Normalize();
      if err.Some? {
        return Failure(err.value);
      }
      var s := WriteText(Value());
      return Success(s);
    }

    /** `toDurationWithMonths`: normalises (in place), then adds up the fixed length; on a normalisation
        error the length is 0. */
    method ToDurationWithMonths(daysInAMonth: int) returns (nanos: int, err: Option<Error>)
      modifies this
      ensures Value() == Normalized(old(Value()))
      ensures err == NormalizeError(old(Value()))
      ensures nanos == if err.Some? then 0 else LengthNanos(Value(), daysInAMonth)
    {
      var day := Hour * 24;
      var year := day * 365;
      var month := day * daysInAMonth;
      var tot := 0;
      err := Normalize();
      if err.Some? {
        return tot, err;
      }
      tot := tot + year * years;
      tot := tot + month * months;
      tot := tot + day * 7 * weeks;
      tot := tot + day * days;
      tot := tot + Hour * hours;
      tot := tot + Minute * minutes;
      tot := tot + Second * seconds;
      return tot, None;
    }

    /** `toDuration`: refuses months before touching anything, otherwise counts months as 31 days. */
    method ToDuration() returns (nanos: int, err: Option<Error>)
      modifies this
      ensures old(months) != 0 ==> nanos == 0 && err == Some(ErrMonthsInDurationUseOverload) && Value() == old(Value())
      ensures old(months) == 0 ==>
        && Value() == Normalized(old(Value()))
        && err == NormalizeError(old(Value()))
        && nanos == (if err.Some? then 0 else LengthNanos(Value(), 31))
    {
      if months != 0 {
        return 0, Some(ErrMonthsInDurationUseOverload);
      }
      nanos, err := ToDurationWithMonths(31);
    }
  }
}
