/** `TimeOnly` of serialization/time_only.go: a time of day with the number of fraction digits it is
    written with, the `HH:MM:SS[.f…]` formatter and parser over the ten layouts `15:04:05`,
    `15:04:05.0`, …, `15:04:05.000000000`, and the construction from a `time.Time`.

    Parsing is modelled with the reading Go's `time.Parse` gives these layouts: `15` is an hour of one
    or two digits, `04` and `05` exactly two digits, and a layout fraction `.0…0` of `p` digits takes a
    `.` or `,` followed by `p` characters that Go's `atoi` accepts (an optional sign, then digits). The
    layout without a fraction still takes a `,` or `.` followed by digits after the seconds. `strict`
    selects the reading of partial-time in section 5.6 of RFC 3339 instead: two-digit hours, and only
    `.` followed by digits. */
module TimeOfDay {
  import opened Wrappers
  import opened Text

  /** `len(timeOnlyParsingFormats) - 1`: the layouts cover precisions 0 to 9. */
  const MaxPrecision := 9

  const NanosPerSecond := 1_000_000_000

  /** The clock part of a `time.Time`. */
  datatype Clock = Clock(hour: nat, minute: nat, second: nat, nanosecond: nat)

  predicate ValidClock(c: Clock) {
    c.hour < 24 && c.minute < 60 && c.second < 60 && c.nanosecond < NanosPerSecond
  }

  type Time = c: Clock | ValidClock(c) witness Clock(0, 0, 0, 0)

  /** The `TimeOnly` struct: the time and the number of decimal places kept for its nanoseconds. */
  datatype TimeOnly = TimeOnly(time: Time, precision: int)

  /** The errors of `ParseTimeOnly`. `time.Parse`'s own messages are not modelled. */
  datatype TimeError = PrecisionExceeded(precision: nat) | LayoutMismatch

  function PrecisionMessage(precision: nat): string {
    "time precision of " + Decimal(precision) + " exceeds maximum allowed of " + Decimal(MaxPrecision)
  }

  // ---------------------------------------------------------------- formatting

  /** `Format` with the layout of precision `p`: two-digit hour, minute and second, then for `p > 0` a
      `.` and the first `p` of the nine zero-padded nanosecond digits (the rest are cut off, not rounded). */
  function Format(t: Time, p: nat): (r: string)
    requires p <= MaxPrecision
    ensures |r| == 8 + (if p == 0 then 0 else 1 + p)
  {
    Padded(t.hour, 2) + MinuteText(t.minute, t.second, FractionText(t.nanosecond, p))
  }

  /** `:MM:SS` followed by `tail`. */
  function MinuteText(minute: nat, second: nat, tail: string): (r: string)
    requires minute < 60 && second < 60
    ensures |r| == 6 + |tail|
  {
    ":" + Padded(minute, 2) + SecondText(second, tail)
  }

  /** `:SS` followed by `tail`. */
  function SecondText(second: nat, tail: string): (r: string)
    requires second < 60
    ensures |r| == 3 + |tail|
  {
    ":" + Padded(second, 2) + tail
  }

  function FractionText(ns: nat, p: nat): (r: string)
    requires ns < NanosPerSecond && p <= MaxPrecision
    ensures |r| == if p == 0 then 0 else 1 + p
  {
    if p == 0 then "" else "." + Padded(ns, 9)[..p]
  }

  /** `String`: the layout of the time's precision, `HH:MM:SS` and for a precision `p > 0` a `.` and `p`
      digits; a precision without a layout looks up the empty layout, which formats as nothing. */
  function String(t: TimeOnly): (r: string)
    ensures 0 <= t.precision <= MaxPrecision ==> |r| == 8 + (if t.precision == 0 then 0 else 1 + t.precision)
    ensures 0 <= t.precision <= MaxPrecision ==> r[2] == ':' && r[5] == ':' && (t.precision > 0 ==> r[8] == '.')
    ensures !(0 <= t.precision <= MaxPrecision) ==> r == ""
  {
    if t.precision == 0 then Format(t.time, 0)
    else if 0 < t.precision <= MaxPrecision then Format(t.time, t.precision)
    else ""
  }

  // ---------------------------------------------------------------- parsing

  /** `getnum`: two digits, or one digit not followed by a digit unless `fixed`. */
  function GetNum(s: string, fixed: bool): (r: Option<(nat, string)>)
    ensures r.Some? ==> r.value.0 < 100 && |r.value.1| < |s|
  {
    if |s| == 0 || !IsDigit(s[0]) then None
    else if |s| == 1 || !IsDigit(s[1]) then (if fixed then None else Some((DigitValue(s[0]), s[1..])))
    else Some((10 * DigitValue(s[0]) + DigitValue(s[1]), s[2..]))
  }

  /** Go's `atoi` as `time.Parse` uses it: an optional sign, then nothing but digits. */
  function Atoi(s: string): (r: Option<int>)
    ensures r.Some? && r.value >= 0 ==> r.value < Pow10(|s|)
  {
    var signed := |s| > 0 && (s[0] == '-' || s[0] == '+');
    var digits := if signed then s[1..] else s;
    if AllDigits(digits) then
      DecimalValueBound(digits);
      var v: int := DecimalValue(digits);
      Some(if signed && s[0] == '-' then -v else v)
    else None
  }

  predicate IsSeparator(c: char) {
    c == '.' || c == ','
  }

  lemma ScaledBound(v: nat, p: nat)
    requires v < Pow10(p) && p <= MaxPrecision
    ensures v * Pow10(MaxPrecision - p) < NanosPerSecond
  {
    Pow10Add(p, MaxPrecision - p);
    var m := Pow10(MaxPrecision - p);
    assert Pow10(MaxPrecision) == NanosPerSecond;
    assert (Pow10(p) - v) * m >= m by { MulAtLeast(Pow10(p) - v, m); }
  }

  /** The nanoseconds of the fraction text `f` taken as `|f|` decimal places. */
  function Scaled(f: string): (ns: nat)
    requires AllDigits(f) && |f| <= MaxPrecision
    ensures ns < NanosPerSecond
  {
    DecimalValueBound(f);
    ScaledBound(DecimalValue(f), |f|);
    DecimalValue(f) * Pow10(MaxPrecision - |f|)
  }

  /** The layout without a fraction, after the seconds, as `time.Parse` reads it: nothing, or a
      separator and digits that are all consumed, of which the first nine are used. */
  function OmittedFraction(r: string): (ns: Option<nat>)
    ensures ns.Some? ==> ns.value < NanosPerSecond
  {
    if r == "" then Some(0)
    else if |r| >= 2 && IsSeparator(r[0]) && IsDigit(r[1]) && AllDigits(r[1..]) then
      var d := r[1..if |r| < 10 then |r| else 10];
      Some(Scaled(d))
    else None
  }

  /** The layout fraction of `p` digits as `time.Parse` reads it: a separator and `p` characters that
      `atoi` reads as a number that is not negative. */
  function LayoutFraction(r: string, p: nat): (ns: Option<nat>)
    requires 0 < p <= MaxPrecision
    ensures ns.Some? ==> ns.value < NanosPerSecond
  {
    if |r| != 1 + p || !IsSeparator(r[0]) then None
    else match Atoi(r[1..])
      case None => None
      case Some(v) =>
        if v < 0 then None
        else
          ScaledBound(v, p);
          Some(v * Pow10(MaxPrecision - p))
  }

  /** The fraction of partial-time in section 5.6 of RFC 3339, held to `p` digits. */
  function StrictFraction(r: string, p: nat): (ns: Option<nat>)
    requires p <= MaxPrecision
    ensures ns.Some? ==> ns.value < NanosPerSecond
  {
    if p == 0 then (if r == "" then Some(0) else None)
    else if |r| == 1 + p && r[0] == '.' && AllDigits(r[1..]) then Some(Scaled(r[1..]))
    else None
  }

  /** What the layout of precision `p` reads after the seconds: the nanoseconds, if the rest of the
      text is accepted. */
  function Fraction(r: string, p: nat, strict: bool): (ns: Option<nat>)
    requires p <= MaxPrecision
    ensures ns.Some? ==> ns.value < NanosPerSecond
  {
    if strict then StrictFraction(r, p)
    else if p == 0 then OmittedFraction(r)
    else LayoutFraction(r, p)
  }

  /** `getnum` followed by the range check of its field. */
  function Field(s: string, fixed: bool, bound: nat): (r: Option<(nat, string)>)
    ensures r.Some? ==> r.value.0 < bound && |r.value.1| < |s|
  {
    match GetNum(s, fixed)
    case None => None
    case Some((n, rest)) => if n < bound then Some((n, rest)) else None
  }

  /** `time.Parse(timeOnlyParsingFormats[p], s)`, reduced to the clock it reads: the hour, ... */
  function ParseClock(s: string, p: nat, strict: bool): Option<Time>
    requires p <= MaxPrecision
  {
    match Field(s, strict, 24)
    case None => None
    case Some((hour, r)) => ParseMinute(hour, r, p, strict)
  }

  /** ... then `:` and the minute, ... */
  function ParseMinute(hour: nat, r: string, p: nat, strict: bool): Option<Time>
    requires hour < 24 && p <= MaxPrecision
  {
    if |r| == 0 || r[0] != ':' then None
    else match Field(r[1..], true, 60)
      case None => None
      case Some((minute, r')) => ParseSecond(hour, minute, r', p, strict)
  }

  /** ... then `:`, the second and the fraction, with nothing left over. */
  function ParseSecond(hour: nat, minute: nat, r: string, p: nat, strict: bool): Option<Time>
    requires hour < 24 && minute < 60 && p <= MaxPrecision
  {
    if |r| == 0 || r[0] != ':' then None
    else match Field(r[1..], true, 60)
      case None => None
      case Some((second, r')) =>
        match Fraction(r', p, strict)
        case None => None
        case Some(ns) => Some(Clock(hour, minute, second, ns))
  }

  /** `strings.Split(s, ".")[1]`: the text between the first `.` and the next one. */
  function AfterFirstDot(s: string): (seg: string)
    requires '.' in s
    ensures '.' !in seg
  {
    var rest := s[IndexOf(s, '.') + 1..];
    if '.' in rest then rest[..IndexOf(rest, '.')] else rest
  }

  /** The precision `ParseTimeOnly` detects: the length in bytes of the text after the first `.`, up to
      the next one. */
  function DetectedPrecision(s: string): nat {
    if '.' in s then Utf8Length(AfterFirstDot(s)) else 0
  }

  /** `ParseTimeOnly`: `None` stands for the nil result of a blank string. */
  function ParseWith(s: string, strict: bool): (r: Result<Option<TimeOnly>, TimeError>)
    ensures r.Success? && r.value.Some? ==> r.value.value.precision == DetectedPrecision(TrimSpace(s))
    ensures r == Success(None) <==> IsBlank(s)
    ensures r.Failure? && r.error.PrecisionExceeded? <==> !IsBlank(s) && DetectedPrecision(TrimSpace(s)) > MaxPrecision
  {
    var t := TrimSpace(s);
    if t == "" then Success(None)
    else
      var p := DetectedPrecision(t);
      if p > MaxPrecision then Failure(PrecisionExceeded(p))
      else match ParseClock(t, p, strict)
      case None => Failure(LayoutMismatch)
      case Some(c) => Success(Some(TimeOnly(c, p)))
  }

  /** `ParseTimeOnly` as written, with `time.Parse`'s reading of the layouts. */
  function ParseTimeOnlyAsWritten(s: string): Result<Option<TimeOnly>, TimeError> {
    ParseWith(s, false)
  }

  /** `ParseTimeOnly` with the strict reading of RFC 3339 partial-time. */
  function ParseTimeOnlyStrict(s: string): Result<Option<TimeOnly>, TimeError> {
    ParseWith(s, true)
  }

  // ---------------------------------------------------------------- construction

  /** `strings.TrimRight(s, "0")`. */
  function TrimTrailingZeros(s: string): (r: string)
    ensures |r| <= |s| && r == s[..|r|]
    ensures forall k | |r| <= k < |s| :: s[k] == '0'
    ensures r == [] || r[|r| - 1] != '0'
  {
    if s == [] || s[|s| - 1] != '0' then s
    else
      var r := TrimTrailingZeros(s[..|s| - 1]);
      assert s[..|s| - 1][..|r|] == s[..|r|];
      r
  }

  /** The precision `NewTimeOnly` gives a time: the nanosecond digits up to the last non-zero one. */
  function NanosPrecision(ns: nat): nat
    requires ns < NanosPerSecond
  {
    if ns > 0 then |TrimTrailingZeros(Padded(ns, 9))| else 0
  }

  /** `NewTimeOnly`: the time with the fewest decimal places that lose none of its nanoseconds, `q`
      places keeping them all exactly when `q` is at least that precision. */
  function NewTimeOnly(t: Time): (r: TimeOnly)
    ensures r.time == t && 0 <= r.precision <= MaxPrecision
    ensures forall q: nat | q <= MaxPrecision :: TruncatedNanos(t.nanosecond, q) == t.nanosecond <==> q >= r.precision
  {
    NanosPrecisionMinimal(t.nanosecond);
    TimeOnly(t, NanosPrecision(t.nanosecond))
  }

  // ---------------------------------------------------------------- truncation

  /** The nanoseconds `p` decimal places keep: the digits after the `p`-th are cut off. */
  function TruncatedNanos(ns: nat, p: nat): (r: nat)
    requires ns < NanosPerSecond && p <= MaxPrecision
    ensures r <= ns
  {
    var m := Pow10(MaxPrecision - p);
    RoundDown(ns, m);
    ns / m * m
  }

  function Truncated(t: Time, p: nat): Time
    requires p <= MaxPrecision
  {
    Clock(t.hour, t.minute, t.second, TruncatedNanos(t.nanosecond, p))
  }

  /** Truncation changes nothing exactly when the cut-off digits are zero. */
  lemma TruncatedExact(ns: nat, p: nat)
    requires ns < NanosPerSecond && p <= MaxPrecision
    ensures TruncatedNanos(ns, p) == ns <==> ns % Pow10(MaxPrecision - p) == 0
  {
    RoundDown(ns, Pow10(MaxPrecision - p));
  }

  // ---------------------------------------------------------------- pieces of the round trip

  lemma GetNumPadded(n: nat, rest: string, fixed: bool)
    requires n < 100
    ensures GetNum(Padded(n, 2) + rest, fixed) == Some((n, rest))
  {
    PaddedTwoDigits(n);
    DigitRoundTrip(n / 10);
    DigitRoundTrip(n % 10);
    GetNumTwoDigits(DigitChar(n / 10), DigitChar(n % 10), rest, fixed);
  }

  lemma GetNumTwoDigits(a: char, b: char, rest: string, fixed: bool)
    requires IsDigit(a) && IsDigit(b)
    ensures GetNum([a, b] + rest, fixed) == Some((10 * DigitValue(a) + DigitValue(b), rest))
  {
    assert ([a, b] + rest)[2..] == rest;
  }

  lemma GetNumFixed(s: string)
    requires GetNum(s, true).Some?
    ensures s == Padded(GetNum(s, true).value.0, 2) + GetNum(s, true).value.1
  {
    var d := s[..2];
    assert d[..1] == [s[0]];
    assert DecimalValue(d[..1]) == DigitValue(s[0]);
    assert DecimalValue(d) == 10 * DigitValue(s[0]) + DigitValue(s[1]);
    PaddedOfValue(d);
    assert s == d + s[2..];
  }

  lemma StrictFractionText(r: string, p: nat)
    requires p <= MaxPrecision && StrictFraction(r, p).Some?
    ensures FractionText(StrictFraction(r, p).value, p) == r
    ensures TruncatedNanos(StrictFraction(r, p).value, p) == StrictFraction(r, p).value
  {
    if p > 0 {
      FractionOfScaled(r[1..]);
      assert r == "." + r[1..];
    }
  }

  lemma FractionOfText(ns: nat, p: nat, strict: bool)
    requires ns < NanosPerSecond && p <= MaxPrecision
    ensures Fraction(FractionText(ns, p), p, strict) == Some(TruncatedNanos(ns, p))
  {
    if p == 0 {
      assert Pow10(MaxPrecision) == NanosPerSecond;
    } else {
      var f := Padded(ns, 9)[..p];
      FractionDigits(ns, p);
      assert FractionText(ns, p)[1..] == f;
      if !strict {
        AtoiOfDigits(f);
      }
    }
  }

  /** The first `p` of the nine nanosecond digits, read as `p` decimal places, are the truncated
      nanoseconds. */
  lemma FractionDigits(ns: nat, p: nat)
    requires ns < NanosPerSecond && 0 < p <= MaxPrecision
    ensures var f := Padded(ns, 9)[..p];
            AllDigits(f) && |f| == p && DecimalValue(f) * Pow10(MaxPrecision - p) == TruncatedNanos(ns, p)
  {
    SplitDigits(Padded(ns, 9), p);
  }

  /** `atoi` of digits alone is their value. */
  lemma AtoiOfDigits(f: string)
    requires AllDigits(f)
    ensures Atoi(f) == Some(DecimalValue(f) as int)
  {
    if |f| > 0 {
      assert IsDigit(f[0]);
    }
  }

  /** The clock read from fields and the fraction read after them. */
  function Attach(hour: nat, minute: nat, second: nat, ns: Option<nat>): Option<Time>
    requires hour < 24 && minute < 60 && second < 60
    requires ns.Some? ==> ns.value < NanosPerSecond
  {
    match ns
    case None => None
    case Some(n) => Some(Clock(hour, minute, second, n))
  }

  lemma SecondThen(hour: nat, minute: nat, second: nat, tail: string, p: nat, strict: bool)
    requires hour < 24 && minute < 60 && second < 60 && p <= MaxPrecision
    ensures ParseSecond(hour, minute, SecondText(second, tail), p, strict) == Attach(hour, minute, second, Fraction(tail, p, strict))
  {
    assert SecondText(second, tail)[1..] == Padded(second, 2) + tail;
    GetNumPadded(second, tail, true);
  }

  lemma MinuteThen(hour: nat, minute: nat, second: nat, tail: string, p: nat, strict: bool)
    requires hour < 24 && minute < 60 && second < 60 && p <= MaxPrecision
    ensures ParseMinute(hour, MinuteText(minute, second, tail), p, strict) == Attach(hour, minute, second, Fraction(tail, p, strict))
  {
    var u := SecondText(second, tail);
    assert MinuteText(minute, second, tail)[1..] == Padded(minute, 2) + u;
    GetNumPadded(minute, u, true);
    assert ParseMinute(hour, MinuteText(minute, second, tail), p, strict) == ParseSecond(hour, minute, u, p, strict);
    SecondThen(hour, minute, second, tail, p, strict);
  }

  /** A two-digit hour, `:MM:SS` and what follows are read field by field, under either reading. */
  lemma ClockThen(hour: nat, minute: nat, second: nat, tail: string, p: nat, strict: bool)
    requires hour < 24 && minute < 60 && second < 60 && p <= MaxPrecision
    ensures ParseClock(Padded(hour, 2) + MinuteText(minute, second, tail), p, strict)
         == Attach(hour, minute, second, Fraction(tail, p, strict))
  {
    GetNumPadded(hour, MinuteText(minute, second, tail), strict);
    MinuteThen(hour, minute, second, tail, p, strict);
  }

  /** A one-digit hour: `time.Parse` reads it, the strict reading does not. */
  lemma OneDigitHourThen(hour: nat, minute: nat, second: nat, tail: string, p: nat)
    requires hour < 10 && minute < 60 && second < 60 && p <= MaxPrecision
    ensures ParseClock([DigitChar(hour)] + MinuteText(minute, second, tail), p, false)
         == Attach(hour, minute, second, Fraction(tail, p, false))
    ensures ParseClock([DigitChar(hour)] + MinuteText(minute, second, tail), p, true) == None
  {
    var u := MinuteText(minute, second, tail);
    var s := [DigitChar(hour)] + u;
    DigitRoundTrip(hour);
    assert s[1..] == u && s[1] == ':';
    assert GetNum(s, false) == Some((hour, u));
    MinuteThen(hour, minute, second, tail, p, false);
  }

  /** Reading a formatted clock gives it back, its nanoseconds cut to the precision. */
  lemma ClockRoundTrip(t: Time, p: nat, strict: bool)
    requires p <= MaxPrecision
    ensures ParseClock(Format(t, p), p, strict) == Some(Truncated(t, p))
  {
    ClockThen(t.hour, t.minute, t.second, FractionText(t.nanosecond, p), p, strict);
    FractionOfText(t.nanosecond, p, strict);
  }

  lemma StrictSecondFormat(hour: nat, minute: nat, r: string, p: nat)
    requires hour < 24 && minute < 60 && p <= MaxPrecision && ParseSecond(hour, minute, r, p, true).Some?
    ensures var c := ParseSecond(hour, minute, r, p, true).value;
      c.hour == hour && c.minute == minute && TruncatedNanos(c.nanosecond, p) == c.nanosecond
      && r == SecondText(c.second, FractionText(c.nanosecond, p))
  {
    var (second, r') := Field(r[1..], true, 60).value;
    GetNumFixed(r[1..]);
    StrictFractionText(r', p);
    assert r == ":" + r[1..];
    Assoc(":", Padded(second, 2), r');
  }

  lemma StrictMinuteFormat(hour: nat, r: string, p: nat)
    requires hour < 24 && p <= MaxPrecision && ParseMinute(hour, r, p, true).Some?
    ensures var c := ParseMinute(hour, r, p, true).value;
      c.hour == hour && TruncatedNanos(c.nanosecond, p) == c.nanosecond
      && r == MinuteText(c.minute, c.second, FractionText(c.nanosecond, p))
  {
    var (minute, r') := Field(r[1..], true, 60).value;
    GetNumFixed(r[1..]);
    StrictSecondFormat(hour, minute, r', p);
    assert r == ":" + r[1..];
  }

  /** What the strict reading accepts is exactly a formatted clock whose nanoseconds fit the precision. */
  lemma StrictClockFormat(s: string, p: nat)
    requires p <= MaxPrecision && ParseClock(s, p, true).Some?
    ensures Format(ParseClock(s, p, true).value, p) == s
    ensures Truncated(ParseClock(s, p, true).value, p) == ParseClock(s, p, true).value
  {
    var (hour, r) := Field(s, true, 24).value;
    GetNumFixed(s);
    StrictMinuteFormat(hour, r, p);
  }

  lemma StrictFractionLenient(r: string, p: nat)
    requires p <= MaxPrecision && StrictFraction(r, p).Some?
    ensures Fraction(r, p, false) == StrictFraction(r, p)
  {
    if p > 0 {
      assert Atoi(r[1..]) == Some(DecimalValue(r[1..]) as int);
    }
  }

  /** Whatever the strict reading accepts, `time.Parse` reads the same way. */
  lemma AsWrittenClockExtendsStrict(s: string, p: nat)
    requires p <= MaxPrecision && ParseClock(s, p, true).Some?
    ensures ParseClock(s, p, false) == ParseClock(s, p, true)
  {
    var (hour, r1) := Field(s, true, 24).value;
    assert ParseClock(s, p, false) == ParseMinute(hour, r1, p, false);
    var (minute, r2) := Field(r1[1..], true, 60).value;
    var (second, r3) := Field(r2[1..], true, 60).value;
    StrictFractionLenient(r3, p);
  }

  /** `:MM:SS` then a tail, regrouped. */
  lemma MinuteTextThen(minute: nat, second: nat, tail: string)
    requires minute < 60 && second < 60
    ensures MinuteText(minute, second, tail) == MinuteText(minute, second, "") + tail
    ensures '.' !in MinuteText(minute, second, "")
  {
    var m, q := Padded(minute, 2), Padded(second, 2);
    assert SecondText(second, tail) == SecondText(second, "") + tail;
    assert '.' !in m && '.' !in q;
  }

  /** A prefix without a `.` does not change the precision `ParseTimeOnly` detects. */
  lemma PrecisionAfter(head: string, tail: string)
    requires '.' !in head
    ensures DetectedPrecision(head + tail) == DetectedPrecision(tail)
  {
    if '.' in tail {
      AfterDotShift(head, tail);
    } else {
      assert '.' !in head + tail;
    }
  }

  lemma AfterDotShift(head: string, tail: string)
    requires '.' !in head && '.' in tail
    ensures '.' in head + tail && AfterFirstDot(head + tail) == AfterFirstDot(tail)
  {
    IndexOfAfter(head, tail, '.');
    DropConcat(head, tail, IndexOf(tail, '.') + 1);
    AfterSameDot(head + tail, tail);
  }

  lemma AfterSameDot(s: string, t: string)
    requires '.' in s && '.' in t && s[IndexOf(s, '.') + 1..] == t[IndexOf(t, '.') + 1..]
    ensures AfterFirstDot(s) == AfterFirstDot(t)
  {
  }

  /** The precision of a fraction text is its number of digits. */
  lemma PrecisionOfFraction(ns: nat, p: nat)
    requires ns < NanosPerSecond && p <= MaxPrecision
    ensures DetectedPrecision(FractionText(ns, p)) == p
  {
    if p > 0 {
      var f := Padded(ns, 9)[..p];
      var r := FractionText(ns, p);
      assert IndexOf(r, '.') == 0;
      assert r[1..] == f;
      assert '.' !in f by { assert AllDigits(f); }
      Utf8LengthOfDigits(f);
    }
  }

  lemma PrecisionOfFormat(t: Time, p: nat)
    requires p <= MaxPrecision
    ensures DetectedPrecision(Format(t, p)) == p
  {
    var f := FractionText(t.nanosecond, p);
    MinuteTextThen(t.minute, t.second, f);
    var head := Padded(t.hour, 2) + MinuteText(t.minute, t.second, "");
    assert Format(t, p) == head + f;
    assert '.' !in Padded(t.hour, 2);
    PrecisionAfter(head, f);
    PrecisionOfFraction(t.nanosecond, p);
  }

  lemma FormatEnds(t: Time, p: nat)
    requires p <= MaxPrecision
    ensures IsDigit(Format(t, p)[0]) && IsDigit(Format(t, p)[|Format(t, p)| - 1])
  {
    var f := FractionText(t.nanosecond, p);
    MinuteTextThen(t.minute, t.second, f);
    var s := Format(t, p);
    assert s[0] == Padded(t.hour, 2)[0];
    if p == 0 {
      assert s[|s| - 1] == Padded(t.second, 2)[1];
    } else {
      assert s[|s| - 1] == Padded(t.nanosecond, 9)[p - 1];
    }
  }

  lemma TrimFormat(t: Time, p: nat)
    requires p <= MaxPrecision
    ensures TrimSpace(Format(t, p)) == Format(t, p)
  {
    FormatEnds(t, p);
    TrimSpaceOfTrimmed(Format(t, p));
  }

  /** `ParseTimeOnly` reads only the trimmed text. */
  lemma ParseTrims(s: string, strict: bool)
    ensures ParseWith(s, strict) == ParseWith(TrimSpace(s), strict)
  {
    TrimSpaceIdempotent(s);
  }

  // ---------------------------------------------------------------- properties

  /** Parsing what `String` writes gives the time back with the same precision, its nanoseconds cut to
      that many places, under either reading. */
  lemma ParseString(x: TimeOnly, strict: bool)
    requires 0 <= x.precision <= MaxPrecision
    ensures ParseWith(String(x), strict) == Success(Some(TimeOnly(Truncated(x.time, x.precision), x.precision)))
  {
    var p := x.precision;
    TrimFormat(x.time, p);
    PrecisionOfFormat(x.time, p);
    ClockRoundTrip(x.time, p, strict);
  }

  /** The strict `ParseTimeOnly` accepts exactly the text `String` writes for a time whose nanoseconds
      fit its precision, and gives that time back. */
  lemma {:induction false} ParseTimeOnlyExact(s: string, x: TimeOnly)
    ensures ParseTimeOnlyStrict(s) == Success(Some(x))
        <==> 0 <= x.precision <= MaxPrecision && Truncated(x.time, x.precision) == x.time && TrimSpace(s) == String(x)
  {
    if ParseTimeOnlyStrict(s) == Success(Some(x)) {
      var t := TrimSpace(s);
      StrictClockFormat(t, x.precision);
    }
    if 0 <= x.precision <= MaxPrecision && Truncated(x.time, x.precision) == x.time && TrimSpace(s) == String(x) {
      ParseTrims(s, true);
      ParseString(x, true);
    }
  }

  /** `time.Parse`'s reading accepts everything the strict one does, with the same result, and the two
      fail alike on a precision that is too large. */
  lemma AsWrittenExtendsStrict(s: string)
    ensures ParseTimeOnlyStrict(s) != Failure(LayoutMismatch) ==> ParseTimeOnlyAsWritten(s) == ParseTimeOnlyStrict(s)
  {
    var t := TrimSpace(s);
    if t != "" && DetectedPrecision(t) <= MaxPrecision && ParseClock(t, DetectedPrecision(t), true).Some? {
      AsWrittenClockExtendsStrict(t, DetectedPrecision(t));
    }
  }

  /** `p` places keep all the nanoseconds exactly when `p` is at least their trailing-zero-trimmed
      precision. */
  lemma NanosPrecisionExact(ns: nat, p: nat)
    requires ns < NanosPerSecond && p <= MaxPrecision
    ensures NanosPrecision(ns) <= MaxPrecision
    ensures TruncatedNanos(ns, p) == ns <==> p >= NanosPrecision(ns)
  {
    TruncatedExact(ns, p);
    if ns > 0 {
      CutDigitsZero(Padded(ns, 9), p);
    }
  }

  lemma NanosPrecisionMinimal(ns: nat)
    requires ns < NanosPerSecond
    ensures NanosPrecision(ns) <= MaxPrecision
    ensures forall q: nat | q <= MaxPrecision :: TruncatedNanos(ns, q) == ns <==> q >= NanosPrecision(ns)
  {
    NanosPrecisionExact(ns, 0);
    forall q: nat | q <= MaxPrecision
      ensures TruncatedNanos(ns, q) == ns <==> q >= NanosPrecision(ns)
    {
      NanosPrecisionExact(ns, q);
    }
  }

  /** The digits after the `p`-th are all zeros exactly when `p` reaches the last non-zero digit. */
  lemma CutDigitsZero(pad: string, p: nat)
    requires AllDigits(pad) && |pad| == MaxPrecision && p <= MaxPrecision
    ensures DecimalValue(pad) % Pow10(MaxPrecision - p) == 0 <==> p >= |TrimTrailingZeros(pad)|
  {
    var n := |TrimTrailingZeros(pad)|;
    SplitDigits(pad, p);
    ZeroDigits(pad[p..]);
    if p >= n {
      forall k | 0 <= k < |pad[p..]| ensures pad[p..][k] == '0' {
        assert pad[p..][k] == pad[p + k];
      }
    } else {
      assert pad[p..][n - 1 - p] == pad[n - 1] == TrimTrailingZeros(pad)[n - 1];
    }
  }

  /** The text of a `NewTimeOnly` reads back as the same `TimeOnly`, under either reading. */
  lemma NewTimeOnlyRoundTrip(t: Time, strict: bool)
    ensures ParseWith(String(NewTimeOnly(t)), strict) == Success(Some(NewTimeOnly(t)))
  {
    var x := NewTimeOnly(t);
    ParseString(x, strict);
  }

  // ---------------------------------------------------------------- examples

  /** `NewTimeOnly`'s precision is `p` when `p` places keep the nanoseconds and `p - 1` do not. */
  lemma PrecisionBetween(ns: nat, p: nat)
    requires ns < NanosPerSecond && 0 < p <= MaxPrecision
    requires TruncatedNanos(ns, p) == ns && TruncatedNanos(ns, p - 1) != ns
    ensures NanosPrecision(ns) == p
  {
    NanosPrecisionExact(ns, p);
    NanosPrecisionExact(ns, p - 1);
  }

  /** The precisions `NewTimeOnly` gives (TestNewTimeOnly). */
  lemma NewTimeOnlyExamples()
    ensures NanosPrecision(0) == 0 && NanosPrecision(123000000) == 3 && NanosPrecision(123456000) == 6
    ensures NanosPrecision(123456789) == 9 && NanosPrecision(120000000) == 2 && NanosPrecision(100000000) == 1
  {
    assert Pow10(0) == 1;
    assert Pow10(1) == 10;
    assert Pow10(3) == 1000;
    assert Pow10(4) == 10000;
    assert Pow10(6) == 1000000;
    assert Pow10(7) == 10000000;
    assert Pow10(8) == 100000000;
    NanosExample(123000000, 3, 1000000, 10000000, 120000000);
    NanosExample(123456000, 6, 1000, 10000, 123450000);
    NanosExample(123456789, 9, 1, 10, 123456780);
    NanosExample(120000000, 2, 10000000, 100000000, 100000000);
    NanosExample(100000000, 1, 100000000, 1000000000, 0);
  }

  lemma NanosExample(ns: nat, p: nat, m: nat, m10: nat, cut: nat)
    requires ns < NanosPerSecond && 0 < p <= MaxPrecision && cut != ns
    requires Pow10(MaxPrecision - p) == m && Pow10(MaxPrecision + 1 - p) == m10
    requires m > 0 && m10 > 0 && ns % m == 0 && ns / m10 * m10 == cut
    ensures NanosPrecision(ns) == p
  {
    PrecisionBetween(ns, p);
  }

  lemma PaddedClockFields()
    ensures Padded(15, 2) == "15" && Padded(4, 2) == "04" && Padded(5, 2) == "05" && Padded(0, 2) == "00"
  {
    PaddedText(15, "15");
    PaddedText(4, "04");
    PaddedText(5, "05");
    PaddedText(0, "00");
  }

  lemma PaddedText(n: nat, text: string)
    requires n < 100 && |text| == 2 && text[0] == DigitChar(n / 10) && text[1] == DigitChar(n % 10)
    ensures Padded(n, 2) == text
  {
    PaddedTwoDigits(n);
  }

  /** `String` without a fraction, and the empty text of a precision without a layout
      (TestTimeOnly_String). */
  lemma StringExamples()
    ensures String(TimeOnly(Clock(15, 4, 5, 123456789), 0)) == "15:04:05"
    ensures String(TimeOnly(Clock(15, 4, 5, 0), 0)) == "15:04:05"
    ensures String(TimeOnly(Clock(5, 4, 5, 0), 0)) == "05:04:05"
    ensures String(TimeOnly(Clock(0, 0, 0, 0), 0)) == "00:00:00"
    ensures String(TimeOnly(Clock(15, 4, 5, 123456789), 10)) == ""
    ensures String(TimeOnly(Clock(15, 4, 5, 123456789), -1)) == ""
  {
    PaddedClockFields();
  }

  /** A lower precision writes a prefix of what a higher one writes. */
  lemma FormatPrefix(t: Time, p: nat, q: nat)
    requires 0 < p <= q <= MaxPrecision
    ensures Format(t, p) == Format(t, q)[..9 + p]
  {
    var head := Padded(t.hour, 2) + MinuteText(t.minute, t.second, "");
    FormatThen(t, FractionText(t.nanosecond, p));
    FormatThen(t, FractionText(t.nanosecond, q));
    assert FractionText(t.nanosecond, p) == FractionText(t.nanosecond, q)[..1 + p];
    assert Format(t, 0) == head;
  }

  /** The precision of a text is the number of digits after its only `.`. */
  lemma PrecisionOfDigits(head: string, f: string)
    requires '.' !in head && AllDigits(f)
    ensures DetectedPrecision(head + "." + f) == |f|
  {
    assert '.' !in f by { assert AllDigits(f); }
    PrecisionOfSegment(head, f);
    Utf8LengthOfDigits(f);
  }

  /** The precision of a text with one `.` is the length in bytes of what follows it. */
  lemma PrecisionOfSegment(head: string, g: string)
    requires '.' !in head && '.' !in g
    ensures DetectedPrecision(head + "." + g) == Utf8Length(g)
  {
    var tail := "." + g;
    assert head + "." + g == head + tail;
    PrecisionAfter(head, tail);
    assert IndexOf(tail, '.') == 0;
    assert tail[1..] == g;
    assert AfterFirstDot(tail) == g;
  }

  lemma TooManyDecimalsText()
    ensures TrimSpace("15:04:05.1234567890") == "15:04:05.1234567890"
  {
    TrimSpaceOfTrimmed("15:04:05.1234567890");
  }

  lemma TooManyDecimalsPrecision()
    ensures DetectedPrecision("15:04:05.1234567890") == 10
  {
    var head, f := "15:04:05", "1234567890";
    assert head + "." + f == "15:04:05.1234567890";
    assert AllDigits(f);
    assert '.' !in head;
    PrecisionOfDigits(head, f);
  }

  /** Too many decimals (TestParseTimeOnly). */
  lemma PrecisionErrorExample(strict: bool)
    ensures ParseWith("15:04:05.1234567890", strict) == Failure(PrecisionExceeded(10))
  {
    TooManyDecimalsText();
    TooManyDecimalsPrecision();
  }

  /** The message of that error. */
  lemma PrecisionMessageExample()
    ensures PrecisionMessage(10) == "time precision of 10 exceeds maximum allowed of 9"
  {
    assert Decimal(10) == "10";
    assert Decimal(9) == "9";
  }

  /** Rejected inputs of TestParseTimeOnly, under either reading: an hour of 25, ... */
  lemma HourOutOfRangeExample(strict: bool)
    ensures ParseWith("25:04:05", strict) == Failure(LayoutMismatch)
  {
    var s := "25:04:05";
    TrimSpaceOfTrimmed(s);
    assert '.' !in s;
    HourOutOfRange(s, strict);
  }

  /** A text whose first two digits make an hour of 24 or more is refused. */
  lemma HourOutOfRange(s: string, strict: bool)
    requires |s| >= 2 && IsDigit(s[0]) && IsDigit(s[1]) && 10 * DigitValue(s[0]) + DigitValue(s[1]) >= 24
    requires TrimSpace(s) == s && DetectedPrecision(s) <= MaxPrecision
    ensures ParseWith(s, strict) == Failure(LayoutMismatch)
  {
    ParseWithClock(s, DetectedPrecision(s), strict);
    assert s == [s[0], s[1]] + s[2..];
    GetNumTwoDigits(s[0], s[1], s[2..], strict);
  }

  /** ... and single-digit minutes and seconds. */
  lemma ShortFieldsExample(strict: bool)
    ensures ParseWith("5:4:5", strict) == Failure(LayoutMismatch)
  {
    var s := "5:4:5";
    TrimSpaceOfTrimmed(s);
    assert '.' !in s;
    assert s[1..][1..] == "4:5";
    assert GetNum("4:5", true) == None;
  }

  // ---------------------------------------------------------------- what `time.Parse` lets through

  /** `ParseTimeOnly` on a text that is its own trimming, of precision `p`, whose clock reads as `c`. */
  lemma ParseWithClock(s: string, p: nat, strict: bool)
    requires s != [] && TrimSpace(s) == s && DetectedPrecision(s) == p && p <= MaxPrecision
    ensures ParseWith(s, strict) == match ParseClock(s, p, strict)
      case None => Failure(LayoutMismatch)
      case Some(c) => Success(Some(TimeOnly(c, p)))
  {
  }

  lemma OneDigitHourShape(t: Time, p: nat)
    requires t.hour < 10 && p <= MaxPrecision
    ensures Format(t, p)[1..] == [DigitChar(t.hour)] + MinuteText(t.minute, t.second, FractionText(t.nanosecond, p))
    ensures Format(t, p)[1..] == ([DigitChar(t.hour)] + MinuteText(t.minute, t.second, "")) + FractionText(t.nanosecond, p)
  {
    var f := FractionText(t.nanosecond, p);
    var d := DigitChar(t.hour);
    var mf := MinuteText(t.minute, t.second, f);
    PaddedOneDigit(t.hour);
    MinuteTextThen(t.minute, t.second, f);
    assert Format(t, p) == ['0', d] + mf;
    DropFirst('0', d, mf);
    Assoc([d], MinuteText(t.minute, t.second, ""), f);
  }

  lemma OneDigitHourText(t: Time, p: nat)
    requires t.hour < 10 && p <= MaxPrecision
    ensures Format(t, p)[1..] == [DigitChar(t.hour)] + MinuteText(t.minute, t.second, FractionText(t.nanosecond, p))
    ensures TrimSpace(Format(t, p)[1..]) == Format(t, p)[1..]
    ensures DetectedPrecision(Format(t, p)[1..]) == p
  {
    var f := FractionText(t.nanosecond, p);
    var s := Format(t, p)[1..];
    OneDigitHourShape(t, p);
    FormatEnds(t, p);
    assert s[|s| - 1] == Format(t, p)[|Format(t, p)| - 1];
    TrimSpaceOfTrimmed(s);
    MinuteTextThen(t.minute, t.second, f);
    PrecisionAfter([DigitChar(t.hour)] + MinuteText(t.minute, t.second, ""), f);
    PrecisionOfFraction(t.nanosecond, p);
  }

  /** `time.Parse` reads a one-digit hour: for every time before ten o'clock, the text `String` writes
      with its leading zero dropped is read as that time, and `String` then writes one character more.
      The strict reading refuses the text. */
  lemma AsWrittenTakesOneDigitHour(t: Time, p: nat)
    requires t.hour < 10 && p <= MaxPrecision
    ensures ParseTimeOnlyAsWritten(Format(t, p)[1..]) == Success(Some(TimeOnly(Truncated(t, p), p)))
    ensures |String(TimeOnly(Truncated(t, p), p))| == |Format(t, p)[1..]| + 1
    ensures ParseTimeOnlyStrict(Format(t, p)[1..]) == Failure(LayoutMismatch)
  {
    OneDigitHourText(t, p);
    OneDigitHourThen(t.hour, t.minute, t.second, FractionText(t.nanosecond, p), p);
    FractionOfText(t.nanosecond, p, false);
    ParseWithClock(Format(t, p)[1..], p, false);
    ParseWithClock(Format(t, p)[1..], p, true);
  }

  lemma FormatThen(t: Time, tail: string)
    ensures Format(t, 0) + tail == Padded(t.hour, 2) + MinuteText(t.minute, t.second, tail)
    ensures '.' !in Format(t, 0)
  {
    MinuteTextThen(t.minute, t.second, tail);
    assert '.' !in Padded(t.hour, 2);
  }

  /** The layout without a fraction reads a comma and at most nine digits as that fraction. */
  lemma CommaFractionValue(f: string)
    requires AllDigits(f) && 0 < |f| <= MaxPrecision
    ensures OmittedFraction("," + f) == Some(Scaled(f))
  {
    var tail := "," + f;
    assert tail[1..] == f && tail[1..|tail|] == f;
    assert |tail| == 10 ==> tail[1..10] == f;
  }

  lemma CommaFractionText(t: Time, f: string)
    requires AllDigits(f) && 0 < |f|
    ensures TrimSpace(Format(t, 0) + "," + f) == Format(t, 0) + "," + f
    ensures DetectedPrecision(Format(t, 0) + "," + f) == 0
  {
    var s := Format(t, 0) + "," + f;
    FormatEnds(t, 0);
    FormatThen(t, "");
    assert s[0] == Format(t, 0)[0] && s[|s| - 1] == f[|f| - 1];
    TrimSpaceOfTrimmed(s);
    assert '.' !in f by { assert AllDigits(f); }
    assert '.' !in s;
  }

  /** `time.Parse` reads a comma and digits after the seconds of the layout without a fraction: the
      time is read with those nanoseconds and precision 0, so `String` drops them. The strict reading
      refuses the text. */
  lemma AsWrittenTakesCommaFraction(t: Time, f: string)
    requires AllDigits(f) && 0 < |f| <= MaxPrecision
    ensures ParseTimeOnlyAsWritten(Format(t, 0) + "," + f) == Success(Some(TimeOnly(Clock(t.hour, t.minute, t.second, Scaled(f)), 0)))
    ensures String(TimeOnly(Clock(t.hour, t.minute, t.second, Scaled(f)), 0)) == Format(t, 0)
    ensures ParseTimeOnlyStrict(Format(t, 0) + "," + f) == Failure(LayoutMismatch)
  {
    var tail := "," + f;
    var s := Format(t, 0) + tail;
    assert Format(t, 0) + "," + f == s;
    FormatThen(t, tail);
    ClockThen(t.hour, t.minute, t.second, tail, 0, false);
    ClockThen(t.hour, t.minute, t.second, tail, 0, true);
    CommaFractionValue(f);
    CommaFractionText(t, f);
    ParseWithClock(s, 0, false);
    ParseWithClock(s, 0, true);
  }

  lemma SignedFractionText(t: Time, f: string)
    requires AllDigits(f) && |f| < MaxPrecision
    ensures TrimSpace(Format(t, 0) + ".+" + f) == Format(t, 0) + ".+" + f
  {
    var h := Format(t, 0) + ".+";
    var s := h + f;
    FormatEnds(t, 0);
    assert s[0] == Format(t, 0)[0];
    if f == [] {
      assert s[|s| - 1] == h[|h| - 1] == '+';
    } else {
      assert s[|s| - 1] == f[|f| - 1];
    }
    TrimSpaceOfTrimmed(s);
  }

  lemma SignedFractionPrecision(t: Time, f: string)
    requires AllDigits(f) && |f| < MaxPrecision
    ensures DetectedPrecision(Format(t, 0) + ".+" + f) == |f| + 1
  {
    var g := "+" + f;
    assert Format(t, 0) + ".+" + f == Format(t, 0) + "." + g;
    FormatThen(t, "");
    assert '.' !in g by { assert AllDigits(f); }
    PrecisionOfSegment(Format(t, 0), g);
    assert g[1..] == f;
    assert Utf8Length(g) == 1 + Utf8Length(f);
    Utf8LengthOfDigits(f);
  }

  lemma SignedFractionValue(f: string)
    requires AllDigits(f) && |f| < MaxPrecision
    ensures LayoutFraction(".+" + f, |f| + 1) == Some(Scaled("0" + f))
    ensures StrictFraction(".+" + f, |f| + 1) == None
  {
    var tail := ".+" + f;
    assert tail[1..] == "+" + f;
    AtoiPlus(f);
    LeadingZero(f);
    assert tail[1] == '+';
  }

  /** A leading zero does not change the value of a digit string. */
  lemma LeadingZero(f: string)
    requires AllDigits(f)
    ensures AllDigits("0" + f) && DecimalValue("0" + f) == DecimalValue(f)
  {
    DecimalValueConcat("0", f);
    assert DecimalValue("0") == 0;
  }

  /** `atoi` reads a plus sign followed by digits as their value. */
  lemma AtoiPlus(f: string)
    requires AllDigits(f)
    ensures Atoi("+" + f) == Some(DecimalValue(f) as int)
  {
    var s := "+" + f;
    assert s[0] == '+' && s[1..] == f;
  }

  /** `time.Parse` reads a sign at the start of a fraction: `.+f` is read as `.0f`, and `String` writes
      it with that digit where the sign was. The strict reading refuses the text. */
  lemma AsWrittenTakesSignedFraction(t: Time, f: string)
    requires AllDigits(f) && |f| < MaxPrecision
    ensures var x := TimeOnly(Clock(t.hour, t.minute, t.second, Scaled("0" + f)), |f| + 1);
      ParseTimeOnlyAsWritten(Format(t, 0) + ".+" + f) == Success(Some(x))
      && String(x) == Format(t, 0) + ".0" + f
    ensures ParseTimeOnlyStrict(Format(t, 0) + ".+" + f) == Failure(LayoutMismatch)
  {
    var p := |f| + 1;
    var tail := ".+" + f;
    var s := Format(t, 0) + tail;
    assert Format(t, 0) + ".+" + f == s;
    FormatThen(t, tail);
    ClockThen(t.hour, t.minute, t.second, tail, p, false);
    ClockThen(t.hour, t.minute, t.second, tail, p, true);
    SignedFractionValue(f);
    SignedFractionText(t, f);
    SignedFractionPrecision(t, f);
    ParseWithClock(s, p, false);
    ParseWithClock(s, p, true);
    SignedFractionString(t, f);
  }

  lemma SignedFractionString(t: Time, f: string)
    requires AllDigits(f) && |f| < MaxPrecision
    ensures String(TimeOnly(Clock(t.hour, t.minute, t.second, Scaled("0" + f)), |f| + 1)) == Format(t, 0) + ".0" + f
  {
    var p := |f| + 1;
    var c: Time := Clock(t.hour, t.minute, t.second, Scaled("0" + f));
    var g := FractionText(c.nanosecond, p);
    FractionOfScaled("0" + f);
    FormatThen(c, g);
    assert Format(c, p) == Format(c, 0) + g;
    assert Format(c, 0) == Format(t, 0);
    assert g == "." + ("0" + f);
    assert Format(t, 0) + ("." + ("0" + f)) == Format(t, 0) + ".0" + f;
  }

  /** The fraction text of `Scaled(f)` at `|f|` places is `f` after the separator, and truncating
      `Scaled(f)` to `|f|` places leaves it as it is. */
  lemma FractionOfScaled(f: string)
    requires AllDigits(f) && 0 < |f| <= MaxPrecision
    ensures FractionText(Scaled(f), |f|) == "." + f
    ensures TruncatedNanos(Scaled(f), |f|) == Scaled(f)
  {
    var p := |f|;
    var v := DecimalValue(f);
    var m := Pow10(MaxPrecision - p);
    var ns := Scaled(f);
    assert ns == v * m;
    DivModUnique(ns, v, 0, m);
    ScaledPrefix(ns, f);
  }

  lemma ScaledPrefix(ns: nat, f: string)
    requires AllDigits(f) && 0 < |f| <= MaxPrecision && ns < NanosPerSecond
    requires ns / Pow10(MaxPrecision - |f|) == DecimalValue(f)
    ensures Padded(ns, 9)[..|f|] == f
  {
    var pad := Padded(ns, 9);
    var g := pad[..|f|];
    SplitDigits(pad, |f|);
    assert DecimalValue(g) == DecimalValue(f);
    PaddedOfValue(g);
    PaddedOfValue(f);
    assert g == Padded(DecimalValue(g), |g|);
  }
}
