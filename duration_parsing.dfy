/** `durationFromString` of serialization/duration.go: the two Go regular expressions `week` and `full`,
    matched with RE2's leftmost-first semantics, and the loop over their named groups that fills a
    `duration`.

    Neither expression is anchored, so a match starts at the first `P` that lets it match. Every group
    after the `P` of `full` is optional, and each one is tried before it is skipped; a group `(\d+)u`
    whose unit letter `u` is not a digit can only match with the maximal run of digits, so the match is
    determined without backtracking. */
module DurationParsing {
  import opened Wrappers
  import opened Text
  import opened Duration

  // ---------------------------------------------------------------- the groups

  /** A `(\d+)u` group that matched: its capture and the text after the unit letter. */
  datatype Group = Group(digits: string, rest: string)

  /** `(\d+)u` at the start of `t`. */
  function UnitGroup(t: string, unit: char): (g: Option<Group>)
    ensures g.Some? ==> |g.value.digits| > 0 && AllDigits(g.value.digits)
                        && t == g.value.digits + [unit] + g.value.rest
  {
    var n := DigitRun(t);
    if 0 < n < |t| && t[n] == unit then
      assert t == t[..n] + [unit] + t[n + 1..];
      Some(Group(t[..n], t[n + 1..]))
    else None
  }

  /** The seconds group that matched: the digits before the point, the digits after it (if any) and the
      text after the `S`. */
  datatype SecondsCapture = SecondsCapture(whole: string, fraction: Option<string>, rest: string)

  function SecondsText(c: SecondsCapture): string {
    c.whole + (if c.fraction.Some? then "." + c.fraction.value else "")
  }

  lemma FractionSplit(t: string, n: nat, m: nat)
    requires n < |t| && 1 + m < |t[n..]| && t[n] == '.' && t[n + 1 + m] == 'S'
    ensures t == t[..n] + ("." + t[n..][1..1 + m]) + "S" + t[n..][2 + m..]
  {
    var u := t[n..];
    var f, r := u[1..1 + m], u[2 + m..];
    assert u == [u[0]] + f + [u[1 + m]] + r;
    assert t == t[..n] + u;
  }

  /** The seconds group at the start of `t`: `(\d+(?:\.\d+))S` as written when `fractionRequired`, or
      `(\d+(?:\.\d+)?)S` when not. */
  function SecondsGroup(t: string, fractionRequired: bool): (c: Option<SecondsCapture>)
    ensures c.Some? ==> |c.value.whole| > 0 && AllDigits(c.value.whole)
                        && t == SecondsText(c.value) + "S" + c.value.rest
    ensures c.Some? && c.value.fraction.Some? ==>
              |c.value.fraction.value| > 0 && AllDigits(c.value.fraction.value)
    ensures c.Some? && fractionRequired ==> c.value.fraction.Some?
  {
    var n := DigitRun(t);
    if n == 0 then None
    else
      var u := t[n..];
      var m := if |u| > 0 && u[0] == '.' then DigitRun(u[1..]) else 0;
      if m > 0 && 1 + m < |u| && u[1 + m] == 'S' then
        var c := SecondsCapture(t[..n], Some(u[1..1 + m]), u[2 + m..]);
        assert u[1..1 + m] == u[1..][..m];
        FractionSplit(t, n, m);
        Some(c)
      else if !fractionRequired && |u| > 0 && u[0] == 'S' then
        assert t == t[..n] + "S" + u[1..];
        Some(SecondsCapture(t[..n], None, u[1..]))
      else None
  }

  // ---------------------------------------------------------------- the two expressions

  /** `P((?P<week>\d+)W)`: the captured digits of the leftmost match, if there is one. */
  function WeekMatch(s: string): (w: Option<string>)
    ensures w.Some? ==> 'P' in s && |w.value| > 0 && AllDigits(w.value)
  {
    if |s| == 0 then None
    else if s[0] == 'P' && UnitGroup(s[1..], 'W').Some? then Some(UnitGroup(s[1..], 'W').value.digits)
    else
      var w := WeekMatch(s[1..]);
      assert w.Some? ==> 'P' in s by {
        if w.Some? {
          var k :| 0 <= k < |s[1..]| && s[1..][k] == 'P';
          assert s[k + 1] == 'P';
        }
      }
      w
  }

  /** What the groups of `full` captured. */
  datatype FullMatch = FullMatch(year: Option<string>, month: Option<string>, day: Option<string>,
                                 time: bool, hour: Option<string>, minute: Option<string>,
                                 second: Option<SecondsCapture>)

  /** An optional group `((\d+)u)?`: the captured digits if it matched, and the text after it. */
  function Optional(t: string, unit: char): (Option<string>, string) {
    match UnitGroup(t, unit)
    case Some(g) => (Some(g.digits), g.rest)
    case None => (None, t)
  }

  predicate DigitCapture(o: Option<string>) {
    o.Some? ==> |o.value| > 0 && AllDigits(o.value)
  }

  /** Every group that took part captured a non-empty run of digits. */
  predicate WellFormed(m: FullMatch) {
    && DigitCapture(m.year) && DigitCapture(m.month) && DigitCapture(m.day)
    && DigitCapture(m.hour) && DigitCapture(m.minute)
    && (m.second.Some? ==> |m.second.value.whole| > 0 && AllDigits(m.second.value.whole)
                           && DigitCapture(m.second.value.fraction))
  }

  /** The groups of `full` for the text after its `P`. The `T` group matches any `T`, even one followed
      by none of its three groups. */
  function MatchAfterP(t: string, fractionRequired: bool): (m: FullMatch)
    ensures WellFormed(m)
    ensures fractionRequired && m.second.Some? ==> m.second.value.fraction.Some?
  {
    var (year, t1) := Optional(t, 'Y');
    var (month, t2) := Optional(t1, 'M');
    var (day, t3) := Optional(t2, 'D');
    if |t3| > 0 && t3[0] == 'T' then
      var (hour, u1) := Optional(t3[1..], 'H');
      var (minute, u2) := Optional(u1, 'M');
      FullMatch(year, month, day, true, hour, minute, SecondsGroup(u2, fractionRequired))
    else
      FullMatch(year, month, day, false, None, None, None)
  }

  /** `full` matches exactly the strings with a `P`, from the first one. */
  function FullMatchOf(s: string, fractionRequired: bool): (m: FullMatch)
    requires 'P' in s
    ensures WellFormed(m)
  {
    MatchAfterP(s[IndexOf(s, 'P') + 1..], fractionRequired)
  }

  // ---------------------------------------------------------------- FindStringSubmatch and SubexpNames

  function Captured(o: Option<string>): string {
    if o.Some? then o.value else ""
  }

  function Suffixed(o: Option<string>, unit: char): string {
    if o.Some? then o.value + [unit] else ""
  }

  /** The texts of `full`'s fourteen groups; group 0 is the whole match, a group that did not take part
      is the empty string. */
  function Captures(m: FullMatch): (parts: seq<string>)
    ensures |parts| == |FullNames|
  {
    var secs := if m.second.Some? then SecondsText(m.second.value) else "";
    var secsOuter := if m.second.Some? then secs + "S" else "";
    var time := if m.time then "T" + Suffixed(m.hour, 'H') + Suffixed(m.minute, 'M') + secsOuter else "";
    ["P" + Suffixed(m.year, 'Y') + Suffixed(m.month, 'M') + Suffixed(m.day, 'D') + time,
     Suffixed(m.year, 'Y'), Captured(m.year), Suffixed(m.month, 'M'), Captured(m.month),
     Suffixed(m.day, 'D'), Captured(m.day), time,
     Suffixed(m.hour, 'H'), Captured(m.hour), Suffixed(m.minute, 'M'), Captured(m.minute),
     secsOuter, secs]
  }

  /** The entries of `SubexpNames`: the unnamed groups (and the whole match) have the empty name, the
      others the names `year`, `month`, `week`, `day`, `hour`, `minute` and `second` that the two
      expressions declare. */
  datatype GroupName = Unnamed | Year | Month | Week | Day | Hour | Minute | Second

  /** `full.SubexpNames()`. */
  const FullNames := [Unnamed, Unnamed, Year, Unnamed, Month, Unnamed, Day, Unnamed, Unnamed, Hour, Unnamed,
                      Minute, Unnamed, Second]

  /** The texts of `week`'s three groups. */
  function WeekCaptures(w: string): (parts: seq<string>)
    ensures |parts| == |WeekNames|
  {
    ["P" + w + "W", w + "W", w]
  }

  /** `week.SubexpNames()`. */
  const WeekNames := [Unnamed, Unnamed, Week]

  // ---------------------------------------------------------------- the values

  /** `int(strconv.ParseFloat(part, 64))` on the text of a digit group, taken exactly. */
  function Number(part: string): nat {
    DecimalValue(part[..DigitRun(part)])
  }

  lemma NumberOfDigits(d: string)
    requires AllDigits(d)
    ensures Number(d) == DecimalValue(d)
  {
    DigitRunOfDigitsThen(d, "");
    assert d + "" == d;
    assert d[..|d|] == d;
  }

  lemma NumberOfDecimal(n: nat)
    ensures Number(Decimal(n)) == n
  {
    NumberOfDigits(Decimal(n));
  }

  /** `int(milli * 1000)` for the fractional part `milli` of `math.Modf` of the seconds group's value:
      `fractionMillis` gives it for the digits after the point, no point means no fraction. */
  function Millis(part: string, fractionMillis: string -> int): int {
    var n := DigitRun(part);
    if n < |part| && part[n] == '.' then fractionMillis(part[n + 1..]) else 0
  }

  /** What one turn of the loop does to the fields for a group named `name` whose text is `part`. */
  function Assign(f: Fields, name: GroupName, part: string, fractionMillis: string -> int): Fields {
    if part == "" then f
    else
      match name
      case Unnamed => f
      case Year => f.(years := Number(part))
      case Month => f.(months := Number(part))
      case Week => f.(weeks := Number(part))
      case Day => f.(days := Number(part))
      case Hour => f.(hours := Number(part))
      case Minute => f.(minutes := Number(part))
      case Second => f.(seconds := Number(part), milliSeconds := Millis(part, fractionMillis))
  }

  /** The loop from group `i` on. */
  function AssignFrom(f: Fields, names: seq<GroupName>, parts: seq<string>, i: nat, fractionMillis: string -> int): Fields
    requires |names| == |parts| && i <= |names|
    decreases |names| - i
  {
    if i == |names| then f
    else AssignFrom(Assign(f, names[i], parts[i], fractionMillis), names, parts, i + 1, fractionMillis)
  }

  /** The fields the groups of a `full` match describe. */
  function FieldsOfMatch(m: FullMatch, fractionMillis: string -> int): Fields {
    Fields(Count(m.year), Count(m.month), 0, Count(m.day), Count(m.hour), Count(m.minute),
           if m.second.Some? then Number(m.second.value.whole) else 0,
           if m.second.Some? && m.second.value.fraction.Some? then fractionMillis(m.second.value.fraction.value) else 0)
  }

  function Count(o: Option<string>): nat {
    if o.Some? then Number(o.value) else 0
  }

  /** What `durationFromString` computes: `week` first, then `full`, else the format error. */
  function ParseWith(dur: string, fractionMillis: string -> int, fractionRequired: bool): (r: Result<Fields, Error>)
    ensures r.Failure? <==> 'P' !in dur
    ensures r.Failure? ==> r.error == ErrBadFormat
    ensures WeekMatch(dur).Some? ==> r == Success(Zero.(weeks := Number(WeekMatch(dur).value)))
  {
    match WeekMatch(dur)
    case Some(w) => Success(Zero.(weeks := Number(w)))
    case None =>
      if 'P' in dur then Success(FieldsOfMatch(FullMatchOf(dur, fractionRequired), fractionMillis))
      else Failure(ErrBadFormat)
  }

  /** `durationFromString` with the seconds group as written. */
  function ParseAsWritten(dur: string, fractionMillis: string -> int): Result<Fields, Error> {
    ParseWith(dur, fractionMillis, true)
  }

  /** `durationFromString` with the fraction of the seconds group optional. */
  function Parse(dur: string, fractionMillis: string -> int): Result<Fields, Error> {
    ParseWith(dur, fractionMillis, false)
  }

  // ---------------------------------------------------------------- the loop over the groups

  /** Walking `full`'s group table gives the fields its groups describe. */
  lemma AssignFullGroups(m: FullMatch, fractionMillis: string -> int)
    requires WellFormed(m)
    ensures AssignFrom(Zero, FullNames, Captures(m), 0, fractionMillis) == FieldsOfMatch(m, fractionMillis)
  {
    var p := Captures(m);
    AssignFullTable(m, p, fractionMillis);
  }

  lemma AssignFullTable(m: FullMatch, p: seq<string>, fm: string -> int)
    requires WellFormed(m) && |p| == |FullNames|
    requires p[2] == Captured(m.year) && p[4] == Captured(m.month) && p[6] == Captured(m.day)
    requires p[9] == Captured(m.hour) && p[11] == Captured(m.minute)
    requires p[13] == if m.second.Some? then SecondsText(m.second.value) else ""
    ensures AssignFrom(Zero, FullNames, p, 0, fm) == FieldsOfMatch(m, fm)
  {
    var d := Zero.(years := Count(m.year), months := Count(m.month), days := Count(m.day));
    AssignDateTable(m, p, fm);
    AssignTimeTable(m, p, d, fm);
  }

  lemma AssignDateTable(m: FullMatch, p: seq<string>, fm: string -> int)
    requires |p| == |FullNames|
    requires p[2] == Captured(m.year) && p[4] == Captured(m.month) && p[6] == Captured(m.day)
    requires DigitCapture(m.year) && DigitCapture(m.month) && DigitCapture(m.day)
    ensures AssignFrom(Zero, FullNames, p, 0, fm)
         == AssignFrom(Zero.(years := Count(m.year), months := Count(m.month), days := Count(m.day)), FullNames, p, 9, fm)
  {
    var y := Zero.(years := Count(m.year));
    var mo := y.(months := Count(m.month));
    var d := mo.(days := Count(m.day));
    assert AssignFrom(Zero, FullNames, p, 0, fm) == AssignFrom(Zero, FullNames, p, 2, fm);
    assert AssignFrom(Zero, FullNames, p, 2, fm) == AssignFrom(y, FullNames, p, 4, fm);
    assert AssignFrom(y, FullNames, p, 4, fm) == AssignFrom(mo, FullNames, p, 6, fm);
    assert AssignFrom(mo, FullNames, p, 6, fm) == AssignFrom(d, FullNames, p, 8, fm);
  }

  lemma AssignTimeTable(m: FullMatch, p: seq<string>, d: Fields, fm: string -> int)
    requires WellFormed(m) && |p| == |FullNames|
    requires p[9] == Captured(m.hour) && p[11] == Captured(m.minute)
    requires p[13] == if m.second.Some? then SecondsText(m.second.value) else ""
    requires d == Zero.(years := Count(m.year), months := Count(m.month), days := Count(m.day))
    ensures AssignFrom(d, FullNames, p, 9, fm) == FieldsOfMatch(m, fm)
  {
    SecondsPart(m.second, fm);
    var h := d.(hours := Count(m.hour));
    var mi := h.(minutes := Count(m.minute));
    assert AssignFrom(d, FullNames, p, 9, fm) == AssignFrom(h, FullNames, p, 11, fm);
    assert AssignFrom(h, FullNames, p, 11, fm) == AssignFrom(mi, FullNames, p, 13, fm);
    assert AssignFrom(mi, FullNames, p, 13, fm) == Assign(mi, Second, p[13], fm);
  }

  /** The seconds text of a match, read back: the whole seconds and the milliseconds of the fraction. */
  lemma SecondsPart(c: Option<SecondsCapture>, fractionMillis: string -> int)
    requires c.Some? ==> |c.value.whole| > 0 && AllDigits(c.value.whole)
    ensures var secs := if c.Some? then SecondsText(c.value) else "";
      && (secs == "" <==> c.None?)
      && (c.Some? ==> Number(secs) == Number(c.value.whole))
      && (c.Some? ==> Millis(secs, fractionMillis)
                      == if c.value.fraction.Some? then fractionMillis(c.value.fraction.value) else 0)
  {
    if c.Some? {
      var secs := SecondsText(c.value);
      var w := c.value.whole;
      var tail := if c.value.fraction.Some? then "." + c.value.fraction.value else "";
      assert secs == w + tail;
      DigitRunOfDigitsThen(w, tail);
      NumberOfDigits(w);
      assert secs[..|w|] == w;
      if c.value.fraction.Some? {
        assert secs[|w|] == '.';
        assert secs[|w| + 1..] == c.value.fraction.value;
      }
    }
  }

  /** Walking `week`'s group table sets the weeks alone. */
  lemma AssignWeekGroups(w: string, fractionMillis: string -> int)
    requires |w| > 0
    ensures AssignFrom(Zero, WeekNames, WeekCaptures(w), 0, fractionMillis) == Zero.(weeks := Number(w))
  {
    var p := WeekCaptures(w);
    assert AssignFrom(Zero, WeekNames, p, 0, fractionMillis) == AssignFrom(Zero, WeekNames, p, 2, fractionMillis);
  }

  /** `durationFromString`, with `fractionMillis` standing for the floating-point arithmetic that turns the
      digits after the point into milliseconds. The loop visits the groups in the order `SubexpNames`
      lists them and skips the whole match, the unnamed groups and the groups that did not match; the
      `default` arm of its `switch` is never reached, because both tables name only handled fields.
      `fractionRequired` selects the seconds group: `true` is the grammar as written, whose seconds
      need a fraction, and `false` the corrected one. */
  method FromString(dur: string, fractionMillis: string -> int, fractionRequired: bool) returns (r: Result<Duration, Error>)
    ensures r.Failure? <==> 'P' !in dur
    ensures r.Failure? ==> r.error == ErrBadFormat
    ensures r.Success? ==> fresh(r.value) && ParseWith(dur, fractionMillis, fractionRequired) == Success(r.value.Value())
  {
    var groups: seq<string>;
    var names: seq<GroupName>;
    var w := WeekMatch(dur);
    if w.Some? {
      groups, names := WeekCaptures(w.value), WeekNames;
      AssignWeekGroups(w.value, fractionMillis);
    } else if 'P' in dur {
      groups, names := Captures(FullMatchOf(dur, fractionRequired)), FullNames;
      AssignFullGroups(FullMatchOf(dur, fractionRequired), fractionMillis);
    } else {
      return Failure(ErrBadFormat);
    }
    var d := AssignGroups(names, groups, fractionMillis);
    return Success(d);
  }

  /** The loop of `durationFromString` over the group names and the matched texts. Its `switch` has one
      arm per declared name, so its `default` arm is not modelled. */
  method AssignGroups(names: seq<GroupName>, groups: seq<string>, fractionMillis: string -> int) returns (d: Duration)
    requires |names| == |groups| && |names| > 0 && names[0] == Unnamed
    ensures fresh(d) && d.Value() == AssignFrom(Zero, names, groups, 0, fractionMillis)
  {
    d := new Duration(Zero);
    for i := 0 to |names|
      invariant AssignFrom(d.Value(), names, groups, i, fractionMillis) == AssignFrom(Zero, names, groups, 0, fractionMillis)
    {
      var name, part := names[i], groups[i];
      if i == 0 || name == Unnamed || part == "" {
        continue;
      }
      match name {
        case Year => d.years := Number(part);
        case Month => d.months := Number(part);
        case Week => d.weeks := Number(part);
        case Day => d.days := Number(part);
        case Hour => d.hours := Number(part);
        case Minute => d.minutes := Number(part);
        case Second =>
          d.seconds := Number(part);
          d.milliSeconds := Millis(part, fractionMillis);
      }
    }
  }

  // ---------------------------------------------------------------- reading back what `string` writes

  lemma NoGroupAtNonDigit(s: string, u: char)
    requires s == [] || !IsDigit(s[0])
    ensures UnitGroup(s, u) == None
    ensures SecondsGroup(s, true) == None && SecondsGroup(s, false) == None
  {
  }

  lemma PartDigitRun(n: int, v: char, rest: string)
    requires n > 0 && !IsDigit(v)
    ensures var t := Part(n, v) + rest;
      && DigitRun(t) == |Decimal(n)| && |Decimal(n)| < |t|
      && t[..|Decimal(n)|] == Decimal(n) && t[|Decimal(n)|] == v && t[|Decimal(n)| + 1..] == rest
  {
    var d := Decimal(n);
    var t := Part(n, v) + rest;
    assert t == d + ([v] + rest);
    DigitRunOfDigitsThen(d, [v] + rest);
  }

  /** A written unit is read back by the group of the same unit... */
  lemma GroupOfPart(n: int, u: char, rest: string)
    requires n > 0 && !IsDigit(u)
    ensures Optional(Part(n, u) + rest, u) == (Some(Decimal(n)), rest)
  {
    PartDigitRun(n, u, rest);
  }

  /** ...and skipped by the groups of the units before it. */
  lemma NoGroupOfOtherPart(k: int, v: char, rest: string, u: char)
    requires !IsDigit(v) && v != u && UnitGroup(rest, u) == None
    ensures UnitGroup(Part(k, v) + rest, u) == None
    ensures k <= 0 ==> Part(k, v) + rest == rest
  {
    if k > 0 {
      PartDigitRun(k, v, rest);
    } else {
      assert Part(k, v) == "";
      assert Part(k, v) + rest == rest;
    }
  }

  /** An optional group reads back the unit written at the start, if there is one. */
  lemma OptionalPart(n: int, u: char, rest: string)
    requires n >= 0 && !IsDigit(u) && UnitGroup(rest, u) == None
    ensures Optional(Part(n, u) + rest, u) == (Digits(n), rest)
  {
    if n > 0 {
      GroupOfPart(n, u, rest);
    } else {
      assert Part(n, u) + rest == rest;
    }
  }

  lemma SecondsOfPart(n: int)
    requires n > 0
    ensures SecondsGroup(Part(n, 'S'), false) == Some(SecondsCapture(Decimal(n), None, ""))
    ensures SecondsGroup(Part(n, 'S'), true) == None
  {
    PartDigitRun(n, 'S', "");
    assert Part(n, 'S') + "" == Part(n, 'S');
  }

  function Digits(n: int): Option<string> {
    if n > 0 then Some(Decimal(n)) else None
  }

  /** The groups `full` finds in the time units `string` writes after the `T`. */
  lemma MatchRenderedTime(g: Fields, fractionRequired: bool)
    requires NonNegative(g)
    ensures Optional(TimeText(g), 'H') == (Digits(g.hours), Part(g.minutes, 'M') + Part(g.seconds, 'S'))
    ensures Optional(Part(g.minutes, 'M') + Part(g.seconds, 'S'), 'M') == (Digits(g.minutes), Part(g.seconds, 'S'))
    ensures SecondsGroup(Part(g.seconds, 'S'), fractionRequired)
         == if g.seconds > 0 && !fractionRequired then Some(SecondsCapture(Decimal(g.seconds), None, "")) else None
  {
    var ps := Part(g.seconds, 'S');
    var pm := Part(g.minutes, 'M');
    NoGroupAtNonDigit("", 'M');
    NoGroupAtNonDigit("", 'H');
    NoGroupOfOtherPart(g.seconds, 'S', "", 'M');
    NoGroupOfOtherPart(g.seconds, 'S', "", 'H');
    assert ps + "" == ps;
    NoGroupOfOtherPart(g.minutes, 'M', ps, 'H');
    assert TimeText(g) == Part(g.hours, 'H') + (pm + ps);
    OptionalPart(g.hours, 'H', pm + ps);
    OptionalPart(g.minutes, 'M', ps);
    if g.seconds > 0 { SecondsOfPart(g.seconds); } else { NoGroupAtNonDigit(ps, 'S'); }
  }

  /** The date units `string` writes for fields without weeks, read by the date groups of `full`. */
  lemma MatchRenderedDate(g: Fields, tail: string)
    requires NonNegative(g)
    requires tail == [] || !IsDigit(tail[0])
    ensures var pd := Part(g.days, 'D') + tail;
      var pm := Part(g.months, 'M') + pd;
      && Optional(Part(g.years, 'Y') + pm, 'Y') == (Digits(g.years), pm)
      && Optional(pm, 'M') == (Digits(g.months), pd)
      && Optional(pd, 'D') == (Digits(g.days), tail)
      && UnitGroup(Part(g.years, 'Y') + pm, 'W') == None
  {
    var pd := Part(g.days, 'D') + tail;
    var pm := Part(g.months, 'M') + pd;
    NoGroupAtNonDigit(tail, 'Y');
    NoGroupAtNonDigit(tail, 'M');
    NoGroupAtNonDigit(tail, 'D');
    NoGroupAtNonDigit(tail, 'W');
    NoGroupOfOtherPart(g.days, 'D', tail, 'M');
    NoGroupOfOtherPart(g.days, 'D', tail, 'Y');
    NoGroupOfOtherPart(g.days, 'D', tail, 'W');
    NoGroupOfOtherPart(g.months, 'M', pd, 'Y');
    NoGroupOfOtherPart(g.months, 'M', pd, 'W');
    NoGroupOfOtherPart(g.years, 'Y', pm, 'W');
    OptionalPart(g.years, 'Y', pm);
    OptionalPart(g.months, 'M', pd);
    OptionalPart(g.days, 'D', tail);
  }

  /** The groups `full` finds in the text `string` writes for fields without weeks. */
  function RenderedMatch(g: Fields, fractionRequired: bool): FullMatch {
    FullMatch(Digits(g.years), Digits(g.months), Digits(g.days), HasTimePart(g),
              if HasTimePart(g) then Digits(g.hours) else None,
              if HasTimePart(g) then Digits(g.minutes) else None,
              if HasTimePart(g) && g.seconds > 0 && !fractionRequired
              then Some(SecondsCapture(Decimal(g.seconds), None, "")) else None)
  }

  function TimeTail(g: Fields): string {
    if HasTimePart(g) then "T" + TimeText(g) else ""
  }

  lemma RenderWithoutWeeks(g: Fields)
    requires g.weeks == 0
    ensures Render(g) == "P" + (Part(g.years, 'Y') + (Part(g.months, 'M') + (Part(g.days, 'D') + TimeTail(g))))
  {
    assert Part(g.weeks, 'W') == "";
  }

  lemma MatchRendered(g: Fields, fractionRequired: bool)
    requires NonNegative(g) && g.weeks == 0
    ensures WeekMatch(Render(g)) == None
    ensures 'P' in Render(g) && FullMatchOf(Render(g), fractionRequired) == RenderedMatch(g, fractionRequired)
  {
    RenderDesignators(g);
    RenderWithoutWeeks(g);
    var s := Render(g);
    var t := Part(g.years, 'Y') + (Part(g.months, 'M') + (Part(g.days, 'D') + TimeTail(g)));
    assert s[1..] == t;
    MatchRenderedDate(g, TimeTail(g));
    assert IndexOf(s, 'P') == 0;
    NoWeekWithoutP(s[1..]);
    MatchAfterPRendered(g, fractionRequired, t);
  }

  lemma MatchAfterPRendered(g: Fields, fractionRequired: bool, t: string)
    requires NonNegative(g)
    requires t == Part(g.years, 'Y') + (Part(g.months, 'M') + (Part(g.days, 'D') + TimeTail(g)))
    ensures MatchAfterP(t, fractionRequired) == RenderedMatch(g, fractionRequired)
  {
    var tail := TimeTail(g);
    assert tail == [] || !IsDigit(tail[0]);
    MatchRenderedDate(g, tail);
    if HasTimePart(g) {
      assert tail[1..] == TimeText(g);
      MatchRenderedTime(g, fractionRequired);
    }
  }

  lemma {:induction false} NoWeekWithoutP(s: string)
    requires 'P' !in s
    ensures WeekMatch(s) == None
  {
    if |s| > 0 {
      assert 'P' !in s[1..] by {
        forall k | 0 <= k < |s[1..]| ensures s[1..][k] != 'P' { assert s[1..][k] == s[k + 1]; }
      }
      NoWeekWithoutP(s[1..]);
    }
  }

  /** The weeks `string` writes right after the `P` are read back by `week`, which ignores what follows. */
  lemma MatchRenderedWeeks(g: Fields)
    requires NonNegative(g) && g.weeks > 0 && g.years == 0 && g.months == 0
    ensures WeekMatch(Render(g)) == Some(Decimal(g.weeks))
  {
    var rest := Part(g.days, 'D') + TimeTail(g);
    RenderWeeksFirst(g);
    assert Render(g)[1..] == Part(g.weeks, 'W') + rest;
    GroupOfPart(g.weeks, 'W', rest);
  }

  lemma RenderWeeksFirst(g: Fields)
    requires g.years <= 0 && g.months <= 0
    ensures Render(g) == "P" + (Part(g.weeks, 'W') + (Part(g.days, 'D') + TimeTail(g)))
  {
    assert Part(g.years, 'Y') == "" && Part(g.months, 'M') == "";
  }

  /** Reading back the text `string` writes for fields it accepts: with the seconds group as corrected
      every field but the milliseconds comes back, unless there are weeks, in which case `week` matches
      first and only the weeks come back. */
  lemma ParseRender(g: Fields, fractionMillis: string -> int)
    requires NonNegative(g) && !WeeksWithYearsOrMonths(g)
    ensures Parse(Render(g), fractionMillis)
         == Success(if g.weeks > 0 then Zero.(weeks := g.weeks) else g.(milliSeconds := 0))
  {
    if g.weeks > 0 {
      MatchRenderedWeeks(g);
      NumberOfDecimal(g.weeks);
    } else {
      MatchRendered(g, false);
      RenderedFields(g, false, fractionMillis);
    }
  }

  /** With the seconds group as written, the whole seconds `string` writes are not read back either. */
  lemma ParseAsWrittenRender(g: Fields, fractionMillis: string -> int)
    requires NonNegative(g) && !WeeksWithYearsOrMonths(g)
    ensures ParseAsWritten(Render(g), fractionMillis)
         == Success(if g.weeks > 0 then Zero.(weeks := g.weeks) else g.(seconds := 0, milliSeconds := 0))
  {
    if g.weeks > 0 {
      MatchRenderedWeeks(g);
      NumberOfDecimal(g.weeks);
    } else {
      MatchRendered(g, true);
      RenderedFields(g, true, fractionMillis);
    }
  }

  lemma RenderedFields(g: Fields, fractionRequired: bool, fractionMillis: string -> int)
    requires NonNegative(g) && g.weeks == 0
    ensures FieldsOfMatch(RenderedMatch(g, fractionRequired), fractionMillis)
         == g.(seconds := if fractionRequired then 0 else g.seconds, milliSeconds := 0)
  {
    CountDigits(g.years);
    CountDigits(g.months);
    CountDigits(g.days);
    CountDigits(g.hours);
    CountDigits(g.minutes);
    if g.seconds > 0 { NumberOfDecimal(g.seconds); }
  }

  lemma CountDigits(n: int)
    requires n >= 0
    ensures Count(Digits(n)) == n
  {
    if n > 0 { NumberOfDecimal(n); }
  }

  /** `string` followed by `durationFromString` with the corrected seconds grammar, for non-negative
      fields that `string` accepts. */
  lemma StringThenParse(f: Fields, fractionMillis: string -> int)
    requires NonNegative(f) && NormalizeError(f) == None
    ensures var n := Normalized(f);
      Parse(Render(n), fractionMillis) == Success(if n.weeks > 0 then Zero.(weeks := n.weeks) else n.(milliSeconds := 0))
  {
    NormalizeBounds(f);
    ParseRender(Normalized(f), fractionMillis);
  }

  /** `string` followed by `durationFromString` as written: the same, except that the whole seconds
      `string` writes read back as zero. */
  lemma StringThenParseAsWritten(f: Fields, fractionMillis: string -> int)
    requires NonNegative(f) && NormalizeError(f) == None
    ensures var n := Normalized(f);
      ParseAsWritten(Render(n), fractionMillis)
        == Success(if n.weeks > 0 then Zero.(weeks := n.weeks) else n.(seconds := 0, milliSeconds := 0))
  {
    NormalizeBounds(f);
    ParseAsWrittenRender(Normalized(f), fractionMillis);
  }

  /** As written, the text `PT1S` that `string` writes for 1001 milliseconds reads back as zero. */
  lemma AsWrittenDropsWholeSeconds(fractionMillis: string -> int)
    ensures Render(Normalized(Zero.(milliSeconds := 1001))) == "PT1S"
    ensures ParseAsWritten("PT1S", fractionMillis) == Success(Zero)
    ensures Parse("PT1S", fractionMillis) == Success(Zero.(seconds := 1))
  {
    NormalizeExamples();
    RenderExamples();
    ParseAsWrittenRender(Zero.(seconds := 1, milliSeconds := 1), fractionMillis);
    ParseRender(Zero.(seconds := 1, milliSeconds := 1), fractionMillis);
  }

  /** The parses of the package's tests with the corrected grammar, and the loss of the days after the
      weeks. */
  lemma ParseExamples(fractionMillis: string -> int)
    ensures Parse("P1M", fractionMillis) == Success(Zero.(months := 1))
    ensures Parse("P1MT1M", fractionMillis) == Success(Zero.(months := 1, minutes := 1))
    ensures Parse("P1W1D", fractionMillis) == Success(Zero.(weeks := 1))
    ensures Parse("1W", fractionMillis) == Failure(ErrBadFormat)
  {
    assert Decimal(1) == "1";
    assert Render(Zero.(months := 1)) == "P1M";
    assert Render(Zero.(months := 1, minutes := 1)) == "P1MT1M";
    assert Render(Zero.(weeks := 1, days := 1)) == "P1W1D";
    ParseRender(Zero.(months := 1), fractionMillis);
    ParseRender(Zero.(months := 1, minutes := 1), fractionMillis);
    ParseRender(Zero.(weeks := 1, days := 1), fractionMillis);
  }

  /** The same parses with the grammar as written, which the package's tests run: none of these texts
      has a seconds group, so both grammars agree on them. */
  lemma ParseAsWrittenExamples(fractionMillis: string -> int)
    ensures ParseAsWritten("P1M", fractionMillis) == Success(Zero.(months := 1))
    ensures ParseAsWritten("P1MT1M", fractionMillis) == Success(Zero.(months := 1, minutes := 1))
    ensures ParseAsWritten("P1W1D", fractionMillis) == Success(Zero.(weeks := 1))
    ensures ParseAsWritten("1W", fractionMillis) == Failure(ErrBadFormat)
  {
    assert Decimal(1) == "1";
    assert Render(Zero.(months := 1)) == "P1M";
    assert Render(Zero.(months := 1, minutes := 1)) == "P1MT1M";
    assert Render(Zero.(weeks := 1, days := 1)) == "P1W1D";
    ParseAsWrittenRender(Zero.(months := 1), fractionMillis);
    ParseAsWrittenRender(Zero.(months := 1, minutes := 1), fractionMillis);
    ParseAsWrittenRender(Zero.(weeks := 1, days := 1), fractionMillis);
  }
}
