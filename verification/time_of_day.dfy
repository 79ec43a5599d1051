/**
 * Times of day as the scheduler handles them: Python `datetime.time` values
 * with minute resolution, the conversion to minutes after midnight
 * (`time_to_minutes`), the lenient parser `to_time`, and the clock
 * arithmetic of `datetime.combine(today, t) + timedelta(minutes = d)`
 * followed by `.time()`, which wraps past midnight.
 */
module TimeOfDay {
  import opened Wrappers

  const MinutesPerDay: nat := 1440

  datatype HourMinute = HourMinute(hour: nat, minute: nat)

  /** A valid wall-clock time, `time(hour, minute)`. */
  type Clock = t: HourMinute | t.hour < 24 && t.minute < 60 witness HourMinute(0, 0)

  /** `time(0, 0)`, the fallback of `to_time` and `calculate_end_time`. */
  const Midnight: Clock := HourMinute(0, 0)

  /** `time_to_minutes`: minutes elapsed since midnight. */
  function Minutes(t: Clock): (m: nat)
    ensures m < MinutesPerDay
    ensures m / 60 == t.hour && m % 60 == t.minute
  {
    t.hour * 60 + t.minute
  }

  /** The time of day that lies `m` minutes after midnight. */
  function ClockAt(m: nat): (t: Clock)
    requires m < MinutesPerDay
    ensures Minutes(t) == m
  {
    HourMinute(m / 60, m % 60)
  }

  /** Minutes and ClockAt are inverse bijections between clocks and [0, 1440). */
  lemma ClockRoundTrip(t: Clock)
    ensures ClockAt(Minutes(t)) == t
  {
  }

  /** Python's ordering of `time` values: lexicographic on (hour, minute). */
  predicate Later(a: Clock, b: Clock)
  {
    a.hour > b.hour || (a.hour == b.hour && a.minute > b.minute)
  }

  /** Comparing times and comparing their minute counts agree. */
  lemma LaterIsMinuteOrder(a: Clock, b: Clock)
    ensures Later(a, b) <==> Minutes(a) > Minutes(b)
  {
  }

  /**
   * `(datetime.combine(today, t) + timedelta(minutes = delta)).time()`:
   * the clock reading `delta` minutes after (or before, when negative) `t`,
   * wrapping around midnight.
   */
  function ShiftBy(t: Clock, delta: int): (r: Clock)
  {
    ClockAt((Minutes(t) + delta) % MinutesPerDay)
  }

  /** Without a midnight wrap, moving the clock is plain addition of minutes. */
  lemma ShiftWithinDay(t: Clock, delta: int)
    requires 0 <= Minutes(t) + delta < MinutesPerDay
    ensures Minutes(ShiftBy(t, delta)) == Minutes(t) + delta
  {
  }

  /**
   * Moving the clock twice is moving it once by the sum: computing the end
   * of service from the pickup `time` gives the same clock as computing it
   * from the pickup `datetime`.
   */
  lemma ShiftTwice(t: Clock, a: int, b: int)
    ensures ShiftBy(ShiftBy(t, a), b) == ShiftBy(t, a + b)
  {
    var x := Minutes(t) + a;
    var y := ShiftBy(t, a);
    ShiftMinutes(t, a);
    ShiftMinutes(y, b);
    ShiftMinutes(t, a + b);
    ModuloAdd(x, b);
    MinutesInjective(ShiftBy(y, b), ShiftBy(t, a + b));
  }

  lemma ShiftMinutes(t: Clock, delta: int)
    ensures Minutes(ShiftBy(t, delta)) == (Minutes(t) + delta) % MinutesPerDay
  {
  }

  lemma MinutesInjective(c: Clock, d: Clock)
    requires Minutes(c) == Minutes(d)
    ensures c == d
  {
    ClockRoundTrip(c);
    ClockRoundTrip(d);
  }

  /** Reducing modulo a day before adding `b` does not change the sum modulo a day. */
  lemma ModuloAdd(x: int, b: int)
    ensures (x % MinutesPerDay + b) % MinutesPerDay == (x + b) % MinutesPerDay
  {
    var q := x / MinutesPerDay;
    assert x == q * MinutesPerDay + x % MinutesPerDay;
    assert x % MinutesPerDay + b == (x + b) - q * MinutesPerDay;
    ModuloShift(x + b, q);
  }

  lemma ModuloShift(y: int, q: int)
    ensures (y - q * MinutesPerDay) % MinutesPerDay == y % MinutesPerDay
  {
    var n := MinutesPerDay;
    var r := y % n;
    assert y == (y / n) * n + r;
    assert y - q * n == (y / n - q) * n + r;
    assert 0 <= r < n;
  }

  /**
   * `calculate_end_time`: the end of service of an assignment row, its
   * actual pickup time moved by its total service minutes; midnight when
   * either is missing (the exception handler).
   */
  function CalculateEndTime(pickup: Option<Clock>, service: Option<int>): (r: Clock)
    ensures pickup.None? || service.None? ==> r == Midnight
    ensures pickup.Some? && service.Some? ==>
              Minutes(r) == (Minutes(pickup.value) + service.value) % MinutesPerDay
  {
    if pickup.Some? && service.Some? then ShiftBy(pickup.value, service.value) else Midnight
  }

  // ---------------------------------------------------------------------
  // Parsing, as `datetime.strptime(val, '%H:%M')` and `'%H.%M'` do it.
  // ---------------------------------------------------------------------

  predicate IsDigit(c: char)
  {
    '0' <= c <= '9'
  }

  function DigitValue(c: char): (d: nat)
    requires IsDigit(c)
    ensures d < 10
  {
    (c as int) - ('0' as int)
  }

  function Digit(d: nat): (c: char)
    requires d < 10
    ensures IsDigit(c) && DigitValue(c) == d
  {
    (('0' as int) + d) as char
  }

  /**
   * A `%H` or `%M` field: one or two decimal digits and nothing else.
   * (strptime's patterns are `2[0-3]|[0-1]\d|\d` and `[0-5]\d|\d`: the
   * range of the value is checked by the caller.)
   */
  function Field(s: string): (r: Option<nat>)
    ensures r.Some? ==> r.value < 100
  {
    if |s| == 1 && IsDigit(s[0]) then Some(DigitValue(s[0]))
    else if |s| == 2 && IsDigit(s[0]) && IsDigit(s[1]) then Some(10 * DigitValue(s[0]) + DigitValue(s[1]))
    else None
  }

  /** Two-digit, zero-padded spelling of `n`: "07". */
  function Padded(n: nat): (s: string)
    requires n < 100
  {
    [Digit(n / 10), Digit(n % 10)]
  }

  /** Shortest spelling of `n`: "7", "42". */
  function Unpadded(n: nat): (s: string)
    requires n < 100
  {
    if n < 10 then [Digit(n)] else Padded(n)
  }

  /**
   * `datetime.strptime(s, '%H' + sep + '%M').time()`, or None where it
   * raises ValueError. The whole string must be consumed.
   */
  function Strptime(s: string, sep: char): (r: Option<Clock>)
    ensures r.Some? ==> s in Spellings(r.value, sep)
  {
    var i := if 2 <= |s| && s[1] == sep then 1 else 2;
    if i < |s| && s[i] == sep then
      var hs, ms := s[..i], s[i + 1..];
      var h := Field(hs);
      var m := Field(ms);
      if h.Some? && m.Some? && h.value < 24 && m.value < 60 then
        FieldSpellings(hs, h.value);
        FieldSpellings(ms, m.value);
        assert s == hs + [sep] + ms;
        Some(HourMinute(h.value, m.value))
      else None
    else None
  }

  /** Every text that spells the time `t` with separator `sep`. */
  function Spellings(t: Clock, sep: char): set<string>
  {
    set hs, ms | hs in {Padded(t.hour), Unpadded(t.hour)} && ms in {Padded(t.minute), Unpadded(t.minute)}
      :: hs + [sep] + ms
  }

  lemma DigitRoundTrip(c: char)
    requires IsDigit(c)
    ensures Digit(DigitValue(c)) == c
  {
  }

  /** A field reads as `n` exactly when it is one of the two spellings of `n`. */
  lemma FieldSpellings(s: string, n: nat)
    requires n < 100
    ensures Field(s) == Some(n) <==> s == Padded(n) || s == Unpadded(n)
  {
    if Field(s) == Some(n) {
      if |s| == 1 {
        DigitRoundTrip(s[0]);
        assert s == [Digit(n)];
      } else {
        DigitRoundTrip(s[0]);
        DigitRoundTrip(s[1]);
        assert n / 10 == DigitValue(s[0]) && n % 10 == DigitValue(s[1]);
        assert s == Padded(n);
      }
    }
  }

  /** A one- or two-digit hour, the separator, then anything, parses field by field. */
  lemma ParseJoined(hs: string, ms: string, sep: char)
    requires !IsDigit(sep)
    requires |hs| == 1 || |hs| == 2
    requires forall k :: 0 <= k < |hs| ==> IsDigit(hs[k])
    ensures var h := Field(hs);
            var m := Field(ms);
            Strptime(hs + [sep] + ms, sep)
              == if h.Some? && m.Some? && h.value < 24 && m.value < 60 then Some(HourMinute(h.value, m.value)) else None
  {
    var s := hs + [sep] + ms;
    var i := |hs|;
    assert s[i] == sep;
    assert |hs| == 2 ==> s[1] == hs[1];
    assert s[..i] == hs;
    assert s[i + 1..] == ms;
  }

  /**
   * `strptime` with format `%H<sep>%M` accepts exactly the spellings of
   * valid times: one or two hour digits, the separator, one or two minute
   * digits.
   */
  lemma StrptimeSpellings(s: string, sep: char, t: Clock)
    requires !IsDigit(sep)
    ensures Strptime(s, sep) == Some(t) <==> s in Spellings(t, sep)
  {
    FieldSpellings(s, t.hour);
    if s in Spellings(t, sep) {
      var hs, ms :| hs in {Padded(t.hour), Unpadded(t.hour)} && ms in {Padded(t.minute), Unpadded(t.minute)}
                    && s == hs + [sep] + ms;
      FieldSpellings(hs, t.hour);
      FieldSpellings(ms, t.minute);
      ParseJoined(hs, ms, sep);
    }
    if Strptime(s, sep) == Some(t) {
      var i := if 2 <= |s| && s[1] == sep then 1 else 2;
      var hs, ms := s[..i], s[i + 1..];
      assert s == hs + [sep] + ms;
      FieldSpellings(hs, t.hour);
      FieldSpellings(ms, t.minute);
    }
  }

  /** The raw value of a time cell of an uploaded sheet. */
  datatype Cell =
    | DateTimeCell(day: int, clock: Clock)  // a `datetime`; its date is dropped
    | TimeCell(clock: Clock)                 // a `time`
    | TextCell(text: string)                 // a `str`
    | OtherCell                              // anything else: a number, NaN

  /**
   * `to_time`: a `datetime` gives its time, a `time` itself, a string is
   * read as HH:MM, failing that as HH.MM, failing that as midnight;
   * every other value becomes midnight.
   */
  function ToTime(v: Cell): (r: Clock)
    ensures v.DateTimeCell? || v.TimeCell? ==> r == v.clock
    ensures v.TextCell? && r != Midnight ==> v.text in Spellings(r, ':') + Spellings(r, '.')
    ensures v.OtherCell? ==> r == Midnight
  {
    match v
    case DateTimeCell(_, t) => t
    case TimeCell(t) => t
    case TextCell(s) =>
      var colon := Strptime(s, ':');
      var dot := Strptime(s, '.');
      if colon.Some? then colon.value else if dot.Some? then dot.value else Midnight
    case OtherCell => Midnight
  }

  /**
   * What `to_time` makes of a string: the time it spells with ':' or '.',
   * and midnight for any string that spells no time.
   */
  lemma ToTimeOfText(s: string, t: Clock)
    ensures s in Spellings(t, ':') + Spellings(t, '.') ==> ToTime(TextCell(s)) == t
    ensures ToTime(TextCell(s)) == t ==>
              s in Spellings(t, ':') + Spellings(t, '.')
              || (t == Midnight && Strptime(s, ':').None? && Strptime(s, '.').None?)
  {
    StrptimeSpellings(s, ':', t);
    StrptimeSpellings(s, '.', t);
    var colon := Strptime(s, ':');
    if colon.Some? {
      StrptimeSpellings(s, ':', colon.value);
      if s in Spellings(t, '.') {
        NoColonInDotSpelling(s, t);
      }
    }
  }

  lemma NoColonInDotSpelling(s: string, t: Clock)
    requires s in Spellings(t, '.')
    ensures Strptime(s, ':').None?
  {
    var hs, ms :| hs in {Padded(t.hour), Unpadded(t.hour)} && ms in {Padded(t.minute), Unpadded(t.minute)}
                  && s == hs + ['.'] + ms;
    assert forall k :: 0 <= k < |s| ==> s[k] != ':';
  }
}
