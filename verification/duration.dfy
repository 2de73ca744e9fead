/**
 * Duration codec: a number of seconds <-> {days, hours, minutes, seconds}.
 * Inputs are JavaScript numbers that may be null, undefined or non-finite;
 * `None` stands for null and undefined alike.
 */
module Duration {
  import opened Wrappers
  import opened Numbers

  const SecondsPerDay: int := 86400
  const SecondsPerHour: int := 3600
  const SecondsPerMinute: int := 60

  /** The parts of a duration; `seconds` keeps any fractional part of the input. */
  datatype Parts = Parts(days: int, hours: int, minutes: int, seconds: real)

  /** The parts, read back as the four optional numbers the UI fields hold. */
  function AsInputs(p: Parts): (Option<Num>, Option<Num>, Option<Num>, Option<Num>) {
    (Some(Fin(p.days as real)), Some(Fin(p.hours as real)), Some(Fin(p.minutes as real)), Some(Fin(p.seconds)))
  }

  /** The input is a finite number greater than zero. */
  predicate IsPositiveFinite(x: Option<Num>) {
    x.Some? && x.value.Fin? && x.value.r > 0.0
  }

  /** The total the codec works on: the input when positive and finite, otherwise 0. */
  function Clamped(x: Option<Num>): (t: real)
    ensures t >= 0.0
  {
    if IsPositiveFinite(x) then x.value.r else 0.0
  }

  /** `partsFromSeconds`: successive floor division by 86400, 3600 and 60. */
  function PartsFromSeconds(totalSeconds: Option<Num>): (p: Parts)
    ensures p.days >= 0 && 0 <= p.hours < 24 && 0 <= p.minutes < 60
    ensures 0.0 <= p.seconds < 60.0
    ensures (p.days * SecondsPerDay + p.hours * SecondsPerHour + p.minutes * SecondsPerMinute) as real + p.seconds
            == Clamped(totalSeconds)
    ensures !IsPositiveFinite(totalSeconds) ==> p == Parts(0, 0, 0, 0.0)
  {
    var total := Clamped(totalSeconds);
    var days := (total / 86400.0).Floor;
    var remainderAfterDays := total - (days as real) * 86400.0;
    var hours := (remainderAfterDays / 3600.0).Floor;
    var remainderAfterHours := remainderAfterDays - (hours as real) * 3600.0;
    var minutes := (remainderAfterHours / 60.0).Floor;
    var seconds := remainderAfterHours - (minutes as real) * 60.0;
    Parts(days, hours, minutes, seconds)
  }

  /** One part of `secondsFromParts`: floored when positive and finite, otherwise 0. */
  function WholePart(x: Option<Num>): (n: int)
    ensures n >= 0
    ensures n > 0 ==> IsPositiveFinite(x)
    ensures IsPositiveFinite(x) ==> n as real <= x.value.r < n as real + 1.0
    ensures n as real <= Clamped(x) < n as real + 1.0
  {
    if IsPositiveFinite(x) then x.value.r.Floor else 0
  }

  /** `secondsFromParts`: total seconds of the given parts, ignoring missing or non-positive ones. */
  function SecondsFromParts(days: Option<Num>, hours: Option<Num>, minutes: Option<Num>, seconds: Option<Num>): (n: int)
    ensures n >= 0
    ensures (!IsPositiveFinite(days) && !IsPositiveFinite(hours)
             && !IsPositiveFinite(minutes) && !IsPositiveFinite(seconds)) ==> n == 0
    ensures n as real <= Clamped(days) * 86400.0 + Clamped(hours) * 3600.0
                         + Clamped(minutes) * 60.0 + Clamped(seconds)
    ensures n as real > Clamped(days) * 86400.0 + Clamped(hours) * 3600.0
                        + Clamped(minutes) * 60.0 + Clamped(seconds) - 90061.0
  {
    WholePart(days) * SecondsPerDay + WholePart(hours) * SecondsPerHour
    + WholePart(minutes) * SecondsPerMinute + WholePart(seconds)
  }

  /** For a whole number of seconds the parts are the familiar quotients and remainders. */
  lemma {:induction false} PartsOfInteger(n: int)
    requires n >= 0
    ensures PartsFromSeconds(Some(Fin(n as real))) ==
            Parts(n / 86400, (n % 86400) / 3600, (n % 3600) / 60, (n % 60) as real)
  {
    var p := PartsFromSeconds(Some(Fin(n as real)));
    var whole := p.days * 86400 + p.hours * 3600 + p.minutes * 60;
    assert whole as real + p.seconds == n as real;
    var s := n - whole;
    assert s as real == p.seconds;
    UniqueMixedRadix(p.days, p.hours, p.minutes, s, n);
  }

  /** A mixed-radix representation with in-range digits is the quotient/remainder one. */
  lemma UniqueMixedRadix(d: int, h: int, m: int, s: int, n: int)
    requires d >= 0 && 0 <= h < 24 && 0 <= m < 60 && 0 <= s < 60
    requires d * 86400 + h * 3600 + m * 60 + s == n
    ensures d == n / 86400 && h == (n % 86400) / 3600 && m == (n % 3600) / 60 && s == n % 60
  {
    DivModUnique(d, h * 3600 + m * 60 + s, 86400, n);
    DivModUnique(h, m * 60 + s, 3600, n % 86400);
    DivModUnique(d * 24 + h, m * 60 + s, 3600, n);
    DivModUnique(m, s, 60, n % 3600);
    DivModUnique((d * 24 + h) * 60 + m, s, 60, n);
  }

  /** Quotient and remainder by a positive divisor are unique. */
  lemma DivModUnique(q: int, r: int, b: int, n: int)
    requires b > 0 && 0 <= r < b && q * b + r == n
    ensures q == n / b && r == n % b
  {
    var k := q - n / b;
    assert k * b == n % b - r;
    MultipleBound(k, b);
  }

  /** A non-zero multiple of a positive number is at least that number in size. */
  lemma MultipleBound(k: int, b: int)
    requires b > 0
    ensures k >= 1 ==> k * b >= b
    ensures k <= -1 ==> k * b <= -b
  {
  }

  /** Round trip: seconds -> parts -> seconds gives back floor(x) for every non-negative finite x. */
  lemma {:induction false} RoundTripReal(x: real)
    requires x >= 0.0
    ensures var p := AsInputs(PartsFromSeconds(Some(Fin(x))));
            SecondsFromParts(p.0, p.1, p.2, p.3) == x.Floor
  {
    var parts := PartsFromSeconds(Some(Fin(x)));
    var p := AsInputs(parts);
    var whole := parts.days * 86400 + parts.hours * 3600 + parts.minutes * 60;
    assert WholePart(p.0) == parts.days;
    assert WholePart(p.1) == parts.hours;
    assert WholePart(p.2) == parts.minutes;
    assert WholePart(p.3) == parts.seconds.Floor;
    assert whole as real + parts.seconds == x;
    FloorShift(whole, parts.seconds, x);
  }

  lemma FloorShift(k: int, f: real, x: real)
    requires k as real + f == x
    ensures x.Floor == k + f.Floor
  {
  }

  /** Round trip for whole seconds: seconds -> parts -> seconds is the identity. */
  lemma RoundTrip(n: int)
    requires n >= 0
    ensures var p := AsInputs(PartsFromSeconds(Some(Fin(n as real))));
            SecondsFromParts(p.0, p.1, p.2, p.3) == n
  {
    RoundTripReal(n as real);
  }

  /** Converse round trip: in-range parts -> seconds -> parts gives back the same parts. */
  lemma {:induction false} PartsRoundTrip(d: int, h: int, m: int, s: int)
    requires d >= 0 && 0 <= h < 24 && 0 <= m < 60 && 0 <= s < 60
    ensures var n := SecondsFromParts(Some(Fin(d as real)), Some(Fin(h as real)), Some(Fin(m as real)), Some(Fin(s as real)));
            PartsFromSeconds(Some(Fin(n as real))) == Parts(d, h, m, s as real)
  {
    var n := SecondsFromParts(Some(Fin(d as real)), Some(Fin(h as real)), Some(Fin(m as real)), Some(Fin(s as real)));
    assert n == d * 86400 + h * 3600 + m * 60 + s;
    PartsOfInteger(n);
    UniqueMixedRadix(d, h, m, s, n);
  }

  /** Each part is floored on its own: 1.9 days count as one day, and 30 hours are not carried into days. */
  lemma FractionalParts()
    ensures SecondsFromParts(Some(Fin(1.9)), None, None, None) == 86400
    ensures SecondsFromParts(None, Some(Fin(30.0)), None, None) == 108000
    ensures SecondsFromParts(Some(Fin(-2.0)), Some(NaN), Some(Fin(0.5)), Some(Fin(59.9))) == 59
  {
  }

  /** Fractional input keeps its fraction in the seconds part: 1.9 gives 1.9 seconds. */
  lemma FractionalSeconds()
    ensures PartsFromSeconds(Some(Fin(1.9))) == Parts(0, 0, 0, 1.9)
  {
  }
}
