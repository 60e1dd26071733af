/** The countdown banner: turning the milliseconds left until the sale ends
    into days, hours, minutes and seconds. The clock reading and the
    once-a-second refresh are outside the model; `difference` is the target
    time minus the current time, both in whole milliseconds. */
module CountdownTimer {

  datatype TimeLeft = TimeLeft(days: int, hours: int, minutes: int, seconds: int)

  /** The state shown before the first calculation. */
  const InitialTimeLeft := TimeLeft(0, 0, 0, 0)

  const MillisPerSecond := 1000
  const MillisPerMinute := 60 * MillisPerSecond
  const MillisPerHour := 60 * MillisPerMinute
  const MillisPerDay := 24 * MillisPerHour

  /** JavaScript's `%` on a non-negative dividend and a positive divisor:
      `x - y * trunc(x / y)`, where truncation is the floor. */
  function Remainder(x: real, y: real): real
    requires x >= 0.0 && y > 0.0
  {
    x - y * ((x / y).Floor as real)
  }

  /** `calculateTimeLeft` in exact arithmetic: the divisions are real
      divisions, `%` is JavaScript's remainder and `Math.floor` is `.Floor`. */
  function CalculateTimeLeft(difference: int): TimeLeft {
    if difference > 0 then
      var d := difference as real;
      TimeLeft(
        (d / (1000.0 * 60.0 * 60.0 * 24.0)).Floor,
        Remainder(d / (1000.0 * 60.0 * 60.0), 24.0).Floor,
        Remainder(d / 1000.0 / 60.0, 60.0).Floor,
        Remainder(d / 1000.0, 60.0).Floor)
    else
      TimeLeft(0, 0, 0, 0)
  }

  /** The seconds a countdown state stands for. */
  function TotalSeconds(t: TimeLeft): int {
    ((t.days * 24 + t.hours) * 60 + t.minutes) * 60 + t.seconds
  }

  // ---------------------------------------------------------------------
  // Exact arithmetic of the floors and remainders

  /** `Math.floor(n / m)` for whole numbers is integer division, and the
      fraction it drops lies in [0, 1). */
  lemma FloorOfQuotient(n: int, m: int)
    requires n >= 0 && m > 0
    ensures (n as real / m as real).Floor == n / m
    ensures n as real / m as real - (n / m) as real == (n % m) as real / m as real
    ensures 0.0 <= (n % m) as real / m as real < 1.0
  {
    var q, r := n / m, n % m;
    var mr := m as real;
    assert n == q * m + r;
    assert n as real == q as real * mr + r as real;
    assert n as real / mr == q as real + r as real / mr;
    assert r as real < mr;
    assert r as real / mr < 1.0;
  }

  lemma DivideSum(a: real, k: real, c: real)
    requires k > 0.0
    ensures (a * k + c) / k == a + c / k
  {
  }

  lemma FractionBelowOne(c: real, k: real)
    requires 0.0 <= c < k
    ensures 0.0 <= c / k < 1.0
  {
  }

  /** A fraction below one added to a whole number does not change the
      floor of its quotient by a whole divisor. */
  lemma FloorWithFraction(q: int, f: real, k: int)
    requires q >= 0 && 0.0 <= f < 1.0 && k > 0
    ensures ((q as real + f) / k as real).Floor == q / k
  {
    var kr := k as real;
    var a, b := q / k, q % k;
    assert q as real + f == a as real * kr + (b as real + f) by { assert q == a * k + b; }
    DivideSum(a as real, kr, b as real + f);
    FractionBelowOne(b as real + f, kr);
    var g := (b as real + f) / kr;
    assert (q as real + f) / kr == a as real + g;
    assert a as real <= a as real + g < a as real + 1.0;
  }

  /** `Math.floor((n / m) % k)` for whole numbers is `(n / m) % k` in
      integer arithmetic. */
  lemma FloorOfRemainder(n: int, m: int, k: int)
    requires n >= 0 && m > 0 && k > 0
    ensures Remainder(n as real / m as real, k as real).Floor == (n / m) % k
  {
    var x := n as real / m as real;
    var q := n / m;
    FloorOfQuotient(n, m);
    var f := x - q as real;
    RemainderWithFraction(q, f, k);
    assert Remainder(x, k as real) == (q % k) as real + f;
  }

  /** JavaScript's `%` of a whole number plus a fraction below one keeps the
      fraction and takes the integer remainder of the whole part. */
  lemma RemainderWithFraction(q: int, f: real, k: int)
    requires q >= 0 && 0.0 <= f < 1.0 && k > 0
    ensures Remainder(q as real + f, k as real) == (q % k) as real + f
  {
    var a, b := q / k, q % k;
    FloorWithFraction(q, f, k);
    assert q as real == (k * a) as real + b as real;
    assert (k * a) as real == (k as real) * (a as real);
  }

  // ---------------------------------------------------------------------
  // Properties of the countdown

  /** For a positive difference, every field is the integer floor-division
      and remainder of whole milliseconds and of whole seconds. */
  lemma FieldsAreIntegerDivisions(difference: int)
    requires difference > 0
    ensures var t := CalculateTimeLeft(difference);
      var s := difference / MillisPerSecond;
      && t.days == difference / MillisPerDay
      && t.hours == (difference / MillisPerHour) % 24
      && t.minutes == (difference / MillisPerMinute) % 60
      && t.seconds == s % 60
      && t.days == s / 86400
      && t.hours == (s / 3600) % 24
      && t.minutes == (s / 60) % 60
  {
    DaysField(difference);
    HoursField(difference);
    MinutesField(difference);
    SecondsField(difference);
    DivideBySeconds(difference);
  }

  lemma DaysField(difference: int)
    requires difference > 0
    ensures CalculateTimeLeft(difference).days == difference / MillisPerDay
  {
    FloorOfQuotient(difference, 86400000);
  }

  lemma HoursField(difference: int)
    requires difference > 0
    ensures CalculateTimeLeft(difference).hours == (difference / MillisPerHour) % 24
  {
    var d := difference as real;
    assert d / (1000.0 * 60.0 * 60.0) == d / (3600000 as real);
    FloorOfRemainder(difference, 3600000, 24);
  }

  lemma MinutesField(difference: int)
    requires difference > 0
    ensures CalculateTimeLeft(difference).minutes == (difference / MillisPerMinute) % 60
  {
    var d := difference as real;
    assert d / 1000.0 / 60.0 == d / (60000 as real);
    FloorOfRemainder(difference, 60000, 60);
  }

  lemma SecondsField(difference: int)
    requires difference > 0
    ensures CalculateTimeLeft(difference).seconds == (difference / MillisPerSecond) % 60
  {
    FloorOfRemainder(difference, 1000, 60);
  }

  /** Whole seconds first, then days, hours or minutes: the same as
      dividing the milliseconds directly. */
  lemma DivideBySeconds(n: int)
    requires n >= 0
    ensures n / 1000 / 86400 == n / 86400000
    ensures n / 1000 / 3600 == n / 3600000
    ensures n / 1000 / 60 == n / 60000
  {
  }

  /** Nothing is left once the target time has passed, and the countdown
      then reads as it did before its first calculation. */
  lemma ExpiredIsZero(difference: int)
    requires difference <= 0
    ensures CalculateTimeLeft(difference) == InitialTimeLeft
    ensures TotalSeconds(InitialTimeLeft) == 0
  {
  }

  /** Every field is non-negative and hours, minutes and seconds stay below
      their unit's size. */
  lemma FieldsInRange(difference: int)
    ensures var t := CalculateTimeLeft(difference);
      && t.days >= 0
      && 0 <= t.hours < 24
      && 0 <= t.minutes < 60
      && 0 <= t.seconds < 60
  {
    if difference > 0 {
      FieldsAreIntegerDivisions(difference);
    }
  }

  /** The four fields together represent exactly the whole seconds left. */
  lemma Reconstruction(difference: int)
    requires difference > 0
    ensures TotalSeconds(CalculateTimeLeft(difference)) == difference / MillisPerSecond
  {
    FieldsAreIntegerDivisions(difference);
    var t := CalculateTimeLeft(difference);
    var s := difference / MillisPerSecond;
    RebuildSeconds(s);
    assert TotalSeconds(t) == ((s / 86400 * 24 + (s / 3600) % 24) * 60 + (s / 60) % 60) * 60 + s % 60;
  }

  /** Days, hours, minutes and seconds of `s` seconds add back up to `s`. */
  lemma RebuildSeconds(s: int)
    requires s >= 0
    ensures ((s / 86400 * 24 + (s / 3600) % 24) * 60 + (s / 60) % 60) * 60 + s % 60 == s
  {
    var h, m := s / 3600, s / 60;
    assert h / 24 == s / 86400;
    assert h / 24 * 24 + h % 24 == h;
    assert m / 60 == h;
    assert h * 60 + m % 60 == m;
    assert m * 60 + s % 60 == s;
  }

  /** Less than a second left shows all zeros. */
  lemma UnderOneSecondIsZero(difference: int)
    requires 0 < difference < MillisPerSecond
    ensures CalculateTimeLeft(difference) == InitialTimeLeft
  {
    FieldsAreIntegerDivisions(difference);
  }

  /** More time left never shows fewer seconds. */
  lemma TotalSecondsMonotonic(earlier: int, later: int)
    requires earlier <= later
    ensures TotalSeconds(CalculateTimeLeft(earlier)) <= TotalSeconds(CalculateTimeLeft(later))
  {
    if earlier > 0 {
      Reconstruction(earlier);
    }
    if later > 0 {
      Reconstruction(later);
    }
  }
}
