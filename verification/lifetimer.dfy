/**
 * The countdown record of the Dimer app (`LifeTimerData`): a birthday and an
 * expected age, the derived end date and remaining time, and the split of a
 * remaining interval into days, hours, minutes and seconds.
 *
 * Instants are seconds since a fixed reference instant and intervals are
 * seconds, both as exact reals. "Now" is a parameter and calendar year
 * addition is a parameter, so every member is a pure function.
 */
module LifeTimer {
  import opened Wrappers

  /** An instant, in seconds since a fixed reference instant (Foundation's `Date`). */
  type Date = real

  /** A signed number of seconds (Foundation's `TimeInterval`). */
  type TimeInterval = real

  /**
   * Adding a whole number of calendar years to an instant: `Some(d)` when the
   * calendar produces a date, `None` when it does not. The calendar's rules
   * (leap years, time zones) live behind this function.
   */
  type YearAdder = (Date, int) -> Option<Date>

  /** The stored record: exactly the two fields that are persisted. */
  datatype LifeTimerData = LifeTimerData(birthday: Date, expectedAge: int)

  const SecondsPerDay: int := 86400
  const SecondsPerHour: int := 3600
  const SecondsPerMinute: int := 60

  /** The four numbers the countdown shows. */
  datatype Breakdown = Breakdown(days: int, hours: int, minutes: int, seconds: int)

  const Zero: Breakdown := Breakdown(0, 0, 0, 0)

  /** The number of seconds a breakdown stands for. */
  function TotalSeconds(b: Breakdown): int {
    b.days * SecondsPerDay + b.hours * SecondsPerHour + b.minutes * SecondsPerMinute + b.seconds
  }

  /** No component is negative, and every component but `days` is below the next unit. */
  predicate InRange(b: Breakdown) {
    && 0 <= b.days
    && 0 <= b.hours < 24
    && 0 <= b.minutes < 60
    && 0 <= b.seconds < 60
  }

  /** Swift's `Int(_:)` on a floating-point value: the fractional part is dropped, rounding toward zero. */
  function TruncateToInt(x: real): (n: int)
    ensures 0.0 <= x ==> 0 <= n && n as real <= x < n as real + 1.0
    ensures x < 0.0 ==> n <= 0 && n as real - 1.0 < x <= n as real
  {
    if x >= 0.0 then x.Floor else -((-x).Floor)
  }

  /** `expectedDeathDate`: the birthday moved forward by `expectedAge` calendar years, or the birthday itself when the calendar gives no date. */
  function ExpectedDeathDate(data: LifeTimerData, addYears: YearAdder): (d: Date)
    ensures addYears(data.birthday, data.expectedAge).Some? ==> d == addYears(data.birthday, data.expectedAge).value
    ensures addYears(data.birthday, data.expectedAge).None? ==> d == data.birthday
  {
    addYears(data.birthday, data.expectedAge).GetOr(data.birthday)
  }

  /** `timeRemaining`: the interval from `now` to the expected death date; negative once it has passed. */
  function TimeRemaining(data: LifeTimerData, addYears: YearAdder, now: Date): (t: TimeInterval)
    ensures now + t == ExpectedDeathDate(data, addYears)
    ensures t > 0.0 <==> now < ExpectedDeathDate(data, addYears)
  {
    ExpectedDeathDate(data, addYears) - now
  }

  /** `isExpired`: the expected death date has been reached. */
  function IsExpired(data: LifeTimerData, addYears: YearAdder, now: Date): (expired: bool)
    ensures expired <==> ExpectedDeathDate(data, addYears) <= now
  {
    TimeRemaining(data, addYears, now) <= 0.0
  }

  /**
   * `formattedTimeRemaining(from:)`: a non-positive interval shows all zeros;
   * a positive one is truncated to whole seconds and split with fixed unit
   * sizes. Every component is within its unit, and days are not capped.
   */
  function FormattedTimeRemaining(interval: TimeInterval): (b: Breakdown)
    ensures InRange(b)
    ensures interval <= 0.0 ==> b == Zero
  {
    if interval <= 0.0 then
      Zero
    else
      var totalSeconds := TruncateToInt(interval);
      Breakdown(totalSeconds / SecondsPerDay,
                (totalSeconds % SecondsPerDay) / SecondsPerHour,
                (totalSeconds % SecondsPerHour) / SecondsPerMinute,
                totalSeconds % SecondsPerMinute)
  }

  /** Putting the four components back together gives the truncated number of seconds. */
  lemma FormattedReconstructs(interval: TimeInterval)
    requires interval > 0.0
    ensures TotalSeconds(FormattedTimeRemaining(interval)) == TruncateToInt(interval)
  {
    var n := TruncateToInt(interval);
    var b := FormattedTimeRemaining(interval);
    var r := n % SecondsPerDay;
    assert n == b.days * SecondsPerDay + r;
    assert r % SecondsPerHour == n % SecondsPerHour by {
      ModOfMultiple(n, 24, SecondsPerHour);
    }
    assert r == b.hours * SecondsPerHour + n % SecondsPerHour;
    assert n % SecondsPerHour == b.minutes * SecondsPerMinute + b.seconds by {
      ModOfMultiple(n, 60, SecondsPerMinute);
    }
  }

  /** Reducing modulo `k * m` and then modulo `m` is reducing modulo `m`. */
  lemma ModOfMultiple(n: int, k: int, m: int)
    requires k > 0 && m > 0
    ensures (n % (k * m)) % m == n % m
  {
    var q := n / (k * m);
    var r := n % (k * m);
    assert n == q * (k * m) + r;
    assert n == (q * k) * m + r;
    ModShift(r, q * k, m);
  }

  /** Adding a multiple of `m` does not change the remainder modulo `m`. */
  lemma ModShift(r: int, j: int, m: int)
    requires m > 0
    ensures (j * m + r) % m == r % m
  {
    var n := j * m + r;
    var a := r / m;
    assert r == a * m + r % m;
    assert (j + a) * m == j * m + a * m;
    assert n == (j + a) * m + r % m;
    assert n == (n / m) * m + n % m;
    DivUnique(j + a, r % m, n / m, n % m, m);
  }

  /**
   * The split is the only in-range one: formatting the number of seconds a
   * breakdown stands for gives that breakdown back.
   */
  lemma FormattedUnique(b: Breakdown)
    requires InRange(b)
    ensures FormattedTimeRemaining(TotalSeconds(b) as real) == b
  {
    var n := TotalSeconds(b);
    if n == 0 {
      assert b == Zero;
    } else {
      assert TruncateToInt(n as real) == n;
      var f := FormattedTimeRemaining(n as real);
      FormattedReconstructs(n as real);
      SplitUnique(f, b);
    }
  }

  /** Two in-range breakdowns that stand for the same number of seconds are equal. */
  lemma SplitUnique(a: Breakdown, b: Breakdown)
    requires InRange(a) && InRange(b)
    requires TotalSeconds(a) == TotalSeconds(b)
    ensures a == b
  {
    var ra := a.hours * SecondsPerHour + a.minutes * SecondsPerMinute + a.seconds;
    var rb := b.hours * SecondsPerHour + b.minutes * SecondsPerMinute + b.seconds;
    DivUnique(a.days, ra, b.days, rb, SecondsPerDay);
    var sa := a.minutes * SecondsPerMinute + a.seconds;
    var sb := b.minutes * SecondsPerMinute + b.seconds;
    DivUnique(a.hours, sa, b.hours, sb, SecondsPerHour);
    DivUnique(a.minutes, a.seconds, b.minutes, b.seconds, SecondsPerMinute);
  }

  /** Quotient and remainder are determined by the dividend. */
  lemma DivUnique(q1: int, r1: int, q2: int, r2: int, m: int)
    requires m > 0
    requires 0 <= r1 < m && 0 <= r2 < m
    requires q1 * m + r1 == q2 * m + r2
    ensures q1 == q2 && r1 == r2
  {
    assert (q1 - q2) * m == r2 - r1;
    if q1 < q2 {
      MulGrows(q2 - q1, m);
    } else if q2 < q1 {
      MulGrows(q1 - q2, m);
    }
  }

  /** A positive multiple of `m` is at least `m`. */
  lemma MulGrows(d: int, m: int)
    requires d >= 1 && m > 0
    ensures d * m >= m
  {
    assert d * m == (d - 1) * m + m;
  }

  /** The display is blank exactly when less than one whole second remains. */
  lemma FormattedZeroIff(interval: TimeInterval)
    ensures FormattedTimeRemaining(interval) == Zero <==> interval < 1.0
  {
    if interval >= 1.0 {
      FormattedReconstructs(interval);
    }
  }

  /** Fractions of a second are dropped, never rounded up. */
  lemma FormattedTruncates()
    ensures FormattedTimeRemaining(0.5) == Zero
    ensures FormattedTimeRemaining(0.999) == Zero
    ensures FormattedTimeRemaining(10.9) == Breakdown(0, 0, 0, 10)
    ensures FormattedTimeRemaining(90061.5) == Breakdown(1, 1, 1, 1)
  {
  }

  /** One second of waiting takes exactly one second off a countdown that still shows time. */
  lemma FormattedTick(interval: TimeInterval)
    requires interval >= 1.0
    ensures TotalSeconds(FormattedTimeRemaining(interval - 1.0)) == TotalSeconds(FormattedTimeRemaining(interval)) - 1
  {
    FormattedReconstructs(interval);
    if interval - 1.0 > 0.0 {
      FormattedReconstructs(interval - 1.0);
    }
  }

  /** A longer interval never shows less time. */
  lemma FormattedMonotone(x: TimeInterval, y: TimeInterval)
    requires x <= y
    ensures TotalSeconds(FormattedTimeRemaining(x)) <= TotalSeconds(FormattedTimeRemaining(y))
  {
    if x > 0.0 {
      FormattedReconstructs(x);
      FormattedReconstructs(y);
    } else if y > 0.0 {
      FormattedReconstructs(y);
    }
  }

  /** Once the record has expired, the countdown shows all zeros; while it has not, the remaining time is positive. */
  lemma ExpiredShowsZero(data: LifeTimerData, addYears: YearAdder, now: Date)
    ensures IsExpired(data, addYears, now) <==> TimeRemaining(data, addYears, now) <= 0.0
    ensures IsExpired(data, addYears, now) ==> FormattedTimeRemaining(TimeRemaining(data, addYears, now)) == Zero
  {
  }

  /**
   * A birthday of 2000-01-01 with an expected age of 80, under any calendar
   * that maps it to 2080-01-01: at that instant the record has expired and
   * shows zeros; ten seconds earlier it shows ten seconds.
   */
  lemma EightyYearsScenario(addYears: YearAdder)
    requires addYears(Jan2000, 80) == Some(Jan2080)
    ensures ExpectedDeathDate(LifeTimerData(Jan2000, 80), addYears) == Jan2080
    ensures IsExpired(LifeTimerData(Jan2000, 80), addYears, Jan2080)
    ensures FormattedTimeRemaining(TimeRemaining(LifeTimerData(Jan2000, 80), addYears, Jan2080)) == Zero
    ensures !IsExpired(LifeTimerData(Jan2000, 80), addYears, Jan2080 - 10.0)
    ensures FormattedTimeRemaining(TimeRemaining(LifeTimerData(Jan2000, 80), addYears, Jan2080 - 10.0)) == Breakdown(0, 0, 0, 10)
  {
  }

  /** 2000-01-01T00:00:00Z, as seconds since 2001-01-01T00:00:00Z (2000 has 366 days). */
  const Jan2000: Date := -31622400.0

  /** 2080-01-01T00:00:00Z, as seconds since 2001-01-01T00:00:00Z (28854 days later). */
  const Jan2080: Date := 2492985600.0
}
