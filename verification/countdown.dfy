/**
 * The contest countdown: once a second the remaining time to the contest end is
 * split into days, hours, minutes and seconds; when it runs out the display
 * reads zero everywhere, the interval stops, and the "Contest Has Ended" banner
 * shows instead of the counter.
 *
 * Instants and differences are integer milliseconds; reading the clock and the
 * interval plumbing are left to the caller, who passes `end - now` to `Tick`.
 */
module Countdown {
  import opened Options

  const MsPerSecond: int := 1000
  const MsPerMinute: int := 60 * MsPerSecond
  const MsPerHour: int := 60 * MsPerMinute
  const MsPerDay: int := 24 * MsPerHour

  /** The `TimeLeft` interface. */
  datatype TimeLeft = TimeLeft(days: int, hours: int, minutes: int, seconds: int)

  const Zero: TimeLeft := TimeLeft(0, 0, 0, 0)

  /** The fields are in range for a clock reading: days unbounded, the rest below their next unit. */
  predicate Normal(t: TimeLeft) {
    && t.days >= 0
    && 0 <= t.hours < 24
    && 0 <= t.minutes < 60
    && 0 <= t.seconds < 60
  }

  /** The milliseconds a reading stands for, whole seconds only. */
  function Millis(t: TimeLeft): int {
    t.days * MsPerDay + t.hours * MsPerHour + t.minutes * MsPerMinute + t.seconds * MsPerSecond
  }

  /**
   * The reading set for a positive `difference`: floors of the quotients of the
   * difference and of its remainders. For a positive dividend JavaScript's `%` and
   * `Math.floor(a / b)` agree with Dafny's `%` and `/`.
   */
  function Decompose(difference: int): (t: TimeLeft)
    requires difference > 0
    ensures Normal(t)
    ensures Millis(t) <= difference < Millis(t) + MsPerSecond
  {
    DecomposeBounds(difference);
    TimeLeft(difference / MsPerDay,
             (difference % MsPerDay) / MsPerHour,
             (difference % MsPerHour) / MsPerMinute,
             (difference % MsPerMinute) / MsPerSecond)
  }

  /** The timer component's state: the reading shown (`null` before the first tick) and whether the interval is live. */
  datatype Timer = Timer(timeLeft: Option<TimeLeft>, running: bool)

  const Initial: Timer := Timer(None, true)

  /**
   * One run of the interval callback with `difference = end - now`. A stopped
   * interval never calls back, so a stopped timer is left as it is.
   */
  function Tick(st: Timer, difference: int): (st': Timer)
    ensures !st.running ==> st' == st
    ensures st.running && difference <= 0 ==> st' == Timer(Some(Zero), false)
    ensures st.running && difference > 0 ==>
              && st'.running
              && st'.timeLeft.Some?
              && Normal(st'.timeLeft.value)
              && Millis(st'.timeLeft.value) <= difference < Millis(st'.timeLeft.value) + MsPerSecond
  {
    if !st.running then st
    else if difference <= 0 then Timer(Some(Zero), false)
    else Timer(Some(Decompose(difference)), true)
  }

  /** The interval firing once per difference in `ds`, in order. */
  function Ticks(st: Timer, ds: seq<int>): Timer
    decreases |ds|
  {
    if ds == [] then st else Ticks(Tick(st, ds[0]), ds[1..])
  }

  /** `isEnded`: a reading exists and all four of its fields are zero. */
  predicate IsEnded(timeLeft: Option<TimeLeft>) {
    timeLeft.Some? && timeLeft.value == Zero
  }

  /** One number of the counter: `"--"` or a value. */
  datatype Cell = Placeholder | Shown(n: int)

  /** What the component renders. */
  datatype View = EndedBanner | Counter(days: Cell, hours: Cell, minutes: Cell, seconds: Cell)

  /** The render function: the banner when ended, otherwise the counter, with `"--"` while loading or before a reading. */
  function Render(loading: bool, timeLeft: Option<TimeLeft>): (v: View)
    ensures v.EndedBanner? <==> IsEnded(timeLeft)
    ensures v.Counter? && (loading || timeLeft.None?) ==> v == Counter(Placeholder, Placeholder, Placeholder, Placeholder)
    ensures v.Counter? && !loading && timeLeft.Some? ==>
              v == Counter(Shown(timeLeft.value.days), Shown(timeLeft.value.hours),
                           Shown(timeLeft.value.minutes), Shown(timeLeft.value.seconds))
  {
    if IsEnded(timeLeft) then EndedBanner
    else if loading || timeLeft.None? then Counter(Placeholder, Placeholder, Placeholder, Placeholder)
    else
      var t := timeLeft.value;
      Counter(Shown(t.days), Shown(t.hours), Shown(t.minutes), Shown(t.seconds))
  }

  // ---------------------------------------------------------------------------
  // Integer division

  lemma MulAtLeast(m: int, k: int)
    requires m > 0
    ensures k >= 1 ==> m * k >= m
  {
    if k >= 1 {
      assert m * k == m * (k - 1) + m;
    }
  }

  /** Quotient and remainder are the only pair that rebuilds the dividend with a remainder in range. */
  lemma DivModUnique(d: int, m: int, x: int, c: int)
    requires m > 0
    requires d == m * x + c
    requires 0 <= c < m
    ensures d / m == x && d % m == c
  {
    var q := d / m;
    assert m * (q - x) == m * q - m * x;
    assert m * (x - q) == m * x - m * q;
    MulAtLeast(m, q - x);
    MulAtLeast(m, x - q);
  }

  /** The arithmetic behind `Decompose`: each remainder taken modulo a larger unit keeps the smaller units. */
  lemma DecomposeBounds(d: int)
    requires d > 0
    ensures var days, hours, minutes, seconds :=
              d / MsPerDay, (d % MsPerDay) / MsPerHour, (d % MsPerHour) / MsPerMinute, (d % MsPerMinute) / MsPerSecond;
            && days >= 0 && 0 <= hours < 24 && 0 <= minutes < 60 && 0 <= seconds < 60
            && days * MsPerDay + hours * MsPerHour + minutes * MsPerMinute + seconds * MsPerSecond <= d
            && d < days * MsPerDay + hours * MsPerHour + minutes * MsPerMinute + seconds * MsPerSecond + MsPerSecond
  {
    var r1 := d % MsPerDay;
    DivModUnique(d, MsPerHour, 24 * (d / MsPerDay) + r1 / MsPerHour, r1 % MsPerHour);
    var r2 := d % MsPerHour;
    DivModUnique(d, MsPerMinute, 60 * (d / MsPerHour) + r2 / MsPerMinute, r2 % MsPerMinute);
  }

  // ---------------------------------------------------------------------------
  // Properties

  /**
   * The decomposition is the only normal reading within a second below the
   * difference: reading any normal `t` back from a difference in its second gives `t`.
   */
  lemma DecomposeMillis(t: TimeLeft, ms: int)
    requires Normal(t)
    requires 0 <= ms < MsPerSecond
    requires Millis(t) + ms > 0
    ensures Decompose(Millis(t) + ms) == t
  {
    var d := Millis(t) + ms;
    var r3 := t.seconds * MsPerSecond + ms;
    var r2 := t.minutes * MsPerMinute + r3;
    var r1 := t.hours * MsPerHour + r2;
    DivModUnique(d, MsPerDay, t.days, r1);
    DivModUnique(d, MsPerHour, t.days * 24 + t.hours, r2);
    DivModUnique(d, MsPerMinute, (t.days * 24 + t.hours) * 60 + t.minutes, r3);
    DivModUnique(r1, MsPerHour, t.hours, r2);
    DivModUnique(r2, MsPerMinute, t.minutes, r3);
    DivModUnique(r3, MsPerSecond, t.seconds, ms);
  }

  /**
   * The counter reads all zeros exactly when less than a second is left, so the
   * banner also shows during the last second before the end, not only after it.
   */
  lemma {:induction false} EndedWithinLastSecond(st: Timer, difference: int)
    requires st.running
    ensures IsEnded(Tick(st, difference).timeLeft) <==> difference < MsPerSecond
  {
    if difference > 0 {
      var t := Decompose(difference);
      if difference >= MsPerSecond {
        assert Millis(t) > 0;
      } else {
        assert t.days == 0 && t.hours == 0 && t.minutes == 0;
      }
    }
  }

  /** Once the interval is cleared the state never changes again, whatever the clock says. */
  lemma {:induction false} StoppedStaysStopped(st: Timer, ds: seq<int>)
    requires !st.running
    ensures Ticks(st, ds) == st
    decreases |ds|
  {
    if ds != [] {
      StoppedStaysStopped(Tick(st, ds[0]), ds[1..]);
    }
  }

  /** A tick at or after the end shows zeros and the banner from then on. */
  lemma ExpiryIsFinal(st: Timer, difference: int, later: seq<int>)
    requires st.running
    requires difference <= 0
    ensures Ticks(Tick(st, difference), later) == Timer(Some(Zero), false)
    ensures Render(false, Ticks(Tick(st, difference), later).timeLeft) == EndedBanner
  {
    StoppedStaysStopped(Tick(st, difference), later);
  }

  /** Before the first tick there is no reading: the counter shows placeholders and the contest is not ended. */
  lemma BeforeFirstTick(loading: bool)
    ensures !IsEnded(Initial.timeLeft)
    ensures Render(loading, Initial.timeLeft) == Counter(Placeholder, Placeholder, Placeholder, Placeholder)
  {
  }
}
