/** The countdown engine of the CountDown widget (the `useCountdown` hook):
    one state cell holding the raw milliseconds `target - now` of the last
    tick, and the breakdown of that value, clamped at zero, into days,
    hours, minutes and seconds. Instants are whole milliseconds since the
    epoch; the host clock is passed in as `now`. */
module CountdownEngine {

  const MS_PER_SECOND := 1000
  const SECONDS_PER_DAY := 86400
  const SECONDS_PER_HOUR := 3600
  const SECONDS_PER_MINUTE := 60

  /** What the hook returns: the clamped milliseconds and the four fields. */
  datatype Remaining = Remaining(msLeft: nat, days: nat, hours: nat, minutes: nat, seconds: nat)

  /** `Math.max(0, raw)`. */
  function Clamp(raw: int): (clamped: nat)
    ensures clamped >= raw
    ensures clamped == 0 || clamped == raw
  {
    if raw < 0 then 0 else raw
  }

  /** The whole seconds a breakdown stands for. */
  function SecondsOf(r: Remaining): nat {
    r.days * SECONDS_PER_DAY + r.hours * SECONDS_PER_HOUR + r.minutes * SECONDS_PER_MINUTE + r.seconds
  }

  /** The breakdown the hook computes from the raw state value. Every value
      here is non-negative, so `Math.floor` of a quotient is Dafny's `/`
      and JavaScript's `%` is Dafny's `%`. */
  function Decompose(raw: int): (r: Remaining)
    ensures r.msLeft == Clamp(raw)
    ensures r.hours < 24 && r.minutes < 60 && r.seconds < 60
  {
    var clamped := Clamp(raw);
    var totalSeconds := clamped / MS_PER_SECOND;
    var days := totalSeconds / SECONDS_PER_DAY;
    var hours := (totalSeconds % SECONDS_PER_DAY) / SECONDS_PER_HOUR;
    var minutes := (totalSeconds % SECONDS_PER_HOUR) / SECONDS_PER_MINUTE;
    var seconds := totalSeconds % SECONDS_PER_MINUTE;
    Remaining(clamped, days, hours, minutes, seconds)
  }

  /** The breakdown loses nothing but the sub-second remainder: its fields
      add back up to the whole seconds in the clamped milliseconds. */
  lemma DecomposeReconstructs(raw: int)
    ensures SecondsOf(Decompose(raw)) == Clamp(raw) / MS_PER_SECOND
    ensures 0 <= Clamp(raw) - SecondsOf(Decompose(raw)) * MS_PER_SECOND < MS_PER_SECOND
  {
    var t := Clamp(raw) / MS_PER_SECOND;
    var u := t % SECONDS_PER_DAY;
    assert t == SECONDS_PER_DAY * (t / SECONDS_PER_DAY) + u;
    assert u == SECONDS_PER_HOUR * (u / SECONDS_PER_HOUR) + u % SECONDS_PER_HOUR;
    assert u % SECONDS_PER_HOUR == t % SECONDS_PER_HOUR by {
      assert t == SECONDS_PER_HOUR * (24 * (t / SECONDS_PER_DAY)) + u;
    }
    var v := t % SECONDS_PER_HOUR;
    assert v == SECONDS_PER_MINUTE * (v / SECONDS_PER_MINUTE) + v % SECONDS_PER_MINUTE;
    assert v % SECONDS_PER_MINUTE == t % SECONDS_PER_MINUTE by {
      assert t == SECONDS_PER_MINUTE * (60 * (t / SECONDS_PER_HOUR)) + v;
    }
  }

  lemma MulAtLeast(k: nat, d: nat)
    requires k >= 1
    ensures k * d >= d
  {
    assert k * d == (k - 1) * d + d;
  }

  /** Division with remainder: `q` and `s` are the quotient and remainder of `t`. */
  lemma DivModUnique(t: nat, d: nat, q: nat, s: nat)
    requires d > 0 && s < d && t == q * d + s
    ensures t / d == q && t % d == s
  {
    var q', s' := t / d, t % d;
    assert t == q' * d + s';
    if q' < q {
      MulAtLeast(q - q', d);
    } else if q' > q {
      MulAtLeast(q' - q, d);
    }
  }

  /** The breakdown is the only one within the field bounds that adds up to
      the clamped whole seconds: the hook's arithmetic is the standard
      mixed-radix decomposition and nothing else. */
  lemma DecomposeUnique(raw: int, days: nat, hours: nat, minutes: nat, seconds: nat)
    requires hours < 24 && minutes < 60 && seconds < 60
    requires days * SECONDS_PER_DAY + hours * SECONDS_PER_HOUR + minutes * SECONDS_PER_MINUTE + seconds
             == Clamp(raw) / MS_PER_SECOND
    ensures Decompose(raw) == Remaining(Clamp(raw), days, hours, minutes, seconds)
  {
    var t := Clamp(raw) / MS_PER_SECOND;
    var inDay := hours * SECONDS_PER_HOUR + minutes * SECONDS_PER_MINUTE + seconds;
    var inHour := minutes * SECONDS_PER_MINUTE + seconds;
    DivModUnique(t, SECONDS_PER_DAY, days, inDay);
    DivModUnique(inDay, SECONDS_PER_HOUR, hours, inHour);
    DivModUnique(t, SECONDS_PER_HOUR, days * 24 + hours, inHour);
    DivModUnique(inHour, SECONDS_PER_MINUTE, minutes, seconds);
    DivModUnique(t, SECONDS_PER_MINUTE, (days * 24 + hours) * 60 + minutes, seconds);
  }

  /** A target at or before `now` gives zero milliseconds and four zero fields. */
  lemma PastTargetIsZero(target: int, now: int)
    requires target <= now
    ensures Decompose(target - now) == Remaining(0, 0, 0, 0, 0)
  {
  }

  /** A remainder below one second shows four zero fields although the
      milliseconds are not yet zero. */
  lemma SubSecondShowsZeros(target: int, now: int)
    requires now < target < now + MS_PER_SECOND
    ensures var r := Decompose(target - now);
      r.msLeft > 0 && r.days == 0 && r.hours == 0 && r.minutes == 0 && r.seconds == 0
  {
  }

  /** As the clock advances the remaining milliseconds never grow, and they
      shrink by exactly the elapsed time until they reach zero. */
  lemma RemainingNonIncreasing(target: int, now: int, later: int)
    requires now <= later
    ensures Decompose(target - later).msLeft <= Decompose(target - now).msLeft
    ensures later <= target ==> Decompose(target - now).msLeft - Decompose(target - later).msLeft == later - now
  {
  }

  /** One day, one hour, one minute and one second before the target. */
  lemma OneOfEach(target: int)
    ensures Decompose(target - (target - 90061000)) == Remaining(90061000, 1, 1, 1, 1)
  {
    DecomposeUnique(90061000, 1, 1, 1, 1);
  }

  /** The hook's state: `msLeft` is the raw `target - now` of the last tick
      (negative once the target has passed); clamping happens when it is read. */
  class Countdown {
    const target: int
    var msLeft: int

    /** `useState(() => +targetDate - Date.now())`. */
    constructor (target: int, now: int)
      ensures this.target == target && msLeft == target - now
    {
      this.target := target;
      msLeft := target - now;
    }

    /** The interval callback: `setMsLeft(+targetDate - Date.now())`. */
    method Tick(now: int)
      modifies this
      ensures msLeft == target - now
      ensures Current() == Decompose(target - now)
      ensures Current().msLeft == 0 <==> target <= now
    {
      msLeft := target - now;
    }

    /** What the hook returns from the current state. */
    function Current(): Remaining
      reads this
    {
      Decompose(msLeft)
    }
  }
}
