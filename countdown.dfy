/** The copy countdown of the user-credits dashboard: time until the next 08:00
    Philippine time, and whether a row copied at some instant is still locked.
    Instants are milliseconds on the Philippine (UTC+8) wall clock, which is
    what the source obtains by shifting `Date.now()` by the timezone offsets. */
module Countdown {
  import opened Common

  const SECOND_MS: int := 1000
  const MINUTE_MS: int := 60 * SECOND_MS
  const HOUR_MS: int := 60 * MINUTE_MS
  const DAY_MS: int := 24 * HOUR_MS
  const EIGHT_AM_MS: int := 8 * HOUR_MS

  /** Milliseconds since the last midnight. */
  function TimeOfDay(t: int): (r: int)
    ensures 0 <= r < DAY_MS
  {
    t % DAY_MS
  }

  /** The target of `setHours(8, 0, 0, 0)`, moved one day on (`setDate(+1)`)
      when the clock already reads 08:00 or later. */
  function Next8AM(t: int): (r: int)
    ensures t < r <= t + DAY_MS
    ensures TimeOfDay(r) == EIGHT_AM_MS
  {
    var today8 := t - TimeOfDay(t) + EIGHT_AM_MS;
    if t >= today8 then today8 + DAY_MS else today8
  }

  /** No 08:00 lies strictly between an instant and its `Next8AM`: it is the
      first 08:00 after the instant. */
  lemma NoEarlierMorning(t: int, x: int)
    requires t < x < Next8AM(t)
    ensures TimeOfDay(x) != EIGHT_AM_MS
  {
  }

  datatype Countdown = Countdown(hours: int, minutes: int, seconds: int, totalMs: int)

  /** `getTimeUntil8AMPHT`: the milliseconds until the next 08:00, split into
      whole hours, minutes and seconds by floor division and remainder. */
  function TimeUntil8AM(now: int): (c: Countdown)
    ensures now + c.totalMs == Next8AM(now)
    ensures 0 < c.totalMs <= DAY_MS
    ensures 0 <= c.hours <= 24 && 0 <= c.minutes < 60 && 0 <= c.seconds < 60
    ensures c.hours * HOUR_MS + c.minutes * MINUTE_MS + c.seconds * SECOND_MS <= c.totalMs
    ensures c.totalMs < c.hours * HOUR_MS + c.minutes * MINUTE_MS + c.seconds * SECOND_MS + SECOND_MS
  {
    var diff := Next8AM(now) - now;
    var hours := diff / HOUR_MS;
    var minutes := (diff % HOUR_MS) / MINUTE_MS;
    var seconds := (diff % MINUTE_MS) / SECOND_MS;
    DivMod(diff, HOUR_MS);
    DivMod(diff % HOUR_MS, MINUTE_MS);
    ModOfMod(diff);
    DivMod(diff % MINUTE_MS, SECOND_MS);
    Countdown(hours, minutes, seconds, diff)
  }

  lemma DivMod(x: int, d: int)
    requires d > 0
    ensures x == x / d * d + x % d && 0 <= x % d < d
  {
  }

  /** Within an hour, the remainder by a minute is the remainder of the whole. */
  lemma ModOfMod(diff: int)
    ensures (diff % HOUR_MS) % MINUTE_MS == diff % MINUTE_MS
  {
    var h, r := diff / HOUR_MS, diff % HOUR_MS;
    var q, s := r / MINUTE_MS, r % MINUTE_MS;
    assert diff == h * HOUR_MS + r;
    assert r == q * MINUTE_MS + s && 0 <= s < MINUTE_MS;
    assert diff == (60 * h + q) * MINUTE_MS + s;
    ModUnique(diff, 60 * h + q, s);
  }

  lemma ModUnique(x: int, k: int, s: int)
    requires x == k * MINUTE_MS + s && 0 <= s < MINUTE_MS
    ensures x % MINUTE_MS == s
  {
  }

  /** `shouldShowCountdown`: a row copied at `lastCopiedAt` stays locked until
      the first 08:00 after the copy; a row never copied is not locked. */
  function ShouldShowCountdown(lastCopiedAt: Option<int>, now: int): (r: bool)
    ensures lastCopiedAt.None? ==> !r
    ensures lastCopiedAt.Some? && now <= lastCopiedAt.value ==> r
    ensures lastCopiedAt.Some? && now >= lastCopiedAt.value + DAY_MS ==> !r
    ensures r ==> forall x :: lastCopiedAt.value < x <= now ==> TimeOfDay(x) != EIGHT_AM_MS
  {
    match lastCopiedAt
    case None => false
    case Some(copied) =>
      assert now < Next8AM(copied) ==> forall x :: copied < x <= now ==> TimeOfDay(x) != EIGHT_AM_MS by {
        forall x | copied < x <= now && now < Next8AM(copied) ensures TimeOfDay(x) != EIGHT_AM_MS {
          NoEarlierMorning(copied, x);
        }
      }
      now < Next8AM(copied)
  }

  /** Once copied, a row is locked from that instant on, and while it is locked
      the countdown it shows runs to the same 08:00 that ends the lock; once
      that 08:00 has passed, the next countdown would target a later morning. */
  lemma {:induction false} LockEndsAtCountdownTarget(copied: int, now: int)
    requires copied <= now
    ensures ShouldShowCountdown(Some(copied), copied)
    ensures ShouldShowCountdown(Some(copied), now) <==> Next8AM(now) == Next8AM(copied)
  {
    var target := Next8AM(copied);
    if now < target {
      if Next8AM(now) < target {
        NoEarlierMorning(copied, Next8AM(now));
      } else if Next8AM(now) > target {
        NoEarlierMorning(now, target);
      }
    }
  }
}
