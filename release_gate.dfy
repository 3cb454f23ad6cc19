/** The release-instant gate: holding the booking run until 10:00 in the platform's time zone.
    Time is an integer number of microseconds since a midnight of that zone (the zone,
    Asia/Shanghai, has no daylight-saving shifts, so every day is 86,400 seconds long); each
    element of a `clock` sequence is one reading of the clock, taken once per loop iteration. */
module ReleaseGate {
  import opened JsonValues

  const Second: nat := 1_000_000
  const Day: nat := 86_400 * Second
  const TenAm: nat := 10 * 3_600 * Second

  function TimeOfDay(now: nat): (r: nat) {
    now % Day
  }

  /** The target the loop computes from one reading: today's 10:00, moved to tomorrow's once
      `now` has reached today's. It is the next 10:00 strictly after `now`. */
  function TargetFor(now: nat): (t: nat)
    ensures now < t <= now + Day
    ensures t % Day == TenAm
  {
    var today := now / Day * Day + TenAm;
    if now >= today then today + Day else today
  }

  /** No 10:00 lies strictly between `now` and its target. */
  lemma TargetIsNext(now: nat, t: nat)
    requires t % Day == TenAm && now < t
    ensures TargetFor(now) <= t
  {
    var k, k' := now / Day, t / Day;
    assert t == k' * Day + TenAm;
    assert now < k * Day + Day;
    if k' < k {
      assert false;
    } else if k' > k {
      assert k * Day + Day <= k' * Day;
    }
  }

  /** `int((target_time - now).total_seconds())`: the remaining time in whole seconds, truncated
      (the gap is positive, so truncation and flooring agree). */
  function RemainingSeconds(now: nat): (r: nat) {
    (TargetFor(now) - now) / Second
  }

  /** The loop leaves on this reading. */
  predicate ExitsAt(now: nat) {
    RemainingSeconds(now) <= 0
  }

  /** The loop leaves exactly on readings that fall in the open second before 10:00: less than
      one second remains, and it never leaves at or after 10:00. */
  lemma ExitWindow(now: nat)
    ensures ExitsAt(now) <==> TenAm - Second < TimeOfDay(now) < TenAm
    ensures ExitsAt(now) <==> TargetFor(now) - now < Second
  {
    var k := now / Day;
    assert now == k * Day + TimeOfDay(now);
    if TimeOfDay(now) < TenAm {
      assert TargetFor(now) == k * Day + TenAm;
    } else {
      assert TargetFor(now) == k * Day + TenAm + Day;
    }
  }

  /** The countdown line is printed on readings with one to five whole seconds left. */
  predicate ShowsCountdown(now: nat) {
    1 <= RemainingSeconds(now) <= 5
  }

  /** The countdown values printed while reading `readings`, none of which leaves the loop. */
  function CountdownAsWritten(readings: seq<nat>): (shown: seq<nat>)
    ensures forall v :: v in shown ==> 1 <= v <= 5
  {
    if readings == [] then []
    else
      var now := readings[|readings| - 1];
      CountdownAsWritten(readings[..|readings| - 1]) + (if ShowsCountdown(now) then [RemainingSeconds(now)] else [])
  }

  /** `wait_until_10am_beijing` as written: every iteration takes a reading, recomputes the
      target from it, leaves when the truncated remaining seconds are zero, and otherwise
      prints the countdown when one to five seconds remain and sleeps. `released` is the index
      of the reading on which it leaves, `None` if the readings run out first. */
  method WaitUntil10amAsWritten(clock: seq<nat>) returns (released: Option<nat>, shown: seq<nat>)
    ensures released.Some? ==> released.value < |clock| && ExitsAt(clock[released.value])
    ensures forall k :: 0 <= k < |clock| && (released.None? || k < released.value) ==> !ExitsAt(clock[k])
    ensures shown == CountdownAsWritten(clock[..if released.Some? then released.value else |clock|])
  {
    var i := 0;
    shown := [];
    while i < |clock|
      invariant 0 <= i <= |clock|
      invariant forall k :: 0 <= k < i ==> !ExitsAt(clock[k])
      invariant shown == CountdownAsWritten(clock[..i])
    {
      var now := clock[i];
      var target := TargetFor(now);
      var totalSeconds := (target - now) / Second;
      if totalSeconds <= 0 {
        released := Some(i);
        return;
      }
      if totalSeconds <= 5 {
        shown := shown + [totalSeconds];
      }
      assert clock[..i + 1][..i] == clock[..i];
      i := i + 1;
    }
    released := None;
    assert clock[..|clock|] == clock;
  }

  /** `time.sleep(1)` between readings: each reading is at least one second after the last. */
  predicate SleepsOneSecond(clock: seq<nat>) {
    forall k :: 0 < k < |clock| ==> clock[k - 1] + Second <= clock[k]
  }

  /** A reading that falls on a whole second never leaves the loop: a clock whose readings are
      one whole second apart and aligned to the second walks past 10:00 without stopping. */
  lemma WholeSecondNeverReleases(now: nat)
    requires now % Second == 0
    ensures !ExitsAt(now)
  {
    ExitWindow(now);
    var k := now / Day;
    assert now == k * Day + TimeOfDay(now);
    assert TimeOfDay(now) % Second == 0 by {
      assert Day % Second == 0;
      assert k * Day % Second == 0;
    }
  }

  /** Readings at 09:59:59, 10:00:00 and 10:00:01, one second apart, never release, and from
      the 10:00:00 reading on the target is 10:00 the next day. */
  lemma AsWrittenMissesRelease()
    ensures var clock := [TenAm - Second, TenAm, TenAm + Second];
      SleepsOneSecond(clock) && forall k :: 0 <= k < |clock| ==> !ExitsAt(clock[k])
    ensures TargetFor(TenAm) == TenAm + Day
  {
    WholeSecondNeverReleases(TenAm - Second);
    WholeSecondNeverReleases(TenAm);
    WholeSecondNeverReleases(TenAm + Second);
    assert TenAm / Day == 0;
  }

  /** A reading half a second before 10:00 releases the run, before the release instant. */
  lemma AsWrittenReleasesEarly()
    ensures ExitsAt(TenAm - Second / 2) && TenAm - Second / 2 < TenAm
  {
    ExitWindow(TenAm - Second / 2);
  }

  // ---------------------------------------------------------------------------------------
  // The gate as intended: the release instant is computed once, and the run goes ahead on the
  // first reading at or after it.

  /** The countdown values printed, against a fixed target, while reading `readings`. */
  function CountdownTo(target: nat, readings: seq<nat>): (shown: seq<nat>)
    ensures forall v :: v in shown ==> 1 <= v <= 5
  {
    if readings == [] then []
    else
      var now := readings[|readings| - 1];
      var left := if now < target then (target - now) / Second else 0;
      CountdownTo(target, readings[..|readings| - 1]) + (if 1 <= left <= 5 then [left] else [])
  }

  /** The gate with the target fixed by the first reading: it releases on the first reading
      that has reached the target, never before it, and never lets such a reading pass. */
  method AwaitRelease(clock: seq<nat>) returns (released: Option<nat>, shown: seq<nat>)
    ensures |clock| == 0 ==> released.None?
    ensures released.Some? ==> released.value < |clock| && clock[released.value] >= TargetFor(clock[0])
    ensures |clock| > 0 ==> forall k :: 0 <= k < |clock| && (released.None? || k < released.value) ==> clock[k] < TargetFor(clock[0])
    ensures |clock| > 0 ==> shown == CountdownTo(TargetFor(clock[0]), clock[..if released.Some? then released.value else |clock|])
  {
    shown := [];
    released := None;
    if |clock| == 0 {
      return;
    }
    var target := TargetFor(clock[0]);
    var i := 0;
    while i < |clock|
      invariant 0 <= i <= |clock|
      invariant forall k :: 0 <= k < i ==> clock[k] < target
      invariant shown == CountdownTo(target, clock[..i])
    {
      var now := clock[i];
      if now >= target {
        released := Some(i);
        return;
      }
      var totalSeconds := (target - now) / Second;
      if 1 <= totalSeconds <= 5 {
        shown := shown + [totalSeconds];
      }
      assert clock[..i + 1][..i] == clock[..i];
      i := i + 1;
    }
    assert clock[..|clock|] == clock;
  }

  /** The readings 09:59:59, 10:00:00 and 10:00:01 through both gates: the loop as written never
      leaves, the gate with a fixed target opens on the 10:00:00 reading. */
  method ReplayWholeSecondClock() returns (asWritten: Option<nat>, corrected: Option<nat>)
    ensures asWritten == None && corrected == Some(1)
  {
    var clock := [TenAm - Second, TenAm, TenAm + Second];
    AsWrittenMissesRelease();
    var shownAsWritten, shownCorrected;
    asWritten, shownAsWritten := WaitUntil10amAsWritten(clock);
    assert TargetFor(clock[0]) == TenAm;
    corrected, shownCorrected := AwaitRelease(clock);
  }
}
