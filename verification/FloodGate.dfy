/** The shared flood gate of fw_ban_flood_allow: a fixed window counter over jiffies. */
module FloodGate {

  const U32_SIZE: nat := 0x1_0000_0000

  datatype Gate = Gate(start: nat, recent: nat)

  /** One call at time `now`; `recent` is an unsigned 32-bit counter and wraps as one. */
  function Step(g: Gate, now: nat, max: nat, hz: nat): (r: (Gate, bool)) {
    if now >= g.start && now - g.start >= hz then (Gate(now, 1), true)
    else
      var n := (g.recent + 1) % U32_SIZE;
      (Gate(g.start, n), n <= max)
  }

  /** A call is admitted when it opens a window, or is within the limit in its window, counted with wrap-around. */
  lemma StepMeaning(g: Gate, now: nat, max: nat, hz: nat)
    requires g.start <= now
    ensures now >= g.start + hz ==> Step(g, now, max, hz) == (Gate(now, 1), true)
    ensures now < g.start + hz && g.recent + 1 < U32_SIZE ==>
              Step(g, now, max, hz) == (Gate(g.start, g.recent + 1), g.recent < max)
    ensures now < g.start + hz && g.recent + 1 == U32_SIZE ==> Step(g, now, max, hz) == (Gate(g.start, 0), true)
  {
  }

  class Limiter {
    var start: nat
    var recent: nat
    const hz: nat

    constructor (hz: nat)
      ensures Gate(start, recent) == Gate(0, 0) && this.hz == hz
    {
      start, recent, this.hz := 0, 0, hz;
    }

    method Allow(now: nat, max: nat) returns (allow: bool)
      requires now >= start
      modifies this
      ensures (Gate(start, recent), allow) == Step(old(Gate(start, recent)), now, max, hz)
    {
      allow := true;
      if now - start >= hz {
        start, recent := now, 1;
      } else {
        recent := (recent + 1) % U32_SIZE;
        if recent > max { allow := false; }
      }
    }
  }

  predicate Sorted(times: seq<nat>, from: nat) {
    times == [] || (times[0] >= from && Sorted(times[1..], times[0]))
  }

  /** How many calls at `times`, made in order from state `g`, are admitted inside [a, b). */
  function Admitted(g: Gate, times: seq<nat>, max: nat, hz: nat, a: nat, b: nat): nat
    decreases times
  {
    if times == [] then 0
    else
      var (next, ok) := Step(g, times[0], max, hz);
      (if ok && a <= times[0] < b then 1 else 0) + Admitted(next, times[1..], max, hz, a, b)
  }

  function Cap(max: nat): nat { if max == 0 then 1 else max }

  /** Admissions the open window still has left. */
  function Left(g: Gate, max: nat): nat { if g.recent >= Cap(max) then 0 else Cap(max) - g.recent }

  /** The 32-bit counter does not overflow: no single window sees 2^32 calls, however many the run has. */
  predicate NoWrap(g: Gate, times: seq<nat>, hz: nat)
    decreases times
  {
    times == []
    || (((times[0] >= g.start && times[0] - g.start >= hz) || g.recent + 1 < U32_SIZE)
        && NoWrap(Step(g, times[0], 0, hz).0, times[1..], hz))
  }

  /** No window start can fall into [a, a + hz) twice: once one did, only its remainder is left. */
  lemma {:induction false} InsideInterval(g: Gate, times: seq<nat>, max: nat, hz: nat, a: nat, from: nat)
    requires hz > 0 && g.start <= from && a <= from && Sorted(times, from)
    requires NoWrap(g, times, hz)
    ensures Admitted(g, times, max, hz, a, a + hz) <= Left(g, max) + if g.start >= a then 0 else Cap(max)
    decreases times
  {
    if times != [] {
      var next := Step(g, times[0], max, hz).0;
      if times[0] < a + hz {
        InsideInterval(next, times[1..], max, hz, a, times[0]);
      } else {
        AllLater(g, times, max, hz, a);
      }
    }
  }

  lemma {:induction false} AllLater(g: Gate, times: seq<nat>, max: nat, hz: nat, a: nat)
    requires Sorted(times, a + hz)
    ensures Admitted(g, times, max, hz, a, a + hz) == 0
    decreases times
  {
    if times != [] {
      SortedFrom(times[1..], times[0], a + hz);
      AllLater(Step(g, times[0], max, hz).0, times[1..], max, hz, a);
    }
  }

  lemma SortedFrom(times: seq<nat>, from: nat, lower: nat)
    requires Sorted(times, from) && lower <= from
    ensures Sorted(times, lower)
  {}

  /**
  Whatever one-second interval is chosen, calls at non-decreasing times get at most twice
  max(1, max) additions through it.
  */
  lemma {:induction false} AtMostTwicePerSecond(g: Gate, times: seq<nat>, max: nat, hz: nat, a: nat, from: nat)
    requires hz > 0 && g.start <= from && Sorted(times, from)
    requires NoWrap(g, times, hz)
    ensures Admitted(g, times, max, hz, a, a + hz) <= 2 * Cap(max)
    decreases times
  {
    if times != [] {
      if times[0] < a {
        AtMostTwicePerSecond(Step(g, times[0], max, hz).0, times[1..], max, hz, a, times[0]);
      } else {
        InsideInterval(g, times, max, hz, a, times[0]);
      }
    }
  }

  /** While one window lasts, at most max(1, max) additions get through, counting those already made. */
  lemma {:induction false} AtMostPerWindow(g: Gate, times: seq<nat>, max: nat, hz: nat, from: nat)
    requires hz > 0 && g.start <= from && Sorted(times, from)
    requires NoWrap(g, times, hz)
    ensures Admitted(g, times, max, hz, g.start, g.start + hz) <= Left(g, max)
  {
    InsideInterval(g, times, max, hz, g.start, from);
  }

  /** No call is refused while fewer than `max` came before it in its window: up to `max` calls all get through. */
  lemma {:induction false} BelowLimitAllAdmitted(g: Gate, times: seq<nat>, max: nat, hz: nat, from: nat, b: nat)
    requires hz > 0 && g.start <= from && Sorted(times, from) && g.recent + |times| <= max < U32_SIZE
    requires forall i :: 0 <= i < |times| ==> times[i] < b
    ensures Admitted(g, times, max, hz, 0, b) == |times|
    decreases times
  {
    if times != [] {
      StepMeaning(g, times[0], max, hz);
      assert forall i :: 0 <= i < |times[1..]| ==> times[1..][i] == times[i + 1];
      BelowLimitAllAdmitted(Step(g, times[0], max, hz).0, times[1..], max, hz, times[0], b);
    }
  }

  /** Calls a second apart are always admitted, whatever the limit. */
  lemma {:induction false} SpacedAllAdmitted(g: Gate, times: seq<nat>, max: nat, hz: nat, b: nat)
    requires times != [] ==> times[0] >= g.start + hz
    requires forall i :: 0 < i < |times| ==> times[i] >= times[i - 1] + hz
    requires forall i :: 0 <= i < |times| ==> times[i] < b
    ensures Admitted(g, times, max, hz, 0, b) == |times|
    decreases times
  {
    if times != [] {
      StepMeaning(g, times[0], max, hz);
      assert forall i :: 0 <= i < |times[1..]| ==> times[1..][i] == times[i + 1];
      SpacedAllAdmitted(Step(g, times[0], max, hz).0, times[1..], max, hz, b);
    }
  }

  /**
  What an overflow does: with the cap used up, a call inside an open window is admitted exactly when it
  wraps the counter, and then the whole cap is open again.
  */
  lemma WrapReopens(g: Gate, now: nat, max: nat, hz: nat)
    requires g.start <= now < g.start + hz && max < g.recent + 1 <= U32_SIZE
    ensures Step(g, now, max, hz).1 <==> g.recent + 1 == U32_SIZE
    ensures g.recent + 1 == U32_SIZE ==> Left(Step(g, now, max, hz).0, max) == Cap(max)
  {
  }

  /** A run in one window that is admitted past its cap, because the counter wraps in it. */
  lemma WrapAdmitsAgain(hz: nat)
    requires hz > 0
    ensures var g := Gate(0, U32_SIZE - 1);
      && Left(g, 1) == 0 && !NoWrap(g, [0, 0], hz)
      && Admitted(g, [0, 0], 1, hz, 0, hz) == 2
  {
    var t := [0, 0];
    assert t[1..] == [0] && t[1..][1..] == [];
    assert Step(Gate(0, U32_SIZE - 1), 0, 1, hz) == (Gate(0, 0), true);
    assert Step(Gate(0, 0), 0, 1, hz) == (Gate(0, 1), true);
    assert Admitted(Gate(0, 1), [], 1, hz, 0, hz) == 0;
    assert Admitted(Gate(0, 0), [0], 1, hz, 0, hz) == 1;
  }

  /** The bound is tight: from module load, twice the cap can pass within one second. */
  lemma TwiceIsReached(hz: nat)
    requires hz > 1
    ensures Admitted(Gate(0, 0), [hz - 1, hz - 1, hz, hz], 2, hz, hz - 1, 2 * hz - 1) == 4
  {
    var t := [hz - 1, hz - 1, hz, hz];
    assert t[1..] == [hz - 1, hz, hz] && t[1..][1..] == [hz, hz] && t[1..][1..][1..] == [hz];
    assert Admitted(Gate(hz, 1), [hz], 2, hz, hz - 1, 2 * hz - 1) == 1;
    assert Admitted(Gate(0, 2), [hz, hz], 2, hz, hz - 1, 2 * hz - 1) == 2;
    assert Admitted(Gate(0, 1), [hz - 1, hz, hz], 2, hz, hz - 1, 2 * hz - 1) == 3;
  }
}
