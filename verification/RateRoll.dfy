/**
Window roll-up of one rate entry (fw_rate_observe, fw_rate_roll): first as the lock-free protocol
among CPUs, then the port sets as they run sequentially.
*/
module RateRoll {
  import opened Basics
  import opened Paging

  // ---------------------------------------------------------------- the protocol

  /** What a CPU is doing with the entry; a roller carries its running total and the next CPU to take from. */
  datatype Pc = Running | Rolling(next: nat, cur: nat)

  /**
  One counter of one entry. `live[c]` says that CPU c's slot still points at the entry; the other
  ghosts of the story are what was observed, settled into windows, and thrown away by reclaim.
  */
  datatype State = State(slots: seq<nat>, live: seq<bool>, rolling: bool, pcs: seq<Pc>,
                         observed: nat, settled: nat, discarded: nat)

  datatype Step =
    | Observe(cpu: nat, amount: nat)   // atomic64_add on the CPU's own slot
    | Elect(cpu: nat)                  // cmpxchg(&rolling, 0, 1), won or lost
    | Take(cpu: nat)                   // xchg of one CPU's slot by the roller
    | Settle(cpu: nat)                 // window values stored, rolling released
    | Reclaim(cpu: nat)                // the reclaim callback clears this CPU's slot

  predicate WellFormed(s: State) { |s.slots| == |s.live| == |s.pcs| }

  predicate Enabled(s: State, step: Step)
    requires WellFormed(s)
  {
    && step.cpu < |s.slots|
    && match step
       case Observe(c, _) => s.pcs[c].Running? && s.live[c]
       case Elect(c) => s.pcs[c].Running?
       case Take(c) => s.pcs[c].Rolling? && s.pcs[c].next < |s.slots|
       case Settle(c) => s.pcs[c].Rolling? && s.pcs[c].next == |s.slots|
       case Reclaim(c) => s.live[c]
  }

  function Apply(s: State, step: Step): (r: State)
    requires WellFormed(s) && Enabled(s, step)
    ensures WellFormed(r) && |r.slots| == |s.slots|
  {
    match step
    case Observe(c, a) => s.(slots := s.slots[c := s.slots[c] + a], observed := s.observed + a)
    case Elect(c) => if s.rolling then s else s.(rolling := true, pcs := s.pcs[c := Rolling(0, 0)])
    case Take(c) =>
      var Rolling(n, cur) := s.pcs[c];
      if s.live[n] then s.(slots := s.slots[n := 0], pcs := s.pcs[c := Rolling(n + 1, cur + s.slots[n])])
      else s.(pcs := s.pcs[c := Rolling(n + 1, cur)])
    case Settle(c) => s.(settled := s.settled + s.pcs[c].cur, rolling := false, pcs := s.pcs[c := Running])
    case Reclaim(c) => s.(slots := s.slots[c := 0], live := s.live[c := false], discarded := s.discarded + s.slots[c])
  }

  function Total(xs: seq<nat>): nat {
    if xs == [] then 0 else Total(xs[..|xs| - 1]) + xs[|xs| - 1]
  }

  /** Amounts the rollers have taken and not settled yet. */
  function InTransit(pcs: seq<Pc>): nat {
    if pcs == [] then 0
    else
      var last := pcs[|pcs| - 1];
      InTransit(pcs[..|pcs| - 1]) + if last.Rolling? then last.cur else 0
  }

  ghost predicate Inv(s: State) {
    && WellFormed(s)
    && s.observed == s.settled + Total(s.slots) + InTransit(s.pcs) + s.discarded
    && (forall c, d :: 0 <= c < d < |s.pcs| ==> s.pcs[c].Running? || s.pcs[d].Running?)
    && (s.rolling <==> exists c :: 0 <= c < |s.pcs| && s.pcs[c].Rolling?)
  }

  ghost predicate Init(s: State) {
    && WellFormed(s) && !s.rolling && s.observed == s.settled == s.discarded == 0
    && forall c :: 0 <= c < |s.slots| ==> s.slots[c] == 0 && s.live[c] && s.pcs[c].Running?
  }

  predicate IsRun(s: State, steps: seq<Step>)
    requires WellFormed(s)
    decreases steps
  {
    steps == [] || (Enabled(s, steps[0]) && IsRun(Apply(s, steps[0]), steps[1..]))
  }

  function After(s: State, steps: seq<Step>): (r: State)
    requires WellFormed(s) && IsRun(s, steps)
    ensures WellFormed(r)
    decreases steps
  {
    if steps == [] then s else After(Apply(s, steps[0]), steps[1..])
  }

  lemma {:induction false} TotalUpdate(xs: seq<nat>, i: nat, x: nat)
    requires i < |xs|
    ensures Total(xs[i := x]) == Total(xs) - xs[i] + x
  {
    var m := |xs| - 1;
    if i == m {
      assert xs[i := x][..m] == xs[..m];
    } else {
      TotalUpdate(xs[..m], i, x);
      assert xs[i := x][..m] == xs[..m][i := x];
    }
  }

  function Carried(pc: Pc): nat { if pc.Rolling? then pc.cur else 0 }

  lemma {:induction false} InTransitUpdate(pcs: seq<Pc>, i: nat, pc: Pc)
    requires i < |pcs|
    ensures InTransit(pcs[i := pc]) == InTransit(pcs) - Carried(pcs[i]) + Carried(pc)
  {
    var m := |pcs| - 1;
    if i == m {
      assert pcs[i := pc][..m] == pcs[..m];
    } else {
      InTransitUpdate(pcs[..m], i, pc);
      assert pcs[i := pc][..m] == pcs[..m][i := pc];
    }
  }

  lemma {:induction false} AllZero(xs: seq<nat>, pcs: seq<Pc>)
    requires |xs| == |pcs| && forall c :: 0 <= c < |xs| ==> xs[c] == 0 && pcs[c].Running?
    ensures Total(xs) == 0 == InTransit(pcs)
  {
    if xs != [] { AllZero(xs[..|xs| - 1], pcs[..|pcs| - 1]); }
  }

  lemma InvStep(s: State, step: Step)
    requires Inv(s) && Enabled(s, step)
    ensures Inv(Apply(s, step))
  {
    var c, r := step.cpu, Apply(s, step);
    InTransitUpdate(s.pcs, c, r.pcs[c]);
    var touched := if step.Take? then s.pcs[c].next else c;
    TotalUpdate(s.slots, touched, r.slots[touched]);
    assert r.slots == s.slots[touched := r.slots[touched]];
    assert r.pcs == s.pcs[c := r.pcs[c]];
    if r.pcs[c].Rolling? { assert r.rolling; }
  }

  /**
  In every interleaving nothing observed is lost or counted twice, and at most one CPU rolls the
  entry at a time.
  */
  lemma {:induction false} Conservation(s: State, steps: seq<Step>)
    requires Inv(s) && IsRun(s, steps)
    ensures var r := After(s, steps);
      && r.observed == r.settled + Total(r.slots) + InTransit(r.pcs) + r.discarded
      && forall c, d :: 0 <= c < d < |r.pcs| ==> r.pcs[c].Running? || r.pcs[d].Running?
    decreases steps
  {
    if steps != [] {
      InvStep(s, steps[0]);
      Conservation(Apply(s, steps[0]), steps[1..]);
    }
  }

  lemma ConservationFromStart(s: State, steps: seq<Step>)
    requires Init(s) && IsRun(s, steps)
    ensures var r := After(s, steps);
      && r.observed == r.settled + Total(r.slots) + InTransit(r.pcs) + r.discarded
      && forall c, d :: 0 <= c < d < |r.pcs| ==> r.pcs[c].Running? || r.pcs[d].Running?
  {
    AllZero(s.slots, s.pcs);
    Conservation(s, steps);
  }

  // ---------------------------------------------------------------- what a roll settles

  /** What the live slots from `n` on hold. */
  function LiveFrom(s: State, n: nat): nat
    requires WellFormed(s)
    decreases |s.slots| - n
  {
    if n >= |s.slots| then 0 else LiveAt(s, n) + LiveFrom(s, n + 1)
  }

  function LiveAt(s: State, d: nat): nat
    requires WellFormed(s) && d < |s.slots|
  {
    if s.live[d] then s.slots[d] else 0
  }

  lemma {:induction false} LiveFromSame(s: State, t: State, n: nat)
    requires WellFormed(s) && WellFormed(t) && |s.slots| == |t.slots|
    requires forall d :: n <= d < |s.slots| ==> s.slots[d] == t.slots[d] && s.live[d] == t.live[d]
    ensures LiveFrom(s, n) == LiveFrom(t, n)
    decreases |s.slots| - n
  {
    if n < |s.slots| { LiveFromSame(s, t, n + 1); }
  }

  /** One slot other than another changes the sum by what it changes itself. */
  lemma {:induction false} LiveFromOne(s: State, t: State, n: nat, d: nat)
    requires WellFormed(s) && WellFormed(t) && |s.slots| == |t.slots| && d < |s.slots|
    requires forall e :: 0 <= e < |s.slots| && e != d ==> s.slots[e] == t.slots[e] && s.live[e] == t.live[e]
    ensures LiveFrom(t, n) + (if d < n then 0 else LiveAt(s, d)) == LiveFrom(s, n) + if d < n then 0 else LiveAt(t, d)
    decreases |s.slots| - n
  {
    if n < |s.slots| { LiveFromOne(s, t, n + 1, d); }
  }

  /** The steps of a roll that nothing interrupts. */
  function Takes(c: nat, n: nat): seq<Step> { if n == 0 then [] else [Take(c)] + Takes(c, n - 1) }

  /** The entry once the roller `c` has taken the slots from `n` on. */
  function Taken(s: State, c: nat, n: nat, cur: nat): (r: State)
    requires WellFormed(s) && c < |s.slots|
  {
    s.(slots := seq(|s.slots|, d requires 0 <= d < |s.slots| => if n <= d && s.live[d] then 0 else s.slots[d]),
       pcs := s.pcs[c := Rolling(|s.slots|, cur + LiveFrom(s, n))])
  }

  lemma TakenNext(s: State, c: nat, n: nat, cur: nat)
    requires WellFormed(s) && c < |s.slots| && n < |s.slots| && s.pcs[c] == Rolling(n, cur)
    ensures var r := Apply(s, Take(c)); r.pcs[c] == Rolling(n + 1, cur + LiveAt(s, n))
    ensures Taken(Apply(s, Take(c)), c, n + 1, cur + LiveAt(s, n)) == Taken(s, c, n, cur)
  {
    LiveFromSame(s, Apply(s, Take(c)), n + 1);
  }

  lemma {:induction false} TakesAll(s: State, c: nat, n: nat, cur: nat)
    requires WellFormed(s) && c < |s.slots| && n <= |s.slots| && s.pcs[c] == Rolling(n, cur)
    ensures IsRun(s, Takes(c, |s.slots| - n)) && After(s, Takes(c, |s.slots| - n)) == Taken(s, c, n, cur)
    decreases |s.slots| - n
  {
    var steps := Takes(c, |s.slots| - n);
    if n == |s.slots| {
      assert Taken(s, c, n, cur) == s;
    } else {
      var r := Apply(s, Take(c));
      assert steps[1..] == Takes(c, |s.slots| - (n + 1));
      TakesAll(r, c, n + 1, r.pcs[c].cur);
      TakenNext(s, c, n, cur);
    }
  }

  lemma {:induction false} RunSnoc(s: State, steps: seq<Step>, last: Step)
    requires WellFormed(s) && IsRun(s, steps) && Enabled(After(s, steps), last)
    ensures IsRun(s, steps + [last]) && After(s, steps + [last]) == Apply(After(s, steps), last)
    decreases steps
  {
    if steps == [] {
      assert [last][1..] == [];
    } else {
      assert (steps + [last])[1..] == steps[1..] + [last];
      RunSnoc(Apply(s, steps[0]), steps[1..], last);
    }
  }

  /** An uninterrupted roll settles exactly what the live slots hold and leaves those slots at 0. */
  lemma RollSettles(s: State, c: nat)
    requires WellFormed(s) && !s.rolling && c < |s.slots| && s.pcs[c].Running?
    ensures var steps := [Elect(c)] + Takes(c, |s.slots|) + [Settle(c)];
      && IsRun(s, steps)
      && var r := After(s, steps);
         && r.settled == s.settled + LiveFrom(s, 0) && !r.rolling && r.pcs == s.pcs && r.live == s.live
         && |r.slots| == |s.slots| && r.observed == s.observed && r.discarded == s.discarded
         && forall d :: 0 <= d < |s.slots| ==> r.slots[d] == if s.live[d] then 0 else s.slots[d]
  {
    var elected := Apply(s, Elect(c));
    TakesAll(elected, c, 0, 0);
    LiveFromSame(s, elected, 0);
    var takes := Takes(c, |s.slots|);
    assert ([Elect(c)] + takes)[1..] == takes;
    RunSnoc(s, [Elect(c)] + takes, Settle(c));
    assert s.pcs[c := Rolling(|s.slots|, LiveFrom(s, 0))][c := Running] == s.pcs;
  }

  /** What roller `c` has settled or discarded, carries, and has still to take. */
  function Due(s: State, c: nat): nat
    requires WellFormed(s) && c < |s.pcs| && s.pcs[c].Rolling?
  {
    s.settled + s.discarded + s.pcs[c].cur + LiveFrom(s, s.pcs[c].next)
  }

  /** No step of anyone takes from that, until `c` settles it. */
  lemma DueStep(s: State, step: Step, c: nat)
    requires Inv(s) && Enabled(s, step) && c < |s.pcs| && s.pcs[c].Rolling?
    ensures var r := Apply(s, step);
      if step == Settle(c) then r.settled + r.discarded == Due(s, c)
      else r.pcs[c].Rolling? && Due(r, c) >= Due(s, c)
  {
    var r := Apply(s, step);
    var n := s.pcs[c].next;
    match step
    case Observe(d, a) => LiveFromOne(s, r, n, d);
    case Elect(d) => LiveFromSame(s, r, n);
    case Take(d) =>
      assert d == c;
      LiveFromSame(s, r, n + 1);
    case Settle(d) =>
      assert d == c;
      assert LiveFrom(s, n) == 0;
    case Reclaim(d) => LiveFromOne(s, r, n, d);
  }

  /**
  In every interleaving: once a roller has settled, all that it carried and all that the live slots it
  still had to take held has been settled into a window, or discarded by a reclaim.
  */
  lemma {:induction false} RollCollects(s: State, steps: seq<Step>, c: nat)
    requires Inv(s) && IsRun(s, steps) && c < |s.pcs| && s.pcs[c].Rolling?
    requires steps != [] && steps[|steps| - 1] == Settle(c)
    requires forall i :: 0 <= i < |steps| - 1 ==> steps[i] != Settle(c)
    ensures After(s, steps).settled + After(s, steps).discarded >= Due(s, c)
    decreases steps
  {
    DueStep(s, steps[0], c);
    if |steps| > 1 {
      var r := Apply(s, steps[0]);
      InvStep(s, steps[0]);
      assert steps[0] != Settle(c);
      assert forall i :: 0 <= i < |steps[1..]| ==> steps[1..][i] == steps[i + 1];
      RollCollects(r, steps[1..], c);
    } else {
      assert steps[1..] == [];
    }
  }

  /** Everything the run's packets added. */
  function Amounts(steps: seq<Step>): nat {
    if steps == [] then 0 else (if steps[0].Observe? then steps[0].amount else 0) + Amounts(steps[1..])
  }

  /** What was observed is what the packets of the run brought. */
  lemma {:induction false} ObservedIsAmounts(s: State, steps: seq<Step>)
    requires WellFormed(s) && IsRun(s, steps)
    ensures After(s, steps).observed == s.observed + Amounts(steps)
    decreases steps
  {
    if steps != [] { ObservedIsAmounts(Apply(s, steps[0]), steps[1..]); }
  }

  /** From an empty entry, in every run, all that packets brought is settled, carried, in a slot or discarded. */
  lemma AllAmountsAccounted(s: State, steps: seq<Step>)
    requires Init(s) && IsRun(s, steps)
    ensures var r := After(s, steps);
      Amounts(steps) == r.settled + Total(r.slots) + InTransit(r.pcs) + r.discarded
  {
    ConservationFromStart(s, steps);
    ObservedIsAmounts(s, steps);
  }

  // ---------------------------------------------------------------- distinct ports, run sequentially

  const SEEN_MAX: nat := 32
  const SCAN_THRESHOLD: nat := 5

  /** The bounded append both port lists use: no duplicates, nothing beyond 32. */
  method AddPort(list: seq<nat>, port: nat) returns (r: seq<nat>)
    requires NoDup(list) && |list| <= SEEN_MAX
    ensures NoDup(r) && |r| <= SEEN_MAX && list <= r
    ensures r == if port in list || |list| == SEEN_MAX then list else list + [port]
  {
    var i, dup := 0, false;
    while i < |list| && !dup
      invariant 0 <= i <= |list|
      invariant dup ==> port in list
      invariant !dup ==> forall j :: 0 <= j < i ==> list[j] != port
    {
      if list[i] == port { dup := true; }
      i := i + 1;
    }
    r := if !dup && |list| < SEEN_MAX then list + [port] else list;
  }

  /** The merge loop of fw_rate_roll for one CPU's list. */
  method MergePorts(list: seq<nat>, seen: seq<nat>) returns (r: seq<nat>)
    requires NoDup(seen) && |seen| <= SEEN_MAX
    ensures NoDup(r) && |r| <= SEEN_MAX && seen <= r
    ensures forall p :: p in r ==> p in seen || p in list
    ensures |r| == SEEN_MAX || forall p :: p in list ==> p in r
  {
    r := seen;
    for i := 0 to |list|
      invariant NoDup(r) && |r| <= SEEN_MAX && seen <= r
      invariant forall p :: p in r ==> p in seen || p in list
      invariant |r| == SEEN_MAX || forall j :: 0 <= j < i ==> list[j] in r
    {
      r := AddPort(r, list[i]);
    }
  }

  /** A full list inside `all` leaves no room for another port among at most 32. */
  lemma FullListIsAll(list: seq<nat>, all: set<nat>, port: nat)
    requires NoDup(list) && |list| == SEEN_MAX && port !in list
    requires (forall p :: p in list ==> p in all) && port in all
    ensures |all| > SEEN_MAX
  {
    NoDupCardinality(list);
    var listed := set x | x in list;
    assert all == listed + {port} + (all - (listed + {port}));
  }

  class PortTracker {
    /** Per-CPU lists of this window, and the entry's own list. */
    var slots: seq<seq<nat>>
    var seen: seq<nat>
    var scanCounted: bool
    ghost var observed: set<nat>

    ghost predicate Kept(p: nat)
      reads this
    {
      p in seen || exists c :: 0 <= c < |slots| && p in slots[c]
    }

    ghost predicate Valid()
      reads this
    {
      && NoDup(seen) && |seen| <= SEEN_MAX
      && (forall c :: 0 <= c < |slots| ==> NoDup(slots[c]) && |slots[c]| <= SEEN_MAX)
      && (forall p :: Kept(p) ==> p in observed)
      && (|observed| <= SEEN_MAX ==> forall p :: p in observed ==> Kept(p))
      && (scanCounted ==> |seen| >= SCAN_THRESHOLD)
    }

    constructor (cpus: nat)
      ensures Valid() && observed == {} && |slots| == cpus && seen == [] && !scanCounted
    {
      slots, seen, scanCounted, observed := seq(cpus, _ => []), [], false, {};
    }

    /** A packet with a destination port on one CPU; port 0 is not tracked. */
    method ObservePort(cpu: nat, port: nat)
      requires Valid() && cpu < |slots|
      modifies this
      ensures Valid() && |slots| == old(|slots|) && seen == old(seen) && scanCounted == old(scanCounted)
      ensures observed == if port == 0 then old(observed) else old(observed) + {port}
    {
      if port == 0 { return; }
      var list := slots[cpu];
      var next := AddPort(list, port);
      slots := slots[cpu := next];
      observed := observed + {port};
      forall p | p in old(observed) && old(Kept(p)) ensures Kept(p) {
        if c :| 0 <= c < |slots| && p in old(slots)[c] { assert p in slots[c]; }
      }
      if |list| == SEEN_MAX && port !in list {
        forall p | p in list ensures p in observed { assert old(Kept(p)); }
        FullListIsAll(list, observed, port);
      } else {
        assert port in slots[cpu];
        assert old(observed) <= observed;
        SubsetSize(old(observed), observed);
      }
    }

    /** The port part of fw_rate_roll: merge every CPU's list, clear it, and count a scan at most once. */
    method Roll() returns (detected: bool)
      requires Valid()
      modifies this
      ensures Valid() && observed == old(observed) && |slots| == old(|slots|)
      ensures old(seen) <= seen
      ensures |observed| <= SEEN_MAX ==> forall p :: p in seen <==> p in observed
      ensures detected <==> !old(scanCounted) && |seen| >= SCAN_THRESHOLD
      ensures scanCounted <==> |seen| >= SCAN_THRESHOLD
    {
      for c := 0 to |slots|
        invariant Valid() && observed == old(observed) && |slots| == old(|slots|)
        invariant old(seen) <= seen && scanCounted == old(scanCounted)
        invariant forall d :: 0 <= d < c ==> slots[d] == []
      {
        MergeSlot(c);
      }
      assert forall p :: Kept(p) ==> p in seen;
      detected := false;
      if !scanCounted && |seen| >= SCAN_THRESHOLD {
        scanCounted, detected := true, true;
      }
    }

    method MergeSlot(c: nat)
      requires Valid() && c < |slots|
      modifies this
      ensures Valid() && observed == old(observed) && scanCounted == old(scanCounted)
      ensures old(seen) <= seen && slots == old(slots)[c := []]
    {
      var list := slots[c];
      var merged := MergePorts(list, seen);
      forall p | p in list || p in merged ensures p in observed { assert Kept(p); }
      slots, seen := slots[c := []], merged;
      forall p | Kept(p) ensures p in observed {
        if d :| 0 <= d < |slots| && p in slots[d] { assert p in old(slots)[d] && old(Kept(p)); }
      }
      if |observed| <= SEEN_MAX {
        forall p | p in observed ensures Kept(p) {
          assert old(Kept(p));
          if p in list && p !in merged {
            FullListIsAll(merged, observed, p);
          } else if d :| 0 <= d < |slots| && d != c && p in old(slots)[d] {
            assert p in slots[d];
          }
        }
      }
    }
  }
}
