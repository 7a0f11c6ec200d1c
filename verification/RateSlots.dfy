/**
Slot ownership in the rate table (fw_rate.c): one entry owns the same slot index on every CPU.

Creating an entry probes CPU 0 for a free index and publishes the entry to every possible CPU under
rate_slot_lock. Reclaim unlinks under the bucket lock, clears the slot on each CPU that is online when
the flush starts, in that CPU's own callback, and frees last. CPUs come and go. Every interleaving of
these steps is a run.
*/
module RateSlots {
  import opened Basics
  import opened Prefix
  import Paging

  const SLOTS: nat := 512

  type Row = s: seq<Option<nat>> | |s| == SLOTS witness seq(SLOTS, _ => None)

  /** A flush waits for the CPUs online at its start; `cleared` are those whose callback has run. */
  datatype Life =
    | Linked
    | Unlinked
    | Flushing(targets: set<nat>, cleared: set<nat>)
    | Freed(cleared: set<nat>)

  datatype Entry = Entry(src: Addr, slot: nat, life: Life)

  /**
  `publishing` is the holder of rate_slot_lock: the entry being published and the next CPU. `last` is
  history: the entry last published to each slot of each CPU. `count` is rate_count.
  */
  datatype State = State(entries: map<nat, Entry>, rows: seq<Row>, publishing: Option<(nat, nat)>, online: set<nat>,
                         last: seq<Row>, count: int)

  datatype Step =
    | Create(id: nat, src: Addr, start: nat)
    | Publish
    | Unlink(id: nat)
    | Flush(id: nat)
    | Callback(id: nat, cpu: nat)
    | Free(id: nat)
    | Plug(cpu: nat)
    | Unplug(cpu: nat)

  function Nth(start: nat, i: nat): (j: nat)
    ensures j < SLOTS
  {
    (start + i) % SLOTS
  }

  /** The probe of fw_rate_create: the first free index from `start`, wrapping, after `probe` busy ones. */
  function Probe(row: Row, start: nat, probe: nat): (idx: Option<nat>)
    requires probe <= SLOTS
    ensures idx.Some? ==> idx.value < SLOTS && row[idx.value].None?
    ensures idx.None? ==> forall i :: probe <= i < SLOTS ==> row[Nth(start, i)].Some?
    decreases SLOTS - probe
  {
    if probe == SLOTS then None
    else if row[Nth(start, probe)].None? then Some(Nth(start, probe))
    else Probe(row, start, probe + 1)
  }

  /** The index found is free, and all indices from the start up to it, wrapping, are taken. */
  lemma {:induction false} ProbeFirst(row: Row, start: nat, probe: nat) returns (i: nat)
    requires probe <= SLOTS && Probe(row, start, probe).Some?
    ensures probe <= i < SLOTS && Probe(row, start, probe) == Some(Nth(start, i)) && row[Nth(start, i)].None?
    ensures forall j :: probe <= j < i ==> row[Nth(start, j)].Some?
    decreases SLOTS - probe
  {
    if row[Nth(start, probe)].None? { i := probe; } else { i := ProbeFirst(row, start, probe + 1); }
  }

  lemma NthZero(start: nat)
    requires start < SLOTS
    ensures Nth(start, 0) == start
  {}

  /** Probing fails exactly when every slot is taken. */
  lemma ProbeFailsOnlyWhenFull(row: Row, start: nat)
    requires start < SLOTS
    ensures Probe(row, start, 0).None? <==> forall i :: 0 <= i < SLOTS ==> row[i].Some?
  {
    if Probe(row, start, 0).None? {
      forall i | 0 <= i < SLOTS ensures row[i].Some? {
        NthReaches(start, i);
      }
    }
  }

  lemma NthReaches(start: nat, i: nat)
    requires start < SLOTS && i < SLOTS
    ensures Nth(start, if i >= start then i - start else i + SLOTS - start) == i
  {
    assert i % SLOTS == i && (i + SLOTS) % SLOTS == i;
  }

  lemma NthNext(start: nat, i: nat)
    ensures (Nth(start, i) + 1) % SLOTS == Nth(start, i + 1)
  {}

  /** The probe loop as it runs, with the 16-bit index masked to the table size. */
  method ProbeLoop(row: array<Option<nat>>, start: nat) returns (idx: Option<nat>)
    requires row.Length == SLOTS && start < SLOTS
    ensures idx == Probe(row[..], start, 0)
  {
    var slot, probe := start, 0;
    NthZero(start);
    while probe < SLOTS
      invariant 0 <= probe <= SLOTS && slot == Nth(start, probe)
      invariant Probe(row[..], start, 0) == Probe(row[..], start, probe)
    {
      assert row[slot] == row[..][slot];
      if row[slot].None? { return Some(slot); }
      NthNext(start, probe);
      slot := (slot + 1) % SLOTS;
      probe := probe + 1;
    }
    idx := None;
  }

  predicate WellFormed(s: State) {
    && |s.rows| == |s.last| > 0
    && (forall x :: x in s.entries ==> s.entries[x].slot < SLOTS)
    && (s.publishing.Some? ==> s.publishing.value.0 in s.entries && s.publishing.value.1 < |s.rows|)
  }

  predicate IsLinked(s: State, x: nat) { x in s.entries && s.entries[x].life.Linked? }

  predicate IsPublishing(s: State, x: nat) { s.publishing.Some? && s.publishing.value.0 == x }

  ghost predicate Enabled(s: State, step: Step)
    requires WellFormed(s)
  {
    match step
    case Create(x, src, start) =>
      // bucket lock: the source is not linked yet; slot lock: nobody else is publishing
      x !in s.entries && s.publishing.None? && (forall y :: IsLinked(s, y) ==> s.entries[y].src != src)
      && Probe(s.rows[0], start, 0).Some?
    case Publish => s.publishing.Some?
    // the creator still holds the bucket lock while it publishes
    case Unlink(x) => IsLinked(s, x) && !IsPublishing(s, x)
    case Flush(x) => x in s.entries && s.entries[x].life.Unlinked?
    case Callback(x, c) =>
      && x in s.entries && s.entries[x].life.Flushing? && c < |s.rows|
      && c in s.entries[x].life.targets && c !in s.entries[x].life.cleared
    case Free(x) =>
      x in s.entries && s.entries[x].life.Flushing? && s.entries[x].life.targets == s.entries[x].life.cleared
    case Plug(_) => true
    case Unplug(_) => true
  }

  function SetLife(s: State, x: nat, life: Life): State
    requires x in s.entries
  {
    s.(entries := s.entries[x := s.entries[x].(life := life)])
  }

  ghost function Apply(s: State, step: Step): (r: State)
    requires WellFormed(s) && Enabled(s, step)
    ensures WellFormed(r)
  {
    match step
    case Create(x, src, start) =>
      s.(entries := s.entries[x := Entry(src, Probe(s.rows[0], start, 0).value, Linked)], publishing := Some((x, 0)),
         count := s.count + 1)
    case Publish =>
      var (x, c) := s.publishing.value;
      s.(rows := s.rows[c := s.rows[c][s.entries[x].slot := Some(x)]],
         last := s.last[c := s.last[c][s.entries[x].slot := Some(x)]],
         publishing := if c + 1 == |s.rows| then None else Some((x, c + 1)))
    case Unlink(x) => SetLife(s, x, Unlinked)
    case Flush(x) => SetLife(s, x, Flushing(s.online, {}))
    case Callback(x, c) =>
      var e := s.entries[x];
      SetLife(s, x, Flushing(e.life.targets, e.life.cleared + {c}))
        .(rows := if s.rows[c][e.slot] == Some(x) then s.rows[c := s.rows[c][e.slot := None]] else s.rows)
    case Free(x) => SetLife(s, x, Freed(s.entries[x].life.cleared)).(count := s.count - 1)
    case Plug(c) => s.(online := s.online + {c})
    case Unplug(c) => s.(online := s.online - {c})
  }

  ghost predicate Init(s: State) {
    && |s.rows| == |s.last| > 0 && s.entries == map[] && s.publishing.None? && s.count == 0
    && forall c, i :: 0 <= c < |s.rows| && 0 <= i < SLOTS ==> s.rows[c][i].None? && s.last[c][i].None?
  }

  ghost predicate IsRun(s: State, steps: seq<Step>)
    requires WellFormed(s)
    decreases steps
  {
    steps == [] || (Enabled(s, steps[0]) && IsRun(Apply(s, steps[0]), steps[1..]))
  }

  ghost function After(s: State, steps: seq<Step>): (r: State)
    requires WellFormed(s) && IsRun(s, steps)
    ensures WellFormed(r)
    decreases steps
  {
    if steps == [] then s else After(Apply(s, steps[0]), steps[1..])
  }

  // ---------------------------------------------------------------- the invariant

  /** Linked entries have slots and sources of their own. */
  ghost predicate Exclusive(s: State) {
    forall x, y :: IsLinked(s, x) && IsLinked(s, y) && x != y ==>
      s.entries[x].slot != s.entries[y].slot && s.entries[x].src != s.entries[y].src
  }

  /** A linked entry holds its slot on every CPU it has been published to. */
  ghost predicate Published(s: State)
    requires WellFormed(s)
  {
    && (s.publishing.Some? ==> IsLinked(s, s.publishing.value.0))
    && forall x, c :: IsLinked(s, x) && 0 <= c < |s.rows| && (IsPublishing(s, x) ==> c < s.publishing.value.1) ==>
      s.rows[c][s.entries[x].slot] == Some(x)
  }

  /** The CPUs on which a reclaim of this entry has cleared its slot. */
  function ClearedOn(life: Life): set<nat> {
    match life
    case Flushing(_, cleared) => cleared
    case Freed(cleared) => cleared
    case _ => {}
  }

  /** A slot holds the entry last published to it, until a reclaim of that entry clears it on this CPU. */
  ghost predicate SlotIs(s: State, c: nat, i: nat)
    requires WellFormed(s) && c < |s.rows| && i < SLOTS
  {
    match s.last[c][i]
    case None => s.rows[c][i].None?
    case Some(x) =>
      && x in s.entries && s.entries[x].slot == i
      && s.rows[c][i] == if c in ClearedOn(s.entries[x].life) then None else Some(x)
  }

  ghost predicate SlotsExact(s: State)
    requires WellFormed(s)
  {
    forall c, i :: 0 <= c < |s.rows| && 0 <= i < SLOTS ==> SlotIs(s, c, i)
  }

  ghost predicate Inv(s: State) {
    WellFormed(s) && Exclusive(s) && Published(s) && SlotsExact(s)
  }

  lemma CreateKeeps(s: State, step: Step)
    requires Inv(s) && step.Create? && Enabled(s, step)
    ensures Inv(Apply(s, step))
  {
    var r, idx := Apply(s, step), Probe(s.rows[0], step.start, 0).value;
    forall x | IsLinked(s, x) ensures s.entries[x].slot != idx && s.entries[x].src != step.src {
      assert s.rows[0][s.entries[x].slot] == Some(x);
    }
    forall c, i | 0 <= c < |r.rows| && 0 <= i < SLOTS ensures SlotIs(r, c, i) { assert SlotIs(s, c, i); }
  }

  lemma PublishKeeps(s: State, step: Step)
    requires Inv(s) && step.Publish? && Enabled(s, step)
    ensures Inv(Apply(s, step))
  {
    var r := Apply(s, step);
    var (x, k) := s.publishing.value;
    forall c, i | 0 <= c < |r.rows| && 0 <= i < SLOTS ensures SlotIs(r, c, i) {
      assert SlotIs(s, c, i);
      assert c == k && i == s.entries[x].slot ==> r.last[c][i] == r.rows[c][i] == Some(x);
    }
  }

  lemma CallbackKeeps(s: State, step: Step)
    requires Inv(s) && step.Callback? && Enabled(s, step)
    ensures Inv(Apply(s, step))
  {
    var r := Apply(s, step);
    forall c, i | 0 <= c < |r.rows| && 0 <= i < SLOTS ensures SlotIs(r, c, i) { assert SlotIs(s, c, i); }
  }

  lemma OtherStepsKeep(s: State, step: Step)
    requires Inv(s) && (step.Unlink? || step.Flush? || step.Free? || step.Plug? || step.Unplug?) && Enabled(s, step)
    ensures Inv(Apply(s, step))
  {
    var r := Apply(s, step);
    forall c, i | 0 <= c < |r.rows| && 0 <= i < SLOTS ensures SlotIs(r, c, i) { assert SlotIs(s, c, i); }
  }

  lemma InvStep(s: State, step: Step)
    requires Inv(s) && Enabled(s, step)
    ensures Inv(Apply(s, step))
  {
    match step
    case Create(_, _, _) => CreateKeeps(s, step);
    case Publish => PublishKeeps(s, step);
    case Callback(_, _) => CallbackKeeps(s, step);
    case _ => OtherStepsKeep(s, step);
  }

  lemma {:induction false} InvRun(s: State, steps: seq<Step>)
    requires Inv(s) && IsRun(s, steps)
    ensures Inv(After(s, steps))
    decreases steps
  {
    if steps != [] {
      InvStep(s, steps[0]);
      InvRun(Apply(s, steps[0]), steps[1..]);
    }
  }

  // ---------------------------------------------------------------- what every run guarantees

  /**
  In every interleaving of create, publish, flush, per-CPU callbacks, free and CPU hot-plugging: linked
  entries never share a slot or a source, and every slot holds exactly the entry last published to it
  that has not been cleared there.
  */
  lemma SlotsAreOwned(s: State, steps: seq<Step>)
    requires Init(s) && IsRun(s, steps)
    ensures Exclusive(After(s, steps)) && SlotsExact(After(s, steps))
  {
    InvRun(s, steps);
  }

  /**
  Exactly where dangling pointers are: a slot points at a freed entry if and only if that entry was the
  last published there and the CPU was not online when its reclaim was flushed.
  */
  lemma DanglingIffOffline(s: State, steps: seq<Step>, c: nat, i: nat, x: nat)
    requires Init(s) && IsRun(s, steps) && c < |s.rows| && i < SLOTS
    ensures |After(s, steps).rows| == |After(s, steps).last| == |s.rows|
    ensures var r := After(s, steps);
      r.rows[c][i] == Some(x) && x in r.entries && r.entries[x].life.Freed?
      <==> r.last[c][i] == Some(x) && x in r.entries && r.entries[x].life.Freed? && c !in r.entries[x].life.cleared
  {
    RowsKept(s, steps);
    InvRun(s, steps);
    assert SlotIs(After(s, steps), c, i);
  }

  lemma {:induction false} RowsKept(s: State, steps: seq<Step>)
    requires WellFormed(s) && IsRun(s, steps)
    ensures |After(s, steps).rows| == |s.rows|
    decreases steps
  {
    if steps != [] { RowsKept(Apply(s, steps[0]), steps[1..]); }
  }

  /** What a reclaim has cleared when it frees is what was online when its flush began, whatever happens between. */
  lemma {:induction false} FlushFixesTargets(s: State, steps: seq<Step>, x: nat)
    requires WellFormed(s) && IsRun(s, steps) && x in s.entries && s.entries[x].life.Flushing?
    ensures x in After(s, steps).entries
    ensures match After(s, steps).entries[x].life
            case Flushing(targets, _) => targets == s.entries[x].life.targets
            case Freed(cleared) => cleared == s.entries[x].life.targets
            case _ => false
    decreases steps
  {
    if steps != [] {
      var r := Apply(s, steps[0]);
      if r.entries[x].life.Flushing? {
        FlushFixesTargets(r, steps[1..], x);
      } else {
        FreedStays(r, steps[1..], x);
      }
    }
  }

  lemma {:induction false} FreedStays(s: State, steps: seq<Step>, x: nat)
    requires WellFormed(s) && IsRun(s, steps) && x in s.entries && s.entries[x].life.Freed?
    ensures x in After(s, steps).entries && After(s, steps).entries[x] == s.entries[x]
    decreases steps
  {
    if steps != [] { FreedStays(Apply(s, steps[0]), steps[1..], x); }
  }

  /** CPU `c` is online at the start and never unplugged. */
  predicate Stays(s: State, steps: seq<Step>, c: nat) {
    c in s.online && forall i :: 0 <= i < |steps| ==> steps[i] != Unplug(c)
  }

  /** Every flush has CPU `c` among its targets. */
  ghost predicate Targeted(s: State, c: nat) {
    && c in s.online
    && forall x :: x in s.entries ==>
         match s.entries[x].life
         case Flushing(targets, _) => c in targets
         case Freed(cleared) => c in cleared
         case _ => true
  }

  lemma {:induction false} TargetedRun(s: State, steps: seq<Step>, c: nat)
    requires WellFormed(s) && Targeted(s, c) && IsRun(s, steps) && Stays(s, steps, c)
    ensures Targeted(After(s, steps), c)
    decreases steps
  {
    if steps != [] {
      var r := Apply(s, steps[0]);
      assert steps[0] != Unplug(c);
      assert forall i :: 0 <= i < |steps[1..]| ==> steps[1..][i] == steps[i + 1];
      TargetedRun(r, steps[1..], c);
    }
  }

  /** Entry `x` has index `i`, is not freed and not yet cleared on CPU `c`. */
  ghost predicate Owns(s: State, x: nat, i: nat, c: nat) {
    x in s.entries && s.entries[x].slot == i && !s.entries[x].life.Freed? && c !in ClearedOn(s.entries[x].life)
  }

  /**
  On a CPU that stays online no slot leaks or dangles: an occupied one belongs to an entry that is not
  freed and not yet cleared there.
  */
  lemma OnlineSlotsAreLive(s: State, steps: seq<Step>, c: nat, i: nat)
    requires Init(s) && IsRun(s, steps) && c < |s.rows| && Stays(s, steps, c) && i < SLOTS
    ensures |After(s, steps).rows| == |s.rows|
    ensures var r := After(s, steps); r.rows[c][i].Some? ==> Owns(r, r.rows[c][i].value, i, c)
  {
    RowsKept(s, steps);
    InvRun(s, steps);
    TargetedRun(s, steps, c);
    assert SlotIs(After(s, steps), c, i);
  }

  /** At most 512 sources are tracked at once, whatever the interleaving. */
  lemma AtMost512Sources(s: State, steps: seq<Step>)
    requires Init(s) && IsRun(s, steps)
    ensures |set x | IsLinked(After(s, steps), x) && x in After(s, steps).entries| <= SLOTS
  {
    InvRun(s, steps);
    var r := After(s, steps);
    var linked := set x | x in r.entries && IsLinked(r, x);
    assert linked == set x | IsLinked(r, x) && x in r.entries;
    Pigeonhole(r, linked, SLOTS);
  }

  lemma {:induction false} Pigeonhole(s: State, xs: set<nat>, n: nat)
    requires forall x :: x in xs ==> x in s.entries && s.entries[x].slot < n
    requires forall x, y :: x in xs && y in xs && x != y ==> s.entries[x].slot != s.entries[y].slot
    ensures |xs| <= n
  {
    if n == 0 {
      assert xs == {};
    } else if x :| x in xs && s.entries[x].slot == n - 1 {
      Pigeonhole(s, xs - {x}, n - 1);
    } else {
      Pigeonhole(s, xs, n - 1);
    }
  }

  ghost predicate Held(s: State, i: nat) { exists x :: Owns(s, x, i, 0) }

  /**
  While CPU 0 stays online a source is turned away for want of a slot only while entries that are linked
  or not yet cleared hold all 512 indices: reclaim gives every index back.
  */
  lemma RefusedOnlyWhenFull(s: State, steps: seq<Step>, start: nat)
    requires Init(s) && IsRun(s, steps) && Stays(s, steps, 0) && start < SLOTS
    requires |After(s, steps).rows| > 0 && Probe(After(s, steps).rows[0], start, 0).None?
    ensures forall i :: 0 <= i < SLOTS ==> Held(After(s, steps), i)
  {
    var r := After(s, steps);
    ProbeFailsOnlyWhenFull(r.rows[0], start);
    forall i | 0 <= i < SLOTS ensures Held(r, i) {
      OnlineSlotsAreLive(s, steps, 0, i);
      assert Owns(r, r.rows[0][i].value, i, 0);
    }
  }

  // ---------------------------------------------------------------- the entry counter

  /** Entries a lookup or a page walk sees, and entries that are unlinked and not freed yet. */
  ghost function Linkeds(s: State): set<nat> { set x | x in s.entries && s.entries[x].life.Linked? }

  ghost function Reclaiming(s: State): set<nat> {
    set x | x in s.entries && (s.entries[x].life.Unlinked? || s.entries[x].life.Flushing?)
  }

  ghost function Tracked(s: State): set<nat> { set x | x in s.entries && !s.entries[x].life.Freed? }

  lemma CountStep(s: State, step: Step)
    requires WellFormed(s) && Enabled(s, step) && s.count == |Tracked(s)|
    ensures Apply(s, step).count == |Tracked(Apply(s, step))|
  {
    var r := Apply(s, step);
    match step
    case Create(x, _, _) => assert Tracked(r) == Tracked(s) + {x};
    case Free(x) => assert Tracked(s) == Tracked(r) + {x};
    case _ => assert Tracked(r) == Tracked(s);
  }

  lemma {:induction false} CountRun(s: State, steps: seq<Step>)
    requires WellFormed(s) && IsRun(s, steps) && s.count == |Tracked(s)|
    ensures After(s, steps).count == |Tracked(After(s, steps))|
    decreases steps
  {
    if steps != [] {
      CountStep(s, steps[0]);
      CountRun(Apply(s, steps[0]), steps[1..]);
    }
  }

  /** In every reachable state the counter is the linked entries and those unlinked and not freed yet. */
  lemma CountIsLinkedAndReclaiming(s: State, steps: seq<Step>)
    requires Init(s) && IsRun(s, steps)
    ensures After(s, steps).count == |Linkeds(After(s, steps))| + |Reclaiming(After(s, steps))|
  {
    var r := After(s, steps);
    assert Tracked(s) == {};
    CountRun(s, steps);
    assert Tracked(r) == Linkeds(r) + Reclaiming(r) && Linkeds(r) !! Reclaiming(r);
  }

  /**
  The pages of the rate table, whose total is that counter, reproduce the linked entries; and every page
  below the total makes progress if and only if no reclaim is under way.
  */
  lemma RatePages(s: State, steps: seq<Step>, all: seq<nat>, limits: seq<nat>, limit: nat)
    requires Init(s) && IsRun(s, steps)
    requires Paging.NoDup(all) && forall x :: x in all <==> x in Linkeds(After(s, steps))
    ensures var r := After(s, steps);
      && |all| <= r.count
      && (|all| <= |limits| ==> Paging.Follow(Paging.RATES, all, r.count, 0, limits) == all)
      && ((forall offset: nat :: offset < r.count ==> |Paging.Answer(Paging.RATES, all, r.count, offset, limit)| > 0)
          <==> Reclaiming(r) == {})
  {
    var r := After(s, steps);
    CountIsLinkedAndReclaiming(s, steps);
    Paging.ListedSize(all, Linkeds(r));
    Paging.PagesReproduce(Paging.RATES, all, r.count, 0, limits);
    assert all[0..] == all;
    Paging.AllProgress(Paging.RATES, all, r.count, limit);
  }

  // ---------------------------------------------------------------- what fails on an offline CPU

  /** Two possible CPUs, one online. */
  ghost function TwoCpus(online: set<nat>): State {
    var free: Row := seq(SLOTS, _ => None);
    State(map[], [free, free], None, online, [free, free], 0)
  }

  /** One source comes and goes: created, published to both CPUs, unlinked, flushed, cleared and freed. */
  function Visit(src: Addr, clears: nat): seq<Step> {
    [Create(0, src, 0), Publish, Publish, Unlink(0), Flush(0), Callback(0, clears), Free(0)]
  }

  lemma RunCons(s: State, step: Step, steps: seq<Step>)
    requires WellFormed(s) && Enabled(s, step) && IsRun(Apply(s, step), steps)
    ensures IsRun(s, [step] + steps) && After(s, [step] + steps) == After(Apply(s, step), steps)
  {
    assert ([step] + steps)[1..] == steps;
  }

  lemma VisitPublishes(src: Addr, off: nat) returns (s: State)
    requires off < 2
    ensures IsRun(TwoCpus({1 - off}), [Create(0, src, 0), Publish, Publish])
    ensures s == After(TwoCpus({1 - off}), [Create(0, src, 0), Publish, Publish])
    ensures s.publishing.None? && s.online == {1 - off} && s.entries == map[0 := Entry(src, 0, Linked)]
    ensures |s.rows| == 2 && s.rows[0][0] == s.rows[1][0] == Some(0)
  {
    var s0 := TwoCpus({1 - off});
    assert Probe(s0.rows[0], 0, 0) == Some(0) by { NthZero(0); }
    var s1 := Apply(s0, Create(0, src, 0));
    var s2 := Apply(s1, Publish);
    s := Apply(s2, Publish);
    RunCons(s2, Publish, []);
    assert [Publish] + [] == [Publish] && [Publish] + [Publish] == [Publish, Publish];
    RunCons(s1, Publish, [Publish]);
    assert [Create(0, src, 0)] + [Publish, Publish] == [Create(0, src, 0), Publish, Publish];
    RunCons(s0, Create(0, src, 0), [Publish, Publish]);
  }

  lemma VisitLeaves(s: State, src: Addr, off: nat)
    requires off < 2 && WellFormed(s) && s.publishing.None? && s.online == {1 - off}
    requires s.entries == map[0 := Entry(src, 0, Linked)] && |s.rows| == 2 && s.rows[0][0] == s.rows[1][0] == Some(0)
    ensures var steps := [Unlink(0), Flush(0), Callback(0, 1 - off), Free(0)];
      && IsRun(s, steps)
      && var r := After(s, steps);
         && r.entries == map[0 := Entry(src, 0, Freed({1 - off}))] && |r.rows| == 2
         && r.rows[off][0] == Some(0) && r.rows[1 - off][0] == None && r.publishing.None?
  {
    var on := 1 - off;
    var s1 := Apply(s, Unlink(0));
    var s2 := Apply(s1, Flush(0));
    FlushEnds(s2, src, off);
    RunCons(s1, Flush(0), [Callback(0, on), Free(0)]);
    assert [Flush(0)] + [Callback(0, on), Free(0)] == [Flush(0), Callback(0, on), Free(0)];
    RunCons(s, Unlink(0), [Flush(0), Callback(0, on), Free(0)]);
    assert [Unlink(0)] + [Flush(0), Callback(0, on), Free(0)] == [Unlink(0), Flush(0), Callback(0, on), Free(0)];
  }

  lemma FlushEnds(s: State, src: Addr, off: nat)
    requires off < 2 && WellFormed(s) && s.publishing.None? && s.online == {1 - off}
    requires s.entries == map[0 := Entry(src, 0, Flushing({1 - off}, {}))]
    requires |s.rows| == 2 && s.rows[0][0] == s.rows[1][0] == Some(0)
    ensures var steps := [Callback(0, 1 - off), Free(0)];
      && IsRun(s, steps)
      && var r := After(s, steps);
         && r.entries == map[0 := Entry(src, 0, Freed({1 - off}))] && |r.rows| == 2
         && r.rows[off][0] == Some(0) && r.rows[1 - off][0] == None && r.publishing.None?
  {
    var on := 1 - off;
    assert {} + {on} == {on};
    var s3 := Apply(s, Callback(0, on));
    RunCons(s3, Free(0), []);
    assert [Free(0)] + [] == [Free(0)];
    RunCons(s, Callback(0, on), [Free(0)]);
    assert [Callback(0, on)] + [Free(0)] == [Callback(0, on), Free(0)];
  }

  lemma {:induction false} RunJoin(s: State, a: seq<Step>, b: seq<Step>)
    requires WellFormed(s) && IsRun(s, a) && IsRun(After(s, a), b)
    ensures IsRun(s, a + b) && After(s, a + b) == After(After(s, a), b)
    decreases a
  {
    if a == [] {
      assert a + b == b;
    } else {
      RunJoin(Apply(s, a[0]), a[1..], b);
      assert (a + b)[1..] == a[1..] + b;
    }
  }

  /** Index `i` of CPU 0 points at the freed entry `x`, and nobody is about to publish there. */
  ghost predicate Leaked(s: State, i: nat, x: nat)
    requires WellFormed(s) && i < SLOTS
  {
    && s.rows[0][i] == Some(x) && x in s.entries && s.entries[x].life.Freed?
    && (s.publishing.Some? && s.entries[s.publishing.value.0].slot == i ==> s.publishing.value.1 > 0)
  }

  /** A leaked index is never found free again: the probe looks at CPU 0, and nothing clears it there. */
  lemma {:induction false} LeakIsPermanent(s: State, steps: seq<Step>, i: nat, x: nat)
    requires WellFormed(s) && IsRun(s, steps) && i < SLOTS && Leaked(s, i, x)
    ensures Leaked(After(s, steps), i, x)
    decreases steps
  {
    if steps != [] {
      assert Leaked(Apply(s, steps[0]), i, x);
      LeakIsPermanent(Apply(s, steps[0]), steps[1..], i, x);
    }
  }

  /** With CPU `off` offline, its slot is left pointing at the freed entry; for CPU 0 the index is leaked. */
  lemma OfflineSlotDangles(src: Addr, off: nat)
    requires off < 2
    ensures Init(TwoCpus({1 - off})) && IsRun(TwoCpus({1 - off}), Visit(src, 1 - off))
    ensures var r := After(TwoCpus({1 - off}), Visit(src, 1 - off));
      && r.entries == map[0 := Entry(src, 0, Freed({1 - off}))] && |r.rows| == 2
      && r.rows[off][0] == Some(0) && r.rows[1 - off][0] == None && (off == 0 ==> Leaked(r, 0, 0))
  {
    var first, second := [Create(0, src, 0), Publish, Publish], [Unlink(0), Flush(0), Callback(0, 1 - off), Free(0)];
    var s := VisitPublishes(src, off);
    VisitLeaves(s, src, off);
    RunJoin(TwoCpus({1 - off}), first, second);
    assert Visit(src, 1 - off) == first + second;
  }
}
