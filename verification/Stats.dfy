/**
Per-CPU statistics of fw_stats.c. The hot path writes only its own CPU's block: plain counters, and
64 direct-mapped slots for UDP ports in which a newcomer displaces the port that was there. A flush
moves the counters into the shared totals, merges the slots into a table of at most 512 ports and
zeroes them.
*/
module Stats {
  const SLOTS: nat := 64
  const MAX_PORTS: nat := 512

  datatype Slot = Slot(port: nat, packets: nat, bytes: nat, lastSeen: nat) {
    /** What the slot holds for `p`. */
    function Of(p: nat, u: Measure): nat {
      if packets == 0 || port != p then 0 else if u.Packets? then packets else bytes
    }
  }
  const ZERO := Slot(0, 0, 0, 0)

  datatype Measure = Packets | Bytes
  datatype Counter = Accepted | Dropped | TcpAnomalies | TrafficPackets | TrafficBytes
  const COUNTERS: seq<Counter> := [Accepted, Dropped, TcpAnomalies, TrafficPackets, TrafficBytes]

  datatype Counts = Counts(accepted: nat, dropped: nat, anomalies: nat, packets: nat, bytes: nat) {
    function Get(w: Counter): nat {
      match w
      case Accepted => accepted
      case Dropped => dropped
      case TcpAnomalies => anomalies
      case TrafficPackets => packets
      case TrafficBytes => bytes
    }

    function Set(w: Counter, n: nat): (c: Counts)
      ensures forall x :: c.Get(x) == if x == w then n else Get(x)
    {
      match w
      case Accepted => this.(accepted := n)
      case Dropped => this.(dropped := n)
      case TcpAnomalies => this.(anomalies := n)
      case TrafficPackets => this.(packets := n)
      case TrafficBytes => this.(bytes := n)
    }
  }

  datatype Port = Port(packets: nat, bytes: nat, lastSeen: nat)

  /** One CPU's block, and the shared totals. */
  datatype Cpu = Cpu(udp: seq<Slot>, counts: Counts, spill: nat) {
    predicate Ok() {
      && |udp| == SLOTS
      && forall i :: 0 <= i < SLOTS && udp[i].packets > 0 ==> udp[i].port > 0 && udp[i].port % SLOTS == i
    }

    /** What the CPU still holds for port `p`. */
    function Of(p: nat, u: Measure): nat {
      if |udp| == SLOTS then udp[p % SLOTS].Of(p, u) else 0
    }

    predicate Drained() {
      && |udp| == SLOTS && spill == 0 && counts == Counts(0, 0, 0, 0, 0)
      && forall i :: 0 <= i < SLOTS ==> udp[i].packets == 0
    }
  }
  datatype Totals = Totals(table: map<nat, Port>, counts: Counts, spill: nat, allocFails: nat) {
    function Of(p: nat, u: Measure): nat {
      if p !in table then 0 else if u.Packets? then table[p].packets else table[p].bytes
    }
  }

  // ---------------------------------------------------------------- what each operation does

  /** fw_stat_udp_account */
  function Accounted(s: Cpu, port: nat, bytes: nat, now: nat): Cpu
    requires |s.udp| == SLOTS
  {
    var i := port % SLOTS;
    var slot := s.udp[i];
    if slot.port != port || slot.packets == 0 then
      s.(udp := s.udp[i := Slot(port, 1, bytes, now)], spill := s.spill + if slot.packets > 0 then 1 else 0)
    else s.(udp := s.udp[i := Slot(port, slot.packets + 1, slot.bytes + bytes, now)])
  }

  /** fw_udp_merge: the table's share and the CPU's. `canAlloc` is the outcome of the allocation. */
  function Merged(t: Totals, slot: Slot, canAlloc: bool): Totals {
    var p := slot.port;
    if p == 0 || slot.packets == 0 then t
    else if p in t.table then
      var e := t.table[p];
      t.(table := t.table[p := Port(e.packets + slot.packets, e.bytes + slot.bytes, slot.lastSeen)])
    else if |t.table| >= MAX_PORTS then t
    else if !canAlloc then t.(allocFails := t.allocFails + 1)
    else t.(table := t.table[p := Port(slot.packets, slot.bytes, slot.lastSeen)])
  }

  /** The merge found the table full. */
  predicate Refused(t: Totals, slot: Slot) {
    slot.port > 0 && slot.packets > 0 && slot.port !in t.table && |t.table| >= MAX_PORTS
  }

  datatype Op =
    | Account(port: nat, bytes: nat, now: nat)
    | Count(which: Counter, amount: nat)
    | BumpSpill
    | Move(which: Counter)
    | Merge(slot: nat, canAlloc: bool)
    | MoveSpill

  predicate Fits(op: Op) {
    match op
    case Account(port, _, _) => 0 < port < 0x1_0000
    case Merge(i, _) => i < SLOTS
    case _ => true
  }

  /** One operation on the CPU `s`; the last three are the pieces of fw_stats_flush_local. */
  function Local(s: Cpu, t: Totals, op: Op): (r: (Cpu, Totals))
    requires |s.udp| == SLOTS && Fits(op)
    ensures |r.0.udp| == SLOTS
  {
    match op
    case Account(port, bytes, now) => (Accounted(s, port, bytes, now), t)
    case Count(w, n) => (s.(counts := s.counts.Set(w, s.counts.Get(w) + n)), t)
    case BumpSpill => (s.(spill := s.spill + 1), t)
    case Move(w) =>
      (s.(counts := s.counts.Set(w, 0)), t.(counts := t.counts.Set(w, t.counts.Get(w) + s.counts.Get(w))))
    case Merge(i, canAlloc) =>
      if s.udp[i].packets == 0 then (s, t)
      else (s.(udp := s.udp[i := ZERO], spill := s.spill + if Refused(t, s.udp[i]) then 1 else 0),
            Merged(t, s.udp[i], canAlloc))
    case MoveSpill => (s.(spill := 0), t.(spill := t.spill + s.spill))
  }

  function LocalRun(s: Cpu, t: Totals, ops: seq<Op>): (r: (Cpu, Totals))
    requires |s.udp| == SLOTS && forall i :: 0 <= i < |ops| ==> Fits(ops[i])
    ensures |r.0.udp| == SLOTS
    decreases |ops|
  {
    if ops == [] then (s, t)
    else
      var r := LocalRun(s, t, ops[..|ops| - 1]);
      Local(r.0, r.1, ops[|ops| - 1])
  }

  function Moves(n: nat): seq<Op>
    requires n <= |COUNTERS|
  {
    seq(n, i requires 0 <= i < n => Move(COUNTERS[i]))
  }

  function Merges(canAlloc: seq<bool>, n: nat): seq<Op>
    requires n <= |canAlloc|
  {
    seq(n, i requires 0 <= i < n => Merge(i, canAlloc[i]))
  }

  /** fw_stats_flush_local: the counters, then the slots, then the spill the slots added to. */
  function Flush(canAlloc: seq<bool>): (ops: seq<Op>)
    requires |canAlloc| == SLOTS
    ensures forall i :: 0 <= i < |ops| ==> Fits(ops[i])
  {
    Moves(|COUNTERS|) + Merges(canAlloc, SLOTS) + [MoveSpill]
  }

  // ---------------------------------------------------------------- the imperative code

  class Info {
    var table: map<nat, Port>
    var counts: Counts
    var spill: nat
    var allocFails: nat

    ghost function Value(): Totals
      reads this
    {
      Totals(table, counts, spill, allocFails)
    }
  }

  class PerCpu {
    const udp: array<Slot>
    var counts: Counts
    var spill: nat

    constructor ()
      ensures fresh(udp) && Valid() && Value().Drained() && Value().Ok()
    {
      udp := new Slot[SLOTS](_ => ZERO);
      counts := Counts(0, 0, 0, 0, 0);
      spill := 0;
    }

    ghost predicate Valid() { udp.Length == SLOTS }

    ghost function Value(): Cpu
      reads this, udp
    {
      Cpu(udp[..], counts, spill)
    }

    method AccountUdp(port: nat, bytes: nat, now: nat)
      requires Valid() && Fits(Account(port, bytes, now))
      modifies this`spill, udp
      ensures Value() == Accounted(old(Value()), port, bytes, now)
      ensures forall u :: Value().Of(port, u) == old(Value().Of(port, u)) + if u.Packets? then 1 else bytes
      ensures old(udp[port % SLOTS].packets > 0 && udp[port % SLOTS].port != port) ==> spill == old(spill) + 1
      ensures old(udp[port % SLOTS].packets == 0 || udp[port % SLOTS].port == port) ==> spill == old(spill)
      ensures udp[port % SLOTS].lastSeen == now
      ensures forall i :: 0 <= i < SLOTS && i != port % SLOTS ==> udp[i] == old(udp[i])
    {
      var i := port % SLOTS;
      if udp[i].port != port || udp[i].packets == 0 {
        if udp[i].packets > 0 { spill := spill + 1; }
        udp[i] := Slot(port, 1, bytes, now);
      } else {
        udp[i] := Slot(port, udp[i].packets + 1, udp[i].bytes + bytes, now);
      }
    }

    method MergeSlot(info: Info, slot: Slot, canAlloc: bool)
      modifies this`spill, info`table, info`allocFails
      ensures info.Value() == Merged(old(info.Value()), slot, canAlloc)
      ensures slot.port > 0 && slot.packets > 0
              && (slot.port in old(info.table) || (|old(info.table)| < MAX_PORTS && canAlloc)) ==>
                && slot.port in info.table && info.table[slot.port].lastSeen == slot.lastSeen
                && forall u ::
                     info.Value().Of(slot.port, u) == old(info.Value()).Of(slot.port, u) + slot.Of(slot.port, u)
      ensures forall p, u :: p != slot.port ==> info.Value().Of(p, u) == old(info.Value()).Of(p, u)
      ensures spill == old(spill) + if old(Refused(info.Value(), slot)) then 1 else 0
    {
      var p := slot.port;
      if p == 0 || slot.packets == 0 { return; }
      if p in info.table {
        var e := info.table[p];
        info.table := info.table[p := Port(e.packets + slot.packets, e.bytes + slot.bytes, slot.lastSeen)];
        return;
      }
      if |info.table| >= MAX_PORTS {
        spill := spill + 1;
        return;
      }
      if !canAlloc {
        info.allocFails := info.allocFails + 1;
        return;
      }
      info.table := info.table[p := Port(slot.packets, slot.bytes, slot.lastSeen)];
    }

    method MoveCounters(info: Info)
      requires Valid()
      modifies this`counts, info`counts
      ensures (Value(), info.Value()) == LocalRun(old(Value()), old(info.Value()), Moves(|COUNTERS|))
    {
      ghost var s, t := Value(), info.Value();
      var i := 0;
      while i < |COUNTERS|
        invariant 0 <= i <= |COUNTERS|
        invariant (Value(), info.Value()) == LocalRun(s, t, Moves(i))
      {
        var w := COUNTERS[i];
        assert Moves(i + 1)[..i] == Moves(i);
        info.counts := info.counts.Set(w, info.counts.Get(w) + counts.Get(w));
        counts := counts.Set(w, 0);
        i := i + 1;
      }
    }

    /** One round of the slot loop: merge, then clear. */
    method FlushSlot(info: Info, i: nat, canAlloc: bool)
      requires Valid() && i < SLOTS
      modifies this`spill, udp, info`table, info`allocFails
      ensures (Value(), info.Value()) == Local(old(Value()), old(info.Value()), Merge(i, canAlloc))
    {
      if udp[i].packets > 0 {
        MergeSlot(info, udp[i], canAlloc);
        udp[i] := ZERO;
      }
    }

    method FlushSlots(info: Info, canAlloc: seq<bool>)
      requires Valid() && |canAlloc| == SLOTS
      modifies this`spill, udp, info`table, info`allocFails
      ensures (Value(), info.Value()) == LocalRun(old(Value()), old(info.Value()), Merges(canAlloc, SLOTS))
    {
      ghost var s, t := Value(), info.Value();
      var i := 0;
      while i < SLOTS
        invariant 0 <= i <= SLOTS
        invariant (Value(), info.Value()) == LocalRun(s, t, Merges(canAlloc, i))
      {
        FlushSlot(info, i, canAlloc[i]);
        assert Merges(canAlloc, i + 1)[..i] == Merges(canAlloc, i);
        i := i + 1;
      }
    }

    method FlushLocal(info: Info, canAlloc: seq<bool>)
      requires Valid() && |canAlloc| == SLOTS
      modifies this, udp, info
      ensures (Value(), info.Value()) == LocalRun(old(Value()), old(info.Value()), Flush(canAlloc))
    {
      ghost var s, t := Value(), info.Value();
      MoveCounters(info);
      FlushSlots(info, canAlloc);
      LocalRunTwice(s, t, Moves(|COUNTERS|), Merges(canAlloc, SLOTS));
      assert Flush(canAlloc)[..|COUNTERS| + SLOTS] == Moves(|COUNTERS|) + Merges(canAlloc, SLOTS);
      info.spill := info.spill + spill;
      spill := 0;
    }
  }

  lemma {:induction false} LocalRunTwice(s: Cpu, t: Totals, first: seq<Op>, later: seq<Op>)
    requires |s.udp| == SLOTS && forall i :: 0 <= i < |first + later| ==> Fits((first + later)[i])
    requires forall i :: 0 <= i < |first| ==> Fits(first[i])
    requires forall i :: 0 <= i < |later| ==> Fits(later[i])
    ensures var mid := LocalRun(s, t, first); LocalRun(s, t, first + later) == LocalRun(mid.0, mid.1, later)
    decreases |later|
  {
    if later == [] {
      assert first + later == first;
    } else {
      var init := later[..|later| - 1];
      assert (first + later)[..|first + later| - 1] == first + init;
      LocalRunTwice(s, t, first, init);
    }
  }

  // ---------------------------------------------------------------- any interleaving, any number of CPUs

  datatype Step = On(cpu: nat, op: Op) | Take(which: Counter)
  datatype System = System(cpus: seq<Cpu>, totals: Totals) {
    predicate Ok() { forall c :: 0 <= c < |cpus| ==> cpus[c].Ok() }
  }

  predicate Possible(step: Step, n: nat) { step.On? ==> step.cpu < n && Fits(step.op) }
  predicate PossibleRun(run: seq<Step>, n: nat) { forall i :: 0 <= i < |run| ==> Possible(run[i], n) }

  /** Take is the exchange with zero at the end of fw_stats_take_traffic. */
  function Next(s: System, step: Step): (r: System)
    requires s.Ok() && Possible(step, |s.cpus|)
    ensures r.Ok() && |r.cpus| == |s.cpus|
  {
    match step
    case On(c, op) =>
      LocalLaw(s.cpus[c], s.totals, op, 0, Packets);
      var l := Local(s.cpus[c], s.totals, op);
      System(s.cpus[c := l.0], l.1)
    case Take(w) => s.(totals := s.totals.(counts := s.totals.counts.Set(w, 0)))
  }

  function Run(s: System, run: seq<Step>): (r: System)
    requires s.Ok() && PossibleRun(run, |s.cpus|)
    ensures r.Ok() && |r.cpus| == |s.cpus|
    decreases |run|
  {
    if run == [] then s else Next(Run(s, run[..|run| - 1]), run[|run| - 1])
  }

  function Start(n: nat): (s: System)
    ensures s.Ok() && |s.cpus| == n
  {
    var none := Counts(0, 0, 0, 0, 0);
    System(seq(n, _ => Cpu(seq(SLOTS, _ => ZERO), none, 0)), Totals(map[], none, 0, 0))
  }

  function Sum(f: Cpu -> nat, cpus: seq<Cpu>): nat
    decreases |cpus|
  {
    if cpus == [] then 0 else Sum(f, cpus[..|cpus| - 1]) + f(cpus[|cpus| - 1])
  }

  function OfPort(p: nat, u: Measure): Cpu -> nat { (c: Cpu) => c.Of(p, u) }
  function OfCounter(w: Counter): Cpu -> nat { (c: Cpu) => c.counts.Get(w) }
  function OfSpill(): Cpu -> nat { (c: Cpu) => c.spill }

  /** Table and slots together. */
  function Held(s: System, p: nat, u: Measure): nat { s.totals.Of(p, u) + Sum(OfPort(p, u), s.cpus) }

  /** The counters that say something was lost, flushed or not. */
  function Losses(s: System): nat { s.totals.spill + s.totals.allocFails + Sum(OfSpill(), s.cpus) }

  function Outstanding(s: System, w: Counter): nat { s.totals.counts.Get(w) + Sum(OfCounter(w), s.cpus) }

  /** What one operation accounts to port `p`. */
  function Gain(op: Op, p: nat, u: Measure): nat {
    if op.Account? && op.port == p then (if u.Packets? then 1 else op.bytes) else 0
  }

  /** Everything a run accounted to `p`, counted in `w`, and handed out by takes of `w`. */
  function AccountedTo(run: seq<Step>, p: nat, u: Measure): nat {
    if run == [] then 0
    else AccountedTo(run[..|run| - 1], p, u) + if run[|run| - 1].On? then Gain(run[|run| - 1].op, p, u) else 0
  }

  function Counted(run: seq<Step>, w: Counter): nat {
    if run == [] then 0
    else
      var last := run[|run| - 1];
      Counted(run[..|run| - 1], w) + if last.On? && last.op.Count? && last.op.which == w then last.op.amount else 0
  }

  function Taken(s: System, run: seq<Step>, w: Counter): nat
    requires s.Ok() && PossibleRun(run, |s.cpus|)
    decreases |run|
  {
    if run == [] then 0
    else
      var before := run[..|run| - 1];
      Taken(s, before, w) + if run[|run| - 1] == Take(w) then Run(s, before).totals.counts.Get(w) else 0
  }

  lemma {:induction false} SumUpdate(f: Cpu -> nat, cpus: seq<Cpu>, i: nat, x: Cpu)
    requires i < |cpus|
    ensures Sum(f, cpus[i := x]) == Sum(f, cpus) - f(cpus[i]) + f(x)
    decreases |cpus|
  {
    var init := cpus[..|cpus| - 1];
    if i == |init| {
      assert cpus[i := x][..|cpus| - 1] == init;
    } else {
      assert cpus[i := x][..|cpus| - 1] == init[i := x];
      SumUpdate(f, init, i, x);
    }
  }

  lemma {:induction false} SumOfNothing(f: Cpu -> nat, cpus: seq<Cpu>)
    requires forall c :: 0 <= c < |cpus| ==> f(cpus[c]) == 0
    ensures Sum(f, cpus) == 0
    decreases |cpus|
  {
    if cpus != [] { SumOfNothing(f, cpus[..|cpus| - 1]); }
  }

  /**
  One operation never adds more to a port than it accounts, never lowers a loss counter, and when it
  loses anything it raises one.
  */
  lemma LocalLaw(s: Cpu, t: Totals, op: Op, p: nat, u: Measure)
    requires s.Ok() && Fits(op)
    ensures var r := Local(s, t, op);
      && r.0.Ok()
      && r.0.Of(p, u) + r.1.Of(p, u) <= s.Of(p, u) + t.Of(p, u) + Gain(op, p, u)
      && s.spill + t.spill + t.allocFails <= r.0.spill + r.1.spill + r.1.allocFails
      && (s.spill + t.spill + t.allocFails == r.0.spill + r.1.spill + r.1.allocFails ==>
            r.0.Of(p, u) + r.1.Of(p, u) == s.Of(p, u) + t.Of(p, u) + Gain(op, p, u))
  {
  }

  lemma StepLaw(s: System, step: Step, p: nat, u: Measure)
    requires s.Ok() && Possible(step, |s.cpus|)
    ensures var gain := if step.On? then Gain(step.op, p, u) else 0;
      && Held(Next(s, step), p, u) <= Held(s, p, u) + gain
      && Losses(s) <= Losses(Next(s, step))
      && (Losses(s) == Losses(Next(s, step)) ==> Held(Next(s, step), p, u) == Held(s, p, u) + gain)
  {
    if step.On? {
      var c := step.cpu;
      var l := Local(s.cpus[c], s.totals, step.op);
      LocalLaw(s.cpus[c], s.totals, step.op, p, u);
      SumUpdate(OfPort(p, u), s.cpus, c, l.0);
      SumUpdate(OfSpill(), s.cpus, c, l.0);
    }
  }

  /**
  In every interleaving of accounting and flushes on any number of CPUs, what the table and the slots
  hold for a port is at most what was accounted to it, and exactly that while no loss counter moved.
  */
  lemma {:induction false} NeverOverReports(n: nat, run: seq<Step>, p: nat, u: Measure)
    requires PossibleRun(run, n)
    ensures Held(Run(Start(n), run), p, u) <= AccountedTo(run, p, u)
    ensures Losses(Run(Start(n), run)) == 0 ==> Held(Run(Start(n), run), p, u) == AccountedTo(run, p, u)
    decreases |run|
  {
    if run == [] {
      SumOfNothing(OfPort(p, u), Start(n).cpus);
    } else {
      var before := run[..|run| - 1];
      NeverOverReports(n, before, p, u);
      StepLaw(Run(Start(n), before), run[|run| - 1], p, u);
    }
  }

  // ---------------------------------------------------------------- exactly what is lost

  /** Another port's packets sit in the slot, or a slot's port has no entry and cannot get one. */
  predicate Loses(s: Cpu, t: Totals, op: Op)
    requires |s.udp| == SLOTS && Fits(op)
  {
    match op
    case Account(port, _, _) => s.udp[port % SLOTS].packets > 0 && s.udp[port % SLOTS].port != port
    case Merge(i, canAlloc) =>
      s.udp[i].packets > 0 && s.udp[i].port !in t.table && (|t.table| >= MAX_PORTS || !canAlloc)
    case _ => false
  }

  /** The port whose packets such an operation loses. */
  function LostPort(s: Cpu, op: Op): nat
    requires |s.udp| == SLOTS && Fits(op) && (op.Account? || op.Merge?)
  {
    if op.Account? then s.udp[op.port % SLOTS].port else s.udp[op.slot].port
  }

  /**
  An operation keeps every port's packets and bytes and adds all it accounts, unless it loses the packets
  of one port; each loss raises the loss counters by one, and so does nothing else but the spill bump.
  */
  lemma LossExact(s: Cpu, t: Totals, op: Op, p: nat, u: Measure)
    requires s.Ok() && Fits(op)
    ensures var r := Local(s, t, op);
      && r.0.spill + r.1.spill + r.1.allocFails
         == s.spill + t.spill + t.allocFails + (if Loses(s, t, op) then 1 else 0) + (if op.BumpSpill? then 1 else 0)
      && (!Loses(s, t, op) ==> r.0.Of(p, u) + r.1.Of(p, u) == s.Of(p, u) + t.Of(p, u) + Gain(op, p, u))
      && (Loses(s, t, op) ==>
            var q := LostPort(s, op); r.0.Of(q, Packets) + r.1.Of(q, Packets) < s.Of(q, Packets) + t.Of(q, Packets))
  {
  }

  predicate LosesAt(s: System, step: Step)
    requires s.Ok() && Possible(step, |s.cpus|)
  {
    step.On? && Loses(s.cpus[step.cpu], s.totals, step.op)
  }

  /** No step of the run loses anything. */
  predicate Lossless(n: nat, run: seq<Step>)
    requires PossibleRun(run, n)
    decreases |run|
  {
    run == []
    || (var before := run[..|run| - 1]; Lossless(n, before) && !LosesAt(Run(Start(n), before), run[|run| - 1]))
  }

  lemma StepExact(s: System, step: Step, p: nat, u: Measure)
    requires s.Ok() && Possible(step, |s.cpus|)
    ensures !LosesAt(s, step) ==>
              Held(Next(s, step), p, u) == Held(s, p, u) + if step.On? then Gain(step.op, p, u) else 0
    ensures LosesAt(s, step) ==>
              var q := LostPort(s.cpus[step.cpu], step.op);
              Held(Next(s, step), q, Packets) < Held(s, q, Packets) && Gain(step.op, q, Packets) == 0
  {
    if step.On? {
      var c := step.cpu;
      var l := Local(s.cpus[c], s.totals, step.op);
      LossExact(s.cpus[c], s.totals, step.op, p, u);
      SumUpdate(OfPort(p, u), s.cpus, c, l.0);
      if LosesAt(s, step) { SumUpdate(OfPort(LostPort(s.cpus[c], step.op), Packets), s.cpus, c, l.0); }
    }
  }

  /** A run that loses nothing holds exactly what was accounted, packets and bytes of every port. */
  lemma {:induction false} LosslessHoldsAll(n: nat, run: seq<Step>, p: nat, u: Measure)
    requires PossibleRun(run, n) && Lossless(n, run)
    ensures Held(Run(Start(n), run), p, u) == AccountedTo(run, p, u)
    decreases |run|
  {
    if run == [] {
      SumOfNothing(OfPort(p, u), Start(n).cpus);
    } else {
      var before := run[..|run| - 1];
      LosslessHoldsAll(n, before, p, u);
      StepExact(Run(Start(n), before), run[|run| - 1], p, u);
    }
  }

  /** What a run has lost it never finds again. */
  lemma {:induction false} LossStays(n: nat, run: seq<Step>) returns (p: nat)
    requires PossibleRun(run, n) && !Lossless(n, run)
    ensures Held(Run(Start(n), run), p, Packets) < AccountedTo(run, p, Packets)
    decreases |run|
  {
    var before, last := run[..|run| - 1], run[|run| - 1];
    var s := Run(Start(n), before);
    if Lossless(n, before) {
      p := LostPort(s.cpus[last.cpu], last.op);
      LosslessHoldsAll(n, before, p, Packets);
      StepExact(s, last, p, Packets);
    } else {
      p := LossStays(n, before);
      StepLaw(s, last, p, Packets);
    }
  }

  /** In every run the table and the slots hold all packets accounted, of every port, exactly if no step loses. */
  lemma HeldIffLossless(n: nat, run: seq<Step>)
    requires PossibleRun(run, n)
    ensures (forall p: nat :: Held(Run(Start(n), run), p, Packets) == AccountedTo(run, p, Packets))
            <==> Lossless(n, run)
  {
    if Lossless(n, run) {
      forall p: nat ensures Held(Run(Start(n), run), p, Packets) == AccountedTo(run, p, Packets) {
        LosslessHoldsAll(n, run, p, Packets);
      }
    } else {
      var p := LossStays(n, run);
    }
  }

  lemma LocalCounts(s: Cpu, t: Totals, op: Op, w: Counter)
    requires s.Ok() && Fits(op)
    ensures var r := Local(s, t, op);
      r.0.counts.Get(w) + r.1.counts.Get(w)
      == s.counts.Get(w) + t.counts.Get(w) + if op.Count? && op.which == w then op.amount else 0
  {
  }

  lemma StepCounts(s: System, step: Step, w: Counter)
    requires s.Ok() && Possible(step, |s.cpus|)
    ensures Outstanding(Next(s, step), w) + (if step == Take(w) then s.totals.counts.Get(w) else 0)
            == Outstanding(s, w) + if step.On? && step.op.Count? && step.op.which == w then step.op.amount else 0
  {
    if step.On? {
      var c := step.cpu;
      LocalCounts(s.cpus[c], s.totals, step.op, w);
      SumUpdate(OfCounter(w), s.cpus, c, Local(s.cpus[c], s.totals, step.op).0);
    }
  }

  /**
  Flushes preserve the accepted and dropped totals, and successive takes plus what remains add up to
  all traffic ever recorded.
  */
  lemma {:induction false} NothingMiscounted(n: nat, run: seq<Step>, w: Counter)
    requires PossibleRun(run, n)
    ensures Taken(Start(n), run, w) + Outstanding(Run(Start(n), run), w) == Counted(run, w)
    decreases |run|
  {
    if run == [] {
      SumOfNothing(OfCounter(w), Start(n).cpus);
    } else {
      var before := run[..|run| - 1];
      NothingMiscounted(n, before, w);
      StepCounts(Run(Start(n), before), run[|run| - 1], w);
    }
  }

  // ---------------------------------------------------------------- a whole flush

  lemma {:induction false} MovesCounters(s: Cpu, t: Totals, n: nat)
    requires |s.udp| == SLOTS && n <= |COUNTERS|
    ensures var r := LocalRun(s, t, Moves(n));
      && r.0.udp == s.udp && r.0.spill == s.spill && r.1.table == t.table
      && r.1.spill == t.spill && r.1.allocFails == t.allocFails
      && forall w ::
           (var moved := w in COUNTERS[..n];
            && r.0.counts.Get(w) == (if moved then 0 else s.counts.Get(w))
            && r.1.counts.Get(w) == t.counts.Get(w) + if moved then s.counts.Get(w) else 0)
  {
    if n > 0 {
      assert Moves(n)[..n - 1] == Moves(n - 1);
      MovesCounters(s, t, n - 1);
    }
  }

  lemma {:induction false} MergesClear(s: Cpu, t: Totals, canAlloc: seq<bool>, n: nat)
    requires |s.udp| == SLOTS && n <= |canAlloc| == SLOTS
    ensures var r := LocalRun(s, t, Merges(canAlloc, n));
      && r.0.counts == s.counts && r.1.counts == t.counts
      && forall i :: 0 <= i < SLOTS ==> r.0.udp[i].packets == if i < n then 0 else s.udp[i].packets
  {
    if n > 0 {
      assert Merges(canAlloc, n)[..n - 1] == Merges(canAlloc, n - 1);
      MergesClear(s, t, canAlloc, n - 1);
    }
  }

  /** A flush empties the CPU's block, whatever was in it, and moves every counter in full. */
  lemma FlushDrains(s: Cpu, t: Totals, canAlloc: seq<bool>)
    requires |s.udp| == SLOTS == |canAlloc|
    ensures var r := LocalRun(s, t, Flush(canAlloc));
      && r.0.Drained()
      && forall w :: r.1.counts.Get(w) == t.counts.Get(w) + s.counts.Get(w)
  {
    var moved := LocalRun(s, t, Moves(|COUNTERS|));
    var merged := LocalRun(moved.0, moved.1, Merges(canAlloc, SLOTS));
    MovesCounters(s, t, |COUNTERS|);
    MergesClear(moved.0, moved.1, canAlloc, SLOTS);
    LocalRunTwice(s, t, Moves(|COUNTERS|), Merges(canAlloc, SLOTS));
    assert Flush(canAlloc)[..|COUNTERS| + SLOTS] == Moves(|COUNTERS|) + Merges(canAlloc, SLOTS);
    assert COUNTERS[..|COUNTERS|] == COUNTERS;
    forall w ensures w in COUNTERS {
      match w
      case Accepted => assert COUNTERS[0] == w;
      case Dropped => assert COUNTERS[1] == w;
      case TcpAnomalies => assert COUNTERS[2] == w;
      case TrafficPackets => assert COUNTERS[3] == w;
      case TrafficBytes => assert COUNTERS[4] == w;
    }
    var z := merged.0.counts;
    assert z.Get(Accepted) == z.Get(Dropped) == z.Get(TcpAnomalies) == 0;
    assert z.Get(TrafficPackets) == z.Get(TrafficBytes) == 0;
  }

  /** The sum over the CPUs that are online: on_each_cpu reaches no others. */
  function SumOn(f: Cpu -> nat, cpus: seq<Cpu>, online: seq<bool>): nat
    requires |online| == |cpus|
    decreases |cpus|
  {
    if cpus == [] then 0
    else
      var last := |cpus| - 1;
      SumOn(f, cpus[..last], online[..last]) + if online[last] then f(cpus[last]) else 0
  }

  /** What a flush leaves behind is what the offline CPUs hold, so none is left exactly when they hold nothing. */
  lemma {:induction false} OnlineMisses(f: Cpu -> nat, cpus: seq<Cpu>, online: seq<bool>)
    requires |online| == |cpus|
    ensures SumOn(f, cpus, online) <= Sum(f, cpus)
    ensures SumOn(f, cpus, online) == Sum(f, cpus) <==> forall c :: 0 <= c < |cpus| && !online[c] ==> f(cpus[c]) == 0
    decreases |cpus|
  {
    if cpus != [] { OnlineMisses(f, cpus[..|cpus| - 1], online[..|cpus| - 1]); }
  }

  ghost function Values(cpus: seq<PerCpu>): (v: seq<Cpu>)
    reads set c | c in cpus, set c | c in cpus :: c.udp
    ensures |v| == |cpus| && forall i :: 0 <= i < |v| ==> v[i] == cpus[i].Value()
    decreases |cpus|
  {
    if cpus == [] then [] else Values(cpus[..|cpus| - 1]) + [cpus[|cpus| - 1].Value()]
  }

  ghost predicate Separate(cpus: seq<PerCpu>) {
    && (forall i :: 0 <= i < |cpus| ==> cpus[i].Valid())
    && (forall i, j :: 0 <= i < j < |cpus| ==> cpus[i] != cpus[j] && cpus[i].udp != cpus[j].udp)
  }

  lemma SumOnNext(f: Cpu -> nat, cpus: seq<Cpu>, online: seq<bool>, c: nat)
    requires |online| == |cpus| && c < |cpus|
    ensures SumOn(f, cpus[..c + 1], online[..c + 1])
            == SumOn(f, cpus[..c], online[..c]) + if online[c] then f(cpus[c]) else 0
  {
    assert cpus[..c + 1][..c] == cpus[..c] && online[..c + 1][..c] == online[..c];
  }

  /** One CPU's turn in a flush of all. */
  method FlushOne(cpu: PerCpu, info: Info, canAlloc: seq<bool>)
    requires cpu.Valid() && |canAlloc| == SLOTS
    modifies cpu, cpu.udp, info
    ensures cpu.Value().Drained()
    ensures forall w :: info.counts.Get(w) == old(info.counts.Get(w)) + OfCounter(w)(old(cpu.Value()))
  {
    FlushDrains(cpu.Value(), info.Value(), canAlloc);
    cpu.FlushLocal(info, canAlloc);
  }

  /** fw_stats_flush_all: every online CPU flushes its block; an offline one keeps what it holds. */
  method FlushAll(cpus: seq<PerCpu>, online: seq<bool>, info: Info, canAlloc: seq<seq<bool>>)
    requires Separate(cpus) && |online| == |cpus|
    requires |canAlloc| == |cpus| && forall c :: 0 <= c < |cpus| ==> |canAlloc[c]| == SLOTS
    modifies cpus, set c | c in cpus :: c.udp, info
    ensures forall c :: 0 <= c < |cpus| && online[c] ==> cpus[c].Value().Drained()
    ensures forall c :: 0 <= c < |cpus| && !online[c] ==> cpus[c].Value() == old(Values(cpus))[c]
    ensures forall w :: info.counts.Get(w) == old(info.counts.Get(w)) + SumOn(OfCounter(w), old(Values(cpus)), online)
  {
    ghost var before := Values(cpus);
    var c := 0;
    while c < |cpus|
      invariant 0 <= c <= |cpus|
      invariant forall d :: 0 <= d < |cpus| && (c <= d || !online[d]) ==> cpus[d].Value() == before[d]
      invariant forall d :: 0 <= d < c && online[d] ==> cpus[d].Value().Drained()
      invariant forall w ::
                  info.counts.Get(w) == old(info.counts.Get(w)) + SumOn(OfCounter(w), before[..c], online[..c])
    {
      forall w { SumOnNext(OfCounter(w), before, online, c); }
      if online[c] { FlushOne(cpus[c], info, canAlloc[c]); }
      c := c + 1;
    }
    assert before[..c] == before && online[..c] == online;
  }

  /** fw_stats_take_traffic: all traffic not yet taken that was counted in the totals or on an online CPU. */
  method TakeTraffic(cpus: seq<PerCpu>, online: seq<bool>, info: Info, canAlloc: seq<seq<bool>>)
    returns (pkts: nat, bytes: nat)
    requires Separate(cpus) && |online| == |cpus|
    requires |canAlloc| == |cpus| && forall c :: 0 <= c < |cpus| ==> |canAlloc[c]| == SLOTS
    modifies cpus, set c | c in cpus :: c.udp, info
    ensures forall w: Counter ::
              (if w.TrafficPackets? then pkts else if w.TrafficBytes? then bytes else info.counts.Get(w))
              == old(info.counts.Get(w)) + SumOn(OfCounter(w), old(Values(cpus)), online)
    ensures info.counts.packets == info.counts.bytes == 0
    ensures forall c :: 0 <= c < |cpus| && online[c] ==> cpus[c].Value().Drained()
    ensures forall c :: 0 <= c < |cpus| && !online[c] ==> cpus[c].Value() == old(Values(cpus))[c]
  {
    FlushAll(cpus, online, info, canAlloc);
    pkts, bytes := info.counts.Get(TrafficPackets), info.counts.Get(TrafficBytes);
    info.counts := info.counts.Set(TrafficPackets, 0).Set(TrafficBytes, 0);
    assert info.counts.Get(TrafficPackets) == info.counts.Get(TrafficBytes) == 0;
  }
}
