/** The verdict on a packet's source (fw_hook.c) and the mutations that meet in it. */
module Firewall {
  import opened Basics
  import opened Prefix
  import opened BanSpec
  import opened Whitelist
  import BanTable
  import LocalSet
  import FloodGate

  /** What the verdict depends on. */
  datatype Tables = Tables(bans: BanMap, wl: WlMap, local: set<Addr>)

  /** Sources the firewall lets through whatever the other tables say. */
  ghost predicate Exempt(f: Tables, src: Addr) { Covered(f.wl, src) || src in f.local }

  /** Whitelist and local set win, then the bans, then the rate verdict. */
  ghost predicate Drops(f: Tables, src: Addr, reason: Option<string>) {
    !Exempt(f, src) && (Banned(f.bans, src) || reason.Some?)
  }

  /** fw_ban_try_add: checks in order, then fw_ban_insert. `admit` is what the flood gate answers when asked. */
  ghost function TryAdd(f: Tables, n: Ban, admit: bool, now: nat, max: U32): (BanMap, Status) {
    if !n.key.Valid() || !ValidSource(n.key.addr) then (f.bans, Inval)
    else if Covered(f.wl, n.key.addr) then (f.bans, Perm)
    else if !admit then (f.bans, Busy)
    else Insert(f.bans, n, now, max)
  }

  /** Whether a ban gets in, and why not: checked in this order, and only an Ok changes the table. */
  lemma TryAddMeaning(f: Tables, n: Ban, admit: bool, now: nat, max: U32)
    ensures var (m, status) := TryAdd(f, n, admit, now, max);
      var sound, covered := n.key.Valid() && ValidSource(n.key.addr), Covered(f.wl, n.key.addr);
      && (status == Inval <==> !sound)
      && (status == Perm <==> sound && covered)
      && (status == Busy <==> sound && !covered && !admit)
      && (status == NoSpace <==> sound && !covered && admit && n.key !in f.bans && |f.bans| >= AsInt(max))
      && (status == Ok <==> sound && !covered && admit && (n.key in f.bans || |f.bans| < AsInt(max)))
      && (status != Ok ==> m == f.bans)
      && (status == Ok ==> n.key in m && (n.key in f.bans || m[n.key] == n))
      && (forall k :: k != n.key ==> (k in m <==> k in f.bans) && (k in m ==> m[k] == f.bans[k]))
  {
    if n.key.Valid() { InsertMeaning(f.bans, n, now, max); }
  }

  const DDOS_JAIL := "ddos"

  /** The host ban fw_ban_check asks for; a configured duration of 0 means the default ban time. */
  function SelfBan(src: Addr, ddosDuration: U32, banTime: U32, reason: string, now: Clock, hz: nat): Ban {
    NewBan(HostKey(src), if ddosDuration == 0 then banTime else ddosDuration, reason, DDOS_JAIL, 0, now, hz)
  }

  /** A self-ban bans the one host, in the jail "ddos", for the configured time or else the default one. */
  lemma SelfBanMeaning(src: Addr, ddosDuration: U32, banTime: U32, reason: string, now: Clock, hz: nat)
    ensures var b := SelfBan(src, ddosDuration, banTime, reason, now, hz);
      var time := if ddosDuration > 0 then ddosDuration else banTime;
      && b.key.addr == src && b.key.prefix == MaxPrefix(src.Af()) && b.jail == "ddos"
      && b.duration == time && (b.permanent <==> time == 0) && b.bannedAt == now.jiffies
      && (time > 0 ==> b.deadline == now.jiffies + time * hz)
      && (|reason| < NAME_LEN ==> b.reason == reason)
  {
  }

  /** Everything that changes the tables, one after the other; `now` is in jiffies. */
  datatype Op =
    | Ban(n: Ban, admit: bool, now: nat)
    | Packet(src: Addr, reason: Option<string>, selfBan: Ban, admit: bool, now: nat)
    | Unban(key: Key)
    | ExpireTimer(key: Key, now: nat)
    | Whitelist(key: Key, device: string)
    | Unwhitelist(key: Key)
    | ForgetLocal(gone: set<Key>)
    | Publish(local: set<Addr>)

  datatype Limits = Limits(maxBans: U32, maxWl: U32)

  predicate OpOk(op: Op) {
    match op
    case Packet(src, _, b, _, _) => b.key == HostKey(src)
    case _ => true
  }

  /** fw_wl_remove on the tables: not for a local address, and bans inside the network go with the entry. */
  ghost function Unwhitelisted(f: Tables, k: Key): Tables {
    if k.addr in f.local || k !in f.wl then f
    else f.(wl := f.wl - {k}, bans := RemoveMatching(f.bans, k.addr, k.prefix))
  }

  /** A removal that is not refused takes the entry, and exactly the bans whose address lies in its network. */
  lemma UnwhitelistedMeaning(f: Tables, k: Key)
    ensures var r := Unwhitelisted(f, k);
      var done := k.addr !in f.local && k in f.wl;
      && r.local == f.local
      && (forall j :: j in r.wl <==> j in f.wl && (j == k ==> !done))
      && (forall j :: j in r.wl ==> r.wl[j] == f.wl[j])
      && (forall j :: j in r.bans <==> j in f.bans && (done && k.Matches(j.addr) ==> false))
      && (forall j :: j in r.bans ==> r.bans[j] == f.bans[j])
  {
  }

  ghost function Apply(lim: Limits, f: Tables, op: Op): Tables
    requires OpOk(op)
  {
    match op
    case Ban(n, admit, now) => f.(bans := TryAdd(f, n, admit, now, lim.maxBans).0)
    case Packet(src, reason, b, admit, now) =>
      if Drops(f, src, reason) && !Banned(f.bans, src) then f.(bans := TryAdd(f, b, admit, now, lim.maxBans).0) else f
    case Unban(k) => f.(bans := f.bans - {k})
    case ExpireTimer(k, now) => f.(bans := Expire(f.bans, k, now).0)
    case Whitelist(k, device) => f.(wl := Added(f.wl, k, device, lim.maxWl).0)
    case Unwhitelist(k) => Unwhitelisted(f, k)
    case ForgetLocal(gone) => f.(wl := f.wl - gone)
    case Publish(local) => f.(local := local)
  }

  /** The packet of a source neither exempt nor banned, with a cause to drop it, is a ban of that source. */
  lemma PacketBans(lim: Limits, f: Tables, src: Addr, cause: string, n: Ban, admit: bool, now: nat)
    requires n.key == HostKey(src) && !Exempt(f, src) && !Banned(f.bans, src)
    ensures Apply(lim, f, Packet(src, Some(cause), n, admit, now)) == Apply(lim, f, Op.Ban(n, admit, now))
  {
  }

  class Hook {
    const hz: nat
    const bans: BanTable.Table
    const wl: Whitelist.Table
    const gate: FloodGate.Limiter
    var local: LocalSet.Table?
    var shuttingDown: bool
    var maxBansPerSecond: nat
    var ddosBanDuration: U32
    var banTime: U32

    constructor (hz: nat, bans: BanTable.Table, wl: Whitelist.Table, gate: FloodGate.Limiter)
      requires bans.Valid() && wl.Valid() && gate.hz == hz
      ensures this.hz == hz && this.bans == bans && this.wl == wl && this.gate == gate
      ensures Valid() && View() == Tables(bans.entries, wl.entries, {}) && !shuttingDown
    {
      this.hz, this.bans, this.wl, this.gate := hz, bans, wl, gate;
      local, shuttingDown := null, false;
    }

    ghost predicate Valid()
      reads this, bans, bans.count, bans.used, wl, gate
      reads if local == null then {} else {local, local.slots}
    {
      bans.Valid() && wl.Valid() && gate.hz == hz && LocalValid()
    }

    ghost predicate LocalValid()
      reads this
      reads if local == null then {} else {local, local.slots}
    {
      local != null ==> local.Valid()
    }

    ghost function LocalMembers(): set<Addr>
      reads this
      reads if local == null then {} else {local}
    {
      if local == null then {} else local.members
    }

    ghost function View(): Tables
      reads this, bans, wl
      reads if local == null then {} else {local}
    {
      Tables(bans.entries, wl.entries, LocalMembers())
    }

    ghost function Lim(): Limits { Limits(bans.maxEntries, wl.max) }

    /** The answer the flood gate would give now. */
    function Admits(now: nat): bool
      reads this, gate
    {
      FloodGate.Step(FloodGate.Gate(gate.start, gate.recent), now, maxBansPerSecond, gate.hz).1
    }

    /** fw_local_lookup; no published set means no local address. */
    method IsLocal(a: Addr) returns (mine: bool)
      requires LocalValid()
      ensures mine <==> a in LocalMembers()
    {
      mine := false;
      if local != null { mine := local.Lookup(a); }
    }

    /** The short-circuit of fw_ban_check: whitelisted or local. */
    method IsExempt(src: Addr) returns (exempt: bool)
      requires Valid()
      ensures exempt <==> Exempt(View(), src)
    {
      exempt := wl.Lookup(src);
      if !exempt { exempt := IsLocal(src); }
    }

    /** What fw_ban_check looks up: the bans only for a source that is not exempt. */
    method Standing(src: Addr) returns (exempt: bool, banned: bool)
      requires Valid()
      ensures exempt <==> Exempt(View(), src)
      ensures banned <==> !exempt && Banned(View().bans, src)
    {
      banned := false;
      exempt := IsExempt(src);
      if !exempt { banned := bans.Lookup(src); }
    }

    /** The checks and the insert, on the ban table, the whitelist and the gate alone. */
    method CheckAndInsert(n: Ban, now: nat) returns (status: Status)
      requires bans.Valid() && wl.Valid() && now >= gate.start
      modifies bans, bans.count, bans.used, gate
      ensures bans.Valid() && gate.start <= now
      ensures (bans.entries, status) == TryAdd(old(View()), n, old(Admits(now)), now, bans.maxEntries)
      ensures status in {Inval, Perm} ==> (gate.start, gate.recent) == old((gate.start, gate.recent))
    {
      if !n.key.Valid() || !ValidSource(n.key.addr) { return Inval; }
      var listed := wl.Lookup(n.key.addr);
      if listed { return Perm; }
      var admit := gate.Allow(now, maxBansPerSecond);
      if !admit { return Busy; }
      var isNew;
      status, isNew := bans.InsertBan(n, now);
    }

    /** fw_ban_try_add */
    method TryAddBan(n: Ban, now: nat) returns (status: Status)
      requires Valid() && now >= gate.start
      modifies bans, bans.count, bans.used, gate
      ensures Valid() && gate.start <= now
      ensures View() == Apply(Lim(), old(View()), Op.Ban(n, old(Admits(now)), now))
      ensures (bans.entries, status) == TryAdd(old(View()), n, old(Admits(now)), now, bans.maxEntries)
      ensures status == Ok <==>
        && n.key.Valid() && ValidSource(n.key.addr) && !Covered(wl.entries, n.key.addr) && old(Admits(now))
        && (n.key in old(bans.entries) || |old(bans.entries)| < AsInt(bans.maxEntries))
      ensures n.key.Valid() && Covered(wl.entries, n.key.addr) ==> status != Ok
      ensures status != Ok ==> bans.entries == old(bans.entries)
      ensures status in {Inval, Perm} ==> (gate.start, gate.recent) == old((gate.start, gate.recent))
    {
      TryAddMeaning(View(), n, Admits(now), now, bans.maxEntries);
      status := CheckAndInsert(n, now);
    }

    /** The tail of fw_ban_check, for a source neither exempt nor banned that the rate table names a cause for. */
    method BanSelf(src: Addr, cause: string, now: Clock) returns (status: Status)
      requires Valid() && now.jiffies >= gate.start && !Exempt(View(), src) && !Banned(View().bans, src)
      modifies bans, bans.count, bans.used, gate
      ensures Valid() && gate.start <= now.jiffies
      ensures View() == Apply(Lim(), old(View()), SelfBanOp(src, cause, now, old(Admits(now.jiffies))))
      ensures status == SelfBanStatus(old(View()), src, cause, now, old(Admits(now.jiffies)))
    {
      var n := SelfBan(src, ddosBanDuration, banTime, cause, now, hz);
      PacketBans(Lim(), View(), src, cause, n, Admits(now.jiffies), now.jiffies);
      status := TryAddBan(n, now.jiffies);
    }

    ghost function SelfBanOp(src: Addr, cause: string, now: Clock, admit: bool): (op: Op)
      reads this
      ensures OpOk(op)
    {
      Packet(src, Some(cause), SelfBan(src, ddosBanDuration, banTime, cause, now, hz), admit, now.jiffies)
    }

    ghost function SelfBanStatus(f: Tables, src: Addr, cause: string, now: Clock, admit: bool): Status
      reads this
    {
      TryAdd(f, SelfBan(src, ddosBanDuration, banTime, cause, now, hz), admit, now.jiffies, bans.maxEntries).1
    }

    /**
    fw_ban_check for one packet. `reason` is what the rate table answers for it, None also when
    detection is off or the port is not protected; `self` is the result of the self-ban, if one was tried.
    */
    method BanCheck(src: Addr, reason: Option<string>, now: Clock) returns (drop: bool, self: Option<Status>)
      requires Valid() && now.jiffies >= gate.start
      modifies bans, bans.count, bans.used, gate
      ensures Valid() && gate.start <= now.jiffies
      ensures drop <==>
        && !shuttingDown && !Covered(wl.entries, src) && src !in LocalMembers()
        && (Banned(old(bans.entries), src) || reason.Some?)
      ensures self.Some? <==> drop && !Banned(old(View()).bans, src)
      ensures self.None? ==> View() == old(View())
      ensures reason.Some? && !shuttingDown ==>
        View() == Apply(Lim(), old(View()), SelfBanOp(src, reason.value, now, old(Admits(now.jiffies))))
      ensures self.Some? ==>
        reason.Some? && self.value == SelfBanStatus(old(View()), src, reason.value, now, old(Admits(now.jiffies)))
    {
      drop, self := false, None;
      if shuttingDown { return; }
      var exempt, banned := Standing(src);
      if banned { return true, None; }
      if !exempt && reason.Some? {
        var status := BanSelf(src, reason.value, now);
        return true, Some(status);
      }
    }

    /** fw_wl_remove: local addresses are refused; a removal also lifts every ban inside the network. */
    method RemoveFromWhitelist(k: Key) returns (status: Status)
      requires Valid()
      modifies bans, bans.count, bans.used, wl
      ensures Valid() && View() == Unwhitelisted(old(View()), k)
      ensures status ==
        if k.addr in old(View()).local then Perm else if k !in old(wl.entries) then NoEntry else Ok
    {
      var mine := IsLocal(k.addr);
      if mine { return Perm; }
      status := Delist(k);
    }

    /** The removal itself, on the two tables. */
    method Delist(k: Key) returns (status: Status)
      requires bans.Valid() && wl.Valid()
      modifies bans, bans.count, bans.used, wl
      ensures bans.Valid() && wl.Valid()
      ensures status == if k in old(wl.entries) then Ok else NoEntry
      ensures wl.entries == if status == Ok then old(wl.entries) - {k} else old(wl.entries)
      ensures bans.entries
              == if status == Ok then RemoveMatching(old(bans.entries), k.addr, k.prefix) else old(bans.entries)
    {
      status := wl.RemoveQuiet(k);
      if status == Ok { bans.DelMatching(k.addr, k.prefix); }
    }
  }

  // ---------------------------------------------------------------- runs

  predicate AllOk(ops: seq<Op>) { forall i :: 0 <= i < |ops| ==> OpOk(ops[i]) }

  ghost function Run(lim: Limits, f: Tables, ops: seq<Op>): Tables
    requires AllOk(ops)
  {
    if ops == [] then f else Apply(lim, Run(lim, f, ops[..|ops| - 1]), ops[|ops| - 1])
  }

  /** `src` is host-banned and nothing exempts it. */
  ghost predicate Held(f: Tables, src: Addr) { !Exempt(f, src) && HostKey(src) in f.bans }

  /** The operation lifts the host ban of `src` or exempts the source. */
  ghost predicate Ends(lim: Limits, f: Tables, op: Op, src: Addr) {
    match op
    case Unban(k) => k == HostKey(src)
    case ExpireTimer(k, now) => k == HostKey(src) && k in f.bans && (f.bans[k].permanent || now >= f.bans[k].deadline)
    case Whitelist(k, _) => k.Valid() && k.Matches(src) && (k in f.wl || |f.wl| < AsInt(lim.maxWl))
    case Publish(local) => src in local
    case _ => false
  }

  /** A held source stays held over exactly the operations that do not end it: no ban, packet or removal does. */
  lemma HeldStep(lim: Limits, f: Tables, op: Op, src: Addr)
    requires OpOk(op) && Held(f, src)
    ensures Held(Apply(lim, f, op), src) <==> !Ends(lim, f, op, src)
  {
    MatchesMeaning(HostKey(src), src);
    match op {
      case Whitelist(k, device) => WhitelistExempts(lim, f, k, device, src);
      case Unwhitelist(k) => UnwhitelistHarmless(lim, f, k, src);
      case ForgetLocal(gone) => assert forall k :: k in f.wl - gone ==> k in f.wl;
      case _ =>
    }
  }

  lemma WhitelistExempts(lim: Limits, f: Tables, k: Key, device: string, src: Addr)
    requires Held(f, src)
    ensures Covered(Added(f.wl, k, device, lim.maxWl).0, src) <==> Ends(lim, f, Op.Whitelist(k, device), src)
  {
    var wl := Added(f.wl, k, device, lim.maxWl).0;
    assert forall j :: j in wl ==> j in f.wl || j == k;
    if Ends(lim, f, Op.Whitelist(k, device), src) { assert k in wl && k.Matches(src); }
  }

  /** No whitelist entry covers a held source, so removing one lifts no ban of it. */
  lemma UnwhitelistHarmless(lim: Limits, f: Tables, k: Key, src: Addr)
    requires Held(f, src)
    ensures Held(Apply(lim, f, Unwhitelist(k)), src)
  {
    assert k in f.wl ==> !k.Matches(src);
    assert forall j :: j in f.wl - {k} ==> j in f.wl;
  }

  lemma HeldMeansDropped(f: Tables, src: Addr, reason: Option<string>)
    requires Held(f, src)
    ensures Drops(f, src, reason)
  {
    MatchesMeaning(HostKey(src), src);
  }

  /** No operation of the run ends what is held when its turn comes. */
  ghost predicate NeverEnds(lim: Limits, f: Tables, ops: seq<Op>, src: Addr)
    requires AllOk(ops)
    decreases ops
  {
    ops == []
    || (var front := ops[..|ops| - 1];
        NeverEnds(lim, f, front, src) && !Ends(lim, Run(lim, f, front), ops[|ops| - 1], src))
  }

  lemma {:induction false} HeldRun(lim: Limits, f: Tables, ops: seq<Op>, src: Addr)
    requires AllOk(ops) && Held(f, src) && NeverEnds(lim, f, ops, src)
    ensures Held(Run(lim, f, ops), src)
    decreases ops
  {
    if ops != [] {
      var front := ops[..|ops| - 1];
      HeldRun(lim, f, front, src);
      HeldStep(lim, Run(lim, f, front), ops[|ops| - 1], src);
    }
  }

  lemma SelfBanHolds(lim: Limits, f: Tables, src: Addr, b: Ban, admit: bool, now: nat)
    requires !Exempt(f, src) && !Banned(f.bans, src)
    requires b.key == HostKey(src) && TryAdd(f, b, admit, now, lim.maxBans).1 == Ok
    ensures TryAdd(f, b, admit, now, lim.maxBans).0 == f.bans[b.key := b]
    ensures Held(f.(bans := TryAdd(f, b, admit, now, lim.maxBans).0), src)
  {
    MatchesMeaning(HostKey(src), src);
  }

  /**
  After a self-ban that returned 0, every later packet of that source is dropped, whatever else the
  tables go through and however late, until that ban is removed or the source becomes whitelisted or
  local.
  */
  lemma SelfBanSticks(lim: Limits, f: Tables, src: Addr, reason: string, b: Ban, admit: bool, now: nat, ops: seq<Op>,
                      later: Option<string>)
    requires Drops(f, src, Some(reason)) && !Banned(f.bans, src)
    requires b.key == HostKey(src) && TryAdd(f, b, admit, now, lim.maxBans).1 == Ok
    requires AllOk(ops) && NeverEnds(lim, f.(bans := TryAdd(f, b, admit, now, lim.maxBans).0), ops, src)
    ensures Drops(Run(lim, f.(bans := TryAdd(f, b, admit, now, lim.maxBans).0), ops), src, later)
  {
    var g := f.(bans := TryAdd(f, b, admit, now, lim.maxBans).0);
    SelfBanHolds(lim, f, src, b, admit, now);
    HeldRun(lim, g, ops, src);
    HeldMeansDropped(Run(lim, g, ops), src, later);
  }

  // ---------------------------------------------------------------- until the deadline

  /** Operations before `until` that do not lift or exempt on request; expiry timers may run. */
  predicate Before(op: Op, src: Addr, until: nat) {
    match op
    case Unban(k) => k != HostKey(src)
    case ExpireTimer(_, now) => now < until
    case Ban(_, _, now) => now < until
    case Packet(_, _, _, _, now) => now < until
    case Whitelist(k, _) => k.Valid() ==> !k.Matches(src)
    case Publish(local) => src !in local
    case _ => true
  }

  ghost predicate HeldUntil(f: Tables, src: Addr, until: nat) {
    Held(f, src) && !f.bans[HostKey(src)].permanent && f.bans[HostKey(src)].deadline >= until
  }

  lemma HeldUntilStep(lim: Limits, f: Tables, op: Op, src: Addr, until: nat)
    requires OpOk(op) && HeldUntil(f, src, until) && Before(op, src, until)
    ensures HeldUntil(Apply(lim, f, op), src, until)
  {
    MatchesMeaning(HostKey(src), src);
    HeldStep(lim, f, op, src);
  }

  lemma {:induction false} HeldUntilRun(lim: Limits, f: Tables, ops: seq<Op>, src: Addr, until: nat)
    requires HeldUntil(f, src, until)
    requires AllOk(ops) && forall i :: 0 <= i < |ops| ==> Before(ops[i], src, until)
    ensures HeldUntil(Run(lim, f, ops), src, until)
  {
    if ops != [] {
      var m := |ops| - 1;
      HeldUntilRun(lim, f, ops[..m], src, until);
      HeldUntilStep(lim, Run(lim, f, ops[..m]), ops[m], src, until);
    }
  }

  /** Before its deadline a temporary self-ban is not ended by any expiry timer, whenever that was armed. */
  lemma SelfBanLastsToDeadline(lim: Limits, f: Tables, src: Addr, b: Ban, admit: bool, now: nat, ops: seq<Op>,
                               later: Option<string>)
    requires !Exempt(f, src) && !Banned(f.bans, src) && !b.permanent
    requires b.key == HostKey(src) && TryAdd(f, b, admit, now, lim.maxBans).1 == Ok
    requires AllOk(ops) && forall i :: 0 <= i < |ops| ==> Before(ops[i], src, b.deadline)
    ensures Drops(Run(lim, f.(bans := TryAdd(f, b, admit, now, lim.maxBans).0), ops), src, later)
  {
    var g := f.(bans := TryAdd(f, b, admit, now, lim.maxBans).0);
    SelfBanHolds(lim, f, src, b, admit, now);
    HeldUntilRun(lim, g, ops, src, b.deadline);
    HeldMeansDropped(Run(lim, g, ops), src, later);
  }
}
