/** The single-daemon lease of fw_netlink.c: who may command the firewall, over any run of messages. */
module Lease {

  datatype Kind = Register | Command

  /**
  One received message. `valid` says that it carries the magic, a whole header and CAP_NET_ADMIN;
  `alive` is what probing the current owner's socket would answer at that moment.
  */
  datatype Msg = Msg(time: nat, portid: nat, kind: Kind, valid: bool, alive: bool)

  /** fw_nl_daemon_portid (0: none) and fw_nl_daemon_activity. */
  datatype Lease = Lease(owner: nat, activity: nat)

  datatype Outcome = Ignored | Granted | Refused | Executed

  /** The register/lease part of fw_nl_recv_msg; `timeout` is 30 seconds in jiffies. */
  function Step(l: Lease, m: Msg, timeout: nat): (Lease, Outcome) {
    var recent := m.time < l.activity + timeout;
    if !m.valid then (l, Ignored)
    else if m.kind.Register? then
      if l.owner != 0 && m.portid != l.owner && recent && m.alive then (l, Refused)
      else (Lease(m.portid, m.time), Granted)
    else if l.owner == 0 then (l, Refused)
    else if m.portid != l.owner && recent then (l, Refused)
    else (Lease(m.portid, m.time), Executed)
  }

  function After(l: Lease, msgs: seq<Msg>, timeout: nat): Lease {
    if msgs == [] then l else Step(After(l, msgs[..|msgs| - 1], timeout), msgs[|msgs| - 1], timeout).0
  }

  class Control {
    var daemonPortid: nat
    var daemonActivity: nat
    const timeout: nat
    /** Commands dispatched so far, by sender. */
    var executed: seq<nat>

    constructor (timeout: nat)
      ensures Lease(daemonPortid, daemonActivity) == Lease(0, 0) && executed == [] && this.timeout == timeout
    {
      daemonPortid, daemonActivity, executed, this.timeout := 0, 0, [], timeout;
    }

    /** fw_nl_recv_msg: all messages of one socket buffer, in order. */
    method Receive(msgs: seq<Msg>)
      modifies this
      ensures Lease(daemonPortid, daemonActivity) == After(old(Lease(daemonPortid, daemonActivity)), msgs, timeout)
      ensures executed == old(executed) + Senders(old(Lease(daemonPortid, daemonActivity)), msgs, timeout)
    {
      ghost var l := Lease(daemonPortid, daemonActivity);
      for i := 0 to |msgs|
        invariant Lease(daemonPortid, daemonActivity) == After(l, msgs[..i], timeout)
        invariant executed == old(executed) + Senders(l, msgs[..i], timeout)
      {
        var m := msgs[i];
        assert msgs[..i + 1][..i] == msgs[..i];
        if !m.valid { continue; }
        if m.kind.Register? {
          if daemonPortid != 0 && m.portid != daemonPortid {
            var within := m.time < daemonActivity + timeout;
            if within && m.alive { continue; }
          }
          daemonPortid, daemonActivity := m.portid, m.time;
          continue;
        }
        if daemonPortid == 0 { continue; }
        if m.portid != daemonPortid {
          if m.time < daemonActivity + timeout { continue; }
          daemonPortid := m.portid;
        }
        daemonActivity := m.time;
        executed := executed + [m.portid];
      }
      assert msgs[..|msgs|] == msgs;
    }
  }

  /** The senders whose commands a run executes. */
  function Senders(l: Lease, msgs: seq<Msg>, timeout: nat): seq<nat> {
    if msgs == [] then []
    else
      var m, front := msgs[|msgs| - 1], msgs[..|msgs| - 1];
      Senders(l, front, timeout) + if Step(After(l, front, timeout), m, timeout).1 == Executed then [m.portid] else []
  }

  ghost predicate InOrder(msgs: seq<Msg>) {
    forall i, j :: 0 <= i < j < |msgs| ==> msgs[i].time <= msgs[j].time
  }

  /** No valid message of `p` within `timeout` before `now`. */
  ghost predicate Silent(p: nat, msgs: seq<Msg>, now: nat, timeout: nat) {
    forall i :: 0 <= i < |msgs| && msgs[i].valid && msgs[i].portid == p ==> msgs[i].time + timeout <= now
  }

  /** The owner's last activity is at least as late as every valid message it ever sent. */
  lemma {:induction false} ActivityIsLatest(msgs: seq<Msg>, timeout: nat)
    requires InOrder(msgs)
    ensures var l := After(Lease(0, 0), msgs, timeout);
      forall i :: 0 <= i < |msgs| && msgs[i].valid && msgs[i].portid == l.owner && l.owner != 0 ==>
        msgs[i].time <= l.activity
  {
    if msgs != [] { ActivityIsLatest(msgs[..|msgs| - 1], timeout); }
  }

  /** The stamp is the time of some valid message of the owner. */
  lemma {:induction false} ActivityIsAMessage(msgs: seq<Msg>, timeout: nat) returns (j: nat)
    requires After(Lease(0, 0), msgs, timeout).owner != 0
    ensures var l := After(Lease(0, 0), msgs, timeout);
      j < |msgs| && msgs[j].valid && msgs[j].portid == l.owner && msgs[j].time == l.activity
  {
    var front, m := msgs[..|msgs| - 1], msgs[|msgs| - 1];
    var l := After(Lease(0, 0), front, timeout);
    if Step(l, m, timeout).1 in {Granted, Executed} {
      j := |msgs| - 1;
    } else {
      j := ActivityIsAMessage(front, timeout);
    }
  }

  /** Being silent is the stamp being older than the timeout. */
  lemma SilentIffStale(msgs: seq<Msg>, now: nat, timeout: nat)
    requires InOrder(msgs) && After(Lease(0, 0), msgs, timeout).owner != 0
    ensures var l := After(Lease(0, 0), msgs, timeout);
      Silent(l.owner, msgs, now, timeout) <==> l.activity + timeout <= now
  {
    ActivityIsLatest(msgs, timeout);
    var j := ActivityIsAMessage(msgs, timeout);
  }

  /** The owner may be passed over by `m`: it is silent. */
  ghost predicate MayCommand(msgs: seq<Msg>, m: Msg, timeout: nat) {
    var owner := After(Lease(0, 0), msgs, timeout).owner;
    && m.valid && m.kind.Command?
    && owner != 0 && (m.portid == owner || Silent(owner, msgs, m.time, timeout))
  }

  ghost predicate MayRegister(msgs: seq<Msg>, m: Msg, timeout: nat) {
    var owner := After(Lease(0, 0), msgs, timeout).owner;
    && m.valid && m.kind.Register?
    && (owner == 0 || m.portid == owner || Silent(owner, msgs, m.time, timeout) || !m.alive)
  }

  /**
  Over every run, exactly what becomes of a message: a command is executed if and only if it is valid,
  somebody holds the lease, and the sender is the owner or the owner was silent; a register is granted if
  and only if it is valid and nobody holds the lease, or the sender does, or the owner was silent or its
  socket dead; whoever is heard so owns the lease from then on, and nobody else comes to.
  */
  lemma AnsweredExactly(msgs: seq<Msg>, i: nat, timeout: nat)
    requires InOrder(msgs) && i < |msgs|
    ensures var (m, l) := (msgs[i], After(Lease(0, 0), msgs[..i], timeout));
      var (r, outcome) := Step(l, m, timeout);
      && (outcome == Executed <==> MayCommand(msgs[..i], m, timeout))
      && (outcome == Granted <==> MayRegister(msgs[..i], m, timeout))
      && (outcome == Ignored <==> !m.valid)
      && r == (if outcome in {Executed, Granted} then Lease(m.portid, m.time) else l)
  {
    if After(Lease(0, 0), msgs[..i], timeout).owner != 0 { SilentIffStale(msgs[..i], msgs[i].time, timeout); }
  }

  /** The senders of the commands a run must execute, by that rule alone. */
  ghost function Heard(msgs: seq<Msg>, timeout: nat): seq<nat> {
    if msgs == [] then []
    else
      var m, front := msgs[|msgs| - 1], msgs[..|msgs| - 1];
      Heard(front, timeout) + if MayCommand(front, m, timeout) then [m.portid] else []
  }

  /** So what a run dispatches is exactly the commands heard. */
  lemma {:induction false} SendersHeard(msgs: seq<Msg>, timeout: nat)
    requires InOrder(msgs)
    ensures Senders(Lease(0, 0), msgs, timeout) == Heard(msgs, timeout)
  {
    if msgs != [] {
      var n := |msgs| - 1;
      SendersHeard(msgs[..n], timeout);
      AnsweredExactly(msgs, n, timeout);
    }
  }

  /**
  Over every run: an executed command comes from the owner of that moment, and the lease passes from
  p to another port only if p sent nothing valid for 30 seconds, or its socket was dead at a register.
  */
  lemma LeaseSafety(msgs: seq<Msg>, i: nat, timeout: nat)
    requires InOrder(msgs) && i < |msgs|
    ensures var (m, l) := (msgs[i], After(Lease(0, 0), msgs[..i], timeout));
      var (r, outcome) := Step(l, m, timeout);
      && (outcome == Executed ==> m.valid && m.portid == r.owner && l.owner != 0)
      && (l.owner != 0 && r.owner != l.owner ==>
          && m.valid && m.portid == r.owner
          && (Silent(l.owner, msgs[..i], m.time, timeout) || (m.kind.Register? && !m.alive)))
  {
    ActivityIsLatest(msgs[..i], timeout);
  }

  /**
  `p`, last heard at `last`, is never passed over: whoever else speaks does so within `timeout` of
  p's latest message, and every probe of p's socket that a register makes finds it alive.
  */
  predicate Attentive(p: nat, last: nat, msgs: seq<Msg>, timeout: nat)
    decreases msgs
  {
    msgs == []
    || (var m := msgs[0];
        if !m.valid then Attentive(p, last, msgs[1..], timeout)
        else if m.portid == p then Attentive(p, m.time, msgs[1..], timeout)
        else m.time < last + timeout && (m.kind.Register? ==> m.alive) && Attentive(p, last, msgs[1..], timeout))
  }

  /** `p` owns the lease after each message of the run. */
  predicate KeepsOwning(l: Lease, msgs: seq<Msg>, timeout: nat)
    decreases msgs
  {
    msgs == []
    || (var r := Step(l, msgs[0], timeout).0; r.owner == l.owner && KeepsOwning(r, msgs[1..], timeout))
  }

  /** A daemon keeps the lease through a run exactly if it is attentive: a live one is never displaced. */
  lemma {:induction false} KeepsLeaseIffAttentive(l: Lease, msgs: seq<Msg>, timeout: nat)
    requires l.owner != 0
    ensures KeepsOwning(l, msgs, timeout) <==> Attentive(l.owner, l.activity, msgs, timeout)
    decreases msgs
  {
    if msgs != [] {
      var r := Step(l, msgs[0], timeout).0;
      if r.owner == l.owner { KeepsLeaseIffAttentive(r, msgs[1..], timeout); }
    }
  }
}
