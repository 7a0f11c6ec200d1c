/**
Restoring a snapshot (fw_state.c): two passes over the accepted body, whitelist lines first, each
line applied to the tables.
*/
module SnapshotRestore {
  import opened Basics
  import opened Prefix
  import opened BanSpec
  import opened Text
  import opened SnapshotLine
  import opened SnapshotFile
  import opened Whitelist
  import BanTable

  // ---------------------------------------------------------------- one line, one pass

  /** fw_addr_normalize on a whole entry key. */
  function Normal(k: Key): (n: Key)
    requires k.Valid()
    ensures n.Valid() && n.prefix == k.prefix && n.addr.Af() == k.addr.Af()
  {
    Key(Normalize(k.addr, k.prefix), k.prefix)
  }

  function FamilyOf(tag: string, v4: string, v6: string): Option<Family> {
    if tag == v4 then Some(Inet) else if tag == v6 then Some(Inet6) else None
  }

  /** The whitelist entry a line names, if it is a whitelist line that parses. */
  function WlOf(c: Codec, line: string): Option<(Key, string)> {
    match Cut(line)
    case None => None
    case Some(cut) =>
      match FamilyOf(cut.0, "WL_V4", "WL_V6")
      case None => None
      case Some(af) => ParseWl(c, af, cut.1)
  }

  function BanOf(c: Codec, line: string): Option<BanText> {
    match Cut(line)
    case None => None
    case Some(cut) =>
      match FamilyOf(cut.0, "BAN_V4", "BAN_V6")
      case None => None
      case Some(af) => ParseBan(c, af, cut.1)
  }

  lemma WlOfValid(c: Codec, line: string)
    requires c.Ok()
    ensures WlOf(c, line).Some? ==> WlOf(c, line).value.0.Valid()
  {
  }

  lemma BanOfValid(c: Codec, line: string)
    requires c.Ok()
    ensures BanOf(c, line).Some? ==> BanOf(c, line).value.key.Valid() && BanOf(c, line).value.remaining <= YEAR
  {
    var cut := Cut(line);
    if cut.Some? {
      var af := FamilyOf(cut.value.0, "BAN_V4", "BAN_V6");
      if af.Some? { ParsedBanValid(c, af.value, cut.value.1); }
    }
  }

  ghost function WlStep(c: Codec, m: WlMap, line: string, max: U32): WlMap
    requires c.Ok()
  {
    WlOfValid(c, line);
    match WlOf(c, line)
    case None => m
    case Some(e) => Added(m, Normal(e.0), e.1, max).0
  }

  /** The restored ban: its remaining time runs from now. */
  function Revived(b: BanText, now: Clock, hz: nat): Ban
    requires b.key.Valid() && b.remaining <= YEAR
  {
    NewBan(Normal(b.key), b.remaining, b.reason, b.jail, if b.remaining > 0 then now.unix else 0, now, hz)
  }

  /** A ban already covered by the restored whitelist is left out. */
  ghost function BanStep(c: Codec, wl: WlMap, m: BanMap, line: string, now: Clock, hz: nat, max: U32): BanMap
    requires c.Ok()
  {
    BanOfValid(c, line);
    match BanOf(c, line)
    case None => m
    case Some(b) => if Covered(wl, b.key.addr) then m else Insert(m, Revived(b, now, hz), now.jiffies, max).0
  }

  ghost function WlPass(c: Codec, m: WlMap, lines: seq<string>, max: U32): WlMap
    requires c.Ok()
    decreases lines
  {
    if lines == [] then m else WlPass(c, WlStep(c, m, lines[0], max), lines[1..], max)
  }

  ghost function BanPass(c: Codec, wl: WlMap, m: BanMap, lines: seq<string>, now: Clock, hz: nat, max: U32): BanMap
    requires c.Ok()
    decreases lines
  {
    if lines == [] then m else BanPass(c, wl, BanStep(c, wl, m, lines[0], now, hz, max), lines[1..], now, hz, max)
  }

  /** The lines strsep finds in an accepted body: a C string ends at its first NUL. */
  function LinesOf(body: string): seq<string> { Tokens(Some(body[..IndexOf(body, '\0')]), '\n') }

  // ---------------------------------------------------------------- the imperative restore

  datatype Outcome = Done | Refused | TooBig

  class Restorer {
    const codec: Codec
    var restored: bool

    constructor (codec: Codec)
      ensures this.codec == codec && !restored
    {
      this.codec, restored := codec, false;
    }

    method RestoreWl(line: string, wl: Whitelist.Table)
      requires codec.Ok() && wl.Valid()
      modifies wl
      ensures wl.Valid() && wl.entries == WlStep(codec, old(wl.entries), line, wl.max)
    {
      WlOfValid(codec, line);
      match WlOf(codec, line) {
        case None =>
        case Some(e) => var status := wl.Add(Normal(e.0), e.1);
      }
    }

    method RestoreBan(line: string, wl: Whitelist.Table, bans: BanTable.Table, now: Clock, hz: nat)
      requires codec.Ok() && wl.Valid() && bans.Valid()
      modifies bans, bans.count, bans.used
      ensures bans.Valid()
      ensures bans.entries == BanStep(codec, wl.entries, old(bans.entries), line, now, hz, bans.maxEntries)
    {
      BanOfValid(codec, line);
      match BanOf(codec, line) {
        case None =>
        case Some(b) => RestoreParsed(b, wl, bans, now, hz);
      }
    }

    method RestoreParsed(b: BanText, wl: Whitelist.Table, bans: BanTable.Table, now: Clock, hz: nat)
      requires b.key.Valid() && b.remaining <= YEAR && wl.Valid() && bans.Valid()
      modifies bans, bans.count, bans.used
      ensures bans.Valid()
      ensures bans.entries == if Covered(wl.entries, b.key.addr) then old(bans.entries)
                              else Insert(old(bans.entries), Revived(b, now, hz), now.jiffies, bans.maxEntries).0
    {
      var listed := wl.Lookup(b.key.addr);
      if listed { return; }
      var status, isNew := bans.InsertBan(Revived(b, now, hz), now.jiffies);
    }

    method WlLoop(body: string, wl: Whitelist.Table)
      requires codec.Ok() && wl.Valid()
      modifies wl
      ensures wl.Valid() && wl.entries == WlPass(codec, old(wl.entries), LinesOf(body), wl.max)
    {
      var p := Some(body[..IndexOf(body, '\0')]);
      while p.Some?
        invariant wl.Valid()
        invariant WlPass(codec, wl.entries, Tokens(p, '\n'), wl.max)
                  == WlPass(codec, old(wl.entries), LinesOf(body), wl.max)
        decreases if p.Some? then 1 + |p.value| else 0
      {
        TokensHead(p, '\n');
        var s := Strsep(p, '\n');
        var line := s.0.value;
        p := s.1;
        RestoreWl(line, wl);
      }
    }

    method BanLoop(body: string, wl: Whitelist.Table, bans: BanTable.Table, now: Clock, hz: nat)
      requires codec.Ok() && wl.Valid() && bans.Valid()
      modifies bans, bans.count, bans.used
      ensures bans.Valid()
      ensures bans.entries == BanPass(codec, wl.entries, old(bans.entries), LinesOf(body), now, hz, bans.maxEntries)
    {
      var p := Some(body[..IndexOf(body, '\0')]);
      while p.Some?
        invariant bans.Valid()
        invariant BanPass(codec, wl.entries, bans.entries, Tokens(p, '\n'), now, hz, bans.maxEntries)
                  == BanPass(codec, wl.entries, old(bans.entries), LinesOf(body), now, hz, bans.maxEntries)
        decreases if p.Some? then 1 + |p.value| else 0
      {
        TokensHead(p, '\n');
        var s := Strsep(p, '\n');
        var line := s.0.value;
        p := s.1;
        RestoreBan(line, wl, bans, now, hz);
      }
    }

    /** fw_state_restore of the file `text`, at most once; `cap` is the size limit. */
    method Restore(text: string, cap: nat, wl: Whitelist.Table, bans: BanTable.Table, now: Clock, hz: nat)
      returns (outcome: Outcome)
      requires codec.Ok() && wl.Valid() && bans.Valid()
      modifies this, wl, bans, bans.count, bans.used
      ensures restored && wl.Valid() && bans.Valid()
      ensures var accepted := !old(restored) && 0 < |text| <= cap && Verified(codec, text).Some?;
        && outcome == (if old(restored) || text == "" then Done else if |text| > cap then TooBig
                       else if accepted then Done else Refused)
        && (!accepted ==> wl.entries == old(wl.entries) && bans.entries == old(bans.entries))
        && (accepted ==>
              var lines := LinesOf(text[..Verified(codec, text).value]);
              && wl.entries == WlPass(codec, old(wl.entries), lines, wl.max)
              && bans.entries == BanPass(codec, wl.entries, old(bans.entries), lines, now, hz, bans.maxEntries))
    {
      if restored { return Done; }
      restored := true;
      if |text| == 0 { return Done; }
      if |text| > cap { return TooBig; }
      var end := VerifyCrc(codec, text);
      if end.None? { return Refused; }
      WlLoop(text[..end.value], wl);
      BanLoop(text[..end.value], wl, bans, now, hz);
      outcome := Done;
    }
  }
}
