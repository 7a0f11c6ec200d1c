/** A restart: the tables saved by fw_state.c and restored into fresh ones. */
module Restart {
  import opened Basics
  import opened Prefix
  import opened BanSpec
  import opened SnapshotLine
  import opened SnapshotFile
  import opened SnapshotRestore
  import opened SnapshotRoundTrip
  import opened Whitelist
  import BanTable
  import Paging

  /** What the ban table keeps true of an entry, with a reason that fits a line. */
  predicate BanOk(b: Ban, now: Clock, hz: nat) {
    && b.key.Valid() && Name(b.jail, NAME_LEN) && Name(b.reason, NAME_LEN) && '\n' !in b.reason
    && 0 <= b.bannedAt <= now.jiffies && (!b.permanent ==> b.deadline == b.bannedAt + b.duration * hz)
  }

  /** A ban table within its limit, every entry as above. */
  ghost predicate BansOk(m: BanMap, now: Clock, hz: nat, max: U32) {
    |m| <= AsInt(max) && forall k :: k in m ==> BanOk(m[k], now, hz)
  }

  /** Every operation on the table keeps that: inserting a ban, */
  lemma InsertKeepsOk(m: BanMap, n: Ban, now: Clock, hz: nat, max: U32)
    requires BansOk(m, now, hz, max) && BanOk(n, now, hz)
    ensures BansOk(Insert(m, n, now.jiffies, max).0, now, hz, max)
  {
    if n.key in m && m[n.key].Expired(now.jiffies) {
      assert m[n.key := m[n.key].Renewed(n)].Keys == m.Keys;
    }
  }

  /** removing bans, */
  lemma FewerStayOk(m: BanMap, n: BanMap, now: Clock, hz: nat, max: U32)
    requires BansOk(m, now, hz, max) && n.Keys <= m.Keys && forall k :: k in n ==> n[k] == m[k]
    ensures BansOk(n, now, hz, max)
  {
    SubsetSize(n.Keys, m.Keys);
  }

  /** as an expiry callback and a whitelisting do, and the passing of time. */
  lemma RemovalKeepsOk(m: BanMap, k: Key, network: Addr, prefix: nat, now: Clock, later: Clock, hz: nat, max: U32)
    requires BansOk(m, now, hz, max) && ValidPrefix(network, prefix) && now.jiffies <= later.jiffies
    ensures BansOk(Expire(m, k, now.jiffies).0, now, hz, max)
    ensures BansOk(RemoveMatching(m, network, prefix), now, hz, max)
    ensures BansOk(m, later, hz, max)
  {
    FewerStayOk(m, Expire(m, k, now.jiffies).0, now, hz, max);
    FewerStayOk(m, RemoveMatching(m, network, prefix), now, hz, max);
  }

  /** A ban made now, by a command or by a restore, is one. */
  lemma MadeOk(key: Key, duration: U32, reason: string, jail: string, now: Clock, hz: nat, start: nat)
    requires key.Valid() && '\0' !in jail && '\0' !in reason && '\n' !in reason
    requires start == 0 || start == now.unix
    ensures BanOk(NewBan(key, duration, reason, jail, start, now, hz), now, hz)
  {
    var b := NewBan(key, duration, reason, jail, start, now, hz);
    assert forall c :: c in b.jail ==> c in jail;
    assert forall c :: c in b.reason ==> c in reason;
  }

  predicate WlOk(wl: WlMap) { forall k :: k in wl ==> Name(wl[k], DEVICE_LEN) && '\n' !in wl[k] }

  /** The bans a restart keeps: in force, at most 365 days left, not whitelisted. */
  ghost predicate Survives(b: Ban, wl: WlMap, now: Clock, hz: nat) {
    !b.Expired(now.jiffies) && (b.permanent || b.deadline <= now.jiffies + YEAR * hz) && !Covered(wl, b.key.addr)
  }

  lemma YearBound(left: nat, hz: nat, deadline: nat, now: nat)
    requires hz > 0 && deadline <= now + left * hz < deadline + hz
    ensures left <= YEAR <==> deadline <= now + YEAR * hz
  {
    if left <= YEAR {
      assert left * hz <= YEAR * hz;
    } else {
      assert left * hz >= (YEAR + 1) * hz == YEAR * hz + hz;
    }
  }

  lemma KeptIffSurvives(b: Ban, wl: WlMap, es: seq<Entry>, now: Clock, hz: nat)
    requires hz > 0 && BanOk(b, now, hz) && (Covered(wl, b.key.addr) <==> Listed(es, b.key.addr))
    ensures Kept(RowOf(b, now, hz), es, now.unix) <==> Survives(b, wl, now, hz)
  {
    if !b.permanent {
      RowKeepsDeadline(b, now, hz);
      if !b.Expired(now.jiffies) { YearBound(RowOf(b, now, hz).Remaining(now.unix), hz, b.deadline, now.jiffies); }
    }
  }

  /** A surviving ban comes back as the same ban, its deadline less than a second later. */
  ghost predicate SameBan(b: Ban, back: Ban, hz: nat)
    requires b.key.Valid()
  {
    && back.key == Normal(b.key) && back.permanent == b.permanent
    && back.jail == Or(Sanitized(b.jail), "api") && back.reason == Or(b.reason, "(none)")
    && (!b.permanent ==> b.deadline <= back.deadline < b.deadline + hz)
  }

  lemma SurvivorIsSame(b: Ban, es: seq<Entry>, now: Clock, hz: nat)
    requires hz > 0 && BanOk(b, now, hz) && Kept(RowOf(b, now, hz), es, now.unix)
    ensures SameBan(b, Revived(TextOf(RowOf(b, now, hz), now.unix), now, hz), hz)
  {
    RevivedMeaning(RowOf(b, now, hz), now, hz);
    if !b.permanent { RowKeepsDeadline(b, now, hz); }
  }

  /** `k` is a ban of `was` that a restart keeps under the key `n`. */
  ghost predicate Survivor(was: BanMap, saved: WlMap, k: Key, n: Key, now: Clock, hz: nat) {
    k in was && Normal(k) == n && Survives(was[k], saved, now, hz)
  }

  /**
  The tables `bans` and `wl` hold what a restart makes of `was` and `saved`: a key is there exactly when
  some ban survives under it, with one of those bans; an address is banned exactly when a surviving ban
  covers it; the whitelist covers what it covered.
  */
  ghost predicate RestoredFrom(was: BanMap, saved: WlMap, bans: BanMap, wl: WlMap, now: Clock, hz: nat) {
    && (forall n :: n in bans <==> exists k :: Survivor(was, saved, k, n, now, hz))
    && (forall n :: n in bans ==> exists k :: Survivor(was, saved, k, n, now, hz) && SameBan(was[k], bans[n], hz))
    && (forall ip :: Banned(bans, ip) <==> exists k :: k in was && Survives(was[k], saved, now, hz) && k.Matches(ip))
    && (forall a :: Covered(wl, a) <==> Covered(saved, a))
    && (forall n :: n in wl <==> exists k :: k in saved && Normal(k) == n)
  }

  /** No other entry normalises to the same key. */
  ghost predicate Alone(m: BanMap, k: Key)
    requires k in m
  {
    forall j :: j in m && j != k ==> Normal(j) != Normal(k)
  }

  /** A ban with a normalised key of its own is back exactly when it survives, and then it is that ban. */
  lemma AloneComesBack(was: BanMap, saved: WlMap, bans: BanMap, wl: WlMap, now: Clock, hz: nat, k: Key)
    requires RestoredFrom(was, saved, bans, wl, now, hz) && k in was && Alone(was, k)
    ensures Normal(k) in bans <==> Survives(was[k], saved, now, hz)
    ensures Normal(k) in bans ==> SameBan(was[k], bans[Normal(k)], hz)
  {
    assert Survives(was[k], saved, now, hz) ==> Survivor(was, saved, k, Normal(k), now, hz);
  }

  ghost predicate ListsBans(bs: seq<Ban>, m: BanMap) {
    Paging.NoDup(bs) && forall x :: x in bs <==> x.key in m && m[x.key] == x
  }

  ghost predicate ListsWl(es: seq<Entry>, m: WlMap) { forall x :: x in es <==> x.key in m && m[x.key] == x.device }

  lemma ListedIffCovered(es: seq<Entry>, m: WlMap, a: Addr)
    requires ListsWl(es, m)
    ensures Listed(es, a) <==> Covered(m, a)
  {
    if Covered(m, a) {
      var k :| k in m && k.Matches(a);
      assert Entry(k, m[k]) in es;
    }
    if Listed(es, a) {
      var i :| 0 <= i < |es| && es[i].key.Valid() && es[i].key.Matches(a);
      assert es[i] in es;
    }
  }

  lemma WlComesBack(es: seq<Entry>, saved: WlMap, wl: WlMap)
    requires ListsWl(es, saved) && (forall i :: 0 <= i < |es| ==> es[i].key.Valid()) && wl == FirstWins(WlPairs(es))
    ensures forall a :: Covered(wl, a) <==> Covered(saved, a)
    ensures forall n :: n in wl <==> exists k :: k in saved && Normal(k) == n
  {
    SameCoverBack(es);
    forall a ensures Covered(wl, a) <==> Covered(saved, a) { ListedIffCovered(es, saved, a); }
    WlKeys(es);
    forall n ensures n in wl <==> exists k :: k in saved && Normal(k) == n { KeyListed(es, saved, n); }
  }

  lemma KeyListed(es: seq<Entry>, saved: WlMap, n: Key)
    requires ListsWl(es, saved) && forall i :: 0 <= i < |es| ==> es[i].key.Valid()
    ensures (exists i :: 0 <= i < |es| && Normal(es[i].key) == n) <==> exists k :: k in saved && Normal(k) == n
  {
    if i :| 0 <= i < |es| && Normal(es[i].key) == n { assert es[i] in es; }
    if k :| k in saved && Normal(k) == n {
      assert Entry(k, saved[k]) in es;
      var i :| 0 <= i < |es| && es[i] == Entry(k, saved[k]);
      assert Normal(es[i].key) == n;
    }
  }

  /** A ban survives exactly when its row is kept. */
  lemma SurvivesIffKept(b: Ban, es: seq<Entry>, saved: WlMap, now: Clock, hz: nat)
    requires hz > 0 && BanOk(b, now, hz) && ListsWl(es, saved)
    ensures Survives(b, saved, now, hz) <==> Kept(RowOf(b, now, hz), es, now.unix)
  {
    ListedIffCovered(es, saved, b.key.addr);
    KeptIffSurvives(b, saved, es, now, hz);
  }

  ghost predicate Tabled(bs: seq<Ban>, was: BanMap, now: Clock, hz: nat) {
    && hz > 0 && ListsBans(bs, was)
    && (forall i :: 0 <= i < |bs| ==> bs[i].key.Valid() && BanOk(bs[i], now, hz))
  }

  /** What is restored under `n` is one of the surviving bans that normalise to `n`. */
  lemma NothingElse(bs: seq<Ban>, es: seq<Entry>, was: BanMap, saved: WlMap, now: Clock, hz: nat, n: Key)
    returns (k: Key)
    requires Tabled(bs, was, now, hz) && ListsWl(es, saved)
    requires n in FirstWins(BanPairs(RowsOf(bs, now, hz), es, now, hz))
    ensures Survivor(was, saved, k, n, now, hz)
    ensures SameBan(was[k], FirstWins(BanPairs(RowsOf(bs, now, hz), es, now, hz))[n], hz)
  {
    var rows := RowsOf(bs, now, hz);
    var ps := BanPairs(rows, es, now, hz);
    var listed := ListedAt(ps, n);
    var at := FirstOf(ps, n);
    FirstWinsMeaning(ps);
    BanPairsMeaning(rows, es, now, hz, ps[at]);
    assert ps[at] in ps;
    var i :| 0 <= i < |rows| && Kept(rows[i], es, now.unix)
             && ps[at] == (Normal(rows[i].key), Revived(TextOf(rows[i], now.unix), now, hz));
    assert bs[i] in bs;
    k := bs[i].key;
    SurvivesIffKept(bs[i], es, saved, now, hz);
    SurvivorIsSame(bs[i], es, now, hz);
  }

  /** Every surviving ban is restored, or another one under its normalised key. */
  lemma SurvivorIsBack(bs: seq<Ban>, es: seq<Entry>, was: BanMap, saved: WlMap, now: Clock, hz: nat, k: Key)
    requires Tabled(bs, was, now, hz) && ListsWl(es, saved) && k in was && Survives(was[k], saved, now, hz)
    ensures Normal(k) in FirstWins(BanPairs(RowsOf(bs, now, hz), es, now, hz))
  {
    var rows := RowsOf(bs, now, hz);
    var ps := BanPairs(rows, es, now, hz);
    assert was[k] in bs;
    var i :| 0 <= i < |bs| && bs[i] == was[k];
    SurvivesIffKept(bs[i], es, saved, now, hz);
    var p := (Normal(k), Revived(TextOf(rows[i], now.unix), now, hz));
    BanPairsMeaning(rows, es, now, hz, p);
    FirstWinsMeaning(ps);
    assert p in ps;
  }

  lemma BansComeBack(bs: seq<Ban>, es: seq<Entry>, was: BanMap, saved: WlMap, bans: map<Key, Ban>, now: Clock, hz: nat)
    requires Tabled(bs, was, now, hz) && ListsWl(es, saved)
    requires bans == FirstWins(BanPairs(RowsOf(bs, now, hz), es, now, hz))
    ensures forall n :: n in bans <==> exists k :: Survivor(was, saved, k, n, now, hz)
    ensures forall n :: n in bans ==> exists k :: Survivor(was, saved, k, n, now, hz) && SameBan(was[k], bans[n], hz)
  {
    forall n | n in bans ensures exists k :: Survivor(was, saved, k, n, now, hz) && SameBan(was[k], bans[n], hz) {
      var k := NothingElse(bs, es, was, saved, now, hz, n);
    }
    forall n, k | Survivor(was, saved, k, n, now, hz) ensures n in bans {
      SurvivorIsBack(bs, es, was, saved, now, hz, k);
    }
  }

  /** The restored table bans exactly the addresses that surviving bans cover. */
  lemma SameAddressesBanned(was: BanMap, saved: WlMap, bans: BanMap, now: Clock, hz: nat, ip: Addr)
    requires forall n :: n in bans <==> exists k :: Survivor(was, saved, k, n, now, hz)
    ensures Banned(bans, ip) <==> exists k :: k in was && Survives(was[k], saved, now, hz) && k.Matches(ip)
  {
    if Banned(bans, ip) {
      var n :| n in bans && n.Matches(ip);
      var k :| Survivor(was, saved, k, n, now, hz);
      NormalMatches(k, ip);
    }
    if k :| k in was && Survives(was[k], saved, now, hz) && k.Matches(ip) {
      NormalMatches(k, ip);
      assert Survivor(was, saved, k, Normal(k), now, hz);
    }
  }

  lemma TablesComeBack(bs: seq<Ban>, es: seq<Entry>, was: BanMap, saved: WlMap, bans: BanMap, wl: WlMap, now: Clock,
                       hz: nat)
    requires hz > 0 && ListsBans(bs, was) && ListsWl(es, saved) && forall k :: k in was ==> BanOk(was[k], now, hz)
    requires (forall i :: 0 <= i < |bs| ==> bs[i].key.Valid()) && forall i :: 0 <= i < |es| ==> es[i].key.Valid()
    requires bans == FirstWins(BanPairs(RowsOf(bs, now, hz), es, now, hz)) && wl == FirstWins(WlPairs(es))
    ensures RestoredFrom(was, saved, bans, wl, now, hz)
  {
    WlComesBack(es, saved, wl);
    forall i | 0 <= i < |bs| ensures BanOk(bs[i], now, hz) { assert bs[i] in bs; }
    BansComeBack(bs, es, was, saved, bans, now, hz);
    forall ip ensures Banned(bans, ip) <==> exists k :: k in was && Survives(was[k], saved, now, hz) && k.Matches(ip) {
      SameAddressesBanned(was, saved, bans, now, hz, ip);
    }
  }

  lemma BansSaveable(bs: seq<Ban>, was: BanMap, now: Clock, hz: nat)
    requires hz > 0 && ListsBans(bs, was) && forall k :: k in was ==> BanOk(was[k], now, hz)
    ensures Saveable(RowsOf(bs, now, hz), [])
    ensures forall i :: 0 <= i < |bs| ==> bs[i].key.Valid() && RowsOf(bs, now, hz)[i].bannedAt <= now.unix
  {
    forall i | 0 <= i < |bs|
      ensures bs[i].key.Valid() && RowOf(bs[i], now, hz).Ok() && '\n' !in bs[i].reason
      ensures RowOf(bs[i], now, hz).bannedAt <= now.unix
    {
      assert bs[i] in bs;
      RowFits(bs[i], now, hz);
    }
  }

  lemma RowFits(b: Ban, now: Clock, hz: nat)
    requires hz > 0 && BanOk(b, now, hz)
    ensures RowOf(b, now, hz).Ok() && RowOf(b, now, hz).bannedAt <= now.unix
  {
    assert (now.jiffies - b.bannedAt) / hz >= 0;
  }

  lemma WlSaveable(es: seq<Entry>, saved: WlMap)
    requires ListsWl(es, saved) && WlOk(saved)
    ensures Saveable([], es)
  {
    forall i | 0 <= i < |es| ensures es[i].key in saved && saved[es[i].key] == es[i].device { assert es[i] in es; }
  }

  /** fw_state_save of tables within their own limits writes every row. */
  method SaveTables(c: Codec, bans: BanTable.Table, wl: Whitelist.Table, now: Clock, hz: nat) returns (text: string)
    requires hz > 0 && bans.Valid() && wl.Valid()
    requires |bans.entries| <= AsInt(bans.maxEntries) && |wl.entries| <= AsInt(wl.max)
    ensures text == Sealed(c, Body(c, RowsOf(bans.Enumeration(), now, hz), wl.Enumeration(), now.unix))
  {
    bans.EnumerationExact();
    wl.EnumerationExact();
    var writer := new Writer(c);
    writer.Save(bans, wl, now, hz, bans.maxEntries, wl.max);
    text := writer.file;
  }

  /** fw_state_restore of a saved file into fresh tables of the same limits. */
  method RestoreFresh(c: Codec, ghost rows: seq<Row>, ghost es: seq<Entry>, text: string, jhash: Addr -> nat,
                      maxBans: U32, maxWl: U32, now: Clock, hz: nat)
    returns (outcome: Outcome, bans: BanTable.Table, wl: Whitelist.Table)
    requires c.Ok() && Saveable(rows, es) && hz > 0 && |rows| <= AsInt(maxBans) && |es| <= AsInt(maxWl)
    requires forall i :: 0 <= i < |rows| ==> rows[i].bannedAt <= now.unix
    requires text == Sealed(c, Body(c, rows, es, now.unix))
    ensures fresh(bans) && fresh(wl) && bans.Valid() && wl.Valid()
    ensures outcome == if |text| > FILE_CAP then TooBig else Done
    ensures outcome.Done? ==> bans.entries == FirstWins(BanPairs(rows, es, now, hz))
    ensures outcome.Done? ==> wl.entries == FirstWins(WlPairs(es))
  {
    var restorer := new Restorer(c);
    bans := new BanTable.Table(jhash, maxBans);
    wl := new Whitelist.Table(jhash, maxWl);
    SavedFileFits(c, rows, es, now.unix, maxBans, maxWl);
    RestoreInvertsSave(c, rows, es, now, hz, maxBans, maxWl);
    outcome := restorer.Restore(text, MaxFileSize(maxBans, maxWl), wl, bans, now, hz);
  }

  /**
  A restart: fw_state_save of the two tables, then fw_state_restore at the same instant into fresh ones,
  under whatever hash they are given.
  Unless the file passes 32 MiB, exactly the addresses that surviving bans cover are banned again, and the
  whitelist covers the addresses it covered.
  */
  method SaveAndRestore(c: Codec, bans: BanTable.Table, wl: Whitelist.Table, jhash: Addr -> nat, now: Clock, hz: nat)
    returns (outcome: Outcome, bans2: BanTable.Table, wl2: Whitelist.Table)
    requires c.Ok() && hz > 0 && bans.Valid() && wl.Valid() && WlOk(wl.entries)
    requires BansOk(bans.entries, now, hz, bans.maxEntries) && |wl.entries| <= AsInt(wl.max)
    ensures fresh(bans2) && fresh(wl2) && bans2.Valid() && wl2.Valid()
    ensures var text := Sealed(c, Body(c, RowsOf(bans.Enumeration(), now, hz), wl.Enumeration(), now.unix));
      outcome == if |text| > FILE_CAP then TooBig else Done
    ensures outcome.Done? ==> RestoredFrom(bans.entries, wl.entries, bans2.entries, wl2.entries, now, hz)
  {
    ghost var rows, es := RowsOf(bans.Enumeration(), now, hz), wl.Enumeration();
    bans.EnumerationExact();
    wl.EnumerationExact();
    BansSaveable(bans.Enumeration(), bans.entries, now, hz);
    WlSaveable(es, wl.entries);
    var text := SaveTables(c, bans, wl, now, hz);
    outcome, bans2, wl2 := RestoreFresh(c, rows, es, text, jhash, bans.maxEntries, wl.max, now, hz);
    if outcome.Done? {
      TablesComeBack(bans.Enumeration(), es, bans.entries, wl.entries, bans2.entries, wl2.entries, now, hz);
    }
  }
}
