/** The snapshot file of fw_state.c: restoring a saved file inverts the save. */
module SnapshotRoundTrip {
  import opened Basics
  import opened Prefix
  import opened BanSpec
  import opened Text
  import opened SnapshotLine
  import opened SnapshotFile
  import opened SnapshotCut
  import opened SnapshotRestore
  import opened Whitelist

  /** A map built left to right in which the first value of a key stays. */
  function FirstWins<K, V>(ps: seq<(K, V)>): map<K, V> {
    if ps == [] then map[]
    else
      var m, last := FirstWins(ps[..|ps| - 1]), ps[|ps| - 1];
      if last.0 in m then m else m[last.0 := last.1]
  }

  /** What FirstWins means: exactly the keys listed, each with the first value listed for it. */
  lemma {:induction false} FirstWinsMeaning<K, V>(ps: seq<(K, V)>)
    ensures var r := FirstWins(ps);
      && (forall k :: k in r <==> exists i :: 0 <= i < |ps| && ps[i].0 == k)
      && (forall i :: 0 <= i < |ps| && (forall j :: 0 <= j < i ==> ps[j].0 != ps[i].0) ==> r[ps[i].0] == ps[i].1)
    decreases ps
  {
    if ps != [] {
      var init, last := ps[..|ps| - 1], ps[|ps| - 1];
      var m, r := FirstWins(init), FirstWins(ps);
      FirstWinsMeaning(init);
      forall k ensures k in r <==> exists i :: 0 <= i < |ps| && ps[i].0 == k {
        if k in m { var i :| 0 <= i < |init| && init[i].0 == k; assert ps[i].0 == k; }
        if i :| 0 <= i < |ps| && ps[i].0 == k { assert i < |init| ==> init[i].0 == k; }
      }
      forall i | 0 <= i < |ps| && (forall j :: 0 <= j < i ==> ps[j].0 != ps[i].0) ensures r[ps[i].0] == ps[i].1 {
        if i < |init| {
          assert init[i] == ps[i] && forall j :: 0 <= j < i ==> init[j] == ps[j];
        } else {
          assert forall j :: 0 <= j < |init| ==> init[j] == ps[j];
        }
      }
    }
  }

  lemma ListedAt<K, V>(ps: seq<(K, V)>, k: K) returns (i: nat)
    requires k in FirstWins(ps)
    ensures i < |ps| && ps[i].0 == k
  {
    FirstWinsMeaning(ps);
    i :| 0 <= i < |ps| && ps[i].0 == k;
  }

  /** Whitelist entries as they come back. */
  function WlPairs(es: seq<Entry>): seq<(Key, string)>
    requires forall i :: 0 <= i < |es| ==> es[i].key.Valid()
  {
    if es == [] then []
    else
      var e := es[|es| - 1];
      WlPairs(es[..|es| - 1]) + [(Normal(e.key), DeviceBack(e.device))]
  }

  /** Some saved whitelist entry covers the address. */
  ghost predicate Listed(es: seq<Entry>, a: Addr) {
    exists i :: 0 <= i < |es| && es[i].key.Valid() && es[i].key.Matches(a)
  }

  /** The saved rows that are restored: live, at most 365 days left, and not covered by the saved whitelist. */
  ghost predicate Kept(r: Row, es: seq<Entry>, unix: nat) {
    r.Live(unix) && r.Remaining(unix) <= YEAR && !Listed(es, r.key.addr)
  }

  function TextOf(r: Row, unix: nat): BanText
    requires r.Live(unix)
  {
    BanText(r.key, r.Remaining(unix), Jail(r), Reason(r))
  }

  /** Normalising entries and dropping duplicates changes what is listed, not what is covered. */
  lemma SameCoverBack(es: seq<Entry>)
    requires forall i :: 0 <= i < |es| ==> es[i].key.Valid()
    ensures forall k :: k in FirstWins(WlPairs(es)) ==> k.Valid()
    ensures SameCover(FirstWins(WlPairs(es)), es)
  {
    var m := FirstWins(WlPairs(es));
    WlKeys(es);
    forall a ensures Covered(m, a) <==> Listed(es, a) {
      if Covered(m, a) {
        var k: Key :| k in m && k.Matches(a);
        var i :| 0 <= i < |es| && Normal(es[i].key) == k;
        NormalMatches(es[i].key, a);
      }
      if Listed(es, a) {
        var i :| 0 <= i < |es| && es[i].key.Valid() && es[i].key.Matches(a);
        NormalMatches(es[i].key, a);
        assert Normal(es[i].key) in m;
      }
    }
  }

  lemma {:induction false} WlKeys(es: seq<Entry>)
    requires forall i :: 0 <= i < |es| ==> es[i].key.Valid()
    ensures forall k :: k in FirstWins(WlPairs(es)) <==> exists i :: 0 <= i < |es| && Normal(es[i].key) == k
  {
    var ps := WlPairs(es);
    WlPairsAre(es);
    forall k ensures k in FirstWins(ps) <==> exists i :: 0 <= i < |es| && Normal(es[i].key) == k {
      if k in FirstWins(ps) {
        var i := ListedAt(ps, k);
        assert ps[i].0 == Normal(es[i].key);
      }
      if i :| 0 <= i < |es| && Normal(es[i].key) == k {
        assert ps[i].0 == k;
        FirstWinsMeaning(ps);
      }
    }
  }

  lemma {:induction false} WlPairsAre(es: seq<Entry>)
    requires forall i :: 0 <= i < |es| ==> es[i].key.Valid()
    ensures |WlPairs(es)| == |es|
    ensures forall i :: 0 <= i < |es| ==> WlPairs(es)[i] == (Normal(es[i].key), DeviceBack(es[i].device))
    decreases es
  {
    if es != [] { WlPairsAre(es[..|es| - 1]); }
  }

  lemma NormalMatches(k: Key, a: Addr)
    requires k.Valid()
    ensures Normal(k).Matches(a) <==> k.Matches(a)
  {
    NormalizeBits(k.addr, k.prefix);
    MatchesMeaning(k, a);
    MatchesMeaning(Normal(k), a);
  }

  /** Kept rows as they come back, in table order. */
  ghost function BanPairs(rows: seq<Row>, es: seq<Entry>, now: Clock, hz: nat): seq<(Key, Ban)>
    requires forall i :: 0 <= i < |rows| ==> rows[i].key.Valid()
  {
    if rows == [] then []
    else
      var r := rows[|rows| - 1];
      var before := BanPairs(rows[..|rows| - 1], es, now, hz);
      if Kept(r, es, now.unix) then before + [(Normal(r.key), Revived(TextOf(r, now.unix), now, hz))] else before
  }

  /** A revived ban keeps permanence, prefix, remaining seconds and names, and starts and expires from now. */
  lemma RevivedMeaning(r: Row, now: Clock, hz: nat)
    requires r.Ok() && r.Live(now.unix) && r.Remaining(now.unix) <= YEAR && hz > 0
    ensures var b := Revived(TextOf(r, now.unix), now, hz); var left := r.Remaining(now.unix);
      && b.key == Normal(r.key) && b.permanent == r.permanent && b.duration == left
      && b.jail == Jail(r) && b.reason == Reason(r) && b.bannedAt == now.jiffies
      && (!b.permanent ==> b.deadline == now.jiffies + left * hz && !b.Expired(now.jiffies))
  {
    if !r.permanent { assert r.Remaining(now.unix) * hz > 0; }
  }

  /** Every ban in `m` is in force at `now`, so inserting its key again changes nothing. */
  predicate AllLive(m: BanMap, now: nat) { forall k :: k in m ==> !m[k].Expired(now) }

  lemma {:induction false} WlPassConcat(c: Codec, a: seq<string>, b: seq<string>, m: WlMap, max: U32)
    requires c.Ok()
    ensures WlPass(c, m, a + b, max) == WlPass(c, WlPass(c, m, a, max), b, max)
    decreases a
  {
    if a == [] {
      assert a + b == b;
    } else {
      assert (a + b)[1..] == a[1..] + b;
      WlPassConcat(c, a[1..], b, WlStep(c, m, a[0], max), max);
    }
  }

  lemma {:induction false} BanPassConcat(c: Codec, wl: WlMap, a: seq<string>, b: seq<string>, m: BanMap, now: Clock,
                                         hz: nat, max: U32)
    requires c.Ok()
    ensures BanPass(c, wl, m, a + b, now, hz, max)
            == BanPass(c, wl, BanPass(c, wl, m, a, now, hz, max), b, now, hz, max)
    decreases a
  {
    if a == [] {
      assert a + b == b;
    } else {
      assert (a + b)[1..] == a[1..] + b;
      BanPassConcat(c, wl, a[1..], b, BanStep(c, wl, m, a[0], now, hz, max), now, hz, max);
    }
  }

  /** Lines of the other kind are skipped. */
  lemma {:induction false} WlPassSkips(c: Codec, lines: seq<string>, m: WlMap, max: U32)
    requires c.Ok() && forall i :: 0 <= i < |lines| ==> WlOf(c, lines[i]).None?
    ensures WlPass(c, m, lines, max) == m
    decreases lines
  {
    if lines != [] { WlPassSkips(c, lines[1..], m, max); }
  }

  lemma {:induction false} BanPassSkips(c: Codec, wl: WlMap, lines: seq<string>, m: BanMap, now: Clock, hz: nat,
                                        max: U32)
    requires c.Ok() && forall i :: 0 <= i < |lines| ==> BanOf(c, lines[i]).None?
    ensures BanPass(c, wl, m, lines, now, hz, max) == m
    decreases lines
  {
    if lines != [] { BanPassSkips(c, wl, lines[1..], m, now, hz, max); }
  }

  lemma TagsApart()
    ensures "WL_V4" != "BAN_V4" && "WL_V4" != "BAN_V6" && "WL_V6" != "BAN_V4" && "WL_V6" != "BAN_V6"
    ensures "WL_V4" != "WL_V6" && "BAN_V4" != "BAN_V6"
    ensures "FW_STATE" !in ["WL_V4", "WL_V6", "BAN_V4", "BAN_V6"]
  {
    assert "WL_V4"[0] == "WL_V6"[0] == 'W' && "BAN_V4"[0] == "BAN_V6"[0] == 'B' && "FW_STATE"[0] == 'F';
    assert "WL_V4"[4] != "WL_V6"[4] && "BAN_V4"[5] != "BAN_V6"[5];
  }

  lemma TagFamilies(af: Family)
    ensures FamilyOf(BanTag(af), "BAN_V4", "BAN_V6") == Some(af) && FamilyOf(BanTag(af), "WL_V4", "WL_V6") == None
    ensures FamilyOf(WlTag(af), "WL_V4", "WL_V6") == Some(af) && FamilyOf(WlTag(af), "BAN_V4", "BAN_V6") == None
  {
    TagsApart();
  }

  /** What a line with this tag is read as. */
  lemma TagDecides(c: Codec, line: string, tag: string, rest: string)
    requires Cut(line) == Some((tag, rest))
    ensures var af := FamilyOf(tag, "BAN_V4", "BAN_V6");
      BanOf(c, line) == if af.None? then None else ParseBan(c, af.value, rest)
    ensures var af := FamilyOf(tag, "WL_V4", "WL_V6");
      WlOf(c, line) == if af.None? then None else ParseWl(c, af.value, rest)
  {
  }

  lemma HeaderSkipped(c: Codec)
    requires c.Ok()
    ensures WlOf(c, HEADER).None? && BanOf(c, HEADER).None?
    ensures WlOf(c, "").None? && BanOf(c, "").None?
  {
    TagsApart();
    CutSep("FW_STATE", "2");
    assert HEADER == Sep("FW_STATE", "2");
    TagDecides(c, HEADER, "FW_STATE", "2");
  }

  lemma WlLineRead(c: Codec, e: Entry)
    requires c.Ok() && e.key.Valid()
    ensures WlOf(c, WlLine(c, e)) == Some((e.key, DeviceBack(e.device))) && BanOf(c, WlLine(c, e)).None?
  {
    var af := e.key.addr.Af();
    TagFamilies(af);
    WlLineBack(c, e);
    TagDecides(c, WlLine(c, e), WlTag(af), WlRest(c, e));
  }

  lemma BanLineRead(c: Codec, r: Row, unix: nat)
    requires c.Ok() && r.Ok() && r.bannedAt <= unix && r.Live(unix)
    ensures WlOf(c, BanLine(c, r, unix)).None?
    ensures BanOf(c, BanLine(c, r, unix)) == if r.Remaining(unix) > YEAR then None else Some(TextOf(r, unix))
  {
    var af := r.key.addr.Af();
    TagFamilies(af);
    BanLineBack(c, r, unix);
    TagDecides(c, BanLine(c, r, unix), BanTag(af), BanRest(c, r, unix));
  }

  // ---------------------------------------------------------------- the passes over a saved body

  lemma WlPassSnoc(c: Codec, m: WlMap, lines: seq<string>, line: string, max: U32)
    requires c.Ok()
    ensures WlPass(c, m, lines + [line], max) == WlStep(c, WlPass(c, m, lines, max), line, max)
  {
    WlPassConcat(c, lines, [line], m, max);
    assert [line][1..] == [];
  }

  lemma BanPassSnoc(c: Codec, wl: WlMap, m: BanMap, lines: seq<string>, line: string, now: Clock, hz: nat, max: U32)
    requires c.Ok()
    ensures BanPass(c, wl, m, lines + [line], now, hz, max)
            == BanStep(c, wl, BanPass(c, wl, m, lines, now, hz, max), line, now, hz, max)
  {
    BanPassConcat(c, wl, lines, [line], m, now, hz, max);
    assert [line][1..] == [];
  }

  lemma DeviceNamed(d: string)
    ensures DeviceBack(d) != ""
    ensures |d| < DEVICE_LEN ==> |DeviceBack(d)| < DEVICE_LEN
  {
  }

  predicate AllNamed(m: WlMap) { forall k :: k in m ==> m[k] != "" }

  /** An entry restored on top of named entries is added, or ignored when its key is there already. */
  lemma EntryRestores(c: Codec, m: WlMap, e: Entry, max: U32)
    requires c.Ok() && e.key.Valid() && Name(e.device, DEVICE_LEN) && AllNamed(m) && |m| < AsInt(max)
    ensures var n, k := WlStep(c, m, WlLine(c, e), max), Normal(e.key);
      n == (if k in m then m else m[k := DeviceBack(e.device)]) && AllNamed(n) && |n| <= |m| + 1
  {
    WlLineRead(c, e);
    DeviceNamed(e.device);
    AddAmongNamed(m, Normal(e.key), DeviceBack(e.device), max);
  }

  lemma AddAmongNamed(m: WlMap, k: Key, device: string, max: U32)
    requires k.Valid() && AllNamed(m) && |m| < AsInt(max) && 0 < |device| < DEVICE_LEN
    ensures var n := Added(m, k, device, max).0;
      n == (if k in m then m else m[k := device]) && AllNamed(n) && |n| <= |m| + 1
  {
  }

  lemma {:induction false} WlPairsSnoc(es: seq<Entry>)
    requires es != [] && forall i :: 0 <= i < |es| ==> es[i].key.Valid()
    ensures var m, e := FirstWins(WlPairs(es[..|es| - 1])), es[|es| - 1];
      FirstWins(WlPairs(es)) == if Normal(e.key) in m then m else m[Normal(e.key) := DeviceBack(e.device)]
  {
    var ps := WlPairs(es);
    assert ps[..|ps| - 1] == WlPairs(es[..|es| - 1]);
  }

  /** The whitelist lines rebuild the whitelist. */
  lemma {:induction false} WlLinesRestore(c: Codec, es: seq<Entry>, max: U32)
    requires c.Ok() && Saveable([], es) && |es| <= AsInt(max)
    ensures var m := WlPass(c, map[], WlLines(c, es), max);
      m == FirstWins(WlPairs(es)) && AllNamed(m) && |m| <= |es|
    decreases es
  {
    if es != [] {
      var init, e := es[..|es| - 1], es[|es| - 1];
      WlLinesRestore(c, init, max);
      WlPassSnoc(c, map[], WlLines(c, init), WlLine(c, e), max);
      WlPairsSnoc(es);
      EntryRestores(c, FirstWins(WlPairs(init)), e, max);
    }
  }

  /** Inserting a ban in force among bans in force, with room for it, never disturbs one already there. */
  lemma InsertAmongLive(m: BanMap, b: Ban, now: nat, max: U32)
    requires b.key.Valid() && AllLive(m, now) && |m| < AsInt(max) && !b.Expired(now)
    ensures var n := Insert(m, b, now, max).0;
      n == (if b.key in m then m else m[b.key := b]) && AllLive(n, now) && |n| <= |m| + 1
  {
  }

  /** The restored whitelist covers the addresses the saved one does. */
  ghost predicate SameCover(wl: WlMap, es: seq<Entry>) { forall a :: Covered(wl, a) <==> Listed(es, a) }

  /** A row restored on top of bans in force adds its ban, or nothing when its key is there already. */
  lemma RowRestores(c: Codec, wl: WlMap, es: seq<Entry>, m: BanMap, r: Row, now: Clock, hz: nat, max: U32)
    requires c.Ok() && r.Ok() && r.bannedAt <= now.unix && r.Live(now.unix) && hz > 0
    requires Covered(wl, r.key.addr) <==> Listed(es, r.key.addr)
    requires AllLive(m, now.jiffies) && |m| < AsInt(max)
    ensures var n := BanStep(c, wl, m, BanLine(c, r, now.unix), now, hz, max);
      n == WithRow(m, r, es, now, hz) && AllLive(n, now.jiffies) && |n| <= |m| + 1
  {
    BanLineRead(c, r, now.unix);
    if r.Remaining(now.unix) <= YEAR {
      RevivedMeaning(r, now, hz);
      InsertAmongLive(m, Revived(TextOf(r, now.unix), now, hz), now.jiffies, max);
    }
  }

  /** `m` with the ban of one more row, if that row is kept and its key is new. */
  ghost function WithRow(m: map<Key, Ban>, r: Row, es: seq<Entry>, now: Clock, hz: nat): map<Key, Ban>
    requires r.key.Valid()
  {
    if !Kept(r, es, now.unix) || Normal(r.key) in m then m
    else m[Normal(r.key) := Revived(TextOf(r, now.unix), now, hz)]
  }

  lemma PairsOfOneMore(rows: seq<Row>, es: seq<Entry>, now: Clock, hz: nat)
    requires rows != [] && forall i :: 0 <= i < |rows| ==> rows[i].key.Valid()
    ensures FirstWins(BanPairs(rows, es, now, hz))
            == WithRow(FirstWins(BanPairs(rows[..|rows| - 1], es, now, hz)), rows[|rows| - 1], es, now, hz)
  {
    var ps := BanPairs(rows, es, now, hz);
    if Kept(rows[|rows| - 1], es, now.unix) { assert ps[..|ps| - 1] == BanPairs(rows[..|rows| - 1], es, now, hz); }
  }

  /** The ban lines of `rows` restore into an empty table as the bans kept, all in force. */
  ghost predicate Rebuilt(c: Codec, wl: WlMap, rows: seq<Row>, es: seq<Entry>, now: Clock, hz: nat, max: U32)
    requires c.Ok() && forall i :: 0 <= i < |rows| ==> rows[i].key.Valid()
  {
    var m := BanPass(c, wl, map[], BanLines(c, rows, now.unix), now, hz, max);
    m == FirstWins(BanPairs(rows, es, now, hz)) && AllLive(m, now.jiffies) && |m| <= |rows|
  }

  /** The ban lines rebuild the bans kept. */
  lemma {:induction false} BanLinesRestore(c: Codec, wl: WlMap, rows: seq<Row>, es: seq<Entry>, now: Clock, hz: nat,
                                           max: U32)
    requires c.Ok() && Saveable(rows, []) && hz > 0 && |rows| <= AsInt(max) && SameCover(wl, es)
    requires forall i :: 0 <= i < |rows| ==> rows[i].bannedAt <= now.unix
    ensures Rebuilt(c, wl, rows, es, now, hz, max)
    decreases rows
  {
    if rows != [] {
      var init, r := rows[..|rows| - 1], rows[|rows| - 1];
      BanLinesRestore(c, wl, init, es, now, hz, max);
      PairsOfOneMore(rows, es, now, hz);
      if r.Live(now.unix) {
        BanPassSnoc(c, wl, map[], BanLines(c, init, now.unix), BanLine(c, r, now.unix), now, hz, max);
        RowRestores(c, wl, es, FirstWins(BanPairs(init, es, now, hz)), r, now, hz, max);
      } else {
        assert BanLines(c, init, now.unix) + [] == BanLines(c, init, now.unix);
      }
    }
  }

  lemma {:induction false} BanLinesNoWl(c: Codec, rows: seq<Row>, unix: nat)
    requires c.Ok() && Saveable(rows, []) && forall i :: 0 <= i < |rows| ==> rows[i].bannedAt <= unix
    ensures forall i :: 0 <= i < |BanLines(c, rows, unix)| ==> WlOf(c, BanLines(c, rows, unix)[i]).None?
    decreases rows
  {
    if rows != [] {
      BanLinesNoWl(c, rows[..|rows| - 1], unix);
      if rows[|rows| - 1].Live(unix) { BanLineRead(c, rows[|rows| - 1], unix); }
    }
  }

  lemma {:induction false} WlLinesNoBan(c: Codec, es: seq<Entry>)
    requires c.Ok() && Saveable([], es)
    ensures forall i :: 0 <= i < |WlLines(c, es)| ==> BanOf(c, WlLines(c, es)[i]).None?
    decreases es
  {
    if es != [] {
      WlLinesNoBan(c, es[..|es| - 1]);
      WlLineRead(c, es[|es| - 1]);
    }
  }

  /** The lines found in a saved body are the lines saved, and an empty one at the end. */
  lemma LinesBack(c: Codec, rows: seq<Row>, es: seq<Entry>, unix: nat)
    requires c.Ok() && Saveable(rows, es)
    ensures LinesOf(Body(c, rows, es, unix)) == Lines(c, rows, es, unix) + [""]
  {
    var lines := Lines(c, rows, es, unix);
    LinesClean(c, rows, es, unix);
    TokensOfLines(lines);
    UnlinesNoNul(lines);
    var body := Unlines(lines);
    IndexUnique(body, '\0', |body|) by { assert body[..|body|] == body; }
    assert body[..|body|] == body;
  }

  lemma {:induction false} UnlinesNoNul(lines: seq<string>)
    requires forall i :: 0 <= i < |lines| ==> Clean(lines[i])
    ensures '\0' !in Unlines(lines)
  {
    if lines != [] { UnlinesNoNul(lines[1..]); }
  }

  /**
  Restoring a file saved at the same instant into empty tables with room for it gives exactly the
  saved whitelist, and exactly the saved bans that are live, have at most 365 days left and are not
  covered by that whitelist; addresses normalised, the first of two equal keys winning.
  */
  lemma RestoreInvertsSave(c: Codec, rows: seq<Row>, es: seq<Entry>, now: Clock, hz: nat, maxBans: U32, maxWl: U32)
    requires c.Ok() && Saveable(rows, es) && hz > 0 && |rows| <= AsInt(maxBans) && |es| <= AsInt(maxWl)
    requires forall i :: 0 <= i < |rows| ==> rows[i].bannedAt <= now.unix
    ensures var text := Sealed(c, Body(c, rows, es, now.unix));
      && Verified(c, text).Some?
      && var lines := LinesOf(text[..Verified(c, text).value]);
         var wl := WlPass(c, map[], lines, maxWl);
         && wl == FirstWins(WlPairs(es))
         && BanPass(c, wl, map[], lines, now, hz, maxBans) == FirstWins(BanPairs(rows, es, now, hz))
  {
    var body := Body(c, rows, es, now.unix);
    UntruncatedAccepted(c, rows, es, now.unix);
    assert Sealed(c, body)[..|body|] == body;
    LinesBack(c, rows, es, now.unix);
    WlPassWhole(c, rows, es, now.unix, maxWl);
    SameCoverBack(es);
    BanPassWhole(c, FirstWins(WlPairs(es)), rows, es, now, hz, maxBans);
  }

  lemma WlPassWhole(c: Codec, rows: seq<Row>, es: seq<Entry>, unix: nat, max: U32)
    requires c.Ok() && Saveable(rows, es) && |es| <= AsInt(max)
    requires forall i :: 0 <= i < |rows| ==> rows[i].bannedAt <= unix
    ensures WlPass(c, map[], Lines(c, rows, es, unix) + [""], max) == FirstWins(WlPairs(es))
  {
    var head, wls := [HEADER] + BanLines(c, rows, unix), WlLines(c, es);
    HeadSkipped(c, rows, unix, max);
    WlPassConcat(c, head, wls, map[], max);
    WlLinesRestore(c, es, max);
    WlPassSnoc(c, map[], head + wls, "", max);
    HeaderSkipped(c);
  }

  lemma HeadSkipped(c: Codec, rows: seq<Row>, unix: nat, max: U32)
    requires c.Ok() && Saveable(rows, []) && forall i :: 0 <= i < |rows| ==> rows[i].bannedAt <= unix
    ensures WlPass(c, map[], [HEADER] + BanLines(c, rows, unix), max) == map[]
  {
    HeaderSkipped(c);
    WlPassSkips(c, [HEADER], map[], max);
    BanLinesNoWl(c, rows, unix);
    WlPassSkips(c, BanLines(c, rows, unix), map[], max);
    WlPassConcat(c, [HEADER], BanLines(c, rows, unix), map[], max);
  }

  lemma BanPassWhole(c: Codec, wl: WlMap, rows: seq<Row>, es: seq<Entry>, now: Clock, hz: nat, max: U32)
    requires c.Ok() && Saveable(rows, es) && hz > 0 && |rows| <= AsInt(max) && SameCover(wl, es)
    requires forall i :: 0 <= i < |rows| ==> rows[i].bannedAt <= now.unix
    ensures BanPass(c, wl, map[], Lines(c, rows, es, now.unix) + [""], now, hz, max)
            == FirstWins(BanPairs(rows, es, now, hz))
  {
    var bans, wls := BanLines(c, rows, now.unix), WlLines(c, es);
    HeaderSkipped(c);
    WlLinesNoBan(c, es);
    BanPassSkips(c, wl, [HEADER], map[], now, hz, max);
    BanPassConcat(c, wl, [HEADER], bans, map[], now, hz, max);
    BanLinesRestore(c, wl, rows, es, now, hz, max);
    BanPassConcat(c, wl, [HEADER] + bans, wls, map[], now, hz, max);
    BanPassSkips(c, wl, wls, FirstWins(BanPairs(rows, es, now, hz)), now, hz, max);
    BanPassSnoc(c, wl, map[], [HEADER] + bans + wls, "", now, hz, max);
  }

  lemma {:induction false} BanPairsMeaning(rows: seq<Row>, es: seq<Entry>, now: Clock, hz: nat, p: (Key, Ban))
    requires forall i :: 0 <= i < |rows| ==> rows[i].key.Valid()
    ensures p in BanPairs(rows, es, now, hz) <==>
            exists i :: 0 <= i < |rows| && Kept(rows[i], es, now.unix)
                        && p == (Normal(rows[i].key), Revived(TextOf(rows[i], now.unix), now, hz))
    decreases rows
  {
    if rows != [] {
      var init := rows[..|rows| - 1];
      BanPairsMeaning(init, es, now, hz, p);
      assert forall i :: 0 <= i < |init| ==> init[i] == rows[i];
      assert forall i :: 0 <= i < |rows| ==> i < |init| || rows[i] == rows[|rows| - 1];
    }
  }

  /**
  A saved row that shares its normalised key with no other comes back exactly when it is live, has at
  most 365 days left and is not whitelisted.
  */
  lemma ComesBackIffKept(rows: seq<Row>, es: seq<Entry>, now: Clock, hz: nat, i: nat)
    requires forall j :: 0 <= j < |rows| ==> rows[j].key.Valid()
    requires i < |rows| && forall j :: 0 <= j < |rows| && j != i ==> Normal(rows[j].key) != Normal(rows[i].key)
    ensures var back := FirstWins(BanPairs(rows, es, now, hz)); var r := rows[i];
      && (Normal(r.key) in back <==> Kept(r, es, now.unix))
      && (Kept(r, es, now.unix) ==> back[Normal(r.key)] == Revived(TextOf(r, now.unix), now, hz))
  {
    var ps, r := BanPairs(rows, es, now, hz), rows[i];
    var k := Normal(r.key);
    FirstWinsMeaning(ps);
    forall p | p in ps && p.0 == k ensures Kept(r, es, now.unix) && p.1 == Revived(TextOf(r, now.unix), now, hz) {
      BanPairsMeaning(rows, es, now, hz, p);
    }
    if Kept(r, es, now.unix) {
      BanPairsMeaning(rows, es, now, hz, (k, Revived(TextOf(r, now.unix), now, hz)));
      var at := FirstOf(ps, k);
      assert ps[at] in ps;
    }
  }

  /** A listed key has a first position. */
  lemma {:induction false} FirstOf<K, V>(ps: seq<(K, V)>, k: K) returns (i: nat)
    requires exists j :: 0 <= j < |ps| && ps[j].0 == k
    ensures i < |ps| && ps[i].0 == k && forall j :: 0 <= j < i ==> ps[j].0 != ps[i].0
  {
    i := 0;
    while ps[i].0 != k
      invariant i < |ps| && (forall j :: 0 <= j < i ==> ps[j].0 != k)
      decreases |ps| - i
    {
      var j :| 0 <= j < |ps| && ps[j].0 == k;
      i := i + 1;
    }
  }

  // ---------------------------------------------------------------- the size limit

  const MAX_LINE: nat := 160
  const FILE_CAP: nat := 32 * 1024 * 1024

  /** fw_state_max_file_size */
  function MaxFileSize(maxBans: U32, maxWl: U32): nat { Least((maxBans + maxWl + 4) * MAX_LINE, FILE_CAP) }

  /** The limit grows by one line with each ban and each whitelist entry allowed, up to 32 MiB. */
  lemma SizeLimit(maxBans: U32, maxWl: U32)
    ensures MaxFileSize(0, 0) == 4 * 160
    ensures maxBans < 0xffff_ffff ==>
              MaxFileSize(maxBans + 1, maxWl) == Least(MaxFileSize(maxBans, maxWl) + 160, 32 * 1024 * 1024)
    ensures MaxFileSize(maxBans, maxWl) == MaxFileSize(maxWl, maxBans)
  {
  }

  lemma DecWidths(prefix: nat, left: nat)
    requires prefix <= 128 && left < 0x1_0000_0000
    ensures |Dec(prefix)| <= 3 && |Dec(left)| <= 10
  {
    assert Pow10(3) == 1000;
    assert Pow10(5) == 100000 && Pow10(10) == 100000 * Pow10(5);
    DecLength(prefix, 3);
    DecLength(left, 10);
  }

  lemma LineWidths(c: Codec, r: Row, e: Entry, unix: nat)
    requires c.Ok()
    ensures r.Ok() && r.bannedAt <= unix && r.Live(unix) ==> |BanLine(c, r, unix)| < MAX_LINE
    ensures e.key.Valid() && Name(e.device, DEVICE_LEN) ==> |WlLine(c, e)| < MAX_LINE
  {
    if r.Ok() && r.bannedAt <= unix && r.Live(unix) { DecWidths(r.key.prefix, r.Remaining(unix)); }
    if e.key.Valid() { DecWidths(e.key.prefix, 0); }
  }

  lemma {:induction false} UnlinesWidth(lines: seq<string>)
    requires forall i :: 0 <= i < |lines| ==> |lines[i]| < MAX_LINE
    ensures |Unlines(lines)| <= |lines| * MAX_LINE
  {
    if lines != [] { UnlinesWidth(lines[1..]); }
  }

  lemma {:induction false} BanLinesWidth(c: Codec, rows: seq<Row>, unix: nat)
    requires c.Ok() && Stored(rows, []) && forall i :: 0 <= i < |rows| ==> rows[i].bannedAt <= unix
    ensures |BanLines(c, rows, unix)| <= |rows|
    ensures forall i :: 0 <= i < |BanLines(c, rows, unix)| ==> |BanLines(c, rows, unix)[i]| < MAX_LINE
    decreases rows
  {
    if rows != [] {
      BanLinesWidth(c, rows[..|rows| - 1], unix);
      LineWidths(c, rows[|rows| - 1], Entry(Key(V4(0), 0), ""), unix);
    }
  }

  lemma {:induction false} WlLinesWidth(c: Codec, es: seq<Entry>)
    requires c.Ok() && Stored([], es)
    ensures |WlLines(c, es)| == |es|
    ensures forall i :: 0 <= i < |es| ==> |WlLines(c, es)[i]| < MAX_LINE
    decreases es
  {
    if es != [] {
      WlLinesWidth(c, es[..|es| - 1]);
      LineWidths(c, Row(Key(V4(0), 0), true, 0, 0, "", ""), es[|es| - 1], 0);
    }
  }

  /**
  A saved file is within the size limit the restore derives from the same capacities, so it is refused
  for its size only when it is over the absolute 32 MiB cap.
  */
  lemma SavedFileFits(c: Codec, rows: seq<Row>, es: seq<Entry>, unix: nat, maxBans: U32, maxWl: U32)
    requires c.Ok() && Stored(rows, es) && forall i :: 0 <= i < |rows| ==> rows[i].bannedAt <= unix
    ensures var text := Sealed(c, Body(c, Capped(rows, maxBans), Capped(es, maxWl), unix));
      |text| <= MaxFileSize(maxBans, maxWl) <==> |text| <= FILE_CAP
  {
    BodyWidth(c, Capped(rows, maxBans), Capped(es, maxWl), unix);
    assert |Tail(c, Body(c, Capped(rows, maxBans), Capped(es, maxWl), unix))| == 15;
  }

  lemma BodyWidth(c: Codec, rows: seq<Row>, es: seq<Entry>, unix: nat)
    requires c.Ok() && Stored(rows, es) && forall i :: 0 <= i < |rows| ==> rows[i].bannedAt <= unix
    ensures |Body(c, rows, es, unix)| <= (1 + |rows| + |es|) * MAX_LINE
  {
    BanLinesWidth(c, rows, unix);
    WlLinesWidth(c, es);
    UnlinesWidth(Lines(c, rows, es, unix));
  }
}
