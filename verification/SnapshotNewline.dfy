/**
Newlines in the names of a snapshot file of fw_state.c: a reason is written as it is, so what follows a
newline in it is read back as a line of its own.
*/
module SnapshotNewline {
  import opened Basics
  import opened Prefix
  import opened BanSpec
  import opened Text
  import opened SnapshotLine
  import opened SnapshotFile
  import opened SnapshotCut
  import opened SnapshotRestore
  import opened SnapshotRoundTrip
  import opened Whitelist

  /**
  A newline in a reason writes the very bytes of a row whose reason ends there and of a further line,
  so that is all the restore can see.
  */
  lemma NewlineSplitsLine(c: Codec, r: Row, unix: nat, head: string, tail: string)
    requires r.Live(unix) && r.reason == head + "\n" + tail && head != ""
    ensures BanLine(c, r, unix) + "\n" == Unlines([BanLine(c, r.(reason := head), unix), tail])
  {
    var cut := r.(reason := head);
    assert r == cut.(reason := cut.reason + ("\n" + tail));
    ReasonTail(c, cut, unix, "\n" + tail);
    UnlinesTwo(BanLine(c, cut, unix), tail);
  }

  // ---------------------------------------------------------------- reasons

  predicate ReasonsClean(m: BanMap) { forall k :: k in m ==> '\n' !in m[k].reason }

  /** The remainder behind three fields comes from the line. */
  lemma RemainderClean(rest: string)
    requires '\n' !in rest
    ensures var jail := Strsep(Strsep(Strsep(Some(rest), ' ').1, ' ').1, ' '); jail.1.Some? ==> '\n' !in jail.1.value
  {
    StrsepParts(rest, ' ');
    var time := Strsep(Some(rest), ' ').1;
    if time.Some? {
      StrsepParts(time.value, ' ');
      var jail := Strsep(time, ' ').1;
      if jail.Some? { StrsepParts(jail.value, ' '); }
    }
  }

  lemma ParsedReasonClean(c: Codec, line: string)
    requires '\n' !in line && BanOf(c, line).Some?
    ensures '\n' !in BanOf(c, line).value.reason
  {
    var cut := Cut(line).value;
    assert forall d :: d in cut.1 ==> d in line;
    ParseReasonClean(c, FamilyOf(cut.0, "BAN_V4", "BAN_V6").value, cut.1);
  }

  lemma ParseReasonClean(c: Codec, af: Family, rest: string)
    requires '\n' !in rest && ParseBan(c, af, rest).Some?
    ensures '\n' !in ParseBan(c, af, rest).value.reason
  {
    RemainderClean(rest);
  }

  lemma StepReasonClean(c: Codec, wl: WlMap, m: BanMap, line: string, now: Clock, hz: nat, max: U32)
    requires c.Ok() && '\n' !in line && ReasonsClean(m)
    ensures ReasonsClean(BanStep(c, wl, m, line, now, hz, max))
  {
    if BanOf(c, line).Some? {
      ParsedReasonClean(c, line);
      BanOfValid(c, line);
      RevivedReason(BanOf(c, line).value, now, hz);
      InsertReason(m, Revived(BanOf(c, line).value, now, hz), now.jiffies, max);
    }
  }

  lemma RevivedReason(b: BanText, now: Clock, hz: nat)
    requires b.key.Valid() && b.remaining <= YEAR && '\n' !in b.reason
    ensures '\n' !in Revived(b, now, hz).reason
  {
    assert forall d :: d in Clip(b.reason, NAME_LEN) ==> d in b.reason;
  }

  lemma InsertReason(m: BanMap, n: Ban, now: nat, max: U32)
    requires n.key.Valid() && ReasonsClean(m) && '\n' !in n.reason
    ensures ReasonsClean(Insert(m, n, now, max).0)
  {
  }

  lemma {:induction false} PassReasonsClean(c: Codec, wl: WlMap, m: BanMap, lines: seq<string>, now: Clock, hz: nat,
                                            max: U32)
    requires c.Ok() && ReasonsClean(m) && forall i :: 0 <= i < |lines| ==> '\n' !in lines[i]
    ensures ReasonsClean(BanPass(c, wl, m, lines, now, hz, max))
    decreases lines
  {
    if lines != [] {
      StepReasonClean(c, wl, m, lines[0], now, hz, max);
      PassReasonsClean(c, wl, BanStep(c, wl, m, lines[0], now, hz, max), lines[1..], now, hz, max);
    }
  }

  /** No restore from any file whatever gives a ban whose reason holds a newline. */
  lemma RestoredReasonsClean(c: Codec, wl: WlMap, body: string, now: Clock, hz: nat, max: U32)
    requires c.Ok()
    ensures ReasonsClean(BanPass(c, wl, map[], LinesOf(body), now, hz, max))
  {
    TokensClean(Some(body[..IndexOf(body, '\0')]), '\n');
    PassReasonsClean(c, wl, map[], LinesOf(body), now, hz, max);
  }

  /**
  Among rows whose reasons are otherwise free of newlines, a row with a key of its own comes back with
  its own reason if and only if it is kept and its reason has no newline.
  */
  lemma ReasonComesBackIff(c: Codec, rows: seq<Row>, es: seq<Entry>, now: Clock, hz: nat, maxBans: U32, wl: WlMap,
                           i: nat)
    requires c.Ok() && hz > 0 && |rows| <= AsInt(maxBans) && Saveable([], es) && SameCover(wl, es)
    requires forall j :: 0 <= j < |rows| ==> rows[j].key.Valid() && rows[j].Ok() && rows[j].bannedAt <= now.unix
    requires i < |rows| && forall j :: 0 <= j < |rows| && j != i ==>
                             '\n' !in rows[j].reason && Normal(rows[j].key) != Normal(rows[i].key)
    ensures var back := BanPass(c, wl, map[], LinesOf(Body(c, rows, es, now.unix)), now, hz, maxBans);
            var k := Normal(rows[i].key);
      k in back && back[k].reason == Reason(rows[i]) <==> Kept(rows[i], es, now.unix) && '\n' !in rows[i].reason
  {
    var r, k := rows[i], Normal(rows[i].key);
    var back := BanPass(c, wl, map[], LinesOf(Body(c, rows, es, now.unix)), now, hz, maxBans);
    RestoredReasonsClean(c, wl, Body(c, rows, es, now.unix), now, hz, maxBans);
    if '\n' in r.reason {
      assert Reason(r) == r.reason;
    } else {
      assert Saveable(rows, es);
      LinesBack(c, rows, es, now.unix);
      BanPassWhole(c, wl, rows, es, now, hz, maxBans);
      ComesBackIffKept(rows, es, now, hz, i);
      if Kept(r, es, now.unix) { RevivedMeaning(r, now, hz); }
    }
  }

  // ---------------------------------------------------------------- what follows a newline

  lemma {:induction false} BanLineAt(c: Codec, rows: seq<Row>, unix: nat, i: nat) returns (j: nat)
    requires i < |rows| && rows[i].Live(unix)
    ensures j < |BanLines(c, rows, unix)| && BanLines(c, rows, unix)[j] == BanLine(c, rows[i], unix)
    decreases rows
  {
    if i == |rows| - 1 {
      j := |BanLines(c, rows, unix)| - 1;
    } else {
      j := BanLineAt(c, rows[..|rows| - 1], unix, i);
    }
  }

  lemma {:induction false} UnlinesAt(lines: seq<string>, j: nat)
    requires j < |lines|
    ensures Unlines(lines) == Unlines(lines[..j]) + (lines[j] + "\n") + Unlines(lines[j + 1..])
  {
    assert lines == lines[..j] + ([lines[j]] + lines[j + 1..]);
    UnlinesConcat(lines[..j], [lines[j]] + lines[j + 1..]);
    assert ([lines[j]] + lines[j + 1..])[1..] == lines[j + 1..];
  }

  predicate NoNul(lines: seq<string>) { forall i :: 0 <= i < |lines| ==> '\0' !in lines[i] }

  lemma {:induction false} NoNulInText(lines: seq<string>)
    requires NoNul(lines)
    ensures '\0' !in Unlines(lines)
  {
    if lines != [] { NoNulInText(lines[1..]); }
  }

  lemma SepNoNul(word: string, rest: string)
    requires '\0' !in word && '\0' !in rest
    ensures '\0' !in Sep(word, rest)
  {
  }

  lemma BanLineNoNul(c: Codec, r: Row, unix: nat)
    requires c.Ok() && r.Ok() && r.Live(unix)
    ensures '\0' !in BanLine(c, r, unix)
  {
    var field, left := c.show(r.key.addr) + ['/'] + Dec(r.key.prefix), Dec(r.Remaining(unix));
    AddrFieldWord(c, r.key);
    DecBack(r.Remaining(unix));
    SepNoNul(Jail(r), Reason(r));
    SepNoNul(left, Sep(Jail(r), Reason(r)));
    SepNoNul(field, Sep(left, Sep(Jail(r), Reason(r))));
    SepNoNul(BanTag(r.key.addr.Af()), BanRest(c, r, unix));
  }

  lemma WlLineNoNul(c: Codec, e: Entry)
    requires c.Ok() && Name(e.device, DEVICE_LEN)
    ensures '\0' !in WlLine(c, e)
  {
    assert Word(c.show(e.key.addr));
    DecBack(e.key.prefix);
    SepNoNul(Dec(e.key.prefix), Or(e.device, "api"));
    SepNoNul(c.show(e.key.addr), Sep(Dec(e.key.prefix), Or(e.device, "api")));
    SepNoNul(WlTag(e.key.addr.Af()), WlRest(c, e));
  }

  lemma {:induction false} BanLinesNoNul(c: Codec, rows: seq<Row>, unix: nat)
    requires c.Ok() && Stored(rows, [])
    ensures NoNul(BanLines(c, rows, unix))
    decreases rows
  {
    if rows != [] {
      BanLinesNoNul(c, rows[..|rows| - 1], unix);
      if rows[|rows| - 1].Live(unix) { BanLineNoNul(c, rows[|rows| - 1], unix); }
    }
  }

  lemma {:induction false} WlLinesNoNul(c: Codec, es: seq<Entry>)
    requires c.Ok() && Stored([], es)
    ensures NoNul(WlLines(c, es))
    decreases es
  {
    if es != [] {
      WlLinesNoNul(c, es[..|es| - 1]);
      WlLineNoNul(c, es[|es| - 1]);
    }
  }

  lemma BodyNoNul(c: Codec, rows: seq<Row>, es: seq<Entry>, unix: nat)
    requires c.Ok() && Stored(rows, es)
    ensures var body := Body(c, rows, es, unix); LinesOf(body) == Tokens(Some(body), '\n')
  {
    var body := Body(c, rows, es, unix);
    BanLinesNoNul(c, rows, unix);
    WlLinesNoNul(c, es);
    assert '\0' !in HEADER;
    NoNulInText(Lines(c, rows, es, unix));
    IndexUnique(body, '\0', |body|) by { assert body[..|body|] == body; }
    assert body[..|body|] == body;
  }

  /** What follows a newline in the reason of a saved row is read back as a line of its own, whatever it says. */
  lemma NewlineForgesLine(c: Codec, rows: seq<Row>, es: seq<Entry>, unix: nat, i: nat, head: string, tail: string)
    requires c.Ok() && Stored(rows, es) && i < |rows| && rows[i].Live(unix)
    requires rows[i].reason == head + "\n" + tail && '\n' !in tail
    ensures tail in LinesOf(Body(c, rows, es, unix))
  {
    var lines, r := Lines(c, rows, es, unix), rows[i];
    var j := BanLineAt(c, rows, unix, i);
    assert lines[1 + j] == BanLine(c, r, unix);
    UnlinesAt(lines, 1 + j);
    ReasonEnds(c, r, unix);
    BodyNoNul(c, rows, es, unix);
    var above, before, behind := Unlines(lines[..1 + j]), BeforeReason(c, r, unix), Unlines(lines[1 + j + 1..]);
    AroundTail(above, before, head, tail, behind);
    TokenBetween(above + (before + head), tail, behind, '\n');
  }

  lemma AroundTail(above: string, before: string, head: string, tail: string, behind: string)
    ensures above + (before + (head + "\n" + tail) + "\n") + behind
            == (above + (before + head)) + ['\n'] + (tail + ['\n'] + behind)
  {
  }

  /** The network of all IPv4 addresses. */
  const ALL_FOUR := Key(V4(0), 0)

  /** A reason with a whitelist line for that network behind a newline. */
  function Wiper(c: Codec): string { "x" + "\n" + WlLine(c, Entry(ALL_FOUR, "a")) }

  /** It fits the buffer when that address takes seven characters, as 0.0.0.0 does. */
  lemma WiperFits(c: Codec)
    requires c.Ok() && |c.show(V4(0))| == 7
    ensures Name(Wiper(c), NAME_LEN)
  {
    WlLineNoNul(c, Entry(ALL_FOUR, "a"));
  }

  lemma WlStepHolds(c: Codec, m: WlMap, line: string, max: U32, k: Key)
    requires c.Ok() && k.Valid() && Normal(k) == k && |m| < AsInt(max)
    ensures var n := WlStep(c, m, line, max);
      |n| <= |m| + 1 && (k in m || (WlOf(c, line).Some? && WlOf(c, line).value.0 == k) ==> k in n)
  {
    WlOfValid(c, line);
  }

  /** A whitelist entry named by some line is restored while there is room for one entry per line. */
  lemma {:induction false} WlPassHolds(c: Codec, m: WlMap, lines: seq<string>, max: U32, k: Key)
    requires c.Ok() && k.Valid() && |m| + |lines| <= AsInt(max)
    requires k in m || exists i :: 0 <= i < |lines| && WlOf(c, lines[i]).Some? && WlOf(c, lines[i]).value.0 == k
    requires Normal(k) == k
    ensures k in WlPass(c, m, lines, max)
    decreases lines
  {
    if lines != [] {
      var n := WlStep(c, m, lines[0], max);
      WlStepHolds(c, m, lines[0], max, k);
      if k !in n {
        var i :| 0 <= i < |lines| && WlOf(c, lines[i]).Some? && WlOf(c, lines[i]).value.0 == k;
        assert i > 0 && lines[1..][i - 1] == lines[i];
      }
      WlPassHolds(c, n, lines[1..], max, k);
    }
  }

  lemma BanStepSkipsFour(c: Codec, wl: WlMap, m: BanMap, line: string, now: Clock, hz: nat, max: U32)
    requires c.Ok() && (forall a: Addr :: a.V4? ==> Covered(wl, a)) && forall k :: k in m ==> k.addr.V6?
    ensures forall k :: k in BanStep(c, wl, m, line, now, hz, max) ==> k.addr.V6?
  {
    BanOfValid(c, line);
    if BanOf(c, line).Some? && !Covered(wl, BanOf(c, line).value.key.addr) {
      var n := Revived(BanOf(c, line).value, now, hz);
      assert n.key.addr.Af() == BanOf(c, line).value.key.addr.Af();
      InsertKeepsSix(m, n, now.jiffies, max);
    }
  }

  lemma InsertKeepsSix(m: BanMap, n: Ban, now: nat, max: U32)
    requires n.key.Valid() && n.key.addr.V6? && forall k :: k in m ==> k.addr.V6?
    ensures forall k :: k in Insert(m, n, now, max).0 ==> k.addr.V6?
  {
  }

  /** With all IPv4 addresses whitelisted a ban pass adds no IPv4 ban. */
  lemma {:induction false} BanPassSkipsFour(c: Codec, wl: WlMap, m: BanMap, lines: seq<string>, now: Clock, hz: nat,
                                            max: U32)
    requires c.Ok() && (forall a: Addr :: a.V4? ==> Covered(wl, a)) && forall k :: k in m ==> k.addr.V6?
    ensures forall k :: k in BanPass(c, wl, m, lines, now, hz, max) ==> k.addr.V6?
    decreases lines
  {
    if lines != [] {
      BanStepSkipsFour(c, wl, m, lines[0], now, hz, max);
      BanPassSkipsFour(c, wl, BanStep(c, wl, m, lines[0], now, hz, max), lines[1..], now, hz, max);
    }
  }

  /**
  One such reason in the saved table, whatever else it holds: the restored whitelist covers all of IPv4
  and no IPv4 ban comes back.
  */
  lemma OneReasonLosesAll(c: Codec, rows: seq<Row>, es: seq<Entry>, now: Clock, hz: nat, maxBans: U32, maxWl: U32,
                          i: nat)
    requires c.Ok() && Stored(rows, es) && i < |rows| && rows[i].Live(now.unix) && rows[i].reason == Wiper(c)
    requires |LinesOf(Body(c, rows, es, now.unix))| <= AsInt(maxWl)
    ensures var lines := LinesOf(Body(c, rows, es, now.unix)); var wl := WlPass(c, map[], lines, maxWl);
      && (forall a: Addr :: a.V4? ==> Covered(wl, a))
      && (forall k :: k in BanPass(c, wl, map[], lines, now, hz, maxBans) ==> k.addr.V6?)
  {
    var lines, line := LinesOf(Body(c, rows, es, now.unix)), WlLine(c, Entry(ALL_FOUR, "a"));
    var wl := WlPass(c, map[], lines, maxWl);
    WiperLine(c);
    NewlineForgesLine(c, rows, es, now.unix, i, "x", line);
    WipedCovers(c, lines, line, maxWl);
    BanPassSkipsFour(c, wl, map[], lines, now, hz, maxBans);
  }

  lemma WiperLine(c: Codec)
    requires c.Ok()
    ensures '\n' !in WlLine(c, Entry(ALL_FOUR, "a"))
    ensures WlOf(c, WlLine(c, Entry(ALL_FOUR, "a"))) == Some((ALL_FOUR, DeviceBack("a")))
  {
    WlLineClean(c, Entry(ALL_FOUR, "a"));
    WlLineRead(c, Entry(ALL_FOUR, "a"));
  }

  lemma WipedCovers(c: Codec, lines: seq<string>, line: string, max: U32)
    requires c.Ok() && line in lines && |lines| <= AsInt(max)
    requires WlOf(c, line).Some? && WlOf(c, line).value.0 == ALL_FOUR
    ensures forall a: Addr :: a.V4? ==> Covered(WlPass(c, map[], lines, max), a)
  {
    NormalAll();
    WlPassHolds(c, map[], lines, max, ALL_FOUR);
    forall a: Addr | a.V4? ensures Covered(WlPass(c, map[], lines, max), a) { MatchesMeaning(ALL_FOUR, a); }
  }

  lemma NormalAll()
    ensures ALL_FOUR.Valid() && Normal(ALL_FOUR) == ALL_FOUR
  {
  }
}
