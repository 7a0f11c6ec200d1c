/**
The snapshot file of fw_state.c: a header line, the live bans, the whitelist, and a CRC-32 line over
everything before it. The checksum is a fold of an arbitrary byte step, complemented.
*/
module SnapshotFile {
  import opened Basics
  import opened Prefix
  import opened BanSpec
  import opened Text
  import opened SnapshotLine
  import BanTable
  import Paging
  import Whitelist

  const HEADER := "FW_STATE 2"
  const CRC := "CRC32 "
  const CRC_WIDTH: nat := 8
  const SEED: U32 := 0xffff_ffff
  const PAGE: nat := 64

  function Fold(step: (U32, char) -> U32, crc: U32, s: string): U32 {
    if s == "" then crc else step(Fold(step, crc, s[..|s| - 1]), s[|s| - 1])
  }

  /** Folding chunk by chunk is folding the whole. */
  lemma {:induction false} FoldChunks(step: (U32, char) -> U32, crc: U32, a: string, b: string)
    ensures Fold(step, Fold(step, crc, a), b) == Fold(step, crc, a + b)
  {
    if b == "" {
      assert a + b == a;
    } else {
      assert (a + b)[..|a + b| - 1] == a + b[..|b| - 1];
      FoldChunks(step, crc, a, b[..|b| - 1]);
    }
  }

  /** The stored checksum: the complement of the fold. */
  function Crc(c: Codec, s: string): U32 { 0xffff_ffff - Fold(c.crc, SEED, s) }

  // ---------------------------------------------------------------- what a save writes

  /** The rows still live at second `unix`, one line each, in table order. */
  function BanLines(c: Codec, rows: seq<Row>, unix: nat): seq<string> {
    if rows == [] then []
    else
      var r := rows[|rows| - 1];
      BanLines(c, rows[..|rows| - 1], unix) + if r.Live(unix) then [BanLine(c, r, unix)] else []
  }

  function WlLines(c: Codec, es: seq<Whitelist.Entry>): seq<string> {
    if es == [] then [] else WlLines(c, es[..|es| - 1]) + [WlLine(c, es[|es| - 1])]
  }

  /** The same as text, by number of rows written. */
  function BansText(c: Codec, rows: seq<Row>, n: nat, unix: nat): string
    requires n <= |rows|
  {
    if n == 0 then ""
    else if rows[n - 1].Live(unix) then BansText(c, rows, n - 1, unix) + (BanLine(c, rows[n - 1], unix) + "\n")
    else BansText(c, rows, n - 1, unix)
  }

  function WlText(c: Codec, es: seq<Whitelist.Entry>, n: nat): string
    requires n <= |es|
  {
    if n == 0 then "" else WlText(c, es, n - 1) + (WlLine(c, es[n - 1]) + "\n")
  }

  function Capped<T>(s: seq<T>, max: nat): seq<T> { if |s| <= max then s else s[..max] }

  function Lines(c: Codec, rows: seq<Row>, es: seq<Whitelist.Entry>, unix: nat): seq<string> {
    [HEADER] + BanLines(c, rows, unix) + WlLines(c, es)
  }

  function Body(c: Codec, rows: seq<Row>, es: seq<Whitelist.Entry>, unix: nat): string {
    Unlines(Lines(c, rows, es, unix))
  }

  /** The checksum line. */
  function Tail(c: Codec, body: string): string { CRC + Hex(Crc(c, body), CRC_WIDTH) + "\n" }

  function Sealed(c: Codec, body: string): string { body + Tail(c, body) }

  lemma {:induction false} BansTextIsLines(c: Codec, rows: seq<Row>, n: nat, unix: nat)
    requires n <= |rows|
    ensures BansText(c, rows, n, unix) == Unlines(BanLines(c, rows[..n], unix))
    decreases n
  {
    if n > 0 {
      BansTextIsLines(c, rows, n - 1, unix);
      assert rows[..n][..n - 1] == rows[..n - 1];
      var last := if rows[n - 1].Live(unix) then [BanLine(c, rows[n - 1], unix)] else [];
      UnlinesConcat(BanLines(c, rows[..n - 1], unix), last);
    }
  }

  lemma {:induction false} WlTextIsLines(c: Codec, es: seq<Whitelist.Entry>, n: nat)
    requires n <= |es|
    ensures WlText(c, es, n) == Unlines(WlLines(c, es[..n]))
    decreases n
  {
    if n > 0 {
      WlTextIsLines(c, es, n - 1);
      assert es[..n][..n - 1] == es[..n - 1] && es[..n][n - 1] == es[n - 1];
      assert Unlines([WlLine(c, es[n - 1])]) == WlLine(c, es[n - 1]) + "\n";
      UnlinesConcat(WlLines(c, es[..n - 1]), [WlLine(c, es[n - 1])]);
    }
  }

  lemma BodyInPieces(c: Codec, rows: seq<Row>, es: seq<Whitelist.Entry>, unix: nat, maxBans: nat, maxWl: nat)
    ensures Body(c, Capped(rows, maxBans), Capped(es, maxWl), unix)
            == HEADER + "\n" + BansText(c, rows, Least(|rows|, maxBans), unix) + WlText(c, es, Least(|es|, maxWl))
  {
    var bans, wl := BanLines(c, Capped(rows, maxBans), unix), WlLines(c, Capped(es, maxWl));
    assert Capped(rows, maxBans) == rows[..Least(|rows|, maxBans)] && Capped(es, maxWl) == es[..Least(|es|, maxWl)];
    BansTextIsLines(c, rows, Least(|rows|, maxBans), unix);
    WlTextIsLines(c, es, Least(|es|, maxWl));
    UnlinesConcat([HEADER] + bans, wl);
    UnlinesConcat([HEADER], bans);
    assert Unlines([HEADER]) == HEADER + "\n";
  }

  /** fw_ban_fill_entries: the rows of a page are the rows of the table at that offset. */
  lemma BanPage(bs: seq<Ban>, offset: nat, now: Clock, hz: nat)
    requires hz > 0
    ensures PageOf(RowsOf(Paging.Page(bs, offset, PAGE), now, hz), RowsOf(bs, now, hz), offset) || offset > |bs|
  {
    var page := Paging.Page(bs, offset, PAGE);
    forall i | 0 <= i < |page| ensures offset + i < |bs| && page[i] == bs[offset + i] {
      Paging.PageAt(bs, offset, PAGE, i);
    }
  }

  ghost predicate PageOf<T>(rows: seq<T>, all: seq<T>, offset: nat) {
    offset + |rows| <= |all| && forall i :: 0 <= i < |rows| ==> rows[i] == all[offset + i]
  }

  lemma Associative(a: string, b: string, c: string)
    ensures a + b + c == a + (b + c)
  {}

  /** fw_state_save's open temporary file. */
  class Writer {
    const codec: Codec
    var file: string
    var crc: U32

    constructor (codec: Codec)
      ensures this.codec == codec && file == "" && Synced()
    {
      this.codec, file, crc := codec, "", SEED;
    }

    /** The running checksum is that of the bytes in the file. */
    predicate Synced()
      reads this
    {
      crc == Fold(codec.crc, SEED, file)
    }

    method WriteChunk(buf: string)
      requires Synced()
      modifies this
      ensures Synced() && file == old(file) + buf
    {
      FoldChunks(codec.crc, SEED, file, buf);
      file := file + buf;
      var i := 0;
      ghost var was := crc;
      while i < |buf|
        invariant 0 <= i <= |buf| && crc == Fold(codec.crc, was, buf[..i]) && file == old(file) + buf
      {
        assert buf[..i + 1][..i] == buf[..i];
        crc := codec.crc(crc, buf[i]);
        i := i + 1;
      }
      assert buf[..i] == buf;
    }

    /** The first `n` rows are in the file, behind what `base` says was there before. */
    ghost predicate WroteBans(base: string, all: seq<Row>, n: nat, unix: nat)
      reads this
    {
      n <= |all| && file == base + BansText(codec, all, n, unix)
    }

    ghost predicate WroteWl(base: string, all: seq<Whitelist.Entry>, n: nat)
      reads this
    {
      n <= |all| && file == base + WlText(codec, all, n)
    }

    method WriteBan(ghost base: string, ghost all: seq<Row>, ghost n: nat, r: Row, unix: nat)
      requires Synced() && n < |all| && r == all[n] && WroteBans(base, all, n, unix)
      modifies this
      ensures Synced() && WroteBans(base, all, n + 1, unix)
    {
      if r.Live(unix) {
        ghost var line := BanLine(codec, r, unix) + "\n";
        WriteChunk(BanLine(codec, r, unix) + "\n");
        Associative(base, BansText(codec, all, n, unix), line);
      }
    }

    method WriteWl(ghost base: string, ghost all: seq<Whitelist.Entry>, ghost n: nat, e: Whitelist.Entry)
      requires Synced() && n < |all| && e == all[n] && WroteWl(base, all, n)
      modifies this
      ensures Synced() && WroteWl(base, all, n + 1)
    {
      ghost var line := WlLine(codec, e) + "\n";
      WriteChunk(WlLine(codec, e) + "\n");
      Associative(base, WlText(codec, all, n), line);
    }

    /** The rows of one page, stopping when `max` rows are done. */
    method WriteBanPage(ghost base: string, ghost all: seq<Row>, offset: nat, rows: seq<Row>, unix: nat, max: U32)
      returns (full: bool, ghost done: nat)
      requires Synced() && offset <= |all| && offset <= max && PageOf(rows, all, offset)
      requires WroteBans(base, all, offset, unix)
      modifies this
      ensures Synced() && offset <= done <= offset + |rows| && done <= max
      ensures if full then done == max < offset + |rows| else done == offset + |rows|
      ensures WroteBans(base, all, done, unix)
    {
      var i := 0;
      full, done := false, offset;
      while i < |rows|
        invariant 0 <= i <= |rows| && Synced() && done == offset + i <= max
        invariant WroteBans(base, all, done, unix)
      {
        if offset + i >= max { return true, done; }
        assert rows[i] == all[offset + i];
        WriteBan(base, all, done, rows[i], unix);
        done, i := done + 1, i + 1;
      }
    }

    method WriteWlPage(ghost base: string, ghost all: seq<Whitelist.Entry>, offset: nat, rows: seq<Whitelist.Entry>,
                       max: U32)
      returns (full: bool, ghost done: nat)
      requires Synced() && offset <= |all| && offset <= max && PageOf(rows, all, offset)
      requires WroteWl(base, all, offset)
      modifies this
      ensures Synced() && offset <= done <= offset + |rows| && done <= max
      ensures if full then done == max < offset + |rows| else done == offset + |rows|
      ensures WroteWl(base, all, done)
    {
      var i := 0;
      full, done := false, offset;
      while i < |rows|
        invariant 0 <= i <= |rows| && Synced() && done == offset + i <= max
        invariant WroteWl(base, all, done)
      {
        if offset + i >= max { return true, done; }
        assert rows[i] == all[offset + i];
        WriteWl(base, all, done, rows[i]);
        done, i := done + 1, i + 1;
      }
    }

    /** fw_state_write_bans: read the table 64 rows a page, write at most `max` rows. */
    method WriteBans(bans: BanTable.Table, now: Clock, hz: nat, max: U32)
      requires Synced() && hz > 0
      modifies this
      ensures Synced() && file == old(file) + BansText(codec, RowsOf(bans.Enumeration(), now, hz),
                                                       Least(|bans.Enumeration()|, max), now.unix)
    {
      ghost var base, all := file, RowsOf(bans.Enumeration(), now, hz);
      var offset := 0;
      ghost var done := 0;
      while true
        invariant Synced() && done == offset <= |all| && offset <= max
        invariant WroteBans(base, all, done, now.unix)
        decreases |all| - offset
      {
        var page := bans.FillEntries(offset, PAGE);
        BanPage(bans.Enumeration(), offset, now, hz);
        var full;
        full, done := WriteBanPage(base, all, offset, RowsOf(page, now, hz), now.unix, max);
        if full || |page| < PAGE { break; }
        offset := offset + |page|;
      }
      assert done == Least(|all|, max);
    }

    /** fw_state_write_whitelist */
    method WriteWhitelist(wl: Whitelist.Table, max: U32)
      requires Synced()
      modifies this
      ensures Synced() && file == old(file) + WlText(codec, wl.Enumeration(), Least(|wl.Enumeration()|, max))
    {
      ghost var base, all := file, wl.Enumeration();
      var offset := 0;
      ghost var done := 0;
      while true
        invariant Synced() && done == offset <= |all| && offset <= max
        invariant WroteWl(base, all, done)
        decreases |all| - offset
      {
        var rows := wl.FillEntries(offset, PAGE);
        var full;
        full, done := WriteWlPage(base, all, offset, rows, max);
        if full || |rows| < PAGE { break; }
        offset := offset + |rows|;
      }
      assert done == Least(|all|, max);
    }

    method WriteTail()
      requires Synced()
      modifies this
      ensures file == Sealed(codec, old(file))
    {
      file := file + (CRC + Hex(0xffff_ffff - crc, CRC_WIDTH) + "\n");
    }

    /** fw_state_save: the checksum line is written last and is not part of the checksum. */
    method Save(bans: BanTable.Table, wl: Whitelist.Table, now: Clock, hz: nat, maxBans: U32, maxWl: U32)
      requires file == "" && Synced() && hz > 0
      modifies this
      ensures file == Sealed(codec, Body(codec, Capped(RowsOf(bans.Enumeration(), now, hz), maxBans),
                                         Capped(wl.Enumeration(), maxWl), now.unix))
    {
      WriteChunk(HEADER + "\n");
      assert file == HEADER + "\n";
      WriteBans(bans, now, hz, maxBans);
      WriteWhitelist(wl, maxWl);
      BodyInPieces(codec, RowsOf(bans.Enumeration(), now, hz), wl.Enumeration(), now.unix, maxBans, maxWl);
      WriteTail();
    }
  }

  // ---------------------------------------------------------------- what a restore accepts

  /** A checksum line starts right after position `p`. */
  predicate MarkAt(s: string, p: nat) { p < |s| && s[p] == '\n' && CRC <= s[p + 1..] }

  /** The last mark before `n`. */
  function LastMark(s: string, n: nat): (r: Option<nat>)
    ensures r.None? ==> forall p: nat :: p < n ==> !MarkAt(s, p)
    ensures r.Some? ==> r.value < n && MarkAt(s, r.value) && forall p: nat :: r.value < p < n ==> !MarkAt(s, p)
  {
    if n == 0 then None else if MarkAt(s, n - 1) then Some(n - 1) else LastMark(s, n - 1)
  }

  /** Where the checksum line starts. */
  function CrcLine(text: string): (r: Option<nat>)
    ensures r.Some? ==> r.value + 6 <= |text|
  {
    match LastMark(text, |text|)
    case Some(p) => Some(p + 1)
    case None => if CRC <= text then Some(0) else None
  }

  /** fw_state_verify_crc: the length of the body, None when the restore is refused. */
  function Verified(c: Codec, text: string): (r: Option<nat>)
    ensures r.Some? ==> r.value <= |text|
  {
    match CrcLine(text)
    case None => None
    case Some(body) =>
      match ScanHex(text[body + 6..])
      case None => None
      case Some(stored) => if Crc(c, text[..body]) == stored then Some(body) else None
  }

  /** strnstr from `from` for the mark. */
  method NextMark(s: string, from: nat) returns (r: Option<nat>)
    requires from <= |s|
    ensures r.None? ==> forall p: nat :: from <= p ==> !MarkAt(s, p)
    ensures r.Some? ==> from <= r.value && MarkAt(s, r.value) && forall p: nat :: from <= p < r.value ==> !MarkAt(s, p)
  {
    var p := from;
    while p < |s|
      invariant from <= p <= |s| && forall q: nat :: from <= q < p ==> !MarkAt(s, q)
    {
      if s[p] == '\n' && CRC <= s[p + 1..] { return Some(p); }
      p := p + 1;
    }
    r := None;
  }

  lemma LastMarkIs(s: string, n: nat, r: Option<nat>)
    requires r.None? ==> forall p: nat :: p < n ==> !MarkAt(s, p)
    requires r.Some? ==> r.value < n && MarkAt(s, r.value) && forall p: nat :: r.value < p < n ==> !MarkAt(s, p)
    ensures LastMark(s, n) == r
  {
  }

  /** The strnstr loop: search again right behind each mark until there is none. */
  method FindLastMark(text: string) returns (last: Option<nat>)
    ensures last == LastMark(text, |text|)
  {
    last := None;
    var next := NextMark(text, 0);
    while next.Some?
      invariant last.Some? ==> last.value < |text| && MarkAt(text, last.value)
      invariant next.None? ==> forall q: nat :: (if last.Some? then last.value < q else true) ==> !MarkAt(text, q)
      invariant next.Some? ==> MarkAt(text, next.value)
      decreases if next.Some? then |text| - next.value else 0
    {
      last := next;
      next := NextMark(text, last.value + 1);
    }
    LastMarkIs(text, |text|, last);
  }

  method FindCrcLine(text: string) returns (r: Option<nat>)
    ensures r == CrcLine(text)
  {
    var last := FindLastMark(text);
    match last {
      case Some(at) => r := Some(at + 1);
      case None => r := if CRC <= text then Some(0) else None;
    }
  }

  method VerifyCrc(c: Codec, text: string) returns (r: Option<nat>)
    ensures r == Verified(c, text)
  {
    var at := FindCrcLine(text);
    if at.None? { return None; }
    var stored := ScanHex(text[at.value + 6..]);
    if stored.None? { return None; }
    r := if Crc(c, text[..at.value]) == stored.value then at else None;
  }

  // ---------------------------------------------------------------- names and lines

  lemma {:induction false} BanLinesClean(c: Codec, rows: seq<Row>, unix: nat)
    requires c.Ok() && forall i :: 0 <= i < |rows| ==> rows[i].Ok() && '\n' !in rows[i].reason
    ensures forall i :: 0 <= i < |BanLines(c, rows, unix)| ==> Clean(BanLines(c, rows, unix)[i])
    decreases rows
  {
    if rows != [] {
      var r := rows[|rows| - 1];
      BanLinesClean(c, rows[..|rows| - 1], unix);
      if r.Live(unix) { BanLineClean(c, r, unix); }
    }
  }

  lemma {:induction false} WlLinesClean(c: Codec, es: seq<Whitelist.Entry>)
    requires c.Ok()
    requires forall i :: 0 <= i < |es| ==> Name(es[i].device, Whitelist.DEVICE_LEN) && '\n' !in es[i].device
    ensures forall i :: 0 <= i < |WlLines(c, es)| ==> Clean(WlLines(c, es)[i])
    decreases es
  {
    if es != [] {
      WlLinesClean(c, es[..|es| - 1]);
      WlLineClean(c, es[|es| - 1]);
    }
  }

  /** Keys and names as the buffers of the tables hold them. */
  predicate Stored(rows: seq<Row>, es: seq<Whitelist.Entry>) {
    && (forall i :: 0 <= i < |rows| ==> rows[i].Ok())
    && (forall i :: 0 <= i < |es| ==> es[i].key.Valid() && Name(es[i].device, Whitelist.DEVICE_LEN))
  }

  /** The same without the newlines that would break a line. */
  predicate Saveable(rows: seq<Row>, es: seq<Whitelist.Entry>) {
    && Stored(rows, es)
    && (forall i :: 0 <= i < |rows| ==> '\n' !in rows[i].reason)
    && (forall i :: 0 <= i < |es| ==> '\n' !in es[i].device)
  }

  lemma LinesClean(c: Codec, rows: seq<Row>, es: seq<Whitelist.Entry>, unix: nat)
    requires c.Ok() && Saveable(rows, es)
    ensures forall i :: 0 <= i < |Lines(c, rows, es, unix)| ==> Clean(Lines(c, rows, es, unix)[i])
  {
    BanLinesClean(c, rows, unix);
    WlLinesClean(c, es);
    assert Clean(HEADER);
  }
}
