/**
Cutting a snapshot file of fw_state.c: what the search for the last checksum line finds in a saved
file and in every prefix of it, whatever the names in the tables hold.
*/
module SnapshotCut {
  import opened Basics
  import opened Prefix
  import opened BanSpec
  import opened Text
  import opened SnapshotLine
  import opened SnapshotFile
  import Whitelist

  // ---------------------------------------------------------------- the checksum line of a saved file

  lemma EightHexDigits()
    ensures Pow16(CRC_WIDTH) == 0x1_0000_0000
  {
    assert Pow16(4) == 0x1_0000;
  }

  lemma TailShape(c: Codec, body: string)
    ensures var t := Tail(c, body);
      && CRC <= t && '\n' !in t[..|t| - 1] && ScanHex(t[6..]) == Some(Crc(c, body))
  {
    var t, h := Tail(c, body), Hex(Crc(c, body), CRC_WIDTH);
    EightHexDigits();
    LineBack(Crc(c, body), CRC_WIDTH);
    assert t[6..] == h + "\n" && t[..|t| - 1] == CRC + h;
  }

  predicate Ended(s: string) { s != "" && s[|s| - 1] == '\n' }

  lemma {:induction false} UnlinesEnds(lines: seq<string>)
    requires lines != []
    ensures Ended(Unlines(lines))
  {
    if |lines| > 1 { UnlinesEnds(lines[1..]); }
  }

  lemma BodyEnds(c: Codec, rows: seq<Row>, es: seq<Whitelist.Entry>, unix: nat)
    ensures Ended(Body(c, rows, es, unix)) && Body(c, rows, es, unix)[0] == 'F'
  {
    UnlinesEnds(Lines(c, rows, es, unix));
    assert Lines(c, rows, es, unix)[0] == HEADER;
  }

  /** What a mark is, character by character. */
  lemma MarkChars(s: string, p: nat)
    ensures MarkAt(s, p) <==> p + 7 <= |s| && s[p] == '\n' && forall i :: 0 <= i < 6 ==> s[p + 1 + i] == CRC[i]
    ensures forall i :: 0 <= i < 6 ==> CRC[i] != '\n'
  {
    if p + 7 <= |s| && s[p] == '\n' && forall i :: 0 <= i < 6 ==> s[p + 1 + i] == CRC[i] {
      assert s[p + 1..][..6] == CRC;
    }
    if MarkAt(s, p) {
      assert forall i :: 0 <= i < 6 ==> s[p + 1 + i] == s[p + 1..][i] == CRC[i];
    }
  }

  /** A mark does not reach over a newline behind its own. */
  lemma MarkWithin(s: string, p: nat, end: nat)
    requires p < end < |s| && s[end] == '\n'
    ensures MarkAt(s, p) <==> MarkAt(s[..end], p)
  {
    MarkChars(s, p);
    MarkChars(s[..end], p);
    if end < p + 7 { assert s[p + 1 + (end - p - 1)] != CRC[end - p - 1]; }
  }

  /** The marks of a sealed file are those inside the body, and the one before the checksum line. */
  lemma MarkPlace(c: Codec, body: string, p: nat)
    requires Ended(body)
    ensures MarkAt(Sealed(c, body), p) <==> MarkAt(body, p) || p + 1 == |body|
  {
    var text, tail, last := Sealed(c, body), Tail(c, body), |body| - 1;
    TailShape(c, body);
    assert text[|body|..] == tail && text[..last] == body[..last];
    if p < last {
      MarkWithin(text, p, last);
      MarkWithin(body, p, last);
    } else if p > last {
      MarkChars(text, p);
      MarkChars(body, p);
      assert p < |text| - 1 ==> text[p] == tail[p - |body|] && tail[p - |body|] in tail[..|tail| - 1];
    } else {
      MarkChars(body, p);
    }
  }

  lemma SealedLine(c: Codec, body: string)
    requires Ended(body)
    ensures CrcLine(Sealed(c, body)) == Some(|body|)
  {
    forall p: nat ensures MarkAt(Sealed(c, body), p) <==> MarkAt(body, p) || p + 1 == |body| { MarkPlace(c, body, p); }
    LastMarkIs(Sealed(c, body), |Sealed(c, body)|, Some(|body| - 1));
  }

  /** The whole file, as written, is accepted with exactly the body that was written, whatever the names hold. */
  lemma UntruncatedAccepted(c: Codec, rows: seq<Row>, es: seq<Whitelist.Entry>, unix: nat)
    ensures var body := Body(c, rows, es, unix); Verified(c, Sealed(c, body)) == Some(|body|)
  {
    var body := Body(c, rows, es, unix);
    var text := Sealed(c, body);
    BodyEnds(c, rows, es, unix);
    TailShape(c, body);
    SealedLine(c, body);
    assert text[..|body|] == body && text[|body| + 6..] == Tail(c, body)[6..];
  }

  // ---------------------------------------------------------------- every cut

  /** `text`, a prefix of the sealed `body`, is refused or accepted with exactly `body`. */
  predicate Safe(c: Codec, body: string, text: string) {
    Verified(c, text).None? || (Verified(c, text) == Some(|body|) && |body| <= |text| && text[..|body|] == body)
  }

  /** Behind the mark at `p` something scans to the checksum of all before it. */
  ghost predicate Forges(c: Codec, text: string, p: nat)
    requires MarkAt(text, p)
  {
    exists n: nat :: ScansTo(c, text, p, n)
  }

  predicate ScansTo(c: Codec, text: string, p: nat, n: nat)
    requires MarkAt(text, p)
  {
    p + 7 <= n <= |text| && ScanHex(text[p + 7..n]) == Some(Crc(c, text[..p + 1]))
  }

  lemma MarkOfPrefix(text: string, cut: nat, p: nat)
    requires cut <= |text|
    ensures MarkAt(text[..cut], p) <==> MarkAt(text, p) && p + 7 <= cut
  {
    if MarkAt(text[..cut], p) { assert text[p + 1..][..6] == text[..cut][p + 1..][..6]; }
    if MarkAt(text, p) && p + 7 <= cut { assert text[..cut][p + 1..][..6] == text[p + 1..][..6]; }
  }

  /** What an accepted prefix has as its last mark, and what follows it. */
  lemma AcceptedAt(c: Codec, text: string, cut: nat) returns (p: nat)
    requires cut <= |text| && text != "" && text[0] != 'C' && Verified(c, text[..cut]).Some?
    ensures MarkAt(text, p) && p + 7 <= cut && Verified(c, text[..cut]) == Some(p + 1)
    ensures ScansTo(c, text, p, cut)
  {
    var t := text[..cut];
    if t != "" { assert t[0] == text[0] && CRC[0] == 'C'; }
    p := LastMark(t, |t|).value;
    MarkOfPrefix(text, cut, p);
    assert t[p + 1 + 6..] == text[p + 7..cut] && t[..p + 1] == text[..p + 1];
  }

  /** A forged mark is the last one in the prefix that ends with its digits, so that prefix is accepted there. */
  lemma ForgedAccepted(c: Codec, text: string, p: nat) returns (cut: nat)
    requires MarkAt(text, p) && Forges(c, text, p)
    ensures p + 7 <= cut <= |text| && Verified(c, text[..cut]) == Some(p + 1)
  {
    var n: nat :| ScansTo(c, text, p, n);
    var k := ScanStops(text[p + 7..n]);
    cut := p + 7 + k;
    var t := text[..cut];
    assert text[p + 7..n][..k] == text[p + 7..cut] == t[p + 7..] && t[..p + 1] == text[..p + 1];
    MarkOfPrefix(text, cut, p);
    forall q: nat | p < q < cut ensures !MarkAt(t, q) { NoLaterMark(t, p, q); }
    LastMarkIs(t, |t|, Some(p));
  }

  /** No mark lies in blanks and digits: it holds an R. */
  lemma NoLaterMark(t: string, p: nat, q: nat)
    requires MarkAt(t, p) && p < q
    requires forall i :: p + 7 <= i < |t| ==> Space(t[i]) || DigitValue(t[i]) < 16 || t[i] in "xX"
    ensures !MarkAt(t, q)
  {
    MarkChars(t, p);
    MarkChars(t, q);
    if q < p + 7 {
      assert t[p + 1 + (q - p - 1)] == CRC[q - p - 1];
    } else if q + 7 <= |t| {
      assert DigitValue('R') == 16 && CRC[1] == 'R';
      assert t[q + 1 + 1] != CRC[1];
    }
  }

  /**
  Exactly when a saved file can be cut anywhere: no prefix is accepted with less than the saved body if
  and only if behind no mark inside the body anything scans to the checksum of what precedes it.
  */
  lemma CutsSafeIff(c: Codec, rows: seq<Row>, es: seq<Whitelist.Entry>, unix: nat)
    ensures var body := Body(c, rows, es, unix); var text := Sealed(c, body);
      && (forall p: nat :: MarkAt(body, p) ==> MarkAt(text, p))
      && ((forall cut :: 0 <= cut <= |text| ==> Safe(c, body, text[..cut]))
          <==> forall p: nat :: MarkAt(body, p) ==> !Forges(c, text, p))
  {
    var body := Body(c, rows, es, unix);
    var text := Sealed(c, body);
    BodyEnds(c, rows, es, unix);
    forall p: nat ensures MarkAt(text, p) <==> MarkAt(body, p) || p + 1 == |body| { MarkPlace(c, body, p); }
    if forall p: nat :: MarkAt(body, p) ==> !Forges(c, text, p) {
      forall cut | 0 <= cut <= |text| ensures Safe(c, body, text[..cut]) { CutSafe(c, body, cut); }
    }
    if p: nat :| MarkAt(body, p) && Forges(c, text, p) {
      var cut := ForgedAccepted(c, text, p);
      assert !Safe(c, body, text[..cut]);
    }
  }

  lemma CutSafe(c: Codec, body: string, cut: nat)
    requires Ended(body) && body[0] == 'F' && cut <= |Sealed(c, body)|
    requires forall p: nat :: MarkAt(Sealed(c, body), p) <==> MarkAt(body, p) || p + 1 == |body|
    requires forall p: nat :: MarkAt(body, p) ==> !Forges(c, Sealed(c, body), p)
    ensures Safe(c, body, Sealed(c, body)[..cut])
  {
    var text := Sealed(c, body);
    if Verified(c, text[..cut]).Some? {
      var p := AcceptedAt(c, text, cut);
      assert MarkAt(body, p) ==> Forges(c, text, p);
      assert text[..cut][..|body|] == body;
    }
  }

  // ---------------------------------------------------------------- marks come from names

  ghost predicate Marked(s: string) { exists p: nat :: MarkAt(s, p) }

  lemma ShortUnmarked(s: string)
    requires |s| < 7
    ensures !Marked(s)
  {}

  /** A field before the first newline neither holds a mark nor hides one. */
  lemma SepMarked(word: string, rest: string)
    requires '\n' !in word
    ensures Marked(Sep(word, rest)) <==> Marked(rest)
  {
    var s, d := Sep(word, rest), |word| + 1;
    assert s[d..] == rest;
    forall p: nat | p < d ensures !MarkAt(s, p) { assert s[p] == if p < |word| then word[p] else ' '; }
    if p: nat :| MarkAt(s, p) {
      assert s[p + 1..] == rest[p - d + 1..];
      assert MarkAt(rest, p - d);
    }
    if p: nat :| MarkAt(rest, p) {
      assert s[d + p + 1..] == rest[p + 1..];
      assert MarkAt(s, d + p);
    }
  }

  lemma BanLineMarked(c: Codec, r: Row, unix: nat)
    requires c.Ok() && r.Live(unix)
    ensures Marked(BanLine(c, r, unix)) <==> Marked(r.reason)
  {
    var field, left := c.show(r.key.addr) + ['/'] + Dec(r.key.prefix), Dec(r.Remaining(unix));
    AddrFieldWord(c, r.key);
    DecPlain(r.Remaining(unix));
    SepMarked(BanTag(r.key.addr.Af()), BanRest(c, r, unix));
    SepMarked(field, Sep(left, Sep(Jail(r), Reason(r))));
    SepMarked(left, Sep(Jail(r), Reason(r)));
    SepMarked(Jail(r), Reason(r));
    ShortUnmarked("");
    ShortUnmarked("(none)");
  }

  lemma DecPlain(n: nat)
    ensures '\n' !in Dec(n)
  {
    DecBack(n);
  }

  lemma WlLineMarked(c: Codec, e: Whitelist.Entry)
    requires c.Ok()
    ensures Marked(WlLine(c, e)) <==> Marked(e.device)
  {
    assert Word(c.show(e.key.addr));
    DecPlain(e.key.prefix);
    SepMarked(WlTag(e.key.addr.Af()), WlRest(c, e));
    SepMarked(c.show(e.key.addr), Sep(Dec(e.key.prefix), Or(e.device, "api")));
    SepMarked(Dec(e.key.prefix), Or(e.device, "api"));
    ShortUnmarked("");
    ShortUnmarked("api");
  }

  lemma NotAMark(line: string, rest: string)
    requires !(CRC <= line)
    ensures !(CRC <= line + "\n" + rest)
  {
    var s := line + "\n" + rest;
    if |line| < 6 {
      assert s[|line|] == '\n' && CRC[|line|] != '\n';
    } else {
      assert s[..6] == line[..6];
    }
  }

  /** A mark in a line and what follows it is in the line, or in what follows. */
  lemma MarkSplit(line: string, rest: string, p: nat)
    requires !(CRC <= rest)
    ensures MarkAt(line + "\n" + rest, p) <==> MarkAt(line, p) || (p > |line| && MarkAt(rest, p - |line| - 1))
  {
    var s := line + "\n" + rest;
    if p < |line| {
      MarkWithin(s, p, |line|);
      assert s[..|line|] == line;
    } else {
      if p < |s| { assert s[p + 1..] == rest[p - |line|..]; }
    }
  }

  lemma MarkCases(line: string, rest: string)
    requires !(CRC <= rest)
    ensures Marked(line + "\n" + rest) <==> Marked(line) || Marked(rest)
  {
    var s := line + "\n" + rest;
    if p: nat :| MarkAt(s, p) { MarkSplit(line, rest, p); }
    if p: nat :| MarkAt(line, p) { MarkSplit(line, rest, p); }
    if p: nat :| MarkAt(rest, p) { MarkSplit(line, rest, p + |line| + 1); }
  }

  ghost predicate AnyMarked(lines: seq<string>) { exists i :: 0 <= i < |lines| && Marked(lines[i]) }

  predicate NoneStarts(lines: seq<string>) { forall i :: 0 <= i < |lines| ==> !(CRC <= lines[i]) }

  lemma {:induction false} UnlinesMarked(lines: seq<string>)
    requires NoneStarts(lines)
    ensures Marked(Unlines(lines)) <==> AnyMarked(lines)
    ensures !(CRC <= Unlines(lines))
    decreases lines
  {
    if lines == [] {
      ShortUnmarked("");
    } else {
      var rest := lines[1..];
      UnlinesMarked(rest);
      MarkCases(lines[0], Unlines(rest));
      NotAMark(lines[0], Unlines(rest));
      assert Unlines(lines) == lines[0] + "\n" + Unlines(rest);
      AnyMarkedSplit([lines[0]], rest);
      assert lines == [lines[0]] + rest;
    }
  }

  lemma AnyMarkedSplit(a: seq<string>, b: seq<string>)
    ensures AnyMarked(a + b) <==> AnyMarked(a) || AnyMarked(b)
    ensures forall s: string :: AnyMarked([s]) <==> Marked(s)
  {
    forall s: string ensures AnyMarked([s]) <==> Marked(s) { if Marked(s) { assert Marked([s][0]); } }
    if i :| 0 <= i < |a| && Marked(a[i]) { assert Marked((a + b)[i]); }
    if i :| 0 <= i < |b| && Marked(b[i]) { assert Marked((a + b)[|a| + i]); }
  }

  /** Some live row's reason, or some device name, holds a newline and `CRC32 ` right behind it. */
  ghost predicate ReasonMarked(rows: seq<Row>, unix: nat) {
    exists i :: 0 <= i < |rows| && rows[i].Live(unix) && Marked(rows[i].reason)
  }

  ghost predicate DeviceMarked(es: seq<Whitelist.Entry>) { exists i :: 0 <= i < |es| && Marked(es[i].device) }

  lemma ReasonMarkedSnoc(rows: seq<Row>, unix: nat)
    requires rows != []
    ensures var r := rows[|rows| - 1];
      ReasonMarked(rows, unix) <==> ReasonMarked(rows[..|rows| - 1], unix) || (r.Live(unix) && Marked(r.reason))
  {
    var init := rows[..|rows| - 1];
    if i :| 0 <= i < |init| && init[i].Live(unix) && Marked(init[i].reason) { assert rows[i] == init[i]; }
    if i :| 0 <= i < |rows| && rows[i].Live(unix) && Marked(rows[i].reason) {
      assert i < |init| ==> init[i] == rows[i];
    }
  }

  lemma {:induction false} BanLinesMarked(c: Codec, rows: seq<Row>, unix: nat)
    requires c.Ok()
    ensures AnyMarked(BanLines(c, rows, unix)) <==> ReasonMarked(rows, unix)
    ensures NoneStarts(BanLines(c, rows, unix))
    decreases rows
  {
    if rows != [] {
      var init, r := rows[..|rows| - 1], rows[|rows| - 1];
      BanLinesMarked(c, init, unix);
      if r.Live(unix) {
        BanLineMarked(c, r, unix);
        AnyMarkedSplit(BanLines(c, init, unix), [BanLine(c, r, unix)]);
        assert BanLine(c, r, unix)[0] == 'B';
      } else {
        assert BanLines(c, rows, unix) == BanLines(c, init, unix);
      }
      ReasonMarkedSnoc(rows, unix);
    }
  }

  lemma {:induction false} WlLinesMarked(c: Codec, es: seq<Whitelist.Entry>)
    requires c.Ok()
    ensures AnyMarked(WlLines(c, es)) <==> DeviceMarked(es)
    ensures NoneStarts(WlLines(c, es))
    decreases es
  {
    if es != [] {
      var init, e := es[..|es| - 1], es[|es| - 1];
      WlLinesMarked(c, init);
      WlLineMarked(c, e);
      AnyMarkedSplit(WlLines(c, init), [WlLine(c, e)]);
      assert WlLine(c, e)[0] == 'W';
      assert DeviceMarked(es) <==> DeviceMarked(init) || Marked(e.device) by {
        if i :| 0 <= i < |init| && Marked(init[i].device) { assert es[i] == init[i]; }
      }
    }
  }

  /** The body of a saved file holds a mark exactly when a name in it does. */
  lemma BodyMarkedIff(c: Codec, rows: seq<Row>, es: seq<Whitelist.Entry>, unix: nat)
    requires c.Ok()
    ensures Marked(Body(c, rows, es, unix)) <==> ReasonMarked(rows, unix) || DeviceMarked(es)
  {
    var bans, wls := BanLines(c, rows, unix), WlLines(c, es);
    BanLinesMarked(c, rows, unix);
    WlLinesMarked(c, es);
    AnyMarkedSplit([HEADER], bans);
    AnyMarkedSplit([HEADER] + bans, wls);
    assert !Marked(HEADER) by { assert '\n' !in HEADER; }
    assert HEADER[0] == 'F' && CRC[0] == 'C';
    UnlinesMarked(Lines(c, rows, es, unix));
  }

  /** In a saved file the checksum line is the only one that looks like one, unless a name holds a mark. */
  lemma OnlyMark(c: Codec, rows: seq<Row>, es: seq<Whitelist.Entry>, unix: nat)
    requires c.Ok()
    ensures var body := Body(c, rows, es, unix);
      (forall p: nat :: MarkAt(Sealed(c, body), p) <==> p + 1 == |body|)
      <==> !ReasonMarked(rows, unix) && !DeviceMarked(es)
  {
    var body := Body(c, rows, es, unix);
    BodyEnds(c, rows, es, unix);
    BodyMarkedIff(c, rows, es, unix);
    forall p: nat ensures MarkAt(Sealed(c, body), p) <==> MarkAt(body, p) || p + 1 == |body| { MarkPlace(c, body, p); }
    if p: nat :| MarkAt(body, p) { assert p + 1 != |body|; }
  }

  /**
  Unless a name holds a mark, cutting a saved file at any byte either makes the restore refuse it or
  leaves the accepted body exactly the one that was saved.
  */
  lemma TruncationSafe(c: Codec, rows: seq<Row>, es: seq<Whitelist.Entry>, unix: nat, cut: nat)
    requires c.Ok() && !ReasonMarked(rows, unix) && !DeviceMarked(es)
    requires cut <= |Sealed(c, Body(c, rows, es, unix))|
    ensures var body := Body(c, rows, es, unix); Safe(c, body, Sealed(c, body)[..cut])
  {
    BodyMarkedIff(c, rows, es, unix);
    CutsSafeIff(c, rows, es, unix);
  }

  // ---------------------------------------------------------------- a save that a cut gets past

  /** A permanent ban of 8.8.8.8 whose reason, 16 bytes of it, seals all that is written before them. */
  function Forger(c: Codec): Row {
    Row(FORGED_KEY, true, 0, 0, "", "x\n" + CRC + Hex(Crc(c, Before(c)), CRC_WIDTH))
  }

  lemma ForgerOk(c: Codec)
    ensures Forger(c).Ok() && |Forger(c).reason| == 16
  {
    HexPlain(Crc(c, Before(c)), CRC_WIDTH);
  }

  const FORGED_KEY := Key(V4(0x0808_0808), 32)

  /** What is written before the forged checksum line. */
  function Before(c: Codec): string { HEADER + "\n" + BanLine(c, Row(FORGED_KEY, true, 0, 0, "", "x"), 0) + "\n" }

  lemma HexPlain(n: nat, w: nat)
    ensures '\0' !in Hex(n, w) && '\n' !in Hex(n, w)
  {
    if w > 0 {
      HexPlain(n / 16, w - 1);
      DigitBack(n % 16);
    }
  }

  lemma ForgedBody(c: Codec, es: seq<Whitelist.Entry>)
    ensures var line := CRC + Hex(Crc(c, Before(c)), CRC_WIDTH);
      Body(c, [Forger(c)], es, 0) == Before(c) + line + "\n" + Unlines(WlLines(c, es))
  {
    var r, line := Forger(c), CRC + Hex(Crc(c, Before(c)), CRC_WIDTH);
    ForgerLine(c, line);
    assert [r][..0] == [];
    assert BanLines(c, [r], 0) == [BanLine(c, r, 0)];
    assert Lines(c, [r], es, 0) == [HEADER, BanLine(c, r, 0)] + WlLines(c, es);
    UnlinesConcat([HEADER, BanLine(c, r, 0)], WlLines(c, es));
    UnlinesTwo(HEADER, BanLine(c, r, 0));
  }

  lemma ForgerLine(c: Codec, line: string)
    requires line == CRC + Hex(Crc(c, Before(c)), CRC_WIDTH)
    ensures HEADER + "\n" + BanLine(c, Forger(c), 0) == Before(c) + line
  {
    var short := Row(FORGED_KEY, true, 0, 0, "", "x");
    ForgerIs(c, line);
    ReasonTail(c, short, 0, "\n" + line);
    FourParts(HEADER + "\n", BanLine(c, short, 0), line);
  }

  lemma FourParts(head: string, first: string, line: string)
    ensures head + (first + ("\n" + line)) == head + first + "\n" + line
  {}

  lemma ForgerIs(c: Codec, line: string)
    requires line == CRC + Hex(Crc(c, Before(c)), CRC_WIDTH)
    ensures var short := Row(FORGED_KEY, true, 0, 0, "", "x");
      Forger(c) == short.(reason := short.reason + ("\n" + line))
  {
  }

  lemma UnlinesTwo(a: string, b: string)
    ensures Unlines([a, b]) == a + "\n" + b + "\n"
  {
    assert [a, b][1..] == [b] && [b][1..] == [];
    assert Unlines([b]) == b + "\n";
    assert Unlines([a, b]) == a + "\n" + Unlines([b]);
  }

  /**
  A newline in a reason can defeat the checksum, whatever the codec: a table with this one ban and any
  whitelist, saved and cut right behind the reason, is accepted with the whitelist and the end of that
  line gone.
  */
  lemma ForgedCutAccepted(c: Codec, es: seq<Whitelist.Entry>)
    ensures var body := Body(c, [Forger(c)], es, 0); var cut := |Before(c)| + 14;
      && cut < |body| && Verified(c, Sealed(c, body)[..cut]) == Some(|Before(c)|)
      && !Safe(c, body, Sealed(c, body)[..cut])
  {
    var h := Hex(Crc(c, Before(c)), CRC_WIDTH);
    var body := Body(c, [Forger(c)], es, 0);
    ForgedBody(c, es);
    var text := Sealed(c, body)[..|Before(c)| + 14];
    assert text == Before(c) + (CRC + h);
    SealsItself(c, Before(c), h);
  }

  /** Any text that ends a line, with its own checksum behind it, is accepted. */
  lemma SealsItself(c: Codec, s: string, h: string)
    requires Ended(s) && h == Hex(Crc(c, s), CRC_WIDTH)
    ensures Verified(c, s + (CRC + h)) == Some(|s|)
  {
    var text := s + (CRC + h);
    HexScans(Crc(c, s), h);
    HexPlain(Crc(c, s), CRC_WIDTH);
    LineAtEnd(s, h);
    assert text[..|s|] == s && text[|s| + 6..] == h;
  }

  lemma HexScans(n: nat, h: string)
    requires n < 0x1_0000_0000 && h == Hex(n, CRC_WIDTH)
    ensures ScanHex(h) == Some(n)
  {
    EightHexDigits();
    HexBack(n, CRC_WIDTH);
    assert h + "" == h;
    ScanDigits(h, "");
    Text.Fits32(n);
  }

  lemma LineAtEnd(s: string, h: string)
    requires Ended(s) && '\n' !in h
    ensures CrcLine(s + (CRC + h)) == Some(|s|)
  {
    var text := s + (CRC + h);
    assert text[|s|..] == CRC + h;
    forall q: nat | |s| - 1 < q ensures !MarkAt(text, q) {
      if q < |text| { assert text[q] == (CRC + h)[q - |s|]; }
    }
    LastMarkIs(text, |text|, Some(|s| - 1));
  }
}
