/** One line of the snapshot file of fw_state.c: how a table row is printed and how a line is read back. */
module SnapshotLine {
  import opened Basics
  import opened Prefix
  import opened BanSpec
  import opened Text
  import Whitelist

  /** Longest remaining time a restore accepts. */
  const YEAR: nat := 365 * 24 * 60 * 60

  /** What the kernel library supplies: address text both ways, and one byte step of crc32_le. */
  datatype Codec = Codec(show: Addr -> string, read: (Family, string) -> Option<Addr>, crc: (U32, char) -> U32) {
    ghost predicate Ok() {
      && (forall a :: Word(show(a)) && |show(a)| <= 39 && read(a.Af(), show(a)) == Some(a))
      && (forall af, s :: read(af, s).Some? ==> read(af, s).value.Af() == af)
    }
  }

  /** One field of a line without a slash; one line; the contents of a `size`-byte name buffer. */
  predicate Word(s: string) { ' ' !in s && '/' !in s && Clean(s) }
  predicate Clean(s: string) { '\n' !in s && '\0' !in s }
  predicate Name(s: string, size: nat) { |s| < size && '\0' !in s }

  /** struct fw_ban_row */
  datatype Row = Row(key: Key, permanent: bool, duration: U32, bannedAt: int, jail: string, reason: string) {
    predicate Ok() { key.Valid() && Name(jail, NAME_LEN) && Name(reason, NAME_LEN) }

    /** Not yet expired at wall-clock second `unix`. */
    predicate Live(unix: nat) { permanent || unix < bannedAt + duration }

    /** What is printed: 0 for a permanent ban. */
    function Remaining(unix: nat): nat
      requires Live(unix)
    {
      if permanent then 0 else bannedAt + duration - unix
    }
  }

  /** fw_ban_fill_entries on one entry; the start is converted from jiffies to seconds. */
  function RowOf(b: Ban, now: Clock, hz: nat): Row
    requires hz > 0
  {
    Row(b.key, b.permanent, b.duration, now.unix - (now.jiffies - b.bannedAt) / hz, b.jail, b.reason)
  }

  function RowsOf(bs: seq<Ban>, now: Clock, hz: nat): (rows: seq<Row>)
    requires hz > 0
    ensures |rows| == |bs| && forall i :: 0 <= i < |bs| ==> rows[i] == RowOf(bs[i], now, hz)
  {
    seq(|bs|, i requires 0 <= i < |bs| => RowOf(bs[i], now, hz))
  }

  /**
  The second-granular test on a row agrees with the entry's own deadline, and the remaining time is
  that deadline rounded up to a second.
  */
  lemma RowKeepsDeadline(b: Ban, now: Clock, hz: nat)
    requires hz > 0 && !b.permanent && 0 <= b.bannedAt <= now.jiffies && b.deadline == b.bannedAt + b.duration * hz
    ensures RowOf(b, now, hz).Live(now.unix) <==> !b.Expired(now.jiffies)
    ensures !b.Expired(now.jiffies) ==>
              var left := RowOf(b, now, hz).Remaining(now.unix);
              b.deadline <= now.jiffies + left * hz < b.deadline + hz
  {
    var age := now.jiffies - b.bannedAt;
    DivBounds(age, hz, b.duration);
    if !b.Expired(now.jiffies) {
      var left := RowOf(b, now, hz).Remaining(now.unix);
      assert left == b.duration - age / hz;
      assert left * hz == b.duration * hz - age / hz * hz;
    }
  }

  lemma DivBounds(n: nat, d: nat, q: nat)
    requires d > 0
    ensures n / d * d <= n < n / d * d + d
    ensures n / d < q <==> n < q * d
  {
    var t := n / d;
    assert n == t * d + n % d;
    if t < q {
      TimesMonotone(t + 1, q, d);
      assert (t + 1) * d == t * d + d;
    } else {
      TimesMonotone(q, t, d);
    }
  }

  // ---------------------------------------------------------------- printing

  function Sep(word: string, rest: string): string { word + [' '] + rest }

  /** fw_state_sanitize_field */
  function Sanitized(s: string): (r: string)
    ensures |r| == |s| && ' ' !in r && '\n' !in r && ('\0' !in s ==> '\0' !in r)
    ensures forall i :: 0 <= i < |s| ==> r[i] == if s[i] in " \t\n\r" then '_' else s[i]
  {
    seq(|s|, i requires 0 <= i < |s| => if s[i] in " \t\n\r" then '_' else s[i])
  }

  function Or(s: string, def: string): string { if s == "" then def else s }

  function Jail(r: Row): string { Or(Sanitized(r.jail), "api") }
  function Reason(r: Row): string { Or(r.reason, "(none)") }

  function BanTag(af: Family): string { if af.Inet6? then "BAN_V6" else "BAN_V4" }
  function WlTag(af: Family): string { if af.Inet6? then "WL_V6" else "WL_V4" }

  function BanRest(c: Codec, r: Row, unix: nat): string
    requires r.Live(unix)
  {
    Sep(c.show(r.key.addr) + ['/'] + Dec(r.key.prefix), Sep(Dec(r.Remaining(unix)), Sep(Jail(r), Reason(r))))
  }

  function BanLine(c: Codec, r: Row, unix: nat): string
    requires r.Live(unix)
  {
    Sep(BanTag(r.key.addr.Af()), BanRest(c, r, unix))
  }

  function WlRest(c: Codec, e: Whitelist.Entry): string {
    Sep(c.show(e.key.addr), Sep(Dec(e.key.prefix), Or(e.device, "api")))
  }

  function WlLine(c: Codec, e: Whitelist.Entry): string { Sep(WlTag(e.key.addr.Af()), WlRest(c, e)) }

  /** The two kinds of line, field by field. */
  lemma BanLineFormat(c: Codec, r: Row, unix: nat)
    requires r.Live(unix)
    ensures BanLine(c, r, unix)
            == (if r.key.addr.V6? then "BAN_V6" else "BAN_V4") + " " + c.show(r.key.addr) + "/" + Dec(r.key.prefix)
               + " " + Dec(r.Remaining(unix)) + " " + Jail(r) + " " + Reason(r)
  {
  }

  lemma WlLineFormat(c: Codec, e: Whitelist.Entry)
    ensures WlLine(c, e)
            == (if e.key.addr.V6? then "WL_V6" else "WL_V4") + " " + c.show(e.key.addr) + " " + Dec(e.key.prefix)
               + " " + (if e.device == "" then "api" else e.device)
  {
  }

  lemma SepTail(word: string, rest: string, tail: string)
    ensures Sep(word, rest + tail) == Sep(word, rest) + tail
  {}

  /** The reason is the end of a ban line. */
  lemma ReasonTail(c: Codec, r: Row, unix: nat, tail: string)
    requires r.Live(unix) && r.reason != ""
    ensures BanLine(c, r.(reason := r.reason + tail), unix) == BanLine(c, r, unix) + tail
  {
    var field, left := c.show(r.key.addr) + ['/'] + Dec(r.key.prefix), Dec(r.Remaining(unix));
    SepTail(Jail(r), r.reason, tail);
    SepTail(left, Sep(Jail(r), r.reason), tail);
    SepTail(field, Sep(left, Sep(Jail(r), r.reason)), tail);
    SepTail(BanTag(r.key.addr.Af()), BanRest(c, r, unix), tail);
  }

  /** What a ban line holds before its reason. */
  function BeforeReason(c: Codec, r: Row, unix: nat): string
    requires r.Live(unix)
  {
    var field, left := c.show(r.key.addr) + ['/'] + Dec(r.key.prefix), Dec(r.Remaining(unix));
    Sep(BanTag(r.key.addr.Af()), Sep(field, Sep(left, Sep(Jail(r), ""))))
  }

  lemma ReasonEnds(c: Codec, r: Row, unix: nat)
    requires r.Live(unix)
    ensures BanLine(c, r, unix) == BeforeReason(c, r, unix) + Reason(r)
  {
    var field, left := c.show(r.key.addr) + ['/'] + Dec(r.key.prefix), Dec(r.Remaining(unix));
    SepTail(Jail(r), "", Reason(r));
    assert "" + Reason(r) == Reason(r);
    SepTail(left, Sep(Jail(r), ""), Reason(r));
    SepTail(field, Sep(left, Sep(Jail(r), "")), Reason(r));
    SepTail(BanTag(r.key.addr.Af()), Sep(field, Sep(left, Sep(Jail(r), ""))), Reason(r));
  }

  // ---------------------------------------------------------------- reading

  /** Tag and fields of a line; None for a line the restore skips. */
  function Cut(line: string): Option<(string, string)> {
    var i := IndexOf(line, ' ');
    if i == |line| || i == 0 then None else Some((line[..i], line[i + 1..]))
  }

  datatype BanText = BanText(key: Key, remaining: nat, jail: string, reason: string)

  /** The address field: host part, and prefix length after a slash, else the full length. */
  function ParseAddr(c: Codec, af: Family, tok: string): Option<Key> {
    var i := IndexOf(tok, '/');
    var prefix := if i == |tok| then Some(MaxPrefix(af)) else ParseUnsigned(tok[i + 1..], 0xffff_ffff);
    var addr := c.read(af, tok[..i]);
    if prefix.None? || prefix.value > MaxPrefix(af) || addr.None? then None else Some(Key(addr.value, prefix.value))
  }

  /** The parsing half of fw_state_restore_ban. */
  function ParseBan(c: Codec, af: Family, rest: string): Option<BanText> {
    var tok := Strsep(Some(rest), ' ');
    var time := Strsep(tok.1, ' ');
    var jail := Strsep(time.1, ' ');
    var key := ParseAddr(c, af, tok.0.value);
    if key.None? || time.0.None? then None
    else
      var remaining := ParseUnsigned(time.0.value, 0xffff_ffff_ffff_ffff);
      if remaining.None? || remaining.value > YEAR then None
      else Some(BanText(key.value, remaining.value,
                        if jail.0.Some? then Or(jail.0.value, "api") else "api",
                        if jail.1.Some? then Or(jail.1.value, "restored") else "restored"))
  }

  lemma ParsedBanValid(c: Codec, af: Family, rest: string)
    requires c.Ok()
    ensures var r := ParseBan(c, af, rest); r.Some? ==> r.value.key.Valid() && r.value.remaining <= YEAR
  {
  }

  /** The parsing half of fw_state_restore_wl. */
  function ParseWl(c: Codec, af: Family, rest: string): Option<(Key, string)> {
    var tok := Strsep(Some(rest), ' ');
    var prefix := Strsep(tok.1, ' ');
    var device := Strsep(prefix.1, ' ').0;
    var addr := c.read(af, tok.0.value);
    if addr.None? || prefix.0.None? then None
    else
      var plen := ParseInt(prefix.0.value);
      if plen.None? || plen.value < 0 || plen.value > MaxPrefix(af) then None
      else Some((Key(addr.value, plen.value), if device.Some? then Or(device.value, "restored") else "restored"))
  }

  // ---------------------------------------------------------------- round trips of single lines

  lemma CutSep(word: string, rest: string)
    requires word != "" && ' ' !in word
    ensures Cut(Sep(word, rest)) == Some((word, rest))
  {
    StrsepAt(word, ' ', rest);
  }

  lemma ParseAddrBack(c: Codec, k: Key)
    requires c.Ok() && k.Valid()
    ensures ParseAddr(c, k.addr.Af(), c.show(k.addr) + ['/'] + Dec(k.prefix)) == Some(k)
  {
    var s := c.show(k.addr);
    var t := s + ['/'] + Dec(k.prefix);
    assert Word(s);
    IndexUnique(t, '/', |s|) by { assert t[..|s|] == s; }
    assert t[..|s|] == s && t[|s| + 1..] == Dec(k.prefix);
    ParseBack(k.prefix, 0xffff_ffff);
  }

  /** An address without a slash, as version 1 files have it, is one host. */
  lemma ParseHostBack(c: Codec, a: Addr)
    requires c.Ok()
    ensures ParseAddr(c, a.Af(), c.show(a)) == Some(Key(a, MaxPrefix(a.Af())))
  {
    var s := c.show(a);
    assert Word(s);
    assert s[..|s|] == s;
    IndexUnique(s, '/', |s|);
  }

  /** A prefix longer than the family's is refused. */
  lemma ParseAddrTooLong(c: Codec, a: Addr, prefix: nat)
    requires c.Ok() && MaxPrefix(a.Af()) < prefix
    ensures ParseAddr(c, a.Af(), c.show(a) + ['/'] + Dec(prefix)) == None
  {
    var s := c.show(a);
    var t := s + ['/'] + Dec(prefix);
    assert Word(s);
    IndexUnique(t, '/', |s|) by { assert t[..|s|] == s; }
    assert t[|s| + 1..] == Dec(prefix);
    if prefix <= 0xffff_ffff { ParseBack(prefix, 0xffff_ffff); } else { ParseOver(prefix, 0xffff_ffff); }
  }

  /** A line may end behind the remaining time or behind the jail; what is missing gets a default name. */
  lemma ShortLines(c: Codec, a: Addr, left: nat, jail: string)
    requires c.Ok() && left <= YEAR && jail != "" && ' ' !in jail
    ensures var host := Key(a, MaxPrefix(a.Af()));
      && ParseBan(c, a.Af(), Sep(c.show(a), Dec(left))) == Some(BanText(host, left, "api", "restored"))
      && ParseBan(c, a.Af(), Sep(c.show(a), Sep(Dec(left), jail))) == Some(BanText(host, left, jail, "restored"))
      && ParseBan(c, a.Af(), c.show(a)) == None
  {
    assert Word(c.show(a));
    ParseHostBack(c, a);
    DecBack(left);
    ParseBack(left, 0xffff_ffff_ffff_ffff);
    StrsepAt(c.show(a), ' ', Dec(left));
    StrsepAt(Dec(left), ' ', "");
    StrsepAt(c.show(a), ' ', Sep(Dec(left), jail));
    StrsepAt(Dec(left), ' ', jail);
    StrsepAt(jail, ' ', "");
  }

  lemma AddrFieldWord(c: Codec, k: Key)
    requires c.Ok()
    ensures ' ' !in c.show(k.addr) + ['/'] + Dec(k.prefix) && Clean(c.show(k.addr) + ['/'] + Dec(k.prefix))
  {
    assert Word(c.show(k.addr));
    DecBack(k.prefix);
  }

  /**
  A printed ban row reads back with its address, prefix and remaining seconds, its jail with blanks
  replaced, and its reason; a row with more than 365 days left is the only one rejected.
  */
  lemma BanLineBack(c: Codec, r: Row, unix: nat)
    requires c.Ok() && r.Ok() && r.Live(unix) && r.Remaining(unix) <= 0xffff_ffff_ffff_ffff
    ensures Cut(BanLine(c, r, unix)) == Some((BanTag(r.key.addr.Af()), BanRest(c, r, unix)))
    ensures ParseBan(c, r.key.addr.Af(), BanRest(c, r, unix))
            == if r.Remaining(unix) > YEAR then None
               else Some(BanText(r.key, r.Remaining(unix), Jail(r), Reason(r)))
  {
    CutSep(BanTag(r.key.addr.Af()), BanRest(c, r, unix));
    BanRestBack(c, r, unix);
  }

  lemma BanRestBack(c: Codec, r: Row, unix: nat)
    requires c.Ok() && r.Ok() && r.Live(unix) && r.Remaining(unix) <= 0xffff_ffff_ffff_ffff
    ensures ParseBan(c, r.key.addr.Af(), BanRest(c, r, unix))
            == if r.Remaining(unix) > YEAR then None
               else Some(BanText(r.key, r.Remaining(unix), Jail(r), Reason(r)))
  {
    var field, left := c.show(r.key.addr) + ['/'] + Dec(r.key.prefix), Dec(r.Remaining(unix));
    AddrFieldWord(c, r.key);
    DecBack(r.Remaining(unix));
    FieldsBack(field, left, Jail(r), Reason(r));
    ParseAddrBack(c, r.key);
    ParseBack(r.Remaining(unix), 0xffff_ffff_ffff_ffff);
    JailSet(r);
  }

  lemma JailSet(r: Row)
    ensures Or(Jail(r), "api") == Jail(r) && Or(Reason(r), "restored") == Reason(r)
  {}

  /** The three strsep calls on the fields of a ban line. */
  lemma FieldsBack(field: string, left: string, jail: string, reason: string)
    requires ' ' !in field && ' ' !in left && ' ' !in jail
    ensures var tok := Strsep(Some(Sep(field, Sep(left, Sep(jail, reason)))), ' ');
            var time := Strsep(tok.1, ' ');
      tok.0 == Some(field) && time.0 == Some(left) && Strsep(time.1, ' ') == (Some(jail), Some(reason))
  {
    StrsepAt(field, ' ', Sep(left, Sep(jail, reason)));
    StrsepAt(left, ' ', Sep(jail, reason));
    StrsepAt(jail, ' ', reason);
  }

  /** The device name a whitelist entry comes back with: cut at its first space. */
  function DeviceBack(device: string): string {
    var d := Or(device, "api");
    Or(d[..IndexOf(d, ' ')], "restored")
  }

  lemma WlLineBack(c: Codec, e: Whitelist.Entry)
    requires c.Ok() && e.key.Valid()
    ensures Cut(WlLine(c, e)) == Some((WlTag(e.key.addr.Af()), WlRest(c, e)))
    ensures ParseWl(c, e.key.addr.Af(), WlRest(c, e)) == Some((e.key, DeviceBack(e.device)))
  {
    CutSep(WlTag(e.key.addr.Af()), WlRest(c, e));
    assert Word(c.show(e.key.addr));
    StrsepAt(c.show(e.key.addr), ' ', Sep(Dec(e.key.prefix), Or(e.device, "api")));
    DecBack(e.key.prefix);
    StrsepAt(Dec(e.key.prefix), ' ', Or(e.device, "api"));
    ParseBack(e.key.prefix, 0x7fff_ffff);
  }

  /** A whitelist line may end behind the prefix length, and a prefix longer than the family's is refused. */
  lemma ShortWlLine(c: Codec, a: Addr, prefix: nat)
    requires c.Ok()
    ensures ParseWl(c, a.Af(), Sep(c.show(a), Dec(prefix)))
            == if prefix <= MaxPrefix(a.Af()) then Some((Key(a, prefix), "restored")) else None
    ensures ParseWl(c, a.Af(), c.show(a)) == None
  {
    assert Word(c.show(a));
    DecBack(prefix);
    StrsepAt(c.show(a), ' ', Dec(prefix));
    StrsepAt(Dec(prefix), ' ', "");
    if prefix <= 0x7fff_ffff { ParseBack(prefix, 0x7fff_ffff); } else { ParseIntOver(prefix); }
  }

  lemma CleanSep(word: string, rest: string)
    ensures Clean(Sep(word, rest)) <==> Clean(word) && Clean(rest)
  {
    assert forall c: char :: c in Sep(word, rest) <==> c in word || c == ' ' || c in rest;
  }

  /** Only a newline in the reason can break a ban line in two. */
  lemma BanLineClean(c: Codec, r: Row, unix: nat)
    requires c.Ok() && r.Ok() && r.Live(unix)
    ensures Clean(BanLine(c, r, unix)) <==> '\n' !in r.reason
  {
    var field, left := c.show(r.key.addr) + ['/'] + Dec(r.key.prefix), Dec(r.Remaining(unix));
    AddrFieldWord(c, r.key);
    DecBack(r.Remaining(unix));
    CleanSep(Jail(r), Reason(r));
    CleanSep(left, Sep(Jail(r), Reason(r)));
    CleanSep(field, Sep(left, Sep(Jail(r), Reason(r))));
    CleanSep(BanTag(r.key.addr.Af()), BanRest(c, r, unix));
    assert Clean("api") && Clean("(none)") && Clean("BAN_V4") && Clean("BAN_V6");
  }

  /** Only a newline in the device name can break a whitelist line in two. */
  lemma WlLineClean(c: Codec, e: Whitelist.Entry)
    requires c.Ok() && Name(e.device, Whitelist.DEVICE_LEN)
    ensures Clean(WlLine(c, e)) <==> '\n' !in e.device
  {
    var device := Or(e.device, "api");
    assert Word(c.show(e.key.addr));
    DecBack(e.key.prefix);
    CleanSep(Dec(e.key.prefix), device);
    CleanSep(c.show(e.key.addr), Sep(Dec(e.key.prefix), device));
    CleanSep(WlTag(e.key.addr.Af()), WlRest(c, e));
    assert Clean("api") && Clean("WL_V4") && Clean("WL_V6");
  }
}
