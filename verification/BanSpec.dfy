/**
What the ban table means: a finite map from (address, prefix) to a ban, the effect of each
mutation on it, and when it bans an address. The family is part of the address.
*/
module BanSpec {
  import opened Prefix

  datatype Key = Key(addr: Addr, prefix: nat) {
    predicate Valid() { ValidPrefix(addr, prefix) }

    predicate Matches(ip: Addr)
      requires Valid()
    {
      ip.Af() == addr.Af() && PrefixMatch(ip, addr, prefix)
    }
  }

  /** `jiffies` is the monotonic clock, `unix` wall-clock seconds. */
  datatype Clock = Clock(jiffies: nat, unix: nat)

  datatype Ban = Ban(key: Key, permanent: bool, duration: U32, bannedAt: int, deadline: nat,
                     jail: string, reason: string)
  {
    /** fw_ban_node_expired */
    predicate Expired(now: nat) { !permanent && now >= deadline }

    /** The scalars fw_ban_insert overwrites when it renews an expired, still linked entry. */
    function Renewed(n: Ban): Ban {
      this.(permanent := n.permanent, duration := n.duration, bannedAt := n.bannedAt, deadline := n.deadline)
    }
  }

  datatype Status = Ok | Inval | Perm | Busy | NoSpace | NoEntry

  type BanMap = m: map<Key, Ban> | forall k :: k in m ==> k.Valid() && m[k].key == k

  /** strscpy into a fixed buffer of `size` bytes. */
  function Clip(s: string, size: nat): string
    requires size > 0
  {
    if |s| < size then s else s[..size - 1]
  }

  const NAME_LEN: nat := 32

  /** fw_ban_alloc: duration 0 is permanent; a restored start is converted back to jiffies. */
  function NewBan(key: Key, duration: U32, reason: string, jail: string, startUnix: nat, now: Clock, hz: nat): Ban {
    var elapsed := if startUnix == 0 || startUnix >= now.unix then 0 else (now.unix - startUnix) * hz;
    Ban(key, duration == 0, duration, now.jiffies - elapsed,
        if duration == 0 then 0 else now.jiffies + duration * hz,
        Clip(jail, NAME_LEN), Clip(reason, NAME_LEN))
  }

  /** `(int)x` for an unsigned 32-bit `x`. */
  function AsInt(x: U32): int { if x < 0x8000_0000 then x else x - 0x1_0000_0000 }

  /** fw_ban_insert on the map: leave a live ban alone, renew an expired one, else add if there is room. */
  function Insert(m: BanMap, n: Ban, now: nat, max: U32): (BanMap, Status)
    requires n.key.Valid()
  {
    if n.key in m then
      (if m[n.key].Expired(now) then m[n.key := m[n.key].Renewed(n)] else m, Ok)
    else if |m| >= AsInt(max) then (m, NoSpace)
    else (m[n.key := n], Ok)
  }

  /** fw_ban_expire_cb for the linked entry `k`: only a temporary entry with a future deadline is spared. */
  function Expire(m: BanMap, k: Key, now: nat): (BanMap, bool) {
    if k in m && (m[k].permanent || now >= m[k].deadline) then (m - {k}, true) else (m, false)
  }

  /** What an insert does, by status: which keys, which bans, and when there is no room. */
  lemma InsertMeaning(m: BanMap, n: Ban, now: nat, max: U32)
    requires n.key.Valid()
    ensures Insert(m, n, now, max).1 == if n.key in m || |m| < AsInt(max) then Ok else NoSpace
    ensures var r := Insert(m, n, now, max).0;
      forall k :: k != n.key ==> (k in r <==> k in m) && (k in r ==> r[k] == m[k])
    ensures n.key !in m ==> Insert(m, n, now, max).0 == if |m| < AsInt(max) then m[n.key := n] else m
    ensures n.key in m && (m[n.key].permanent || now < m[n.key].deadline) ==> Insert(m, n, now, max).0 == m
    ensures n.key in m && !m[n.key].permanent && now >= m[n.key].deadline ==>
              && n.key in Insert(m, n, now, max).0
              && var (was, next) := (m[n.key], Insert(m, n, now, max).0[n.key]);
                 && next.permanent == n.permanent && next.duration == n.duration
                 && next.bannedAt == n.bannedAt && next.deadline == n.deadline
                 && next.key == n.key && next.jail == was.jail && next.reason == was.reason
  {
  }

  /** A new ban is permanent exactly for duration 0, else ends that many seconds from now; names are cut to fit. */
  lemma NewBanMeaning(key: Key, duration: U32, reason: string, jail: string, startUnix: nat, now: Clock, hz: nat)
    ensures var b := NewBan(key, duration, reason, jail, startUnix, now, hz);
      && b.key == key && b.duration == duration && (b.permanent <==> duration == 0)
      && (duration > 0 ==> b.deadline == now.jiffies + duration * hz)
      && b.bannedAt == now.jiffies - (if 0 < startUnix < now.unix then (now.unix - startUnix) * hz else 0)
      && b.jail <= jail && |b.jail| == (if |jail| < NAME_LEN then |jail| else NAME_LEN - 1)
      && b.reason <= reason && |b.reason| == (if |reason| < NAME_LEN then |reason| else NAME_LEN - 1)
  {
  }

  /** An expiry callback takes exactly its own key, and only a permanent or finished ban. */
  lemma ExpireMeaning(m: BanMap, k: Key, now: nat)
    ensures var (r, gone) := Expire(m, k, now);
      && (gone <==> k in m && (m[k].permanent || now >= m[k].deadline))
      && (forall j :: j in r <==> j in m && (j == k ==> !gone))
      && (forall j :: j in r ==> r[j] == m[j])
  {
  }

  /**
  A renewal protects the entry from an expiry callback that was already waiting exactly when the new
  ban is temporary and not yet over: a permanent renewal is unlinked by that callback.
  */
  lemma RenewedSurvivesCallback(m: BanMap, n: Ban, now: nat, max: U32, later: nat)
    requires n.key in m && m[n.key].Expired(now)
    ensures var r := Insert(m, n, now, max).0;
      && r.Keys == m.Keys
      && (n.key in Expire(r, n.key, later).0 <==> !n.permanent && later < n.deadline)
      && (!n.permanent && later < n.deadline ==> Expire(r, n.key, later) == (r, false))
  {
    var r := Insert(m, n, now, max).0;
    assert r[n.key] == m[n.key].Renewed(n);
  }

  ghost function RemoveMatching(m: BanMap, network: Addr, prefix: nat): BanMap
    requires ValidPrefix(network, prefix)
  {
    map k | k in m && !Key(network, prefix).Matches(k.addr) :: m[k]
  }

  /** Some linked ban covers `ip`. */
  ghost predicate Banned(m: BanMap, ip: Addr) { exists k :: k in m && k.Matches(ip) }

  /** Matching is agreement on the leading bits, whatever host bits the stored address carries. */
  lemma MatchesMeaning(k: Key, ip: Addr)
    requires k.Valid()
    ensures k.Matches(ip) <==> ip.Af() == k.addr.Af() && SameLeadingBits(ip, k.addr, k.prefix)
    ensures k.Matches(ip) <==> ip.Af() == k.addr.Af() && Normalize(ip, k.prefix) == Normalize(k.addr, k.prefix)
    ensures k.Matches(k.addr)
  {
    if ip.Af() == k.addr.Af() { PrefixMeaning(ip, k.addr, k.prefix); }
    PrefixMeaning(k.addr, k.addr, k.prefix);
  }

  // ---------------------------------------------------------------- what may be banned at all

  function Octets6(first: U8, second: U8, last: U8): Octets {
    seq(16, i => if i == 0 then first else if i == 1 then second else if i == 15 then last else 0)
  }

  /** 0/8, 127/8, 224/4 and 255/8; ::, ::1, ff00::/8 and fe80::/10. */
  const REFUSED: seq<Key> :=
    [Key(V4(0), 8), Key(V4(127 * 0x100_0000), 8), Key(V4(224 * 0x100_0000), 4), Key(V4(255 * 0x100_0000), 8),
     Key(V6(Octets6(0, 0, 0)), 128), Key(V6(Octets6(0, 0, 1)), 128),
     Key(V6(Octets6(255, 0, 0)), 8), Key(V6(Octets6(254, 128, 0)), 10)]

  lemma {:induction false} ShrIsDiv(x: nat, k: nat)
    ensures Shl(1, k) > 0 && Shr(x, k) == x / Shl(1, k)
  {
    if k > 0 {
      ShrIsDiv(x, k - 1);
      HalfOfQuotient(x, Shl(1, k - 1));
    }
  }

  lemma HalfOfQuotient(x: nat, d: nat)
    requires d > 0
    ensures x / d / 2 == x / (2 * d)
  {
    var q, r := x / d, x % d;
    assert x == q * d + r;
    assert x == q / 2 * (2 * d) + (q % 2 * d + r);
    assert 0 <= q % 2 * d + r < 2 * d;
    QuotientIs(x, 2 * d, q / 2, q % 2 * d + r);
  }

  lemma QuotientIs(x: nat, d: nat, q: nat, r: nat)
    requires d > 0 && x == q * d + r && r < d
    ensures x / d == q
  {
    var p := x / d;
    assert x == p * d + x % d;
    TimesLess(p, q, d);
    TimesLess(q, p, d);
  }

  lemma TimesLess(a: nat, b: nat, d: nat)
    ensures a < b ==> a * d + d <= b * d
  {
    if a < b {
      TimesMonotone(a + 1, b, d);
      assert (a + 1) * d == a * d + d;
    }
  }

  lemma TimesMonotone(a: nat, b: nat, d: nat)
    requires a <= b
    ensures a * d <= b * d
  {}

  /** Masks agree exactly when the quotients do. */
  lemma SameTop(x: nat, y: nat, width: nat, keep: nat, unit: nat)
    requires keep <= width && unit == Shl(1, width - keep)
    ensures unit > 0 && (KeepHigh(x, width, keep) == KeepHigh(y, width, keep) <==> x / unit == y / unit)
  {
    var k := width - keep;
    ShrIsDiv(x, k);
    ShrIsDiv(y, k);
    ShlMono(Shr(x, k), Shr(y, k), k);
    ShlMono(Shr(y, k), Shr(x, k), k);
  }

  lemma Units()
    ensures Shl(1, 24) == 0x100_0000 && Shl(1, 28) == 0x1000_0000 && Shl(1, 6) == 64
  {
    assert Shl(1, 8) == 256;
    assert Shl(1, 16) == 256 * Shl(1, 8);
    assert Shl(1, 24) == 256 * Shl(1, 16);
  }

  lemma RefusedFour(a: Addr, i: nat)
    requires a.V4? && i < 4
    ensures REFUSED[i].Matches(a) <==>
      var top := a.word / 0x100_0000;
      if i == 0 then top == 0 else if i == 1 then top == 127 else if i == 2 then top / 16 == 14 else top == 255
  {
    Units();
    SameTop(a.word, REFUSED[i].addr.word, 32, 8, 0x100_0000);
    SameTop(a.word, REFUSED[i].addr.word, 32, 4, 0x1000_0000);
  }

  lemma RefusedSix(a: Addr, i: nat)
    requires a.V6? && 4 <= i < 8
    ensures REFUSED[i].Matches(a) <==>
      var o := a.octets;
      if i == 4 then o == Octets6(0, 0, 0) else if i == 5 then o == Octets6(0, 0, 1)
      else if i == 6 then o[0] == 255 else o[0] == 254 && o[1] / 64 == 2
  {
    var o, m := a.octets, REFUSED[i].addr.octets;
    Units();
    if i < 6 {
      assert o[..16] == o && m[..16] == m;
    } else {
      assert o[..1] == m[..1] <==> o[0] == m[0];
      SameTop(o[1], m[1], 8, 2, 64);
    }
  }

  /** What may be banned is what lies in none of the refused networks. */
  lemma ValidSourceMeaning(a: Addr)
    ensures ValidSource(a) <==> forall i :: 0 <= i < |REFUSED| ==> REFUSED[i].Valid() && !REFUSED[i].Matches(a)
  {
    if a.V4? {
      RefusedFour(a, 0);
      RefusedFour(a, 1);
      RefusedFour(a, 2);
      RefusedFour(a, 3);
    } else {
      RefusedSix(a, 4);
      RefusedSix(a, 5);
      RefusedSix(a, 6);
      RefusedSix(a, 7);
      assert Octets6(0, 0, 0) == seq(16, _ => 0);
      assert Octets6(0, 0, 1) == seq(16, i => if i == 15 then 1 else 0);
    }
  }

  // ---------------------------------------------------------------- hashing into layers

  const FULL_BITS: nat := 12
  const SHORT_BITS: nat := 6
  const LAYERS: nat := 162

  /** One layer per family and prefix length: 0..32 for IPv4, then 0..128 for IPv6. */
  function Layer(af: Family, prefix: nat): nat { if af.Inet? then prefix else 33 + prefix }

  function LayerOf(k: Key): (l: nat)
    requires k.Valid()
    ensures l < LAYERS
  {
    Layer(k.addr.Af(), k.prefix)
  }

  function LayerBits(l: nat): nat { if l == 32 || l == 161 then FULL_BITS else SHORT_BITS }

  /** fw_ban_bucket: the address is normalised to the layer's prefix first, except at full length. */
  function Bucket(jhash: Addr -> nat, a: Addr, prefix: nat): (b: nat)
    requires ValidPrefix(a, prefix)
    ensures b < Shl(1, LayerBits(Layer(a.Af(), prefix)))
  {
    if prefix == MaxPrefix(a.Af()) then HashAddr(jhash, a, FULL_BITS)
    else HashAddr(jhash, Normalize(a, prefix), SHORT_BITS)
  }

  /** Every address a ban covers hashes to the ban's own bucket in its layer. */
  lemma CoveredSameBucket(jhash: Addr -> nat, k: Key, ip: Addr)
    requires k.Valid() && k.Matches(ip)
    ensures Bucket(jhash, ip, k.prefix) == Bucket(jhash, k.addr, k.prefix)
  {
    MatchesMeaning(k, ip);
    FullMatchIsEquality(ip, k.addr);
  }
}
