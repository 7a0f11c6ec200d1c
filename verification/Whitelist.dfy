/** The whitelist of fw_wl.c: 64 exact buckets per family plus a list of the subnet entries. */
module Whitelist {
  import opened Prefix
  import opened BanSpec
  import Paging

  type WlMap = m: map<Key, string> | forall k :: k in m ==> k.Valid()

  const DEVICE_LEN: nat := 16
  const BUCKETS: nat := 128

  predicate IsFull(k: Key) { k.prefix == MaxPrefix(k.addr.Af()) }

  /** The full-length key of one host. */
  function HostKey(ip: Addr): Key { Key(ip, MaxPrefix(ip.Af())) }

  /** Some whitelist entry covers `ip`. */
  ghost predicate Covered(m: WlMap, ip: Addr) { exists k :: k in m && k.Matches(ip) }

  /** fw_wl_add on the map: keep a duplicate (naming an unnamed one), else add if there is room. */
  function Added(m: WlMap, k: Key, device: string, max: U32): (WlMap, Status)
  {
    if !k.Valid() then (m, Inval)
    else if k in m then (if device != "" && m[k] == "" then m[k := Clip(device, DEVICE_LEN)] else m, Ok)
    else if |m| >= AsInt(max) then (m, NoSpace)
    else (m[k := Clip(device, DEVICE_LEN)], Ok)
  }

  /** What an add does, by status: only a new key takes room, and only an unnamed entry takes a name. */
  lemma AddedMeaning(m: WlMap, k: Key, device: string, max: U32)
    ensures Added(m, k, device, max).1
            == if !k.Valid() then Inval else if k in m || |m| < AsInt(max) then Ok else NoSpace
    ensures forall j :: j != k ==> (j in Added(m, k, device, max).0 <==> j in m)
    ensures forall j :: j != k && j in m ==> Added(m, k, device, max).0[j] == m[j]
    ensures k in Added(m, k, device, max).0 <==> k in m || (k.Valid() && |m| < AsInt(max))
    ensures k in m && m[k] != "" ==> Added(m, k, device, max).0[k] == m[k]
    ensures k in Added(m, k, device, max).0 && (k !in m || m[k] == "") ==>
              var name := Added(m, k, device, max).0[k];
              name <= device && |name| == if |device| < DEVICE_LEN then |device| else DEVICE_LEN - 1
  {
  }

  datatype Entry = Entry(key: Key, device: string)

  class Table {
    const jhash: Addr -> nat
    const max: U32
    /** Bucket of an address: 0..63 for IPv4, 64..127 for IPv6, see Hashed. */
    const home: Addr -> nat
    var buckets: seq<seq<Entry>>
    /** The subnet lists of both families, in list order. */
    var subnets4: seq<Key>
    var subnets6: seq<Key>
    var count: int
    var rejects: nat
    ghost var entries: WlMap

    ghost predicate Hashed() {
      forall a :: home(a) == HashAddr(jhash, a, 6) + if a.V6? then 64 else 0
    }

    ghost predicate ChainOk(c: seq<Entry>, h: nat, m: WlMap) {
      && (forall i :: 0 <= i < |c| ==> c[i].key in m && m[c[i].key] == c[i].device && home(c[i].key.addr) == h)
      && (forall i, j :: 0 <= i < j < |c| ==> c[i].key != c[j].key)
      && (forall k :: k in m && home(k.addr) == h ==> Entry(k, m[k]) in c)
    }

    static ghost predicate SubnetsOk(list: seq<Key>, af: Family, m: WlMap) {
      && (forall k :: k in list <==> k in m && k.addr.Af() == af && !IsFull(k))
      && (forall i, j :: 0 <= i < j < |list| ==> list[i] != list[j])
    }

    ghost predicate Valid()
      reads this
    {
      && Hashed() && |buckets| == BUCKETS && (forall a :: home(a) < BUCKETS)
      && (forall h :: 0 <= h < BUCKETS ==> ChainOk(buckets[h], h, entries))
      && SubnetsOk(subnets4, Inet, entries) && SubnetsOk(subnets6, Inet6, entries)
      && count == |entries|
    }

    constructor (jhash: Addr -> nat, max: U32)
      ensures Valid() && entries == map[] && this.jhash == jhash && this.max == max
    {
      this.jhash, this.max := jhash, max;
      home := (a: Addr) => HashAddr(jhash, a, 6) + if a.V6? then 64 else 0;
      buckets, subnets4, subnets6 := seq(BUCKETS, _ => []), [], [];
      count, rejects, entries := 0, 0, map[];
      new;
      assert Shl(1, 6) == 64;
    }

    /** fw_wl_find_locked as a position in the chain. */
    static method Find(c: seq<Entry>, k: Key) returns (i: nat)
      ensures i <= |c| && (i < |c| ==> c[i].key == k)
      ensures i == |c| ==> forall j :: 0 <= j < |c| ==> c[j].key != k
    {
      i := 0;
      while i < |c| && c[i].key != k
        invariant i <= |c| && forall j :: 0 <= j < i ==> c[j].key != k
      {
        i := i + 1;
      }
    }

    static method ScanExact(c: seq<Entry>, ip: Addr) returns (hit: bool)
      ensures hit <==> exists i :: 0 <= i < |c| && c[i].key == HostKey(ip)
    {
      for i := 0 to |c|
        invariant forall j :: 0 <= j < i ==> c[j].key != HostKey(ip)
      {
        if IsFull(c[i].key) && c[i].key.addr == ip { return true; }
      }
      hit := false;
    }

    static method ScanSubnets(list: seq<Key>, ip: Addr) returns (hit: bool)
      requires forall k :: k in list ==> k.Valid() && k.addr.Af() == ip.Af()
      ensures hit <==> exists k :: k in list && k.Matches(ip)
    {
      for i := 0 to |list|
        invariant forall j :: 0 <= j < i ==> !list[j].Matches(ip)
      {
        assert list[i] in list;
        if PrefixMatch(ip, list[i].addr, list[i].prefix) { return true; }
      }
      hit := false;
    }

    /** A full-length entry covers an address only by being that host; all others are on the subnet list. */
    static lemma CoverSplit(m: WlMap, list: seq<Key>, ip: Addr)
      requires SubnetsOk(list, ip.Af(), m)
      ensures Covered(m, ip) <==> HostKey(ip) in m || exists k :: k in list && k.Matches(ip)
    {
      if k :| k in m && k.Matches(ip) {
        if IsFull(k) { FullMatchIsEquality(ip, k.addr); }
      }
      if HostKey(ip) in m { MatchesMeaning(HostKey(ip), ip); }
    }

    /** fw_wl_lookup: an equal full-length entry in the bucket, or a subnet entry covering the address. */
    method Lookup(ip: Addr) returns (hit: bool)
      requires Valid()
      ensures hit <==> Covered(entries, ip)
    {
      var c := buckets[home(ip)];
      assert ChainOk(c, home(ip), entries);
      hit := ScanExact(c, ip);
      assert hit <==> HostKey(ip) in entries;
      var list := if ip.V6? then subnets6 else subnets4;
      CoverSplit(entries, list, ip);
      if !hit { hit := ScanSubnets(list, ip); }
    }

    /** Stores a changed bucket and subnet lists; `m` may differ from `entries` in that bucket's keys only. */
    method Store(h: nat, c: seq<Entry>, s4: seq<Key>, s6: seq<Key>, n: int, ghost m: WlMap)
      requires Valid() && h < BUCKETS && ChainOk(c, h, m) && n == |m|
      requires SubnetsOk(s4, Inet, m) && SubnetsOk(s6, Inet6, m)
      requires forall k :: k in entries && home(k.addr) != h ==> k in m && m[k] == entries[k]
      requires forall k :: k in m && home(k.addr) != h ==> k in entries
      modifies this`buckets, this`subnets4, this`subnets6, this`count, this`entries
      ensures Valid() && entries == m
    {
      forall j | 0 <= j < BUCKETS && j != h ensures ChainOk(buckets[j], j, m) {
        assert ChainOk(buckets[j], j, entries);
      }
      buckets, subnets4, subnets6, count, entries := buckets[h := c], s4, s6, n, m;
    }

    lemma ChainRename(c: seq<Entry>, i: nat, h: nat, name: string, m: WlMap)
      requires i < |c| && ChainOk(c, h, m)
      ensures ChainOk(c[i := Entry(c[i].key, name)], h, m[c[i].key := name])
    {
      var r := c[i := Entry(c[i].key, name)];
      forall k | k in m && home(k.addr) == h ensures Entry(k, m[c[i].key := name][k]) in r {
        var j :| 0 <= j < |c| && c[j] == Entry(k, m[k]);
        assert r[j].key == k;
      }
    }

    lemma ChainAdd(c: seq<Entry>, h: nat, n: Entry, m: WlMap)
      requires n.key.Valid() && n.key !in m && home(n.key.addr) == h && ChainOk(c, h, m)
      ensures ChainOk([n] + c, h, m[n.key := n.device])
    {
      var r := [n] + c;
      forall k | k in m[n.key := n.device] && home(k.addr) == h ensures Entry(k, m[n.key := n.device][k]) in r {
        if k == n.key {
          assert r[0] == n;
        } else {
          var j :| 0 <= j < |c| && c[j] == Entry(k, m[k]);
          assert r[j + 1] == c[j];
        }
      }
    }

    static lemma DropAt(c: seq<Entry>, i: nat)
      requires i < |c| && forall p, q :: 0 <= p < q < |c| ==> c[p].key != c[q].key
      ensures var r := c[..i] + c[i + 1..];
        && (forall x :: x in r <==> x in c && x.key != c[i].key)
        && (forall p, q :: 0 <= p < q < |r| ==> r[p].key != r[q].key)
    {
      var r := c[..i] + c[i + 1..];
      forall x ensures x in r <==> x in c && x.key != c[i].key {
        if j :| 0 <= j < |c| && c[j] == x && j != i { assert r[if j < i then j else j - 1] == x; }
      }
    }

    lemma ChainDrop(c: seq<Entry>, i: nat, h: nat, m: WlMap)
      requires i < |c| && ChainOk(c, h, m)
      ensures ChainOk(c[..i] + c[i + 1..], h, m - {c[i].key})
    {
      var r := c[..i] + c[i + 1..];
      DropAt(c, i);
      forall p | 0 <= p < |r|
        ensures r[p].key in m - {c[i].key} && m[r[p].key] == r[p].device && home(r[p].key.addr) == h
      {
        assert r[p] in r;
      }
    }

    static lemma ListAdd(list: seq<Key>, k: Key, device: string, m: WlMap)
      requires k.Valid() && SubnetsOk(list, k.addr.Af(), m) && k !in m && !IsFull(k)
      ensures SubnetsOk(list + [k], k.addr.Af(), m[k := device])
    {
      forall j ensures j in list + [k] <==> j in m[k := device] && j.addr.Af() == k.addr.Af() && !IsFull(j) {
        assert (list + [k])[|list|] == k;
      }
    }

    /** fw_wl_add */
    method Add(k: Key, device: string) returns (status: Status)
      requires Valid()
      modifies this
      ensures Valid()
      ensures (entries, status) == Added(old(entries), k, device, max)
      ensures rejects == old(rejects) + if status == NoSpace then 1 else 0
    {
      if !k.Valid() { return Inval; }
      var h := home(k.addr);
      var c := buckets[h];
      assert ChainOk(c, h, entries);
      var i := Find(c, k);
      if i < |c| {
        status := Ok;
        if device != "" && c[i].device == "" { Rename(k, Clip(device, DEVICE_LEN), h, c, i); }
      } else if count >= AsInt(max) {
        rejects, status := rejects + 1, NoSpace;
      } else {
        status := Ok;
        AddNew(k, Clip(device, DEVICE_LEN), h, c);
      }
    }

    method Rename(k: Key, name: string, h: nat, c: seq<Entry>, i: nat)
      requires Valid() && k.Valid() && h == home(k.addr) && c == buckets[h] && i < |c| && c[i].key == k
      modifies this`buckets, this`subnets4, this`subnets6, this`count, this`entries
      ensures Valid() && k in old(entries) && entries == old(entries)[k := name]
    {
      assert ChainOk(c, h, entries);
      assert c[i] in c;
      ChainRename(c, i, h, name, entries);
      assert entries[k := name].Keys == entries.Keys;
      Store(h, c[i := Entry(k, name)], subnets4, subnets6, count, entries[k := name]);
    }

    method AddNew(k: Key, name: string, h: nat, c: seq<Entry>)
      requires Valid() && k.Valid() && k !in entries && h == home(k.addr) && c == buckets[h]
      modifies this`buckets, this`subnets4, this`subnets6, this`count, this`entries
      ensures Valid() && entries == old(entries)[k := name]
    {
      assert ChainOk(c, h, entries);
      var s4, s6 := subnets4, subnets6;
      ChainAdd(c, h, Entry(k, name), entries);
      if !IsFull(k) {
        if k.addr.V6? {
          ListAdd(s6, k, name, entries);
          s6 := s6 + [k];
        } else {
          ListAdd(s4, k, name, entries);
          s4 := s4 + [k];
        }
      }
      Store(h, [Entry(k, name)] + c, s4, s6, count + 1, entries[k := name]);
    }

    /** list_del_rcu on the subnet list. */
    static method ListRemove(list: seq<Key>, k: Key, ghost m: WlMap) returns (r: seq<Key>)
      requires SubnetsOk(list, k.addr.Af(), m) && k in m && !IsFull(k)
      ensures SubnetsOk(r, k.addr.Af(), m - {k})
    {
      var i := 0;
      while list[i] != k
        invariant 0 <= i < |list| && forall j :: 0 <= j < i ==> list[j] != k
        decreases |list| - i
      {
        ghost var j :| 0 <= j < |list| && list[j] == k;
        i := i + 1;
      }
      r := list[..i] + list[i + 1..];
      forall j ensures j in r <==> j in list && j != k {
        if j in list && j != k {
          var p :| 0 <= p < |list| && list[p] == j;
          assert r[if p < i then p else p - 1] == j;
        }
      }
    }

    /** Takes the entry at position `i` of its bucket off every list it is on. */
    method Unlink(k: Key, h: nat, c: seq<Entry>, i: nat)
      requires Valid() && h == home(k.addr) && c == buckets[h] && i < |c| && c[i].key == k && k in entries
      modifies this`buckets, this`subnets4, this`subnets6, this`count, this`entries
      ensures Valid() && entries == old(entries) - {k}
    {
      assert ChainOk(c, h, entries);
      var s4, s6 := subnets4, subnets6;
      if !IsFull(k) {
        if k.addr.V6? { s6 := ListRemove(s6, k, entries); } else { s4 := ListRemove(s4, k, entries); }
      }
      ChainDrop(c, i, h, entries);
      Store(h, c[..i] + c[i + 1..], s4, s6, count - 1, entries - {k});
    }

    /** fw_wl_remove_quiet: exactly the triple asked for. */
    method RemoveQuiet(k: Key) returns (status: Status)
      requires Valid()
      modifies this`buckets, this`subnets4, this`subnets6, this`count, this`entries
      ensures Valid()
      ensures status == if k in old(entries) then Ok else NoEntry
      ensures entries == old(entries) - {k}
    {
      var h := home(k.addr);
      var c := buckets[h];
      assert ChainOk(c, h, entries);
      var i := Find(c, k);
      if i == |c| { return NoEntry; }
      Unlink(k, h, c, i);
      status := Ok;
    }

    // -------------------------------------------------------------- reading

    /** The order in which fw_wl_fill_entries meets the entries: IPv4 buckets, then IPv6. */
    function Enumeration(): seq<Entry>
      reads this
    {
      Paging.Flatten(buckets)
    }

    method FillEntries(offset: nat, limit: nat) returns (rows: seq<Entry>)
      ensures rows == Paging.Page(Enumeration(), offset, limit)
    {
      rows := Paging.FillPage(buckets, offset, limit);
    }

    /** The enumeration lists every entry exactly once. */
    lemma EnumerationExact()
      requires Valid()
      ensures Paging.NoDup(Enumeration())
      ensures forall x :: x in Enumeration() <==> x.key in entries && entries[x.key] == x.device
      ensures |Enumeration()| == count
    {
      Members();
      Paging.NoDupCardinality(Enumeration());
      EntriesAsSet(entries, set x | x in Enumeration());
    }

    static lemma {:induction false} EntriesAsSet(m: WlMap, s: set<Entry>)
      requires forall x :: x in s <==> x.key in m && m[x.key] == x.device
      ensures |s| == |m|
      decreases |m|
    {
      if m == map[] {
        assert s == {};
      } else {
        var k :| k in m;
        var n, t := m - {k}, s - {Entry(k, m[k])};
        assert forall x :: x in t <==> x.key in n && n[x.key] == x.device;
        EntriesAsSet(n, t);
        assert Entry(k, m[k]) in s && |s| == |t| + 1;
        assert m.Keys == n.Keys + {k} && |m| == |n| + 1;
      }
    }

    lemma Members()
      requires Valid()
      ensures Paging.NoDup(Enumeration())
      ensures forall x :: x in Enumeration() <==> x.key in entries && entries[x.key] == x.device
    {
      forall h | 0 <= h < BUCKETS ensures Paging.NoDup(buckets[h]) { assert ChainOk(buckets[h], h, entries); }
      forall i, j, x | 0 <= i < j < BUCKETS && x in buckets[i] ensures x !in buckets[j] {
        assert ChainOk(buckets[i], i, entries) && ChainOk(buckets[j], j, entries);
      }
      Paging.FlattenNoDup(buckets);
      forall x ensures x in Enumeration() <==> x.key in entries && entries[x.key] == x.device {
        Paging.FlattenMembers(buckets, x);
        if h :| 0 <= h < BUCKETS && x in buckets[h] { assert ChainOk(buckets[h], h, entries); }
        if x.key in entries && entries[x.key] == x.device {
          assert ChainOk(buckets[home(x.key.addr)], home(x.key.addr), entries);
        }
      }
    }
  }
}
