/** The layered ban table of fw_ban.c run sequentially: bucket lists, layer counts, bitmap and total. */
module BanTable {
  import opened Prefix
  import opened BanSpec
  import Paging

  /** The keys of `m` living in layer `l`. */
  ghost function LayerKeys(m: BanMap, l: nat): set<Key> { set k | k in m && LayerOf(k) == l }

  ghost function Population(m: BanMap, l: nat): nat { |LayerKeys(m, l)| }

  class Table {
    const jhash: Addr -> nat
    const maxEntries: U32
    /** Layer and bucket of a key: fw_ban_bucket, see Hashed. */
    const slot: Key -> (nat, nat)
    const count: array<int>
    const used: array<bool>
    /** layers[l][b] is the list in bucket `b` of layer `l`, most recent first. */
    var layers: seq<seq<seq<Ban>>>
    var banCount: int
    ghost var entries: BanMap

    /** Chain `c` lists, without duplicates, exactly the bans of `m` that belong in bucket `s`. */
    ghost predicate ChainOk(c: seq<Ban>, s: (nat, nat), m: BanMap) {
      && (forall i :: 0 <= i < |c| ==>
            c[i].key in m && m[c[i].key] == c[i] && slot(c[i].key) == s && LayerOf(c[i].key) == s.0)
      && (forall i, j :: 0 <= i < j < |c| ==> c[i].key != c[j].key)
      && (forall k :: k in m && slot(k) == s ==> m[k] in c)
    }

    ghost predicate Shape()
      reads this`layers
    {
      && |layers| == count.Length == used.Length == LAYERS
      && forall l :: 0 <= l < LAYERS ==> |layers[l]| == Shl(1, LayerBits(l))
    }

    ghost predicate Hashed() {
      forall k: Key {:trigger Bucket(jhash, k.addr, k.prefix)} ::
        k.Valid() ==> slot(k) == (LayerOf(k), Bucket(jhash, k.addr, k.prefix))
    }

    ghost predicate ChainsOk()
      requires Shape()
      reads this`entries, this`layers
    {
      forall l, b :: 0 <= l < LAYERS && 0 <= b < |layers[l]| ==> ChainOk(layers[l][b], (l, b), entries)
    }

    /** Layer counts are exact, a bitmap bit is set exactly for a non-empty layer, the total is exact. */
    ghost predicate CountsOk()
      requires Shape()
      reads this, count, used
    {
      && banCount == |entries|
      && forall l :: 0 <= l < LAYERS ==> count[l] == Population(entries, l) && used[l] == (count[l] > 0)
    }

    ghost predicate Consistent()
      reads this, count, used
    {
      Shape() && ChainsOk() && CountsOk()
    }

    ghost predicate Valid()
      reads this, count, used
    {
      Consistent() && Hashed()
    }

    /** fw_ban_find_locked, as the position in the chain (`|c|` when absent). */
    method Find(c: seq<Ban>, a: Addr, prefix: nat) returns (i: nat)
      requires forall j :: 0 <= j < |c| ==> c[j].key.prefix == prefix
      ensures i <= |c| && (i < |c| ==> c[i].key == Key(a, prefix))
      ensures i == |c| ==> forall j :: 0 <= j < |c| ==> c[j].key != Key(a, prefix)
    {
      i := 0;
      while i < |c| && c[i].key.addr != a
        invariant i <= |c|
        invariant forall j :: 0 <= j < i ==> c[j].key != Key(a, prefix)
      {
        i := i + 1;
      }
    }

    /** The list walk of fw_ban_probe_layer. */
    static method Scan(c: seq<Ban>, ip: Addr, prefix: nat) returns (hit: bool)
      requires ValidPrefix(ip, prefix)
      requires forall i :: 0 <= i < |c| ==> c[i].key.prefix == prefix && c[i].key.addr.Af() == ip.Af()
      ensures hit <==> exists i :: 0 <= i < |c| && c[i].key.Matches(ip)
    {
      for i := 0 to |c|
        invariant forall j :: 0 <= j < i ==> !c[j].key.Matches(ip)
      {
        if PrefixMatch(ip, c[i].key.addr, prefix) { return true; }
      }
      hit := false;
    }

    /** fw_ban_probe_layer */
    method ProbeLayer(ip: Addr, prefix: nat) returns (hit: bool)
      requires Valid() && ValidPrefix(ip, prefix)
      ensures hit <==> exists k :: k in entries && k.prefix == prefix && k.Matches(ip)
    {
      var l, b := Layer(ip.Af(), prefix), Bucket(jhash, ip, prefix);
      assert slot(Key(ip, prefix)) == (l, b) by {
        var k := Key(ip, prefix);
        assert Bucket(jhash, k.addr, k.prefix) == b;
      }
      var c := layers[l][b];
      assert ChainOk(c, (l, b), entries);
      hit := Scan(c, ip, prefix);
      forall k | k in entries && k.prefix == prefix && k.Matches(ip) ensures entries[k] in c {
        CoveredSameBucket(jhash, k, ip);
      }
    }

    /** fw_ban_lookup: the full-length layer first, then every marked shorter layer. */
    method Lookup(ip: Addr) returns (hit: bool)
      requires Valid()
      ensures hit <==> Banned(entries, ip)
    {
      var max := MaxPrefix(ip.Af());
      UnmarkedIsEmpty();
      if used[Layer(ip.Af(), max)] {
        hit := ProbeLayer(ip, max);
        if hit { return; }
      }
      for p := 0 to max
        invariant forall k :: k in entries && k.Matches(ip) ==> p <= k.prefix < max
      {
        if used[Layer(ip.Af(), p)] {
          hit := ProbeLayer(ip, p);
          if hit { return; }
        }
      }
      hit := false;
    }

    lemma UnmarkedIsEmpty()
      requires Valid()
      ensures forall k :: k in entries ==> used[LayerOf(k)]
    {
      forall k | k in entries ensures used[LayerOf(k)] {
        assert k in LayerKeys(entries, LayerOf(k));
      }
    }

    /** Maps that agree on one bucket's keys have the same chain there. */
    lemma ChainFrame(c: seq<Ban>, s: (nat, nat), m: BanMap, m': BanMap)
      requires ChainOk(c, s, m)
      requires forall k :: k in m && slot(k) == s ==> k in m' && m'[k] == m[k]
      requires forall k :: k in m' && slot(k) == s ==> k in m
      ensures ChainOk(c, s, m')
    {
    }

    /** Replaces one list: with the map changed only on that bucket's keys, every chain stays right. */
    method SetBucket(l: nat, b: nat, c: seq<Ban>, ghost m: BanMap)
      requires Shape() && ChainsOk() && l < LAYERS && b < |layers[l]|
      requires ChainOk(c, (l, b), m)
      requires forall k :: k in entries && slot(k) != (l, b) ==> k in m && m[k] == entries[k]
      requires forall k :: k in m && slot(k) != (l, b) ==> k in entries
      modifies this`entries, this`layers
      ensures Shape() && ChainsOk()
      ensures entries == m && layers == old(layers)[l := old(layers[l])[b := c]]
    {
      forall j, d | 0 <= j < LAYERS && 0 <= d < |layers[j]| && (j, d) != (l, b)
        ensures ChainOk(layers[j][d], (j, d), m)
      {
        ChainFrame(layers[j][d], (j, d), entries, m);
      }
      layers := layers[l := layers[l][b := c]];
      entries := m;
    }

    lemma LinkChain(c: seq<Ban>, n: Ban, m: BanMap)
      requires n.key.Valid() && n.key !in m && ChainOk(c, slot(n.key), m) && LayerOf(n.key) == slot(n.key).0
      ensures ChainOk([n] + c, slot(n.key), m[n.key := n])
    {
      var c', m' := [n] + c, m[n.key := n];
      forall k | k in m' && slot(k) == slot(n.key) ensures m'[k] in c' {
        if k != n.key {
          var i :| 0 <= i < |c| && c[i] == m[k];
          assert c'[i + 1] == c[i];
        } else {
          assert c'[0] == n;
        }
      }
    }

    lemma RenewChain(c: seq<Ban>, i: nat, r: Ban, m: BanMap)
      requires i < |c| && r.key == c[i].key && r.key.Valid() && ChainOk(c, slot(r.key), m)
      ensures ChainOk(c[i := r], slot(r.key), m[r.key := r])
    {
      var c', m' := c[i := r], m[r.key := r];
      forall k | k in m' && slot(k) == slot(r.key) ensures m'[k] in c' {
        if k == r.key {
          assert c'[i] == r;
        } else {
          var j :| 0 <= j < |c| && c[j] == m[k];
          assert c'[j] == c[j];
        }
      }
    }

    lemma PopulationAdd(m: BanMap, n: Ban, l: nat)
      requires n.key.Valid() && n.key !in m
      ensures Population(m[n.key := n], l) == Population(m, l) + if l == LayerOf(n.key) then 1 else 0
    {
      if l == LayerOf(n.key) {
        assert LayerKeys(m[n.key := n], l) == LayerKeys(m, l) + {n.key};
      } else {
        assert LayerKeys(m[n.key := n], l) == LayerKeys(m, l);
      }
    }

    /** fw_ban_layer_mark: the 0 -> 1 step sets the bit. */
    method LayerMark(l: nat)
      requires Shape() && l < LAYERS
      modifies count, used
      ensures count[l] == old(count[l]) + 1
      ensures used[l] == (old(used[l]) || count[l] == 1)
      ensures forall j :: 0 <= j < LAYERS && j != l ==> count[j] == old(count[j]) && used[j] == old(used[j])
    {
      count[l] := count[l] + 1;
      if count[l] == 1 { used[l] := true; }
    }

    /** fw_ban_layer_release: reaching zero clears the bit. */
    method LayerRelease(l: nat, n: nat)
      requires Shape() && l < LAYERS
      modifies count, used
      ensures count[l] == old(count[l]) - n
      ensures used[l] == (old(used[l]) && count[l] > 0)
      ensures forall j :: 0 <= j < LAYERS && j != l ==> count[j] == old(count[j]) && used[j] == old(used[j])
    {
      count[l] := count[l] - n;
      if count[l] <= 0 { used[l] := false; }
    }

    /** Renews the expired entry at position `i` of its chain. */
    method Renew(c: seq<Ban>, i: nat, n: Ban, l: nat, b: nat)
      requires Consistent() && n.key.Valid() && LayerOf(n.key) == l
      requires (l, b) == slot(n.key) && b < |layers[l]| && c == layers[l][b]
      requires i < |c| && c[i].key == n.key
      modifies this`entries, this`layers
      ensures Consistent() && old(n.key in entries)
      ensures entries == old(entries)[n.key := old(entries)[n.key].Renewed(n)]
    {
      var r := c[i].Renewed(n);
      assert ChainOk(c, (l, b), entries);
      ghost var m: BanMap := entries[n.key := r];
      RenewChain(c, i, r, entries);
      SetBucket(l, b, c[i := r], m);
      assert m.Keys == old(entries).Keys;
      forall j | 0 <= j < LAYERS ensures Population(m, j) == Population(old(entries), j) {
        assert LayerKeys(m, j) == LayerKeys(old(entries), j);
      }
    }

    /** Adds `n` at the head of its chain, then marks its layer. */
    method Link(c: seq<Ban>, n: Ban, l: nat, b: nat)
      requires Consistent() && n.key.Valid() && LayerOf(n.key) == l
      requires (l, b) == slot(n.key) && b < |layers[l]| && c == layers[l][b]
      requires n.key !in entries
      modifies this, count, used
      ensures Consistent()
      ensures entries == old(entries)[n.key := n]
    {
      assert ChainOk(c, (l, b), entries);
      ghost var m: BanMap := entries[n.key := n];
      LinkChain(c, n, entries);
      SetBucket(l, b, [n] + c, m);
      banCount := banCount + 1;
      LayerMark(l);
      forall j | 0 <= j < LAYERS ensures count[j] == Population(m, j) && used[j] == (count[j] > 0) {
        PopulationAdd(old(entries), n, j);
      }
    }

    /** fw_ban_insert: find, then renew or check capacity and link. */
    method InsertBan(n: Ban, now: nat) returns (status: Status, isNew: bool)
      requires Valid() && n.key.Valid()
      modifies this, count, used
      ensures Valid()
      ensures (entries, status) == Insert(old(entries), n, now, maxEntries)
      ensures isNew == (entries.Keys != old(entries.Keys))
    {
      var l, b := LayerOf(n.key), Bucket(jhash, n.key.addr, n.key.prefix);
      var c := layers[l][b];
      assert ChainOk(c, (l, b), entries);
      var i := Find(c, n.key.addr, n.key.prefix);
      isNew := false;
      if i < |c| {
        status := Ok;
        if c[i].Expired(now) { Renew(c, i, n, l, b); }
      } else if banCount >= AsInt(maxEntries) {
        status := NoSpace;
      } else {
        Link(c, n, l, b);
        status, isNew := Ok, true;
      }
    }

    // -------------------------------------------------------------- removal

    /** `kept` holds the bans of `c` whose key is not in `gone`, each key once. */
    static ghost predicate Drops(kept: seq<Ban>, c: seq<Ban>, gone: set<Key>) {
      && (forall x :: x in kept <==> x in c && x.key !in gone)
      && (forall i, j :: 0 <= i < j < |kept| ==> kept[i].key != kept[j].key)
    }

    lemma DropsChain(kept: seq<Ban>, c: seq<Ban>, s: (nat, nat), gone: set<Key>, m: BanMap)
      requires ChainOk(c, s, m) && Drops(kept, c, gone)
      ensures ChainOk(kept, s, m - gone)
    {
      forall i | 0 <= i < |kept|
        ensures kept[i].key in m - gone && m[kept[i].key] == kept[i]
        ensures slot(kept[i].key) == s && LayerOf(kept[i].key) == s.0
      {
        assert kept[i] in kept;
        var j :| 0 <= j < |c| && c[j] == kept[i];
      }
    }

    /** hlist_del_rcu on position `i`. */
    static lemma DropsOne(c: seq<Ban>, i: nat)
      requires i < |c| && forall j, k :: 0 <= j < k < |c| ==> c[j].key != c[k].key
      ensures Drops(c[..i] + c[i + 1..], c, {c[i].key})
    {
      var kept := c[..i] + c[i + 1..];
      forall x ensures x in kept <==> x in c && x.key != c[i].key {
        if x in c && x.key != c[i].key {
          var j :| 0 <= j < |c| && c[j] == x;
          assert kept[if j < i then j else j - 1] == x;
        }
      }
    }

    /** Unlinks the bans `gone` of one chain under its bucket lock, then releases the layer. */
    method Unlink(l: nat, b: nat, kept: seq<Ban>, removed: nat, ghost gone: set<Key>)
      requires Consistent() && l < LAYERS && b < |layers[l]|
      requires Drops(kept, layers[l][b], gone) && removed == |gone| > 0
      requires forall k :: k in gone ==> k in entries && slot(k) == (l, b) && LayerOf(k) == l
      modifies this, count, used
      ensures Consistent() && entries == old(entries) - gone
    {
      ghost var m: BanMap := entries - gone;
      assert ChainOk(layers[l][b], (l, b), entries);
      DropsChain(kept, layers[l][b], (l, b), gone, entries);
      SetBucket(l, b, kept, m);
      banCount := banCount - removed;
      LayerRelease(l, removed);
      assert m.Keys == old(entries).Keys - gone;
      forall j | 0 <= j < LAYERS ensures count[j] == Population(m, j) && used[j] == (count[j] > 0) {
        PopulationDrop(old(entries), gone, l, j);
      }
    }

    static lemma PopulationDrop(m: BanMap, gone: set<Key>, l: nat, j: nat)
      requires forall k :: k in gone ==> k in m && LayerOf(k) == l
      ensures Population(m - gone, j) == Population(m, j) - if j == l then |gone| else 0
    {
      if j == l {
        assert gone <= LayerKeys(m, l);
        assert LayerKeys(m - gone, j) == LayerKeys(m, j) - gone;
      } else {
        assert LayerKeys(m - gone, j) == LayerKeys(m, j);
      }
    }

    /** fw_ban_del */
    method Del(k: Key) returns (status: Status)
      requires Valid()
      modifies this, count, used
      ensures Valid()
      ensures status == if !k.Valid() then Inval else if k in old(entries) then Ok else NoEntry
      ensures entries == old(entries) - {k}
    {
      if !k.Valid() { return Inval; }
      var l, b := LayerOf(k), Bucket(jhash, k.addr, k.prefix);
      var c := layers[l][b];
      assert ChainOk(c, (l, b), entries);
      var i := Find(c, k.addr, k.prefix);
      if i == |c| { return NoEntry; }
      DropsOne(c, i);
      Unlink(l, b, c[..i] + c[i + 1..], 1, {k});
      status := Ok;
    }

    /** fw_ban_expire_cb run for the entry `k`; an entry no longer linked is left alone. */
    method ExpireCallback(k: Key, now: nat) returns (unlinked: bool)
      requires Valid() && k.Valid()
      modifies this, count, used
      ensures Valid()
      ensures (entries, unlinked) == Expire(old(entries), k, now)
    {
      var l, b := LayerOf(k), Bucket(jhash, k.addr, k.prefix);
      var c := layers[l][b];
      assert ChainOk(c, (l, b), entries);
      var i := Find(c, k.addr, k.prefix);
      if i == |c| { return false; }
      if !c[i].permanent && now < c[i].deadline { return false; }
      DropsOne(c, i);
      Unlink(l, b, c[..i] + c[i + 1..], 1, {k});
      unlinked := true;
    }

    /** The list walk of fw_ban_del_matching: what stays in the chain and how many go. */
    static method Partition(c: seq<Ban>, network: Addr, prefix: nat)
      returns (kept: seq<Ban>, removed: nat, ghost gone: set<Key>)
      requires ValidPrefix(network, prefix)
      requires forall i :: 0 <= i < |c| ==> c[i].key.addr.Af() == network.Af()
      requires forall i, j :: 0 <= i < j < |c| ==> c[i].key != c[j].key
      ensures Drops(kept, c, gone) && removed == |gone|
      ensures forall k ::
                k in gone <==> Key(network, prefix).Matches(k.addr) && exists i :: 0 <= i < |c| && c[i].key == k
    {
      kept, removed, gone := [], 0, {};
      for i := 0 to |c|
        invariant Drops(kept, c[..i], gone) && removed == |gone|
        invariant forall k ::
                    k in gone <==> Key(network, prefix).Matches(k.addr) && exists j :: 0 <= j < i && c[j].key == k
      {
        assert c[..i + 1] == c[..i] + [c[i]];
        assert forall x :: x in c[..i] ==> x.key != c[i].key;
        if PrefixMatch(c[i].key.addr, network, prefix) {
          gone := gone + {c[i].key};
          removed := removed + 1;
        } else {
          kept := kept + [c[i]];
        }
      }
      assert c[..|c|] == c;
    }

    lemma SlotsInRange()
      requires Valid()
      ensures forall k :: k in entries ==> slot(k).0 == LayerOf(k) && slot(k).1 < |layers[LayerOf(k)]|
    {
      forall k | k in entries ensures slot(k).0 == LayerOf(k) && slot(k).1 < |layers[LayerOf(k)]| {
        assert slot(k) == (LayerOf(k), Bucket(jhash, k.addr, k.prefix));
      }
    }

    /** `hit` is the set of linked keys the network covers. */
    ghost predicate Hits(hit: set<Key>, network: Addr, prefix: nat)
      requires ValidPrefix(network, prefix)
      reads this`entries
    {
      forall k :: k in entries ==> (k in hit <==> Key(network, prefix).Matches(k.addr))
    }

    /** fw_ban_del_matching on one bucket: its matching bans go, under the bucket lock. */
    method DelMatchingBucket(l: nat, b: nat, network: Addr, prefix: nat, ghost hit: set<Key>)
      requires Valid() && l < LAYERS && b < |layers[l]| && ValidPrefix(network, prefix)
      requires l <= 32 <==> network.Af() == Inet
      requires Hits(hit, network, prefix)
      modifies this, count, used
      ensures Valid() && Hits(hit, network, prefix)
      ensures forall k :: k in entries <==> k in old(entries) && !(slot(k) == (l, b) && k in hit)
      ensures forall k :: k in entries ==> entries[k] == old(entries)[k]
    {
      var c := layers[l][b];
      assert ChainOk(c, (l, b), entries);
      var kept, removed, gone := Partition(c, network, prefix);
      if removed > 0 { Unlink(l, b, kept, removed, gone); }
    }

    /** `m` is what is left of `was` once the walk stands at layer `l`, bucket `b`. */
    ghost predicate Swept(m: BanMap, was: BanMap, hit: set<Key>, l: nat, b: nat) {
      && (forall k :: k in m <==> k in was && !(k in hit && (slot(k).0 < l || (slot(k).0 == l && slot(k).1 < b))))
      && (forall k :: k in m ==> m[k] == was[k])
    }

    lemma SweptOneBucket(m: BanMap, next: BanMap, was: BanMap, hit: set<Key>, l: nat, b: nat)
      requires Swept(m, was, hit, l, b)
      requires forall k :: k in next <==> k in m && !(slot(k) == (l, b) && k in hit)
      requires forall k :: k in next ==> next[k] == m[k]
      ensures Swept(next, was, hit, l, b + 1)
    {
      forall k
        ensures k in next <==> k in was && !(k in hit && (slot(k).0 < l || (slot(k).0 == l && slot(k).1 < b + 1)))
      {
        assert slot(k) == (slot(k).0, slot(k).1);
      }
    }

    lemma SweptLayer(m: BanMap, was: BanMap, hit: set<Key>, l: nat, size: nat)
      requires Swept(m, was, hit, l, size)
      requires forall k :: k in was && slot(k).0 == l ==> slot(k).1 < size
      ensures Swept(m, was, hit, l + 1, 0)
    {
    }

    method DelMatchingLayer(l: nat, network: Addr, prefix: nat, ghost was: BanMap, ghost hit: set<Key>)
      requires Valid() && l < LAYERS && ValidPrefix(network, prefix)
      requires l <= 32 <==> network.Af() == Inet
      requires Hits(hit, network, prefix) && Swept(entries, was, hit, l, 0)
      requires forall k :: k in was && slot(k).0 == l ==> slot(k).1 < |layers[l]|
      modifies this, count, used
      ensures Valid() && Hits(hit, network, prefix) && Swept(entries, was, hit, l + 1, 0)
    {
      var size := |layers[l]|;
      for b := 0 to size
        invariant Valid() && Hits(hit, network, prefix) && Swept(entries, was, hit, l, b)
      {
        ghost var m := entries;
        DelMatchingBucket(l, b, network, prefix, hit);
        SweptOneBucket(m, entries, was, hit, l, b);
      }
      SweptLayer(entries, was, hit, l, size);
    }

    /** The walk covers exactly the layers of the network's family, so nothing it should hit is left out. */
    lemma SweptAll(was: BanMap, hit: set<Key>, network: Addr, prefix: nat, m: BanMap)
      requires Hashed() && ValidPrefix(network, prefix)
      requires forall k :: k in hit <==> k in was && Key(network, prefix).Matches(k.addr)
      ensures Swept(was, was, hit, Layer(network.Af(), 0), 0)
      ensures Swept(m, was, hit, Layer(network.Af(), MaxPrefix(network.Af()) + 1), 0) ==>
                m == RemoveMatching(was, network, prefix)
    {
      forall k | k in hit
        ensures Layer(network.Af(), 0) <= slot(k).0 < Layer(network.Af(), MaxPrefix(network.Af()) + 1)
      {
        assert slot(k) == (LayerOf(k), Bucket(jhash, k.addr, k.prefix));
      }
    }

    /** fw_ban_del_matching: every layer of the family, every bucket, every entry whose address lies in the network. */
    method DelMatching(network: Addr, prefix: nat)
      requires Valid() && ValidPrefix(network, prefix)
      modifies this, count, used
      ensures Valid()
      ensures entries == RemoveMatching(old(entries), network, prefix)
    {
      var af := network.Af();
      ghost var was := entries;
      ghost var hit := set k | k in was && Key(network, prefix).Matches(k.addr);
      SlotsInRange();
      SweptAll(was, hit, network, prefix, was);
      for p := 0 to MaxPrefix(af) + 1
        invariant Valid() && Hits(hit, network, prefix) && Swept(entries, was, hit, Layer(af, p), 0)
      {
        DelMatchingLayer(Layer(af, p), network, prefix, was, hit);
      }
      SweptAll(was, hit, network, prefix, entries);
    }

    // -------------------------------------------------------------- reading

    /** The order in which fw_ban_fill_entries meets the linked bans. */
    function Enumeration(): seq<Ban>
      reads this
    {
      Paging.Flatten(Paging.Flatten(layers))
    }

    method FillEntries(offset: nat, limit: nat) returns (rows: seq<Ban>)
      ensures rows == Paging.Page(Enumeration(), offset, limit)
    {
      rows := Paging.FillPage(Paging.Flatten(layers), offset, limit);
    }

    lemma ChainMembers(l: nat, b: nat, x: Ban)
      requires Valid() && l < LAYERS && b < |layers[l]|
      ensures x in layers[l][b] <==> x.key in entries && entries[x.key] == x && slot(x.key) == (l, b)
    {
      assert ChainOk(layers[l][b], (l, b), entries);
    }

    lemma LayerMembers(l: nat, x: Ban)
      requires Valid() && l < LAYERS
      ensures x in Paging.Flatten(layers[l]) <==> x.key in entries && entries[x.key] == x && slot(x.key).0 == l
    {
      Paging.FlattenMembers(layers[l], x);
      SlotsInRange();
      forall b: nat | b < |layers[l]|
        ensures x in layers[l][b] <==> x.key in entries && entries[x.key] == x && slot(x.key) == (l, b)
      {
        ChainMembers(l, b, x);
      }
    }

    lemma LayerNoDup(l: nat)
      requires Valid() && l < LAYERS
      ensures Paging.NoDup(Paging.Flatten(layers[l]))
    {
      var bs := layers[l];
      forall b | 0 <= b < |bs| ensures Paging.NoDup(bs[b]) {
        assert ChainOk(bs[b], (l, b), entries);
      }
      forall i, j, x | 0 <= i < j < |bs| && x in bs[i] ensures x !in bs[j] {
        ChainMembers(l, i, x);
        ChainMembers(l, j, x);
      }
      Paging.FlattenNoDup(bs);
    }

    /** The enumeration lists every linked ban exactly once, so `banCount` is its length. */
    lemma EnumerationExact()
      requires Valid()
      ensures Paging.NoDup(Enumeration())
      ensures forall x :: x in Enumeration() <==> x.key in entries && entries[x.key] == x
      ensures |Enumeration()| == banCount
    {
      var ys := Paging.EachFlattened(layers);
      Paging.FlattenTwice(layers);
      assert Enumeration() == Paging.Flatten(ys);
      SlotsInRange();
      forall x ensures x in Enumeration() <==> x.key in entries && entries[x.key] == x {
        Paging.FlattenMembers(ys, x);
        forall l: nat | l < LAYERS
          ensures x in ys[l] <==> x.key in entries && entries[x.key] == x && slot(x.key).0 == l
        {
          LayerMembers(l, x);
        }
        if x.key in entries && entries[x.key] == x { assert x in ys[slot(x.key).0]; }
      }
      forall l | 0 <= l < LAYERS ensures Paging.NoDup(ys[l]) { LayerNoDup(l); }
      forall i, j, x | 0 <= i < j < LAYERS && x in ys[i] ensures x !in ys[j] {
        LayerMembers(i, x);
        LayerMembers(j, x);
      }
      Paging.FlattenNoDup(ys);
      Paging.NoDupCardinality(Enumeration());
      EntriesAsSet(entries, set x | x in Enumeration());
    }

    static lemma EntriesAsSet(m: BanMap, s: set<Ban>)
      requires forall x :: x in s <==> x.key in m && m[x.key] == x
      ensures |s| == |m|
    {
      if m == map[] {
        assert s == {};
      } else {
        var k :| k in m;
        EntriesAsSet(m - {k}, s - {m[k]});
        assert s == s - {m[k]} + {m[k]};
        assert m.Keys == (m - {k}).Keys + {k};
      }
    }

    /** fw_ban_table_setup and fw_ban_init */
    constructor (jhash: Addr -> nat, maxEntries: U32)
      ensures Valid() && entries == map[]
      ensures this.jhash == jhash && this.maxEntries == maxEntries
      ensures fresh(count) && fresh(used)
    {
      this.jhash, this.maxEntries := jhash, maxEntries;
      slot := (k: Key) => if k.Valid() then (LayerOf(k), Bucket(jhash, k.addr, k.prefix)) else (0, 0);
      count := new int[LAYERS](_ => 0);
      used := new bool[LAYERS](_ => false);
      layers := seq(LAYERS, l requires 0 <= l < LAYERS => seq(Shl(1, LayerBits(l)), _ => []));
      banCount, entries := 0, map[];
      new;
      forall l | 0 <= l < LAYERS ensures Population(entries, l) == 0 {
        assert LayerKeys(entries, l) == {};
      }
    }
  }
}
