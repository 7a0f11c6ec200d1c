/** The set of this machine's own addresses: linear probing (fw_local.c) and its build (fw_netdev.c). */
module LocalSet {
  import opened Prefix

  const HASH_BITS: nat := 16
  const CAP_MAX: nat := 65536
  const CAP_MIN: nat := 16

  datatype Slot = Free | Used(addr: Addr)

  /** Powers of two from 16 to 65536. */
  predicate Capacity(c: nat) { exists k :: 4 <= k <= 16 && c == Shl(1, k) }

  lemma CapacityRange(c: nat)
    requires Capacity(c)
    ensures CAP_MIN <= c <= CAP_MAX
    ensures c < CAP_MAX ==> Capacity(2 * c)
  {
    var k :| 4 <= k <= 16 && c == Shl(1, k);
    assert Shl(1, 4) == 16;
    ShlSum(1, 8, 8);
    assert Shl(1, 8) == 256 && Shl(1, 16) == Shl(256, 8) == 65536;
    ShlUp(4, k); ShlUp(k, 16);
    if c < CAP_MAX { assert 2 * c == Shl(1, k + 1); }
  }

  lemma ShlUp(a: nat, b: nat)
    requires a <= b
    ensures Shl(1, a) <= Shl(1, b)
  {
    if a < b { ShlUp(a, b - 1); }
  }

  /** fw_local_capacity for the module parameter `want`. */
  method DefaultCapacity(want: nat) returns (cap: nat)
    ensures Capacity(cap) && (cap >= want || cap == CAP_MAX)
    ensures cap > CAP_MIN ==> cap / 2 < want
  {
    cap := CAP_MIN;
    assert cap == Shl(1, 4);
    if want != 0 {
      while cap < want && cap < CAP_MAX
        invariant Capacity(cap) && (cap > CAP_MIN ==> cap / 2 < want)
        decreases want - cap
      {
        CapacityRange(cap);
        cap := 2 * cap;
      }
      CapacityRange(cap);
    }
  }

  /** fw_netdev_local_capacity: the parameter is a floor, the address count decides. */
  method NetdevCapacity(n: nat, want: nat) returns (cap: nat)
    ensures Capacity(cap)
    ensures cap >= n || cap == CAP_MAX
    ensures cap >= want || cap == CAP_MAX
  {
    cap := CAP_MIN;
    assert cap == Shl(1, 4);
    while cap < want && cap < CAP_MAX
      invariant Capacity(cap)
      decreases want - cap
    {
      CapacityRange(cap);
      cap := 2 * cap;
    }
    CapacityRange(cap);
    if cap < n {
      while cap < n && cap < CAP_MAX
        invariant Capacity(cap) && (cap >= want || cap == CAP_MAX)
        decreases n - cap
      {
        CapacityRange(cap);
        cap := 2 * cap;
      }
      CapacityRange(cap);
    }
  }

  /** The i-th probe position, and how far a position is from the start of its probe sequence. */
  function At(start: nat, i: nat, cap: nat): (j: nat)
    requires start < cap && i < cap
    ensures j < cap
  {
    if start + i < cap then start + i else start + i - cap
  }

  function Dist(start: nat, j: nat, cap: nat): (i: nat)
    requires start < cap && j < cap
    ensures i < cap && At(start, i, cap) == j
  {
    if j >= start then j - start else j + cap - start
  }

  /** `(start + i) & (cap - 1)` for a power of two. */
  lemma MaskIsWrap(start: nat, i: nat, cap: nat)
    requires start < cap && i < cap
    ensures (start + i) % cap == At(start, i, cap)
  {
    if start + i >= cap {
      var x := start + i - cap;
      assert (x + cap) / cap == 1 by { DivOne(x, cap); }
    }
  }

  lemma DivOne(x: nat, cap: nat)
    requires x < cap
    ensures (x + cap) / cap == 1 && (x + cap) % cap == x
  {
    var q := (x + cap) / cap;
    assert x + cap == q * cap + (x + cap) % cap;
    assert q >= 2 ==> q * cap >= 2 * cap;
    assert q <= 0 ==> q * cap <= 0;
  }

  function Occupied(s: seq<Slot>): nat {
    if s == [] then 0 else Occupied(s[..|s| - 1]) + if s[|s| - 1].Used? then 1 else 0
  }

  lemma {:induction false} OccupiedBounds(s: seq<Slot>)
    ensures Occupied(s) <= |s|
    ensures Occupied(s) == |s| <==> forall j :: 0 <= j < |s| ==> s[j].Used?
  {
    if s != [] { OccupiedBounds(s[..|s| - 1]); }
  }

  lemma {:induction false} OccupiedFill(s: seq<Slot>, j: nat, a: Addr)
    requires j < |s| && s[j].Free?
    ensures Occupied(s[j := Used(a)]) == Occupied(s) + 1
  {
    var m := |s| - 1;
    if j == m {
      assert s[j := Used(a)][..m] == s[..m];
    } else {
      OccupiedFill(s[..m], j, a);
      assert s[j := Used(a)][..m] == s[..m][j := Used(a)];
    }
  }

  lemma StillThere(s: seq<Slot>, j: nat, a: Addr, b: Addr)
    requires j < |s| && s[j].Free? && Used(b) in s
    ensures Used(b) in s[j := Used(a)]
  {
    var k :| 0 <= k < |s| && s[k] == Used(b);
    assert s[j := Used(a)][k] == Used(b);
  }

  class Table {
    const jhash: Addr -> nat
    const slots: array<Slot>
    var count: nat
    ghost var members: set<Addr>

    function Start(a: Addr): (s: nat)
      requires slots.Length > 0
      ensures s < slots.Length
    {
      HashAddr(jhash, a, HASH_BITS) % slots.Length
    }

    /** Every used slot before the one holding an address, from its start on, is used. */
    ghost predicate Reachable(j: nat)
      requires j < slots.Length
      reads slots
    {
      slots[j].Used? ==>
        forall i: nat :: i < Dist(Start(slots[j].addr), j, slots.Length)
          ==> slots[At(Start(slots[j].addr), i, slots.Length)].Used?
    }

    ghost predicate Valid()
      reads this, slots
    {
      && Capacity(slots.Length) && slots.Length > 0
      && (forall j :: 0 <= j < slots.Length ==> Reachable(j))
      && (forall j, k :: 0 <= j < k < slots.Length && slots[j].Used? ==> slots[j] != slots[k])
      && (forall j :: 0 <= j < slots.Length && slots[j].Used? ==> slots[j].addr in members)
      && (forall a :: a in members ==> Used(a) in slots[..])
      && count == |members| == Occupied(slots[..])
    }

    /** fw_local_set_alloc with an explicit capacity. */
    constructor (jhash: Addr -> nat, capacity: nat)
      requires Capacity(capacity)
      ensures Valid() && members == {} && slots.Length == capacity && fresh(slots)
      ensures this.jhash == jhash
    {
      CapacityRange(capacity);
      this.jhash := jhash;
      slots := new Slot[capacity](_ => Free);
      count, members := 0, {};
      new;
      NoneOccupied(slots[..]);
    }

    static lemma NoneOccupied(s: seq<Slot>)
      requires forall j :: 0 <= j < |s| ==> s[j].Free?
      ensures Occupied(s) == 0
    {
      if s != [] { NoneOccupied(s[..|s| - 1]); }
    }

    /** fw_local_lookup: stop at the first free slot; a full table ends after one round. */
    method Lookup(a: Addr) returns (hit: bool)
      requires Valid()
      ensures hit <==> a in members
    {
      var cap, start := slots.Length, Start(a);
      for i := 0 to cap
        invariant forall h: nat :: h < i ==> slots[At(start, h, cap)].Used? && slots[At(start, h, cap)].addr != a
      {
        MaskIsWrap(start, i, cap);
        var s := slots[(start + i) % cap];
        if s.Free? {
          AbsentAtFree(a, i);
          return false;
        }
        if s.addr == a { return true; }
      }
      AbsentEverywhere(a);
      hit := false;
    }

    lemma AbsentAtFree(a: Addr, i: nat)
      requires Valid() && i < slots.Length && slots[At(Start(a), i, slots.Length)].Free?
      requires forall h: nat :: h < i ==> slots[At(Start(a), h, slots.Length)] != Used(a)
      ensures a !in members
    {
      forall j: nat | j < slots.Length ensures slots[j] != Used(a) {
        assert At(Start(a), Dist(Start(a), j, slots.Length), slots.Length) == j;
        assert Reachable(j);
      }
    }

    lemma AbsentEverywhere(a: Addr)
      requires Valid()
      requires forall h: nat :: h < slots.Length ==> slots[At(Start(a), h, slots.Length)] != Used(a)
      ensures a !in members
    {
      forall j: nat | j < slots.Length ensures slots[j] != Used(a) {
        assert At(Start(a), Dist(Start(a), j, slots.Length), slots.Length) == j;
      }
    }

    /** fw_local_set_insert: false exactly for a duplicate or a full table. */
    method Insert(a: Addr) returns (added: bool)
      requires Valid()
      modifies this, slots
      ensures Valid()
      ensures added <==> a !in old(members) && |old(members)| < slots.Length
      ensures members == if added then old(members) + {a} else old(members)
    {
      var cap, start := slots.Length, Start(a);
      for i := 0 to cap
        invariant Valid() && members == old(members)
        invariant forall h: nat :: h < i ==> slots[At(start, h, cap)].Used? && slots[At(start, h, cap)].addr != a
      {
        MaskIsWrap(start, i, cap);
        var j := (start + i) % cap;
        if slots[j].Used? {
          if slots[j].addr == a { return false; }
        } else {
          AbsentAtFree(a, i);
          OccupiedBounds(slots[..]);
          Fill(a, i, j);
          return true;
        }
      }
      AllUsed(a);
      added := false;
    }

    lemma AllUsed(a: Addr)
      requires Valid()
      requires forall h: nat :: h < slots.Length ==> slots[At(Start(a), h, slots.Length)].Used?
      ensures |members| == slots.Length
    {
      forall j | 0 <= j < slots.Length ensures slots[..][j].Used? {
        assert At(Start(a), Dist(Start(a), j, slots.Length), slots.Length) == j;
      }
      OccupiedBounds(slots[..]);
    }

    /** Writes the free slot that ends the probe of `a`. */
    method Fill(a: Addr, i: nat, j: nat)
      requires Valid() && a !in members && i < slots.Length
      requires j == At(Start(a), i, slots.Length) && slots[j].Free?
      requires forall h: nat :: h < i ==> slots[At(Start(a), h, slots.Length)].Used?
      modifies this, slots
      ensures Valid() && members == old(members) + {a}
    {
      ghost var before := slots[..];
      OccupiedFill(before, j, a);
      slots[j] := Used(a);
      count, members := count + 1, members + {a};
      assert slots[..] == before[j := Used(a)];
      assert slots[..][j] == Used(a);
      forall b | b in members && b != a ensures Used(b) in slots[..] { StillThere(before, j, a, b); }
      forall k | 0 <= k < slots.Length ensures Reachable(k) {
        if k != j { assert old(Reachable(k)); }
      }
    }
  }

  /**
  fw_netdev_snapshot_build: `n` is the first count of local addresses, `rows` what the second walk
  delivered (never more). Nothing is lost while there are at most 65536 distinct addresses.
  */
  method Build(jhash: Addr -> nat, n: nat, want: nat, rows: seq<Addr>) returns (table: Table)
    requires |rows| <= n
    ensures fresh(table) && fresh(table.slots) && table.Valid()
    ensures table.members <= set a | a in rows
    ensures |set a | a in rows| <= CAP_MAX ==> table.members == set a | a in rows
  {
    var cap := NetdevCapacity(n, want);
    CapacityRange(cap);
    table := new Table(jhash, cap);
    for i := 0 to |rows|
      invariant fresh(table) && fresh(table.slots) && table.Valid() && table.slots.Length == cap
      invariant table.members <= set a | a in rows[..i]
      invariant |set a | a in rows| <= CAP_MAX ==> table.members == set a | a in rows[..i]
    {
      assert rows[..i + 1] == rows[..i] + [rows[i]];
      if |set a | a in rows| <= CAP_MAX && rows[i] !in table.members {
        RoomLeft(rows, table.members, rows[i]);
      }
      var _ := table.Insert(rows[i]);
    }
    assert rows[..|rows|] == rows;
  }

  /** An address of `rows` outside `members` is not there yet: fewer than |rows| distinct ones are. */
  lemma RoomLeft(rows: seq<Addr>, members: set<Addr>, a: Addr)
    requires a in rows && a !in members && forall b :: b in members ==> b in rows
    ensures |members| < |set b | b in rows| <= |rows|
  {
    var all := set b | b in rows;
    assert all == members + {a} + (all - members - {a});
    DistinctAtMost(rows);
  }

  lemma {:induction false} DistinctAtMost(rows: seq<Addr>)
    ensures |set b | b in rows| <= |rows|
  {
    if rows != [] {
      var m := |rows| - 1;
      DistinctAtMost(rows[..m]);
      assert (set b | b in rows) == (set b | b in rows[..m]) + {rows[m]};
    }
  }
}
