/**
Paged reads: the bucket walk behind fw_ban_fill_entries, fw_wl_fill_entries and
fw_rate_fill_entries, and the page protocol of fw_netlink.c on top of it.
*/
module Paging {

  function Flatten<T>(buckets: seq<seq<T>>): seq<T> {
    if buckets == [] then [] else Flatten(buckets[..|buckets| - 1]) + buckets[|buckets| - 1]
  }

  /** Rows `offset`, `offset + 1`, ... of an enumeration, at most `limit` of them. */
  function Page<T>(all: seq<T>, offset: nat, limit: nat): (rows: seq<T>)
    ensures |rows| <= limit
    ensures |rows| == 0 <==> limit == 0 || |all| <= offset
  {
    if |all| <= offset then [] else if |all| - offset <= limit then all[offset..] else all[offset..offset + limit]
  }

  lemma PageAt<T>(all: seq<T>, offset: nat, limit: nat, i: nat)
    requires i < |Page(all, offset, limit)|
    ensures offset + i < |all| && Page(all, offset, limit)[i] == all[offset + i]
  {
  }

  /** All rows from `offset` on. */
  function From<T>(all: seq<T>, offset: nat): seq<T> { if |all| <= offset then [] else all[offset..] }

  lemma FromNext<T>(s: seq<T>, x: T, offset: nat)
    ensures From(s + [x], offset) == if |s| < offset then [] else From(s, offset) + [x]
  {
  }

  lemma PageFilled<T>(a: seq<T>, all: seq<T>, offset: nat, limit: nat)
    requires 0 < limit == |From(a, offset)| && a <= all
    ensures Page(all, offset, limit) == From(a, offset)
  {
    assert all[..|a|] == a;
    assert all[offset..|a|] == a[offset..];
  }

  /** One bucket of the walk: count `idx` past `offset` rows, copy the rest, stop when `rows` is full. */
  method CopyChain<T>(ghost before: seq<T>, chain: seq<T>, start: nat, offset: nat, limit: nat, had: seq<T>)
    returns (idx: nat, rows: seq<T>)
    requires start == |before| && had == From(before, offset) && |had| < limit
    ensures |rows| < limit ==> idx == |before + chain| && rows == From(before + chain, offset)
    ensures |rows| >= limit ==>
              |rows| == limit && exists n | 0 <= n <= |chain| :: rows == From(before + chain[..n], offset)
  {
    idx, rows := start, had;
    var i := 0;
    while i < |chain|
      invariant 0 <= i <= |chain| && idx == |before| + i
      invariant rows == From(before + chain[..i], offset) && |rows| < limit
    {
      FromNext(before + chain[..i], chain[i], offset);
      assert before + chain[..i + 1] == before + chain[..i] + [chain[i]];
      i := i + 1;
      idx := idx + 1;
      if idx - 1 < offset { continue; }
      rows := rows + [chain[i - 1]];
      if |rows| >= limit { return; }
    }
    assert chain[..i] == chain;
  }

  /**
  The shared bucket walk: skip `offset` rows with a running index, copy until `limit` rows are
  filled, and stop both loops then.
  */
  method FillPage<T>(buckets: seq<seq<T>>, offset: nat, limit: nat) returns (rows: seq<T>)
    ensures rows == Page(Flatten(buckets), offset, limit)
  {
    rows := [];
    if limit == 0 { return; }
    var idx, bkt := 0, 0;
    while bkt < |buckets| && |rows| < limit
      invariant 0 <= bkt <= |buckets|
      invariant |rows| < limit ==> idx == |Flatten(buckets[..bkt])| && rows == From(Flatten(buckets[..bkt]), offset)
      invariant |rows| >= limit ==> rows == Page(Flatten(buckets), offset, limit)
    {
      ghost var before, chain := Flatten(buckets[..bkt]), buckets[bkt];
      assert buckets[..bkt + 1][..bkt] == buckets[..bkt];
      idx, rows := CopyChain(before, buckets[bkt], idx, offset, limit, rows);
      bkt := bkt + 1;
      if |rows| >= limit {
        ghost var n :| 0 <= n <= |chain| && rows == From(before + chain[..n], offset);
        FlattenPrefix(buckets, bkt);
        PageFilled(before + chain[..n], Flatten(buckets), offset, limit);
      }
    }
    if |rows| < limit { assert buckets[..bkt] == buckets; }
  }

  lemma {:induction false} FlattenPrefix<T>(buckets: seq<seq<T>>, n: nat)
    requires n <= |buckets|
    ensures Flatten(buckets[..n]) <= Flatten(buckets)
    decreases |buckets|
  {
    if n == |buckets| {
      assert buckets[..n] == buckets;
    } else {
      var m := |buckets| - 1;
      FlattenPrefix(buckets[..m], n);
      assert buckets[..m][..n] == buckets[..n];
    }
  }

  lemma {:induction false} FlattenSplit<T>(a: seq<seq<T>>, b: seq<seq<T>>)
    ensures Flatten(a + b) == Flatten(a) + Flatten(b)
  {
    if b == [] {
      assert a + b == a;
    } else {
      var m := |b| - 1;
      FlattenSplit(a, b[..m]);
      assert (a + b)[..|a| + m] == a + b[..m];
    }
  }

  lemma {:induction false} FlattenMembers<T>(buckets: seq<seq<T>>, x: T)
    ensures x in Flatten(buckets) <==> exists i :: 0 <= i < |buckets| && x in buckets[i]
  {
    if buckets != [] {
      var m := |buckets| - 1;
      FlattenMembers(buckets[..m], x);
      if x in Flatten(buckets[..m]) {
        var i :| 0 <= i < m && x in buckets[..m][i];
        assert x in buckets[i];
      }
      if i :| 0 <= i < m && x in buckets[i] { assert x in buckets[..m][i]; }
    }
  }

  function EachFlattened<T>(xs: seq<seq<seq<T>>>): (ys: seq<seq<T>>)
    ensures |ys| == |xs| && forall i :: 0 <= i < |xs| ==> ys[i] == Flatten(xs[i])
  {
    seq(|xs|, i requires 0 <= i < |xs| => Flatten(xs[i]))
  }

  /** Walking layers, then buckets, is walking the concatenation of the layers' enumerations. */
  lemma {:induction false} FlattenTwice<T>(xs: seq<seq<seq<T>>>)
    ensures Flatten(Flatten(xs)) == Flatten(EachFlattened(xs))
  {
    if xs != [] {
      var m := |xs| - 1;
      FlattenTwice(xs[..m]);
      FlattenSplit(Flatten(xs[..m]), xs[m]);
      assert EachFlattened(xs)[..m] == EachFlattened(xs[..m]);
    }
  }

  ghost predicate NoDup<T>(s: seq<T>) { forall i, j :: 0 <= i < j < |s| ==> s[i] != s[j] }

  /** Duplicate-free buckets that share nothing enumerate without duplicates. */
  lemma {:induction false} FlattenNoDup<T>(buckets: seq<seq<T>>)
    requires forall i :: 0 <= i < |buckets| ==> NoDup(buckets[i])
    requires forall i, j, x :: 0 <= i < j < |buckets| && x in buckets[i] ==> x !in buckets[j]
    ensures NoDup(Flatten(buckets))
  {
    if buckets != [] {
      var m := |buckets| - 1;
      FlattenNoDup(buckets[..m]);
      forall x | x in Flatten(buckets[..m]) ensures x !in buckets[m] {
        FlattenMembers(buckets[..m], x);
      }
      var front := Flatten(buckets[..m]);
      forall i, j | 0 <= i < j < |Flatten(buckets)| ensures Flatten(buckets)[i] != Flatten(buckets)[j] {
        if i < |front| <= j { assert front[i] in front; }
      }
    }
  }

  lemma {:induction false} NoDupCardinality<T>(s: seq<T>)
    requires NoDup(s)
    ensures |set x | x in s| == |s|
  {
    if s != [] {
      var m := |s| - 1;
      NoDupCardinality(s[..m]);
      assert (set x | x in s) == (set x | x in s[..m]) + {s[m]};
      assert s[m] !in s[..m];
    }
  }

  lemma ListedSize<T>(s: seq<T>, t: set<T>)
    requires NoDup(s) && forall x :: x in s <==> x in t
    ensures |t| == |s|
  {
    NoDupCardinality(s);
    assert t == set x | x in s;
  }

  // ---------------------------------------------------------------- the netlink page protocol

  const DEFAULT_PAGE: nat := 256
  const U16_MAX: nat := 65535

  /** A reply kind: fixed part, bytes per row and the largest page (FW_NL_*_PAGE_MAX). */
  datatype Reply = Reply(fixed: nat, row: nat, pageMax: nat)

  const BANS := Reply(24, 95, 689)
  const WHITELIST := Reply(24, 34, 1926)
  const RATES := Reply(40, 88, 744)

  /** fw_nl_page: zero asks for the default page, anything above the cap gets the cap. */
  function PageLimit(limit: nat, pageMax: nat): nat {
    var l := if limit == 0 then DEFAULT_PAGE else limit;
    if l > pageMax then pageMax else l
  }

  /** The rows and the message length one query is answered with, for a table that enumerates as `all`. */
  function Answer<T>(k: Reply, all: seq<T>, total: nat, offset: nat, limit: nat): (rows: seq<T>) {
    Page(all, offset, if offset >= total then 0 else PageLimit(limit, k.pageMax))
  }

  /** A page is as long as asked for: the client's limit, the default for none, the cap above it, or what is left. */
  lemma PageHonoured<T>(k: Reply, all: seq<T>, total: nat, offset: nat, limit: nat)
    requires offset < total && k.pageMax >= DEFAULT_PAGE
    ensures var want := if limit == 0 then 256 else if limit <= k.pageMax then limit else k.pageMax;
      |Answer(k, all, total, offset, limit)|
      == if |all| <= offset then 0 else if |all| - offset < want then |all| - offset else want
    ensures forall i :: 0 <= i < |Answer(k, all, total, offset, limit)| ==>
              Answer(k, all, total, offset, limit)[i] == all[offset + i]
  {
  }

  function MsgLen(k: Reply, rows: nat): nat { k.fixed + rows * k.row }

  /** No reply ever wraps the u16 length, and one more row per page would. */
  lemma MessagesFit<T>(k: Reply, all: seq<T>, total: nat, offset: nat, limit: nat)
    requires k in {BANS, WHITELIST, RATES}
    ensures MsgLen(k, |Answer(k, all, total, offset, limit)|) <= U16_MAX
    ensures MsgLen(k, k.pageMax + 1) > U16_MAX
  {
    assert |Answer(k, all, total, offset, limit)| <= k.pageMax;
  }

  /** What a client sees that asks again at `offset + count` with any limits, for `|limits|` queries. */
  function Follow<T>(k: Reply, all: seq<T>, total: nat, offset: nat, limits: seq<nat>): (seen: seq<T>)
    decreases |limits|
  {
    if limits == [] then []
    else
      var rows := Answer(k, all, total, offset, limits[0]);
      rows + Follow(k, all, total, offset + |rows|, limits[1..])
  }

  lemma AnswerSplits<T>(k: Reply, all: seq<T>, total: nat, offset: nat, limit: nat)
    requires k.pageMax > 0 && offset <= |all| <= total
    ensures var rows := Answer(k, all, total, offset, limit);
      && offset + |rows| <= |all| && all[offset..] == rows + all[offset + |rows|..]
      && (offset < |all| ==> |rows| > 0)
  {
  }

  lemma PrefixSplits<T>(a: seq<T>, b: seq<T>, whole: seq<T>)
    requires b <= whole
    ensures a + b <= a + whole
  {
  }

  /**
  Over an unchanged table the pages reproduce the enumeration in order, each row once, and one query per
  row is always enough to finish, for any total that is not below the number of rows.
  */
  lemma {:induction false} PagesReproduce<T>(k: Reply, all: seq<T>, total: nat, offset: nat, limits: seq<nat>)
    requires k.pageMax > 0 && offset <= |all| <= total
    ensures Follow(k, all, total, offset, limits) <= all[offset..]
    ensures |all| - offset <= |limits| ==> Follow(k, all, total, offset, limits) == all[offset..]
    decreases |limits|
  {
    if limits != [] {
      var rows := Answer(k, all, total, offset, limits[0]);
      var rest := Follow(k, all, total, offset + |rows|, limits[1..]);
      AnswerSplits(k, all, total, offset, limits[0]);
      PagesReproduce(k, all, total, offset + |rows|, limits[1..]);
      assert Follow(k, all, total, offset, limits) == rows + rest;
      PrefixSplits(rows, rest, all[offset + |rows|..]);
    }
  }

  /** A page makes progress exactly below the total and below the number of rows. */
  lemma PageProgress<T>(k: Reply, all: seq<T>, total: nat, offset: nat, limit: nat)
    requires k.pageMax > 0
    ensures |Answer(k, all, total, offset, limit)| > 0 <==> offset < total && offset < |all|
  {}

  /** So every page below the total makes progress exactly when the total does not exceed the number of rows. */
  lemma AllProgress<T>(k: Reply, all: seq<T>, total: nat, limit: nat)
    requires k.pageMax > 0
    ensures (forall offset: nat :: offset < total ==> |Answer(k, all, total, offset, limit)| > 0) <==> total <= |all|
  {
    if |all| < total { PageProgress(k, all, total, |all|, limit); }
  }
}
