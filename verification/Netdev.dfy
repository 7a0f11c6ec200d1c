/** Reconciling automatic whitelist entries with the machine's addresses (fw_netdev.c). */
module Netdev {
  import opened Basics
  import opened Prefix
  import opened BanSpec
  import opened Whitelist
  import Paging

  const PAGE: nat := 128
  const MAX_PASSES: nat := 64

  /** fw_netdev_dev_is_auto */
  predicate IsAuto(device: string) { device != "manual" && device != "restored" }

  predicate IsStale(e: Entry, locals: seq<Key>) { IsAuto(e.device) && e.key !in locals }

  /** Automatic entries whose (family, address, prefix) is no longer a local one. */
  ghost function Stale(m: WlMap, locals: seq<Key>): set<Key> {
    set k | k in m && IsStale(Entry(k, m[k]), locals)
  }

  /** fw_netdev_local_has */
  method LocalHas(locals: seq<Key>, k: Key) returns (has: bool)
    ensures has <==> k in locals
  {
    for i := 0 to |locals|
      invariant forall j :: 0 <= j < i ==> locals[j] != k
    {
      if locals[i] == k { return true; }
    }
    has := false;
  }

  /** The first stale entry of a page, if it has one. */
  method FindStale(page: seq<Entry>, locals: seq<Key>) returns (at: nat)
    ensures at <= |page|
    ensures at < |page| ==> IsStale(page[at], locals)
    ensures forall i :: 0 <= i < at ==> !IsStale(page[i], locals)
  {
    at := 0;
    while at < |page|
      invariant 0 <= at <= |page|
      invariant forall i :: 0 <= i < at ==> !IsStale(page[i], locals)
    {
      if IsAuto(page[at].device) {
        var has := LocalHas(locals, page[at].key);
        if !has { return; }
      }
      at := at + 1;
    }
  }

  lemma PageScanned(all: seq<Entry>, offset: nat, locals: seq<Key>)
    requires offset <= |all| && forall i :: 0 <= i < offset ==> !IsStale(all[i], locals)
    requires var p := Paging.Page(all, offset, PAGE); forall i :: 0 <= i < |p| ==> !IsStale(p[i], locals)
    ensures var n := offset + |Paging.Page(all, offset, PAGE)|;
      && n <= |all| && (n < |all| ==> n == offset + PAGE)
      && forall i :: 0 <= i < n ==> !IsStale(all[i], locals)
  {
    var p := Paging.Page(all, offset, PAGE);
    forall i | 0 <= i < offset + |p| ensures i < |all| && !IsStale(all[i], locals) {
      if i >= offset { Paging.PageAt(all, offset, PAGE, i - offset); }
    }
  }

  /** The paged scan of one pass: the first stale row in table order, if any. */
  method Search(wl: Whitelist.Table, locals: seq<Key>) returns (found: bool, row: Entry)
    requires wl.Valid()
    ensures found ==> row in wl.Enumeration() && IsStale(row, locals)
    ensures !found ==> forall x :: x in wl.Enumeration() ==> !IsStale(x, locals)
  {
    var offset := 0;
    ghost var all := wl.Enumeration();
    found, row := false, Entry(Key(V4(0), 0), "");
    while true
      invariant offset <= |all| && !found
      invariant forall i :: 0 <= i < offset ==> !IsStale(all[i], locals)
      decreases |all| - offset
    {
      var page := wl.FillEntries(offset, PAGE);
      if page == [] { return; }
      var at := FindStale(page, locals);
      if at < |page| {
        Paging.PageAt(all, offset, PAGE, at);
        return true, page[at];
      }
      PageScanned(all, offset, locals);
      offset := offset + |page|;
      if |page| < PAGE { return; }
    }
  }

  /** One pass: remove the first stale entry the scan meets. */
  method Pass(wl: Whitelist.Table, locals: seq<Key>) returns (removed: bool, ghost k: Key)
    requires wl.Valid()
    modifies wl
    ensures wl.Valid()
    ensures removed <==> Stale(old(wl.entries), locals) != {}
    ensures removed ==> k in Stale(old(wl.entries), locals) && wl.entries == old(wl.entries) - {k}
    ensures !removed ==> wl.entries == old(wl.entries)
  {
    wl.EnumerationExact();
    var found, row := Search(wl, locals);
    removed, k := false, row.key;
    if found {
      var status := wl.RemoveQuiet(row.key);
      removed := status == Ok;
    } else {
      forall j | j in wl.entries ensures j !in Stale(wl.entries, locals) {
        assert Entry(j, wl.entries[j]) in wl.Enumeration();
      }
    }
  }

  /** What one pass does to the set of entries gone so far. */
  lemma AfterPass(was: WlMap, now: WlMap, next: WlMap, locals: seq<Key>, gone: set<Key>, removed: bool, k: Key)
    requires gone <= Stale(was, locals) && now == was - gone
    requires removed <==> Stale(now, locals) != {}
    requires if removed then k in Stale(now, locals) && next == now - {k} else next == now
    ensures removed ==> gone + {k} <= Stale(was, locals) && |gone + {k}| == |gone| + 1 && next == was - (gone + {k})
    ensures !removed ==> gone == Stale(was, locals)
  {
    var stale := Stale(was, locals);
    assert Stale(now, locals) == stale - gone;
    assert stale == gone + (stale - gone);
  }

  /**
  fw_netdev_reconcile_whitelist: rescan from the start after each removal, at most 64 passes that
  removed something. Exactly min(S, 64) stale entries go; manual, restored and still-local entries
  and everything else stay.
  */
  method Reconcile(wl: Whitelist.Table, locals: seq<Key>) returns (ghost gone: set<Key>)
    requires wl.Valid()
    modifies wl
    ensures wl.Valid()
    ensures gone <= Stale(old(wl.entries), locals)
    ensures |gone| == Least(|Stale(old(wl.entries), locals)|, MAX_PASSES)
    ensures wl.entries == old(wl.entries) - gone
    ensures forall k :: k in old(wl.entries) && (old(wl.entries)[k] in ["manual", "restored"] || k in locals) ==>
              k in wl.entries
    ensures |gone| < MAX_PASSES ==>
              forall k :: k in wl.entries ==> wl.entries[k] in ["manual", "restored"] || k in locals
  {
    var passes, removed := 0, true;
    gone := {};
    ghost var was, stale := wl.entries, Stale(wl.entries, locals);
    while removed && passes < MAX_PASSES
      invariant wl.Valid() && gone <= stale && |gone| <= |stale| && wl.entries == was - gone
      invariant passes <= MAX_PASSES && |gone| == passes
      invariant !removed ==> gone == stale
      decreases MAX_PASSES - passes, removed
    {
      ghost var now, k := wl.entries, Key(V4(0), 0);
      removed, k := Pass(wl, locals);
      AfterPass(was, now, wl.entries, locals, gone, removed, k);
      if removed {
        gone := gone + {k};
        passes := passes + 1;
        SubsetSize(gone, stale);
      }
    }
    if |gone| < MAX_PASSES { assert gone == stale; }
  }
}
