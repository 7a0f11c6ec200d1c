# Verified model of the firewall kernel module

A Dafny 4.11 model of the data structures and protocols of the kernel module and of its contract
generator, with proofs. `dafny verify dfyconfig.toml` checks everything. One module per source file or
protocol:

- `Prefix`: addresses, prefix match, normalisation and hashing (`fw_types.h`). Prefix lengths mean what
  section 3.1 of RFC 4632 (IPv4) and section 2.3 of RFC 4291 (IPv6) say: the leading bits. Masks and
  shifts are written out on naturals; an IPv6 address is 16 octets.
- `BanSpec`, `BanTable`, `BanProtocol`, `FloodGate`: the layered ban table (`fw_ban.c`). `BanSpec` says
  what the table means (a map from address and prefix to ban); `BanTable` is the code as a class over
  layers, buckets, the count array and the bitmap, proved to do exactly that; `BanProtocol` is the same
  table as a step system with any number of threads, where linking, marking, unlinking, releasing and each
  probe of a lookup are separate steps.
- `RateSlots`, `RateRoll`, `Ewma`: slot ownership, window roll-up and detection arithmetic (`fw_rate.c`).
- `LocalSet`, `Whitelist`, `Netdev`, `Firewall`: the local-address set, the whitelist, its
  reconciliation, and the verdict composed from all tables (`fw_local.c`, `fw_wl.c`, `fw_netdev.c`,
  `fw_hook.c`).
- `Lease`, `Paging`: the daemon lease and the paged replies of `fw_netlink.c`, on the bucket walk shared by
  the three tables.
- `Stats`: per-CPU statistics with their lossy slots, flush and take (`fw_stats.c`).
- `Text`, `SnapshotLine`, `SnapshotFile`, `SnapshotCut`, `SnapshotChecksum`, `SnapshotRestore`,
  `SnapshotRoundTrip`, `SnapshotNewline`, `Restart`: the snapshot file (`fw_state.c`): printing and parsing a
  line, the checksum tail, truncation, changed bytes, restore as the inverse of save, newlines in names, and
  save and restore joined on the tables themselves. `Crc32` is the byte step of that checksum.
- `Layout`, `LayoutAgree`, `LayoutVerifier`: the wire layout computed by the generator (`contract/gen.py`),
  exactly when the emitted header has the same one, and the verifier that compares them
  (`contract/verify_layout.py`).
- `Basics`: a missing-value datatype and a fact about size.

What the code leaves to others is a parameter: `jhash` is any function of the address, the clock is any
non-decreasing pair of jiffies and wall-clock seconds, a CRC step is any function of checksum and byte (the
code uses the CRC-32 of section 3.2.9 of IEEE 802.3, see `Crc32`), and address text is any encoding without
spaces, slashes and newlines that its parser inverts.

## Findings

Places where a stronger claim fails, each with a lemma, and where it makes sense with the exact condition
under which it holds:

- The comment at `fw_ban.c:22-32` says a marked live entry keeps its layer's count positive. It does not:
  a delete may take the entry of an insert that has not marked yet, and a lookup then misses a ban whose
  insert has returned (`ReachOverdrawn`, `MarkedEntryInvisible`). What does hold is the accounting in
  `AlwaysAccounted`, and `LayerVisible` says exactly when a layer is seen.
- The expiry callback spares temporary entries only, so a permanent renewal is removed by a callback that
  was already waiting for the bucket lock (`RenewedSurvivesCallback`).
- The entry limit can be exceeded, by at most one less than the number of inserts in flight, and by that
  much for any number of them (`AlwaysAccounted`, `CapacityOvershoots`).
- The flood gate admits beyond its limit when its 32-bit counter wraps inside one window (`WrapReopens`,
  `WrapAdmitsAgain`).
- Rate entries are published to every possible CPU and cleared on the online ones only. A CPU that was
  offline during a reclaim keeps a pointer to the freed entry (`DanglingIffOffline`, `OfflineSlotDangles`);
  on CPU 0, which is the one probed for free slots, the slot is lost (`LeakIsPermanent`).
- Likewise traffic counted on a CPU that has gone offline is not taken until it is back (`TakeTraffic`,
  `OnlineMisses`).
- A saved ban with more than 365 days left is silently lost on restore (`ComesBackIffKept`). With capacities
  so large that a file passes 32 MiB, the save succeeds and the restore refuses it (`SavedFileFits`,
  `SaveAndRestore`).
- Reasons are written with their newlines. A reason that holds one never comes back
  (`RestoredReasonsClean`, `ReasonComesBackIff`), and what follows it is read as a line of its own
  (`NewlineForgesLine`): one such reason is enough to whitelist all of IPv4 and lose every IPv4 ban
  (`OneReasonLosesAll`). It can also hold a checksum line for what precedes it, and a file cut there is
  accepted with the rest gone (`ForgedCutAccepted`; exactly when: `CutsSafeIff`).
- The total of the rate table counts entries that are being reclaimed, so the pages of a client may end
  before it (`RatePages`).
- A sustained rate of T+1 to T+3 may never be detected at threshold T (`DetectionFrontier`).
- Packets per second above U64_MAX / HZ packets in a window are nearly right exactly while the quotient times
  HZ fits 64 bits (`PerSecondCoarse`); one such count within one jiffy comes out as rate 0
  (`PerSecondWraps`).
- A struct with a tail that is embedded in another struct gets different sizes from generator and header
  unless its tail element is empty, and so does a byte array of length 0. These are the only causes
  (`AgreeExactly`, `GateIsExact`, `NestedTailDiffers`, `CharsAgreeIffPositive`).

## Model

| member | source | states |
|---|---|---|
| `Prefix.PrefixMeaning` | src/kernel-module/fw_types.h:757-778 | prefix match holds exactly when the first L bits are equal, and exactly when the normalised addresses are equal, for IPv4 words and IPv6 octets |
| `Prefix.FullMatchIsEquality` | src/kernel-module/fw_types.h:748-778 | at full length a match is equality and normalising changes nothing |
| `Prefix.NormalizeBits` | src/kernel-module/fw_types.h:805-823 | normalising keeps the leading bits, clears every bit behind the prefix, and twice is once |
| `Prefix.NormalizeOctetsInPlace` | src/kernel-module/fw_types.h:808-822 | the in-place octet loop leaves the normalised octets in the array |
| `Prefix.OctetsMatchBits` | src/kernel-module/fw_types.h:763-777 | whole octets, then one masked octet, compare exactly the leading bits |
| `Paging.FillPage` | src/kernel-module/fw_ban.c:634-673 | the nested bucket walk with a running index returns rows offset .. offset + limit of the enumeration, as it does in the whitelist and the rate table |
| `Paging.CopyChain` | src/kernel-module/fw_ban.c:654-667 | one bucket of that walk: rows before the offset are counted and skipped, and copying stops when the page is full |
| `Paging.PagesReproduce` | src/kernel-module/fw_netlink.c:355-405 | for any total not below the number of rows, pages followed by the returned count, with any limits, give the enumeration in order, each row once, and one query per row is enough |
| `Paging.AllProgress` | src/kernel-module/fw_netlink.c:363-386 | every page below the total makes progress if and only if the total is not above the number of rows |
| `Paging.PageHonoured` | src/kernel-module/fw_netlink.c:355-405 | a page has as many rows as the client asked for, 256 for none, the cap above it, or what is left, and they are the rows from the offset on |
| `Paging.MessagesFit` | src/kernel-module/fw_netlink.c:84-87 | no page of any of the three replies wraps the u16 message length, and one more row per page would |
| `BanSpec.MatchesMeaning` | src/kernel-module/fw_ban.c:163-174 | a ban covers an address exactly when the leading bits agree, whatever host bits were stored |
| `BanSpec.CoveredSameBucket` | src/kernel-module/fw_ban.c:111-121 | every address a ban covers hashes to the ban's own bucket in its layer |
| `BanSpec.ValidSourceMeaning` | src/kernel-module/fw_types.h:829-862 | an address may be banned exactly when it lies in none of 0/8, 127/8, 224/4, 255/8, ::, ::1, ff00::/8, fe80::/10 |
| `BanSpec.InsertMeaning` | src/kernel-module/fw_ban.c:434-504 | an insert adds an absent key while there is room, gives an expired ban the new times and its old names, and leaves everything else as it is |
| `BanSpec.RenewedSurvivesCallback` | src/kernel-module/fw_ban.c:298-311 | a renewed entry survives an expiry callback exactly when the new ban is temporary and its deadline is ahead; a permanent renewal is unlinked by a callback already waiting |
| `BanTable.Table.Lookup` | src/kernel-module/fw_ban.c:369-383 | true exactly when some linked ban covers the address, though only layers marked in the bitmap are probed |
| `BanTable.Table.ProbeLayer` | src/kernel-module/fw_ban.c:163-174 | true exactly when a linked ban of that prefix length covers the address |
| `BanTable.Table.InsertBan` | src/kernel-module/fw_ban.c:434-504 | adds one triple, renews an expired one, or changes nothing (live duplicate, table full), with the status of each; counts and bitmap stay consistent |
| `BanTable.Table.Renew` | src/kernel-module/fw_ban.c:451-476 | renewing replaces four scalars of one entry and nothing else |
| `BanTable.Table.Link` | src/kernel-module/fw_ban.c:486-491 | linking then marking keeps every layer count equal to its population and its bit set exactly when that is positive |
| `BanTable.Table.Unlink` | src/kernel-module/fw_ban.c:559-563 | unlinking then releasing keeps the same |
| `BanTable.Table.LayerMark` | src/kernel-module/fw_ban.c:143-148 | one more in the layer; the bit is set on the step from 0 to 1 |
| `BanTable.Table.LayerRelease` | src/kernel-module/fw_ban.c:150-155 | n fewer in the layer; the bit is cleared when nothing is left |
| `BanTable.Table.Del` | src/kernel-module/fw_ban.c:533-570 | removes exactly the triple asked for, or reports that it is absent |
| `BanTable.Table.ExpireCallback` | src/kernel-module/fw_ban.c:274-329 | unlinks the entry unless it is gone already or temporary with a deadline ahead |
| `BanTable.Table.DelMatching` | src/kernel-module/fw_ban.c:577-611 | removes exactly the bans whose address lies in the network, at every prefix length |
| `BanTable.Table.DelMatchingBucket` | src/kernel-module/fw_ban.c:588-608 | one bucket of that: the matching entries of the bucket go, all others stay |
| `BanTable.Table.FillEntries` | src/kernel-module/fw_ban.c:634-673 | returns one page of the enumeration |
| `BanTable.Table.EnumerationExact` | src/kernel-module/fw_ban.c:643-669 | the enumeration lists every linked ban exactly once, and its length is the ban counter |
| `BanTable.Table.UnmarkedIsEmpty` | src/kernel-module/fw_ban.c:369-383 | a layer whose bit is clear holds no ban, so skipping it loses nothing |
| `FloodGate.Limiter.Allow` | src/kernel-module/fw_ban.c:393-409 | one call admits or refuses and moves the window as the gate's step says |
| `FloodGate.AtMostTwicePerSecond` | src/kernel-module/fw_ban.c:393-409 | over any number of calls at non-decreasing times at most twice max(1, limit) is admitted in any one-second interval, wherever it starts, unless a single window sees 2^32 calls |
| `FloodGate.AtMostPerWindow` | src/kernel-module/fw_ban.c:398-408 | under the same condition at most max(1, limit) is admitted until the window ends |
| `FloodGate.TwiceIsReached` | src/kernel-module/fw_ban.c:398-408 | the factor two is reached: four additions within one second at a limit of two |
| `FloodGate.BelowLimitAllAdmitted` | src/kernel-module/fw_ban.c:393-409 | no call is refused before the limit: up to the limit all calls get through, whatever their times |
| `FloodGate.SpacedAllAdmitted` | src/kernel-module/fw_ban.c:393-409 | calls a second apart are all admitted, whatever the limit |
| `FloodGate.WrapReopens` | src/kernel-module/fw_ban.c:398-408 | with the limit used up, a call inside an open window is admitted exactly when it wraps the 32-bit counter, and the whole limit is open again then |
| `FloodGate.WrapAdmitsAgain` | src/kernel-module/fw_ban.c:398-408 | such a run: two calls in one window whose limit of one is used up, both admitted |
| `BanProtocol.InvStep` | src/kernel-module/fw_ban.c:434-504 | every step of any thread under the locks keeps the accounting, the bitmap, bucket exclusion and the entry counter |
| `BanProtocol.AlwaysAccounted` | src/kernel-module/fw_ban.c:143-155 | in every reachable state each layer count is linked entries minus pending marks plus pending releases, the bit is set exactly when it is positive, and the table overshoots its limit by at most one less than the inserts in flight |
| `BanProtocol.LayerVisible` | src/kernel-module/fw_ban.c:369-383 | in every state the invariant allows, a layer is marked exactly when its entries and pending releases outnumber its pending marks |
| `BanProtocol.LinkedIsVisible` | src/kernel-module/fw_ban.c:486-491 | a linked entry whose layer has no insert between link and mark is in a marked layer |
| `BanProtocol.QuiescentBitmap` | src/kernel-module/fw_ban.c:594-608 | at quiescence a bit is set exactly when its layer is non-empty |
| `BanProtocol.LookupFinds` | src/kernel-module/fw_ban.c:369-383 | a lookup racing with any other steps finds a covering ban if the bit of its layer is set at the instant it is tested and the ban is linked at the instant its bucket is walked |
| `BanProtocol.MarkedIsSeen` | src/kernel-module/fw_ban.c:486-491 | enough for that: the ban stays linked and no insert into its layer is between link and mark while the lookup runs |
| `BanProtocol.HitsAreReal` | src/kernel-module/fw_ban.c:163-174 | a lookup that reports a hit saw a covering entry linked at some moment while it ran |
| `BanProtocol.ReachOverdrawn` | src/kernel-module/fw_ban.c:486-491 | the state in which a delete has released another insert's share is reachable from a fresh table |
| `BanProtocol.MarkedEntryInvisible` | src/kernel-module/fw_ban.c:22-32 | the comment's claim fails: a run from a fresh table in which an insert has linked, marked and returned, nothing unlinks its entry, and a lookup begun after that answers "not banned" for an address it covers |
| `BanProtocol.CapacityOvershoots` | src/kernel-module/fw_ban.c:479-487 | the bound is tight for every limit and every number K of inserts in flight: K inserts of absent keys in different buckets, all checked before any links, exceed the limit by K - 1 |
| `RateSlots.ProbeLoop` | src/kernel-module/fw_rate.c:462-475 | the probe loop finds the first free slot from its start, wrapping |
| `RateSlots.ProbeFirst` | src/kernel-module/fw_rate.c:462-475 | the index found is free and every index from the start up to it, wrapping, is taken |
| `RateSlots.ProbeFailsOnlyWhenFull` | src/kernel-module/fw_rate.c:462-475 | probing fails exactly when every slot is taken |
| `RateSlots.InvStep` | src/kernel-module/fw_rate.c:178-224 | every step of create, publish, unlink, flush, per-CPU clearing, free and CPU hot-plugging keeps slot ownership |
| `RateSlots.SlotsAreOwned` | src/kernel-module/fw_rate.c:410-431 | in every reachable state two linked entries never share a slot or a source, and every slot of every CPU holds exactly the entry last published to it that has not been cleared there |
| `RateSlots.DanglingIffOffline` | src/kernel-module/fw_rate.c:206-232 | a slot points at a freed entry if and only if that entry was the last published there and the CPU was not among those cleared by its reclaim |
| `RateSlots.FlushFixesTargets` | src/kernel-module/fw_rate.c:206-232 | the CPUs a reclaim clears before it frees are exactly those online when its flush began, whatever is plugged or unplugged meanwhile |
| `RateSlots.OfflineSlotDangles` | src/kernel-module/fw_rate.c:206-232 | a run on two CPUs, one offline, after which the offline one points at the freed entry |
| `RateSlots.LeakIsPermanent` | src/kernel-module/fw_rate.c:462-475 | a slot of CPU 0 that points at an entry reclaimed while CPU 0 was offline is never free again, in any run of the steps modelled |
| `RateSlots.OnlineSlotsAreLive` | src/kernel-module/fw_rate.c:410-431 | on any CPU that stays online an occupied slot belongs to an entry not freed and not yet cleared there: no dangling pointer and no leak |
| `RateSlots.AtMost512Sources` | src/kernel-module/fw_rate.c:441-495 | at most 512 sources are tracked at once |
| `RateSlots.RefusedOnlyWhenFull` | src/kernel-module/fw_rate.c:462-475 | while CPU 0 stays online a create is refused a slot only when entries linked or not yet cleared hold all 512: none has leaked |
| `RateSlots.CountIsLinkedAndReclaiming` | src/kernel-module/fw_rate.c:206-222 | in every reachable state the entry counter is the number of linked entries plus that of entries unlinked and not freed yet |
| `RateSlots.RatePages` | src/kernel-module/fw_rate.c:756-813 | with that counter as the total the pages reproduce the linked entries, and every page below the total makes progress if and only if no reclaim is under way |
| `Ewma.NeverAbove` | src/kernel-module/fw_rate.c:78-80 | if the start and all window rates are at most T, the smoothed rate never exceeds T |
| `Ewma.GapLaw` | src/kernel-module/fw_rate.c:78-80 | under a constant rate the gap below it shrinks to ceil(7d/10) in each window |
| `Ewma.SustainedTrips` | src/kernel-module/fw_rate.c:549-564 | a source at T+4 or more is above T within a computed number of windows, whatever else its rates do |
| `Ewma.WindowsLogarithmic` | src/kernel-module/fw_rate.c:549-564 | that number is at most 3 log2 of the starting gap, plus 5 |
| `Ewma.DetectionFrontier` | src/kernel-module/fw_rate.c:549-564 | a constant source is ever detected exactly when its gap law lets it pass the threshold: always from T+4, never from T+1..T+3 when it starts low enough |
| `Ewma.SmoothExact` | src/kernel-module/fw_rate.c:78-80 | no u64 wrap while rates are at most a tenth of the range, and the floor of the weighted mean then |
| `Ewma.PerSecondExact` | src/kernel-module/fw_rate.c:83-89 | packets per second is the exact floor while count times HZ fits 64 bits |
| `Ewma.PerSecondCoarse` | src/kernel-module/fw_rate.c:83-89 | above that the divide-first branch is below the true rate by less than HZ if and only if its own product, count / elapsed * HZ, fits 64 bits |
| `Ewma.WithinLimitsNeverFlagged` | src/kernel-module/fw_rate.c:615-655 | a source whose window rates stay within both static limits is never flagged by the total check, for any limits and whatever the dynamic threshold is |
| `Ewma.ConstantFlaggedIff` | src/kernel-module/fw_rate.c:615-655 | a source of constant rates is flagged in some window if and only if its packet or byte rate is 4 or more above its threshold |
| `Ewma.ThresholdMeaning` | src/kernel-module/fw_rate.c:615-645 | the threshold is at least the static limit and the dynamic product while it fits, and one of the two |
| `RateRoll.InvStep` | src/kernel-module/fw_rate.c:506-577 | each observe, elect, exchange and settle step keeps the ledger of packets and at most one roller |
| `RateRoll.Conservation` | src/kernel-module/fw_rate.c:506-577 | over every interleaving packets observed equal packets settled plus packets a roller carries plus the residue in the slots plus those discarded |
| `RateRoll.ConservationFromStart` | src/kernel-module/fw_rate.c:697-741 | the same from an empty entry, and in every state at most one CPU is rolling |
| `RateRoll.AllAmountsAccounted` | src/kernel-module/fw_rate.c:697-741 | from an empty entry what the packets of the run brought is settled, carried, in a slot or discarded |
| `RateRoll.RollSettles` | src/kernel-module/fw_rate.c:506-577 | a roll that nothing interrupts settles exactly what the live slots hold, leaves those slots at 0 and the rest as it was |
| `RateRoll.RollCollects` | src/kernel-module/fw_rate.c:506-577 | in every interleaving, once a roller has settled, all that the live slots it had to take held is settled or was discarded by a reclaim |
| `RateRoll.PortTracker.Roll` | src/kernel-module/fw_rate.c:516-577 | the port list only grows, stays duplicate-free and at most 32 long, and holds all ports observed when they are at most 32 |
| `RateRoll.PortTracker.ObservePort` | src/kernel-module/fw_rate.c:722-735 | the per-CPU list records a new port once, up to its capacity |
| `RateRoll.MergePorts` | src/kernel-module/fw_rate.c:531-544 | merging keeps what was there, adds only ports seen, and adds them all while there is room |
| `LocalSet.DefaultCapacity` | src/kernel-module/fw_local.c:35-44 | a power of two of at least the parameter, or the cap, and no larger than needed |
| `LocalSet.NetdevCapacity` | src/kernel-module/fw_netdev.c:125-142 | a power of two of at least the parameter and the address count, or the cap |
| `LocalSet.Table.Lookup` | src/kernel-module/fw_local.c:70-101 | true exactly when the address was inserted; ends on a full table too |
| `LocalSet.Table.Insert` | src/kernel-module/fw_local.c:130-157 | false exactly for a duplicate or a full table; otherwise adds the address and nothing else |
| `LocalSet.Build` | src/kernel-module/fw_netdev.c:151-177 | every one of up to 65536 collected addresses is a member after the build, and nothing else is |
| `Whitelist.Table.Lookup` | src/kernel-module/fw_wl.c:114-147 | bucket plus subnet list answer exactly whether some entry covers the address |
| `Whitelist.Table.CoverSplit` | src/kernel-module/fw_wl.c:114-147 | a full-length entry covers an address only by being that host; every other cover is on the subnet list |
| `Whitelist.Table.Add` | src/kernel-module/fw_wl.c:157-210 | adds one entry, names an unnamed duplicate, or refuses, with the status of each and the reject counter |
| `Whitelist.AddedMeaning` | src/kernel-module/fw_wl.c:157-210 | only a new key takes room, only an unnamed entry takes a name, cut to 15 bytes, and no other entry changes |
| `Whitelist.Table.RemoveQuiet` | src/kernel-module/fw_wl.c:248-268 | removes exactly the triple asked for from bucket and subnet list |
| `Whitelist.Table.FillEntries` | src/kernel-module/fw_wl.c:274-310 | returns one page of the enumeration |
| `Whitelist.Table.EnumerationExact` | src/kernel-module/fw_wl.c:281-307 | the enumeration lists every entry exactly once, and its length is the entry counter |
| `Netdev.Search` | src/kernel-module/fw_netdev.c:225-245 | the paged scan finds a stale entry if there is one |
| `Netdev.Pass` | src/kernel-module/fw_netdev.c:219-252 | one pass removes one stale entry, or none is left |
| `Netdev.Reconcile` | src/kernel-module/fw_netdev.c:214-255 | terminates and removes exactly min(S, 64) of the S stale automatic entries; entries named manual or restored and entries with a local address stay, and with fewer than 64 removed only such entries are left |
| `Firewall.Hook.BanCheck` | src/kernel-module/fw_hook.c:104-154 | drops exactly when not shutting down, the source is neither whitelisted nor local, and it is banned or a rate reason is returned; in the last case a self-ban is tried; the tables are those of the packet operation of the run model, and unchanged when no self-ban is tried |
| `Firewall.Hook.TryAddBan` | src/kernel-module/fw_ban.c:506-531 | succeeds exactly when key and source are valid, no whitelist entry covers the address, the flood gate admits, and the key is present or there is room; otherwise the table is unchanged, and a refusal before the gate leaves the gate alone |
| `Firewall.TryAddMeaning` | src/kernel-module/fw_ban.c:506-531 | each of the five statuses with its exact condition, and the effect on the table |
| `Firewall.SelfBanMeaning` | src/kernel-module/fw_hook.c:138-152 | a self-ban is of the one host, in the jail "ddos", for the configured time or else the default ban time, from now |
| `Firewall.Hook.RemoveFromWhitelist` | src/kernel-module/fw_wl.c:212-245 | a local address is refused; a removal also lifts every ban inside the network; both as the removal operation of the run model |
| `Firewall.UnwhitelistedMeaning` | src/kernel-module/fw_wl.c:212-245 | a removal that is not refused takes the one entry and exactly the bans whose address lies in its network |
| `Firewall.HeldStep` | src/kernel-module/fw_hook.c:104-154 | one operation keeps a host-banned source held if and only if it does not remove that ban, is not a timer that finds it expired, does not whitelist the source and does not make it local |
| `Firewall.SelfBanSticks` | src/kernel-module/fw_hook.c:104-154 | after a self-ban that returned 0 every later packet of that source drops, over any operations at any times, until one of those ends it |
| `Firewall.SelfBanLastsToDeadline` | src/kernel-module/fw_hook.c:104-154 | before its deadline a temporary self-ban is not ended by any timer, whenever that was armed |
| `Lease.Control.Receive` | src/kernel-module/fw_netlink.c:823-889 | the receive loop changes owner and activity, and dispatches commands, as the message sequence says |
| `Lease.ActivityIsLatest` | src/kernel-module/fw_netlink.c:823-889 | the activity stamp is the time of the owner's latest message |
| `Lease.AnsweredExactly` | src/kernel-module/fw_netlink.c:823-889 | over every run a command is executed if and only if it is valid, somebody holds the lease, and its sender is the owner or the owner was silent for the timeout; a register is granted if and only if it is valid and nobody holds the lease, its sender does, the owner was silent or its socket is dead; the owner changes exactly then |
| `Lease.SendersHeard` | src/kernel-module/fw_netlink.c:823-889 | the commands dispatched over a run are exactly those, in order |
| `Lease.LeaseSafety` | src/kernel-module/fw_netlink.c:803-889 | over every run each executed command comes from the owner, and ownership leaves p only when p was silent for the whole timeout or its socket was dead at a register |
| `Lease.KeepsLeaseIffAttentive` | src/kernel-module/fw_netlink.c:803-889 | a daemon keeps its lease through a run exactly when no register finds it dead or silent for the timeout |
| `Stats.PerCpu.AccountUdp` | src/kernel-module/fw_stats.c:107-122 | the packet and its bytes are held for its port afterwards; spill rises exactly when packets of another port sat in the slot; no other slot changes |
| `Stats.PerCpu.MergeSlot` | src/kernel-module/fw_stats.c:201-244 | a slot is added in full to its port's entry, or to a new one while there is room and memory, else the loss is counted; no other port changes |
| `Stats.PerCpu.FlushLocal` | src/kernel-module/fw_stats.c:291-336 | a flush is the sequence of counter moves, slot merges and the spill move, in that order |
| `Stats.FlushDrains` | src/kernel-module/fw_stats.c:291-336 | a flush leaves the CPU block empty and moves every counter in full |
| `Stats.FlushAll` | src/kernel-module/fw_stats.c:338-343 | afterwards the block of every online CPU is empty, that of an offline one is what it was, and the totals have grown by the sum of what the online ones held |
| `Stats.TakeTraffic` | src/kernel-module/fw_stats.c:399-406 | returns the traffic not yet taken of the totals and of every online CPU and leaves none there; accepted and dropped counts are moved, not taken; an offline CPU keeps what it holds |
| `Stats.OnlineMisses` | src/kernel-module/fw_stats.c:338-343 | what the online CPUs hold is all there is if and only if every offline one holds nothing |
| `Stats.LocalLaw` | src/kernel-module/fw_stats.c:107-244 | an operation never adds more to a port than it accounts, and when it loses anything it raises a loss counter |
| `Stats.NeverOverReports` | src/kernel-module/fw_stats.c:107-336 | in every interleaving on any number of CPUs table plus slots hold at most what was accounted to a port, packets and bytes, and exactly that while all loss counters are zero |
| `Stats.LossExact` | src/kernel-module/fw_stats.c:107-244 | an operation keeps every port's packets and bytes and adds all it accounts, unless it displaces another port or merges a port that can get no entry; exactly those raise the loss counters, by one |
| `Stats.HeldIffLossless` | src/kernel-module/fw_stats.c:107-336 | over every interleaving table and slots hold all packets accounted, of every port, if and only if no step was such a loss |
| `Stats.LosslessHoldsAll` | src/kernel-module/fw_stats.c:107-336 | and then the bytes of every port too |
| `Stats.NothingMiscounted` | src/kernel-module/fw_stats.c:157-162 | flushes preserve accepted and dropped totals; successive takes plus what remains add up to all traffic recorded |
| `Text.ParseBack` | src/kernel-module/fw_state.c:433-462 | kstrtouint, kstrtoul and kstrtoint read back what %u printed |
| `Text.ParsedExactly` | src/kernel-module/fw_state.c:433-462 | exactly the numerals up to the limit are read, an optional plus before and one optional newline behind, as the number they write |
| `Text.LineBack` | src/kernel-module/fw_state.c:382-388 | sscanf reads back what %08x printed |
| `Text.TokensOfLines` | src/kernel-module/fw_state.c:617-624 | strsep on newlines undoes joining lines that hold none |
| `SnapshotLine.RowKeepsDeadline` | src/kernel-module/fw_ban.c:89-94 | the second-granular row is live exactly when the entry is, and its remaining time is the deadline rounded up to a second |
| `SnapshotLine.BanLineBack` | src/kernel-module/fw_state.c:410-494 | a printed ban reads back with address, prefix, remaining seconds, jail and reason; only more than 365 days left is rejected |
| `SnapshotLine.WlLineBack` | src/kernel-module/fw_state.c:496-540 | a printed whitelist entry reads back, its device name up to the first space |
| `SnapshotLine.ShortLines` | src/kernel-module/fw_state.c:410-494 | a ban line without a slash is a ban of the one host, as version 1 files have it; a missing reason or jail gets its default; a line without a time is skipped |
| `SnapshotLine.BanLineFormat` | src/kernel-module/fw_state.c:205-225 | a ban line is tag, address, slash, prefix length, remaining seconds, jail and reason, separated by single spaces |
| `SnapshotLine.BanLineClean` | src/kernel-module/fw_state.c:119-126 | after sanitising, only a newline in the reason can break a ban line |
| `SnapshotLine.WlLineClean` | src/kernel-module/fw_state.c:264-270 | only a newline in the device name can break a whitelist line |
| `SnapshotFile.FoldChunks` | src/kernel-module/fw_state.c:132-143 | the checksum folded chunk by chunk is that of the whole |
| `SnapshotChecksum.ChangeDetected` | src/kernel-module/fw_state.c:132-143 | for a step that tells states and bytes apart, two texts that differ in one byte have different checksums, wherever the byte is |
| `SnapshotChecksum.Crc32Invertible` | src/kernel-module/fw_state.c:132-143 | the byte step of CRC-32 is such a step |
| `SnapshotChecksum.ChangedBodyRefused` | src/kernel-module/fw_state.c:366-401 | any accepted file with one byte of its body changed and its checksum line where it was is refused |
| `SnapshotChecksum.ChangedByteDetected` | src/kernel-module/fw_state.c:366-401 | a saved file with any one byte changed and its checksum line where it was is refused or accepted with exactly the body saved |
| `SnapshotFile.Writer.WriteChunk` | src/kernel-module/fw_state.c:132-143 | appends the chunk and keeps the running checksum that of the file |
| `SnapshotFile.Writer.WriteBans` | src/kernel-module/fw_state.c:173-236 | reading the ban table in pages of 64 writes the row of every live ban up to the limit, in table order, once |
| `SnapshotFile.Writer.WriteWhitelist` | src/kernel-module/fw_state.c:238-279 | reading the whitelist in pages of 64 writes every entry up to the limit, in table order, once |
| `SnapshotFile.Writer.Save` | src/kernel-module/fw_state.c:281-354 | the file is the header, the ban lines and the whitelist lines of the two tables and the checksum line over them |
| `SnapshotFile.VerifyCrc` | src/kernel-module/fw_state.c:366-401 | the search loop for the last checksum line, the scan and the comparison accept exactly the verified bodies |
| `SnapshotFile.FindCrcLine` | src/kernel-module/fw_state.c:369-378 | the strnstr loop finds the last checksum line |
| `SnapshotCut.OnlyMark` | src/kernel-module/fw_state.c:366-378 | in a saved file the checksum line is the only one that looks like one if and only if no live reason and no device name holds a newline with "CRC32 " right behind it |
| `SnapshotCut.UntruncatedAccepted` | src/kernel-module/fw_state.c:281-331 | an untruncated save is always accepted, with exactly the body written, whatever the names hold |
| `SnapshotCut.TruncationSafe` | src/kernel-module/fw_state.c:366-401 | unless a live reason or a device name holds a newline with "CRC32 " right behind it, a save cut at any byte is refused or accepted with exactly the full body |
| `SnapshotCut.CutsSafeIff` | src/kernel-module/fw_state.c:366-401 | for any tables and any codec: every cut is refused or accepted with the full body if and only if behind no such mark inside the body anything scans to the checksum of what precedes it |
| `SnapshotCut.ForgedCutAccepted` | src/kernel-module/fw_state.c:366-401 | a 16-byte reason that defeats the checksum, whatever the codec: the save cut right behind it is accepted with everything after it gone |
| `SnapshotRestore.Restorer.Restore` | src/kernel-module/fw_state.c:542-653 | once only, size limit, checksum, then whitelist pass and ban pass into the real tables; a refused file changes nothing |
| `SnapshotRestore.Restorer.RestoreBan` | src/kernel-module/fw_state.c:410-494 | one ban line: skipped when malformed or whitelisted, else normalised and inserted with its remaining time |
| `SnapshotRestore.Restorer.RestoreWl` | src/kernel-module/fw_state.c:496-540 | one whitelist line: skipped when malformed, else normalised and added |
| `SnapshotRoundTrip.FirstWinsMeaning` | src/kernel-module/fw_state.c:608-646 | what the result map of a restore means: the listed keys, each with the first value listed |
| `SnapshotRoundTrip.RestoreInvertsSave` | src/kernel-module/fw_state.c:608-646 | restoring a saved file into empty tables with room gives exactly the saved whitelist and exactly the live bans with at most 365 days left that the saved whitelist does not cover, normalised, first duplicate winning |
| `SnapshotRoundTrip.ComesBackIffKept` | src/kernel-module/fw_state.c:464-474 | a saved row with a key of its own comes back exactly when it is live, has at most 365 days left and is not covered by the saved whitelist |
| `SnapshotRoundTrip.SameCoverBack` | src/kernel-module/fw_state.c:496-540 | the restored whitelist covers exactly the addresses the saved one covers |
| `SnapshotNewline.RestoredReasonsClean` | src/kernel-module/fw_state.c:608-646 | no restore from any file whatever gives a ban whose reason holds a newline |
| `SnapshotNewline.ReasonComesBackIff` | src/kernel-module/fw_state.c:410-494 | a saved row with a key of its own, among rows without newlines, comes back with its own reason if and only if it is kept and its reason holds no newline |
| `SnapshotNewline.NewlineForgesLine` | src/kernel-module/fw_state.c:608-646 | what follows the newline in a reason is read by the restore as a line of its own, whatever it says and whatever else is saved |
| `SnapshotNewline.OneReasonLosesAll` | src/kernel-module/fw_state.c:608-646 | one reason that holds a whitelist line for all of IPv4: the restored whitelist covers every IPv4 address and no IPv4 ban comes back |
| `Restart.SaveAndRestore` | src/kernel-module/fw_state.c:542-653 | the two real tables saved and restored into fresh ones: refused exactly above 32 MiB, else a key is banned if and only if some unexpired ban with at most 365 days left that is not whitelisted normalises to it, with the names of such a ban and a deadline less than one second later; an address is banned exactly when such a ban covers it; the whitelist has the normalised keys and covers the same addresses |
| `Restart.AloneComesBack` | src/kernel-module/fw_state.c:542-653 | so a ban with a normalised key of its own is back exactly when it is one of those, and then as itself |
| `Restart.InsertKeepsOk` | src/kernel-module/fw_ban.c:434-504 | inserting a ban keeps what SaveAndRestore asks of the ban table |
| `Restart.RemovalKeepsOk` | src/kernel-module/fw_ban.c:274-329 | so do an expiry callback, a removal by network and the passing of time |
| `SnapshotRoundTrip.SavedFileFits` | src/kernel-module/fw_state.c:68-75 | a save exceeds the size limit derived from the capacities exactly when it exceeds the 32 MiB cap |
| `SnapshotNewline.NewlineSplitsLine` | src/kernel-module/fw_state.c:218-225 | a newline in a reason writes the bytes of a shorter reason and a further line, so the restore cannot tell them apart |
| `Layout.GenLayout` | contract/gen.py:429-454 | the recursive layout with its stack and offset loop computes the pure layout, and terminates on every contract |
| `Layout.AcyclicLaysOut` | contract/gen.py:429-467 | every declaration of an acyclic contract has a layout |
| `Layout.CycleIsError` | contract/gen.py:432-436 | a declaration from which a cycle can be followed is reported |
| `Layout.SmallerStack` | contract/gen.py:429-454 | a layout does not depend on what is being laid out around it |
| `Layout.WireIsFixed` | contract/gen.py:782-790 | the wire size, total minus one tail element, is the offset of the tail |
| `LayoutAgree.LayoutsAgree` | contract/verify_layout.py:183-227 | on good declarations the recomputation over the emitted header gives the generator's wire size and the offset of every emitted field |
| `LayoutAgree.AgreeExactly` | contract/verify_layout.py:183-227 | all declarations agree in size and offsets if and only if no byte array or alias in a field has length 0 and every struct that is embedded, as a field or as a message header, has no tail or an empty tail element |
| `LayoutAgree.WidthsForced` | contract/verify_layout.py:190-211 | equal sizes and offsets force equal widths field by field: no two differences compensate |
| `LayoutAgree.FieldAgrees` | contract/gen.py:456-467 | each emitted field type has the width the generator used |
| `LayoutAgree.CharsAgreeIffPositive` | contract/verify_layout.py:211 | a byte array has the same width on both sides exactly when its length is not zero |
| `LayoutAgree.NestedTailDiffers` | contract/gen.py:429-467 | a concrete contract with its header that meets all hypotheses of AgreeExactly and embeds a struct with a tail: the generator's wire size is 2, the header's size 1 |
| `Layout.CapacityExact` | contract/gen.py:533-556 | the tail capacity is the largest n with fixed + n * elem <= 65535 |
| `Layout.AcceptedIffOneFits` | contract/gen.py:546-552 | a tailed message is accepted exactly when one entry fits |
| `LayoutVerifier.Verifier.LayoutOf` | contract/verify_layout.py:213-223 | the memoised layout of a struct is its layout from scratch; a failure means there is none |
| `LayoutVerifier.Verifier.Width` | contract/verify_layout.py:195-211 | the width of a type token, through the memo |
| `LayoutVerifier.Verifier.Compute` | contract/verify_layout.py:225-227 | succeeds exactly when every struct has a layout from scratch, and then returns those |
| `LayoutVerifier.OutsideHarmless` | contract/verify_layout.py:213-223 | why the memo is sound: a struct outside a finished set can be on the stack without changing its layouts |
| `LayoutVerifier.CheckPasses` | contract/verify_layout.py:230-294 | on good declarations the comparison of layout file and header reports no problem |
| `LayoutVerifier.GateIsExact` | contract/verify_layout.py:230-294 | the comparison is clean on all declarations if and only if all are good, that is if and only if generator and header agree |
| `LayoutVerifier.AcyclicVerifies` | contract/verify_layout.py:183-227 | on every acyclic contract of good declarations the verifier succeeds and its sizes are the generator's wire sizes |

## Left out

- Memory order: steps are sequentially consistent, and a region under a lock is one step.
- An `fw_stat_udp_account` or counter increment interrupted on its own CPU by the flush callback: both are
  one step in `Stats`.
- Allocation failure, except in `Stats`; RCU grace periods and timer arming, of which only the effect of a
  callback is modelled.
- Wrap-around of jiffies, of the u64 statistics and of the u32 entry counters. The u64 wrap of the rate
  arithmetic is modelled.
- Family codes other than IPv4 and IPv6, and null pointers.
- The chains of `BanTable` and `Whitelist` are sequences in a field, not linked nodes: aliasing of nodes is
  not captured. The order within a chain is.
- Renewal of an expired entry inside `BanProtocol`; it neither links nor marks. `BanTable` has it.
- `fw_ban_exit`, `fw_rate_exit`, `fw_rate_clear_all` and the order of module start and stop.
- `LeakIsPermanent`, `DanglingIffOffline`: rate entries have identities of their own. In the code a new entry
  may be allocated at the address of a freed one, and a stale pointer then points at it.
- The entry-count check of `fw_rate_create`: `RateSlots` allows every create that finds a slot, which only
  adds runs.
- Rate entries hold one counter in `RateRoll`; the other seven are handled alike by the code.
- ICMP statistics (the same slot scheme under another key), histograms, and the analysis snapshot.
- Failing file writes, fsync, rename and path validation; a failed write leaves the old file in place.
- `RestoreInvertsSave` and `SaveAndRestore`: assume names without NUL, and reasons and device names without
  newlines, which is what the tables' buffers hold unless a caller puts a newline there; `ReasonComesBackIff`
  says what happens to a reason then. A device name is restored up to its first space. Save and restore are
  at one instant.
- `ReasonComesBackIff`: assumes the reasons of the other rows hold no newline; what follows one is a line of
  its own, which a restore may read as any ban or whitelist entry.
- `AgreeExactly`, `GateIsExact`: assume distinct C names and field names and the tail last, without which a
  header is not what the generator emits, and that every declaration has a layout (`AcyclicLaysOut`,
  `CycleIsError`).
- `SelfBanSticks`: the tables change one operation at a time.
- The bucket walk of a lookup is one step in `BanProtocol`: entries linked or unlinked while it is under way
  are seen or not seen as a whole.
- `RateRoll`: a roller's entry check and exchange of one CPU's counter, and an observer's check and
  increment, are one step each. In the code a reclaim callback can fall between the two.
- The chains of the rate table: `RatePages` takes its enumeration as given, and `FillPage` is its page walk.
- The per-protocol rate thresholds of `fw_rate_protocol_check`, which compare other smoothed counters alike.
- The command handlers of `fw_netlink.c` behind the lease, message contents, procfs, HTTP, and the whole
  frontend: parsing and formatting.
- `validate_path`, the text and emitter parts of `contract/gen.py`, and the compiler probe of
  `contract/verify_layout.py`.
