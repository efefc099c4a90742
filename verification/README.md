# Verified model of the rollback arena

The library gives a fighting game rollback netplay. All game memory lives in one 2 GB arena. Each
frame, a snapshot engine saves the pages written since the last frame into a ring of 60 deltas; an
evicted delta is folded into a baseline. A rollback to frame n restores each page from the newest
delta at or before n, else from the baseline, else as zero. Around that engine sit a small region
allocator, checkers and repairers for the game allocator's free lists, list surgery on the objects a
rollback leaves incoherent, and observers that measure what a rollback changed. This project models
those parts and proves what they are for.

Layout, from the bottom up:

- `Pages.dfy` - the geometry of the arena.
- `DeltaStore.dfy` - the delta store on values. `Provenance.dfy` puts a history beside it, with a full
  copy of memory at every save and load and the origin of every page content; `RestoreTheorems.dfy`
  has the theorems over all runs.
- `SnapshotEngine.dfy` - the engine itself, step by step on its ring, bitmaps and buffers; every
  method is proved against the delta store.
- `FoldProtocol.dfy` - the background fold as a state machine of two threads over two rings;
  `DeferredFold.dfy` adds the page map and the supplemental area to it, and `DeferredEngine.dfy` runs
  the two threads beside the history, save by save.
- `EdgeDiff.dfy`, `AudioPreserve.dfy`, `Crc32.dfy` (with `Iteration.dfy`) - the observers.
- `RollbackSession.dfy` - engine, history and preserved objects run together, call by call.
- `RegionCarver.dfy` - the region allocator.
- `FreeList.dfy`, `FreeListRebuild.dfy`, `CycleDiag.dfy` - checking, repairing and rebuilding free lists.
- `BirthStamps.dfy`, `Rethread.dfy`, `UnitLists.dfy` with `LinkRepair.dfy` and `DeadVtable.dfy` - identity
  and list surgery.

## How restore is stated

Every save, kept or failed, and every load adds an entry to the history. A page's content has an
origin: the entry at which it was first seen. The dirty bits of the ring, the write watch and the
record of folds fix every origin, so origins are what a caller can follow from outside. A load is
*right* on a page when it leaves the content the target entry recorded, and *always right* when it is
for all page contents that fit the same dirty bits. `Sound` is the condition: a reverted page is taken
from a slot (or from the baseline) that no rollback has discarded, and its content at the target was
not lost; a page left live has no pending write and nothing newer; and where a load has left a page at
another content than its target's, so that the entries in between are off the page's timeline, the
page must come from the very entry the target had it from. Whether entries are discarded, and whether
a content is lost, is kept page by page. A frame is `Restorable` on a page when every load of it that
undoes the window - the pages of later slots and the pending writes - is always right.

## What the proofs found

- A load is always right on a page if and only if the page is `Sound`, for every target, after any run:
  slots wrap and fold, saves fail, rollbacks go back and forth, pages are skipped
  (`RestoreTheorems.ExactRestore`).
- After saves that capture a page whenever it is written, with room to fold it, every frame is
  restorable on it, so a load gives what the full copy has; nothing is asked but of the operations
  (`RestoreTheorems.RestoreIsFullCopy`). Which steps keep every frame restorable is exact
  (`RestoreTheorems.GentleIff`).
- Until a slot after it is evicted, frame n stays restorable on a page through any chain of windowed
  loads of n or later that do not skip the page, whether those loads are right or wrong, although the
  slots they discard stay valid (`RestoreTheorems.SavedFrameComesBack`, `LaterLoadKeeps`). Which failed
  saves and loads keep it is exact (`RestoreTheorems.KeptIff`).
- The frame saved last comes back exactly through fewer than 60 further saves
  (`RestoreTheorems.HeldForSixtySaves`; `RollbackSession.Session.SaveThenRollback` says it of the engine's
  own calls and bytes).
- A later load above a rollback's target takes a page from a discarded slot when no newer slot has it,
  and then yields whatever the slot holds (`RestoreTheorems.DiscardedContentShows`; a concrete run is
  in `AboveHorizonIsInexact`). The page is right again exactly once a save has captured it
  (`RestoreTheorems.HorizonRecovers`).
- With the background fold switched on, under every interleaving in which no inline fold touches a
  pending destination, a load made once the pending folds are drained sees the store that folds at
  once, so all of this holds of it (`DeferredEngine.DeferredRestore`). No save gets stuck
  (`DeferredEngine.NeverStuck`).
- A save that fails to grow its page buffer has already consumed the write-watch bits. It does no harm
  exactly when it had harvested nothing that the window does not have anyway
  (`RestoreTheorems.FailedSaveHarmlessIff`, `FailedSaveHarmless`; a concrete run is in
  `FailedSaveLosesPage`). A harvested page stays lost exactly until a later save captures it
  (`RestoreTheorems.LostUntilCaptured`).
- FULL restore skips the pending-write merge. It agrees with the windowed one on a page, for all
  contents, exactly when a pending write to the page is to a page already dirty
  (`RestoreTheorems.ModesAgree`); the failing input is a write to a clean page
  (`RestoreTheorems.FullKeepsPendingWrite`). This is as long as the dirty set covers the ring, which a
  load ends exactly when the slots it discards have pages no older slot has
  (`RestoreTheorems.LoadCoversIff`).
- Pages of the heap zone lie above the watermark and are never harvested. A load that does not skip
  them sets them back to the captured baseline, not to frame n
  (`RestoreTheorems.ZoneFallsBackToBaseline`).
- Folding keeps all content exactly when the pages new to the baseline fit in the supplemental area
  (`DeltaStore.FoldKeepsAllIffRoom`).
- When a destination list cannot be allocated, or deferring is switched off with jobs in flight, the
  save folds inline without draining. The result is right for every page content exactly when no job
  in flight still has one of the destinations to write (`DeferredFold.InlineFoldSafeIff`). A run that
  goes wrong: a page is saved in two slots, the first is evicted in the background, and the second is
  folded inline before the worker takes the job; the baseline ends with the older content
  (`DeferredFold.InlineFoldGoesWrong`).
- A repaired free list passes the checker, but a second repair accepts it exactly up to 199998 nodes
  (`FreeList.RepairedIsFit`): the count it corrected is then past its own cap and it declines with -1.
  Lists of 199999 to 200001 nodes with a stored count of 199998 are accepted once and then declined
  (`FreeList.SecondRepairDeclines`).
- A commit whose start is not page-aligned and whose length spills over marks one page too few. Every
  committed page stays marked exactly when the range does not spill (`RegionCarver.MarksCompleteIff`;
  an input is in `CommitThatSpills`).
- The carver's test against the heap zone is right exactly when offset plus size does not wrap in 64
  bits (`RegionCarver.LimitTestRightIff`). A carve keeps the books sound exactly when its request does
  not slip through that test (`RegionCarver.CarveSoundIff`; inputs that do are in `CarveThatSlips`).
- Capturing an effect's child list and re-threading it in unchanged memory is the identity exactly
  when every captured child points back at its parent and the capture reached the end of the list
  (`Rethread.RoundTripIff`). A list of more than 512 children is cut (`Rethread.LongListChanges`), and
  children of another owner are dropped.
- Where comments and code disagree the model follows the code: MAX_PAGES is 524288, not 262144
  (src/arena.cpp:38); a region grabbed twice keeps its first extent.

## Modelling choices

- Bitmaps are sets of page numbers; the kernel's write watch is the set of pages written since the
  last reset; the tag bit of the baseline map is a datatype with two constructors. Page copies are
  atomic. The outcome of an allocation or commit is a parameter.
- The thread protocol is a state machine; each step makes at most one change the other thread can see.
  The lock-free claim in the birth-stamp table and the carver's critical section are sequential.
- Linked structures are maps from addresses to records: a readable header is one record, headers do
  not overlap, and reading a node that is not in the map is the unreadable case. Descriptor and
  singleton slots are assumed readable, and one notion of readable memory stands for both the page
  query and the committed bitmap.
- Address sums of two in-range values are taken not to wrap, except in the carver, where the model
  reduces them mod 2^64.

## Model

| member | source | states |
|---|---|---|
| RestoreTheorems.ExactRestore | src/arena.cpp:1560-1755 | after the baseline capture and any run of writes, saves at rising frames, failed saves and loads, a load in any mode gives page p its content at the entry the frame stands for, for all page contents, if and only if p is Sound |
| RestoreTheorems.RestoreIsExact | src/arena.cpp:1657-1755 | the same for any set of pages to revert and any set to skip |
| RestoreTheorems.WindowIsExact | src/arena.cpp:1597-1641 | unless the content the page had at the target, or has now unwritten, is lost, reverting any set that has the page whenever the window has it is right exactly when the page does not come from a discarded slot |
| RestoreTheorems.AlwaysRightIffExact | src/arena.cpp:1663-1735 | a page comes out right for all contents exactly when the content it gets and the target's have the same origin |
| RestoreTheorems.ExactIffSound | src/arena.cpp:1657-1755 | origins agree exactly when the source is not discarded and the target's content is not lost |
| RestoreTheorems.DiscardedContentShows | src/arena.cpp:1575-1583 | a page taken from a discarded slot becomes whatever that slot holds, while the target entry stays the same |
| RestoreTheorems.SavedFrameComesBack | src/arena.cpp:1575-1641 | re-rollback: a frame restorable now comes back exactly, for every revert set that covers the window, after writes, saves, failed saves and any chain of loads of that frame or later, right or wrong, until a later slot is evicted |
| RestoreTheorems.TargetOfSlot | src/arena.cpp:1564-1572 | a frame in the ring stands for its own entry |
| RestoreTheorems.KeptIff | src/arena.cpp:1597-1641 | a step keeps a frame restorable on a page exactly when a later slot has the page, or else a failed save had not harvested it, and a load reverts no slot's content of it and leaves no pending write |
| RestoreTheorems.LaterLoadKeeps | src/arena.cpp:1575-1641 | every windowed load of the frame or later that does not skip the page is such a step, whatever it restores |
| RestoreTheorems.HeldForSixtySaves | src/arena.cpp:1384-1641 | the frame saved last comes back exactly on a page it can be restored on, through any run of writes, fewer than 60 further saves with room to fold the page, and windowed loads of that frame or later that do not skip it |
| RestoreTheorems.RestorableIff | src/arena.cpp:1597-1641 | restorable says that every load of the frame that undoes the window is right for all contents |
| RestoreTheorems.IntactIsRestorable | src/arena.cpp:1657-1735 | a frame on the page's timeline is restorable when its page comes from no discarded slot and nothing of it is lost |
| RestoreTheorems.RestoreIsFullCopy | src/arena.cpp:1323-1755 | delta restore is full-copy restore: after the baseline capture, any run whose saves capture the page whenever it is written, and then any run with rollbacks that keeps frame n, a load of n gives the page what the full copy for n has |
| RestoreTheorems.GentleIff | src/arena.cpp:1384-1480 | a step keeps every frame restorable on a page exactly when a save captures it if written, a failed one had not harvested it, the fold keeps it, and a load changes nothing of it but pending writes |
| RestoreTheorems.HorizonRecovers | src/arena.cpp:1882-1897 | after a rollback and any writes and saves, a load at or after those saves is right on a page exactly when it leaves the page live, or some save has captured it since, or it never came from a discarded slot; only a content that is itself lost is excluded |
| RestoreTheorems.UntilCaught | src/arena.cpp:1342-1346 | over any run of writes and saves a page stays on a discarded slot, and stays lost, exactly until a save captures it |
| RestoreTheorems.FailedSaveHarmlessIff | src/arena.cpp:1404-1416 | on a page a load got right before, a failed save does no harm exactly when it had not harvested the page or the window has it anyway |
| RestoreTheorems.FailedSaveHarmless | src/arena.cpp:1404-1416 | a failed save leaves a load of the newest save right on every page exactly when it had harvested nothing |
| RestoreTheorems.LostUntilCaptured | src/arena.cpp:1404-1416 | after a failed save, and any further writes and saves, restoring a harvested page to the newest save is right exactly when some save since has captured it |
| RestoreTheorems.FailedSaveLosesPage | src/arena.cpp:1404-1416 | a concrete input: a failed save, then a good one, and loading that frame yields the baseline content |
| RestoreTheorems.AboveHorizonIsInexact | src/arena.cpp:1882-1897 | a concrete input: a load above an earlier rollback target takes a page from a discarded slot |
| RestoreTheorems.FullIsExact | src/arena.cpp:1597-1603 | while the dirty set covers the ring, FULL restore is right on a page exactly when a dirty page does not come from a discarded slot and a clean one has no pending write |
| RestoreTheorems.ModesAgree | src/arena.cpp:1597-1641 | windowed restore with and without coherent-full pages give the same page; FULL restore does, for all contents, exactly when a pending write to the page is to a dirty or a skipped one |
| RestoreTheorems.FullKeepsPendingWrite | src/arena.cpp:1597-1603 | the failing input: a pending write to a clean page survives a FULL restore |
| RestoreTheorems.LoadCoversIff | src/arena.cpp:1882-1891 | after a load the dirty set covers the ring exactly when every page of a discarded slot is also in an older one |
| RestoreTheorems.StepCovers | src/arena.cpp:1430-1465 | saves, failed ones too, keep the dirty set covering the ring, and the sixtieth save restores the cover |
| RestoreTheorems.StepNeverHarvests | src/arena.cpp:1339-1346 | while the scan limit stays at or below z, no operation ever puts a page at or above z into a slot or the baseline |
| RestoreTheorems.ZoneFallsBackToBaseline | src/arena.cpp:801-820 | a watched zone page that is not skipped is set back to the captured baseline by any load |
| Provenance.StartInv | src/arena.cpp:930-1020 | right after the baseline capture the ring, the baseline and memory agree with a history of one full copy |
| Provenance.StepKeepsInv | src/arena.cpp:1323-1482 | every operation - writes, saves kept or failed, with or without room to fold, loads in every mode, with or without the pending-write merge - keeps ring, baseline, write watch and memory tied to the history; the frame of a save is above those in the ring, as the frame counter of src/resim.cpp:4106 makes it |
| Provenance.SrcNames | src/arena.cpp:1663-1735 | the newest-first walk over any number of slots, then the baseline, yields the page content of a known entry |
| Provenance.SaveKept | src/arena.cpp:1342-1436 | after a save each content on a page's timeline is in the ring or covered by the baseline, unless the page was written and not captured, or dropped by the fold |
| Provenance.LoadLine | src/arena.cpp:1882-1897 | after a load each page is on the target's timeline, or, where the load left another content, on the line of that content alone |
| DeltaStore.FoldKeepsAllIffRoom | src/arena.cpp:526-600 | a fold keeps every page of the evicted slot exactly when the new ones fit in the supplemental area, and the room shrinks by their number |
| SnapshotEngine.Arena.CaptureBaseline | src/arena.cpp:930-1020 | the baseline holds exactly the committed pages, each its own copy, and ring, watch and dirty set are empty; with no committed page only the flag is set; nothing happens when the write watch cannot be queried |
| SnapshotEngine.Arena.CommitPage | src/arena.cpp:280-286 | committing a page keeps the count equal to the number of set bits and changes nothing the store records |
| SnapshotEngine.Arena.WritePage | src/arena.cpp:1342-1346 | a store to a committed page changes that page and is noted by the write watch |
| SnapshotEngine.Arena.GetWriteWatch | src/arena.cpp:1342-1346 | the harvest lists each written page below the limit once |
| SnapshotEngine.Arena.CopyCommitted | src/arena.cpp:996-1007 | the scan that stops after the counted number of pages has copied every committed page, because the count is the number of set bits |
| SnapshotEngine.Arena.ResolveFoldDst | src/arena.cpp:526-555 | the destination of a page is its present place or a fresh supplemental one, none exactly when the area is full; all other places stay |
| SnapshotEngine.Arena.FoldPage | src/arena.cpp:556-568 | folding one page replaces its baseline copy, and no other, or drops it when the area is full |
| SnapshotEngine.PutIs | src/arena.cpp:526-568 | overwriting one baseline copy changes that page only, because no two pages share a copy |
| SnapshotEngine.Arena.FoldIntoBaseline | src/arena.cpp:556-568 | folding a slot in place is the fold of the delta store |
| SnapshotEngine.Arena.Save | src/arena.cpp:1384-1480 | a save evicts and folds the oldest slot and captures exactly the written pages that begin below the watermark, counted in bytes, or anywhere in the arena while there is no watermark; or it fails with the bits consumed. It succeeds exactly when there is a baseline, the write watch answers, and the buffer suffices or grows |
| SnapshotEngine.Arena.ScanLimitIs | src/arena.cpp:1339-1346 | the scan covers exactly the pages that begin below the watermark, or the whole arena while it is zero |
| SnapshotEngine.Arena.Evict | src/arena.cpp:1384-1385 | the harvest consumes exactly its write-watch bits, and the oldest slot is folded |
| SnapshotEngine.Arena.FillSlot | src/arena.cpp:1395-1436 | the slot holds exactly the harvested pages with their live content; it fails exactly when a larger buffer is needed and cannot be had |
| SnapshotEngine.CopiedIs | src/arena.cpp:1424-1436 | the packed copies, page map, dirty bits and dense list describe one delta |
| SnapshotEngine.Arena.NoteDirty | src/arena.cpp:1430-1465 | the dirty set gains the harvested pages, and every sixtieth save it is rebuilt |
| SnapshotEngine.Arena.RebuildDirtyBits | src/arena.cpp:661-669 | the rebuilt dirty set is the union over the valid slots |
| SnapshotEngine.Arena.OrderSlots | src/arena.cpp:1575-1596 | the exchange sort lists exactly the valid slots, by ascending frame |
| SnapshotEngine.Arena.RevertSet | src/arena.cpp:1597-1641 | field by field: a windowed load undoes the pages written since the last save, if the write watch answers, those of the valid slots above the target, and the dirty coherent-full ones; a FULL load undoes the dirty pages and no others; always within the committed pages |
| SnapshotEngine.Arena.RevertSpecIs | src/arena.cpp:1597-1641 | the set a load undoes, in terms of mode, write watch, slots, dirty set and coherent-full set |
| SnapshotEngine.Arena.RevertPage | src/arena.cpp:1690-1755 | one page becomes what the backward walk over the ordered slots finds, else its baseline copy, else zero, whatever the order of frames in the ring |
| SnapshotEngine.Arena.RevertPages | src/arena.cpp:1657-1755 | the loop over all pages reverts exactly the pages to undo that are not skipped, and the edge diff sees every one |
| SnapshotEngine.Arena.RecalledIs | src/arena.cpp:1657-1735 | what the walk answers is a latest content at or before the target, for every ring |
| SnapshotEngine.Arena.RebuildUpTo | src/arena.cpp:1882-1891 | the dirty set after a load is the union over the slots at or before the target |
| SnapshotEngine.Arena.Load | src/arena.cpp:1560-1897 | after a windowed load every page written since the last save, if the write watch answers, every page of a valid slot above the target and every dirty coherent-full page holds a latest content at or before the target - from a slot with the greatest such frame that has it, else the baseline's, else zero - unless it is excluded; after a FULL load every dirty page does; all other pages stay live, the watch is reset, and the edge diff sees every reverted page; with ascending frames this is the delta store's load |
| SnapshotEngine.LatestIsSource | src/arena.cpp:1575-1596 | with ascending frames the latest content is unique and is the delta store's |
| SnapshotEngine.WalkHits | src/arena.cpp:1663-1700 | the first hit of the backward walk over the ordered slots is a latest content at or before the target |
| SnapshotEngine.WalkMisses | src/arena.cpp:1700-1735 | a walk without a hit means that no slot at or before the target has the page |
| SnapshotEngine.NewestIsMax | src/arena.cpp:1690-1700 | with ascending frames the newest content is that of the slot with the greatest frame that has the page |
| SnapshotEngine.Rotate | src/arena.cpp:1390-1395 | refilling the head slot and advancing the head is one shift of the ring |
| SnapshotEngine.AllWrittenIs | src/arena.cpp:661-669 | the union over the ring array is the union over the slots in rotation order |
| SnapshotEngine.Arena.SetRederiveExclusions | src/arena.cpp:1052-1075 | the exclusion set marks exactly the pages the in-arena ranges touch |
| SnapshotEngine.Arena.MarkRanges | src/arena.cpp:1052-1073 | the marking loops set exactly the bits of the pages that share a byte with a range starting in the arena |
| SnapshotEngine.Arena.SetCoherentFullRanges | src/arena.cpp:1080-1103 | so does the coherent-full set |
| SnapshotEngine.Arena.ResolveSource | src/arena.cpp:1508-1531 | the reader's own walk finds the same source as the load's, and none exactly when no slot and no baseline has the page |
| SnapshotEngine.Arena.SnapReadBytes | src/arena.cpp:1536-1558 | at any point of a load's page loop, over any range, also across pages, the reader returns the bytes the finished load leaves there on pages it does not skip; absent is set exactly when some page has no source |
| AudioPreserve.Preserver.Save | src/audio_preserve.cpp:41-79 | every recorded region is a candidate and holds its live bytes; unless the scratch space is exhausted, which is counted, they are the first readable candidates at their bases |
| AudioPreserve.ReadableIs | src/audio_preserve.cpp:41-43 | readable are the nonempty regions of the arena whose first and last byte lie in committed pages |
| AudioPreserve.FirstsAreFirst | src/audio_preserve.cpp:41-50 | kept are exactly the candidates that no earlier readable candidate shares a base with |
| AudioPreserve.Preserver.Grab | src/audio_preserve.cpp:41-50 | one region is recorded with its live bytes exactly when it is readable, its base is new and there is room; a lack of room is counted |
| AudioPreserve.Preserver.Restore | src/audio_preserve.cpp:81-93 | write-back makes exactly the recorded regions live again, also where they overlap |
| AudioPreserve.Preserver.WriteBack | src/audio_preserve.cpp:83-86 | writing one region back changes its bytes and no others |
| RollbackSession.Session.constructor | src/arena.cpp:930-1020 | a captured arena starts the history, whose scan limit is the watermark in pages |
| RollbackSession.Session.Write | src/arena.cpp:1342-1346 | a store is a write step of the history |
| RollbackSession.Session.Commit | src/arena.cpp:280-286 | committing a page is no step |
| RollbackSession.Session.Grow | src/arena.cpp:250 | a carve that moves the watermark moves the scan limit of the history: the pages below it are those that begin below the watermark |
| RollbackSession.Session.Save | src/arena.cpp:1323-1482 | a save, kept or failed, is that step of the history, and what it captured are the written pages that begin below the watermark; without an answer from the write watch there is no step |
| RollbackSession.Session.Load | src/arena.cpp:1560-1897 | a load in either mode, with or without the pending-write merge, is that step of the history; page by page, skipped pages stay, every Sound page becomes the target entry's, and so does every restorable page that is not skipped when a windowed load has merged the pending writes |
| RollbackSession.Session.SaveThenRollback | src/arena.cpp:1323-1897 | end to end: a page that begins below the watermark and is in the baseline, saved at a frame, overwritten and saved again at each of up to 59 later frames, and overwritten once more, has its saved bytes again after a windowed load of the frame that does not skip it |
| RollbackSession.WindowRegains | src/arena.cpp:1597-1641 | a windowed load that merges the pending writes undoes the whole window, so it gives every restorable page the target entry's content |
| RollbackSession.Session.Rollback | src/audio_preserve.cpp:41-93 | after capture, load and write-back each byte has one epoch: live in a recorded region or on a skipped page, and on a Sound page otherwise that of the target entry |
| RollbackSession.LoadedIs | src/arena.cpp:1674-1755 | the store a load leaves, as the history's step and page by page |
| EdgeDiff.FourCountersPartition | src/edge_break.cpp:74-100 | over the whole arena the four break counters add up to the number of changed qwords that held an external pointer before or after |
| EdgeDiff.EdgeBreak.DiffPage | src/edge_break.cpp:74-100 | the loop over a page adds that page's counts to the tallies, and nothing when switched off |
| EdgeDiff.CountersAreSizes | src/edge_break.cpp:74-100 | over the whole arena each counter is the number of qwords changed in its way |
| EdgeDiff.CountersByWay | src/edge_break.cpp:81-92 | each of the four counters by itself: external pointers that became null, poison, or something else, and values that are external pointers only after the revert |
| EdgeDiff.IsOoaPtrIs | src/edge_break.cpp:50-57 | the chain of range checks accepts exactly the canonical, 8-aligned user addresses outside the arena and the module |
| EdgeDiff.QwordIs | src/edge_break.cpp:77-79 | a qword of a page is its eight bytes read little-endian |
| EdgeDiff.ChangedIsSize | src/edge_break.cpp:74-100 | the changed counter is the number of arena qwords that differ between pre-load and post-load memory |
| EdgeDiff.ZeroMeansNoEdgeBroke | src/edge_break.cpp:102-112 | a reported zero means exactly that no changed qword anywhere held an external pointer on either side |
| DeferredFold.DrainedIsSynchronous | src/arena.cpp:1298-1308 | under every interleaving, with inline folds where they are safe, once the completed count has caught up with the submitted one, the baseline page by page and the supplemental room left are those of folding all evicted deltas in order on the main thread |
| DeferredFold.StepKeepsInv | src/arena.cpp:1361-1383 | every step keeps that: what the pending work will make of the baseline is the synchronous fold of the log |
| DeferredFold.ApplyIsFold | src/arena.cpp:626-658 | one job's copies, to the places resolved when it was built, are the fold of the evicted delta, with the same pages dropped when the area is full |
| DeferredFold.ResolveIs | src/arena.cpp:526-555 | each page's destination is its place, none exactly when it has none; places are distinct and old ones stay |
| DeferredFold.NextCaps | src/arena.cpp:1369-1378 | until it is folded, a valid slot's buffer holds what the slot captured, whatever the worker does |
| DeferredFold.FreshInv | src/arena.cpp:570-596 | a store without jobs, with the captured baseline in place, satisfies the invariant |
| DeferredFold.InlineFoldSafeIff | src/arena.cpp:1384-1385 | an inline fold with jobs in flight comes to the synchronous fold for all contents exactly when its destinations are disjoint from those still pending |
| DeferredFold.InlineFoldGoesWrong | src/arena.cpp:1361-1385 | a run from the fresh engine after which an inline fold leaves the baseline with the older content of a page |
| DeferredEngine.DeferredRestore | src/arena.cpp:1298-1308 | after the baseline capture and any run of saves, writes and loads with the worker interleaved in any way, a load made once drained sees the store that folds at once, and is right on a page exactly when the page is Sound there |
| DeferredEngine.RunIs | src/arena.cpp:1323-1482 | every run of the two threads is a run of operations of that store, save by save |
| DeferredEngine.NeverStuck | src/arena.cpp:1359-1480 | between saves one can begin; one under way can always go on, to be kept with any frame and page list a save may have; and while it waits for the ring the worker has a step or the wait is over |
| DeferredEngine.MoveKeepsInv | src/arena.cpp:1359-1420 | every step keeps the slots in ring order those of the store, and the log of evicted deltas its baseline, with the slot of a save under way accounted for |
| DeferredEngine.DrainedIsStore | src/arena.cpp:1298-1308 | once drained, baseline and room are those of the store that folds at once |
| DeferredEngine.StartCoupled | src/arena.cpp:930-1020 | they are so after the baseline capture |
| FoldProtocol.DrainedIsSynchronous | src/arena.cpp:1298-1308 | the same at the level of addresses, for any destinations |
| FoldProtocol.StepKeepsInv | src/arena.cpp:596-658 | every step of either thread keeps single ownership of buffers and the equality between pending work and the synchronous fold |
| FoldProtocol.FreshInv | src/arena.cpp:570-596 | a store without jobs, each slot with its own buffer, satisfies the invariant |
| FoldProtocol.BuildDrained | src/arena.cpp:626-640 | building a job appends it to the pending work, and its destination list is the backing store of no unread job |
| FoldProtocol.FoldInlineDrained | src/arena.cpp:1384-1385 | an inline fold that touches no pending destination leaves the pending work right |
| FoldProtocol.InFlightBufferIsPrivate | src/arena.cpp:1361-1385 | while a job is in flight no slot, no other job and no return entry refers to its buffer |
| FoldProtocol.DrainTerminates | src/arena.cpp:641-658 | from any reachable state with all jobs published, worker steps alone reach the drained state |
| FoldProtocol.WaitsIff | src/arena.cpp:579-600 | a save waits exactly when 8 jobs are in flight, and a worker drops its buffer exactly when 8 are waiting to be reused |
| FoldProtocol.DrainedOver | src/arena.cpp:641-658 | pending work fixes exactly the addresses it will still write, whatever the store holds there |
| FoldProtocol.InlineFoldSafeIff | src/arena.cpp:1384-1385 | at the level of addresses, an inline fold is right for all contents exactly when its destinations are disjoint from those still pending |
| RegionCarver.AlwaysSound | src/arena.cpp:93-144 | after every run of carves and releases of any 64-bit sizes in which no carve slips through the test against the heap zone, reservations and free blocks are pairwise disjoint, 64 KB aligned, below the watermark and the heap zone, and reserved, free and dropped bytes add up to the watermark |
| RegionCarver.CarveSound | src/arena.cpp:230-260 | a carved region is aligned, below the heap zone and apart from every live reservation and every remaining free block |
| RegionCarver.PlaceIsFresh | src/arena.cpp:229-265 | a request of any size that does not slip is answered with a place where that many bytes share none with what was reserved |
| RegionCarver.CarveCases | src/arena.cpp:229-265 | a carve in full: the first free block that fits is taken out or split at its start, else the watermark rises by the size, else there is no room; the region is recorded, and lost to the books only when the table has 4096 entries |
| RegionCarver.CarveSoundIff | src/arena.cpp:234-240 | a carve keeps the books sound exactly when its sum does not wrap to a value the test lets through |
| RegionCarver.CarveThatSlips | src/arena.cpp:234-244 | inputs that slip: with nothing free and something reserved, a request for the rest of the 64-bit range sends the watermark back to zero |
| RegionCarver.FirstCarve | src/arena.cpp:234-265 | one carve from unused books leads there |
| RegionCarver.Carver.constructor | src/arena.cpp:93-100 | an unused arena has sound books, and everything in it reads zero |
| RegionCarver.FreeAfterApart | src/arena.cpp:124-138 | split or swap-remove leaves the free list disjoint, and apart from the carved part |
| RegionCarver.ReleaseSound | src/arena.cpp:338-355 | a release keeps all of that |
| RegionCarver.LimitTestRightIff | src/arena.cpp:236-237 | the test against the heap zone gives the right answer exactly when the 64-bit sum does not wrap |
| RegionCarver.MarksCompleteIff | src/arena.cpp:297-307 | the marked pages are all the pages committed exactly when the range does not spill over the pages its length alone would fill |
| RegionCarver.TouchedIs | src/arena.cpp:297-307 | the pages the system commits for a range are those that share a byte with it |
| RegionCarver.CommitThatSpills | src/arena.cpp:297-307 | an input that spills: two bytes across a page boundary, of which only the first page is marked |
| RegionCarver.Carver.AllocFromFreeList | src/arena.cpp:124-138 | first fit, with split or swap-remove |
| RegionCarver.Carver.CarveRegion | src/arena.cpp:234-265 | free list first, else the watermark, else no room; the reservation is recorded or dropped |
| RegionCarver.Carver.MarkCommitted | src/arena.cpp:278-286 | the loop marks each page of the range once and keeps the count equal to the number of marks |
| RegionCarver.Carver.VirtualAlloc | src/arena.cpp:229-290 | the carve step, the pages committed and marked, and a region that reads zero: it begins at a multiple of 64 KB, ends below the heap zone, shares no byte with any reservation, and, if it is to be committed, lies in committed pages |
| RegionCarver.Carver.CarveDonation | src/arena.cpp:1175-1202 | the same for donated regions, committed in full |
| RegionCarver.Carver.CommitRange | src/arena.cpp:292-310 | a commit by address; memory stays clean when the range does not spill |
| RegionCarver.Carver.Decommit | src/arena.cpp:330-338 | the marked pages of the range are zeroed and stay committed |
| RegionCarver.Carver.VirtualRelease | src/arena.cpp:340-358 | the first reservation at the offset is zeroed and moves to the free list as it is, lost to the books only when that has 4096 entries; nothing else is touched, an unknown offset is ignored; what nobody holds still reads zero |
| RegionCarver.Carver.ReleaseThenAlloc | src/arena.cpp:340-358 | a region released and asked for again in the same size, when no other free block fits, is handed out again, and the watermark stays |
| RegionCarver.ReleaseZero | src/arena.cpp:346-355 | after the committed pages of a released region are zeroed, everything nobody holds reads zero |
| RegionCarver.Carver.WritePage | src/arena.cpp:340-358 | a holder's write keeps memory clean, because what it holds is not vacant |
| FreeList.RelinkedIsLinked | src/alloc_invariants.cpp:190-205 | rewriting the back links of a chain keeps its forward order, makes it reciprocal and changes no other field of any node |
| FreeList.RepairMeetsChecker | src/alloc_invariants.cpp:51-101 | a repaired list is well-formed for the checker and has no field left to fix |
| FreeList.FreeLists.CheckList | src/alloc_invariants.cpp:51-101 | the checker passes exactly the well-formed lists within its overrun cap, and only reads |
| FreeList.FreeLists.RepairList | src/alloc_invariants.cpp:175-205 | repairs exactly the lists whose forward chain can be trusted; -1 wrote nothing; otherwise head, tail, count and size sum describe the chain, and the result is the number of nodes rewritten plus the number of descriptor fields changed |
| FreeList.FreeLists.ValidateForward | src/alloc_invariants.cpp:178-189 | the first pass accepts exactly the lists whose forward chain can be trusted, and only reads |
| FreeList.FreeLists.WriteBack | src/alloc_invariants.cpp:190-205 | the second pass rewrites back links and descriptor and counts the fields that disagreed |
| FreeList.DescribeIs | src/alloc_invariants.cpp:196-205 | the descriptor written has the ends and the length of the chain, and half the sum of its size words, mod 2^32 |
| FreeList.WrongLinksIs | src/alloc_invariants.cpp:190-196 | the wrong links counted are exactly the nodes that the pass rewrites |
| FreeList.StampIs | src/flist_rebuild.cpp:22-32 | how in-use bit, size, class and kind make up the two stamp words |
| FreeList.RepairedIsFit | src/alloc_invariants.cpp:178-189 | a repaired chain is trusted again exactly when it has at most 199998 nodes |
| FreeList.SecondRepairDeclines | src/alloc_invariants.cpp:175-189 | lists of 199999 to 200001 nodes that are repaired once and declined the second time |
| FreeList.FreeLists.RepairCheckRepair | src/alloc_invariants.cpp:175-205 | after a repair the check passes, and a second repair returns 0, or declines when the list is past its own limit |
| FreeListRebuild.SweepFindsFreeBlocks | src/flist_rebuild.cpp:77-120 | the two-level sweep collects exactly the free class-k blocks of the region's tiling and of its class-k slabs |
| FreeListRebuild.FreeBlockIs | src/flist_rebuild.cpp:77-120 | those are the blocks with the in-use bit clear, of class k and of a kind other than 2, that the stamps place in the region or in one of its class-k slabs |
| FreeListRebuild.TilesAreBlocks | src/flist_rebuild.cpp:77-95 | tilings in terms of addresses: each block begins where the one before it ends, and each stamp fits |
| FreeListRebuild.SweepSucceedsIff | src/flist_rebuild.cpp:77-120 | it succeeds exactly when the stamps tile the region and every class-k slab in it |
| FreeListRebuild.GatherFindsFreeBlocks | src/flist_rebuild.cpp:125-175 | so do the primary pool and the donated regions together |
| FreeListRebuild.GatherIsHarvest | src/flist_rebuild.cpp:125-175 | the same over all regions of the pool, in terms of the stamps |
| FreeListRebuild.GatherSucceedsIff | src/flist_rebuild.cpp:125-175 | the gathering succeeds exactly when every region with a base and a size can be read block by block |
| FreeListRebuild.RechainedIsList | src/flist_rebuild.cpp:180-207 | re-chaining visits the gathered blocks in order and then null, with reciprocal links, and changes no stamp and no other block |
| FreeListRebuild.RebuildIsGroundTruth | src/flist_rebuild.cpp:125-208 | over disjoint regions the rebuilt list holds exactly the free class-k blocks the stamps show, each once |
| FreeListRebuild.RebuildIsRepairFixpoint | src/flist_rebuild.cpp:194-207 | a chained and described list of primary free blocks is well-formed and gives the repairer nothing to fix |
| FreeListRebuild.RepairFindsNothing | src/flist_rebuild.cpp:125-207 | whatever a sweep without donated regions gathers, the rebuilt list is one the repairer accepts, or empty, and there is nothing to change |
| FreeListRebuild.Rebuilder.RebuildThenRepair | src/flist_rebuild.cpp:194-207 | a repair after a rebuild without donated regions returns 0 and leaves memory and descriptor as they are |
| FreeListRebuild.Rebuilder.RebuildFromPool | src/flist_rebuild.cpp:125-208 | all or nothing: a list of the free blocks of class k and of a kind other than 2 that the stamps show, each once if no two regions overlap, linked both ways, with no stamp and no other block changed; or -1 with nothing written, on a class tag outside 1 to 8, unreadable stamps, more than 65536 blocks, or none for a manager that claims some, and over disjoint regions only then |
| FreeListRebuild.RederivedIs | src/flist_rebuild.cpp:125-208 | what the gather and the commit come to in terms of the stamps alone |
| FreeListRebuild.RederivedIff | src/flist_rebuild.cpp:125-208 | over disjoint regions a rebuild that goes through had no reason to decline |
| FreeListRebuild.Rebuilder.SweepInto | src/flist_rebuild.cpp:77-120 | the stride loops append exactly what the sweep of the range finds, or fail |
| FreeListRebuild.Rebuilder.Commit | src/flist_rebuild.cpp:194-207 | the commit loop chains the gathered blocks and describes them |
| FreeListRebuild.GatherIs | src/flist_rebuild.cpp:145-175 | over disjoint regions no block is gathered twice |
| CycleDiag.Walk | src/freelist_diag.cpp:50-61 | the verdict is cyclic exactly when the two pointers meet within a million steps |
| CycleDiag.NthNext | src/freelist_diag.cpp:53-60 | a link is followed from a readable node above the first 64 KB, and from no other |
| CycleDiag.VerdictIsRight | src/freelist_diag.cpp:50-61 | for a chain over at most a million nodes they meet exactly when the chain cycles |
| CycleDiag.RepetitionMeets | src/freelist_diag.cpp:50-61 | wherever a chain repeats, tortoise and hare meet no later than the end of the repetition |
| BirthStamps.SearchEnds | src/idspine.cpp:409-418 | a search that reaches an empty slot or its 128-probe bound was for a block the table does not hold |
| BirthStamps.Claim | src/idspine.cpp:138-148 | claiming the first empty slot of a search keeps keys unique and probe runs free of gaps, and adds one record |
| BirthStamps.Overwrite | src/idspine.cpp:127-136 | rewriting a block's slot keeps both, and changes one record |
| BirthStamps.SameStampMeansSameLife | src/idspine.cpp:409-418 | equal nonzero stamps of a block at two moments say exactly that the block was not born again in between |
| BirthStamps.RecordIsLastLife | src/idspine.cpp:437-453 | a record holds the frame and size of the last birth, its number among the births that got a slot, and the frame of the last death since it, or never |
| BirthStamps.AlwaysTallied | src/idspine.cpp:41-58 | serials are unique and within the counter; the live, distinct, birth and reuse tallies count what they are named for |
| BirthStamps.CountersOverLog | src/idspine.cpp:41-58 | counter by counter the events of the log: births that got a slot, those of them of a block that had one, births that got none, and deaths of living blocks |
| BirthStamps.RecordIff | src/idspine.cpp:427-435 | a block has a record exactly when it was ever born with a slot, and a live one exactly when it has not died since its last such birth |
| BirthStamps.Spines.Put | src/idspine.cpp:122-153 | a birth is recorded, and is dropped exactly when the block is unknown and its 128 slots are taken |
| BirthStamps.Spines.Retire | src/idspine.cpp:155-168 | a death is recorded; an unknown block is ignored |
| BirthStamps.Spines.Lookup | src/idspine.cpp:437-453 | lookup returns the record that the log of births and deaths gives the block |
| BirthStamps.Spines.Find | src/idspine.cpp:409-418 | the probe loop finds the block's slot exactly when the table holds the block |
| BirthStamps.Spines.StampOfBlock | src/idspine.cpp:409-418 | the stamp is that of the log, 0 for an unknown block |
| BirthStamps.Spines.LiveAt | src/idspine.cpp:427-435 | a block is live exactly when the log gives it a live record |
| LinkRepair.ReachIsLongest | src/coherent_set_repair.cpp:255-272 | the walk follows the longest prefix with sound links, within its guard |
| LinkRepair.NeverRevisits | src/coherent_set_repair.cpp:255-272 | from a head without a back link the walk never revisits a node |
| LinkRepair.PrefixesDisjoint | src/coherent_set_repair.cpp:247-272 | prefixes of different buckets share no node |
| LinkRepair.LineRepaired | src/coherent_set_repair.cpp:247-272 | after a pass a torn head has emptied its bucket, and any other bucket under 4096 nodes is its longest sound prefix, null-terminated and reciprocal |
| LinkRepair.TailReanchored | src/coherent_set_repair.cpp:262-266 | the tail slot points at the new last node exactly where a line was cut |
| LinkRepair.OnlyEndsWritten | src/coherent_set_repair.cpp:262-263 | a pass writes no node but the ends of walked lines |
| LinkRepair.SlotsKept | src/coherent_set_repair.cpp:247-248 | the slots of lines 7 and 8, and of lines not yet or no longer visited, are untouched |
| LinkRepair.SecondPassSeversNothing | src/coherent_set_repair.cpp:239-274 | whatever memory looked like, a second pass changes nothing and counts nothing |
| LinkRepair.CountsChanges | src/coherent_set_repair.cpp:247-274 | the count a pass returns is the number of lines it changed |
| LinkRepair.RepairLinks | src/coherent_set_repair.cpp:239-274 | the loop over at most 128 lines is the pass, and returns its count |
| LinkRepair.RepairLine | src/coherent_set_repair.cpp:247-272 | the guarded walk over one bucket empties it, cuts it or leaves it as the pass does |
| DeadVtable.Removed | src/dead_vtable_unlink.cpp:32-56 | unlinking one entity leaves the rest of its line linked both ways, with both end slots right |
| DeadVtable.ScanFilters | src/dead_vtable_unlink.cpp:62-90 | a scan turns every healthy line into the living among its first 512 entities and the unscanned rest, in order |
| DeadVtable.WhoStays | src/dead_vtable_unlink.cpp:62-101 | after the whole scan a line has exactly those of its entities that stand past its first 512 or have a vtable of the module |
| DeadVtable.KeptIs | src/dead_vtable_unlink.cpp:76-88 | the same for one walk of any length |
| DeadVtable.AliveIs | src/dead_vtable_unlink.cpp:27-30 | the offset test accepts exactly the nonzero vtables in the first 0xE00000 bytes of the module, some number of turns of the 64-bit ring away |
| DeadVtable.ScanMarks | src/dead_vtable_unlink.cpp:52-56 | every dead entity that was scanned has both links cleared; its low eleven state bits read 0x3f8, and nothing else of it is changed |
| DeadVtable.DeadMarked | src/dead_vtable_unlink.cpp:62-101 | after the whole scan so does every dead entity among the first 512 of any line |
| DeadVtable.ScanThenSeverNothing | src/dead_vtable_unlink.cpp:32-101 | the sever pass, walking from the other end, then finds nothing |
| DeadVtable.Validate | src/dead_vtable_unlink.cpp:62-101 | the nested loops are the scan |
| DeadVtable.UnlinkFromScheduler | src/dead_vtable_unlink.cpp:32-56 | the pointer writes, in order, are the removal |
| Rethread.ById.SaveFrame | src/byid.cpp:155-213 | the captured edges are the first 8192 of the whole walk, singleton tails last, kept under the frame number; overflow tells whether there were more; the captures of all other frames fewer than 64 away are still there |
| Rethread.ById.CaptureList | src/byid.cpp:171-184 | the child walk records the list of one entity up to its caps |
| Rethread.ById.RestoreFrame | src/byid.cpp:219-290 | the loop over the edges kept for the frame re-threads each list in turn; without a capture of that frame nothing is written |
| Rethread.ById.CaptureThenRestore | src/byid.cpp:155-222 | a frame restored after any number of saves at the next 63 frames is re-threaded from exactly what it captured |
| Rethread.ById.RethreadList | src/byid.cpp:277-290 | the inner loop links the survivors of one list and sets its head and gate |
| Rethread.ListsAreSurvivors | src/byid.cpp:272-290 | a parent's list becomes exactly its coherent captured children, in captured order and null-terminated; the gate is cleared exactly when none is left |
| Rethread.SurvivorsNext | src/byid.cpp:106-112 | survivors are the captured children, in order, that are committed, carry the same low vtable word and point back at the same owner |
| Rethread.OthersUnlinked | src/byid.cpp:284-287 | the next link of an object that is no survivor is not written |
| Rethread.NeverMerged | src/byid.cpp:281-282 | two captured lists on one line are never read as one |
| Rethread.ListAtIsCaptured | src/byid.cpp:171-184 | what the restore reads as one list is one entity's whole captured list |
| Rethread.ListIsCaptured | src/byid.cpp:171-184 | the capture of a child list is all of it, or its first 512 children |
| Rethread.EveryListIsWalked | src/byid.cpp:160-184 | the walk captures the list of each of the first 512 entities of every line |
| Rethread.RestoreByIdentity | src/byid.cpp:98-112 | whatever memory has become since the capture, each recorded list is restored to its recorded children that are still committed, of their type and owned by their parent; only the one list that runs over the 8192nd edge is not recorded in full |
| Rethread.RoundTripIff | src/byid.cpp:171-184 | capture and re-thread in unchanged memory is the identity exactly when all captured children are owned by the parent and the capture reached the end |
| Rethread.LongListIsCut | src/byid.cpp:171-184 | the capture of a list of more than 512 children does not reach its end |
| Rethread.LongListChanges | src/byid.cpp:171-184 | so re-threading it in the same memory changes it |
| Crc32.AccIsUpdateCrc | src/gp_crc.cpp:180-189 | the accumulator equals update_crc of RFC 1952, section 8, for every seed and all data |
| Crc32.CheckValue | src/gp_crc.cpp:180-189 | the check value of the standard CRC-32 |
| Crc32.AccChains | src/gp_crc.cpp:180-189 | the CRC of a concatenation is the CRC of the second part seeded with that of the first |
| Crc32.SeedInjective | src/gp_crc.cpp:180-189 | for fixed data different seeds give different results |
| Crc32.BurstShows | src/gp_crc.cpp:180-189 | data of equal length that differ only within four consecutive bytes never hash the same |
| Crc32.Crc32Acc | src/gp_crc.cpp:181-189 | the byte and bit loops compute that accumulator |
| Crc32.CrcRangePtrAware | src/gp_crc.cpp:212-224 | the CRC of a range is the CRC of its kept bytes in one go |
| Crc32.KeptSlot | src/gp_crc.cpp:215-219 | slot by slot: a qword that lies in the arena's two gigabytes is dropped, any other is kept |
| Crc32.KeptJoins | src/gp_crc.cpp:214-222 | what is kept of whole slots does not depend on what follows them |
| Crc32.QwordIs | src/gp_crc.cpp:216 | a slot is read as a little-endian word |
| Crc32.PlainChangeShows | src/gp_crc.cpp:206-224 | a change within four bytes of a slot that holds no arena pointer before or after always changes the result |
| Crc32.PointersDoNotShow | src/gp_crc.cpp:206-224 | ranges that differ only in slots holding arena pointers on both sides hash the same |

## Left out

- Windows API calls, import patching, thread suspension, timing, logging and the monitor interface: they appear as parameters or not at all.
- RestoreTheorems.ExactRestore: asks that a save's frame is above every frame in the ring, as its callers have it (src/resim.cpp:1762 and 3985, with the counter of src/resim.cpp:4106).
- Provenance.StepKeepsInv: the same.
- RollbackSession.Session.Save: the same.
- SnapshotEngine.Arena.CaptureBaseline: does not model a failing allocation of the baseline, after which the map names storage already freed.
- SnapshotEngine.Arena.ResolveFoldDst: a supplemental page can always be committed; in the code a failing commit drops the page like a full area.
- SnapshotEngine.Arena.Save: folds inline; the deferred branch of src/arena.cpp:1361-1383 is DeferredFold, and DeferredEngine shows the two agree.
- SnapshotEngine.Arena.Evict: inline too.
- SnapshotEngine.Arena.Load: does not model the per-load diagnostics (orphan bits, source codes, page history), which write nothing the restore reads.
- RollbackSession.Session.constructor: begins with at least one committed page.
- DeferredFold.DrainedIsSynchronous: an inline fold is a step only where its destinations are disjoint from those pending; InlineFoldSafeIff and InlineFoldGoesWrong are about the others. Buffers dropped when the return ring is full are not reclaimed, as in the code.
- AudioPreserve.Preserver.Save: takes the candidate regions as given; the walk that discovers them is not part of this model.
- RegionCarver.Carver.VirtualAlloc: the pass-through to the operating system when the arena is full, and calls with other protection flags, are outside the arena and not modelled. A request that slips through the wrapped test is excluded; CarveSoundIff says what it does.
- FreeListRebuild.RebuildIsGroundTruth: assumes disjoint regions and headers that do not overlap.
- BirthStamps.Spines.Put: block 0 marks an empty slot and is never passed by the hooks; size and frames are unbounded integers. The recent-free ring and the double-insert detector are left out.
- DeadVtable.Validate: does not count scanned and unlinked entities, which are only reported.
- LinkRepair.LineRepaired: a line longer than 4096 nodes, or a ring, keeps its sound links and is not cut, as in the code.
- Rethread.ById.SaveFrame: takes the references found in entity bodies and in the singleton tails as given; both kinds of edge are only reported.
- Crc32.CrcRangePtrAware: the per-segment walk over fighters and the frame-keyed ring of results around it are left out.
- The heap zone's bump allocator, the object-list compaction of src/coherent_set_repair.cpp:150-205, and the probes: easy members beside these.
- Files that are not part of this model: the resimulation loop, quarantine, reader, networking, and the generated type census.
