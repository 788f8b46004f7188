# Verification of dietchan's storage engine and its neighbours

Dafny models, with proofs, of the parts of dietchan that carry the most state:

- **The database** (`db.c`). A file image of a 544-byte header and 16-byte units, kept twice: a private
  image that the program writes and a shared one that only replay writes. `Dyadic` and `Tiling` hold the
  buddy arithmetic and what splitting, merging and growing do to the cut of the arena. `HeapImage` is the
  byte layout. `FreeLists` are the intrusive lists read off the bytes. `Heap` is the invariant over both and
  the step lemmas. `Fit` says which block a request gets. `Sweep` is the union of dirty regions, `Journal` the redo journal, `Crash` the crash
  theorems, `TornTail` what a torn journal does to the next commit. `Db` is the object with the program's own
  operations, and the theorem about a restart after a kill at any place.
- **The hash map** (`db_hashmap.c`): `Chains` and `HashMap`. Two live tables, one of them half
  uninitialised, proved against one abstract map in every state.
- **The ban index** (`persistence.c`, `bans.c`, `ip.c`): `Ip` and `Bans`, on top of the hash map.
- **Smaller cores**: `Bbcode` (markup renderer), `Multipart` (delimiter search over reads), `Output`
  (chunk rings, buffering, escaping) and `Arc4Random` (cipher state, unbiased modulo).

`Bytes` and `Lists` hold what several of these share.

Check it with `dafny verify dfyconfig.toml`.

## How the program's peculiarities are treated

- `db_grow` never updates `header->size` (only `db_init` sets it, db.c:419), so the guard at db.c:219 fails
  for every position and the shipped code never merges. `Database.sizeFollowsArena` chooses between the code as
  it is (false) and one that keeps the field up to date (true). Safety holds for both. Complete coalescing is
  proved for the second; for the first `Db.Database.FreeBlock` and `Db.Database.Grow` say exactly when it is kept,
  and `Tiling.FreedBesideFree` shows that it is not always.
- After a kill in a transaction that grew, the file is longer than the arena, and after a kill in `db_init` the
  header is all zeros. The heap invariant admits both.
- The comparator of the dirty regions answers -1 both ways on ties (db.c:39-43). `Db.Database.Commit` takes the
  sorted array as a parameter: any permutation sorted by position.
- The commit record is not synced before the replay (db.c:590-593). In the crash model journal and image
  writes take effect in program order and may stop after any byte. For the same reason it does not show that the
  final `msync` covers `header->size` bytes, which is the header alone (db.c:595).
- `db_open` leaves a torn journal tail in place and `db_commit` appends behind it (db.c:107-114, 550). The crash
  theorem therefore starts from a clean journal: whole records that the image already has. That is exactly the
  condition under which the next commit works: `TornTail.NextCommitExactly` proves both directions, and
  `Db.Database.Restart` and `Db.Database.Commit` say where clean journals come from.
- A read of 2^63 bytes or more fails with -1, which the replay compares as an unsigned word and does not notice
  (db.c:520-521). It goes on behind the header of that record, and so does the model.
- `1 << order` is an int (db.c:306), so orders stay below 31. An allocation asks for a free block that is large
  enough, or for room for the grows that its search may need; `Db.RequestFits` says when there always is.
- The search of `db_alloc` counts its order down only after a grow (db.c:240-248). When the wanted order is the largest
  there is and has no free block, it passes over the block of that order that its first grow adds, grows again and
  splits the larger block; for an order the arena does not have it grows up to it and then twice more. `Fit.Chosen`
  says so, and `Db.Database.FindBlock` proves it.
- In `db_grow`, `bucket_size(-1)` for the first block (db.c:430) shifts by a negative amount. The model takes it
  as half a unit, which makes the first arena one unit.
- The partial-byte mask of `normalize_ip_range` (ip.c:40) reads and advances `i` in one expression. The model
  takes the mask for the byte it is stored at. `ip_in_range` reads one byte past a full-length address, under
  a mask of zero; the model reads zero there.
- `is_banned` adds timestamp and duration as unsigned words and keeps the end as a signed one. An end from 2^63 on
  counts as no ban; `Bans.AnswerNonZero` has the exact condition. A permanent ban sets the answer to -1, and a timed
  one that is called back later replaces it by its end; `Bans.AnswerValue` has the exact value.
- The `memmove` in `CLOSE_TAG` (bbcode.c:131) moves whole entries in the model.
- `static const float load_factor` (db_hashmap.c:346) is the exact number two.

Parameters stand for what the model does not contain: how many bytes the journal file takes (`room`), the outcomes of
the journal sync and of the final sync (`logged`, `synced`), the order the sort leaves, the clock (`now`, read once a
query), the existing posts, the words the generator yields, and the mixing of hash values.

## Model

| member | source | states |
|---|---|---|
| `Dyadic.BuddyIsOtherHalf` | src/dietchan/src/db.c:305-306 | `pos ^ (1 << order)` of an aligned position is the other half of the block of the next order: above by 2^order when the position starts that block, below otherwise |
| `Dyadic.AlignedIsMultiple` | src/dietchan/src/db.c:200-202 | being aligned to an order, read off the bits, is the same as divisibility by 2^order, in both directions |
| `Dyadic.NoPositionInside` | src/dietchan/src/db.c:305-315 | an aligned position inside a block of no larger order can only be that block's start |
| `Tiling.BuddyIsGenuine` | src/dietchan/src/db.c:305-317 | in every tiling the buddy position, if it lies in the arena, is the start of a block of at most the same order, never the middle of one |
| `Tiling.SplitTiles` | src/dietchan/src/db.c:191-210 | splitting a block keeps the arena tiled exactly: aligned blocks, no overlap, no gap |
| `Tiling.MergeTiles` | src/dietchan/src/db.c:319-331 | merging a block with its free buddy of equal order keeps the arena tiled exactly |
| `Tiling.GrowTiles` | src/dietchan/src/db.c:436-448 | a free block of order k behind an arena of 2^k units gives an exact tiling of 2^(k+1) units |
| `Tiling.FreedTiles` | src/dietchan/src/db.c:335-352 | taking a live block back keeps the tiling, and only pairs that involve that block can become two free buddies |
| `Tiling.TakenTiles` | src/dietchan/src/db.c:257-260 | handing out the one block that was left open keeps the tiling and leaves no two free buddies of equal order |
| `Tiling.CoalescedAll` | src/dietchan/src/db.c:304-315 | when the block the merge loop ends with has no free buddy, no two free buddies of equal order remain anywhere |
| `Tiling.GrownBuddy` | src/dietchan/src/db.c:436-448 | a coalesced arena that is doubled without merging stays coalesced if and only if its old half was not one free block |
| `Tiling.FreedBesideFree` | src/dietchan/src/db.c:335-352 | for every order there is a coalesced arena with a live block beside an equal free one, which is not coalesced any more once that block is marked free and nothing merges |
| `FreeLists.ExtractKeepsLists` | src/dietchan/src/db.c:148-170 | unlinking the i-th member of a free list leaves all lists well formed, that list without the member and every other list as it was |
| `FreeLists.InsertKeepsLists` | src/dietchan/src/db.c:172-189 | pushing a free block on the list of its order leaves all lists well formed, with the block first |
| `FreeLists.RetagKeepsLists` | src/dietchan/src/db.c:198-202 | rewriting the tag of a block on no list leaves every list well formed |
| `Heap.ExtractStep` | src/dietchan/src/db.c:148-170 | over the bytes of the image: after the pointer writes the heap invariant holds with the block on no list, size and count fields are unchanged, and every changed byte is covered by the marked regions and lies outside all live payloads |
| `Heap.InsertStep` | src/dietchan/src/db.c:172-189 | the same for putting a block in front of its list |
| `Heap.SplitStep` | src/dietchan/src/db.c:198-202 | the two tag bytes written by a split are the tags the split tiling asks for, and disturb no list and no other block |
| `Heap.MergeStep` | src/dietchan/src/db.c:322-325 | the tag byte written by a merge is the tag the merged tiling asks for |
| `Heap.PayloadWrite` | src/dietchan/src/db.c:283-284 | a write inside one live block disturbs neither the heap invariant nor the payload of any other live block |
| `HeapImage.FieldBytes` | src/dietchan/src/db.h:14-30 | where the fields stand: size, number of lists and list heads in the header, tag and two seven-byte links in the sixteen bytes of a unit |
| `Heap.TrackingKept` | src/dietchan/src/db.c:376-393 | if private and shared image agree outside the regions, they still do after any recorded writes and file growth |
| `Db.Database.Create` | src/dietchan/src/db.c:395-424 | a new file becomes an empty, valid heap whose two images are equal and whose journal is empty |
| `Heap.HeapInGrown` | src/dietchan/src/db.c:426-438 | bytes that the file gains at its end, as in a transaction that grew and was not committed, leave a sound heap sound |
| `Db.Database.Open` | src/dietchan/src/db.c:61-121 | opening runs the check and, for a committed journal, the replay; the two images are equal, nothing is dirty, and over an image with a sound heap the object has it, and is valid when the journal is clean |
| `Db.Database.KilledImage` | src/dietchan/src/db.c:107-114 | what a restart reads after a kill: the private image when the commit record was whole, else the image of the last commit, with zero bytes behind it if an open transaction had extended the file |
| `Db.Database.KilledJournal` | src/dietchan/src/db.c:590-603 | a kill inside an open transaction or after the commit record leaves a clean journal |
| `Db.Database.Restart` | src/dietchan/src/db.c:61-121 | for every valid database and every place of a kill, inside an open transaction or at any byte of a commit: the reopened database has a sound heap, which has exactly the blocks of that commit or of the last one; it is valid if and only if every next commit is installed, and always unless the kill fell into journal writing |
| `Db.Database.InvalidateRegion` | src/dietchan/src/db.c:376-393 | exactly one start and one end boundary are appended for the region; a null pointer does nothing |
| `Db.Database.ExtractBucket` | src/dietchan/src/db.c:148-170 | the block leaves its list, in which the others keep their order, and no other list changes; the heap invariant, live payloads and write tracking are kept |
| `Db.Database.InsertBucket` | src/dietchan/src/db.c:172-189 | the block becomes the first of the list of its order; the heap invariant, live payloads and write tracking are kept |
| `Db.Database.SplitBucket` | src/dietchan/src/db.c:191-210 | the tiling becomes the one with the block cut in half, and both halves head the list of their order, the upper one first; live blocks, payloads and write tracking are kept |
| `Db.Database.MergePair` | src/dietchan/src/db.c:304-331 | one round of merging turns two free buddies into one block of the next order, which heads its list, and names the one it starts at |
| `Db.Database.MergeBuckets` | src/dietchan/src/db.c:302-333 | the loop ends; live blocks and payloads are kept; nothing happens unless the buddy is admitted by the size field and free; with the size field equal to the arena no two free buddies of equal order remain |
| `Db.Database.FreeBlock` | src/dietchan/src/db.c:335-352 | exactly the block of the pointer stops being live; all other payloads and write tracking are kept; in the code as it stands, and wherever the buddy is not free, it heads the list of its order and nothing else changes; with the size field following the arena coalescing is complete, and in the code as it stands it stays complete if and only if the freed block had no free buddy |
| `Db.Database.Grow` | src/dietchan/src/db.c:426-451 | the arena doubles by one block, which in the code as it stands heads the list of its order with nothing merged; the file is extended to exactly the new arena when it is shorter and both images show the same zero bytes; no live payload changes, and tracking is kept; coalescing is kept with the size field following the arena, and in the code as it stands if and only if the old arena was not one free block |
| `Db.Database.GetBucketForSize` | src/dietchan/src/db.c:139-146 | the result is the smallest order whose net size holds the request, or the largest order there is |
| `Db.FitsBestUnique` | src/dietchan/src/db.c:139-146 | there is only one such order |
| `Db.RequestFits` | src/dietchan/src/db.c:139-146 | a request below 2^32 in an arena at most two grows short of the largest never makes the search grow past the largest |
| `Fit.BestOfLists` | src/dietchan/src/db.c:233-249 | a block from the first list that is not empty is a smallest free one of sufficient order |
| `Fit.MayGrow` | src/dietchan/src/db.c:240-248 | the search grows only when no free block is large enough, never beyond the stated number of lists, and what it adds cannot merge |
| `Fit.ChosenLater` | src/dietchan/src/db.c:237-249 | where the search above the wanted order ends: at the first of the first list with a block, or at the new block of the last grow, one grow when an order above exists and two when not |
| `Db.Database.FindBlock` | src/dietchan/src/db.c:227-249 | the nested search ends exactly where stated: with a free block of sufficient order, at the first of the smallest such list, with blocks and lists untouched; without, at the new block of the last of exactly so many grows |
| `Db.Database.LargeEnough` | src/dietchan/src/db.c:237-249 | a free block of sufficient order makes a list that the search meets before it would grow |
| `Fit.CutToOnce` | src/dietchan/src/db.c:250-254 | one more split takes the lists and blocks of a partly cut block to those of the next order down |
| `Db.Database.SplitDown` | src/dietchan/src/db.c:250-254 | halving leads to a free block of exactly the wanted order at the same place; the upper half of every order passed is left over, heading its list, and nothing else changes |
| `Fit.ChosenFits` | src/dietchan/src/db.c:225-268 | when a free block is large enough the block handed out is a smallest such one, and a block of exactly the wanted order is handed out whole, with no other block touched |
| `Db.Database.Alloc` | src/dietchan/src/db.c:225-268 | the result is a block that was not live, with the smallest fitting order and a net size of at least the request: the first of the best-fitting list, cut down, with the rest of the blocks and the lists exactly as stated, and nothing split when a block of the wanted order was free; every other live block keeps place and payload; the heap invariant, tracking and what a restart would find are kept |
| `Db.Database.Realloc` | src/dietchan/src/db.c:270-290 | a null pointer allocates; a block that is big enough is returned, and only then, with nothing changed; otherwise the old payload is found in full in the new best-fitting block, the old block alone is released, all other live payloads are kept and the copied bytes are marked |
| `Db.Database.WriteBlock` | src/dietchan/src/db.c:376-393 | a caller that writes into its own block and marks what it wrote keeps the heap, all other payloads and the tracking |
| `Db.Database.CheckJournal` | src/dietchan/src/db.c:456-491 | the loop computes the verdict function on the journal bytes, for every byte string |
| `Db.Database.ReplayJournal` | src/dietchan/src/db.c:493-532 | the loop computes the replay function on the shared image, for every byte string |
| `Db.Database.WriteRecord` | src/dietchan/src/db.c:569-578 | the four writes of a record: all of its encoding, or, when the file takes no more, exactly the bytes that it took and the early exit |
| `Db.Database.WriteJournal` | src/dietchan/src/db.c:552-583 | for any order sorted by position, the records appended are exactly the encoded writes of the swept regions, cut where the file takes no more bytes, with success exactly when all of them fitted; the nesting counter never goes below zero |
| `Db.Database.Commit` | src/dietchan/src/db.c:535-609 | inside an outer transaction, or with nothing changed, journal and shared image stay untouched; the outermost commit leaves the disk that the crash model names for its outcome: with the batch installed the images are equal, the dirty regions gone and the heap saved; after a failed journal write or journal sync the regions and the shared image are kept, a restart would find the last commit, and the object is valid if and only if every next commit is installed |
| `Sweep.PairsAreBoundaries` | src/dietchan/src/db.c:376-393 | the array built by appending a start and an end per region is the boundary array of these regions |
| `Sweep.NestingNonNegative` | src/dietchan/src/db.c:562-563 | for any non-empty regions and any order of ties the nesting counter never goes below zero |
| `Sweep.NestingIsCoverage` | src/dietchan/src/db.c:557-565 | between two boundaries the counter is positive exactly inside some region |
| `Sweep.SweepIsUnion` | src/dietchan/src/db.c:552-583 | the sweep ends with nesting zero, and what it emits is ascending, pairwise disjoint, and covers exactly the bytes of the union of the regions |
| `Journal.ReadEntries` | src/dietchan/src/db.c:456-532 | check and replay read back whole entries, and then go on with whatever follows them |
| `Journal.TornEntry` | src/dietchan/src/db.c:466-481 | a single record cut anywhere is never taken for a commit |
| `Journal.TornBatch` | src/dietchan/src/db.c:456-491 | a batch of writes cut anywhere before the end of its commit record is never taken for a commit |
| `Journal.RecordBytes` | src/dietchan/src/db.c:48-49 | the literal bytes of a record: type zero for a write, then place, length and data, and type one for a commit |
| `Journal.OtherBytes` | src/dietchan/src/db.c:456-532 | a record type that is neither is passed over by check and replay; fewer than four bytes are an error of the check and end a replay |
| `Journal.ByteByByte` | src/dietchan/src/db.c:520-522 | a replay that is cut short has copied exactly the first bytes, one after the other, each to its place |
| `Journal.ApplyOverwrites` | src/dietchan/src/db.c:516-522 | the result of a replay does not depend on bytes that the replay overwrites |
| `Journal.ReplayFinishes` | src/dietchan/src/db.c:493-532 | replaying a journal over an image where an earlier replay of it stopped after any number of bytes gives the undisturbed result; in particular replay is idempotent |
| `Journal.WritesInstall` | src/dietchan/src/db.c:565-578 | replaying the writes of regions that hold every differing byte turns the old image into the private one |
| `Crash.CrashAtomic` | src/dietchan/src/db.c:107-114 | main theorem: started from a journal whose records the image already has, and cut at any journal byte, any replayed byte or at the end, check-then-replay at the next open yields exactly the old image when the commit record is not whole and exactly the new image otherwise |
| `Crash.RecoveryMayCrash` | src/dietchan/src/db.c:493-532 | recovery may itself be cut any number of times at any byte: the one that finishes gives what the first would have given |
| `Crash.SettledAgain` | src/dietchan/src/db.c:593-601 | a journal that was replayed but not truncated is a valid starting point for the next commit |
| `Crash.CleanByRecovery` | src/dietchan/src/db.c:107-114 | whatever the image was, after recovery it already has every record of a committed journal, so that the crash theorem applies to the next commit |
| `Crash.CleanAfter` | src/dietchan/src/db.c:590-603 | after a commit whose record was whole, its journal kept or truncated, the new image already has every record of the journal |
| `TornTail.NextCommitExactly` | src/dietchan/src/db.c:550-593 | for every journal of whole records and a piece of one more, over every image of 20 bytes to a terabyte: whatever the next commit changes, its replay installs it, if and only if no piece is left over and the records change nothing in the image |
| `TornTail.TornSpoils` | src/dietchan/src/db.c:550-593 | the failing half: behind a record torn at any byte, the commit that fills the image with a suitable byte leaves another image than the one it asked for |
| `TornTail.CutBatch` | src/dietchan/src/db.c:565-591 | a batch cut at any byte is some whole records and a piece of the next one |
| `TornTail.AfterTornCommit` | src/dietchan/src/db.c:535-593 | after a commit that was cut at any byte of its records the next one is installed, whatever it changes, if and only if the left-over journal is clean |
| `Chains.ModHalf` | src/dietchan/src/db_hashmap.c:291-292 | the remainder by 2m is the remainder by m or that plus m, and taking it by m again gives the remainder by m |
| `Chains.DroppedIsProper` | src/dietchan/src/db_hashmap.c:240-243 | moving the last pair into the gap forgets the removed key and no other |
| `HashMap.InsertedTables` | src/dietchan/src/db_hashmap.c:52-78 | adding an absent key at its home bucket gives tables that hold exactly the extended map, at every stage of a migration |
| `HashMap.RemovedTables` | src/dietchan/src/db_hashmap.c:103-120 | removing the found pair from the home bucket gives tables that hold exactly the map without the key |
| `HashMap.SpreadHolds` | src/dietchan/src/db_hashmap.c:289-311 | after t insertions the two candidate buckets hold exactly the first t pairs, each in its home, whatever memory was there before |
| `HashMap.MigratedTables` | src/dietchan/src/db_hashmap.c:268-315 | migrating one bucket keeps the abstract map, although the rest of the new table is uninitialised |
| `HashMap.AllMigrated` | src/dietchan/src/db_hashmap.c:330-336 | once every bucket is migrated the old table can be dropped |
| `HashMap.GrownTables` | src/dietchan/src/db_hashmap.c:355-363 | a table that becomes the old one of a table of twice its size, filled with arbitrary memory, holds the same map |
| `HashMap.HashMap.InsertElement` | src/dietchan/src/db_hashmap.c:176-209 | exactly the pair is appended to exactly one bucket |
| `HashMap.HashMap.GetElement` | src/dietchan/src/db_hashmap.c:211-230 | the search returns the value of the first pair with the key, or none |
| `HashMap.HashMap.RemoveElement` | src/dietchan/src/db_hashmap.c:232-266 | a pair with the key is removed from the one bucket if and only if there is one |
| `HashMap.HashMap.RehashBucket` | src/dietchan/src/db_hashmap.c:268-315 | the old bucket is marked and the new table is exactly the one with its pairs spread |
| `HashMap.HashMap.RehashSome` | src/dietchan/src/db_hashmap.c:317-342 | up to eight buckets migrate, the map is unchanged, and the old table goes exactly when none is left |
| `HashMap.HashMap.MaybeGrow` | src/dietchan/src/db_hashmap.c:344-374 | the table doubles if and only if there are more than two elements a bucket, and then its first eight buckets are migrated at once; the program's assertion that migration has finished holds, and the in-time bound 8 * (2 * new - n) >= old - progress is established again |
| `HashMap.HashMap.Insert` | src/dietchan/src/db_hashmap.c:52-83 | for a key that is not there the abstract map gains exactly this pair, the element count is the size of the map, eight buckets are migrated, and the table doubles exactly when it has to |
| `HashMap.HashMap.Get` | src/dietchan/src/db_hashmap.c:85-101 | the result is the lookup in the abstract map, in every reachable state of a migration |
| `HashMap.HashMap.Remove` | src/dietchan/src/db_hashmap.c:103-120 | the abstract map loses exactly this key, an absent key changes nothing, and eight buckets are migrated |
| `Ip.MaskedByte` | src/dietchan/src/ip.c:14-20 | masking two bytes with the top s bits gives equal bytes exactly when their first s bits agree |
| `Ip.PrefixByBytes` | src/dietchan/src/ip.c:13-22 | two addresses agree on n leading bits exactly when every byte agrees on its share of them |
| `Ip.IpInRange` | src/dietchan/src/ip.c:7-25 | the loop answers yes exactly when the versions are equal and the first `range` bits agree |
| `Ip.FillMask` | src/dietchan/src/ip.c:35-42 | the mask array holds ones for exactly the covered bits (the mask of the partial byte read as intended) |
| `Ip.NormalizeRange` | src/dietchan/src/ip.c:27-46 | in place: the covered bits stay, all others of the address are cleared, bytes past the address stay |
| `Ip.SameKey` | src/dietchan/src/ip.c:101-112 | two ranges are equal for the table exactly when version, length and leading bits are equal |
| `Ip.ProbeFindsRange` | src/dietchan/src/ip.c:7-46 | the key of an address cut to n bits equals the key of a range exactly when the range has length n and holds the address |
| `Ip.HashIsNumber` | src/dietchan/src/ip.c:81-99 | closed form: version, length and the covered bytes read as a number to the base 31, modulo 2^64 |
| `Ip.RangeHash` | src/dietchan/src/ip.c:81-99 | the hash is that number for the key of the range, so equal keys hash alike |
| `Ip.RangeEq` | src/dietchan/src/ip.c:101-112 | the comparison is equality of keys |
| `Bans.BanStore.constructor` | src/dietchan/src/persistence.c:445-455 | an empty index is valid |
| `Bans.BanStore.AppendToList` | src/dietchan/src/persistence.c:476-483 | the ban becomes the last of the doubly linked list of all bans |
| `Bans.BanStore.InsertIntoTable` | src/dietchan/src/persistence.c:445-455 | the ban becomes the head of the doubly linked chain of its key, and the table points at it through its own range |
| `Bans.BanStore.InsertBan` | src/dietchan/src/persistence.c:474-487 | list and chains gain exactly this ban and the whole index stays valid |
| `Bans.BanStore.RemoveFromTable` | src/dietchan/src/persistence.c:457-472 | the ban leaves its chain; the table entry passes to the next ban or goes; no other chain changes |
| `Bans.BanStore.DeleteBan` | src/dietchan/src/persistence.c:495-512 | list and chains lose exactly this ban, the order of the others is kept, and the whole index stays valid |
| `Bans.CutIsWithout` | src/dietchan/src/persistence.c:500-509 | cutting out the place of a ban is the same as leaving out the ban |
| `Bans.ProbesAgreeWithScan` | src/dietchan/src/bans.c:26-44 | the probes from the longest prefix to length zero meet each enabled listed ban whose range holds the address exactly once, and nothing else |
| `Bans.CallsWithout` | src/dietchan/src/bans.c:36-43 | leaving bans out of all chains leaves them out of the callbacks and keeps the order of the rest |
| `Bans.CallsDescend` | src/dietchan/src/bans.c:34-43 | callbacks come from longer prefixes first |
| `Bans.BanStore.FindBans` | src/dietchan/src/bans.c:26-44 | the callbacks are exactly the enabled listed bans in range, each once, longer prefixes first |
| `Bans.BanMatchesBoard` | src/dietchan/src/bans.c:10-23 | yes exactly for a global ban or a board listed before the end marker |
| `Bans.IsBannedCallback` | src/dietchan/src/bans.c:53-69 | one callback updates the answer as specified, with the sum of timestamp and duration read as a signed word |
| `Bans.OneCallback` | src/dietchan/src/bans.c:53-69 | what one callback means: -1 for a permanent ban, the end of a timed one when it is later than the answer so far, and no change otherwise |
| `Bans.AnswerNonZero` | src/dietchan/src/bans.c:53-79 | the answer after any sequence of callbacks is non-zero exactly when one of the bans concerns the request, is active, and ends at a time that a signed 64-bit word can hold |
| `Bans.FarEndIsMissed` | src/dietchan/src/bans.c:62-65 | every active ban that concerns the request and ends at 2^63 or later is answered with zero alone, and changes no answer beside other bans |
| `Bans.AnswerValue` | src/dietchan/src/bans.c:53-79 | the value after any callbacks: without a permanent ban that counts, the latest end of the timed ones that count, and zero if there is none; with permanent ones the latest such end behind the last of them, and -1 if there is none |
| `Bans.IsBanned` | src/dietchan/src/bans.c:71-79 | non-zero exactly when some enabled listed ban matches address, board, type and target, is active and has an end that fits; without a permanent one among them the latest of their ends, and with one the latest behind it in the order of callbacks, or -1 |
| `Bans.AnswerIgnores` | src/dietchan/src/bans.c:53-69 | bans that are not active, or whose end does not fit a signed word, have no influence on the answer, wherever they stand in the callbacks |
| `Bans.BanStore.PurgeExpired` | src/dietchan/src/bans.c:126-137 | deleting while walking keeps exactly the bans that are still active, in their order, and keeps the index valid; no answer for any address and request at this time or later changes |
| `Bbcode.ScanTag` | src/dietchan/src/bbcode.c:13-42 | a length is returned exactly when a tag stands there, and then length, tag and direction are the only possible ones |
| `Bbcode.TagExamples` | src/dietchan/src/bbcode.c:11-42 | the short tag names, literally, as the grammar reads them |
| `Bbcode.LongTagExamples` | src/dietchan/src/bbcode.c:11-42 | a closing tag in capitals with blanks, and the longest name |
| `Bbcode.PrefixExamples` | src/dietchan/src/bbcode.c:67-85 | what is a line-start prefix and what is not: blanks count only with a mark, and a reference or a line feed ends it |
| `Bbcode.ScanReference` | src/dietchan/src/bbcode.c:58-65 | a reference is recognised exactly at `>>` and a digit, takes the digits as far as they make a 64-bit number, and has their value |
| `Bbcode.ScanQuote` | src/dietchan/src/bbcode.c:67-85 | the longest prefix of blanks and `>` that are no references, and how many `>` it has |
| `Bbcode.Renderer.OpenTag` | src/dietchan/src/bbcode.c:102-106 | one element is opened and pushed; the stack never exceeds its allocation |
| `Bbcode.Renderer.CloseTag` | src/dietchan/src/bbcode.c:108-142 | a tag that is not open changes nothing; otherwise exactly the elements opened after its last opening are closed, it is closed, they are opened again in order, and it alone leaves the stack |
| `Bbcode.Renderer.CloseAll` | src/dietchan/src/bbcode.c:144-150 | all open elements are closed, the last first |
| `Bbcode.ClosesMore` | src/dietchan/src/bbcode.c:119-124 | closing from the top ends with the lowest element |
| `Bbcode.Renderer.StartLine` | src/dietchan/src/bbcode.c:162-182 | the quote marks are passed as a whole, quotes are closed or opened for the difference of the two depths, and one mark is written for every level |
| `Bbcode.Renderer.WriteMarks` | src/dietchan/src/bbcode.c:177-178 | one mark for every level of quotation |
| `Bbcode.Renderer.LineFeed` | src/dietchan/src/bbcode.c:186-195 | a line feed is text in code, and elsewhere a break after which a line starts |
| `Bbcode.Renderer.Arrow` | src/dietchan/src/bbcode.c:196-218 | a reference becomes a link exactly when its post exists, shows its own text either way, and is passed as a whole |
| `Bbcode.Renderer.Bracket` | src/dietchan/src/bbcode.c:219-242 | the tag that the grammar finds is obeyed and passed, in code only the tag that ends it; any other bracket is text |
| `Bbcode.Renderer.Obey` | src/dietchan/src/bbcode.c:225-238 | exactly these elements are opened and closed, exactly this is the stack afterwards, and the code flag and line start follow |
| `Bbcode.Renderer.Letters` | src/dietchan/src/bbcode.c:243-246 | other text is written as one piece up to the next character that may mean something |
| `Bbcode.VisibleText` | src/dietchan/src/bbcode.c:243-246 | a stretch without line ends, carriage returns and brackets is seen as it stands, references included |
| `Bbcode.StrideShown` | src/dietchan/src/bbcode.c:161-247 | one stride of the renderer shows exactly what the character-by-character reading sees over the same stretch |
| `Bbcode.ShownIsVisible` | src/dietchan/src/bbcode.c:87-252 | from any place in the input and any stack, everything that is written shows exactly what a reader is to see: the input without carriage returns, line-start quote marks and obeyed tags, read one character at a time, with the code flag following from the tags; every link leads to a post that exists |
| `Bbcode.LinksAreReferences` | src/dietchan/src/bbcode.c:196-218 | from any place in the input, the links written, each with post and text, are exactly the references that a reader finds from there: outside code blocks and line-start marks, to posts that exist |
| `Bbcode.TagSights` | src/dietchan/src/bbcode.c:102-142 | opening or closing a tag shows nothing and leaves the stated elements open, those opened since the closed one included |
| `Bbcode.AroundTag` | src/dietchan/src/bbcode.c:108-142 | closing a tag takes the last opened element of its kind away and no other |
| `Bbcode.SightsAreStyled` | src/dietchan/src/bbcode.c:87-252 | from any place in the input, every character, break and quote mark written stands inside exactly the elements, outermost first, that a reader keeps track of one character at a time |
| `Bbcode.WriteBbcode` | src/dietchan/src/bbcode.c:87-252 | for every C string and every set of posts: the loop ends, the output is exactly the specified one, the emitted elements nest properly and are all closed, a code block opens at top level and holds only text; visible text, links, and the elements around every character are the ones that three independent readings of the input find |
| `Multipart.StrStart` | src/dietchan/src/util.c:15-15 | comparison with the needle at one place |
| `Multipart.ByteStr` | src/dietchan/src/util.c:10-19 | the first place of the needle, or the length if there is none |
| `Multipart.Part.ReadUntilString` | src/dietchan/src/http.c:100-119 | the search resumed at search_offset finds what a search from the start finds, and leaves an offset from which the next one may resume |
| `Multipart.SearchedStays` | src/dietchan/src/http.c:105-110 | places that have been searched stay searched when more bytes arrive |
| `Multipart.Part.ReadContent` | src/dietchan/src/http.c:661-705 | a file hands out all but the last bytes that could begin a delimiter, a form field waits for the whole delimiter; a found delimiter ends the part |
| `Multipart.Part.Consume` | src/dietchan/src/http.c:719-741 | the read loop ends and leaves exactly the undelivered bytes |
| `Multipart.Part.Read` | src/dietchan/src/http.c:707-751 | after any read the state is a function of all bytes received so far |
| `Multipart.ChunksDoNotMatter` | src/dietchan/src/http.c:707-751 | two parts that got the same bytes in different reads have delivered the same and are in the same state |
| `Multipart.ReceiveFile` | src/dietchan/src/http.c:661-705 | for any split into reads the delivered content is exactly the bytes before the first delimiter (section 5.1.1 of RFC 2046), the part ends if and only if there is one, and what follows its first two bytes is left; without one all but the last bytes of a delimiter's length are delivered |
| `Multipart.ReceiveField` | src/dietchan/src/http.c:661-677 | for any split into reads a form field that does not fail is handed out whole, as exactly the bytes before the first delimiter, and not before that has arrived |
| `Output.Pool.AllocateMoreChunks` | src/dietchan/src/context.c:24-36 | ten fresh chunks join the end of the free ring |
| `Output.Pool.GetChunk` | src/dietchan/src/context.c:38-52 | the first free chunk, or the first of ten new ones, leaves the free ring and becomes a ring of its own |
| `Output.Unlink` | src/dietchan/src/context.c:43-50 | taking the chunk after the sentinel out leaves two well-formed rings |
| `Output.LinkAfter` | src/dietchan/src/context.c:197-202 | a chunk linked in after the current one makes one well-formed ring |
| `Output.Splice` | src/dietchan/src/context.c:76-82 | the whole ring of a context is joined to the free ring, as one well-formed ring |
| `Output.Context.GetBuffer` | src/dietchan/src/context.c:193-210 | there is room for at least one byte, the output so far is unchanged, and the context's ring followed by the free list is what it was, up to fresh chunks at the end |
| `Output.Context.ConsumeBuffer` | src/dietchan/src/context.c:212-222 | exactly the next bytes of the open chunk join the output, whether or not the chunk is full then |
| `Output.Context.WriteData` | src/dietchan/src/context.c:224-240 | the output grows by exactly the data, over any number of chunks |
| `Output.Context.WriteFile` | src/dietchan/src/context.c:242-251 | what was written before goes first, then the stretch of the file |
| `Output.Context.Flush` | src/dietchan/src/context.c:106-112 | everything written is queued and nothing else |
| `Output.Context.Unref` | src/dietchan/src/context.c:69-90 | the last reference gives back every chunk of the context exactly once; an earlier one changes nothing |
| `Output.Context.PrintEscHtml` | src/dietchan/src/print.c:7-35 | wherever chunk edges fall, the output grows by the per-character escape of the text |
| `Output.EscapedIsHarmless` | src/dietchan/src/util.h:96-119 | escaped text contains no angle bracket, quote or slash |
| `Output.Entities` | src/dietchan/src/util.h:96-119 | the six entities, literally |
| `Output.EscapeRoundTrip` | src/dietchan/src/util.h:96-119 | escaping loses nothing: unescaping gives the text back |
| `Output.WhatArrives` | src/dietchan/src/context.c:64-251 | what each operation sends: data as it is, escaped text harmless and such that unescaping gives it back, a file as the one stretch asked for, nothing for the others |
| `Output.PerformBeside` | src/dietchan/src/context.c:69-90 | an operation of one context leaves every other context sound, with its chunks and its output |
| `Output.Server.Do` | src/dietchan/src/context.c:64-251 | over any interleaving of contexts every chunk ever allocated stays in exactly one well-formed ring, references are counted, the operation has exactly its effect on its own context, and no other output changes |
| `Arc4Random.Stream.constructor` | src/dietchan/src/arc4random.c:109-118 | the cipher state starts as the identity permutation |
| `Arc4Random.MixBack` | src/dietchan/src/arc4random.c:127-132 | state and key byte of a turn are determined by the next state together with the index j before it |
| `Arc4Random.ByteMatters` | src/dietchan/src/arc4random.c:127-132 | from one state two different key bytes lead to two different permutations |
| `Arc4Random.OneByteMatters` | src/dietchan/src/arc4random.c:126-134 | keys that differ in one place lead from one state to different states |
| `Arc4Random.Stream.MixIn` | src/dietchan/src/arc4random.c:127-132 | one turn: both indices move, the second by entry and key byte, and exactly the two entries they reach are exchanged |
| `Arc4Random.Stream.AddRandom` | src/dietchan/src/arc4random.c:120-135 | exactly 256 such turns over the key taken round, starting one place before the index, and the state stays a permutation |
| `Arc4Random.Stream.GetByte` | src/dietchan/src/arc4random.c:442-454 | one step exchanges exactly two entries and returns the entry at their sum |
| `Arc4Random.MinIsRemainder` | src/dietchan/src/arc4random.c:545-556 | the 32-bit wrapping arithmetic gives 2^32 mod upper_bound for every bound of at least 2 |
| `Arc4Random.MostAreAccepted` | src/dietchan/src/arc4random.c:558-568 | more than half of all 32-bit words are accepted |
| `Arc4Random.NoModuloBias` | src/dietchan/src/arc4random.c:531-539 | every result has exactly (2^32 - min) / upper_bound accepted words |
| `Arc4Random.Uniform` | src/dietchan/src/arc4random.c:539-572 | the result is the residue of the first accepted word; bounds below 2 give 0 |

## Left out

- File handling: opening, locking, mapping and a failing `fallocate`; growing the file shows zero bytes in both images at once.
- A short write of the commit record itself, which `db_commit` does not check (db.c:591).
- The master pointer of the header, `db_invalidate` and `db_set_master_ptr`; they are writes of the kind that `Db.Database.WriteBlock` models.
- Db.Database.ReplayJournal: bytes aimed outside the image are dropped, where the program would write past the file.
- Seeking by 2^63 bytes or more in a journal is taken to fail, as a negative offset does.
- Db.Database.Alloc: a search that would grow past order 30 is excluded, because such orders overflow an int in the program.
- Db.Database.FindBlock: with the size field following the arena, a request for an order that the arena does not have yet may meet a merged block; which one it is is not stated. The code as it stands never merges.
- HashMap.HashMap.Insert: a key that is already there is excluded, as the program asserts.
- The allocation of the map's buckets in the database; bucket arrays are ordinary arrays of chains, and their old contents are arbitrary.
- The quality of the hash mixing; only remainders matter.
- `update_ban`: its callers overwrite the range before the ban is unlinked and the bucket links are not reset, so the index does not survive it. What a ban says is therefore constant in the model.
- Freeing the memory of a deleted ban.
- Bans.BanStore.FindBans: returns the callbacks as a sequence; the callbacks of the program do not change the index.
- A clock that advances between two callbacks of one query.
- The combination of queries in `is_captcha_required` and `any_ip_affected`.
- `strip_bbcode`, and the text of links; a link is an event with its post.
- Bbcode.WriteBbcode: the string has no character zero inside, as C strings do not.
- Multipart.Part.Read: the end of the request by content length and the boundary and header states that follow a delimiter.
- Multipart.ReceiveField: whether a field fails on its size limit depends on the reads, and is not stated.
- Size limits as a promise about chunking: they are only looked at when a terminator is not yet buffered, so `Multipart.ChunksDoNotMatter` excludes parts that failed on one.
- Sending the queued slices, and the socket shutdown after the end; the queue is the whole output in order.
- Number, date and address formatting in `print.c`.
- Entropy gathering and reseeding; the retry loop of `arc4random_uniform` runs over a finite sequence of words and says when all were rejected.
- Page rendering, sessions, users, uploads, import and export, static files and the event loop.
