# Viper, modelled in Dafny

Viper is a key/value store for persistent memory. Its whole engine lives in `src/viper.hpp`,
and this project models that engine's logic in Dafny and proves properties of it. The model is
sequential: a compare-and-swap succeeds on its first attempt, a page lock is either free or
held, a resize runs to completion inside the call that triggers it, and the recovery threads
run one after another in thread order.

The modules follow the parts of the engine:

- `Layout` (`layout.dfy`) is `get_num_slots_per_page`: the page size a fixed-size pair gets
  and the number of slots on such a page.
- `VarEntry` (`entry.dfy`) is the packed 64-bit header of a variable-size record
  (`VarSizeEntry`, `VarEntryAccessor`). It covers encoding and decoding by shifts and masks,
  the little-endian bytes in an arena, and reading a record back.
- `FixedPage` (`fixed_page.dfy`) is the fixed-size page: a lock byte, a free bitmap and a slot
  array. Init, first-free search, store and release are defined on it.
- `VarArena` (`var_page.dfy`) is the variable-size page: a lock byte, `next_page`,
  `next_insert_pos` and a byte arena. It models where `put` places a record (whole, split over
  two pages, or moved to the next page) and `get_value_from_offset`.
- `Cursor` (`cursor.dfy`) is the claim arithmetic for the shared `current_block_page_`. It
  covers block-based and DIMM-based claims and a client's walk through its claimed pages.
- `Pool` (`pool.dfy`) is the pool header and mapping arithmetic of `init_pool` and
  `allocate_v_page_blocks`.
- `Index` (`index.dfy`) is the hash index, seen as a map from key to offset with a tombstone.
- `Recovery` (`recovery.dfy`) is the scan of `recover_database` for fixed-size records. It
  covers the thread partition, the page scan, reinsertion and the freeing of displaced
  duplicates.
- `FixedStore` (`fixed.dfy`) is `Viper<K, V>` and its `Client` as classes: the constructor,
  resizing, claims, `put`, `get`, `update`, `remove`, `free_occupied_slot`,
  `update_access_information` and `info_sync`.
- `VarStore` (`variable.dfy`) is `Viper<std::string, std::string>` and its `Client`. It covers
  the variable-size `put`, `get`, `remove`, `update_var_size_page_information`,
  `get_new_var_size_access_information`, and the constructor, whose recovery throws.

Behaviour of the source that the model keeps as written, each stated as a lemma or contract:

- `put` and `free_occupied_slot` unlock by storing `FREE_BYTE` (0), and recovery skips every
  page whose lock byte is 0. So a pool at rest yields nothing to reinsert
  (`Recovery.RestingPagesRecoverNothing`).
- A variable-size claim counts its block in `num_used_blocks` twice when block-based
  (`get_block_based_access` and `get_new_var_size_access_information` both add one). A
  DIMM-based claim counts it once. A fixed-size DIMM-based claim never counts it
  (`VarStore.Viper.GetNewVarSizeAccessInformation`, `FixedStore.Viper.GetDimmBasedAccess`).
- DIMM-based claims overlap. The cursor moves on one page per claim, but each claim walks its
  page through six blocks (`Cursor.DimmClaimWalksOverlap`).
- A fixed-size pair of exactly 4094 bytes gets a one-page layout with room for no slot
  (`Layout.EntryOf4094BytesGetsNoSlot`). That makes the size-of-pair assertion fail.
- A variable-size record with an empty value is written whole with value length 0. `get` takes
  that for the key half of a split record and follows `next_page`
  (`VarArena.EmptyValueIsMisread`). The model returns `None` where the source would follow a
  null pointer.
- When a variable-size record is split and the client lands on the very page it started on,
  the key half's page is relinked to nothing. `Put` then only promises that the value reads
  back when the pages differ.
- The index may keep an offset whose slot or record has been freed or initialised again by a
  later claim. The model therefore carries no invariant that every indexed offset holds its
  key, and the contracts of `put` say what happens to the old slot rather than assume it.

## Model

| member | source | states |
|---|---|---|
| Layout.NumSlotsPerPage | src/viper.hpp:52-77 | the two loops of the slot computation end at the page size and slot count that `ChosenPageSize` and `SlotsPerPage` define |
| Layout.GrowPageSpec | src/viper.hpp:56-59 | the growth loop stops at a 4 KiB multiple between its start and seven pages; that is the first size holding one entry plus two overhead bytes, or seven pages |
| Layout.ChosenPageSizeSpec | src/viper.hpp:52-65 | the chosen page is a 4 KiB multiple from one to seven pages, never four or five, and holds an entry plus overhead unless seven pages cannot; it is the smallest such multiple up to the rounding to a block |
| Layout.PageBytesMonotone | src/viper.hpp:72-73 | more slots never need fewer bytes (slots, overhead and bitmap) |
| Layout.ShrinkSpec | src/viper.hpp:72-75 | the shrink loop ends at the largest count up to its start whose slots, overhead and bitmap fit the page |
| Layout.SlotsPerPageSpec | src/viper.hpp:67-76 | the slot count fits its page, is at most the starting bound (one less above 255), and one slot more would not fit unless the bound was reached |
| Layout.SlotsPerPagePositive | src/viper.hpp:72-76 | the final assertion holds exactly when one entry, the overhead and one bitmap byte fit the chosen page |
| Layout.EntryOf4094BytesGetsNoSlot | src/viper.hpp:56-76 | pairs of 4093 and 4095 bytes get one slot, a pair of 4094 bytes gets none |
| VarEntry.Encode | src/viper.hpp:80-89 | packing the flag, the 31-bit key length and the 32-bit value length gives a 64-bit word that decodes to the same header |
| VarEntry.Decode | src/viper.hpp:80-89 | the three bit-fields of a word lie within their widths |
| VarEntry.EncodeDecode | src/viper.hpp:80-89 | every 64-bit word is the encoding of the header it decodes to |
| VarEntry.NewEntry | src/viper.hpp:91-92 | a new entry has is_set true and lengths cut to 31 and 32 bits, exactly the given lengths when they fit |
| VarEntry.ClearIsSet | src/viper.hpp:1072-1074 | clearing is_set keeps both lengths |
| VarEntry.ReadWrittenRecord | src/viper.hpp:102-109 | a record written as header, key, value reads back present with that key and value |
| VarEntry.ReadClearedRecord | src/viper.hpp:1071-1075 | a record whose flag is cleared still reads back with its key and value, now not set |
| FixedPage.Init | src/viper.hpp:139-145 | definition of init: lock released, every slot free, slot bytes kept; `FixedStore.InitAtTwice` and `Recovery.RestingPagesRecoverNothing` prove what it means for a claim and for recovery |
| FixedPage.FirstFree | src/viper.hpp:814-816 | the first free slot is the lowest set bit, or the bitmap size when no bit is set |
| FixedPage.Store | src/viper.hpp:824-828 | definition of storing a pair in a slot; `FixedStore.AfterPutSpec` proves that put changes exactly the slot written and the previous slot |
| FixedPage.Release | src/viper.hpp:1077-1080 | definition of setting a slot's free bit; `FixedPage.ReleaseAt` and `Recovery.FreeAllSpec` prove its effect on the table |
| FixedPage.ReleaseAt | src/viper.hpp:1059-1087 | freeing an offset sets exactly that slot's bit in the table and keeps the table's shape |
| VarArena.Init | src/viper.hpp:158-166 | definition of the arena init: lock released, next_page and next_insert_pos nulled; the claim contracts state what it leaves on the claimed page |
| VarArena.WriteWhole | src/viper.hpp:919-925 | the whole record is written at the insert position, reads back as written, and the insert position moves by header plus key plus value |
| VarArena.WriteKeyPart | src/viper.hpp:885-891 | the key half is a header with value length 0 followed by the key, and reads back so |
| VarArena.WriteValuePart | src/viper.hpp:893-903 | the value half at the arena start has key length 0, reads back as the value, and moves the insert position behind it |
| VarArena.WriteMovedMarker | src/viper.hpp:906-910 | a 0/0 header is written only when 8 bytes remain; otherwise the page is unchanged |
| VarArena.ClearFlag | src/viper.hpp:1071-1075 | clearing is_set keeps the page's lock, pointers and arena size |
| VarArena.ClearFlagAtSpec | src/viper.hpp:1071-1075 | the removed record reads back unset with key and value kept; every other page is unchanged |
| VarArena.ReadWholeRecord | src/viper.hpp:1186-1196 | a whole record with a non-empty value reads back as its value |
| VarArena.ReadSplitRecord | src/viper.hpp:1186-1196 | a split record reads back as the value at the start of the page its page points to |
| VarArena.ReadValueFrame | src/viper.hpp:1186-1196 | the read looks only at the record's page and the page that one points to |
| VarArena.ReadValueSameContent | src/viper.hpp:1186-1196 | the read ignores lock bytes and insert positions |
| VarArena.RecordStoredUnlocked | src/viper.hpp:942-943 | unlocking the page put locked keeps the stored record and its read-back |
| VarArena.SplitRecordStored | src/viper.hpp:885-903 | after the split stores the key half is at the insert position with value length 0, the value half starts the new page behind which its insert position moves, and the record reads back as the value when the pages differ |
| VarArena.MovedRecordStored | src/viper.hpp:904-916 | after the moved stores the whole record starts the new page, a 0/0 header marks the old page where it fits, and a non-empty value reads back |
| VarArena.RecordPagesAgree | src/viper.hpp:885-916 | a split or moved record changes only the page left behind and the page moved to |
| VarArena.Advanced | src/viper.hpp:1090-1114 | moving on changes the grown table at the page moved to only, and initialises it |
| VarArena.AdvancedAfterWrite | src/viper.hpp:881-883 | taking the lock before moving on changes the moved-on table at the locked page only |
| VarArena.Link | src/viper.hpp:1117-1123 | linking changes only the page left behind, which points to the new page, and the new page, which starts an empty arena |
| VarArena.ReadAgreeing | src/viper.hpp:1186-1196 | a record on neither of two pages, and not continuing onto one, reads the same in tables that agree elsewhere |
| VarArena.ReadAdvanced | src/viper.hpp:1186-1196 | a record away from the page moved to reads the same after the move-on |
| VarArena.GetOtherAfterPut | src/viper.hpp:936-976 | a record away from every page put writes reads the same after the put and the flagging of the key's previous record |
| VarArena.EmptyValueIsMisread | src/viper.hpp:919-925 | an empty value written whole on a page without a next page reads back as nothing |
| VarArena.RecordFitsSizes | src/viper.hpp:870-871 | a record that fits a page has lengths that fit their bit-fields |
| Cursor.NextBlockCursor | src/viper.hpp:722-739 | the block claim moves the cursor to the next block, at a page inside the block |
| Cursor.NextDimmCursor | src/viper.hpp:695-705 | definition of the DIMM cursor step; `Cursor.DimmClaimsStep` and `Cursor.DimmClaimWalksOverlap` prove where successive steps lead |
| Cursor.Advance | src/viper.hpp:1090-1111 | a client moves on within its range until one page is left, then must claim; each move uses up one page |
| Cursor.BlockWalk | src/viper.hpp:1100-1108 | a block-based client visits start, start+1, … modulo the page count, all in its block |
| Cursor.FreshBlockWalk | src/viper.hpp:1100-1108 | a freshly claimed block is walked over exactly its pages, each once |
| Cursor.DimmWalk | src/viper.hpp:1091-1099 | a DIMM-based client keeps its page and walks blocks one by one up to its end block |
| Cursor.BlockClaims | src/viper.hpp:722-739 | successive block claims hand out pages inside the block |
| Cursor.BlockClaimsAreSuccessive | src/viper.hpp:722-739 | the i-th block claim gets block cursor+i |
| Cursor.BlockClaimWalksDisjoint | src/viper.hpp:668-685 | two different block claims walk disjoint pages |
| Cursor.DimmClaims | src/viper.hpp:688-706 | successive DIMM claims hand out pages inside the block |
| Cursor.DimmClaimsStep | src/viper.hpp:695-705 | DIMM claims walk the pages of a block one by one, then page 0 of the next block |
| Cursor.DimmClaimWalksOverlap | src/viper.hpp:688-703 | the claim taken a block's worth of claims later walks a page the first claim also walks |
| Pool.Effective | src/viper.hpp:451-465 | init_pool creates a new pool iff asked to or the stored header has no blocks or no block size |
| Pool.InitPool | src/viper.hpp:441-518 | the pool is refused iff the size is not a positive multiple of the chunk size; otherwise each chunk is a mapping, the first shortened by the block offset, and the allocated-block count matches both the mappings and the closed formula |
| Pool.AllocateChunk | src/viper.hpp:521-538 | growing adds one chunk of blocks and bytes to the header and changes nothing else |
| Pool.AllocateChunkKeepsCount | src/viper.hpp:521-538 | after growing, the allocated-block count still equals the blocks the mappings register and the closed formula for one chunk more |
| Index.Lookup | src/viper.hpp:963-973 | definition of a key's live offset (a non-tombstone entry); the put, get and remove contracts and `FixedStore.PutThenGet` are stated through it |
| Recovery.RangesDisjoint | src/viper.hpp:613-619 | two threads' block ranges never share a block |
| Recovery.ThreadsReachPastUsed | src/viper.hpp:613-619 | the threads' ranges together reach past the last used block |
| Recovery.CoveredStep | src/viper.hpp:613-616 | thread t's end is where the threads up to t leave off; a thread with a non-empty range starts where the earlier ones stopped |
| Recovery.CoveredEnds | src/viper.hpp:613-616 | nothing is scanned before the first thread and every used block after the last |
| Recovery.ThreadOf | src/viper.hpp:613-619 | every used block lies in the range of some thread |
| Recovery.SlotEntriesSpec | src/viper.hpp:578-597 | the slot scan reports exactly the occupied slots, with their keys |
| Recovery.RangeEntriesLocated | src/viper.hpp:571-597 | every reinserted offset names an occupied slot of a block in the range |
| Recovery.RangeEntriesSplit | src/viper.hpp:571-575 | scanning [lo, mid) then [mid, hi) is scanning [lo, hi) |
| Recovery.RestingPagesRecoverNothing | src/viper.hpp:576-579 | a pool whose pages all hold lock byte 0 yields nothing to reinsert |
| Recovery.InsertAllSpec | src/viper.hpp:592-596 | after reinsertion a key maps to the offset of its last scanned copy, or keeps its old offset if not scanned |
| Recovery.DuplicatesAreEarlierCopies | src/viper.hpp:592-596 | every displaced offset is an earlier copy of a key scanned again later |
| Recovery.FreeAllSpec | src/viper.hpp:602-607 | freeing the duplicates sets exactly their free bits and keeps locks and contents |
| Recovery.FreeAllFrame | src/viper.hpp:602-607 | blocks no duplicate points into are unchanged |
| Recovery.RecoveredIndexLocated | src/viper.hpp:568-609 | every offset of the recovered index names an occupied slot |
| Recovery.ThreadContinues | src/viper.hpp:568-599 | a scan of [0, hi) is a scan of [0, lo) continued by the thread on [lo, hi), and the counts add up |
| Recovery.ThreadDuplicatesLocated | src/viper.hpp:590-607 | the offsets a thread displaces name slots of the table below its range's end |
| Recovery.ThreadStep | src/viper.hpp:568-609 | after a thread has scanned its range and freed its duplicates, index and table are those of a scan of every block up to its range's end |
| Recovery.ScanPage | src/viper.hpp:576-597 | the slot loop reinserts exactly the slot scan's pairs, skipping a page with lock byte 0 |
| Recovery.ScanBlock | src/viper.hpp:573-598 | the page loop reinserts the block's pairs in page order |
| Recovery.ScanNextPage | src/viper.hpp:574-598 | scanning page p extends the reinsertion over pages [0, p) to [0, p + 1) |
| Recovery.ScanRange | src/viper.hpp:571-599 | a thread's block loop reinserts its range's pairs in block order |
| FixedStore.AfterPutSpec | src/viper.hpp:824-851 | put changes exactly two bits: the written slot holds the pair and is occupied, the key's previous slot is free; all else is kept |
| FixedStore.PutThenGet | src/viper.hpp:824-851 | after put, get of the key returns the value; another key keeps its value unless its slot was the one written |
| FixedStore.UpdateAtSpec | src/viper.hpp:1027-1031 | update replaces one value in place and keeps every key, bit and lock |
| FixedStore.InitAtTwice | src/viper.hpp:1113 | initialising a page a claim has just initialised changes nothing |
| FixedStore.Viper.AddPageBlocks | src/viper.hpp:541-551 | the block table grows by the mapping's blocks, appended in order |
| FixedStore.Viper.AllocatePageBlocks | src/viper.hpp:521-538 | the header grows by one chunk and the chunk's mapping is recorded |
| FixedStore.Viper.TriggerResize | src/viper.hpp:741-761 | a resize maps one chunk and appends its blocks |
| FixedStore.Viper.GetNewBlock | src/viper.hpp:722-739 | the claim returns the old cursor and moves the cursor to the next block |
| FixedStore.Viper.GetBlockBasedAccess | src/viper.hpp:668-685 | the client gets the claimed block and page, the page is initialised, and one block more is counted as used |
| FixedStore.Viper.GetDimmBasedAccess | src/viper.hpp:688-719 | the client gets the claimed page for six blocks; nothing is initialised or counted |
| FixedStore.Viper.GetNewAccessInformation | src/viper.hpp:638-652 | the client's size delta is published, the pool grows when the threshold test fires, and the configured strategy claims |
| FixedStore.Viper.RecoverDatabase | src/viper.hpp:554-629 | the index and table are those of a scan of every used block, and the size grows by the number of reinserted slots |
| FixedStore.Viper.RecoverThreads | src/viper.hpp:613-621 | once every thread has run, in thread order, index and table are those of a scan of every used block |
| FixedStore.Viper.RecoverThread | src/viper.hpp:613-616 | thread t runs on [start_block, end_block) and extends the scanned prefix from its start (or num_used_blocks) to its end |
| FixedStore.Viper.RecoverRange | src/viper.hpp:568-609 | one thread reinserts its range's slots, adds their count and frees the slots they displaced |
| FixedStore.Viper.FreeDuplicates | src/viper.hpp:602-607 | the release loop frees every duplicate in order |
| FixedStore.Viper.GetClient | src/viper.hpp:764-772 | a new client holds the claim the configured strategy makes from the cursor (block-based: the cursor's block and page; DIMM-based: the cursor's page for six blocks); the cursor moves on, the header and mappings grow by a resize chunk when the test fires, a block-based claim counts one block and initialises its page; index and size are unchanged and both counters are zero |
| FixedStore.Viper.RemoveClient | src/viper.hpp:781-784 | the client's remaining size delta is published |
| FixedStore.Client.constructor | src/viper.hpp:1138-1147 | a new client has every counter and cursor field zero |
| FixedStore.Client.UpdateAccessInformation | src/viper.hpp:1090-1114 | the client moves to the next page of its range or, once it is used up, takes a new claim; the page it lands on is initialised; cursor, header and mappings change only by that claim (the cursor step, the block counted, a resize chunk), which also publishes the delta and resets both counters; otherwise the counters are kept |
| FixedStore.Client.MoveWithinRange | src/viper.hpp:1091-1108 | within range, the next block of the stride or the next page of the block |
| FixedStore.Client.AdvancedBlocksSpec | src/viper.hpp:1090-1114 | after moving on, the new page is initialised and in range, and the index still points into the table |
| FixedStore.Client.AdvancedKeepsUnlocked | src/viper.hpp:1090-1114 | a page that was unlocked stays unlocked when the client moves on |
| FixedStore.Client.FreeOccupiedSlot | src/viper.hpp:1059-1087 | the slot's bit is set and the size delta drops by one |
| FixedStore.Client.Put | src/viper.hpp:803-858 | put writes the pair to the first free slot of the first page with one, points the index at it, frees the key's previous slot, and returns whether the key was new; the size grows by one only for a new key; cursor, header and mappings change only by the claim a full page may lead to, and the operation count is one more than where it started (zero after a claim), wrapping to zero with the delta published at the 1000th operation |
| FixedStore.Client.PutOnNextPage | src/viper.hpp:816-821 | a full page is unlocked, the client moves on, and put starts again, with the same result, cursor, header, mappings and counters as put promises |
| FixedStore.Client.WriteSlot | src/viper.hpp:824-857 | the pair is stored, indexed and unlocked, the previous slot freed, and the operation count advanced by info_sync |
| FixedStore.Client.Get | src/viper.hpp:958-976 | get returns the value at the key's live offset, or nothing for a missing key or tombstone |
| FixedStore.Client.Update | src/viper.hpp:1009-1033 | update reports whether the key is live and applies the function to its value in place |
| FixedStore.Client.Remove | src/viper.hpp:1036-1056 | remove reports whether the key was live; if so it frees the slot, drops the key and counts one less; otherwise nothing changes |
| FixedStore.Client.InfoSync | src/viper.hpp:1126-1132 | the delta is published and both counters reset when forced or at the 1000th operation; the sum of size and delta is kept |
| FixedStore.Open | src/viper.hpp:398-426 | the constructor refuses both strategies forced or no mapping; it registers every mapping, recovers an existing pool, and sets the cursor to the first unused block |
| VarStore.Viper.AddPageBlocks | src/viper.hpp:541-551 | the page table grows by the mapping's blocks, appended in order |
| VarStore.Viper.TriggerResize | src/viper.hpp:741-761 | a resize maps one chunk and appends its blocks |
| VarStore.Viper.GetNewAccessInformation | src/viper.hpp:638-652 | the same claim as the fixed-size engine, on arena pages |
| VarStore.Viper.ClaimBlockBased | src/viper.hpp:668-685 | the client takes the claimed block and page, the page is initialised, one block more is counted, and the cursor moves to the next block |
| VarStore.Viper.ClaimDimmBased | src/viper.hpp:688-719 | the client takes the cursor's page for six blocks and the cursor moves to the next page; nothing is initialised or counted |
| VarStore.Viper.StartArena | src/viper.hpp:661-664 | the claimed page gets no next page and an insert position at the start of its arena, and one more block is counted |
| VarStore.Viper.GetNewVarSizeAccessInformation | src/viper.hpp:655-665 | the claimed page starts an empty arena with no next page, and num_used_blocks grows by two when block-based, by one when DIMM-based |
| VarStore.Viper.GetClient | src/viper.hpp:764-772 | a new client holds the claim the configured strategy makes from the cursor; the cursor moves on, the header records a resize chunk, num_used_blocks grows by two when block-based and by one when DIMM-based, and the mappings grow by the chunk's mapping; the table keeps the grown length, the claimed page starts an empty arena with no next page and its data kept (unlocked when block-based), every other page is as before; index and size are unchanged and both counters are zero |
| VarStore.Viper.RemoveClient | src/viper.hpp:781-784 | the client's remaining size delta is published |
| VarStore.Client.UpdateAccessInformation | src/viper.hpp:1090-1114 | the client moves to the next page of its range or claims anew, and the page it lands on is initialised; cursor, header and mappings change only by that claim, which publishes the delta and resets both counters |
| VarStore.Client.UpdateVarSizePageInformation | src/viper.hpp:1117-1123 | after moving on, the page left behind points to the new page, which starts an empty arena; every other page is as the move left it, and cursor, header and mappings change only by a claim |
| VarStore.Client.LinkPages | src/viper.hpp:1119-1122 | the link and the empty arena, every other page kept |
| VarStore.Client.FreeOccupiedSlot | src/viper.hpp:1059-1087 | the record's is_set is cleared and the size delta drops by one |
| VarStore.Client.Put | src/viper.hpp:861-955 | put appends the record where it fits, splits it with a value-length-0 key half when only the key fits, or moves it to a new page behind a 0/0 header; it indexes the record, unlocks the page it locked, frees the key's previous record, returns whether the key was new, and the value reads back; every page other than the page it locked and the page it ends on is as before (as the move-on left it, when it moved on); a whole record leaves the client, cursor, header and mappings unchanged, a moved or split one changes them only as the move-on does; the operation count is one more than where it started (zero after a claim), wrapping to zero with the delta published at the 1000th operation |
| VarStore.Client.PutThenGet | src/viper.hpp:861-976 | after put, get of another key returns what it returned before, when that key's record lies on none of the pages put writes and does not continue onto one |
| VarStore.Client.WriteRecord | src/viper.hpp:863-934 | the lock is taken and the record written in the placement its size calls for; every page other than the locked page and the page it ends on is kept (after the move-on, when it moves on), and the cursor, header and mappings are kept for a whole record and changed only by the move-on otherwise |
| VarStore.Client.LockAndAppendWhole | src/viper.hpp:917-925 | the current page is locked (its lock byte is LOCK_BYTE on return) and the record written whole at the insert position, where it reads back; no other page changes and any other page whose lock was free stays free |
| VarStore.Client.LockAndMoveOn | src/viper.hpp:881-916 | with the page locked, a record that does not fit moves on and is split or moved, as its size calls for; pages other than the locked one and the new one are as the move-on leaves them, and cursor, header and mappings change only by the move-on |
| VarStore.Client.MoveOnAndSplit | src/viper.hpp:881-903 | when only the key fits, the key half stays behind with value length 0, the value half starts the fresh page, the record is found at the old insert position and its value reads back; no page other than those two changes beyond the move-on |
| VarStore.Client.MoveOnAndMove | src/viper.hpp:904-916 | when not even the key fits, a 0/0 header marks the rest of the old page where it fits and the whole record starts the fresh page; no page other than those two changes beyond the move-on |
| VarStore.Client.MoveOn | src/viper.hpp:881-883 | the client takes the next page, which starts an empty arena with no next page and a free lock, and which the page left behind points to; every other page is as update_access_information leaves it, and cursor, header and mappings change only by a claim |
| VarStore.Client.AppendWhole | src/viper.hpp:919-925 | the whole record at the insert position |
| VarStore.Client.AppendSplit | src/viper.hpp:885-903 | key half on the old page, value half at the start of the new |
| VarStore.Client.AppendMoved | src/viper.hpp:906-916 | the marker on the old page, the whole record at the start of the new |
| VarStore.Client.StoreRecord | src/viper.hpp:863-943 | put up to the index insert: the record is stored as its placement says, the page put locked is unlocked again, and no other page changes beyond the move-on |
| VarStore.Client.UnlockPage | src/viper.hpp:942-943 | the page locked at entry (for a split or moved record, the page left behind) gets FREE_BYTE as its lock byte and nothing else changes |
| VarStore.Client.IndexRecord | src/viper.hpp:936-954 | the key now maps to the new record, isNew holds iff the key had no live offset, the previous record's is_set is cleared and the size grows by one, with info_sync advancing the operation count and publishing the delta at the 1000th operation |
| VarStore.Client.Get | src/viper.hpp:958-976 | get returns the value read at the key's live offset, or nothing |
| VarStore.Client.Update | src/viper.hpp:1009-1013 | in-place update of variable-size records always fails |
| VarStore.Client.Remove | src/viper.hpp:1036-1056 | remove reports whether the key was live; if so it clears is_set, drops the key and counts one less |
| VarStore.Client.InfoSync | src/viper.hpp:1126-1132 | the delta is published and both counters reset when forced or at the 1000th operation |
| VarStore.Open | src/viper.hpp:398-426 | the constructor refuses both strategies forced or no mapping, registers every mapping, and fails on an existing pool because variable-size recovery throws |

## Left out

- Threads and atomics are left out: recovery threads, the detached resize thread, CPU affinity, the compare-and-swap retry loops and the spin-waits on `is_v_blocks_resizing_`. Every CAS succeeds first time, recovery threads run in thread order, and a resize completes inside the claim that triggers it.
- `num_active_clients_`, `is_resizing_` and the `v_block_`/`v_page_` pointers are not modelled. A client is identified by its block and page numbers.
- `mmap`, `open`, `munmap` and the file descriptor are outside the model. A mapping's blocks and the stored header of an existing pool are given as parameters.
- Persistence calls (`pmem_persist`, `pmem_memcpy`) are plain writes. Write ordering against crashes is not modelled.
- The CCEH hash index and the bit layout of `KeyValueOffset` are left out: the index is a map from key to an abstract (block, page, slot) offset. Key-equality checks with fingerprints are also left out, and `Delete` is removal from the map.
- `rand()` is a parameter of each claim, taken modulo the page count.
- The floating-point resize threshold test is a boolean parameter of each claim. The chunk a resize maps is a parameter too.
- Integer widths are not modelled: block, page and slot numbers, `op_count_`, `size_delta_` and `current_size_` are unbounded. The variable-size header is the exception, where 31- and 32-bit truncation is modelled.
- `ReadOnlyClient::get` and `get_const_entry_from_offset` are left out. They read the same way as `Client::get`.
- Variable-size recovery only throws; `VarStore.Open` returns a failure for an existing pool.
- Timing and `DEBUG_LOG` output are left out, and so are the benchmark harness and fixture.
- VarStore.Client.Get: returns nothing where the source would follow a null `next_page` or read past an arena.
- VarStore.Client.Put: requires the record to fit on the page its value lands on. The source's behaviour for a longer record is writing past the page.
- VarStore.Client.Put: the read-back of the value is stated on the table before the key's previous record is flagged. Flagging can only change it if that record overlaps the new one.
- FixedStore.Client.Put: requires every page the client may move through to be unlocked, since a held lock would make the sequential model spin.
- FixedStore.Viper.RecoverDatabase: requires at least one recovery thread. `num_recovery_threads_` is a configurable `uint8_t` (src/viper.hpp:43, 400), and with 0 the source divides by zero when it sizes the per-thread ranges (src/viper.hpp:612).
- FixedStore.Open: requires at least one recovery thread when it recovers an existing pool, for the same reason as RecoverDatabase.
- VarStore.Client.PutThenGet: states that another key keeps its value only when its record is on none of the pages put writes (the locked page, the page moved to, the previous record's page). The source also keeps records elsewhere on those pages, because put writes only behind the insert position and clears only one flag; that byte-level frame is not stated.
- VarStore.Client.MoveOn: of the two pages it touches, states only the fields put relies on: the link of the page left behind, and the fresh page's empty arena, null next page and free lock. UpdateVarSizePageInformation, which it calls, states both pages exactly. Stating them here as well makes the callers' proofs too costly.
- Layout.NumSlotsPerPage: the `ceil` on a double is integer ceiling division. The 16-bit page-size variable cannot overflow within seven pages, so its width is not modelled.
