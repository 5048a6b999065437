/**
 * The fixed-size engine of viper.hpp: Viper<K, V> with its block table, index and shared
 * cursor, and the Client through which all writes go.  The model is sequential: a CAS
 * succeeds on its first attempt, a page lock is either free or held, and a resize runs to
 * completion inside the call that triggers it.
 */
module FixedStore {
  import opened Wrappers
  import opened Index
  import opened FixedPage
  import Cursor
  import Pool
  import Recovery

  /** info_sync publishes a client's size delta every OPS_PER_SYNC operations. */
  const OPS_PER_SYNC: nat := 1000

  /** The operation count after an unforced info_sync: one more, or zero when that reaches OPS_PER_SYNC. */
  function SyncedCount(n: nat): nat
  {
    if n + 1 == OPS_PER_SYNC then 0 else n + 1
  }

  /**
   * What a claim takes from outside the model: the value rand() returns, the outcome of the
   * floating-point resize threshold test, and the contents of the chunk a resize maps.
   */
  datatype Env<K, V> = Env(random: nat, resize: bool, chunk: seq<Block<K, V>>)

  /** Every block has pagesPerBlock pages of slots slots each. */
  predicate TableOk<K, V>(blocks: seq<Block<K, V>>, pagesPerBlock: nat, slots: nat)
  {
    forall b :: 0 <= b < |blocks| ==> BlockWellFormed(blocks[b], pagesPerBlock, slots)
  }

  /** Every live offset in the index names a slot of the table. */
  predicate IndexOk<K, V>(index: map<K, Offset>, blocks: seq<Block<K, V>>)
  {
    forall k :: k in index && index[k].At? ==> Locates(blocks, index[k])
  }

  /** A well-formed table has bitmaps and slot arrays of equal length everywhere. */
  lemma TableUniform<K, V>(blocks: seq<Block<K, V>>, pagesPerBlock: nat, slots: nat)
    requires TableOk(blocks, pagesPerBlock, slots)
    ensures AllUniform(blocks)
  {
    forall b, p | 0 <= b < |blocks| && 0 <= p < |blocks[b]|
      ensures Uniform(blocks[b][p])
    {
      assert BlockWellFormed(blocks[b], pagesPerBlock, slots);
    }
  }

  /** The index recovery rebuilds points into the table recovery leaves. */
  lemma RecoveredIndexOk<K, V>(blocks0: seq<Block<K, V>>, used: nat, blocks: seq<Block<K, V>>)
    requires AllUniform(blocks0) && used <= |blocks0|
    requires Recovery.AllLocated(blocks0, Recovery.Recovered(blocks0, used).1)
    requires blocks == Recovery.FreeAll(blocks0, Recovery.Recovered(blocks0, used).1)
    ensures IndexOk(Recovery.Recovered(blocks0, used).0, blocks)
  {
    var index := Recovery.Recovered(blocks0, used).0;
    Recovery.RecoveredIndexLocated(blocks0, used);
    forall k | k in index && index[k].At?
      ensures Locates(blocks, index[k])
    {
      Recovery.LocatesSameShape(blocks, blocks0, index[k]);
    }
  }

  lemma SameShapeKeepsOk<K, V>(x: seq<Block<K, V>>, y: seq<Block<K, V>>, index: map<K, Offset>, pagesPerBlock: nat, slots: nat)
    requires SameShape(x, y) && TableOk(y, pagesPerBlock, slots) && IndexOk(index, y)
    ensures TableOk(x, pagesPerBlock, slots) && IndexOk(index, x)
  {
    forall b | 0 <= b < |x|
      ensures BlockWellFormed(x[b], pagesPerBlock, slots)
    {
      assert BlockWellFormed(y[b], pagesPerBlock, slots);
    }
    forall k | k in index && index[k].At?
      ensures Locates(x, index[k])
    {
      assert Locates(y, index[k]);
      assert |x[index[k].block]| == |y[index[k].block]|;
    }
  }

  lemma GrowKeepsOk<K, V>(blocks: seq<Block<K, V>>, more: seq<Block<K, V>>, index: map<K, Offset>, pagesPerBlock: nat, slots: nat)
    requires TableOk(blocks, pagesPerBlock, slots) && TableOk(more, pagesPerBlock, slots) && IndexOk(index, blocks)
    ensures TableOk(blocks + more, pagesPerBlock, slots) && IndexOk(index, blocks + more)
  {
    forall k | k in index && index[k].At?
      ensures Locates(blocks + more, index[k])
    {
      assert Locates(blocks, index[k]);
    }
  }

  /** The page at pos after init(). */
  function InitAt<K, V>(blocks: seq<Block<K, V>>, pos: Cursor.Position): (r: seq<Block<K, V>>)
    requires pos.block < |blocks| && pos.page < |blocks[pos.block]|
    ensures SameShape(r, blocks)
  {
    WithPage(blocks, pos.block, pos.page, Init(blocks[pos.block][pos.page]))
  }

  lemma LocatedWellFormed<K, V>(blocks: seq<Block<K, V>>, o: Offset, pagesPerBlock: nat, slots: nat)
    requires TableOk(blocks, pagesPerBlock, slots) && Locates(blocks, o)
    ensures WellFormed(PageOf(blocks, o), slots) && o.slot < slots
  {
    assert BlockWellFormed(blocks[o.block], pagesPerBlock, slots);
  }

  /** The slot o names written with e and marked occupied. */
  function StoreAt<K, V>(blocks: seq<Block<K, V>>, o: Offset, e: Entry<K, V>): (r: seq<Block<K, V>>)
    requires Locates(blocks, o) && Uniform(PageOf(blocks, o))
    ensures SameShape(r, blocks)
  {
    WithPage(blocks, o.block, o.page, Store(PageOf(blocks, o), o.slot, e))
  }

  /** The table put leaves: e stored at o, then the key's previous slot, if it had one, freed. */
  function AfterPut<K, V>(blocks: seq<Block<K, V>>, o: Offset, e: Entry<K, V>, previous: Option<Offset>): (r: seq<Block<K, V>>)
    requires Locates(blocks, o) && Uniform(PageOf(blocks, o))
    requires previous.Some? ==> Locates(blocks, previous.value)
    ensures SameShape(r, blocks)
  {
    var stored := StoreAt(blocks, o, e);
    match previous
    case None => stored
    case Some(p) =>
      Recovery.LocatesSameShape(stored, blocks, p);
      ReleaseAt(stored, p)
  }

  /**
   * put changes exactly two bits: the slot written now holds the pair and is occupied, the
   * key's previous slot is free, and every other slot keeps its bit and its contents; lock
   * bytes are unchanged.  The pair stays readable at o even when the previous slot is o.
   */
  lemma AfterPutSpec<K, V>(blocks: seq<Block<K, V>>, o: Offset, e: Entry<K, V>, previous: Option<Offset>, q: Offset)
    requires Locates(blocks, o) && Uniform(PageOf(blocks, o))
    requires previous.Some? ==> Locates(blocks, previous.value)
    requires Locates(blocks, q) && Uniform(PageOf(blocks, q))
    ensures Locates(AfterPut(blocks, o, e, previous), q)
    ensures PageOf(AfterPut(blocks, o, e, previous), o).data[o.slot] == e
    ensures PageOf(AfterPut(blocks, o, e, previous), q).free[q.slot] ==
              if previous == Some(q) then true else if q == o then false else PageOf(blocks, q).free[q.slot]
    ensures q != o ==> PageOf(AfterPut(blocks, o, e, previous), q).data[q.slot] == PageOf(blocks, q).data[q.slot]
    ensures PageOf(AfterPut(blocks, o, e, previous), q).lock == PageOf(blocks, q).lock
  {
    var stored := StoreAt(blocks, o, e);
    Recovery.LocatesSameShape(stored, blocks, q);
    Recovery.LocatesSameShape(AfterPut(blocks, o, e, previous), blocks, q);
    Recovery.LocatesSameShape(AfterPut(blocks, o, e, previous), blocks, o);
    if previous.Some? {
      Recovery.LocatesSameShape(stored, blocks, previous.value);
    }
  }

  /** update's in-place change: the value at o replaced by update of it; the key stays. */
  function UpdateAt<K, V>(blocks: seq<Block<K, V>>, o: Offset, update: V -> V): (r: seq<Block<K, V>>)
    requires Locates(blocks, o) && Uniform(PageOf(blocks, o))
    ensures SameShape(r, blocks)
  {
    var page := PageOf(blocks, o);
    var entry := page.data[o.slot];
    WithPage(blocks, o.block, o.page, page.(data := page.data[o.slot := entry.(value := update(entry.value))]))
  }

  /** init() is idempotent: initialising the page a claim already initialised changes nothing. */
  lemma InitAtTwice<K, V>(blocks: seq<Block<K, V>>, pos: Cursor.Position)
    requires pos.block < |blocks| && pos.page < |blocks[pos.block]|
    ensures InitAt(InitAt(blocks, pos), pos) == InitAt(blocks, pos)
  {
    var once := InitAt(blocks, pos);
    assert Init(once[pos.block][pos.page]) == once[pos.block][pos.page];
    assert once[pos.block][pos.page := once[pos.block][pos.page]] == once[pos.block];
  }

  /** The value get_value_from_offset reads at o. */
  function ValueAt<K, V>(blocks: seq<Block<K, V>>, o: Offset): V
    requires Locates(blocks, o) && Uniform(PageOf(blocks, o))
  {
    PageOf(blocks, o).data[o.slot].value
  }

  /** What get returns for key in a state: the value at the key's live offset, if it has one. */
  function Stored<K, V>(index: map<K, Offset>, blocks: seq<Block<K, V>>, key: K): Option<V>
    requires IndexOk(index, blocks) && AllUniform(blocks)
  {
    match Lookup(index, key)
    case None => None
    case Some(o) => Some(ValueAt(blocks, o))
  }

  /**
   * get after put: the key now reads as the value just written, and every other key keeps
   * its offset and, unless its slot is the one just written, its value.
   */
  lemma PutThenGet<K, V>(index: map<K, Offset>, blocks: seq<Block<K, V>>, o: Offset, key: K, value: V, other: K)
    requires IndexOk(index, blocks) && AllUniform(blocks) && Locates(blocks, o)
    ensures var after := AfterPut(blocks, o, Entry(key, value), Lookup(index, key));
            IndexOk(index[key := o], after) && AllUniform(after) &&
            Stored(index[key := o], after, key) == Some(value) &&
            (other != key && Lookup(index, other) != Some(o) ==>
               Stored(index[key := o], after, other) == Stored(index, blocks, other))
  {
    var after := AfterPut(blocks, o, Entry(key, value), Lookup(index, key));
    var written := index[key := o];
    Recovery.UniformSameShape(after, blocks);
    forall k | k in written && written[k].At?
      ensures Locates(after, written[k])
    {
      Recovery.LocatesSameShape(after, blocks, written[k]);
    }
    AfterPutSpec(blocks, o, Entry(key, value), Lookup(index, key), o);
    if other != key && Lookup(index, other).Some? && Lookup(index, other) != Some(o) {
      AfterPutSpec(blocks, o, Entry(key, value), Lookup(index, key), Lookup(index, other).value);
    }
  }

  /**
   * update changes one value in place: the value at o becomes update of the old one; every
   * other slot, every free bit and every lock byte stay as they were.
   */
  lemma UpdateAtSpec<K, V>(blocks: seq<Block<K, V>>, o: Offset, update: V -> V, q: Offset)
    requires Locates(blocks, o) && Uniform(PageOf(blocks, o)) && Locates(blocks, q) && Uniform(PageOf(blocks, q))
    ensures Locates(UpdateAt(blocks, o, update), q) && Uniform(PageOf(UpdateAt(blocks, o, update), q))
    ensures ValueAt(UpdateAt(blocks, o, update), q) == if q == o then update(ValueAt(blocks, o)) else ValueAt(blocks, q)
    ensures PageOf(UpdateAt(blocks, o, update), q).data[q.slot].key == PageOf(blocks, q).data[q.slot].key
    ensures PageOf(UpdateAt(blocks, o, update), q).free == PageOf(blocks, q).free
    ensures PageOf(UpdateAt(blocks, o, update), q).lock == PageOf(blocks, q).lock
  {
    Recovery.LocatesSameShape(UpdateAt(blocks, o, update), blocks, q);
  }

  /** Why the Viper constructor refuses to start. */
  datatype OpenError = BothStrategiesForced | NoMapping

  /** The blocks of several mappings, in mapping order. */
  function Concat<K, V>(content: seq<seq<Block<K, V>>>): (r: seq<Block<K, V>>)
  {
    if content == [] then [] else Concat(content[..|content| - 1]) + content[|content| - 1]
  }

  class Viper<K(==), V> {
    var metadata: Pool.Metadata          // the persistent header
    var mappings: seq<Pool.Mapping>      // v_base_.v_mappings
    var blocks: seq<Block<K, V>>         // v_blocks_, with the pages they point to
    var index: map<K, Offset>            // map_
    var currentSize: int                 // current_size_
    var cursor: Cursor.Position          // current_block_page_
    const pagesPerBlock: nat             // num_pages_per_block
    const slotsPerPage: nat              // VPage::num_slots_per_page
    const blockSize: nat                 // sizeof(VPageBlock)
    const forceDimm: bool                // v_config_.force_dimm_based
    const recoveryThreads: nat           // num_recovery_threads_

    /** The table is well shaped, registers exactly the mapped blocks, and the index points into it. */
    ghost predicate Valid()
      reads this
    {
      pagesPerBlock > 0 && blockSize > 0 && cursor.page < pagesPerBlock &&
      TableOk(blocks, pagesPerBlock, slotsPerPage) && IndexOk(index, blocks) &&
      |blocks| == Pool.MappedBlocks(mappings, blockSize)
    }

    /** The Viper constructor's field initialisation, before any mapping is registered. */
    constructor (base: Pool.Base, pagesPerBlock: nat, slotsPerPage: nat, blockSize: nat, forceDimm: bool, recoveryThreads: nat)
      ensures metadata == base.metadata && mappings == base.mappings && blocks == [] && index == map[]
      ensures currentSize == 0 && cursor == Cursor.Position(0, 0)
      ensures this.pagesPerBlock == pagesPerBlock && this.slotsPerPage == slotsPerPage && this.blockSize == blockSize
      ensures this.forceDimm == forceDimm && this.recoveryThreads == recoveryThreads
    {
      metadata := base.metadata;
      mappings := base.mappings;
      blocks := [];
      index := map[];
      currentSize := 0;
      cursor := Cursor.Position(0, 0);
      this.pagesPerBlock := pagesPerBlock;
      this.slotsPerPage := slotsPerPage;
      this.blockSize := blockSize;
      this.forceDimm := forceDimm;
      this.recoveryThreads := recoveryThreads;
    }

    /** add_v_page_blocks: one table entry per block of the mapping, appended in order. */
    method AddPageBlocks(mapping: Pool.Mapping, content: seq<Block<K, V>>)
      requires blockSize > 0 && |content| == mapping.mappedSize / blockSize
      modifies this`blocks
      ensures blocks == old(blocks) + content
    {
      ghost var blocks0 := blocks;
      for i := 0 to |content|
        invariant blocks == blocks0 + content[..i]
      {
        blocks := blocks + [content[i]];
      }
    }

    /** allocate_v_page_blocks: the header grows by one chunk and the chunk's mapping is recorded. */
    method AllocatePageBlocks() returns (mapping: Pool.Mapping)
      requires blockSize > 0
      modifies this`metadata, this`mappings
      ensures mapping == Pool.ChunkMapping(old(metadata)) && mapping.mappedSize == old(metadata).allocSize
      ensures metadata == Pool.AllocateChunk(old(metadata), blockSize)
      ensures mappings == old(mappings) + [mapping]
    {
      mapping := Pool.ChunkMapping(metadata);
      metadata := metadata.(numAllocatedBlocks := metadata.numAllocatedBlocks + metadata.allocSize / blockSize,
                            totalMappedSize := metadata.totalMappedSize + metadata.allocSize);
      mappings := mappings + [mapping];
    }

    /** A chunk a resize may map: one well-shaped block per blockSize bytes of the allocation unit. */
    ghost predicate ChunkOk(chunk: seq<Block<K, V>>)
      reads this
    {
      blockSize > 0 && |chunk| == metadata.allocSize / blockSize && TableOk(chunk, pagesPerBlock, slotsPerPage)
    }

    /** trigger_resize, run to completion: allocate one chunk and register its blocks. */
    method TriggerResize(chunk: seq<Block<K, V>>)
      requires Valid() && ChunkOk(chunk)
      modifies this`metadata, this`mappings, this`blocks
      ensures metadata == Pool.AllocateChunk(old(metadata), blockSize)
      ensures mappings == old(mappings) + [Pool.ChunkMapping(old(metadata))]
      ensures blocks == old(blocks) + chunk
      ensures Valid()
    {
      var mapping := AllocatePageBlocks();
      AddPageBlocks(mapping, chunk);
      assert (old(mappings) + [mapping])[..|old(mappings)|] == old(mappings);
      GrowKeepsOk(old(blocks), chunk, index, pagesPerBlock, slotsPerPage);
    }

    /** get_new_block: hand out the cursor and move it to the next block, at the page rand() picks. */
    method GetNewBlock(random: nat) returns (claimed: Cursor.Position)
      requires Valid() && cursor.block + 1 < |blocks|
      modifies this`cursor
      ensures claimed == old(cursor)
      ensures cursor == Cursor.NextBlockCursor(old(cursor), random, pagesPerBlock)
      ensures Valid()
    {
      claimed := cursor;
      cursor := Cursor.Position(cursor.block + 1, random % pagesPerBlock);
    }

    /** get_block_based_access: claim a block, start on the claimed page and initialise it. */
    method GetBlockBasedAccess(client: Client<K, V>, random: nat)
      requires Valid() && client.viper == this && cursor.block + 1 < |blocks|
      modifies this`cursor, this`blocks, this`metadata
      modifies client`strategy, client`blockNumber, client`pageNumber, client`pagesProcessed
      ensures client.Access() == Cursor.BlockBasedAccess(old(client.Access()), old(cursor))
      ensures cursor == Cursor.NextBlockCursor(old(cursor), random, pagesPerBlock)
      ensures blocks == InitAt(old(blocks), old(cursor))
      ensures metadata == old(metadata).(numUsedBlocks := old(metadata).numUsedBlocks + 1)
      ensures Valid()
    {
      var claimed := GetNewBlock(random);
      client.strategy := Cursor.BlockBased;
      client.blockNumber := claimed.block;
      client.pageNumber := claimed.page;
      client.pagesProcessed := 0;
      blocks := InitAt(blocks, claimed);
      SameShapeKeepsOk(blocks, old(blocks), index, pagesPerBlock, slotsPerPage);
      metadata := metadata.(numUsedBlocks := metadata.numUsedBlocks + 1);
    }

    /**
     * get_dimm_based_access: claim one (block, page) pair and walk its page through
     * BLOCK_STRIDE blocks.  The page is not initialised here and num_used_blocks is not
     * incremented.
     */
    method GetDimmBasedAccess(client: Client<K, V>)
      requires Valid() && client.viper == this
      modifies this`cursor, client`strategy, client`blockNumber, client`endBlockNumber, client`pageNumber
      ensures client.Access() == Cursor.DimmBasedAccess(old(client.Access()), old(cursor))
      ensures cursor == Cursor.NextDimmCursor(old(cursor), pagesPerBlock)
      ensures Valid()
    {
      var claimed := cursor;
      var next := Cursor.Position(claimed.block, claimed.page + 1);
      if next.page == pagesPerBlock {
        next := Cursor.Position(next.block + 1, 0);
      }
      cursor := next;
      client.strategy := Cursor.DimmBased;
      client.blockNumber := claimed.block;
      client.endBlockNumber := claimed.block + Cursor.BLOCK_STRIDE - 1;
      client.pageNumber := claimed.page;
    }

    /** The release loop of a recovery thread: the free bit of every duplicate is set, in order. */
    method FreeDuplicates(dups: seq<Offset>)
      requires Recovery.AllLocated(blocks, dups)
      modifies this`blocks
      ensures blocks == Recovery.FreeAll(old(blocks), dups)
    {
      ghost var blocks0 := blocks;
      for i := 0 to |dups|
        invariant Recovery.AllLocated(blocks0, dups[..i])
        invariant blocks == Recovery.FreeAll(blocks0, dups[..i])
      {
        assert dups[..i + 1][..i] == dups[..i];
        Recovery.LocatesSameShape(blocks, blocks0, dups[i]);
        blocks := ReleaseAt(blocks, dups[i]);
      }
      assert dups[..|dups|] == dups;
    }

    /**
     * recover_database with its threads run in thread order: thread t scans blocks
     * [t * k, min(t * k + k, used)) with k = used / threads + 1, reinserts every occupied slot
     * of every page whose lock byte is set, adds the count to the size and then frees the
     * slots its inserts displaced.
     */
    method RecoverDatabase()
      requires Valid() && index == map[] && recoveryThreads > 0 && metadata.numUsedBlocks <= |blocks|
      modifies this`index, this`currentSize, this`blocks
      ensures AllUniform(old(blocks))
      ensures var recovered := Recovery.Recovered(old(blocks), metadata.numUsedBlocks);
              index == recovered.0 && Recovery.AllLocated(old(blocks), recovered.1) &&
              blocks == Recovery.FreeAll(old(blocks), recovered.1)
      ensures currentSize == old(currentSize) + |Recovery.RangeEntries(old(blocks), 0, metadata.numUsedBlocks)|
      ensures Valid()
    {
      ghost var blocks0 := blocks;
      TableUniform(blocks0, pagesPerBlock, slotsPerPage);
      assert Recovery.Recovered(blocks0, 0).1 == [];
      assert Recovery.Progress(blocks0, 0, index, blocks, currentSize, currentSize);
      RecoverThreads(blocks0);
      RecoveredIndexOk(blocks0, metadata.numUsedBlocks, blocks);
    }

    /** The recovery threads, one after the other in thread order. */
    method RecoverThreads(ghost blocks0: seq<Block<K, V>>)
      requires TableOk(blocks, pagesPerBlock, slotsPerPage) && recoveryThreads > 0 && metadata.numUsedBlocks <= |blocks0|
      requires Recovery.Progress(blocks0, 0, index, blocks, currentSize, currentSize)
      modifies this`index, this`currentSize, this`blocks
      ensures TableOk(blocks, pagesPerBlock, slotsPerPage)
      ensures Recovery.Progress(blocks0, metadata.numUsedBlocks, index, blocks, old(currentSize), currentSize)
    {
      var used := metadata.numUsedBlocks;
      Recovery.CoveredEnds(used, recoveryThreads);
      ghost var cur, size0 := 0, currentSize;
      for t := 0 to recoveryThreads
        invariant cur == Recovery.Covered(used, recoveryThreads, t)
        invariant TableOk(blocks, pagesPerBlock, slotsPerPage)
        invariant Recovery.Progress(blocks0, cur, index, blocks, size0, currentSize)
      {
        cur := RecoverThread(blocks0, t, used, cur, size0);
      }
    }

    /**
     * Thread t, on [RangeStart, RangeEnd), run once the threads before it have covered the blocks
     * below cur: afterwards the blocks below next, its end, are covered.  A thread whose range is
     * empty leaves everything as it is.
     */
    method RecoverThread(ghost blocks0: seq<Block<K, V>>, t: nat, used: nat, ghost cur: nat, ghost size0: int)
      returns (ghost next: nat)
      requires recoveryThreads > 0 && used <= |blocks0| && cur == Recovery.Covered(used, recoveryThreads, t)
      requires TableOk(blocks, pagesPerBlock, slotsPerPage) && Recovery.Progress(blocks0, cur, index, blocks, size0, currentSize)
      modifies this`index, this`currentSize, this`blocks
      ensures next == Recovery.Covered(used, recoveryThreads, t + 1)
      ensures TableOk(blocks, pagesPerBlock, slotsPerPage) && Recovery.Progress(blocks0, next, index, blocks, size0, currentSize)
    {
      var lo := Recovery.RangeStart(used, recoveryThreads, t);
      var hi := Recovery.RangeEnd(used, recoveryThreads, t);
      Recovery.CoveredStep(used, recoveryThreads, t);
      next := hi;
      Recovery.ThreadSees(blocks0, cur, hi, index, blocks, size0, currentSize);
      Recovery.ThreadStep(blocks0, cur, hi, index, blocks, size0, currentSize);
      assert Recovery.RangeEntries(blocks, lo, hi) == Recovery.RangeEntries(blocks, cur, hi);
      RecoverRange(lo, hi);
    }

    /** The body of one recovery thread: scan [lo, hi), add the count, free the duplicates. */
    method RecoverRange(lo: nat, hi: nat)
      requires TableOk(blocks, pagesPerBlock, slotsPerPage) && AllUniform(blocks) && hi <= |blocks|
      requires Recovery.AllLocated(blocks, Recovery.InsertAll(index, Recovery.RangeEntries(blocks, lo, hi)).1)
      modifies this`index, this`currentSize, this`blocks
      ensures var step := Recovery.InsertAll(old(index), Recovery.RangeEntries(old(blocks), lo, hi));
              index == step.0 && blocks == Recovery.FreeAll(old(blocks), step.1)
      ensures currentSize == old(currentSize) + |Recovery.RangeEntries(old(blocks), lo, hi)|
      ensures TableOk(blocks, pagesPerBlock, slotsPerPage)
    {
      var found, dups, count := Recovery.ScanRange(blocks, lo, hi, pagesPerBlock, slotsPerPage, index, []);
      assert dups == Recovery.InsertAll(index, Recovery.RangeEntries(blocks, lo, hi)).1;
      index := found;
      currentSize := currentSize + count;
      FreeDuplicates(dups);
      SameShapeKeepsOk(blocks, old(blocks), map[], pagesPerBlock, slotsPerPage);
    }

    /** The blocks a claim can count on: the table, plus the chunk when the resize test fires. */
    ghost function ClaimableBlocks(env: Env<K, V>): nat
      reads this
    {
      |blocks| + if env.resize then |env.chunk| else 0
    }

    /** Room for the next claim: a block after the claimed one, or a whole DIMM stride. */
    ghost predicate CanClaim(env: Env<K, V>)
      reads this
    {
      cursor.block + (if forceDimm then Cursor.BLOCK_STRIDE else 2) <= ClaimableBlocks(env)
    }

    /** The table after the resize a claim may trigger. */
    ghost function GrownBlocks(env: Env<K, V>): seq<Block<K, V>>
      reads this
    {
      if env.resize then blocks + env.chunk else blocks
    }

    /** The client fields after a claim from the cursor, with the configured strategy. */
    ghost function ClaimedAccess(a: Cursor.Access): Cursor.Access
      reads this`cursor
    {
      if forceDimm then Cursor.DimmBasedAccess(a, cursor) else Cursor.BlockBasedAccess(a, cursor)
    }

    /** The cursor after a claim: the next page for DIMM-based, the next block at a random page for block-based. */
    ghost function ClaimedCursor(env: Env<K, V>): Cursor.Position
      requires pagesPerBlock > 0 && cursor.page < pagesPerBlock
      reads this`cursor
    {
      if forceDimm then Cursor.NextDimmCursor(cursor, pagesPerBlock) else Cursor.NextBlockCursor(cursor, env.random, pagesPerBlock)
    }

    /** The metadata after a claim: a chunk allocated when the pool grew, and the block counted when block-based. */
    ghost function ClaimedMetadata(env: Env<K, V>): Pool.Metadata
      requires blockSize > 0
      reads this`metadata
    {
      var grown := if env.resize then Pool.AllocateChunk(metadata, blockSize) else metadata;
      grown.(numUsedBlocks := metadata.numUsedBlocks + if forceDimm then 0 else 1)
    }

    /** The mappings after a claim: the new chunk's mapping appended when the pool grew. */
    ghost function ClaimedMappings(env: Env<K, V>): seq<Pool.Mapping>
      reads this`mappings, this`metadata
    {
      mappings + if env.resize then [Pool.ChunkMapping(metadata)] else []
    }

    /**
     * get_new_access_information: publish the client's size delta, grow the pool when the
     * threshold test fires, then claim with the configured strategy.
     */
    method GetNewAccessInformation(client: Client<K, V>, env: Env<K, V>)
      requires Valid() && client.viper == this && client.opCount < OPS_PER_SYNC && CanClaim(env)
      requires env.resize ==> ChunkOk(env.chunk)
      modifies this`metadata, this`mappings, this`blocks, this`cursor, this`currentSize
      modifies client`strategy, client`blockNumber, client`pageNumber, client`endBlockNumber, client`pagesProcessed
      modifies client`opCount, client`sizeDelta
      ensures client.Access() == old(ClaimedAccess(client.Access()))
      ensures cursor == old(ClaimedCursor(env)) && metadata == old(ClaimedMetadata(env)) && mappings == old(ClaimedMappings(env))
      ensures blocks == (if forceDimm then old(GrownBlocks(env)) else InitAt(old(GrownBlocks(env)), old(cursor)))
      ensures index == old(index)
      ensures currentSize == old(currentSize) + old(client.sizeDelta) && client.sizeDelta == 0 && client.opCount == 0
      ensures Valid() && client.Valid()
    {
      client.InfoSync(true);
      if env.resize {
        TriggerResize(env.chunk);
      }
      if forceDimm {
        GetDimmBasedAccess(client);
      } else {
        GetBlockBasedAccess(client, env.random);
      }
    }

    /** get_client: a new client with a first claim. */
    method GetClient(env: Env<K, V>) returns (client: Client<K, V>)
      requires Valid() && CanClaim(env)
      requires env.resize ==> ChunkOk(env.chunk)
      modifies this
      ensures fresh(client) && client.viper == this && client.Valid()
      ensures client.Access() == old(ClaimedAccess(Cursor.Access(Cursor.BlockBased, 0, 0, 0, 0)))
      ensures cursor == old(ClaimedCursor(env)) && metadata == old(ClaimedMetadata(env)) && mappings == old(ClaimedMappings(env))
      ensures blocks == (if forceDimm then old(GrownBlocks(env)) else InitAt(old(GrownBlocks(env)), old(cursor)))
      ensures index == old(index) && currentSize == old(currentSize) && client.sizeDelta == 0 && client.opCount == 0
    {
      client := new Client(this);
      GetNewAccessInformation(client, env);
    }

    /** remove_client (the Client destructor): publish what is left of its size delta. */
    method RemoveClient(client: Client<K, V>)
      requires client.viper == this && client.opCount < OPS_PER_SYNC
      modifies this`currentSize, client`opCount, client`sizeDelta
      ensures currentSize == old(currentSize) + old(client.sizeDelta) && client.sizeDelta == 0 && client.opCount == 0
    {
      client.InfoSync(true);
    }
  }

  class Client<K(==), V> {
    const viper: Viper<K, V>
    var strategy: Cursor.Strategy        // strategy_
    var blockNumber: nat                 // v_block_number_
    var pageNumber: nat                  // v_page_number_
    var endBlockNumber: nat              // end_v_block_number_
    var pagesProcessed: nat              // num_v_pages_processed_
    var opCount: nat                     // op_count_
    var sizeDelta: int                   // size_delta_

    function Access(): Cursor.Access
      reads this`strategy, this`blockNumber, this`pageNumber, this`endBlockNumber, this`pagesProcessed
    {
      Cursor.Access(strategy, blockNumber, pageNumber, endBlockNumber, pagesProcessed)
    }

    /** The client's range lies inside the table and its operation count is below the sync mark. */
    ghost predicate Valid()
      reads this, viper
    {
      viper.Valid() && Cursor.WellFormed(Access(), viper.pagesPerBlock) &&
      blockNumber < |viper.blocks| &&
      (strategy == Cursor.DimmBased ==> endBlockNumber < |viper.blocks|) &&
      strategy == (if viper.forceDimm then Cursor.DimmBased else Cursor.BlockBased) &&
      opCount < OPS_PER_SYNC
    }

    /** The page v_page_ points to. */
    ghost function CurrentPage(): Page<K, V>
      requires Valid()
      reads this, viper
    {
      assert BlockWellFormed(viper.blocks[blockNumber], viper.pagesPerBlock, viper.slotsPerPage);
      viper.blocks[blockNumber][pageNumber]
    }

    ghost predicate HasFreeSlot()
      requires Valid()
      reads this, viper
    {
      FirstFree(CurrentPage().free) < viper.slotsPerPage
    }

    /** The client fields after update_access_information: the next page of the range, or a new claim. */
    ghost function NextAccess(): Cursor.Access
      requires Valid()
      reads this, viper
    {
      match Cursor.Advance(Access(), viper.pagesPerBlock)
      case Some(a) => a
      case None => viper.ClaimedAccess(Access())
    }

    /** The client's range is used up, so update_access_information claims anew. */
    ghost predicate UsedUp()
      requires Cursor.WellFormed(Access(), viper.pagesPerBlock)
      reads this`strategy, this`blockNumber, this`pageNumber, this`endBlockNumber, this`pagesProcessed
    {
      Cursor.Advance(Access(), viper.pagesPerBlock).None?
    }

    /** viper's cursor after update_access_information: moved on only by a claim. */
    ghost function NextCursor(env: Env<K, V>): Cursor.Position
      requires Cursor.WellFormed(Access(), viper.pagesPerBlock)
      requires viper.pagesPerBlock > 0 && viper.cursor.page < viper.pagesPerBlock
      reads this`strategy, this`blockNumber, this`pageNumber, this`endBlockNumber, this`pagesProcessed, viper`cursor
    {
      if UsedUp() then viper.ClaimedCursor(env) else viper.cursor
    }

    /** viper's metadata after update_access_information: changed only by a claim. */
    ghost function NextMetadata(env: Env<K, V>): Pool.Metadata
      requires Cursor.WellFormed(Access(), viper.pagesPerBlock) && viper.blockSize > 0
      reads this`strategy, this`blockNumber, this`pageNumber, this`endBlockNumber, this`pagesProcessed, viper`metadata
    {
      if UsedUp() then viper.ClaimedMetadata(env) else viper.metadata
    }

    /** viper's mappings after update_access_information: grown only by a claim that resized. */
    ghost function NextMappings(env: Env<K, V>): seq<Pool.Mapping>
      requires Cursor.WellFormed(Access(), viper.pagesPerBlock)
      reads this`strategy, this`blockNumber, this`pageNumber, this`endBlockNumber, this`pagesProcessed, viper`mappings, viper`metadata
    {
      if UsedUp() then viper.ClaimedMappings(env) else viper.mappings
    }

    /** What update_access_information needs from outside: room and a chunk when it claims. */
    ghost predicate CanAdvance(env: Env<K, V>)
      requires Valid()
      reads this, viper
    {
      Cursor.Advance(Access(), viper.pagesPerBlock).None? ==>
        viper.CanClaim(env) && (env.resize ==> viper.ChunkOk(env.chunk))
    }

    /** The table after update_access_information: grown if it claimed and resized, next page initialised. */
    ghost function AdvancedBlocks(env: Env<K, V>): seq<Block<K, V>>
      requires Valid() && CanAdvance(env)
      reads this, viper
    {
      var grown := if Cursor.Advance(Access(), viper.pagesPerBlock).None? then viper.GrownBlocks(env) else viper.blocks;
      var next := NextAccess();
      assert next.block < |grown| && next.page < |grown[next.block]| by {
        if Cursor.Advance(Access(), viper.pagesPerBlock).Some? {
          assert BlockWellFormed(viper.blocks[next.block], viper.pagesPerBlock, viper.slotsPerPage);
        } else if env.resize {
          assert TableOk(viper.blocks + env.chunk, viper.pagesPerBlock, viper.slotsPerPage) by {
            GrowKeepsOk(viper.blocks, env.chunk, viper.index, viper.pagesPerBlock, viper.slotsPerPage);
          }
          assert BlockWellFormed(grown[next.block], viper.pagesPerBlock, viper.slotsPerPage);
        } else {
          assert BlockWellFormed(grown[next.block], viper.pagesPerBlock, viper.slotsPerPage);
        }
      }
      InitAt(grown, Cursor.Position(next.block, next.page))
    }

    /** Client(viper): every counter and cursor field zero. */
    constructor (viper: Viper<K, V>)
      ensures this.viper == viper && Access() == Cursor.Access(Cursor.BlockBased, 0, 0, 0, 0)
      ensures opCount == 0 && sizeDelta == 0
    {
      this.viper := viper;
      strategy := Cursor.BlockBased;
      blockNumber, pageNumber, endBlockNumber, pagesProcessed := 0, 0, 0, 0;
      opCount, sizeDelta := 0, 0;
    }

    /**
     * update_access_information: move to the next page of the client's range, or claim a new
     * range once it is used up, and initialise the page the client lands on.
     */
    method UpdateAccessInformation(env: Env<K, V>)
      requires Valid() && CanAdvance(env)
      modifies viper`metadata, viper`mappings, viper`blocks, viper`cursor, viper`currentSize
      modifies this`strategy, this`blockNumber, this`pageNumber, this`endBlockNumber, this`pagesProcessed
      modifies this`opCount, this`sizeDelta
      ensures Valid()
      ensures Access() == old(NextAccess())
      ensures viper.blocks == old(AdvancedBlocks(env))
      ensures viper.cursor == old(NextCursor(env)) && viper.metadata == old(NextMetadata(env)) &&
              viper.mappings == old(NextMappings(env))
      ensures viper.index == old(viper.index)
      ensures viper.currentSize + sizeDelta == old(viper.currentSize + sizeDelta)
      ensures old(UsedUp()) ==> viper.currentSize == old(viper.currentSize + sizeDelta) && sizeDelta == 0 && opCount == 0
      ensures !old(UsedUp()) ==> sizeDelta == old(sizeDelta) && opCount == old(opCount)
    {
      ghost var next := NextAccess();
      ghost var target := AdvancedBlocks(env);
      if Cursor.Advance(Access(), viper.pagesPerBlock).None? {
        ghost var grown := viper.GrownBlocks(env);
        ghost var pos := Cursor.Position(next.block, next.page);
        assert target == InitAt(grown, pos);
        viper.GetNewAccessInformation(this, env);
        assert viper.blocks == grown || viper.blocks == InitAt(grown, pos);
        InitCurrentPage();
        InitAtTwice(grown, pos);
        assert viper.blocks == target;
      } else {
        ghost var pos := Cursor.Position(next.block, next.page);
        assert target == InitAt(viper.blocks, pos);
        MoveWithinRange();
        InitCurrentPage();
        assert viper.blocks == target;
      }
    }

    /**
     * The in-range half of update_access_information: the next block of a DIMM stride, or the
     * next page (around the end of the block) of a claimed block.
     */
    method MoveWithinRange()
      requires Valid() && Cursor.Advance(Access(), viper.pagesPerBlock).Some?
      modifies this`blockNumber, this`pageNumber, this`pagesProcessed
      ensures Access() == old(Cursor.Advance(Access(), viper.pagesPerBlock)).value
      ensures Valid()
    {
      if strategy == Cursor.DimmBased {
        blockNumber := blockNumber + 1;
      } else {
        pagesProcessed := pagesProcessed + 1;
        pageNumber := (pageNumber + 1) % viper.pagesPerBlock;
      }
    }

    /** v_page_->init() on the page the client now writes to. */
    method InitCurrentPage()
      requires Valid()
      modifies viper`blocks
      ensures viper.blocks == InitAt(old(viper.blocks), Cursor.Position(blockNumber, pageNumber))
      ensures Valid()
    {
      assert BlockWellFormed(viper.blocks[blockNumber], viper.pagesPerBlock, viper.slotsPerPage);
      viper.blocks := InitAt(viper.blocks, Cursor.Position(blockNumber, pageNumber));
      SameShapeKeepsOk(viper.blocks, old(viper.blocks), viper.index, viper.pagesPerBlock, viper.slotsPerPage);
    }

    /** The page after update_access_information: initialised, in range, and every other lock kept. */
    lemma AdvancedBlocksSpec(env: Env<K, V>)
      requires Valid() && CanAdvance(env)
      ensures var r := AdvancedBlocks(env);
              var a := NextAccess();
              TableOk(r, viper.pagesPerBlock, viper.slotsPerPage) && IndexOk(viper.index, r) &&
              a.block < |r| && a.page < |r[a.block]| &&
              r[a.block][a.page] == Init(r[a.block][a.page])
    {
      var grown := if Cursor.Advance(Access(), viper.pagesPerBlock).None? then viper.GrownBlocks(env) else viper.blocks;
      var a := NextAccess();
      if grown != viper.blocks {
        GrowKeepsOk(viper.blocks, env.chunk, viper.index, viper.pagesPerBlock, viper.slotsPerPage);
      }
      assert BlockWellFormed(grown[a.block], viper.pagesPerBlock, viper.slotsPerPage);
      SameShapeKeepsOk(AdvancedBlocks(env), grown, viper.index, viper.pagesPerBlock, viper.slotsPerPage);
    }

    /** A page that was unlocked is still unlocked after update_access_information. */
    lemma AdvancedKeepsUnlocked(env: Env<K, V>, o: Offset)
      requires Valid() && CanAdvance(env) && Locates(viper.blocks, o) && PageOf(viper.blocks, o).lock == FREE_BYTE
      ensures Locates(AdvancedBlocks(env), o) && PageOf(AdvancedBlocks(env), o).lock == FREE_BYTE
    {
      var grown := if Cursor.Advance(Access(), viper.pagesPerBlock).None? then viper.GrownBlocks(env) else viper.blocks;
      assert grown[o.block] == viper.blocks[o.block];
      AdvancedBlocksSpec(env);
      Recovery.LocatesSameShape(AdvancedBlocks(env), grown, o);
    }

    /** What put needs: the current page and the key's current page unlocked, and room to move on. */
    ghost predicate CanPut(key: K, env: Env<K, V>)
      requires Valid()
      reads this, viper
    {
      CurrentPage().lock == FREE_BYTE &&
      (Lookup(viper.index, key).Some? ==> PageOf(viper.blocks, Lookup(viper.index, key).value).lock == FREE_BYTE) &&
      CanPutSomewhere(env)
    }

    /** The client fields put writes with: the current ones, or the next ones when the page is full. */
    ghost function WriteAccess(env: Env<K, V>): (a: Cursor.Access)
      requires Valid() && (!HasFreeSlot() ==> CanAdvance(env))
      reads this, viper
    {
      if HasFreeSlot() then Access() else NextAccess()
    }

    /** viper's cursor after put: moved on only by the claim a full page may lead to. */
    ghost function WriteCursor(env: Env<K, V>): Cursor.Position
      requires Valid()
      reads this, viper
    {
      if HasFreeSlot() then viper.cursor else NextCursor(env)
    }

    /** viper's metadata after put: changed only by the claim a full page may lead to. */
    ghost function WriteMetadata(env: Env<K, V>): Pool.Metadata
      requires Valid()
      reads this, viper
    {
      if HasFreeSlot() then viper.metadata else NextMetadata(env)
    }

    /** viper's mappings after put: grown only by a claim, after a full page, that resized. */
    ghost function WriteMappings(env: Env<K, V>): seq<Pool.Mapping>
      requires Valid()
      reads this, viper
    {
      if HasFreeSlot() then viper.mappings else NextMappings(env)
    }

    /** The operation count put starts from: reset by the claim a move-on makes once the range is used up. */
    ghost function WriteOpCount(env: Env<K, V>): nat
      requires Valid()
      reads this, viper
    {
      if !HasFreeSlot() && UsedUp() then 0 else opCount
    }

    /** The table put writes into: the current one, or the one after moving on when the page is full. */
    ghost function WriteBlocks(env: Env<K, V>): (r: seq<Block<K, V>>)
      requires Valid() && (!HasFreeSlot() ==> CanAdvance(env))
      reads this, viper
      ensures TableOk(r, viper.pagesPerBlock, viper.slotsPerPage) && IndexOk(viper.index, r)
      ensures WriteAccess(env).block < |r| && WriteAccess(env).page < |r[WriteAccess(env).block]|
    {
      if HasFreeSlot() then
        assert BlockWellFormed(viper.blocks[blockNumber], viper.pagesPerBlock, viper.slotsPerPage);
        viper.blocks
      else
        AdvancedBlocksSpec(env);
        AdvancedBlocks(env)
    }

    /** The slot put writes: the first free slot of the page it writes to, which is free. */
    ghost function WriteOffset(env: Env<K, V>): (o: Offset)
      requires Valid() && CanPutSomewhere(env)
      reads this, viper
      ensures Locates(WriteBlocks(env), o) && Uniform(PageOf(WriteBlocks(env), o))
      ensures PageOf(WriteBlocks(env), o).free[o.slot]
      ensures o.block == WriteAccess(env).block && o.page == WriteAccess(env).page
    {
      var a := WriteAccess(env);
      var blocks := WriteBlocks(env);
      assert BlockWellFormed(blocks[a.block], viper.pagesPerBlock, viper.slotsPerPage);
      assert FirstFree(blocks[a.block][a.page].free) < viper.slotsPerPage by {
        if !HasFreeSlot() {
          AdvancedBlocksSpec(env);
          assert blocks[a.block][a.page].free[0];
        }
      }
      At(a.block, a.page, FirstFree(blocks[a.block][a.page].free))
    }

    /** Room for put to write: a free slot here, or a page with slots to move on to. */
    ghost predicate CanPutSomewhere(env: Env<K, V>)
      requires Valid()
      reads this, viper
    {
      !HasFreeSlot() ==> viper.slotsPerPage > 0 && CanAdvance(env)
    }

    /**
     * free_occupied_slot: lock the slot's page, set its free bit, unlock it, and count one
     * record less in the client's size delta.
     */
    method FreeOccupiedSlot(o: Offset)
      requires Valid() && Locates(viper.blocks, o) && PageOf(viper.blocks, o).lock == FREE_BYTE
      modifies viper`blocks, this`sizeDelta
      ensures viper.blocks == ReleaseAt(old(viper.blocks), o)
      ensures sizeDelta == old(sizeDelta) - 1
      ensures Valid()
    {
      var page := viper.blocks[o.block][o.page];
      var locked := SetLock(page, LOCK_BYTE);
      viper.blocks := WithPage(viper.blocks, o.block, o.page, locked);
      var released := Release(locked, o.slot);
      viper.blocks := WithPage(viper.blocks, o.block, o.page, released);
      viper.blocks := WithPage(viper.blocks, o.block, o.page, SetLock(released, FREE_BYTE));
      WithPageTwice(old(viper.blocks), o.block, o.page, locked, released);
      WithPageTwice(old(viper.blocks), o.block, o.page, released, SetLock(released, FREE_BYTE));
      SameShapeKeepsOk(viper.blocks, old(viper.blocks), viper.index, viper.pagesPerBlock, viper.slotsPerPage);
      sizeDelta := sizeDelta - 1;
    }

    /**
     * put: lock the current page and take its first free slot; on a full page, unlock, move
     * on and try again.  Otherwise write the pair, point the index at it, unlock, free the
     * key's previous slot, count the record and sync every OPS_PER_SYNC operations.
     */
    method Put(key: K, value: V, env: Env<K, V>) returns (isNew: bool, ghost written: Offset)
      requires Valid() && CanPut(key, env)
      modifies this, viper
      decreases if HasFreeSlot() then 0 else 1, 1
      ensures Valid()
      ensures Access() == old(WriteAccess(env))
      ensures written == old(WriteOffset(env))
      ensures viper.blocks == AfterPut(old(WriteBlocks(env)), written, Entry(key, value), old(Lookup(viper.index, key)))
      ensures viper.index == old(viper.index)[key := written]
      ensures isNew <==> old(Lookup(viper.index, key)).None?
      ensures viper.currentSize + sizeDelta == old(viper.currentSize + sizeDelta) + if isNew then 1 else 0
      ensures viper.cursor == old(WriteCursor(env))
      ensures viper.metadata == old(WriteMetadata(env))
      ensures viper.mappings == old(WriteMappings(env))
      ensures opCount == SyncedCount(old(WriteOpCount(env))) && (opCount == 0 ==> sizeDelta == 0)
    {
      ghost var before := viper.blocks;
      if HasFreeSlot() {
        WriteHere(env);
      }
      LockCurrentPage();
      var slot := FirstFree(viper.blocks[blockNumber][pageNumber].free);
      if slot >= viper.slotsPerPage {
        UnlockCurrentPage(before);
        isNew, written := PutOnNextPage(key, value, env);
      } else {
        isNew, written := WriteSlot(key, value, before, slot);
      }
    }

    /** With a free slot on the current page, put writes there, to its first free slot. */
    lemma WriteHere(env: Env<K, V>)
      requires Valid() && HasFreeSlot()
      ensures WriteAccess(env) == Access() && WriteBlocks(env) == viper.blocks
      ensures WriteOffset(env) == At(blockNumber, pageNumber, FirstFree(CurrentPage().free))
      ensures WriteCursor(env) == viper.cursor && WriteMetadata(env) == viper.metadata &&
              WriteMappings(env) == viper.mappings && WriteOpCount(env) == opCount
    {
    }

    /** The full-page branch of put: move on to the next page and put there. */
    method PutOnNextPage(key: K, value: V, env: Env<K, V>) returns (isNew: bool, ghost written: Offset)
      requires Valid() && CanPut(key, env) && !HasFreeSlot()
      modifies this, viper
      decreases 1, 0
      ensures Valid()
      ensures Access() == old(WriteAccess(env))
      ensures written == old(WriteOffset(env))
      ensures viper.blocks == AfterPut(old(WriteBlocks(env)), written, Entry(key, value), old(Lookup(viper.index, key)))
      ensures viper.index == old(viper.index)[key := written]
      ensures isNew <==> old(Lookup(viper.index, key)).None?
      ensures viper.currentSize + sizeDelta == old(viper.currentSize + sizeDelta) + if isNew then 1 else 0
      ensures viper.cursor == old(NextCursor(env))
      ensures viper.metadata == old(NextMetadata(env))
      ensures viper.mappings == old(NextMappings(env))
      ensures opCount == SyncedCount(old(if UsedUp() then 0 else opCount)) && (opCount == 0 ==> sizeDelta == 0)
    {
      ghost var previous := Lookup(viper.index, key);
      if previous.Some? {
        AdvancedKeepsUnlocked(env, previous.value);
      }
      AdvancedBlocksSpec(env);
      UpdateAccessInformation(env);
      assert CurrentPage().free[0];
      isNew, written := Put(key, value, env);
    }

    /** The compare-and-swap that takes the page lock, succeeding at once on an unlocked page. */
    method LockCurrentPage()
      requires Valid() && CurrentPage().lock == FREE_BYTE
      modifies viper`blocks
      ensures blockNumber < |old(viper.blocks)| && pageNumber < |old(viper.blocks)[blockNumber]|
      ensures viper.blocks == WithPage(old(viper.blocks), blockNumber, pageNumber, SetLock(old(CurrentPage()), LOCK_BYTE))
      ensures viper.blocks[blockNumber][pageNumber].free == old(CurrentPage()).free
      ensures Valid()
      ensures unchanged(this) && unchanged(viper`cursor, viper`metadata, viper`mappings, viper`index, viper`currentSize)
    {
      assert BlockWellFormed(viper.blocks[blockNumber], viper.pagesPerBlock, viper.slotsPerPage);
      viper.blocks := WithPage(viper.blocks, blockNumber, pageNumber, SetLock(viper.blocks[blockNumber][pageNumber], LOCK_BYTE));
      SameShapeKeepsOk(viper.blocks, old(viper.blocks), viper.index, viper.pagesPerBlock, viper.slotsPerPage);
    }

    /** The lock store of FREE_BYTE: the page is as it was before it was locked. */
    method UnlockCurrentPage(ghost before: seq<Block<K, V>>)
      requires blockNumber < |before| && pageNumber < |before[blockNumber]| && before[blockNumber][pageNumber].lock == FREE_BYTE
      requires viper.blocks == WithPage(before, blockNumber, pageNumber, SetLock(before[blockNumber][pageNumber], LOCK_BYTE))
      modifies viper`blocks
      ensures viper.blocks == before
      ensures unchanged(this) && unchanged(viper`cursor, viper`metadata, viper`mappings, viper`index, viper`currentSize)
    {
      var page := SetLock(viper.blocks[blockNumber][pageNumber], FREE_BYTE);
      viper.blocks := WithPage(viper.blocks, blockNumber, pageNumber, page);
      WithPageTwice(before, blockNumber, pageNumber, SetLock(before[blockNumber][pageNumber], LOCK_BYTE), page);
      assert before[blockNumber][pageNumber := page] == before[blockNumber];
    }

    /**
     * The second half of put, on the page it holds locked (before is the table as it was
     * before the lock was taken): write the pair, point the index at it, unlock, free the key's
     * previous slot, count the record and sync.
     */
    method WriteSlot(key: K, value: V, ghost before: seq<Block<K, V>>, slot: nat) returns (isNew: bool, ghost written: Offset)
      requires Valid() && TableOk(before, viper.pagesPerBlock, viper.slotsPerPage) && IndexOk(viper.index, before)
      requires blockNumber < |before| && pageNumber < |before[blockNumber]| && before[blockNumber][pageNumber].lock == FREE_BYTE
      requires viper.blocks == WithPage(before, blockNumber, pageNumber, SetLock(before[blockNumber][pageNumber], LOCK_BYTE))
      requires slot == FirstFree(before[blockNumber][pageNumber].free) && slot < viper.slotsPerPage
      requires Lookup(viper.index, key).Some? ==> PageOf(before, Lookup(viper.index, key).value).lock == FREE_BYTE
      modifies viper`blocks, viper`index, viper`currentSize, this`sizeDelta, this`opCount
      ensures Valid()
      ensures written == At(blockNumber, pageNumber, slot) && Locates(before, written)
      ensures viper.blocks == AfterPut(before, written, Entry(key, value), old(Lookup(viper.index, key)))
      ensures viper.index == old(viper.index)[key := written]
      ensures isNew <==> old(Lookup(viper.index, key)).None?
      ensures viper.currentSize + sizeDelta == old(viper.currentSize + sizeDelta) + if isNew then 1 else 0
      ensures opCount == SyncedCount(old(opCount)) && (opCount == 0 ==> sizeDelta == 0)
    {
      assert BlockWellFormed(before[blockNumber], viper.pagesPerBlock, viper.slotsPerPage);
      var offset := At(blockNumber, pageNumber, slot);
      written := offset;
      var stored := Store(viper.blocks[blockNumber][pageNumber], slot, Entry(key, value));
      viper.blocks := WithPage(viper.blocks, blockNumber, pageNumber, stored);
      var previous := Previous(viper.index, key);
      viper.index := viper.index[key := offset];
      isNew := previous.Tombstone?;
      viper.blocks := WithPage(viper.blocks, blockNumber, pageNumber, SetLock(stored, FREE_BYTE));
      WithPageTwice(before, blockNumber, pageNumber, SetLock(before[blockNumber][pageNumber], LOCK_BYTE), stored);
      WithPageTwice(before, blockNumber, pageNumber, stored, SetLock(stored, FREE_BYTE));
      assert viper.blocks == StoreAt(before, written, Entry(key, value));
      SameShapeKeepsOk(viper.blocks, before, old(viper.index), viper.pagesPerBlock, viper.slotsPerPage);
      assert IndexOk(viper.index, viper.blocks);
      if !isNew && !previous.Tombstone? {
        Recovery.LocatesSameShape(viper.blocks, before, previous);
        FreeOccupiedSlot(previous);
      }
      sizeDelta := sizeDelta + 1;
      InfoSync(false);
    }

    /** get: the value at the key's live offset, or nothing for a missing key or a tombstone. */
    method Get(key: K) returns (r: Option<V>)
      requires Valid()
      ensures AllUniform(viper.blocks)
      ensures r == Stored(viper.index, viper.blocks, key)
    {
      Recovery.UniformSameShape(viper.blocks, viper.blocks);
      var found := Lookup(viper.index, key);
      if found.None? {
        return None;
      }
      var o := found.value;
      r := Some(viper.blocks[o.block][o.page].data[o.slot].value);
    }

    /** update: apply the update function in place to the key's value; no lock is taken. */
    method Update(key: K, update: V -> V) returns (found: bool)
      requires Valid()
      modifies viper`blocks
      ensures found <==> old(Lookup(viper.index, key)).Some?
      ensures found ==> Uniform(PageOf(old(viper.blocks), old(Lookup(viper.index, key)).value)) &&
                        viper.blocks == UpdateAt(old(viper.blocks), old(Lookup(viper.index, key)).value, update)
      ensures !found ==> viper.blocks == old(viper.blocks)
      ensures Valid()
    {
      var o := Lookup(viper.index, key);
      if o.None? {
        return false;
      }
      LocatedWellFormed(viper.blocks, o.value, viper.pagesPerBlock, viper.slotsPerPage);
      viper.blocks := UpdateAt(viper.blocks, o.value, update);
      SameShapeKeepsOk(viper.blocks, old(viper.blocks), viper.index, viper.pagesPerBlock, viper.slotsPerPage);
      found := true;
    }

    /** remove: free the key's slot and delete it from the index; false for a missing key. */
    method Remove(key: K) returns (found: bool)
      requires Valid()
      requires Lookup(viper.index, key).Some? ==> PageOf(viper.blocks, Lookup(viper.index, key).value).lock == FREE_BYTE
      modifies viper`blocks, viper`index, this`sizeDelta
      ensures found <==> old(Lookup(viper.index, key)).Some?
      ensures found ==> viper.blocks == ReleaseAt(old(viper.blocks), old(Lookup(viper.index, key)).value) &&
                        viper.index == old(viper.index) - {key} && sizeDelta == old(sizeDelta) - 1
      ensures !found ==> viper.blocks == old(viper.blocks) && viper.index == old(viper.index) && sizeDelta == old(sizeDelta)
      ensures Lookup(viper.index, key).None?
      ensures Valid()
    {
      var o := Lookup(viper.index, key);
      if o.None? {
        return false;
      }
      FreeOccupiedSlot(o.value);
      viper.index := viper.index - {key};
      found := true;
    }

    /**
     * info_sync: when forced, or when this is the OPS_PER_SYNC-th operation since the last
     * sync, add the size delta to the engine's size and reset both counters.
     */
    method InfoSync(force: bool)
      requires opCount < OPS_PER_SYNC
      modifies this`opCount, this`sizeDelta, viper`currentSize
      ensures opCount < OPS_PER_SYNC
      ensures viper.currentSize + sizeDelta == old(viper.currentSize + sizeDelta)
      ensures force || old(opCount) + 1 == OPS_PER_SYNC ==>
                viper.currentSize == old(viper.currentSize) + old(sizeDelta) && sizeDelta == 0 && opCount == 0
      ensures !(force || old(opCount) + 1 == OPS_PER_SYNC) ==>
                viper.currentSize == old(viper.currentSize) && sizeDelta == old(sizeDelta) && opCount == old(opCount) + 1
    {
      if !force {
        opCount := opCount + 1;
      }
      if force || opCount == OPS_PER_SYNC {
        viper.currentSize := viper.currentSize + sizeDelta;
        opCount := 0;
        sizeDelta := 0;
      }
    }
  }

  /**
   * The Viper constructor, as create and open run it: refuse to force both claim strategies,
   * refuse a pool without mappings, register every mapping's blocks, recover an existing
   * database and put the shared cursor at the first unused block.  content holds the blocks
   * each mapping brings, as they are in persistent memory.
   */
  method Open<K(==), V>(base: Pool.Base, content: seq<seq<Block<K, V>>>, forceBlock: bool, forceDimm: bool,
                        pagesPerBlock: nat, slotsPerPage: nat, blockSize: nat, recoveryThreads: nat)
      returns (r: Result<Viper<K, V>, OpenError>)
    requires pagesPerBlock > 0 && blockSize > 0 && |content| == |base.mappings|
    requires forall i :: 0 <= i < |content| ==>
               |content[i]| == base.mappings[i].mappedSize / blockSize && TableOk(content[i], pagesPerBlock, slotsPerPage)
    requires !base.isNewDb ==> recoveryThreads > 0 && base.metadata.numUsedBlocks <= |Concat(content)|
    ensures forceBlock && forceDimm ==> r == Failure(BothStrategiesForced)
    ensures !(forceBlock && forceDimm) && base.mappings == [] ==> r == Failure(NoMapping)
    ensures !(forceBlock && forceDimm) && base.mappings != [] ==> r.Success?
    ensures r.Success? ==>
              fresh(r.value) && r.value.Valid() && r.value.forceDimm == forceDimm &&
              r.value.metadata == base.metadata && r.value.mappings == base.mappings &&
              r.value.cursor == Cursor.Position(base.metadata.numUsedBlocks, 0)
    ensures r.Success? && base.isNewDb ==>
              r.value.blocks == Concat(content) && r.value.index == map[] && r.value.currentSize == 0
    ensures r.Success? && !base.isNewDb ==>
              AllUniform(Concat(content)) &&
              var recovered := Recovery.Recovered(Concat(content), base.metadata.numUsedBlocks);
              Recovery.AllLocated(Concat(content), recovered.1) &&
              r.value.index == recovered.0 && r.value.blocks == Recovery.FreeAll(Concat(content), recovered.1) &&
              r.value.currentSize == |Recovery.RangeEntries(Concat(content), 0, base.metadata.numUsedBlocks)|
  {
    if forceBlock && forceDimm {
      return Failure(BothStrategiesForced);
    }
    if base.mappings == [] {
      return Failure(NoMapping);
    }
    var viper := new Viper(base, pagesPerBlock, slotsPerPage, blockSize, forceDimm, recoveryThreads);
    for i := 0 to |base.mappings|
      invariant viper.blocks == Concat(content[..i])
      invariant viper.mappings == base.mappings && viper.metadata == base.metadata
      invariant TableOk(viper.blocks, pagesPerBlock, slotsPerPage)
      invariant |viper.blocks| == Pool.MappedBlocks(base.mappings[..i], blockSize)
      invariant viper.index == map[] && viper.currentSize == 0 && viper.cursor == Cursor.Position(0, 0)
    {
      assert content[..i + 1][..i] == content[..i];
      assert base.mappings[..i + 1][..i] == base.mappings[..i];
      GrowKeepsOk(viper.blocks, content[i], map[], pagesPerBlock, slotsPerPage);
      viper.AddPageBlocks(base.mappings[i], content[i]);
    }
    assert content[..|content|] == content;
    assert base.mappings[..|base.mappings|] == base.mappings;
    if !base.isNewDb {
      viper.RecoverDatabase();
    }
    viper.cursor := Cursor.Position(viper.metadata.numUsedBlocks, 0);
    r := Success(viper);
  }
}
