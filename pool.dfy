/**
 * Pool arithmetic (init_pool, allocate_v_page_blocks in viper.hpp): the persisted header,
 * the chunk mappings and the count of allocated blocks.  Opening and mapping the file are
 * left out; the header found at offset 0 of an existing pool is a parameter.
 */
module Pool {
  import opened Wrappers
  import Layout

  const SIZE_LIMIT: nat := 0x1_0000_0000_0000_0000   // size_t arithmetic wraps here

  /** ViperFileMetadata, the header persisted at offset 0 of the pool. */
  datatype Metadata = Metadata(blockOffset: nat, blockSize: nat, allocSize: nat,
                               numUsedBlocks: nat, numAllocatedBlocks: nat, totalMappedSize: nat)

  /** ViperFileMapping: one mapped chunk, its size and its offset in the file. */
  datatype Mapping = Mapping(mappedSize: nat, start: nat)

  /** ViperBase as init_pool returns it. */
  datatype Base = Base(isNewDb: bool, metadata: Metadata, mappings: seq<Mapping>)

  datatype PoolError =
    | ZeroChunkSize       // the stored allocation size is 0: pool_size % alloc_size divides by zero
    | NotChunkMultiple    // "Pool needs to be allocated in 1 GB chunks."
    | TooSmall            // "Pool too small"

  /** An existing header is taken as valid iff it has allocated blocks and a block size. */
  predicate ValidHeader(m: Metadata)
  {
    m.numAllocatedBlocks > 0 && m.blockSize > 0
  }

  /** size_t subtraction. */
  function Sub64(a: nat, b: nat): nat
  {
    (a - b) % SIZE_LIMIT
  }

  /** Blocks a list of mappings registers: each contributes mapped_size / sizeof(VPageBlock). */
  function MappedBlocks(mappings: seq<Mapping>, blockSize: nat): nat
    requires blockSize > 0
  {
    if mappings == [] then 0
    else MappedBlocks(mappings[..|mappings| - 1], blockSize) + mappings[|mappings| - 1].mappedSize / blockSize
  }

  /** The pool size and chunk size init_pool goes on with, and whether it creates a new pool. */
  function Effective(poolSize: nat, isNewPool: bool, dax: nat, stored: Metadata): (r: (nat, nat, bool))
    ensures r.2 == (isNewPool || !ValidHeader(stored))
  {
    if !isNewPool && ValidHeader(stored) then (stored.totalMappedSize, stored.allocSize, false)
    else (poolSize, dax, true)
  }

  /** The block count of a pool of `chunks` chunks whose first chunk loses the header's space. */
  function PoolBlocks(allocSize: nat, blockOffset: nat, chunks: nat, blockSize: nat): nat
    requires blockSize > 0 && chunks > 0
  {
    FirstChunkBlocks(allocSize, blockOffset, blockSize) + OtherChunkBlocks(allocSize, chunks - 1, blockSize)
  }

  function FirstChunkBlocks(allocSize: nat, blockOffset: nat, blockSize: nat): nat
    requires blockSize > 0
  {
    Sub64(allocSize, blockOffset) / blockSize
  }

  function OtherChunkBlocks(allocSize: nat, others: nat, blockSize: nat): nat
    requires blockSize > 0
  {
    others * (allocSize / blockSize)
  }

  /**
   * init_pool after the file is open: a valid stored header fixes the pool and chunk sizes,
   * an invalid one turns the open into a create; the size must be a positive multiple of the
   * chunk size; every chunk is its own mapping, the first shortened by the header's block
   * offset, and the header's allocated-block count is recomputed from them.
   */
  method InitPool(poolSize: nat, isNewPool: bool, dax: nat, stored: Metadata, blockSize: nat)
    returns (r: Result<Base, PoolError>)
    requires blockSize > 0
    ensures var (size, alloc, isNew) := Effective(poolSize, isNewPool, dax, stored);
            && (r.Failure? <==> alloc == 0 || size % alloc != 0 || size / alloc == 0)
            && (r.Failure? ==> r.error == (if alloc == 0 then ZeroChunkSize
                                           else if size % alloc != 0 then NotChunkMultiple else TooSmall))
            && (r.Success? ==>
                  var m := r.value.metadata;
                  var offset := if isNew then Layout.PAGE_SIZE else stored.blockOffset;
                  && r.value.isNewDb == isNew
                  && m == (if isNew then Metadata(Layout.PAGE_SIZE, blockSize, alloc, 0, m.numAllocatedBlocks, size)
                           else stored.(numAllocatedBlocks := m.numAllocatedBlocks))
                  && |r.value.mappings| == size / alloc
                  && r.value.mappings[0] == Mapping(Sub64(alloc, offset), offset)
                  && (forall i :: 1 <= i < |r.value.mappings| ==> r.value.mappings[i] == Mapping(alloc, i * alloc))
                  && m.numAllocatedBlocks == PoolBlocks(alloc, offset, size / alloc, blockSize)
                  && m.numAllocatedBlocks == MappedBlocks(r.value.mappings, blockSize))
  {
    var size := poolSize;
    var alloc := dax;
    var isNew := isNewPool;
    if !isNewPool {
      if stored.numAllocatedBlocks > 0 && stored.blockSize > 0 {
        size := stored.totalMappedSize;
        alloc := stored.allocSize;
      } else {
        isNew := true;
      }
    }
    if alloc == 0 {
      return Failure(ZeroChunkSize);
    }
    if size % alloc != 0 {
      return Failure(NotChunkMultiple);
    }
    var chunks := size / alloc;
    if chunks == 0 {
      return Failure(TooSmall);
    }
    var metadata := if isNew then Metadata(Layout.PAGE_SIZE, blockSize, alloc, 0, 0, size) else stored;
    var first := Mapping(Sub64(alloc, metadata.blockOffset), metadata.blockOffset);
    var mappings := [first];
    var numBlocks := first.mappedSize / blockSize;
    assert mappings[..0] == [];
    var chunk := 1;
    while chunk < chunks
      invariant 1 <= chunk <= chunks
      invariant |mappings| == chunk && mappings[0] == first
      invariant forall i :: 1 <= i < chunk ==> mappings[i] == Mapping(alloc, i * alloc)
      invariant numBlocks == first.mappedSize / blockSize + (chunk - 1) * (alloc / blockSize)
      invariant numBlocks == MappedBlocks(mappings, blockSize)
    {
      var mapping := Mapping(alloc, chunk * alloc);
      assert (mappings + [mapping])[..chunk] == mappings;
      var per := alloc / blockSize;
      assert (chunk - 1) * per + per == chunk * per;
      mappings := mappings + [mapping];
      numBlocks := numBlocks + per;
      chunk := chunk + 1;
    }
    metadata := metadata.(numAllocatedBlocks := numBlocks);
    return Success(Base(isNew, metadata, mappings));
  }

  /** allocate_v_page_blocks' header update: one more chunk of blocks and bytes. */
  function AllocateChunk(m: Metadata, blockSize: nat): (r: Metadata)
    requires blockSize > 0
    ensures r == m.(numAllocatedBlocks := r.numAllocatedBlocks, totalMappedSize := r.totalMappedSize)
  {
    m.(numAllocatedBlocks := m.numAllocatedBlocks + m.allocSize / blockSize,
       totalMappedSize := m.totalMappedSize + m.allocSize)
  }

  /** The mapping allocate_v_page_blocks adds: one chunk at the current end of the pool. */
  function ChunkMapping(m: Metadata): Mapping
  {
    Mapping(m.allocSize, m.totalMappedSize)
  }

  /**
   * Growing keeps the header's allocated-block count equal to the blocks its mappings
   * register, and to the closed formula for one chunk more.
   */
  lemma AllocateChunkKeepsCount(m: Metadata, mappings: seq<Mapping>, chunks: nat, blockSize: nat)
    requires blockSize > 0 && chunks > 0
    requires m.numAllocatedBlocks == MappedBlocks(mappings, blockSize)
    requires m.numAllocatedBlocks == PoolBlocks(m.allocSize, m.blockOffset, chunks, blockSize)
    ensures AllocateChunk(m, blockSize).numAllocatedBlocks == MappedBlocks(mappings + [ChunkMapping(m)], blockSize)
    ensures AllocateChunk(m, blockSize).numAllocatedBlocks == PoolBlocks(m.allocSize, m.blockOffset, chunks + 1, blockSize)
  {
    assert (mappings + [ChunkMapping(m)])[..|mappings|] == mappings;
    var per := m.allocSize / blockSize;
    assert chunks * per == (chunks - 1) * per + per;
  }
}
