/**
 * The variable-size engine of viper.hpp: Viper<std::string, std::string> with pages that are
 * byte arenas.  Claims, resizes and size syncing follow the same code as the fixed-size
 * engine; what differs is put (records appended to an arena and split over two pages when
 * they do not fit), get (which follows next_page for a split record), remove (which clears
 * is_set in the record header) and opening an existing pool (recovery is not implemented).
 * The model is sequential, as in FixedStore.
 */
module VarStore {
  import opened Wrappers
  import opened Index
  import opened VarEntry
  import opened VarArena
  import Cursor
  import Pool
  import FixedPage
  import FixedStore

  const OPS_PER_SYNC: nat := FixedStore.OPS_PER_SYNC

  /** What a claim takes from outside the model: rand(), the resize test and the chunk's pages. */
  datatype Env = Env(random: nat, resize: bool, chunk: Table)

  /** Every block has pagesPerBlock well-formed arenas. */
  predicate TableOk(t: Table, pagesPerBlock: nat)
  {
    forall b :: 0 <= b < |t| ==> |t[b]| == pagesPerBlock && forall p :: 0 <= p < |t[b]| ==> PageOk(t[b][p])
  }

  /** Every live offset names a page of the table and leaves room for a header in its arena. */
  predicate IndexOk(index: map<seq<byte>, Offset>, t: Table)
  {
    forall k :: k in index && index[k].At? ==>
      Holds(t, Cursor.Position(index[k].block, index[k].page)) && index[k].slot + HEADER_SIZE <= DATA_SIZE
  }

  /** A page replaced by one with an arena of the same size keeps the table and the index well formed. */
  lemma SetPageKeepsOk(t: Table, pos: Cursor.Position, page: Page, index: map<seq<byte>, Offset>, pagesPerBlock: nat)
    requires Holds(t, pos) && TableOk(t, pagesPerBlock) && IndexOk(index, t) && PageOk(page)
    ensures TableOk(SetPage(t, pos, page), pagesPerBlock) && IndexOk(index, SetPage(t, pos, page))
  {
    var r := SetPage(t, pos, page);
    forall b, p | 0 <= b < |r| && 0 <= p < |r[b]|
      ensures PageOk(r[b][p])
    {
      if Cursor.Position(b, p) != pos {
        assert Holds(t, Cursor.Position(b, p));
      }
    }
  }

  lemma GrowKeepsOk(t: Table, more: Table, index: map<seq<byte>, Offset>, pagesPerBlock: nat)
    requires TableOk(t, pagesPerBlock) && TableOk(more, pagesPerBlock) && IndexOk(index, t)
    ensures TableOk(t + more, pagesPerBlock) && IndexOk(index, t + more)
  {
    forall k | k in index && index[k].At?
      ensures Holds(t + more, Cursor.Position(index[k].block, index[k].page))
    {
      assert (t + more)[index[k].block] == t[index[k].block];
    }
  }

  class Viper {
    var metadata: Pool.Metadata
    var mappings: seq<Pool.Mapping>
    var pages: Table                       // v_blocks_, with their pages
    var index: map<seq<byte>, Offset>      // map_
    var currentSize: int                   // current_size_
    var cursor: Cursor.Position            // current_block_page_
    const pagesPerBlock: nat
    const blockSize: nat
    const forceDimm: bool

    ghost predicate Valid()
      reads this
    {
      pagesPerBlock > 0 && blockSize > 0 && cursor.page < pagesPerBlock &&
      TableOk(pages, pagesPerBlock) && IndexOk(index, pages) &&
      |pages| == Pool.MappedBlocks(mappings, blockSize)
    }

    constructor (base: Pool.Base, pagesPerBlock: nat, blockSize: nat, forceDimm: bool)
      ensures metadata == base.metadata && mappings == base.mappings && pages == [] && index == map[]
      ensures currentSize == 0 && cursor == Cursor.Position(0, 0)
      ensures this.pagesPerBlock == pagesPerBlock && this.blockSize == blockSize && this.forceDimm == forceDimm
    {
      metadata := base.metadata;
      mappings := base.mappings;
      pages := [];
      index := map[];
      currentSize := 0;
      cursor := Cursor.Position(0, 0);
      this.pagesPerBlock := pagesPerBlock;
      this.blockSize := blockSize;
      this.forceDimm := forceDimm;
    }

    /** add_v_page_blocks: one table entry per block of the mapping, appended in order. */
    method AddPageBlocks(mapping: Pool.Mapping, content: Table)
      requires blockSize > 0 && |content| == mapping.mappedSize / blockSize
      modifies this`pages
      ensures pages == old(pages) + content
    {
      ghost var pages0 := pages;
      for i := 0 to |content|
        invariant pages == pages0 + content[..i]
      {
        pages := pages + [content[i]];
      }
    }

    ghost predicate ChunkOk(chunk: Table)
      reads this
    {
      blockSize > 0 && |chunk| == metadata.allocSize / blockSize && TableOk(chunk, pagesPerBlock)
    }

    /** trigger_resize, run to completion: allocate one chunk and register its blocks. */
    method TriggerResize(chunk: Table)
      requires Valid() && ChunkOk(chunk)
      modifies this`metadata, this`mappings, this`pages
      ensures metadata == Pool.AllocateChunk(old(metadata), blockSize)
      ensures mappings == old(mappings) + [Pool.ChunkMapping(old(metadata))]
      ensures pages == old(pages) + chunk
      ensures Valid()
    {
      var mapping := Pool.ChunkMapping(metadata);
      metadata := Pool.AllocateChunk(metadata, blockSize);
      mappings := mappings + [mapping];
      AddPageBlocks(mapping, chunk);
      assert (old(mappings) + [mapping])[..|old(mappings)|] == old(mappings);
      GrowKeepsOk(old(pages), chunk, index, pagesPerBlock);
    }

    ghost function ClaimableBlocks(env: Env): nat
      reads this
    {
      |pages| + if env.resize then |env.chunk| else 0
    }

    ghost predicate CanClaim(env: Env)
      reads this
    {
      cursor.block + (if forceDimm then Cursor.BLOCK_STRIDE else 2) <= ClaimableBlocks(env)
    }

    ghost function GrownPages(env: Env): Table
      reads this
    {
      if env.resize then pages + env.chunk else pages
    }

    /** The client fields after a claim from the cursor, with the configured strategy. */
    ghost function ClaimedAccess(a: Cursor.Access): Cursor.Access
      reads this
    {
      if forceDimm then Cursor.DimmBasedAccess(a, cursor) else Cursor.BlockBasedAccess(a, cursor)
    }

    /** The cursor after a claim: the next page for DIMM-based, the next block at a random page for block-based. */
    ghost function ClaimedCursor(env: Env): Cursor.Position
      requires pagesPerBlock > 0 && cursor.page < pagesPerBlock
      reads this
    {
      if forceDimm then Cursor.NextDimmCursor(cursor, pagesPerBlock) else Cursor.NextBlockCursor(cursor, env.random, pagesPerBlock)
    }

    /** The metadata after a claim: a chunk allocated when the pool grew, and the block counted when block-based. */
    ghost function ClaimedMetadata(env: Env): Pool.Metadata
      requires blockSize > 0
      reads this
    {
      var grown := if env.resize then Pool.AllocateChunk(metadata, blockSize) else metadata;
      grown.(numUsedBlocks := metadata.numUsedBlocks + if forceDimm then 0 else 1)
    }

    /** The mappings after a claim: the new chunk's mapping appended when the pool grew. */
    ghost function ClaimedMappings(env: Env): seq<Pool.Mapping>
      reads this
    {
      mappings + if env.resize then [Pool.ChunkMapping(metadata)] else []
    }

    /**
     * get_new_access_information: publish the client's size delta, grow the pool when the
     * threshold test fires, then claim with the configured strategy (initialising the claimed
     * page and counting the block when block-based).
     */
    method GetNewAccessInformation(client: Client, env: Env)
      requires Valid() && client.viper == this && client.opCount < OPS_PER_SYNC && CanClaim(env)
      requires env.resize ==> ChunkOk(env.chunk)
      modifies this`metadata, this`mappings, this`pages, this`cursor, this`currentSize
      modifies client`strategy, client`blockNumber, client`pageNumber, client`endBlockNumber, client`pagesProcessed
      modifies client`opCount, client`sizeDelta
      ensures client.Access() == old(ClaimedAccess(client.Access()))
      ensures cursor == old(ClaimedCursor(env)) && metadata == old(ClaimedMetadata(env)) && mappings == old(ClaimedMappings(env))
      ensures Holds(old(GrownPages(env)), old(cursor))
      ensures pages == (if forceDimm then old(GrownPages(env))
                        else SetPage(old(GrownPages(env)), old(cursor), Init(old(GrownPages(env))[old(cursor).block][old(cursor).page])))
      ensures currentSize == old(currentSize) + old(client.sizeDelta) && client.sizeDelta == 0 && client.opCount == 0
      ensures Valid() && client.Access().block < |pages| && client.Access().page < pagesPerBlock
      ensures Cursor.WellFormed(client.Access(), pagesPerBlock)
      ensures forceDimm ==> client.Access().endBlock < |pages|
    {
      client.InfoSync(true);
      if env.resize {
        TriggerResize(env.chunk);
      }
      if forceDimm {
        ClaimDimmBased(client);
      } else {
        ClaimBlockBased(client, env.random);
      }
    }

    /** get_dimm_based_access: the client takes the cursor's page and the cursor moves to the next page. */
    method ClaimDimmBased(client: Client)
      requires Valid() && client.viper == this && cursor.block + Cursor.BLOCK_STRIDE <= |pages|
      modifies this`cursor, client`strategy, client`blockNumber, client`pageNumber, client`endBlockNumber
      ensures client.Access() == Cursor.DimmBasedAccess(old(client.Access()), old(cursor))
      ensures cursor == Cursor.NextDimmCursor(old(cursor), pagesPerBlock)
      ensures Holds(pages, old(cursor))
      ensures Valid() && client.Access().block < |pages| && client.Access().page < pagesPerBlock
      ensures Cursor.WellFormed(client.Access(), pagesPerBlock) && client.Access().endBlock < |pages|
    {
      var claimed := cursor;
      assert |pages[claimed.block]| == pagesPerBlock;
      var next := Cursor.Position(claimed.block, claimed.page + 1);
      if next.page == pagesPerBlock {
        next := Cursor.Position(next.block + 1, 0);
      }
      cursor := next;
      client.strategy := Cursor.DimmBased;
      client.blockNumber := claimed.block;
      client.endBlockNumber := claimed.block + Cursor.BLOCK_STRIDE - 1;
      client.pageNumber := claimed.page;
    }

    /**
     * get_block_based_access after get_new_block: the client takes the cursor's page, which is
     * initialised, the block is counted, and the cursor moves to a random page of the next block.
     */
    method ClaimBlockBased(client: Client, random: nat)
      requires Valid() && client.viper == this && cursor.block + 2 <= |pages|
      modifies this`cursor, this`pages, this`metadata
      modifies client`strategy, client`blockNumber, client`pageNumber, client`pagesProcessed
      ensures client.Access() == Cursor.BlockBasedAccess(old(client.Access()), old(cursor))
      ensures cursor == Cursor.NextBlockCursor(old(cursor), random, pagesPerBlock)
      ensures Holds(old(pages), old(cursor))
      ensures pages == SetPage(old(pages), old(cursor), Init(old(pages)[old(cursor).block][old(cursor).page]))
      ensures metadata == old(metadata).(numUsedBlocks := old(metadata).numUsedBlocks + 1)
      ensures Valid() && client.Access().block < |pages| && client.Access().page < pagesPerBlock
      ensures Cursor.WellFormed(client.Access(), pagesPerBlock)
    {
      var claimed := cursor;
      cursor := Cursor.Position(cursor.block + 1, random % pagesPerBlock);
      client.strategy := Cursor.BlockBased;
      client.blockNumber := claimed.block;
      client.pageNumber := claimed.page;
      client.pagesProcessed := 0;
      assert |pages[claimed.block]| == pagesPerBlock;
      SetPageKeepsOk(pages, claimed, Init(pages[claimed.block][claimed.page]), index, pagesPerBlock);
      pages := SetPage(pages, claimed, Init(pages[claimed.block][claimed.page]));
      metadata := metadata.(numUsedBlocks := metadata.numUsedBlocks + 1);
    }

    /**
     * get_new_var_size_access_information: claim, start an empty arena on the claimed page
     * (no next page, insert position at the start) and count a used block once more, so a
     * block-based claim counts its block twice.
     */
    method GetNewVarSizeAccessInformation(client: Client, env: Env)
      requires Valid() && client.viper == this && client.opCount < OPS_PER_SYNC && CanClaim(env)
      requires env.resize ==> ChunkOk(env.chunk)
      modifies this`metadata, this`mappings, this`pages, this`cursor, this`currentSize
      modifies client`strategy, client`blockNumber, client`pageNumber, client`endBlockNumber, client`pagesProcessed
      modifies client`opCount, client`sizeDelta
      ensures client.Access() == old(ClaimedAccess(client.Access()))
      ensures cursor == old(ClaimedCursor(env)) && mappings == old(ClaimedMappings(env))
      ensures metadata == old(ClaimedMetadata(env)).(numUsedBlocks := old(ClaimedMetadata(env)).numUsedBlocks + 1)
      ensures metadata.numUsedBlocks == old(metadata).numUsedBlocks + if forceDimm then 1 else 2
      ensures Holds(pages, old(cursor)) && |pages| == |old(GrownPages(env))|
      ensures var page := pages[old(cursor).block][old(cursor).page];
              var before := old(GrownPages(env))[old(cursor).block][old(cursor).page];
              page.next == None && page.insertPos == Some(0) && page.data == before.data &&
              page.lock == (if forceDimm then before.lock else FixedPage.FREE_BYTE)
      ensures forall q :: Holds(old(GrownPages(env)), q) && q != old(cursor) ==>
                Holds(pages, q) && pages[q.block][q.page] == old(GrownPages(env))[q.block][q.page]
      ensures currentSize == old(currentSize) + old(client.sizeDelta) && client.sizeDelta == 0 && client.opCount == 0
      ensures client.Valid()
    {
      GetNewAccessInformation(client, env);
      StartArena(Cursor.Position(client.blockNumber, client.pageNumber));
    }

    /** The claimed page becomes an empty arena with no next page, and a used block is counted. */
    method StartArena(at: Cursor.Position)
      requires Valid() && Holds(pages, at)
      modifies this`pages, this`metadata
      ensures pages == SetPage(old(pages), at, old(pages)[at.block][at.page].(next := None, insertPos := Some(0)))
      ensures metadata == old(metadata).(numUsedBlocks := old(metadata).numUsedBlocks + 1)
      ensures Valid()
    {
      var page := pages[at.block][at.page];
      SetPageKeepsOk(pages, at, page.(next := None, insertPos := Some(0)), index, pagesPerBlock);
      pages := SetPage(pages, at, page.(next := None, insertPos := Some(0)));
      metadata := metadata.(numUsedBlocks := metadata.numUsedBlocks + 1);
    }

    /** get_client: a new client whose first claim starts an empty arena. */
    method GetClient(env: Env) returns (client: Client)
      requires Valid() && CanClaim(env)
      requires env.resize ==> ChunkOk(env.chunk)
      modifies this
      ensures fresh(client) && client.viper == this && client.Valid()
      ensures client.Access() == old(ClaimedAccess(Cursor.Access(Cursor.BlockBased, 0, 0, 0, 0)))
      ensures cursor == old(ClaimedCursor(env)) && mappings == old(ClaimedMappings(env))
      ensures metadata == old(ClaimedMetadata(env)).(numUsedBlocks := old(ClaimedMetadata(env)).numUsedBlocks + 1)
      ensures client.CurrentPage().insertPos == Some(0) && client.CurrentPage().next == None
      ensures Holds(pages, old(cursor)) && |pages| == |old(GrownPages(env))|
      ensures var page := pages[old(cursor).block][old(cursor).page];
              var before := old(GrownPages(env))[old(cursor).block][old(cursor).page];
              page.next == None && page.insertPos == Some(0) && page.data == before.data &&
              page.lock == (if forceDimm then before.lock else FixedPage.FREE_BYTE)
      ensures forall q :: Holds(old(GrownPages(env)), q) && q != old(cursor) ==>
                Holds(pages, q) && pages[q.block][q.page] == old(GrownPages(env))[q.block][q.page]
      ensures index == old(index) && currentSize == old(currentSize) && client.sizeDelta == 0 && client.opCount == 0
    {
      client := new Client(this);
      GetNewVarSizeAccessInformation(client, env);
    }

    /** remove_client (the Client destructor): publish what is left of its size delta. */
    method RemoveClient(client: Client)
      requires client.viper == this && client.opCount < OPS_PER_SYNC
      modifies this`currentSize, client`opCount, client`sizeDelta
      ensures currentSize == old(currentSize) + old(client.sizeDelta) && client.sizeDelta == 0 && client.opCount == 0
    {
      client.InfoSync(true);
    }
  }

  /** What update reports for variable-size records. */
  datatype UpdateError = InPlaceUpdateUnsupported

  class Client {
    const viper: Viper
    var strategy: Cursor.Strategy
    var blockNumber: nat
    var pageNumber: nat
    var endBlockNumber: nat
    var pagesProcessed: nat
    var opCount: nat
    var sizeDelta: int

    function Access(): Cursor.Access
      reads this`strategy, this`blockNumber, this`pageNumber, this`endBlockNumber, this`pagesProcessed
    {
      Cursor.Access(strategy, blockNumber, pageNumber, endBlockNumber, pagesProcessed)
    }

    function Position(): Cursor.Position
      reads this`blockNumber, this`pageNumber
    {
      Cursor.Position(blockNumber, pageNumber)
    }

    /** The client's range lies inside the table and its operation count is below the sync mark. */
    ghost predicate Placed()
      reads this, viper
    {
      viper.Valid() && Cursor.WellFormed(Access(), viper.pagesPerBlock) &&
      blockNumber < |viper.pages| &&
      (strategy == Cursor.DimmBased ==> endBlockNumber < |viper.pages|) &&
      strategy == (if viper.forceDimm then Cursor.DimmBased else Cursor.BlockBased) &&
      opCount < OPS_PER_SYNC
    }

    /** Placed, and the client's page has an insert position to append at. */
    ghost predicate Valid()
      reads this, viper
    {
      Placed() && viper.pages[blockNumber][pageNumber].insertPos.Some?
    }

    /** v_page_. */
    ghost function CurrentPage(): Page
      requires Placed()
      reads this, viper
    {
      viper.pages[blockNumber][pageNumber]
    }

    /** next_insert_pos of v_page_, as an index into its arena. */
    ghost function InsertPos(): nat
      requires Valid()
      reads this, viper
    {
      CurrentPage().insertPos.value
    }

    /** The client fields after update_access_information: the next page of the range, or a new claim. */
    ghost function NextAccess(): Cursor.Access
      requires Placed()
      reads this, viper
    {
      match Cursor.Advance(Access(), viper.pagesPerBlock)
      case Some(a) => a
      case None => viper.ClaimedAccess(Access())
    }

    /** The page the client writes to after update_access_information. */
    ghost function NextPosition(): Cursor.Position
      requires Placed()
      reads this, viper
    {
      Cursor.Position(NextAccess().block, NextAccess().page)
    }

    /** The client's range is used up, so update_access_information claims anew. */
    ghost predicate UsedUp()
      requires Placed()
      reads this, viper
    {
      Cursor.Advance(Access(), viper.pagesPerBlock).None?
    }

    /** viper's cursor after update_access_information: moved on only by a claim. */
    ghost function NextCursor(env: Env): Cursor.Position
      requires Placed()
      reads this, viper
    {
      if UsedUp() then viper.ClaimedCursor(env) else viper.cursor
    }

    /** viper's metadata after update_access_information: changed only by a claim. */
    ghost function NextMetadata(env: Env): Pool.Metadata
      requires Placed()
      reads this, viper
    {
      if UsedUp() then viper.ClaimedMetadata(env) else viper.metadata
    }

    /** viper's mappings after update_access_information: grown only by a claim that resized. */
    ghost function NextMappings(env: Env): seq<Pool.Mapping>
      requires Placed()
      reads this, viper
    {
      if UsedUp() then viper.ClaimedMappings(env) else viper.mappings
    }

    /** The pages a move-on adds to the table: the chunk, when it claims and the resize test fires. */
    ghost function ChunkTaken(env: Env): Table
      requires Placed()
      reads this, viper
    {
      if UsedUp() && env.resize then env.chunk else []
    }

    ghost predicate CanAdvance(env: Env)
      requires Placed()
      reads this, viper
    {
      Cursor.Advance(Access(), viper.pagesPerBlock).None? ==>
        viper.CanClaim(env) && (env.resize ==> viper.ChunkOk(env.chunk))
    }

    /** The table after update_access_information: grown if it claimed and resized, next page initialised. */
    ghost function AdvancedPages(env: Env): (r: Table)
      requires Placed() && CanAdvance(env)
      reads this, viper
      ensures Holds(viper.pages + ChunkTaken(env), NextPosition()) && Holds(r, NextPosition())
      ensures var page := r[NextAccess().block][NextAccess().page];
              page.lock == FixedPage.FREE_BYTE && page.next == None && page.insertPos == None
      ensures forall q :: Holds(viper.pages, q) && q != NextPosition() ==>
                Holds(r, q) && r[q.block][q.page] == viper.pages[q.block][q.page]
    {
      var grown := viper.pages + ChunkTaken(env);
      var next := NextPosition();
      assert Holds(grown, next) by {
        if ChunkTaken(env) != [] {
          GrowKeepsOk(viper.pages, env.chunk, viper.index, viper.pagesPerBlock);
        }
        assert |grown[next.block]| == viper.pagesPerBlock;
      }
      forall q | Holds(viper.pages, q)
        ensures Holds(grown, q) && grown[q.block][q.page] == viper.pages[q.block][q.page]
      {
        assert grown[q.block] == viper.pages[q.block];
      }
      Advanced(viper.pages, ChunkTaken(env), next)
    }

    constructor (viper: Viper)
      ensures this.viper == viper && Access() == Cursor.Access(Cursor.BlockBased, 0, 0, 0, 0)
      ensures opCount == 0 && sizeDelta == 0
    {
      this.viper := viper;
      strategy := Cursor.BlockBased;
      blockNumber, pageNumber, endBlockNumber, pagesProcessed := 0, 0, 0, 0;
      opCount, sizeDelta := 0, 0;
    }

    /**
     * update_access_information: move to the next page of the client's range, or claim a new
     * range once it is used up, and initialise the page the client lands on.
     */
    method UpdateAccessInformation(env: Env)
      requires Placed() && CanAdvance(env)
      modifies viper`metadata, viper`mappings, viper`pages, viper`cursor, viper`currentSize
      modifies this`strategy, this`blockNumber, this`pageNumber, this`endBlockNumber, this`pagesProcessed
      modifies this`opCount, this`sizeDelta
      ensures Placed()
      ensures Access() == old(NextAccess())
      ensures viper.pages == old(AdvancedPages(env))
      ensures viper.cursor == old(NextCursor(env)) && viper.metadata == old(NextMetadata(env)) && viper.mappings == old(NextMappings(env))
      ensures viper.currentSize + sizeDelta == old(viper.currentSize + sizeDelta)
      ensures old(UsedUp()) ==> viper.currentSize == old(viper.currentSize + sizeDelta) && sizeDelta == 0 && opCount == 0
      ensures !old(UsedUp()) ==> viper.currentSize == old(viper.currentSize) && sizeDelta == old(sizeDelta) && opCount == old(opCount)
    {
      ghost var next := NextAccess();
      ghost var target := AdvancedPages(env);
      ghost var pos := Cursor.Position(next.block, next.page);
      if Cursor.Advance(Access(), viper.pagesPerBlock).None? {
        ghost var grown := viper.GrownPages(env);
        assert target == SetPage(grown, pos, Init(grown[pos.block][pos.page]));
        viper.GetNewAccessInformation(this, env);
        InitCurrentPage();
        if !viper.forceDimm {
          SetPageTwice(grown, pos, Init(grown[pos.block][pos.page]), Init(grown[pos.block][pos.page]));
        }
      } else {
        assert target == SetPage(viper.pages, pos, Init(viper.pages[pos.block][pos.page]));
        MoveWithinRange();
        InitCurrentPage();
      }
    }

    method MoveWithinRange()
      requires Placed() && Cursor.Advance(Access(), viper.pagesPerBlock).Some?
      modifies this`blockNumber, this`pageNumber, this`pagesProcessed
      ensures Access() == old(Cursor.Advance(Access(), viper.pagesPerBlock)).value
      ensures Placed()
    {
      if strategy == Cursor.DimmBased {
        blockNumber := blockNumber + 1;
      } else {
        pagesProcessed := pagesProcessed + 1;
        pageNumber := (pageNumber + 1) % viper.pagesPerBlock;
      }
    }

    /** v_page_->init() on the page the client now writes to. */
    method InitCurrentPage()
      requires Placed()
      modifies viper`pages
      ensures viper.pages == SetPage(old(viper.pages), Position(), Init(old(CurrentPage())))
      ensures Placed()
    {
      assert |viper.pages[blockNumber]| == viper.pagesPerBlock;
      SetPageKeepsOk(viper.pages, Position(), Init(CurrentPage()), viper.index, viper.pagesPerBlock);
      viper.pages := SetPage(viper.pages, Position(), Init(viper.pages[blockNumber][pageNumber]));
    }

    /**
     * update_var_size_page_information: move on, link the page left behind to the new one,
     * and start an empty arena on the new page.
     */
    method UpdateVarSizePageInformation(env: Env)
      requires Placed() && CanAdvance(env)
      modifies viper`metadata, viper`mappings, viper`pages, viper`cursor, viper`currentSize
      modifies this`strategy, this`blockNumber, this`pageNumber, this`endBlockNumber, this`pagesProcessed
      modifies this`opCount, this`sizeDelta
      ensures Valid()
      ensures Access() == old(NextAccess())
      ensures Holds(old(AdvancedPages(env)), old(Position())) && Holds(viper.pages, old(Position()))
      ensures viper.pages == Link(old(AdvancedPages(env)), old(Position()), Position())
      ensures AgreeExcept(old(AdvancedPages(env)), viper.pages, old(Position()), Position()) && CurrentPage().lock == FixedPage.FREE_BYTE
      ensures viper.cursor == old(NextCursor(env)) && viper.metadata == old(NextMetadata(env)) && viper.mappings == old(NextMappings(env))
      ensures viper.currentSize + sizeDelta == old(viper.currentSize + sizeDelta)
      ensures old(UsedUp()) ==> viper.currentSize == old(viper.currentSize + sizeDelta) && sizeDelta == 0 && opCount == 0
      ensures !old(UsedUp()) ==> viper.currentSize == old(viper.currentSize) && sizeDelta == old(sizeDelta) && opCount == old(opCount)
      ensures CurrentPage() == old(AdvancedPages(env))[blockNumber][pageNumber].(insertPos := Some(0))
      ensures Position() != old(Position()) ==>
                viper.pages[old(blockNumber)][old(pageNumber)] == old(CurrentPage()).(next := Some(Position()))
    {
      var from := Position();
      assert |viper.pages[from.block]| == viper.pagesPerBlock;
      UpdateAccessInformation(env);
      LinkPages(from);
    }

    /** The page left behind (from) points to the current page, which starts an empty arena. */
    method LinkPages(from: Cursor.Position)
      requires Placed() && Holds(viper.pages, from)
      modifies viper`pages
      ensures Valid()
      ensures viper.pages == Link(old(viper.pages), from, Position())
    {
      var left := viper.pages[from.block][from.page];
      SetPageKeepsOk(viper.pages, from, left.(next := Some(Position())), viper.index, viper.pagesPerBlock);
      viper.pages := SetPage(viper.pages, from, left.(next := Some(Position())));
      var page := viper.pages[blockNumber][pageNumber];
      assert |viper.pages[blockNumber]| == viper.pagesPerBlock;
      SetPageKeepsOk(viper.pages, Position(), page.(next := None, insertPos := Some(0)), viper.index, viper.pagesPerBlock);
      viper.pages := SetPage(viper.pages, Position(), page.(next := None, insertPos := Some(0)));
    }

    /**
     * free_occupied_slot for a variable-size record: lock the page, clear is_set in the
     * record's header, unlock, and count one record less.
     */
    method FreeOccupiedSlot(o: Offset)
      requires Valid() && o.At? && Holds(viper.pages, Cursor.Position(o.block, o.page)) && o.slot + HEADER_SIZE <= DATA_SIZE
      requires viper.pages[o.block][o.page].lock == FixedPage.FREE_BYTE
      modifies viper`pages, this`sizeDelta
      ensures viper.pages == ClearFlagAt(old(viper.pages), o)
      ensures sizeDelta == old(sizeDelta) - 1
      ensures Valid()
    {
      var at := Cursor.Position(o.block, o.page);
      var page := viper.pages[o.block][o.page];
      assert |page.data| == DATA_SIZE;
      var locked := page.(lock := FixedPage.LOCK_BYTE);
      var cleared := ClearFlag(locked, o.slot);
      viper.pages := SetPage(viper.pages, at, locked);
      viper.pages := SetPage(viper.pages, at, cleared);
      viper.pages := SetPage(viper.pages, at, cleared.(lock := FixedPage.FREE_BYTE));
      SetPageTwice(old(viper.pages), at, locked, cleared);
      SetPageTwice(old(viper.pages), at, cleared, cleared.(lock := FixedPage.FREE_BYTE));
      assert cleared.(lock := FixedPage.FREE_BYTE) == ClearFlag(page, o.slot);
      SetPageKeepsOk(old(viper.pages), at, ClearFlag(page, o.slot), viper.index, viper.pagesPerBlock);
      sizeDelta := sizeDelta - 1;
    }

    /** Where put puts the record, given the current insert position. */
    ghost function PlacementFor(key: seq<byte>, value: seq<byte>): Placement
      requires Valid()
      reads this, viper
    {
      PlacementOf(InsertPos(), |key|, |value|)
    }

    /** The operation count put starts from: reset by the claim a move-on makes once the range is used up. */
    ghost function WriteOpCount(key: seq<byte>, value: seq<byte>): nat
      requires Valid()
      reads this, viper
    {
      if PlacementFor(key, value) != Whole && UsedUp() then 0 else opCount
    }

    /**
     * put for variable-size records: lock the current page and append the record behind the
     * insert position; if it does not fit, move on to a new page first and put there either
     * the value alone (when the key still fits, leaving the key behind with value length 0)
     * or the whole record (leaving a 0/0 header behind when one fits).  Then point the index
     * at the record, unlock the first page, flag the key's previous record as removed, count
     * the record and sync every OPS_PER_SYNC operations.  The record reads back as the value
     * unless the value is empty or the new page is the page the record started on.
     */
    method Put(key: seq<byte>, value: seq<byte>, env: Env) returns (isNew: bool, ghost written: Offset, ghost stored: Table)
      requires Valid() && CurrentPage().lock == FixedPage.FREE_BYTE
      requires RecordFits(InsertPos(), |key|, |value|)
      requires PlacementFor(key, value) != Whole ==> CanAdvance(env)
      requires Lookup(viper.index, key).Some? ==>
                 viper.pages[Lookup(viper.index, key).value.block][Lookup(viper.index, key).value.page].lock == FixedPage.FREE_BYTE
      modifies viper`metadata, viper`mappings, viper`pages, viper`cursor, viper`currentSize, viper`index
      modifies this`strategy, this`blockNumber, this`pageNumber, this`endBlockNumber, this`pagesProcessed
      modifies this`opCount, this`sizeDelta
      ensures Valid()
      ensures isNew <==> old(Lookup(viper.index, key)).None?
      ensures viper.index == old(viper.index)[key := written]
      ensures written.At? && written.slot + HEADER_SIZE <= DATA_SIZE
      ensures Access() == if old(PlacementFor(key, value)) == Whole then old(Access()) else old(NextAccess())
      ensures RecordStored(stored, old(PlacementFor(key, value)), old(Position()), old(InsertPos()), Position(), written, key, value)
      ensures stored[old(blockNumber)][old(pageNumber)].lock == FixedPage.FREE_BYTE
      ensures old(PlacementFor(key, value)) == Whole ==>
                AgreeExcept(old(viper.pages), stored, old(Position()), Position()) && viper.cursor == old(viper.cursor) &&
                viper.metadata == old(viper.metadata) && viper.mappings == old(viper.mappings)
      ensures old(PlacementFor(key, value)) != Whole ==>
                AgreeExcept(old(AdvancedPages(env)), stored, old(Position()), Position()) && viper.cursor == old(NextCursor(env)) &&
                viper.metadata == old(NextMetadata(env)) && viper.mappings == old(NextMappings(env))
      ensures TableOk(stored, viper.pagesPerBlock) && IndexOk(old(viper.index), stored)
      ensures isNew ==> viper.pages == stored
      ensures !isNew ==> viper.pages == ClearFlagAt(stored, old(Lookup(viper.index, key)).value)
      ensures viper.currentSize + sizeDelta == old(viper.currentSize + sizeDelta) + if isNew then 1 else 0
      ensures opCount == FixedStore.SyncedCount(old(WriteOpCount(key, value))) && (opCount == 0 ==> sizeDelta == 0)
    {
      ghost var previous := Lookup(viper.index, key);
      ghost var watch := if previous.Some? then Cursor.Position(previous.value.block, previous.value.page) else Position();
      var offset := StoreRecord(key, value, env, watch);
      written, stored := offset, viper.pages;
      isNew := IndexRecord(key, offset);
    }

    /**
     * get of another key after put.  A key other than the one put reads back as before when
     * its record lies on none of the pages put writes (the page it locked, the page it moved
     * to and the page of the key's previous record) and does not continue onto one of them.
     */
    method PutThenGet(key: seq<byte>, value: seq<byte>, env: Env, other: seq<byte>) returns (r: Option<seq<byte>>)
      requires Valid() && CurrentPage().lock == FixedPage.FREE_BYTE
      requires RecordFits(InsertPos(), |key|, |value|)
      requires PlacementFor(key, value) != Whole ==> CanAdvance(env)
      requires Lookup(viper.index, key).Some? ==>
                 viper.pages[Lookup(viper.index, key).value.block][Lookup(viper.index, key).value.page].lock == FixedPage.FREE_BYTE
      requires other != key && Lookup(viper.index, other).Some?
      requires var o := Lookup(viper.index, other).value;
               Untouched(viper.pages, o, Position()) &&
               (PlacementFor(key, value) != Whole ==> Untouched(viper.pages, o, NextPosition())) &&
               (Lookup(viper.index, key).Some? ==>
                  Untouched(viper.pages, o, Cursor.Position(Lookup(viper.index, key).value.block, Lookup(viper.index, key).value.page))) &&
               (viper.pages[o.block][o.page].next.Some? ==> Holds(viper.pages, viper.pages[o.block][o.page].next.value))
      modifies viper`metadata, viper`mappings, viper`pages, viper`cursor, viper`currentSize, viper`index
      modifies this`strategy, this`blockNumber, this`pageNumber, this`endBlockNumber, this`pagesProcessed
      modifies this`opCount, this`sizeDelta
      ensures r == old(ReadValue(viper.pages, Lookup(viper.index, other).value))
    {
      ghost var before, o, previous := viper.pages, Lookup(viper.index, other).value, Lookup(viper.index, key);
      ghost var moved, locked := PlacementFor(key, value) != Whole, Position();
      ghost var more := ChunkTaken(env);
      ghost var to := if moved then NextPosition() else locked;
      var isNew;
      ghost var written, stored;
      isNew, written, stored := Put(key, value, env);
      assert Lookup(viper.index, other) == Some(o);
      GetOtherAfterPut(before, more, moved, stored, locked, to, previous, viper.pages, o);
      r := Get(other);
    }

    /**
     * put up to the index insert: lock the current page, move on if the record does not fit,
     * write it and unlock the page put locked.
     */
    method StoreRecord(key: seq<byte>, value: seq<byte>, env: Env, ghost watch: Cursor.Position) returns (written: Offset)
      requires Valid() && CurrentPage().lock == FixedPage.FREE_BYTE
      requires RecordFits(InsertPos(), |key|, |value|)
      requires PlacementFor(key, value) != Whole ==> CanAdvance(env)
      requires Holds(viper.pages, watch) && viper.pages[watch.block][watch.page].lock == FixedPage.FREE_BYTE
      modifies viper`metadata, viper`mappings, viper`pages, viper`cursor, viper`currentSize
      modifies this`strategy, this`blockNumber, this`pageNumber, this`endBlockNumber, this`pagesProcessed
      modifies this`opCount, this`sizeDelta
      ensures Valid() && Holds(viper.pages, old(Position())) && Holds(viper.pages, watch)
      ensures viper.pages[watch.block][watch.page].lock == FixedPage.FREE_BYTE
      ensures viper.pages[old(blockNumber)][old(pageNumber)].lock == FixedPage.FREE_BYTE
      ensures old(PlacementFor(key, value)) == Whole ==>
                AgreeExcept(old(viper.pages), viper.pages, old(Position()), Position()) && viper.cursor == old(viper.cursor) &&
                viper.metadata == old(viper.metadata) && viper.mappings == old(viper.mappings)
      ensures old(PlacementFor(key, value)) != Whole ==>
                AgreeExcept(old(AdvancedPages(env)), viper.pages, old(Position()), Position()) && viper.cursor == old(NextCursor(env)) &&
                viper.metadata == old(NextMetadata(env)) && viper.mappings == old(NextMappings(env))
      ensures viper.currentSize + sizeDelta == old(viper.currentSize + sizeDelta)
      ensures opCount == old(WriteOpCount(key, value))
      ensures written.At? && written.slot + HEADER_SIZE <= DATA_SIZE
      ensures Access() == if old(PlacementFor(key, value)) == Whole then old(Access()) else old(NextAccess())
      ensures RecordStored(viper.pages, old(PlacementFor(key, value)), old(Position()), old(InsertPos()), Position(), written, key, value)
    {
      ghost var placement, at := PlacementFor(key, value), InsertPos();
      ghost var base: Table := if placement == Whole then viper.pages else AdvancedPages(env);
      var locked;
      written, locked := WriteRecord(key, value, env, watch);
      ghost var pages: Table := viper.pages;
      ghost var unlocked := pages[locked.block][locked.page].(lock := FixedPage.FREE_BYTE);
      UnlockPage(locked, watch);
      RecordStoredUnlocked(pages, placement, locked, at, Position(), written, key, value);
      AgreeSetPage(base, pages, locked, unlocked, locked, Position());
    }

    /**
     * The first half of put, up to the index insert: lock the current page, move on if the
     * record does not fit, and write it.  locked is the page whose lock put holds.
     */
    method WriteRecord(key: seq<byte>, value: seq<byte>, env: Env, ghost watch: Cursor.Position)
        returns (written: Offset, locked: Cursor.Position)
      requires Valid() && CurrentPage().lock == FixedPage.FREE_BYTE
      requires RecordFits(InsertPos(), |key|, |value|)
      requires PlacementFor(key, value) != Whole ==> CanAdvance(env)
      requires Holds(viper.pages, watch) && viper.pages[watch.block][watch.page].lock == FixedPage.FREE_BYTE
      modifies viper`metadata, viper`mappings, viper`pages, viper`cursor, viper`currentSize
      modifies this`strategy, this`blockNumber, this`pageNumber, this`endBlockNumber, this`pagesProcessed
      modifies this`opCount, this`sizeDelta
      ensures Valid() && locked == old(Position()) && Holds(viper.pages, locked) && Holds(viper.pages, watch)
      ensures watch == locked || viper.pages[watch.block][watch.page].lock == FixedPage.FREE_BYTE
      ensures old(PlacementFor(key, value)) == Whole ==>
                AgreeExcept(old(viper.pages), viper.pages, locked, Position()) && viper.cursor == old(viper.cursor) &&
                viper.metadata == old(viper.metadata) && viper.mappings == old(viper.mappings)
      ensures old(PlacementFor(key, value)) != Whole ==>
                AgreeExcept(old(AdvancedPages(env)), viper.pages, locked, Position()) && viper.cursor == old(NextCursor(env)) &&
                viper.metadata == old(NextMetadata(env)) && viper.mappings == old(NextMappings(env))
      ensures viper.currentSize + sizeDelta == old(viper.currentSize + sizeDelta)
      ensures opCount == old(WriteOpCount(key, value))
      ensures written.At? && written.slot + HEADER_SIZE <= DATA_SIZE
      ensures Access() == if old(PlacementFor(key, value)) == Whole then old(Access()) else old(NextAccess())
      ensures RecordStored(viper.pages, old(PlacementFor(key, value)), locked, old(InsertPos()), Position(), written, key, value)
    {
      locked := Position();
      var at := viper.pages[blockNumber][pageNumber].insertPos.value;
      RecordFitsSizes(at, |key|, |value|);
      if PlacementOf(at, |key|, |value|) == Whole {
        written := LockAndAppendWhole(key, value, watch, at);
      } else {
        written := LockAndMoveOn(key, value, env, watch, at);
      }
    }

    /** The record fits behind at: take the lock and append it there. */
    method LockAndAppendWhole(key: seq<byte>, value: seq<byte>, ghost watch: Cursor.Position, at: nat)
        returns (written: Offset)
      requires Valid() && at == InsertPos() && CurrentPage().lock == FixedPage.FREE_BYTE
      requires RecordFits(at, |key|, |value|) && PlacementOf(at, |key|, |value|) == Whole
      requires Holds(viper.pages, watch) && viper.pages[watch.block][watch.page].lock == FixedPage.FREE_BYTE
      modifies viper`pages
      ensures Valid() && Holds(viper.pages, watch)
      ensures watch == Position() || viper.pages[watch.block][watch.page].lock == FixedPage.FREE_BYTE
      ensures viper.pages == SetPage(old(viper.pages), Position(), WriteWhole(old(CurrentPage()).(lock := FixedPage.LOCK_BYTE), at, key, value))
      ensures AgreeExcept(old(viper.pages), viper.pages, Position(), Position()) && CurrentPage().lock == FixedPage.LOCK_BYTE
      ensures at + HEADER_SIZE <= DATA_SIZE
      ensures RecordStored(viper.pages, Whole, Position(), at, Position(), written, key, value)
    {
      RecordFitsSizes(at, |key|, |value|);
      ghost var locked := old(CurrentPage()).(lock := FixedPage.LOCK_BYTE);
      LockCurrentPage();
      written := AppendWhole(key, value, at);
      SetPageTwice(old(viper.pages), Position(), locked, WriteWhole(locked, at, key, value));
      AgreeSetPage(old(viper.pages), old(viper.pages), Position(), WriteWhole(locked, at, key, value), Position(), Position());
    }

    /** The record does not fit behind at: take the lock, then move on and append. */
    method LockAndMoveOn(key: seq<byte>, value: seq<byte>, env: Env, ghost watch: Cursor.Position, at: nat)
        returns (written: Offset)
      requires Valid() && at == InsertPos() && CurrentPage().lock == FixedPage.FREE_BYTE && CanAdvance(env)
      requires RecordFits(at, |key|, |value|) && PlacementOf(at, |key|, |value|) != Whole
      requires Holds(viper.pages, watch) && viper.pages[watch.block][watch.page].lock == FixedPage.FREE_BYTE
      modifies viper`metadata, viper`mappings, viper`pages, viper`cursor, viper`currentSize
      modifies this`strategy, this`blockNumber, this`pageNumber, this`endBlockNumber, this`pagesProcessed
      modifies this`opCount, this`sizeDelta
      ensures Valid() && Access() == old(NextAccess()) && Holds(viper.pages, old(Position())) && Holds(viper.pages, watch)
      ensures watch == old(Position()) || viper.pages[watch.block][watch.page].lock == FixedPage.FREE_BYTE
      ensures AgreeExcept(old(AdvancedPages(env)), viper.pages, old(Position()), Position())
      ensures viper.cursor == old(NextCursor(env)) && viper.metadata == old(NextMetadata(env)) && viper.mappings == old(NextMappings(env))
      ensures viper.currentSize + sizeDelta == old(viper.currentSize + sizeDelta)
      ensures opCount == if old(UsedUp()) then 0 else old(opCount)
      ensures RecordStored(viper.pages, PlacementOf(at, |key|, |value|), old(Position()), at, Position(), written, key, value)
    {
      LockForMoveOn(env, watch);
      ghost var advanced := AdvancedPages(env);
      if PlacementOf(at, |key|, |value|) == Split {
        written := MoveOnAndSplit(key, value, env, at);
      } else {
        written := MoveOnAndMove(key, value, env, at);
      }
      AgreeTrans(old(AdvancedPages(env)), advanced, viper.pages, old(Position()), Position());
    }

    /**
     * Take the lock of the current page before moving on.  The move-on ahead is the one that
     * was due before: same next page, cursor, metadata and mappings, and a table that differs
     * only at the locked page; a watched page whose lock was free is still free there.
     */
    method LockForMoveOn(env: Env, ghost watch: Cursor.Position)
      requires Valid() && CanAdvance(env)
      requires Holds(viper.pages, watch) && viper.pages[watch.block][watch.page].lock == FixedPage.FREE_BYTE
      modifies viper`pages
      ensures Valid() && CanAdvance(env) && InsertPos() == old(InsertPos())
      ensures unchanged(this) && unchanged(viper`cursor, viper`metadata, viper`mappings, viper`currentSize)
      ensures viper.pages == SetPage(old(viper.pages), Position(), old(CurrentPage()).(lock := FixedPage.LOCK_BYTE))
      ensures NextAccess() == old(NextAccess()) && NextCursor(env) == old(NextCursor(env))
      ensures UsedUp() == old(UsedUp())
      ensures NextMetadata(env) == old(NextMetadata(env)) && NextMappings(env) == old(NextMappings(env))
      ensures AgreeExcept(old(AdvancedPages(env)), AdvancedPages(env), Position(), NextPosition())
      ensures watch != Position() && watch != NextPosition() ==>
                Holds(AdvancedPages(env), watch) && AdvancedPages(env)[watch.block][watch.page].lock == FixedPage.FREE_BYTE
    {
      ghost var before: Table := viper.pages;
      ghost var more := ChunkTaken(env);
      ghost var next := NextPosition();
      LockCurrentPage();
      assert ChunkTaken(env) == more && NextPosition() == next;
      AdvancedAfterWrite(before, more, Position(), before[blockNumber][pageNumber].(lock := FixedPage.LOCK_BYTE), next);
    }

    /** Take the lock of the current page, which is free. */
    method LockCurrentPage()
      requires Valid()
      modifies viper`pages
      ensures Valid() && unchanged(this) && unchanged(viper`cursor, viper`metadata, viper`mappings, viper`currentSize)
      ensures viper.pages == SetPage(old(viper.pages), Position(), old(CurrentPage()).(lock := FixedPage.LOCK_BYTE))
    {
      assert |viper.pages[blockNumber]| == viper.pagesPerBlock;
      var page := viper.pages[blockNumber][pageNumber];
      SetPageKeepsOk(viper.pages, Position(), page.(lock := FixedPage.LOCK_BYTE), viper.index, viper.pagesPerBlock);
      viper.pages := SetPage(viper.pages, Position(), page.(lock := FixedPage.LOCK_BYTE));
    }

    /**
     * Only the key fits behind at: move on to a fresh page, leave the key half behind and put
     * the value half at the start of the fresh page.
     */
    method MoveOnAndSplit(key: seq<byte>, value: seq<byte>, env: Env, at: nat) returns (written: Offset)
      requires RecordFits(at, |key|, |value|) && PlacementOf(at, |key|, |value|) == Split
      requires Valid() && at == InsertPos() && CanAdvance(env)
      modifies viper`metadata, viper`mappings, viper`pages, viper`cursor, viper`currentSize
      modifies this`strategy, this`blockNumber, this`pageNumber, this`endBlockNumber, this`pagesProcessed
      modifies this`opCount, this`sizeDelta
      ensures Valid() && Access() == old(NextAccess()) && Holds(viper.pages, old(Position()))
      ensures AgreeExcept(old(AdvancedPages(env)), viper.pages, old(Position()), Position())
      ensures viper.cursor == old(NextCursor(env)) && viper.metadata == old(NextMetadata(env)) && viper.mappings == old(NextMappings(env))
      ensures viper.currentSize + sizeDelta == old(viper.currentSize + sizeDelta)
      ensures opCount == if old(UsedUp()) then 0 else old(opCount)
      ensures CurrentPage().lock == FixedPage.FREE_BYTE
      ensures RecordStored(viper.pages, Split, old(Position()), at, Position(), written, key, value)
    {
      var locked := Position();
      ghost var advanced := AdvancedPages(env);
      RecordFitsSizes(at, |key|, |value|);
      MoveOn(env);
      written := AppendSplit(key, value, locked, at, advanced);
    }

    /**
     * Not even the key fits behind at: mark the rest of the page empty where a header fits,
     * move on, and put the whole record at the start of the fresh page.
     */
    method MoveOnAndMove(key: seq<byte>, value: seq<byte>, env: Env, at: nat) returns (written: Offset)
      requires RecordFits(at, |key|, |value|) && PlacementOf(at, |key|, |value|) == Moved
      requires Valid() && at == InsertPos() && CanAdvance(env)
      modifies viper`metadata, viper`mappings, viper`pages, viper`cursor, viper`currentSize
      modifies this`strategy, this`blockNumber, this`pageNumber, this`endBlockNumber, this`pagesProcessed
      modifies this`opCount, this`sizeDelta
      ensures Valid() && Access() == old(NextAccess()) && Holds(viper.pages, old(Position()))
      ensures AgreeExcept(old(AdvancedPages(env)), viper.pages, old(Position()), Position())
      ensures viper.cursor == old(NextCursor(env)) && viper.metadata == old(NextMetadata(env)) && viper.mappings == old(NextMappings(env))
      ensures viper.currentSize + sizeDelta == old(viper.currentSize + sizeDelta)
      ensures opCount == if old(UsedUp()) then 0 else old(opCount)
      ensures CurrentPage().lock == FixedPage.FREE_BYTE
      ensures RecordStored(viper.pages, Moved, old(Position()), at, Position(), written, key, value)
    {
      var locked := Position();
      ghost var advanced := AdvancedPages(env);
      RecordFitsSizes(at, |key|, |value|);
      MoveOn(env);
      written := AppendMoved(key, value, locked, at, advanced);
    }

    /**
     * Move on to a fresh page for a record that does not fit: the page left behind points to
     * it, it starts an empty arena, and every other page is as update_access_information left it.
     */
    method MoveOn(env: Env)
      requires Valid() && CanAdvance(env)
      modifies viper`metadata, viper`mappings, viper`pages, viper`cursor, viper`currentSize
      modifies this`strategy, this`blockNumber, this`pageNumber, this`endBlockNumber, this`pagesProcessed
      modifies this`opCount, this`sizeDelta
      ensures Valid() && Access() == old(NextAccess()) && Holds(viper.pages, old(Position()))
      ensures AgreeExcept(old(AdvancedPages(env)), viper.pages, old(Position()), Position())
      ensures viper.cursor == old(NextCursor(env)) && viper.metadata == old(NextMetadata(env)) && viper.mappings == old(NextMappings(env))
      ensures viper.currentSize + sizeDelta == old(viper.currentSize + sizeDelta)
      ensures opCount == if old(UsedUp()) then 0 else old(opCount)
      ensures CurrentPage().insertPos == Some(0) && CurrentPage().next == None && CurrentPage().lock == FixedPage.FREE_BYTE
      ensures Position() != old(Position()) ==> viper.pages[old(blockNumber)][old(pageNumber)].next == Some(Position())
    {
      UpdateVarSizePageInformation(env);
    }

    /** The whole record behind the insert position of the current page. */
    method AppendWhole(key: seq<byte>, value: seq<byte>, at: nat) returns (written: Offset)
      requires Valid() && at == InsertPos() && at + HEADER_SIZE + |key| + |value| <= DATA_SIZE
      requires |key| < KEY_LIMIT && |value| < VALUE_LIMIT
      modifies viper`pages
      ensures Valid()
      ensures forall q :: Holds(old(viper.pages), q) ==>
                Holds(viper.pages, q) && viper.pages[q.block][q.page].lock == old(viper.pages)[q.block][q.page].lock
      ensures viper.pages == SetPage(old(viper.pages), Position(), WriteWhole(old(CurrentPage()), at, key, value))
      ensures RecordStored(viper.pages, Whole, Position(), at, Position(), written, key, value)
    {
      var page := viper.pages[blockNumber][pageNumber];
      assert |viper.pages[blockNumber]| == viper.pagesPerBlock && PageOk(page);
      SetPageKeepsOk(viper.pages, Position(), WriteWhole(page, at, key, value), viper.index, viper.pagesPerBlock);
      viper.pages := SetPage(viper.pages, Position(), WriteWhole(page, at, key, value));
      written := At(blockNumber, pageNumber, at);
      if value != [] {
        ReadWholeRecord(viper.pages, written, key, value);
      }
    }

    /**
     * A split record: the key half at position at of the page left behind (locked), the value
     * half at the start of the fresh current page, which the page left behind points to.
     */
    method AppendSplit(key: seq<byte>, value: seq<byte>, locked: Cursor.Position, at: nat, ghost base: Table) returns (written: Offset)
      requires Valid() && Holds(viper.pages, locked) && CurrentPage().insertPos == Some(0)
      requires AgreeExcept(base, viper.pages, locked, Position()) && CurrentPage().lock == FixedPage.FREE_BYTE
      requires at + HEADER_SIZE + |key| < DATA_SIZE && HEADER_SIZE + |value| <= DATA_SIZE
      requires |key| < KEY_LIMIT && |value| < VALUE_LIMIT
      requires locked != Position() ==> viper.pages[locked.block][locked.page].next == Some(Position())
      modifies viper`pages
      ensures Valid() && unchanged(this) && unchanged(viper`cursor, viper`metadata, viper`mappings, viper`currentSize)
      ensures viper.pages == SplitPages(old(viper.pages), locked, Position(), at, key, value)
      ensures AgreeExcept(base, viper.pages, locked, Position()) && CurrentPage().lock == FixedPage.FREE_BYTE
      ensures RecordStored(viper.pages, Split, locked, at, Position(), written, key, value)
    {
      var left := viper.pages[locked.block][locked.page];
      assert |viper.pages[locked.block]| == viper.pagesPerBlock && PageOk(left);
      WritePage(locked, WriteKeyPart(left, at, key));
      var page := viper.pages[blockNumber][pageNumber];
      assert |viper.pages[blockNumber]| == viper.pagesPerBlock && PageOk(page);
      WritePage(Position(), WriteValuePart(page, value));
      written := At(locked.block, locked.page, at);
      SplitRecordStored(old(viper.pages), locked, Position(), at, key, value);
      RecordPagesAgree(old(viper.pages), locked, Position(), at, key, value);
      AgreeTrans(base, old(viper.pages), viper.pages, locked, Position());
    }

    /** One page store of put's: the page at p is replaced by one with the same lock. */
    method WritePage(p: Cursor.Position, page: Page)
      requires Valid() && Holds(viper.pages, p) && PageOk(page)
      requires page.lock == viper.pages[p.block][p.page].lock
      requires p == Position() ==> page.insertPos.Some?
      modifies viper`pages
      ensures Valid() && unchanged(this) && unchanged(viper`cursor, viper`metadata, viper`mappings, viper`currentSize)
      ensures viper.pages == SetPage(old(viper.pages), p, page)
    {
      SetPageKeepsOk(viper.pages, p, page, viper.index, viper.pagesPerBlock);
      viper.pages := SetPage(viper.pages, p, page);
    }

    /**
     * A moved record: the 0/0 marker at position at of the page left behind (locked), when it
     * fits, and the whole record at the start of the fresh current page.
     */
    method AppendMoved(key: seq<byte>, value: seq<byte>, locked: Cursor.Position, at: nat, ghost base: Table) returns (written: Offset)
      requires Valid() && Holds(viper.pages, locked) && CurrentPage().insertPos == Some(0)
      requires AgreeExcept(base, viper.pages, locked, Position()) && CurrentPage().lock == FixedPage.FREE_BYTE
      requires HEADER_SIZE + |key| + |value| <= DATA_SIZE && |key| < KEY_LIMIT && |value| < VALUE_LIMIT
      modifies viper`pages
      ensures Valid() && unchanged(this) && unchanged(viper`cursor, viper`metadata, viper`mappings, viper`currentSize)
      ensures viper.pages == MovedPages(old(viper.pages), locked, Position(), at, key, value)
      ensures AgreeExcept(base, viper.pages, locked, Position()) && CurrentPage().lock == FixedPage.FREE_BYTE
      ensures RecordStored(viper.pages, Moved, locked, at, Position(), written, key, value)
    {
      var left := viper.pages[locked.block][locked.page];
      assert |viper.pages[locked.block]| == viper.pagesPerBlock && PageOk(left);
      WritePage(locked, WriteMovedMarker(left, at));
      var page := viper.pages[blockNumber][pageNumber];
      assert |viper.pages[blockNumber]| == viper.pagesPerBlock && PageOk(page);
      WritePage(Position(), WriteWhole(page, 0, key, value));
      written := At(blockNumber, pageNumber, 0);
      MovedRecordStored(old(viper.pages), locked, Position(), at, key, value);
      RecordPagesAgree(old(viper.pages), locked, Position(), at, key, value);
      AgreeTrans(base, old(viper.pages), viper.pages, locked, Position());
    }

    /**
     * The rest of put once the page is unlocked: point the index at the record, free the
     * key's previous record, count one record more and sync.
     */
    method IndexRecord(key: seq<byte>, written: Offset) returns (isNew: bool)
      requires Valid()
      requires written.At? && Holds(viper.pages, Cursor.Position(written.block, written.page)) &&
               written.slot + HEADER_SIZE <= DATA_SIZE
      requires Lookup(viper.index, key).Some? ==>
                 var p := Lookup(viper.index, key).value;
                 viper.pages[p.block][p.page].lock == FixedPage.FREE_BYTE
      modifies viper`pages, viper`index, viper`currentSize, this`sizeDelta, this`opCount
      ensures Valid() && Access() == old(Access()) && unchanged(viper`cursor, viper`metadata, viper`mappings)
      ensures isNew <==> old(Lookup(viper.index, key)).None?
      ensures viper.index == old(viper.index)[key := written]
      ensures isNew ==> viper.pages == old(viper.pages)
      ensures !isNew ==> viper.pages == ClearFlagAt(old(viper.pages), old(Lookup(viper.index, key)).value)
      ensures CurrentPage().insertPos == old(CurrentPage().insertPos)
      ensures viper.currentSize + sizeDelta == old(viper.currentSize + sizeDelta) + if isNew then 1 else 0
      ensures opCount == FixedStore.SyncedCount(old(opCount)) && (opCount == 0 ==> sizeDelta == 0)
    {
      var previous := Previous(viper.index, key);
      viper.index := viper.index[key := written];
      isNew := previous.Tombstone?;
      if !previous.Tombstone? {
        FreeOccupiedSlot(previous);
      }
      sizeDelta := sizeDelta + 1;
      InfoSync(false);
    }

    /** The lock store of FREE_BYTE on the page put holds; a watched page ends up unlocked too. */
    method UnlockPage(locked: Cursor.Position, ghost watch: Cursor.Position)
      requires Valid() && Holds(viper.pages, locked)
      requires Holds(viper.pages, watch) && (watch == locked || viper.pages[watch.block][watch.page].lock == FixedPage.FREE_BYTE)
      modifies viper`pages
      ensures Valid() && Holds(viper.pages, watch) && viper.pages[watch.block][watch.page].lock == FixedPage.FREE_BYTE
      ensures unchanged(this) && unchanged(viper`cursor, viper`metadata, viper`mappings, viper`currentSize)
      ensures viper.pages == SetPage(old(viper.pages), locked, old(viper.pages)[locked.block][locked.page].(lock := FixedPage.FREE_BYTE))
      ensures CurrentPage().insertPos == old(CurrentPage().insertPos)
    {
      assert |viper.pages[locked.block]| == viper.pagesPerBlock;
      var page := viper.pages[locked.block][locked.page];
      SetPageKeepsOk(viper.pages, locked, page.(lock := FixedPage.FREE_BYTE), viper.index, viper.pagesPerBlock);
      viper.pages := SetPage(viper.pages, locked, page.(lock := FixedPage.FREE_BYTE));
    }

    /**
     * get: the value read from the key's live offset; nothing for a missing key or a
     * tombstone, or where the source would read through a null next_page.
     */
    method Get(key: seq<byte>) returns (r: Option<seq<byte>>)
      requires Valid()
      ensures Lookup(viper.index, key).None? ==> r == None
      ensures Lookup(viper.index, key).Some? ==> r == ReadValue(viper.pages, Lookup(viper.index, key).value)
    {
      var found := Lookup(viper.index, key);
      if found.None? {
        return None;
      }
      r := ReadValue(viper.pages, found.value);
    }

    /** update: in-place updates of variable-size records are refused before the index is consulted. */
    method Update(key: seq<byte>, update: seq<byte> -> seq<byte>) returns (r: Result<bool, UpdateError>)
      ensures r == Failure(InPlaceUpdateUnsupported)
    {
      r := Failure(InPlaceUpdateUnsupported);
    }

    /** remove: clear is_set in the key's record and delete it from the index; false for a missing key. */
    method Remove(key: seq<byte>) returns (found: bool)
      requires Valid()
      requires Lookup(viper.index, key).Some? ==>
                 viper.pages[Lookup(viper.index, key).value.block][Lookup(viper.index, key).value.page].lock == FixedPage.FREE_BYTE
      modifies viper`pages, viper`index, this`sizeDelta
      ensures found <==> old(Lookup(viper.index, key)).Some?
      ensures found ==> viper.pages == ClearFlagAt(old(viper.pages), old(Lookup(viper.index, key)).value) &&
                        viper.index == old(viper.index) - {key} && sizeDelta == old(sizeDelta) - 1
      ensures !found ==> viper.pages == old(viper.pages) && viper.index == old(viper.index) && sizeDelta == old(sizeDelta)
      ensures Lookup(viper.index, key).None?
      ensures Valid()
    {
      var o := Lookup(viper.index, key);
      if o.None? {
        return false;
      }
      FreeOccupiedSlot(o.value);
      viper.index := viper.index - {key};
      found := true;
    }

    method InfoSync(force: bool)
      requires opCount < OPS_PER_SYNC
      modifies this`opCount, this`sizeDelta, viper`currentSize
      ensures opCount < OPS_PER_SYNC
      ensures viper.currentSize + sizeDelta == old(viper.currentSize + sizeDelta)
      ensures force || old(opCount) + 1 == OPS_PER_SYNC ==>
                viper.currentSize == old(viper.currentSize) + old(sizeDelta) && sizeDelta == 0 && opCount == 0
      ensures !(force || old(opCount) + 1 == OPS_PER_SYNC) ==>
                viper.currentSize == old(viper.currentSize) && sizeDelta == old(sizeDelta) && opCount == old(opCount) + 1
    {
      if !force {
        opCount := opCount + 1;
      }
      if force || opCount == OPS_PER_SYNC {
        viper.currentSize := viper.currentSize + sizeDelta;
        opCount := 0;
        sizeDelta := 0;
      }
    }
  }

  datatype OpenError = BothStrategiesForced | NoMapping | RecoveryNotImplemented

  function Concat(content: seq<Table>): Table
  {
    if content == [] then [] else Concat(content[..|content| - 1]) + content[|content| - 1]
  }

  /**
   * The Viper constructor for the variable-size engine: the same checks and registration as
   * the fixed-size one, but recovering an existing database throws.
   */
  method Open(base: Pool.Base, content: seq<Table>, forceBlock: bool, forceDimm: bool, pagesPerBlock: nat, blockSize: nat)
      returns (r: Result<Viper, OpenError>)
    requires pagesPerBlock > 0 && blockSize > 0 && |content| == |base.mappings|
    requires forall i :: 0 <= i < |content| ==>
               |content[i]| == base.mappings[i].mappedSize / blockSize && TableOk(content[i], pagesPerBlock)
    ensures forceBlock && forceDimm ==> r == Failure(BothStrategiesForced)
    ensures !(forceBlock && forceDimm) && base.mappings == [] ==> r == Failure(NoMapping)
    ensures !(forceBlock && forceDimm) && base.mappings != [] && !base.isNewDb ==> r == Failure(RecoveryNotImplemented)
    ensures !(forceBlock && forceDimm) && base.mappings != [] && base.isNewDb ==> r.Success?
    ensures r.Success? ==>
              fresh(r.value) && r.value.Valid() && r.value.forceDimm == forceDimm &&
              r.value.pages == Concat(content) && r.value.index == map[] && r.value.currentSize == 0 &&
              r.value.metadata == base.metadata && r.value.mappings == base.mappings &&
              r.value.cursor == Cursor.Position(base.metadata.numUsedBlocks, 0)
  {
    if forceBlock && forceDimm {
      return Failure(BothStrategiesForced);
    }
    if base.mappings == [] {
      return Failure(NoMapping);
    }
    var viper := new Viper(base, pagesPerBlock, blockSize, forceDimm);
    for i := 0 to |base.mappings|
      invariant viper.pages == Concat(content[..i])
      invariant viper.mappings == base.mappings && viper.metadata == base.metadata
      invariant TableOk(viper.pages, pagesPerBlock)
      invariant |viper.pages| == Pool.MappedBlocks(base.mappings[..i], blockSize)
      invariant viper.index == map[] && viper.currentSize == 0 && viper.cursor == Cursor.Position(0, 0)
    {
      assert content[..i + 1][..i] == content[..i];
      assert base.mappings[..i + 1][..i] == base.mappings[..i];
      GrowKeepsOk(viper.pages, content[i], map[], pagesPerBlock);
      viper.AddPageBlocks(base.mappings[i], content[i]);
    }
    assert content[..|content|] == content;
    assert base.mappings[..|base.mappings|] == base.mappings;
    if !base.isNewDb {
      return Failure(RecoveryNotImplemented);
    }
    viper.cursor := Cursor.Position(viper.metadata.numUsedBlocks, 0);
    r := Success(viper);
  }
}
