/**
 * The cursor allocator's arithmetic (get_new_block, get_block_based_access,
 * get_dimm_based_access and update_access_information in viper.hpp), with the CAS loops
 * taken as succeeding on their first attempt.
 *
 * The shared cursor current_block_page_ is a (block, page) pair.  Block-based clients claim
 * a whole block and walk its pages from a random start, wrapping around; DIMM-based clients
 * claim one (block, page) pair and walk the same page through BLOCK_STRIDE blocks.
 */
module Cursor {
  import opened Wrappers

  const BLOCK_STRIDE: nat := 6

  datatype Strategy = BlockBased | DimmBased

  /** A (block, page) pair: the shared cursor, or the page a client writes to. */
  datatype Position = Position(block: nat, page: nat)

  /**
   * A client's cursor fields: strategy_, v_block_number_, v_page_number_,
   * end_v_block_number_ (DIMM-based) and num_v_pages_processed_ (block-based).
   */
  datatype Access = Access(strategy: Strategy, block: nat, page: nat, endBlock: nat, pagesProcessed: nat)

  /** get_new_block's new cursor value: the next block and the page rand() picked in it. */
  function NextBlockCursor(cursor: Position, random: nat, pagesPerBlock: nat): (next: Position)
    requires pagesPerBlock > 0
    ensures next.block == cursor.block + 1 && next.page < pagesPerBlock
  {
    Position(cursor.block + 1, random % pagesPerBlock)
  }

  /** get_dimm_based_access's new cursor value: the next page, or page 0 of the next block. */
  function NextDimmCursor(cursor: Position, pagesPerBlock: nat): (next: Position)
    requires cursor.page < pagesPerBlock
    ensures next.page < pagesPerBlock
    ensures next == (if cursor.page + 1 < pagesPerBlock then Position(cursor.block, cursor.page + 1)
                     else Position(cursor.block + 1, 0))
  {
    var page := cursor.page + 1;
    if page == pagesPerBlock then Position(cursor.block + 1, 0) else Position(cursor.block, page)
  }

  /** The client fields get_block_based_access sets for a claimed (block, page). */
  function BlockBasedAccess(a: Access, claimed: Position): Access
  {
    a.(strategy := BlockBased, block := claimed.block, page := claimed.page, pagesProcessed := 0)
  }

  /** The client fields get_dimm_based_access sets for a claimed (block, page). */
  function DimmBasedAccess(a: Access, claimed: Position): Access
  {
    a.(strategy := DimmBased, block := claimed.block, endBlock := claimed.block + BLOCK_STRIDE - 1,
       page := claimed.page)
  }

  predicate WellFormed(a: Access, pagesPerBlock: nat)
  {
    a.page < pagesPerBlock &&
    (a.strategy == BlockBased ==> a.pagesProcessed < pagesPerBlock) &&
    (a.strategy == DimmBased ==> a.block <= a.endBlock)
  }

  /** How many pages the client still visits before it claims again, the current one included. */
  function Remaining(a: Access, pagesPerBlock: nat): nat
    requires WellFormed(a, pagesPerBlock)
  {
    match a.strategy
    case BlockBased => pagesPerBlock - a.pagesProcessed
    case DimmBased => a.endBlock - a.block + 1
  }

  /**
   * update_access_information without the claim: the next page of the client's own range,
   * or None once the range is used up and a new claim is due.
   */
  function Advance(a: Access, pagesPerBlock: nat): (r: Option<Access>)
    requires WellFormed(a, pagesPerBlock)
    ensures r.None? <==> Remaining(a, pagesPerBlock) == 1
    ensures r.Some? ==> WellFormed(r.value, pagesPerBlock) && r.value.strategy == a.strategy &&
                        Remaining(r.value, pagesPerBlock) == Remaining(a, pagesPerBlock) - 1
  {
    match a.strategy
    case DimmBased =>
      if a.block == a.endBlock then None else Some(a.(block := a.block + 1))
    case BlockBased =>
      if a.pagesProcessed + 1 == pagesPerBlock then None
      else Some(a.(page := (a.page + 1) % pagesPerBlock, pagesProcessed := a.pagesProcessed + 1))
  }

  /** The pages a client writes to, in order, from its current page until it must claim again. */
  function Walk(a: Access, pagesPerBlock: nat): (w: seq<Position>)
    requires WellFormed(a, pagesPerBlock)
    decreases Remaining(a, pagesPerBlock)
  {
    [Position(a.block, a.page)] +
      match Advance(a, pagesPerBlock)
      case None => []
      case Some(next) => Walk(next, pagesPerBlock)
  }

  /** Page p + i of a block, counted around the end of the block. */
  function Wrap(x: nat, n: nat): nat
  {
    if x < n then x else x - n
  }

  lemma ModSmall(x: nat, n: nat)
    requires 0 < n && x < 2 * n
    ensures x % n == Wrap(x, n)
  {
    if x >= n {
      assert x == n + (x - n);
    }
  }

  /** A block-based client visits start, start + 1, ... modulo the block's page count, in its own block. */
  lemma {:induction false} BlockWalk(a: Access, pagesPerBlock: nat)
    requires WellFormed(a, pagesPerBlock) && a.strategy == BlockBased
    ensures |Walk(a, pagesPerBlock)| == pagesPerBlock - a.pagesProcessed
    ensures forall i :: 0 <= i < |Walk(a, pagesPerBlock)| ==>
              Walk(a, pagesPerBlock)[i] == Position(a.block, Wrap(a.page + i, pagesPerBlock))
    decreases Remaining(a, pagesPerBlock)
  {
    var w := Walk(a, pagesPerBlock);
    match Advance(a, pagesPerBlock)
    case None =>
    case Some(next) =>
      ModSmall(a.page + 1, pagesPerBlock);
      BlockWalk(next, pagesPerBlock);
      forall i | 1 <= i < |w|
        ensures w[i] == Position(a.block, Wrap(a.page + i, pagesPerBlock))
      {
        assert w[i] == Walk(next, pagesPerBlock)[i - 1];
      }
  }

  /**
   * A freshly claimed block is walked page by page: exactly pagesPerBlock pages, every
   * page of the block, none twice, and then the client claims anew.
   */
  lemma FreshBlockWalk(a: Access, claimed: Position, pagesPerBlock: nat)
    requires claimed.page < pagesPerBlock
    ensures WellFormed(BlockBasedAccess(a, claimed), pagesPerBlock)
    ensures |Walk(BlockBasedAccess(a, claimed), pagesPerBlock)| == pagesPerBlock
    ensures forall q :: 0 <= q < pagesPerBlock ==> Position(claimed.block, q) in Walk(BlockBasedAccess(a, claimed), pagesPerBlock)
    ensures forall i, j :: 0 <= i < j < pagesPerBlock ==>
              Walk(BlockBasedAccess(a, claimed), pagesPerBlock)[i] != Walk(BlockBasedAccess(a, claimed), pagesPerBlock)[j]
  {
    var b := BlockBasedAccess(a, claimed);
    var w := Walk(b, pagesPerBlock);
    BlockWalk(b, pagesPerBlock);
    forall q | 0 <= q < pagesPerBlock
      ensures Position(claimed.block, q) in w
    {
      var i := if q >= claimed.page then q - claimed.page else q + pagesPerBlock - claimed.page;
      assert w[i] == Position(claimed.block, q);
    }
  }

  /** A DIMM-based client keeps its page and walks one block after another up to endBlock. */
  lemma {:induction false} DimmWalk(a: Access, pagesPerBlock: nat)
    requires WellFormed(a, pagesPerBlock) && a.strategy == DimmBased
    ensures |Walk(a, pagesPerBlock)| == a.endBlock - a.block + 1
    ensures forall i :: 0 <= i < |Walk(a, pagesPerBlock)| ==> Walk(a, pagesPerBlock)[i] == Position(a.block + i, a.page)
    decreases Remaining(a, pagesPerBlock)
  {
    var w := Walk(a, pagesPerBlock);
    match Advance(a, pagesPerBlock)
    case None =>
    case Some(next) =>
      DimmWalk(next, pagesPerBlock);
      assert forall i :: 1 <= i < |w| ==> w[i] == Walk(next, pagesPerBlock)[i - 1];
  }

  /** The positions that successive block claims hand out: each claim gets the cursor it found. */
  function BlockClaims(cursor: Position, randoms: seq<nat>, pagesPerBlock: nat): (claims: seq<Position>)
    requires pagesPerBlock > 0 && cursor.page < pagesPerBlock
    ensures |claims| == |randoms|
    ensures forall i :: 0 <= i < |claims| ==> claims[i].page < pagesPerBlock
    decreases |randoms|
  {
    if randoms == [] then []
    else [cursor] + BlockClaims(NextBlockCursor(cursor, randoms[0], pagesPerBlock), randoms[1..], pagesPerBlock)
  }

  /** The i-th block claim gets block cursor.block + i, so no two claims share a block. */
  lemma {:induction false} BlockClaimsAreSuccessive(cursor: Position, randoms: seq<nat>, pagesPerBlock: nat)
    requires pagesPerBlock > 0 && cursor.page < pagesPerBlock
    ensures forall i :: 0 <= i < |randoms| ==> BlockClaims(cursor, randoms, pagesPerBlock)[i].block == cursor.block + i
    decreases |randoms|
  {
    if randoms != [] {
      var next := NextBlockCursor(cursor, randoms[0], pagesPerBlock);
      BlockClaimsAreSuccessive(next, randoms[1..], pagesPerBlock);
      var claims := BlockClaims(cursor, randoms, pagesPerBlock);
      assert forall i :: 1 <= i < |randoms| ==> claims[i] == BlockClaims(next, randoms[1..], pagesPerBlock)[i - 1];
    }
  }

  /** Two different block claims are walked over disjoint sets of pages. */
  lemma BlockClaimWalksDisjoint(a: Access, cursor: Position, randoms: seq<nat>, pagesPerBlock: nat, i: nat, j: nat)
    requires pagesPerBlock > 0 && cursor.page < pagesPerBlock
    requires i < j < |randoms|
    ensures forall p ::
              p in Walk(BlockBasedAccess(a, BlockClaims(cursor, randoms, pagesPerBlock)[i]), pagesPerBlock) ==>
              p !in Walk(BlockBasedAccess(a, BlockClaims(cursor, randoms, pagesPerBlock)[j]), pagesPerBlock)
  {
    BlockClaimsAreSuccessive(cursor, randoms, pagesPerBlock);
    var claims := BlockClaims(cursor, randoms, pagesPerBlock);
    var wi := Walk(BlockBasedAccess(a, claims[i]), pagesPerBlock);
    var wj := Walk(BlockBasedAccess(a, claims[j]), pagesPerBlock);
    BlockWalk(BlockBasedAccess(a, claims[i]), pagesPerBlock);
    BlockWalk(BlockBasedAccess(a, claims[j]), pagesPerBlock);
    forall p | p in wi ensures p !in wj {
      assert p.block == claims[i].block;
    }
  }

  /** The positions that n successive DIMM-based claims hand out. */
  function DimmClaims(cursor: Position, n: nat, pagesPerBlock: nat): (claims: seq<Position>)
    requires cursor.page < pagesPerBlock
    ensures |claims| == n
    ensures forall k :: 0 <= k < n ==> claims[k].page < pagesPerBlock
    decreases n
  {
    if n == 0 then [] else [cursor] + DimmClaims(NextDimmCursor(cursor, pagesPerBlock), n - 1, pagesPerBlock)
  }

  /**
   * Successive DIMM-based claims walk the pages of the cursor's block one by one and then
   * go on with page 0 of the next block.
   */
  lemma {:induction false} DimmClaimsStep(cursor: Position, m: nat, pagesPerBlock: nat)
    requires cursor.page < pagesPerBlock
    ensures forall k :: 0 <= k < m && cursor.page + k < pagesPerBlock ==>
              DimmClaims(cursor, m, pagesPerBlock)[k] == Position(cursor.block, cursor.page + k)
    ensures pagesPerBlock - cursor.page < m ==>
              DimmClaims(cursor, m, pagesPerBlock)[pagesPerBlock - cursor.page] == Position(cursor.block + 1, 0)
    decreases m
  {
    if m > 0 {
      var next := NextDimmCursor(cursor, pagesPerBlock);
      DimmClaimsStep(next, m - 1, pagesPerBlock);
      var claims := DimmClaims(cursor, m, pagesPerBlock);
      assert forall k :: 1 <= k < m ==> claims[k] == DimmClaims(next, m - 1, pagesPerBlock)[k - 1];
    }
  }

  /**
   * DIMM-based claims overlap: the cursor moves on by one page per claim, but each claim is
   * walked through BLOCK_STRIDE blocks, so the claim taken pagesPerBlock claims later, at page
   * 0 of the next block, walks a page the first claim also walks.
   */
  lemma DimmClaimWalksOverlap(a: Access, block: nat, pagesPerBlock: nat)
    requires 0 < pagesPerBlock
    ensures var claims := DimmClaims(Position(block, 0), pagesPerBlock + 1, pagesPerBlock);
            Position(block + 1, 0) in Walk(DimmBasedAccess(a, claims[0]), pagesPerBlock) &&
            Position(block + 1, 0) in Walk(DimmBasedAccess(a, claims[pagesPerBlock]), pagesPerBlock)
  {
    var claims := DimmClaims(Position(block, 0), pagesPerBlock + 1, pagesPerBlock);
    DimmClaimsStep(Position(block, 0), pagesPerBlock + 1, pagesPerBlock);
    assert claims[0] == Position(block, 0);
    assert claims[pagesPerBlock] == Position(block + 1, 0);
    var first := DimmBasedAccess(a, claims[0]);
    var later := DimmBasedAccess(a, claims[pagesPerBlock]);
    DimmWalk(first, pagesPerBlock);
    DimmWalk(later, pagesPerBlock);
    assert Walk(first, pagesPerBlock)[1] == Position(block + 1, 0);
    assert Walk(later, pagesPerBlock)[0] == Position(block + 1, 0);
  }
}
