/**
 * Page layout arithmetic of the fixed-size engine (get_num_slots_per_page in viper.hpp).
 *
 * A page is a multiple of 4 KiB holding a lock byte, a free bitmap of one bit per
 * slot and the slot array.  The first loop grows the page in 4 KiB steps until one
 * entry plus the two overhead bytes fits (stopping after 7 pages at the latest); a
 * page of 4 or 5 units is rounded up to a whole 6-page block.  The second loop then
 * shrinks the slot count until slots, overhead and bitmap bytes fit the page.
 */
module Layout {

  const PAGE_SIZE: nat := 4096
  const NUM_DIMMS: nat := 6
  const BLOCK_SIZE: nat := 24576          // NUM_DIMMS * PAGE_SIZE
  const PAGE_OVERHEAD: nat := 2           // the lock byte and one more byte
  const LARGEST_PAGE: nat := 28672        // the first loop stops once it has passed BLOCK_SIZE

  /** Bytes a page needs for n slots of e bytes: slots, overhead, ceil(n / 8) bitmap bytes. */
  function PageBytes(n: nat, e: nat): nat
  {
    n * e + PAGE_OVERHEAD + (n + 7) / 8
  }

  predicate SlotsFit(n: nat, e: nat, pageSize: nat)
  {
    PageBytes(n, e) <= pageSize
  }

  /** The first loop: add 4 KiB while one entry plus overhead does not fit and the page is at most a block. */
  function GrowPage(e: nat, size: nat): nat
    decreases LARGEST_PAGE - size
  {
    if e + PAGE_OVERHEAD > size && size <= BLOCK_SIZE then GrowPage(e, size + PAGE_SIZE) else size
  }

  /** Four or five pages become one whole block of six. */
  function RoundPage(size: nat): nat
  {
    if size / PAGE_SIZE == 4 || size / PAGE_SIZE == 5 then BLOCK_SIZE else size
  }

  function ChosenPageSize(e: nat): nat
  {
    RoundPage(GrowPage(e, PAGE_SIZE))
  }

  /** The starting slot count: as many entries as the page holds, one less when that exceeds 255. */
  function SlotBound(pageSize: nat, e: nat): nat
    requires e > 0
  {
    var n := pageSize / e;
    if n > 255 then n - 1 else n
  }

  /** The second loop: drop slots until they fit (zero slots always fit a page of two or more bytes). */
  function Shrink(n: nat, e: nat, pageSize: nat): nat
  {
    if n == 0 || SlotsFit(n, e, pageSize) then n else Shrink(n - 1, e, pageSize)
  }

  function SlotsPerPage(e: nat): nat
    requires e > 0
  {
    var pageSize := ChosenPageSize(e);
    Shrink(SlotBound(pageSize, e), e, pageSize)
  }

  /** get_num_slots_per_page for sizeof(K) == keySize and sizeof(V) == valueSize. */
  method NumSlotsPerPage(keySize: nat, valueSize: nat) returns (slots: nat, pageSize: nat)
    requires keySize > 0 && valueSize > 0
    ensures pageSize == ChosenPageSize(keySize + valueSize)
    ensures slots == SlotsPerPage(keySize + valueSize)
  {
    var entrySize := keySize + valueSize;
    var current := PAGE_SIZE;
    while entrySize + PAGE_OVERHEAD > current && current <= BLOCK_SIZE
      invariant PAGE_SIZE <= current <= LARGEST_PAGE
      invariant GrowPage(entrySize, current) == GrowPage(entrySize, PAGE_SIZE)
      decreases LARGEST_PAGE - current
    {
      current := current + PAGE_SIZE;
    }
    var pagesPerBlock := current / PAGE_SIZE;
    if pagesPerBlock == 4 || pagesPerBlock == 5 {
      pagesPerBlock := NUM_DIMMS;
      current := BLOCK_SIZE;
    }
    assert current == ChosenPageSize(entrySize);
    var large := current / entrySize;
    if large > 255 {
      large := large - 1;
    }
    assert large == SlotBound(current, entrySize);
    slots := large;
    while PageBytes(slots, entrySize) > current
      invariant Shrink(slots, entrySize, current) == Shrink(large, entrySize, current)
      decreases slots
    {
      slots := slots - 1;
    }
    pageSize := current;
  }

  lemma {:induction false} GrowPageSpec(e: nat, size: nat)
    requires size % PAGE_SIZE == 0 && PAGE_SIZE <= size <= LARGEST_PAGE
    requires size == PAGE_SIZE || e + PAGE_OVERHEAD > size - PAGE_SIZE
    ensures GrowPage(e, size) % PAGE_SIZE == 0
    ensures size <= GrowPage(e, size) <= LARGEST_PAGE
    ensures e + PAGE_OVERHEAD <= GrowPage(e, size) || GrowPage(e, size) == LARGEST_PAGE
    ensures GrowPage(e, size) == PAGE_SIZE || e + PAGE_OVERHEAD > GrowPage(e, size) - PAGE_SIZE
    decreases LARGEST_PAGE - size
  {
    if e + PAGE_OVERHEAD > size && size <= BLOCK_SIZE {
      GrowPageSpec(e, size + PAGE_SIZE);
    }
  }

  /**
   * The chosen page is a multiple of 4 KiB between one page and seven, never four or five
   * pages, holds one entry plus overhead unless even seven pages do not, and is the
   * smallest such multiple (up to the rounding of four or five pages to a block).
   */
  lemma ChosenPageSizeSpec(e: nat)
    ensures ChosenPageSize(e) % PAGE_SIZE == 0
    ensures PAGE_SIZE <= ChosenPageSize(e) <= LARGEST_PAGE
    ensures ChosenPageSize(e) / PAGE_SIZE != 4 && ChosenPageSize(e) / PAGE_SIZE != 5
    ensures e + PAGE_OVERHEAD <= ChosenPageSize(e) || ChosenPageSize(e) == LARGEST_PAGE
    ensures ChosenPageSize(e) == BLOCK_SIZE ==> e + PAGE_OVERHEAD > 3 * PAGE_SIZE
    ensures ChosenPageSize(e) != BLOCK_SIZE && ChosenPageSize(e) > PAGE_SIZE ==>
              e + PAGE_OVERHEAD > ChosenPageSize(e) - PAGE_SIZE
  {
    GrowPageSpec(e, PAGE_SIZE);
  }

  lemma PageBytesMonotone(n: nat, m: nat, e: nat)
    requires n <= m
    ensures PageBytes(n, e) <= PageBytes(m, e)
  {
    assert n * e <= m * e by {
      assert (m - n) * e >= 0;
      assert m * e == n * e + (m - n) * e;
    }
  }

  lemma {:induction false} ShrinkSpec(n: nat, e: nat, pageSize: nat)
    requires pageSize >= PAGE_OVERHEAD
    ensures Shrink(n, e, pageSize) <= n
    ensures SlotsFit(Shrink(n, e, pageSize), e, pageSize)
    ensures forall m :: Shrink(n, e, pageSize) < m <= n ==> !SlotsFit(m, e, pageSize)
  {
    if n == 0 || SlotsFit(n, e, pageSize) {
    } else {
      ShrinkSpec(n - 1, e, pageSize);
    }
  }

  /**
   * The slot count fits its page (slots, overhead and bitmap) and is the largest count
   * up to the starting bound that does.
   */
  lemma SlotsPerPageSpec(e: nat)
    requires e > 0
    ensures SlotsFit(SlotsPerPage(e), e, ChosenPageSize(e))
    ensures SlotsPerPage(e) <= SlotBound(ChosenPageSize(e), e)
    ensures SlotsPerPage(e) == SlotBound(ChosenPageSize(e), e) || !SlotsFit(SlotsPerPage(e) + 1, e, ChosenPageSize(e))
  {
    ChosenPageSizeSpec(e);
    ShrinkSpec(SlotBound(ChosenPageSize(e), e), e, ChosenPageSize(e));
  }

  /** The assertion at the end holds exactly when one entry, the overhead and one bitmap byte fit the chosen page. */
  lemma SlotsPerPagePositive(e: nat)
    requires e > 0
    ensures SlotsPerPage(e) > 0 <==> SlotsFit(1, e, ChosenPageSize(e))
  {
    var pageSize := ChosenPageSize(e);
    ChosenPageSizeSpec(e);
    ShrinkSpec(SlotBound(pageSize, e), e, pageSize);
    if SlotsPerPage(e) > 0 {
      PageBytesMonotone(1, SlotsPerPage(e), e);
    }
    if SlotsFit(1, e, pageSize) {
      assert pageSize / e >= 1;
      assert SlotBound(pageSize, e) >= 1;
    }
  }

  /**
   * The first loop reserves two overhead bytes but the second also counts a bitmap byte,
   * so an entry of exactly 4094 bytes gets a one-page layout with room for no slot,
   * while 4093 and 4095 bytes each get one slot.
   */
  lemma EntryOf4094BytesGetsNoSlot()
    ensures SlotsPerPage(4093) == 1
    ensures SlotsPerPage(4094) == 0
    ensures SlotsPerPage(4095) == 1
  {
    assert GrowPage(4093, PAGE_SIZE) == PAGE_SIZE;
    assert GrowPage(4094, PAGE_SIZE) == PAGE_SIZE;
    assert GrowPage(4095, 2 * PAGE_SIZE) == 2 * PAGE_SIZE;
    assert GrowPage(4095, PAGE_SIZE) == 2 * PAGE_SIZE;
    assert Shrink(0, 4094, PAGE_SIZE) == 0;
    assert Shrink(1, 4095, 2 * PAGE_SIZE) == 1;
  }
}
