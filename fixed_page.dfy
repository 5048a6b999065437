/**
 * A fixed-size page (ViperPage<K, V> in viper.hpp): a lock byte, a free bitmap with one bit
 * per slot (true = free) and the slot array of key/value pairs.
 */
module FixedPage {
  import opened Index

  const LOCK_BYTE: nat := 255
  const FREE_BYTE: nat := 0

  datatype Entry<K, V> = Entry(key: K, value: V)

  datatype Page<K, V> = Page(lock: nat, free: seq<bool>, data: seq<Entry<K, V>>)

  type Block<K, V> = seq<Page<K, V>>

  predicate WellFormed<K, V>(page: Page<K, V>, slots: nat)
  {
    |page.free| == slots && |page.data| == slots
  }

  /** One bit per slot, whatever the slot count. */
  predicate Uniform<K, V>(page: Page<K, V>)
  {
    |page.free| == |page.data|
  }

  /** Two block tables with the same number of blocks, pages and slots everywhere. */
  predicate SameShape<K, V>(x: seq<Block<K, V>>, y: seq<Block<K, V>>)
  {
    |x| == |y| &&
    forall b :: 0 <= b < |x| ==>
      |x[b]| == |y[b]| &&
      forall p :: 0 <= p < |x[b]| ==> |x[b][p].free| == |y[b][p].free| && |x[b][p].data| == |y[b][p].data|
  }

  predicate AllUniform<K, V>(blocks: seq<Block<K, V>>)
  {
    forall b, p :: 0 <= b < |blocks| && 0 <= p < |blocks[b]| ==> Uniform(blocks[b][p])
  }

  predicate BlockWellFormed<K, V>(block: Block<K, V>, pagesPerBlock: nat, slots: nat)
  {
    |block| == pagesPerBlock && forall p :: 0 <= p < |block| ==> WellFormed(block[p], slots)
  }

  /** init(): the lock released and every slot marked free; the slot bytes are left as they are. */
  function Init<K, V>(page: Page<K, V>): (r: Page<K, V>)
    ensures r.lock == FREE_BYTE && |r.free| == |page.free| && r.data == page.data
    ensures forall s :: 0 <= s < |r.free| ==> r.free[s]
  {
    page.(lock := FREE_BYTE, free := seq(|page.free|, _ => true))
  }

  /** std::bitset::_Find_first: the lowest set (free) bit, or the size when none is set. */
  function FirstFree(free: seq<bool>): (i: nat)
    ensures i <= |free|
    ensures i < |free| ==> free[i]
    ensures forall j :: 0 <= j < i ==> !free[j]
  {
    if free == [] then 0 else if free[0] then 0 else 1 + FirstFree(free[1..])
  }

  /** The data write and the bit reset of put: the slot holds the pair and is occupied. */
  function Store<K, V>(page: Page<K, V>, slot: nat, entry: Entry<K, V>): (r: Page<K, V>)
    requires slot < |page.free| && slot < |page.data|
    ensures r.lock == page.lock
    ensures r.free == page.free[slot := false] && r.data == page.data[slot := entry]
  {
    page.(free := page.free[slot := false], data := page.data[slot := entry])
  }

  /** free_occupied_slot's bit set: the slot is free again, its bytes untouched. */
  function Release<K, V>(page: Page<K, V>, slot: nat): (r: Page<K, V>)
    requires slot < |page.free|
    ensures r.lock == page.lock && r.data == page.data
    ensures r.free == page.free[slot := true]
  {
    page.(free := page.free[slot := true])
  }

  function SetLock<K, V>(page: Page<K, V>, lock: nat): Page<K, V>
  {
    page.(lock := lock)
  }

  /** An offset naming an existing slot of the block table. */
  predicate Locates<K, V>(blocks: seq<Block<K, V>>, o: Offset)
  {
    o.At? && o.block < |blocks| && o.page < |blocks[o.block]| && o.slot < |blocks[o.block][o.page].free|
  }

  /** The page an offset names. */
  function PageOf<K, V>(blocks: seq<Block<K, V>>, o: Offset): Page<K, V>
    requires Locates(blocks, o)
  {
    blocks[o.block][o.page]
  }

  /** The slot bit of o set again in the block table; nothing else changes. */
  function ReleaseAt<K, V>(blocks: seq<Block<K, V>>, o: Offset): (r: seq<Block<K, V>>)
    requires Locates(blocks, o)
    ensures SameShape(r, blocks)
    ensures forall b :: 0 <= b < |blocks| && b != o.block ==> r[b] == blocks[b]
    ensures forall p :: 0 <= p < |blocks[o.block]| && p != o.page ==> r[o.block][p] == blocks[o.block][p]
    ensures r[o.block][o.page] == Release(PageOf(blocks, o), o.slot)
  {
    blocks[o.block := blocks[o.block][o.page := Release(blocks[o.block][o.page], o.slot)]]
  }

  /** The table with page p of block b replaced. */
  function WithPage<K, V>(blocks: seq<Block<K, V>>, b: nat, p: nat, page: Page<K, V>): (r: seq<Block<K, V>>)
    requires b < |blocks| && p < |blocks[b]|
    ensures |r| == |blocks| && |r[b]| == |blocks[b]| && r[b][p] == page
    ensures forall i :: 0 <= i < |blocks| && i != b ==> r[i] == blocks[i]
    ensures forall q :: 0 <= q < |blocks[b]| && q != p ==> r[b][q] == blocks[b][q]
    ensures |page.free| == |blocks[b][p].free| && |page.data| == |blocks[b][p].data| ==> SameShape(r, blocks)
  {
    blocks[b := blocks[b][p := page]]
  }

  /** Two writes to the same page: the second one is all that is left. */
  lemma WithPageTwice<K, V>(blocks: seq<Block<K, V>>, b: nat, p: nat, first: Page<K, V>, second: Page<K, V>)
    requires b < |blocks| && p < |blocks[b]|
    ensures WithPage(WithPage(blocks, b, p, first), b, p, second) == WithPage(blocks, b, p, second)
  {
    assert blocks[b][p := first][p := second] == blocks[b][p := second];
  }
}
