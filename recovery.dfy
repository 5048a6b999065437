/**
 * recover_database for fixed-size records: the split of the used blocks among the recovery
 * threads, the scan of every page whose lock byte is set, the reinsertion of every occupied
 * slot into the index and the release of the slots whose offsets the reinsertion displaced.
 * The threads are run one after the other, in thread order.
 */
module Recovery {
  import opened Index
  import opened FixedPage

  // ---------------------------------------------------------------- partition

  /** num_blocks_per_thread: an even share of the used blocks, plus one. */
  function BlocksPerThread(used: nat, threads: nat): nat
    requires threads > 0
  {
    used / threads + 1
  }

  function Min(a: nat, b: nat): nat
  {
    if a <= b then a else b
  }

  /** start_block of thread t. */
  function RangeStart(used: nat, threads: nat, t: nat): nat
    requires threads > 0
  {
    t * BlocksPerThread(used, threads)
  }

  /** end_block of thread t (exclusive); below the start when the thread has nothing to do. */
  function RangeEnd(used: nat, threads: nat, t: nat): nat
    requires threads > 0
  {
    Min(RangeStart(used, threads, t) + BlocksPerThread(used, threads), used)
  }

  /** The ranges of two different threads never share a block. */
  lemma RangesDisjoint(used: nat, threads: nat, t1: nat, t2: nat)
    requires threads > 0 && t1 < t2
    ensures RangeEnd(used, threads, t1) <= RangeStart(used, threads, t2)
  {
    var k := BlocksPerThread(used, threads);
    assert RangeStart(used, threads, t1) + k == (t1 + 1) * k;
    MulMonotone(t1 + 1, t2, k);
  }

  lemma MulMonotone(a: nat, b: nat, k: nat)
    requires a <= b
    ensures a * k <= b * k
  {
    assert b * k == a * k + (b - a) * k;
  }

  lemma MulCancel(a: nat, b: nat, k: nat)
    ensures a * k < b * k ==> a < b
  {
    if a >= b {
      MulMonotone(b, a, k);
    }
  }

  /** The threads together reach past the last used block. */
  lemma ThreadsReachPastUsed(used: nat, threads: nat)
    requires threads > 0
    ensures threads * BlocksPerThread(used, threads) > used
  {
    var q := used / threads;
    assert used == threads * q + used % threads;
    assert threads * (q + 1) == threads * q + threads;
  }

  /** The blocks below this are covered once threads [0, t) have run. */
  function Covered(used: nat, threads: nat, t: nat): nat
    requires threads > 0
  {
    Min(RangeStart(used, threads, t), used)
  }

  /**
   * Thread t extends the coverage to its end: when its range is not empty the blocks below its
   * start are covered, otherwise its end is already covered.
   */
  lemma CoveredStep(used: nat, threads: nat, t: nat)
    requires threads > 0
    ensures Covered(used, threads, t + 1) == RangeEnd(used, threads, t)
    ensures RangeStart(used, threads, t) <= RangeEnd(used, threads, t) ==> Covered(used, threads, t) == RangeStart(used, threads, t)
    ensures RangeEnd(used, threads, t) < RangeStart(used, threads, t) ==> Covered(used, threads, t) == RangeEnd(used, threads, t)
  {
    var k := BlocksPerThread(used, threads);
    assert RangeStart(used, threads, t + 1) == RangeStart(used, threads, t) + k by {
      assert (t + 1) * k == t * k + k;
    }
  }

  /** Nothing is covered before the first thread, and every used block after the last. */
  lemma CoveredEnds(used: nat, threads: nat)
    requires threads > 0
    ensures Covered(used, threads, 0) == 0
    ensures Covered(used, threads, threads) == used
  {
    ThreadsReachPastUsed(used, threads);
  }

  /** The thread whose range holds used block b: every used block is scanned by some thread. */
  function ThreadOf(used: nat, threads: nat, b: nat): (t: nat)
    requires threads > 0 && b < used
    ensures t < threads
    ensures RangeStart(used, threads, t) <= b < RangeEnd(used, threads, t)
  {
    var k := BlocksPerThread(used, threads);
    var t := b / k;
    assert t * k + b % k == b;
    assert (t + 1) * k == t * k + k;
    MulCancel(t, threads, k);
    ThreadsReachPastUsed(used, threads);
    t
  }

  // ---------------------------------------------------------------- scan

  /** The pairs the scan reinserts from slots [0, n) of page p of block b: each slot whose free bit is clear. */
  function SlotEntries<K, V>(page: Page<K, V>, b: nat, p: nat, n: nat): seq<(K, Offset)>
    requires n <= |page.free| && Uniform(page)
  {
    if n == 0 then []
    else SlotEntries(page, b, p, n - 1) + (if page.free[n - 1] then [] else [(page.data[n - 1].key, At(b, p, n - 1))])
  }

  /** A page whose lock byte is FREE_BYTE is passed over, whatever its bitmap says. */
  function PageEntries<K, V>(page: Page<K, V>, b: nat, p: nat): seq<(K, Offset)>
    requires Uniform(page)
  {
    if page.lock == FREE_BYTE then [] else SlotEntries(page, b, p, |page.free|)
  }

  /** Pages [0, n) of block b, in page order. */
  function BlockEntries<K, V>(block: Block<K, V>, b: nat, n: nat): seq<(K, Offset)>
    requires n <= |block| && forall p :: 0 <= p < |block| ==> Uniform(block[p])
  {
    if n == 0 then [] else BlockEntries(block, b, n - 1) + PageEntries(block[n - 1], b, n - 1)
  }

  /** Blocks [lo, hi) in block order; nothing when hi <= lo. */
  function RangeEntries<K, V>(blocks: seq<Block<K, V>>, lo: nat, hi: nat): seq<(K, Offset)>
    requires hi <= |blocks| && AllUniform(blocks)
  {
    if hi <= lo then [] else RangeEntries(blocks, lo, hi - 1) + BlockEntries(blocks[hi - 1], hi - 1, |blocks[hi - 1]|)
  }

  /** The scan of the slots reports exactly the occupied ones, with the key stored there. */
  lemma {:induction false} SlotEntriesSpec<K, V>(page: Page<K, V>, b: nat, p: nat, n: nat, key: K, o: Offset)
    requires n <= |page.free| && Uniform(page)
    ensures (key, o) in SlotEntries(page, b, p, n) <==>
              exists s :: 0 <= s < n && !page.free[s] && key == page.data[s].key && o == At(b, p, s)
  {
    if n > 0 {
      SlotEntriesSpec(page, b, p, n - 1, key, o);
      var last := if page.free[n - 1] then [] else [(page.data[n - 1].key, At(b, p, n - 1))];
      assert SlotEntries(page, b, p, n) == SlotEntries(page, b, p, n - 1) + last;
      if (key, o) in SlotEntries(page, b, p, n - 1) {
        var s :| 0 <= s < n - 1 && !page.free[s] && key == page.data[s].key && o == At(b, p, s);
      }
    }
  }

  /** Every reinserted offset names an occupied slot of a block in [lo, hi). */
  lemma {:induction false} RangeEntriesLocated<K, V>(blocks: seq<Block<K, V>>, lo: nat, hi: nat)
    requires hi <= |blocks| && AllUniform(blocks)
    ensures forall i :: 0 <= i < |RangeEntries(blocks, lo, hi)| ==>
              var o := RangeEntries(blocks, lo, hi)[i].1;
              Locates(blocks, o) && lo <= o.block < hi && !blocks[o.block][o.page].free[o.slot]
  {
    if lo < hi {
      RangeEntriesLocated(blocks, lo, hi - 1);
      var blk := blocks[hi - 1];
      BlockEntriesLocated(blk, hi - 1, |blk|);
      var front: seq<(K, Offset)> := RangeEntries(blocks, lo, hi - 1);
      var last: seq<(K, Offset)> := BlockEntries(blk, hi - 1, |blk|);
      assert RangeEntries(blocks, lo, hi) == front + last;
      forall i | 0 <= i < |front + last|
        ensures var o := (front + last)[i].1;
                Locates(blocks, o) && lo <= o.block < hi && !blocks[o.block][o.page].free[o.slot]
      {
        if i >= |front| {
          assert (front + last)[i] == last[i - |front|];
        }
      }
    }
  }

  lemma {:induction false} BlockEntriesLocated<K, V>(block: Block<K, V>, b: nat, n: nat)
    requires n <= |block| && forall p :: 0 <= p < |block| ==> Uniform(block[p])
    ensures forall i :: 0 <= i < |BlockEntries(block, b, n)| ==>
              var o := BlockEntries(block, b, n)[i].1;
              o.At? && o.block == b && o.page < n && o.slot < |block[o.page].free| && !block[o.page].free[o.slot]
  {
    if n > 0 {
      BlockEntriesLocated(block, b, n - 1);
      var page := block[n - 1];
      if page.lock != FREE_BYTE {
        SlotEntriesLocated(page, b, n - 1, |page.free|);
      }
    }
  }

  lemma {:induction false} SlotEntriesLocated<K, V>(page: Page<K, V>, b: nat, p: nat, n: nat)
    requires n <= |page.free| && Uniform(page)
    ensures forall i :: 0 <= i < |SlotEntries(page, b, p, n)| ==>
              var o := SlotEntries(page, b, p, n)[i].1;
              o.At? && o.block == b && o.page == p && o.slot < n && !page.free[o.slot]
  {
    if n > 0 {
      SlotEntriesLocated(page, b, p, n - 1);
    }
  }

  /** The range scan reads only the blocks in [lo, hi). */
  lemma {:induction false} RangeEntriesFrame<K, V>(x: seq<Block<K, V>>, y: seq<Block<K, V>>, lo: nat, hi: nat)
    requires hi <= |x| && hi <= |y| && AllUniform(x) && AllUniform(y)
    requires forall b :: lo <= b < hi ==> x[b] == y[b]
    ensures RangeEntries(x, lo, hi) == RangeEntries(y, lo, hi)
  {
    if lo < hi {
      RangeEntriesFrame(x, y, lo, hi - 1);
    }
  }

  /** Scanning [lo, mid) and then [mid, hi) is scanning [lo, hi). */
  lemma {:induction false} RangeEntriesSplit<K, V>(blocks: seq<Block<K, V>>, lo: nat, mid: nat, hi: nat)
    requires lo <= mid <= hi <= |blocks| && AllUniform(blocks)
    ensures RangeEntries(blocks, lo, hi) == RangeEntries(blocks, lo, mid) + RangeEntries(blocks, mid, hi)
  {
    if mid < hi {
      RangeEntriesSplit(blocks, lo, mid, hi - 1);
      AppendAssoc(RangeEntries(blocks, lo, mid), RangeEntries(blocks, mid, hi - 1),
                  BlockEntries(blocks[hi - 1], hi - 1, |blocks[hi - 1]|));
    } else {
      AppendEmpty(RangeEntries(blocks, lo, mid));
    }
  }

  lemma AppendAssoc<T>(a: seq<T>, b: seq<T>, c: seq<T>)
    ensures (a + b) + c == a + (b + c)
  {
  }

  lemma AppendEmpty<T>(a: seq<T>)
    ensures a + [] == a
  {
  }

  /**
   * A pool whose pages all carry lock byte FREE_BYTE yields nothing to reinsert.  Since put
   * and free_occupied_slot leave the lock at FREE_BYTE when they are done, a page at rest is
   * never rescanned.
   */
  lemma {:induction false} RestingPagesRecoverNothing<K, V>(blocks: seq<Block<K, V>>, lo: nat, hi: nat)
    requires hi <= |blocks| && AllUniform(blocks)
    requires forall b, p :: lo <= b < hi && 0 <= p < |blocks[b]| ==> blocks[b][p].lock == FREE_BYTE
    ensures RangeEntries(blocks, lo, hi) == []
  {
    if lo < hi {
      RestingPagesRecoverNothing(blocks, lo, hi - 1);
      RestingBlockRecoversNothing(blocks[hi - 1], hi - 1, |blocks[hi - 1]|);
    }
  }

  lemma {:induction false} RestingBlockRecoversNothing<K, V>(block: Block<K, V>, b: nat, n: nat)
    requires n <= |block| && forall p :: 0 <= p < |block| ==> Uniform(block[p])
    requires forall p :: 0 <= p < |block| ==> block[p].lock == FREE_BYTE
    ensures BlockEntries(block, b, n) == []
  {
    if n > 0 {
      RestingBlockRecoversNothing(block, b, n - 1);
    }
  }

  // ---------------------------------------------------------------- reinsertion

  /**
   * map_.Insert of each pair in turn.  The second component lists, in order, the
   * non-tombstone offsets the inserts displaced (the duplicates vector of a thread).
   */
  function InsertAll<K>(index: map<K, Offset>, es: seq<(K, Offset)>): (map<K, Offset>, seq<Offset>)
    decreases |es|
  {
    if es == [] then (index, [])
    else InsertOne(InsertAll(index, es[..|es| - 1]), es[|es| - 1])
  }

  /** One map_.Insert, on an index and the duplicates found so far. */
  function InsertOne<K>(prior: (map<K, Offset>, seq<Offset>), e: (K, Offset)): (map<K, Offset>, seq<Offset>)
  {
    var displaced := Previous(prior.0, e.0);
    (prior.0[e.0 := e.1], if displaced.At? then prior.1 + [displaced] else prior.1)
  }

  /** Reinsertion continued from an index and a duplicates list built so far. */
  function Reinsert<K>(index: map<K, Offset>, dups: seq<Offset>, es: seq<(K, Offset)>): (map<K, Offset>, seq<Offset>)
  {
    (InsertAll(index, es).0, dups + InsertAll(index, es).1)
  }

  /**
   * After reinsertion a key is indexed iff it was indexed before or was scanned; a scanned key
   * maps to the offset of its last occurrence, an unscanned one keeps its old offset, and a key
   * that was not indexed before maps to one of its scanned offsets.
   */
  lemma {:induction false} InsertAllSpec<K>(index: map<K, Offset>, es: seq<(K, Offset)>, key: K)
    ensures key in InsertAll(index, es).0 <==> key in index || exists i :: 0 <= i < |es| && es[i].0 == key
    ensures forall i :: 0 <= i < |es| && es[i].0 == key && (forall j :: i < j < |es| ==> es[j].0 != key) ==>
              key in InsertAll(index, es).0 && InsertAll(index, es).0[key] == es[i].1
    ensures (forall i :: 0 <= i < |es| ==> es[i].0 != key) && key in index ==> InsertAll(index, es).0[key] == index[key]
    ensures key in InsertAll(index, es).0 && key !in index ==>
              exists i :: 0 <= i < |es| && es[i].0 == key && InsertAll(index, es).0[key] == es[i].1
    decreases |es|
  {
    if es != [] {
      var n := |es| - 1;
      var prefix := es[..n];
      InsertAllSpec(index, prefix, key);
      assert forall i :: 0 <= i < n ==> prefix[i] == es[i];
      if key in InsertAll(index, es).0 && key !in index && es[n].0 != key {
        var i :| 0 <= i < n && prefix[i].0 == key && InsertAll(index, prefix).0[key] == prefix[i].1;
        assert es[i].0 == key;
      }
    }
  }

  /**
   * Starting from an empty index, every displaced offset is an earlier scanned copy of a key
   * that is scanned again later: exactly the stale slots recovery must free.
   */
  lemma {:induction false} DuplicatesAreEarlierCopies<K>(es: seq<(K, Offset)>)
    ensures forall d :: d in InsertAll(map[], es).1 ==>
              exists i, j :: 0 <= i < j < |es| && es[i].1 == d && es[i].0 == es[j].0
    decreases |es|
  {
    if es != [] {
      var n := |es| - 1;
      var prefix := es[..n];
      DuplicatesAreEarlierCopies(prefix);
      assert forall i :: 0 <= i < n ==> prefix[i] == es[i];
      var prior := InsertAll(map[], prefix);
      var key := es[n].0;
      var displaced := Previous(prior.0, key);
      if displaced.At? {
        InsertAllSpec(map[], prefix, key);
        var i :| 0 <= i < n && prefix[i].0 == key && prior.0[key] == prefix[i].1;
        assert es[i].1 == displaced && es[i].0 == es[n].0;
      }
    }
  }

  /** Inserting X and then Y is inserting X + Y; the displaced lists concatenate. */
  lemma {:induction false} InsertAllAppend<K>(index: map<K, Offset>, xs: seq<(K, Offset)>, ys: seq<(K, Offset)>)
    ensures InsertAll(index, xs + ys).0 == InsertAll(InsertAll(index, xs).0, ys).0
    ensures InsertAll(index, xs + ys).1 == InsertAll(index, xs).1 + InsertAll(InsertAll(index, xs).0, ys).1
    decreases |ys|
  {
    if ys == [] {
      assert xs + ys == xs;
    } else {
      var n := |ys| - 1;
      var front, y := ys[..n], ys[n];
      assert ys == front + [y];
      assert xs + ys == (xs + front) + [y];
      InsertAllAppend(index, xs, front);
      InsertAllSnoc(index, xs + front, y);
      InsertAllSnoc(InsertAll(index, xs).0, front, y);
      InsertOneShift(InsertAll(index, xs + front), InsertAll(InsertAll(index, xs).0, front), InsertAll(index, xs).1, y);
    }
  }

  /** Inserting one pair more is one InsertOne more. */
  lemma InsertAllSnoc<K>(index: map<K, Offset>, es: seq<(K, Offset)>, e: (K, Offset))
    ensures InsertAll(index, es + [e]) == InsertOne(InsertAll(index, es), e)
  {
    assert (es + [e])[..|es|] == es;
  }

  /** An insert on two states that differ only by a prefix of the duplicates keeps that difference. */
  lemma InsertOneShift<K>(p: (map<K, Offset>, seq<Offset>), q: (map<K, Offset>, seq<Offset>), pre: seq<Offset>, e: (K, Offset))
    requires p.0 == q.0 && p.1 == pre + q.1
    ensures InsertOne(p, e).0 == InsertOne(q, e).0 && InsertOne(p, e).1 == pre + InsertOne(q, e).1
  {
    var displaced := Previous(q.0, e.0);
    if displaced.At? {
      assert (pre + q.1) + [displaced] == pre + (q.1 + [displaced]);
    }
  }

  lemma ReinsertAppend<K>(index: map<K, Offset>, dups: seq<Offset>, xs: seq<(K, Offset)>, ys: seq<(K, Offset)>)
    ensures Reinsert(index, dups, xs + ys) == Reinsert(Reinsert(index, dups, xs).0, Reinsert(index, dups, xs).1, ys)
  {
    InsertAllAppend(index, xs, ys);
    var mid := InsertAll(index, xs);
    var tail := InsertAll(mid.0, ys);
    assert dups + (mid.1 + tail.1) == (dups + mid.1) + tail.1;
  }

  // ---------------------------------------------------------------- release of duplicates

  /** Two tables of the same shape locate the same offsets. */
  lemma LocatesSameShape<K, V>(x: seq<Block<K, V>>, y: seq<Block<K, V>>, o: Offset)
    requires SameShape(x, y) && Locates(y, o)
    ensures Locates(x, o)
  {
    assert |x[o.block]| == |y[o.block]|;
  }

  predicate AllLocated<K, V>(blocks: seq<Block<K, V>>, dups: seq<Offset>)
  {
    forall i :: 0 <= i < |dups| ==> Locates(blocks, dups[i])
  }

  /** The free bit of every listed offset set again, in list order. */
  function FreeAll<K, V>(blocks: seq<Block<K, V>>, dups: seq<Offset>): (r: seq<Block<K, V>>)
    requires AllLocated(blocks, dups)
    ensures SameShape(r, blocks)
    decreases |dups|
  {
    if dups == [] then blocks
    else
      var prior := FreeAll(blocks, dups[..|dups| - 1]);
      LocatesSameShape(prior, blocks, dups[|dups| - 1]);
      ReleaseAt(prior, dups[|dups| - 1])
  }

  /**
   * Freeing the duplicates sets exactly their free bits: a slot is free afterwards iff it was
   * free before or is listed; lock bytes and slot contents are untouched.
   */
  lemma {:induction false} FreeAllSpec<K, V>(blocks: seq<Block<K, V>>, dups: seq<Offset>, o: Offset)
    requires AllLocated(blocks, dups) && Locates(blocks, o)
    ensures Locates(FreeAll(blocks, dups), o)
    ensures PageOf(FreeAll(blocks, dups), o).free[o.slot] == (PageOf(blocks, o).free[o.slot] || o in dups)
    ensures PageOf(FreeAll(blocks, dups), o).lock == PageOf(blocks, o).lock
    ensures PageOf(FreeAll(blocks, dups), o).data == PageOf(blocks, o).data
    decreases |dups|
  {
    LocatesSameShape(FreeAll(blocks, dups), blocks, o);
    if dups != [] {
      var n := |dups| - 1;
      var front, d := dups[..n], dups[n];
      assert dups == front + [d];
      assert AllLocated(blocks, front);
      FreeAllSpec(blocks, front, o);
      FreeAllSnoc(blocks, front, d);
      var prior := FreeAll(blocks, front);
      var r := ReleaseAt(prior, d);
      LocatesSameShape(prior, blocks, o);
      if d.block != o.block || d.page != o.page {
        assert PageOf(r, o) == PageOf(prior, o);
      } else {
        assert PageOf(r, o) == Release(PageOf(prior, o), d.slot);
      }
    }
  }

  /** Blocks no listed offset points into are left as they were. */
  lemma {:induction false} FreeAllFrame<K, V>(blocks: seq<Block<K, V>>, dups: seq<Offset>, b: nat)
    requires AllLocated(blocks, dups) && b < |blocks|
    requires forall i :: 0 <= i < |dups| ==> dups[i].block != b
    ensures FreeAll(blocks, dups)[b] == blocks[b]
    decreases |dups|
  {
    if dups != [] {
      FreeAllFrame(blocks, dups[..|dups| - 1], b);
    }
  }

  lemma {:induction false} FreeAllAppend<K, V>(blocks: seq<Block<K, V>>, xs: seq<Offset>, ys: seq<Offset>)
    requires AllLocated(blocks, xs) && AllLocated(blocks, ys)
    ensures AllLocated(blocks, xs + ys)
    ensures AllLocated(FreeAll(blocks, xs), ys)
    ensures FreeAll(blocks, xs + ys) == FreeAll(FreeAll(blocks, xs), ys)
    decreases |ys|
  {
    var prior := FreeAll(blocks, xs);
    forall i | 0 <= i < |ys|
      ensures Locates(prior, ys[i])
    {
      LocatesSameShape(prior, blocks, ys[i]);
    }
    if ys == [] {
      assert xs + ys == xs;
    } else {
      var n := |ys| - 1;
      var front, y := ys[..n], ys[n];
      assert ys == front + [y];
      assert xs + ys == (xs + front) + [y];
      assert AllLocated(blocks, front);
      FreeAllAppend(blocks, xs, front);
      FreeAllSnoc(blocks, xs + front, y);
      FreeAllSnoc(prior, front, y);
    }
  }

  /** Freeing one offset more is one ReleaseAt more. */
  lemma FreeAllSnoc<K, V>(blocks: seq<Block<K, V>>, es: seq<Offset>, e: Offset)
    requires AllLocated(blocks, es) && Locates(blocks, e)
    ensures AllLocated(blocks, es + [e]) && Locates(FreeAll(blocks, es), e)
    ensures FreeAll(blocks, es + [e]) == ReleaseAt(FreeAll(blocks, es), e)
  {
    LocatesSameShape(FreeAll(blocks, es), blocks, e);
    assert (es + [e])[..|es|] == es;
  }

  // ---------------------------------------------------------------- threads in sequence

  /** The index and duplicates list after scanning blocks [0, cur) of the table as it was at start. */
  function Recovered<K, V>(blocks: seq<Block<K, V>>, cur: nat): (map<K, Offset>, seq<Offset>)
    requires cur <= |blocks| && AllUniform(blocks)
  {
    InsertAll(map[], RangeEntries(blocks, 0, cur))
  }

  lemma UniformSameShape<K, V>(x: seq<Block<K, V>>, y: seq<Block<K, V>>)
    requires SameShape(x, y) && AllUniform(y)
    ensures AllUniform(x)
  {
    forall b, p | 0 <= b < |x| && 0 <= p < |x[b]|
      ensures Uniform(x[b][p])
    {
      assert Uniform(y[b][p]);
    }
  }

  /** Every duplicate found in [0, cur) is an occupied slot of a block below cur. */
  lemma RecoveredDuplicatesLocated<K, V>(blocks: seq<Block<K, V>>, cur: nat)
    requires cur <= |blocks| && AllUniform(blocks)
    ensures forall i :: 0 <= i < |Recovered(blocks, cur).1| ==>
              Locates(blocks, Recovered(blocks, cur).1[i]) && Recovered(blocks, cur).1[i].block < cur
  {
    var es := RangeEntries(blocks, 0, cur);
    DuplicatesAreEarlierCopies(es);
    RangeEntriesLocated(blocks, 0, cur);
    forall i | 0 <= i < |Recovered(blocks, cur).1|
      ensures Locates(blocks, Recovered(blocks, cur).1[i]) && Recovered(blocks, cur).1[i].block < cur
    {
      var d := Recovered(blocks, cur).1[i];
      assert d in InsertAll(map[], es).1;
      var a, c :| 0 <= a < c < |es| && es[a].1 == d && es[a].0 == es[c].0;
    }
  }

  /** Every offset the recovered index holds is an occupied slot of the table. */
  lemma RecoveredIndexLocated<K, V>(blocks: seq<Block<K, V>>, cur: nat)
    requires cur <= |blocks| && AllUniform(blocks)
    ensures forall k :: k in Recovered(blocks, cur).0 ==>
              Locates(blocks, Recovered(blocks, cur).0[k]) && Recovered(blocks, cur).0[k].block < cur
  {
    var es := RangeEntries(blocks, 0, cur);
    RangeEntriesLocated(blocks, 0, cur);
    forall k | k in Recovered(blocks, cur).0
      ensures Locates(blocks, Recovered(blocks, cur).0[k]) && Recovered(blocks, cur).0[k].block < cur
    {
      InsertAllSpec(map[], es, k);
    }
  }

  /**
   * The state after the threads whose ranges cover [0, cur): index and table are those of a
   * scan of [0, cur) of the original table, the size grew by the number of reinserted slots,
   * and the blocks from cur on are untouched.
   */
  ghost predicate Progress<K, V>(blocks0: seq<Block<K, V>>, cur: nat, index: map<K, Offset>, blocks: seq<Block<K, V>>,
                                 size0: int, size: int)
  {
    AllUniform(blocks0) && cur <= |blocks0| &&
    AllLocated(blocks0, Recovered(blocks0, cur).1) &&
    index == Recovered(blocks0, cur).0 &&
    blocks == FreeAll(blocks0, Recovered(blocks0, cur).1) &&
    size == size0 + |RangeEntries(blocks0, 0, cur)| &&
    forall b :: cur <= b < |blocks0| ==> blocks[b] == blocks0[b]
  }

  /** A thread starting at lo sees, in its range, the original table. */
  lemma ThreadSees<K, V>(blocks0: seq<Block<K, V>>, lo: nat, hi: nat, index: map<K, Offset>, blocks: seq<Block<K, V>>,
                         size0: int, size: int)
    requires Progress(blocks0, lo, index, blocks, size0, size) && hi <= |blocks0|
    ensures AllUniform(blocks) && SameShape(blocks, blocks0)
    ensures RangeEntries(blocks, lo, hi) == RangeEntries(blocks0, lo, hi)
  {
    UniformSameShape(blocks, blocks0);
    RangeEntriesFrame(blocks, blocks0, lo, hi);
  }

  /** A scan of [0, hi) is a scan of [0, lo) continued by the thread on [lo, hi). */
  lemma ThreadContinues<K, V>(blocks0: seq<Block<K, V>>, lo: nat, hi: nat)
    requires AllUniform(blocks0) && lo <= hi <= |blocks0|
    ensures var step := InsertAll(Recovered(blocks0, lo).0, RangeEntries(blocks0, lo, hi));
            Recovered(blocks0, hi).0 == step.0 &&
            Recovered(blocks0, hi).1 == Recovered(blocks0, lo).1 + step.1
    ensures |RangeEntries(blocks0, 0, hi)| == |RangeEntries(blocks0, 0, lo)| + |RangeEntries(blocks0, lo, hi)|
  {
    RangeEntriesSplit(blocks0, 0, lo, hi);
    InsertAllAppend(map[], RangeEntries(blocks0, 0, lo), RangeEntries(blocks0, lo, hi));
  }

  /** The duplicates a thread finds on [lo, hi) lie in the table, below hi. */
  lemma ThreadDuplicatesLocated<K, V>(blocks0: seq<Block<K, V>>, lo: nat, hi: nat)
    requires AllUniform(blocks0) && lo <= hi <= |blocks0|
    ensures var step := InsertAll(Recovered(blocks0, lo).0, RangeEntries(blocks0, lo, hi));
            AllLocated(blocks0, Recovered(blocks0, hi).1) &&
            AllLocated(blocks0, step.1) &&
            forall i :: 0 <= i < |step.1| ==> step.1[i].block < hi
  {
    ThreadContinues(blocks0, lo, hi);
    RecoveredDuplicatesLocated(blocks0, hi);
    var step := InsertAll(Recovered(blocks0, lo).0, RangeEntries(blocks0, lo, hi));
    var all := Recovered(blocks0, hi).1;
    forall i | 0 <= i < |step.1|
      ensures Locates(blocks0, step.1[i]) && step.1[i].block < hi
    {
      assert step.1[i] == all[|Recovered(blocks0, lo).1| + i];
    }
  }

  /** After the thread on [lo, hi) has freed its duplicates, the state is that of [0, hi). */
  lemma ThreadStep<K, V>(blocks0: seq<Block<K, V>>, lo: nat, hi: nat, index: map<K, Offset>, blocks: seq<Block<K, V>>,
                         size0: int, size: int)
    requires Progress(blocks0, lo, index, blocks, size0, size) && lo <= hi <= |blocks0|
    ensures var step := InsertAll(index, RangeEntries(blocks0, lo, hi));
            AllLocated(blocks, step.1) &&
            Progress(blocks0, hi, step.0, FreeAll(blocks, step.1), size0, size + |RangeEntries(blocks0, lo, hi)|)
  {
    ThreadContinues(blocks0, lo, hi);
    ThreadDuplicatesLocated(blocks0, lo, hi);
    var step := InsertAll(index, RangeEntries(blocks0, lo, hi));
    FreeAllAppend(blocks0, Recovered(blocks0, lo).1, step.1);
    forall b | hi <= b < |blocks0|
      ensures FreeAll(blocks, step.1)[b] == blocks0[b]
    {
      FreeAllFrame(blocks, step.1, b);
    }
  }

  // ---------------------------------------------------------------- scan loops

  /** The slot loop over one page: a page with lock byte FREE_BYTE is skipped. */
  method ScanPage<K, V>(page: Page<K, V>, b: nat, p: nat, slots: nat, index: map<K, Offset>, dups: seq<Offset>)
    returns (index': map<K, Offset>, dups': seq<Offset>, count: nat)
    requires WellFormed(page, slots)
    ensures (index', dups') == Reinsert(index, dups, PageEntries(page, b, p))
    ensures count == |PageEntries(page, b, p)|
  {
    index', dups', count := index, dups, 0;
    assert dups + [] == dups;
    if page.lock == FREE_BYTE {
      return;
    }
    for s := 0 to slots
      invariant index' == InsertAll(index, SlotEntries(page, b, p, s)).0
      invariant dups' == dups + InsertAll(index, SlotEntries(page, b, p, s)).1
      invariant count == |SlotEntries(page, b, p, s)|
    {
      if !page.free[s] {
        var key := page.data[s].key;
        var displaced := Previous(index', key);
        ghost var prior := InsertAll(index, SlotEntries(page, b, p, s));
        assert prior.0 == index' && dups' == dups + prior.1;
        index' := index'[key := At(b, p, s)];
        if displaced.At? {
          dups' := dups' + [displaced];
        }
        count := count + 1;
        ghost var es := SlotEntries(page, b, p, s + 1);
        assert es[..|es| - 1] == SlotEntries(page, b, p, s);
        assert es[|es| - 1] == (key, At(b, p, s));
        assert InsertAll(index, es).0 == index';
        if displaced.At? {
          assert InsertAll(index, es).1 == prior.1 + [displaced];
          assert dups' == dups + (prior.1 + [displaced]);
        }
      } else {
        assert SlotEntries(page, b, p, s) + [] == SlotEntries(page, b, p, s);
        assert SlotEntries(page, b, p, s + 1) == SlotEntries(page, b, p, s);
      }
    }
  }

  /** One iteration of the page loop: scanning page p extends the reinsertion over pages [0, p). */
  method ScanNextPage<K, V>(block: Block<K, V>, b: nat, p: nat, slots: nat, index: map<K, Offset>, dups: seq<Offset>,
                            index0: map<K, Offset>, dups0: seq<Offset>, count0: nat)
    returns (index': map<K, Offset>, dups': seq<Offset>, count: nat)
    requires p < |block| && WellFormed(block[p], slots)
    requires forall q :: 0 <= q < |block| ==> Uniform(block[q])
    requires index0 == Reinsert(index, dups, BlockEntries(block, b, p)).0
    requires dups0 == Reinsert(index, dups, BlockEntries(block, b, p)).1
    requires count0 == |BlockEntries(block, b, p)|
    ensures index' == Reinsert(index, dups, BlockEntries(block, b, p + 1)).0
    ensures dups' == Reinsert(index, dups, BlockEntries(block, b, p + 1)).1
    ensures count == |BlockEntries(block, b, p + 1)|
  {
    var n;
    index', dups', n := ScanPage(block[p], b, p, slots, index0, dups0);
    ReinsertAppend(index, dups, BlockEntries(block, b, p), PageEntries(block[p], b, p));
    count := count0 + n;
  }

  /** The page loop over one block. */
  method ScanBlock<K, V>(block: Block<K, V>, b: nat, pagesPerBlock: nat, slots: nat, index: map<K, Offset>, dups: seq<Offset>)
    returns (index': map<K, Offset>, dups': seq<Offset>, count: nat)
    requires BlockWellFormed(block, pagesPerBlock, slots)
    ensures (index', dups') == Reinsert(index, dups, BlockEntries(block, b, pagesPerBlock))
    ensures count == |BlockEntries(block, b, pagesPerBlock)|
  {
    forall p | 0 <= p < |block|
      ensures Uniform(block[p])
    {
      assert WellFormed(block[p], slots);
    }
    index', dups', count := index, dups, 0;
    assert dups + [] == dups;
    for p := 0 to pagesPerBlock
      invariant index' == Reinsert(index, dups, BlockEntries(block, b, p)).0
      invariant dups' == Reinsert(index, dups, BlockEntries(block, b, p)).1
      invariant count == |BlockEntries(block, b, p)|
    {
      index', dups', count := ScanNextPage(block, b, p, slots, index, dups, index', dups', count);
    }
  }

  /** One recovery thread's block loop over [lo, hi); nothing when hi <= lo. */
  method ScanRange<K, V>(blocks: seq<Block<K, V>>, lo: nat, hi: nat, pagesPerBlock: nat, slots: nat,
                         index: map<K, Offset>, dups: seq<Offset>)
    returns (index': map<K, Offset>, dups': seq<Offset>, count: nat)
    requires hi <= |blocks|
    requires forall b :: 0 <= b < |blocks| ==> BlockWellFormed(blocks[b], pagesPerBlock, slots)
    ensures AllUniform(blocks)
    ensures (index', dups') == Reinsert(index, dups, RangeEntries(blocks, lo, hi))
    ensures count == |RangeEntries(blocks, lo, hi)|
  {
    forall b, p | 0 <= b < |blocks| && 0 <= p < |blocks[b]|
      ensures Uniform(blocks[b][p])
    {
      assert BlockWellFormed(blocks[b], pagesPerBlock, slots);
    }
    assert AllUniform(blocks);
    index', dups', count := index, dups, 0;
    assert dups + [] == dups;
    if hi <= lo {
      return;
    }
    for b := lo to hi
      invariant AllUniform(blocks)
      invariant (index', dups') == Reinsert(index, dups, RangeEntries(blocks, lo, b))
      invariant count == |RangeEntries(blocks, lo, b)|
    {
      var m, d, n := ScanBlock(blocks[b], b, pagesPerBlock, slots, index', dups');
      ReinsertAppend(index, dups, RangeEntries(blocks, lo, b), BlockEntries(blocks[b], b, pagesPerBlock));
      index', dups', count := m, d, count + n;
    }
  }
}
