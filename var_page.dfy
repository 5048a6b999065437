/**
 * A variable-size page (ViperPage<std::string, std::string> in viper.hpp): the next_page
 * pointer, the next_insert_pos pointer and the lock byte (METADATA_SIZE bytes together),
 * followed by a byte arena of DATA_SIZE bytes in which records are appended as header, key,
 * value.  Both pointers are modelled as positions: next_page as the (block, page) it points
 * to and next_insert_pos as an index into the arena; None stands for nullptr.
 */
module VarArena {
  import opened Wrappers
  import opened Index
  import opened VarEntry
  import Cursor
  import FixedPage

  const PAGE_SIZE: nat := 4096
  const METADATA_SIZE: nat := 17   // lock byte, next_page, next_insert_pos
  const DATA_SIZE: nat := PAGE_SIZE - METADATA_SIZE

  datatype Page = Page(lock: nat, next: Option<Cursor.Position>, insertPos: Option<nat>, data: seq<byte>)

  predicate PageOk(page: Page)
  {
    |page.data| == DATA_SIZE && (page.insertPos.Some? ==> page.insertPos.value <= DATA_SIZE)
  }

  /** init(): unlocked, both pointers null; the arena bytes are left as they are. */
  function Init(page: Page): (r: Page)
    ensures r.lock == FixedPage.FREE_BYTE && r.next == None && r.insertPos == None && r.data == page.data
  {
    page.(lock := FixedPage.FREE_BYTE, next := None, insertPos := None)
  }

  /** The pages of every block, as v_blocks_ reaches them. */
  type Table = seq<seq<Page>>

  predicate Holds(t: Table, pos: Cursor.Position)
  {
    pos.block < |t| && pos.page < |t[pos.block]|
  }

  /** The table with the page at pos replaced; every other page is kept. */
  function SetPage(t: Table, pos: Cursor.Position, page: Page): (r: Table)
    requires Holds(t, pos)
    ensures |r| == |t| && forall b :: 0 <= b < |t| ==> |r[b]| == |t[b]|
    ensures r[pos.block][pos.page] == page
    ensures forall q :: Holds(t, q) && q != pos ==> r[q.block][q.page] == t[q.block][q.page]
  {
    t[pos.block := t[pos.block][pos.page := page]]
  }

  /** Two writes to the same page: the second one is all that is left. */
  lemma SetPageTwice(t: Table, pos: Cursor.Position, first: Page, second: Page)
    requires Holds(t, pos)
    ensures SetPage(SetPage(t, pos, first), pos, second) == SetPage(t, pos, second)
  {
    assert t[pos.block][pos.page := first][pos.page := second] == t[pos.block][pos.page := second];
  }

  /** Where put puts a record, given the insert position of the current page. */
  datatype Placement =
    | Whole   // header, key and value fit behind pos
    | Split   // the key fits, the value goes to the start of the next page
    | Moved   // not even the key fits: the whole record goes to the next page

  function PlacementOf(pos: nat, keySize: nat, valueSize: nat): Placement
  {
    if pos + HEADER_SIZE + keySize + valueSize <= DATA_SIZE then Whole
    else if pos + HEADER_SIZE + keySize < DATA_SIZE then Split
    else Moved
  }

  /** What put demands of a record: the page its value lands on has room for it. */
  predicate RecordFits(pos: nat, keySize: nat, valueSize: nat)
  {
    match PlacementOf(pos, keySize, valueSize)
    case Whole => true
    case Split => HEADER_SIZE + valueSize <= DATA_SIZE
    case Moved => HEADER_SIZE + keySize + valueSize <= DATA_SIZE
  }

  /** A record that fits anywhere is shorter than a page, so its lengths fit their bit-fields. */
  lemma RecordFitsSizes(pos: nat, keySize: nat, valueSize: nat)
    requires RecordFits(pos, keySize, valueSize)
    ensures keySize < KEY_LIMIT && valueSize < VALUE_LIMIT
  {
  }

  /** The whole record written at pos, and the insert position moved behind it. */
  function WriteWhole(page: Page, pos: nat, key: seq<byte>, value: seq<byte>): (r: Page)
    requires pos + HEADER_SIZE + |key| + |value| <= |page.data| && |key| < KEY_LIMIT && |value| < VALUE_LIMIT
    ensures r.lock == page.lock && r.next == page.next && |r.data| == |page.data|
    ensures r.insertPos == Some(pos + HEADER_SIZE + |key| + |value|)
    ensures ReadEntry(r.data, pos) == Some(EntryView(true, key, value))
  {
    ReadWrittenRecord(page.data, pos, key, value);
    page.(data := Write(page.data, pos, Record(NewEntry(|key|, |value|), key, value)),
          insertPos := Some(pos + HEADER_SIZE + |key| + |value|))
  }

  /** The key half of a split record: a header with value length 0, then the key. */
  function WriteKeyPart(page: Page, pos: nat, key: seq<byte>): (r: Page)
    requires pos + HEADER_SIZE + |key| <= |page.data| && |key| < KEY_LIMIT
    ensures r.lock == page.lock && r.next == page.next && r.insertPos == page.insertPos && |r.data| == |page.data|
    ensures ReadEntry(r.data, pos) == Some(EntryView(true, key, []))
  {
    ReadWrittenRecord(page.data, pos, key, []);
    page.(data := Write(page.data, pos, Record(NewEntry(|key|, 0), key, [])))
  }

  /** The value half of a split record at the start of the arena: key length 0, then the value. */
  function WriteValuePart(page: Page, value: seq<byte>): (r: Page)
    requires HEADER_SIZE + |value| <= |page.data| && |value| < VALUE_LIMIT
    ensures r.lock == page.lock && r.next == page.next && |r.data| == |page.data|
    ensures r.insertPos == Some(HEADER_SIZE + |value|)
    ensures ReadEntry(r.data, 0) == Some(EntryView(true, [], value))
  {
    ReadWrittenRecord(page.data, 0, [], value);
    page.(data := Write(page.data, 0, Record(NewEntry(0, |value|), [], value)), insertPos := Some(HEADER_SIZE + |value|))
  }

  /** The 0/0 header put leaves behind when a record moves on, written only if it fits. */
  function WriteMovedMarker(page: Page, pos: nat): (r: Page)
    ensures r.lock == page.lock && r.next == page.next && r.insertPos == page.insertPos && |r.data| == |page.data|
    ensures pos + HEADER_SIZE <= |page.data| ==> ReadEntry(r.data, pos) == Some(EntryView(true, [], []))
    ensures pos + HEADER_SIZE > |page.data| ==> r == page
  {
    if pos + HEADER_SIZE <= |page.data| then
      ReadWrittenRecord(page.data, pos, [], []);
      page.(data := Write(page.data, pos, Record(NewEntry(0, 0), [], [])))
    else page
  }

  /** free_occupied_slot on a variable-size record: is_set cleared in the header at off. */
  function ClearFlag(page: Page, off: nat): (r: Page)
    requires off + HEADER_SIZE <= |page.data|
    ensures r.lock == page.lock && r.next == page.next && r.insertPos == page.insertPos && |r.data| == |page.data|
  {
    page.(data := Write(page.data, off, HeaderBytes(ClearIsSet(WordAt(page.data, off)))))
  }

  /** free_occupied_slot on the record at o, in the table. */
  function ClearFlagAt(t: Table, o: Offset): (r: Table)
    requires o.At? && Holds(t, Cursor.Position(o.block, o.page)) && o.slot + HEADER_SIZE <= |t[o.block][o.page].data|
  {
    SetPage(t, Cursor.Position(o.block, o.page), ClearFlag(t[o.block][o.page], o.slot))
  }

  /**
   * Removal marks the record and nothing else: the record at o reads back with is_set clear
   * and its key and value kept, the page keeps its lock and pointers, and every other page
   * is unchanged.
   */
  lemma ClearFlagAtSpec(t: Table, o: Offset)
    requires o.At? && Holds(t, Cursor.Position(o.block, o.page)) && o.slot + HEADER_SIZE <= |t[o.block][o.page].data|
    ensures var page := ClearFlagAt(t, o)[o.block][o.page];
            var before := t[o.block][o.page];
            page.lock == before.lock && page.next == before.next && page.insertPos == before.insertPos &&
            (ReadEntry(before.data, o.slot).Some? ==>
               ReadEntry(page.data, o.slot) == Some(ReadEntry(before.data, o.slot).value.(isSet := false)))
    ensures forall q :: Holds(t, q) && q != Cursor.Position(o.block, o.page) ==> ClearFlagAt(t, o)[q.block][q.page] == t[q.block][q.page]
  {
    if ReadEntry(t[o.block][o.page].data, o.slot).Some? {
      ReadClearedRecord(t[o.block][o.page].data, o.slot);
    }
  }

  /**
   * get_value_from_offset: read the record at the offset; a header whose value length is 0
   * sends the read to the start of the next page, whose header gives the value.  None where
   * the source would read outside the arena or through a null next_page.
   */
  function ReadValue(t: Table, o: Offset): Option<seq<byte>>
  {
    if !o.At? || !Holds(t, Cursor.Position(o.block, o.page)) then None
    else
      var page := t[o.block][o.page];
      match ReadEntry(page.data, o.slot)
      case None => None
      case Some(e) =>
        if |e.value| != 0 then Some(e.value)
        else
          match page.next
          case None => None
          case Some(n) =>
            if !Holds(t, n) then None
            else
              match ReadSplitEntry(page.data, o.slot, t[n.block][n.page].data)
              case None => None
              case Some(s) => Some(s.value)
  }

  /** A whole record with a non-empty value reads back as its value. */
  lemma ReadWholeRecord(t: Table, o: Offset, key: seq<byte>, value: seq<byte>)
    requires o.At? && Holds(t, Cursor.Position(o.block, o.page)) && value != []
    requires ReadEntry(t[o.block][o.page].data, o.slot) == Some(EntryView(true, key, value))
    ensures ReadValue(t, o) == Some(value)
  {
  }

  /** A split record reads back as the value stored at the start of the page its key page points to. */
  lemma {:induction false} ReadSplitRecord(t: Table, o: Offset, key: seq<byte>, value: seq<byte>)
    requires o.At? && Holds(t, Cursor.Position(o.block, o.page))
    requires ReadEntry(t[o.block][o.page].data, o.slot) == Some(EntryView(true, key, []))
    requires t[o.block][o.page].next.Some? && Holds(t, t[o.block][o.page].next.value)
    requires ReadEntry(t[t[o.block][o.page].next.value.block][t[o.block][o.page].next.value.page].data, 0)
             == Some(EntryView(true, [], value))
    ensures ReadValue(t, o) == Some(value)
  {
    var page := t[o.block][o.page];
    var n := page.next.value;
    var vd := t[n.block][n.page].data;
    assert HeaderAt(vd, 0).valueSize == |value|;
    assert HeaderAt(page.data, o.slot).keySize == |key|;
  }

  /**
   * Reading only looks at the record's page and the page it points to: replacing any other
   * page leaves the value read at o unchanged.
   */
  lemma ReadValueFrame(t: Table, pos: Cursor.Position, page: Page, o: Offset)
    requires Holds(t, pos) && o.At? && pos != Cursor.Position(o.block, o.page)
    requires Holds(t, Cursor.Position(o.block, o.page)) && t[o.block][o.page].next.Some? ==> t[o.block][o.page].next != Some(pos)
    ensures ReadValue(SetPage(t, pos, page), o) == ReadValue(t, o)
  {
    var r := SetPage(t, pos, page);
    if Holds(t, Cursor.Position(o.block, o.page)) {
      assert r[o.block][o.page] == t[o.block][o.page];
      var next := t[o.block][o.page].next;
      if next.Some? && Holds(t, next.value) {
        assert r[next.value.block][next.value.page] == t[next.value.block][next.value.page];
      }
    }
  }

  /** Reading looks at arenas and next pointers only: a page whose lock byte changes reads the same. */
  lemma ReadValueSameContent(t: Table, pos: Cursor.Position, page: Page, o: Offset)
    requires Holds(t, pos) && page.data == t[pos.block][pos.page].data && page.next == t[pos.block][pos.page].next
    ensures ReadValue(SetPage(t, pos, page), o) == ReadValue(t, o)
  {
    var r: Table := SetPage(t, pos, page);
    if o.At? && Holds(t, Cursor.Position(o.block, o.page)) {
      assert r[o.block][o.page].data == t[o.block][o.page].data && r[o.block][o.page].next == t[o.block][o.page].next;
      var next: Option<Cursor.Position> := t[o.block][o.page].next;
      if next.Some? && Holds(t, next.value) {
        assert r[next.value.block][next.value.page].data == t[next.value.block][next.value.page].data;
      }
    }
  }

  /**
   * The empty value is not read back: put writes a whole record with value length 0, which
   * get takes for the key half of a split record and follows next_page; with no next page
   * (a null pointer in the source) nothing is read.
   */
  lemma EmptyValueIsMisread(t: Table, pos: Cursor.Position, page: Page, at: nat, key: seq<byte>)
    requires Holds(t, pos) && page.next == None
    requires at + HEADER_SIZE + |key| <= |page.data| && |key| < KEY_LIMIT
    ensures ReadValue(SetPage(t, pos, WriteWhole(page, at, key, [])), At(pos.block, pos.page, at)) == None
  {
  }

  /**
   * What the stores of a put leave in t, for a record placed as placement says behind at on
   * the page put locked (locked), with put ending on pos: the record is found at written,
   * the halves or the 0/0 marker sit where the placement puts them, pos's insert position is
   * behind the last byte written, and the record reads back as the value (for a whole or a
   * moved record unless the value is empty, for a split one when it did leave the page).
   */
  ghost predicate RecordStored(t: Table, placement: Placement, locked: Cursor.Position, at: nat, pos: Cursor.Position,
                               written: Offset, key: seq<byte>, value: seq<byte>)
  {
    match placement
    case Whole =>
      Holds(t, locked) && pos == locked && written == At(locked.block, locked.page, at) &&
      ReadEntry(t[pos.block][pos.page].data, at) == Some(EntryView(true, key, value)) &&
      t[pos.block][pos.page].insertPos == Some(at + HEADER_SIZE + |key| + |value|) &&
      (value != [] ==> ReadValue(t, written) == Some(value))
    case Split =>
      Holds(t, locked) && Holds(t, pos) && written == At(locked.block, locked.page, at) &&
      ReadEntry(t[pos.block][pos.page].data, 0) == Some(EntryView(true, [], value)) &&
      t[pos.block][pos.page].insertPos == Some(HEADER_SIZE + |value|) &&
      (pos != locked ==>
         ReadEntry(t[locked.block][locked.page].data, at) == Some(EntryView(true, key, [])) &&
         ReadValue(t, written) == Some(value))
    case Moved =>
      Holds(t, locked) && Holds(t, pos) && written == At(pos.block, pos.page, 0) &&
      ReadEntry(t[pos.block][pos.page].data, 0) == Some(EntryView(true, key, value)) &&
      t[pos.block][pos.page].insertPos == Some(HEADER_SIZE + |key| + |value|) &&
      (pos != locked && at + HEADER_SIZE <= DATA_SIZE ==>
         ReadEntry(t[locked.block][locked.page].data, at) == Some(EntryView(true, [], []))) &&
      (value != [] ==> ReadValue(t, written) == Some(value))
  }

  /** Unlocking the locked page keeps what put stored. */
  lemma RecordStoredUnlocked(t: Table, placement: Placement, locked: Cursor.Position, at: nat, pos: Cursor.Position,
                             written: Offset, key: seq<byte>, value: seq<byte>)
    requires RecordStored(t, placement, locked, at, pos, written, key, value)
    ensures RecordStored(SetPage(t, locked, t[locked.block][locked.page].(lock := FixedPage.FREE_BYTE)),
                         placement, locked, at, pos, written, key, value)
  {
    var page := t[locked.block][locked.page].(lock := FixedPage.FREE_BYTE);
    ReadValueSameContent(t, locked, page, written);
  }

  /** u has t's shape, and t's page at every position other than a and b. */
  ghost predicate AgreeExcept(t: Table, u: Table, a: Cursor.Position, b: Cursor.Position)
  {
    |u| == |t| && (forall i :: 0 <= i < |t| ==> |u[i]| == |t[i]|) &&
    forall q :: Holds(t, q) && q != a && q != b ==> u[q.block][q.page] == t[q.block][q.page]
  }

  lemma AgreeTrans(t: Table, u: Table, v: Table, a: Cursor.Position, b: Cursor.Position)
    requires AgreeExcept(t, u, a, b) && AgreeExcept(u, v, a, b)
    ensures AgreeExcept(t, v, a, b)
  {
    forall q | Holds(t, q) && q != a && q != b
      ensures v[q.block][q.page] == t[q.block][q.page]
    {
      assert Holds(u, q);
    }
  }

  /** A page stored at one of the two excepted positions keeps the agreement. */
  lemma AgreeSetPage(t: Table, u: Table, pos: Cursor.Position, page: Page, a: Cursor.Position, b: Cursor.Position)
    requires AgreeExcept(t, u, a, b) && Holds(u, pos) && (pos == a || pos == b)
    ensures AgreeExcept(t, SetPage(u, pos, page), a, b)
  {
    forall q | Holds(t, q) && q != a && q != b
      ensures SetPage(u, pos, page)[q.block][q.page] == t[q.block][q.page]
    {
      assert Holds(u, q);
    }
  }

  /**
   * The table update_access_information leaves: the table grown by more (the chunk of a
   * resize, or nothing) and the page at next initialised.
   */
  ghost function Advanced(t: Table, more: Table, next: Cursor.Position): (r: Table)
    requires Holds(t + more, next)
    ensures AgreeExcept(t + more, r, next, next)
    ensures r[next.block][next.page] == Init((t + more)[next.block][next.page])
  {
    SetPage(t + more, next, Init((t + more)[next.block][next.page]))
  }

  /** A page stored before moving on changes the advanced table at that page only. */
  lemma AdvancedAfterWrite(t: Table, more: Table, pos: Cursor.Position, page: Page, next: Cursor.Position)
    requires Holds(t, pos) && Holds(t + more, next)
    ensures Holds(SetPage(t, pos, page) + more, next)
    ensures AgreeExcept(Advanced(t, more, next), Advanced(SetPage(t, pos, page), more, next), pos, next)
  {
    var w := SetPage(t, pos, page);
    assert w + more == SetPage(t + more, pos, page) by {
      assert (t + more)[pos.block] == t[pos.block];
    }
    var r0 := Advanced(t, more, next);
    var r1 := Advanced(w, more, next);
    forall q | Holds(r0, q) && q != pos && q != next
      ensures r1[q.block][q.page] == r0[q.block][q.page]
    {
      assert Holds(t + more, q);
    }
  }

  /**
   * update_var_size_page_information's stores: the page left behind (from) points to the
   * page moved to (to), which starts an empty arena with no next page.
   */
  ghost function Link(t: Table, from: Cursor.Position, to: Cursor.Position): (r: Table)
    requires Holds(t, from) && Holds(t, to)
    ensures AgreeExcept(t, r, from, to)
    ensures r[to.block][to.page] == t[to.block][to.page].(next := None, insertPos := Some(0))
    ensures from != to ==> r[from.block][from.page] == t[from.block][from.page].(next := Some(to))
  {
    var linked := SetPage(t, from, t[from.block][from.page].(next := Some(to)));
    SetPage(linked, to, linked[to.block][to.page].(next := None, insertPos := Some(0)))
  }

  /** A split record's stores: the key half at at on the page left behind, the value half at the start of to. */
  ghost function SplitPages(t: Table, locked: Cursor.Position, to: Cursor.Position, at: nat, key: seq<byte>, value: seq<byte>): (r: Table)
    requires Holds(t, locked) && Holds(t, to)
    requires |t[locked.block][locked.page].data| == DATA_SIZE && |t[to.block][to.page].data| == DATA_SIZE
    requires at + HEADER_SIZE + |key| <= DATA_SIZE && HEADER_SIZE + |value| <= DATA_SIZE
    requires |key| < KEY_LIMIT && |value| < VALUE_LIMIT
  {
    var keyed := SetPage(t, locked, WriteKeyPart(t[locked.block][locked.page], at, key));
    SetPage(keyed, to, WriteValuePart(keyed[to.block][to.page], value))
  }

  /** A moved record's stores: the 0/0 marker at at on the page left behind, the whole record at the start of to. */
  ghost function MovedPages(t: Table, locked: Cursor.Position, to: Cursor.Position, at: nat, key: seq<byte>, value: seq<byte>): (r: Table)
    requires Holds(t, locked) && Holds(t, to)
    requires |t[locked.block][locked.page].data| == DATA_SIZE && |t[to.block][to.page].data| == DATA_SIZE
    requires HEADER_SIZE + |key| + |value| <= DATA_SIZE && |key| < KEY_LIMIT && |value| < VALUE_LIMIT
  {
    var marked := SetPage(t, locked, WriteMovedMarker(t[locked.block][locked.page], at));
    SetPage(marked, to, WriteWhole(marked[to.block][to.page], 0, key, value))
  }

  /** A split or a moved record changes the page left behind and the page moved to, nothing else. */
  lemma RecordPagesAgree(t: Table, locked: Cursor.Position, to: Cursor.Position, at: nat, key: seq<byte>, value: seq<byte>)
    requires Holds(t, locked) && Holds(t, to)
    requires |t[locked.block][locked.page].data| == DATA_SIZE && |t[to.block][to.page].data| == DATA_SIZE
    requires |key| < KEY_LIMIT && |value| < VALUE_LIMIT
    ensures at + HEADER_SIZE + |key| <= DATA_SIZE && HEADER_SIZE + |value| <= DATA_SIZE ==>
              AgreeExcept(t, SplitPages(t, locked, to, at, key, value), locked, to)
    ensures HEADER_SIZE + |key| + |value| <= DATA_SIZE ==> AgreeExcept(t, MovedPages(t, locked, to, at, key, value), locked, to)
  {
    if at + HEADER_SIZE + |key| <= DATA_SIZE && HEADER_SIZE + |value| <= DATA_SIZE {
      var keyed := SetPage(t, locked, WriteKeyPart(t[locked.block][locked.page], at, key));
      AgreeSetPage(t, t, locked, WriteKeyPart(t[locked.block][locked.page], at, key), locked, to);
      AgreeSetPage(t, keyed, to, WriteValuePart(keyed[to.block][to.page], value), locked, to);
    }
    if HEADER_SIZE + |key| + |value| <= DATA_SIZE {
      var marked := SetPage(t, locked, WriteMovedMarker(t[locked.block][locked.page], at));
      AgreeSetPage(t, t, locked, WriteMovedMarker(t[locked.block][locked.page], at), locked, to);
      AgreeSetPage(t, marked, to, WriteWhole(marked[to.block][to.page], 0, key, value), locked, to);
    }
  }

  /** A split record's stores leave it stored as RecordStored says: both halves in place, the value reading back. */
  lemma SplitRecordStored(t: Table, locked: Cursor.Position, to: Cursor.Position, at: nat, key: seq<byte>, value: seq<byte>)
    requires Holds(t, locked) && Holds(t, to)
    requires |t[locked.block][locked.page].data| == DATA_SIZE && |t[to.block][to.page].data| == DATA_SIZE
    requires at + HEADER_SIZE + |key| <= DATA_SIZE && HEADER_SIZE + |value| <= DATA_SIZE
    requires |key| < KEY_LIMIT && |value| < VALUE_LIMIT
    requires locked != to ==> t[locked.block][locked.page].next == Some(to)
    ensures RecordStored(SplitPages(t, locked, to, at, key, value), Split, locked, at, to, At(locked.block, locked.page, at), key, value)
  {
    var r := SplitPages(t, locked, to, at, key, value);
    if locked != to {
      ReadSplitRecord(r, At(locked.block, locked.page, at), key, value);
    }
  }

  /** A moved record's stores leave it stored as RecordStored says: the marker where it fits, the record at the start of to. */
  lemma MovedRecordStored(t: Table, locked: Cursor.Position, to: Cursor.Position, at: nat, key: seq<byte>, value: seq<byte>)
    requires Holds(t, locked) && Holds(t, to)
    requires |t[locked.block][locked.page].data| == DATA_SIZE && |t[to.block][to.page].data| == DATA_SIZE
    requires HEADER_SIZE + |key| + |value| <= DATA_SIZE && |key| < KEY_LIMIT && |value| < VALUE_LIMIT
    ensures RecordStored(MovedPages(t, locked, to, at, key, value), Moved, locked, at, to, At(to.block, to.page, 0), key, value)
  {
    var r := MovedPages(t, locked, to, at, key, value);
    if value != [] {
      ReadWholeRecord(r, At(to.block, to.page, 0), key, value);
    }
  }

  /** The record at o lies on a page of t other than p and does not continue onto p. */
  ghost predicate Untouched(t: Table, o: Offset, p: Cursor.Position)
  {
    o.At? && Holds(t, Cursor.Position(o.block, o.page)) && Cursor.Position(o.block, o.page) != p &&
    t[o.block][o.page].next != Some(p)
  }

  /** Reading looks at two pages only: a table that agrees with t outside a and b reads the same elsewhere. */
  lemma ReadAgreeing(t: Table, u: Table, a: Cursor.Position, b: Cursor.Position, o: Offset)
    requires AgreeExcept(t, u, a, b) && Untouched(t, o, a) && Untouched(t, o, b)
    ensures ReadValue(u, o) == ReadValue(t, o)
  {
    var here := Cursor.Position(o.block, o.page);
    assert u[o.block][o.page] == t[o.block][o.page];
    var next := t[o.block][o.page].next;
    if next.Some? && Holds(t, next.value) {
      assert u[next.value.block][next.value.page] == t[next.value.block][next.value.page];
    }
  }

  /**
   * Moving on reads the same everywhere else: a record of t that is not on the page moved to,
   * does not continue onto it and does not continue past the end of t reads the same after
   * the table grows and that page is initialised.
   */
  lemma ReadAdvanced(t: Table, more: Table, next: Cursor.Position, o: Offset)
    requires Holds(t + more, next) && Untouched(t, o, next)
    requires t[o.block][o.page].next.Some? ==> Holds(t, t[o.block][o.page].next.value)
    ensures ReadValue(Advanced(t, more, next), o) == ReadValue(t, o)
  {
    var r := Advanced(t, more, next);
    assert (t + more)[o.block] == t[o.block];
    assert r[o.block][o.page] == t[o.block][o.page];
    var n := t[o.block][o.page].next;
    if n.Some? {
      assert (t + more)[n.value.block] == t[n.value.block];
      assert r[n.value.block][n.value.page] == t[n.value.block][n.value.page];
    }
  }

  /**
   * get of another key after put: put leaves a table (stored) that agrees with base outside
   * the page it locked and the page it moved to, where base is the table before put or, when
   * put moved on, the table update_access_information left; then it clears the flag of the
   * key's previous record.  A record of the table before put that lies on none of these
   * pages and does not continue onto one of them reads back as before.
   */
  lemma GetOtherAfterPut(before: Table, more: Table, moved: bool, stored: Table, locked: Cursor.Position,
                         to: Cursor.Position, previous: Option<Offset>, after: Table, o: Offset)
    requires moved ==> Holds(before + more, to)
    requires AgreeExcept(if moved then Advanced(before, more, to) else before, stored, locked, to)
    requires previous.None? ==> after == stored
    requires previous.Some? ==>
               var p := previous.value;
               p.At? && Holds(stored, Cursor.Position(p.block, p.page)) &&
               p.slot + HEADER_SIZE <= |stored[p.block][p.page].data| && after == ClearFlagAt(stored, p) &&
               Untouched(before, o, Cursor.Position(p.block, p.page))
    requires Untouched(before, o, locked) && Untouched(before, o, to)
    requires before[o.block][o.page].next.Some? ==> Holds(before, before[o.block][o.page].next.value)
    ensures ReadValue(after, o) == ReadValue(before, o)
  {
    var base := if moved then Advanced(before, more, to) else before;
    if moved {
      ReadAdvanced(before, more, to, o);
      assert base[o.block][o.page] == before[o.block][o.page];
    }
    ReadAgreeing(base, stored, locked, to, o);
    if previous.Some? {
      var p := previous.value;
      assert stored[o.block][o.page] == before[o.block][o.page] by {
        assert base[o.block][o.page] == before[o.block][o.page];
      }
      ReadValueFrame(stored, Cursor.Position(p.block, p.page), ClearFlag(stored[p.block][p.page], p.slot), o);
    }
  }
}
