/**
 * The packed 64-bit header of a variable-size record (VarSizeEntry and VarEntryAccessor in
 * viper.hpp): bit 0 is the presence flag, bits 1..31 the key length and bits 32..63 the
 * value length.  The word is stored little-endian and followed by the key bytes and then
 * the value bytes.  Shifts and masks are written as division and remainder by powers of two
 * on a natural number below 2^64: `w >> n` is `w / 2^n` and `w & (2^m - 1)` is `w % 2^m`.
 */
module VarEntry {
  import opened Wrappers

  newtype byte = b: int | 0 <= b < 256

  const HEADER_SIZE: nat := 8                       // sizeof(size_info)
  const KEY_LIMIT: nat := 0x8000_0000               // a 31-bit key length
  const VALUE_LIMIT: nat := 0x1_0000_0000           // a 32-bit value length
  const WORD_LIMIT: nat := 0x1_0000_0000_0000_0000  // a 64-bit word

  datatype Header = Header(isSet: bool, keySize: nat, valueSize: nat)

  predicate WellFormed(h: Header)
  {
    h.keySize < KEY_LIMIT && h.valueSize < VALUE_LIMIT
  }

  /** size_info from the three bit-fields: value << 32 | key << 1 | is_set. */
  function Encode(h: Header): (w: nat)
    requires WellFormed(h)
    ensures w < WORD_LIMIT
    ensures Decode(w) == h
  {
    h.valueSize * 0x1_0000_0000 + h.keySize * 2 + (if h.isSet then 1 else 0)
  }

  /** The three bit-fields of size_info: w & 1, (w >> 1) & 0x7fffffff, (w >> 32) & 0xffffffff. */
  function Decode(w: nat): (h: Header)
    ensures WellFormed(h)
  {
    Header(w % 2 == 1, (w / 2) % KEY_LIMIT, (w / 0x1_0000_0000) % VALUE_LIMIT)
  }

  /** Every 64-bit word is the encoding of the header it decodes to. */
  lemma EncodeDecode(w: nat)
    requires w < WORD_LIMIT
    ensures Encode(Decode(w)) == w
  {
  }

  /**
   * The constructor VarSizeEntry{keySize, valueSize}: the flag set, the key length cut to
   * 31 bits and the value length to 32 bits.
   */
  function NewEntry(keySize: nat, valueSize: nat): (w: nat)
    ensures w < WORD_LIMIT
    ensures Decode(w).isSet
    ensures Decode(w).keySize == keySize % KEY_LIMIT && Decode(w).valueSize == valueSize % VALUE_LIMIT
    ensures keySize < KEY_LIMIT && valueSize < VALUE_LIMIT ==> Decode(w) == Header(true, keySize, valueSize)
  {
    Encode(Header(true, keySize % KEY_LIMIT, valueSize % VALUE_LIMIT))
  }

  /** Clearing is_set in place (w & ~1), as a removal does: both lengths are kept. */
  function ClearIsSet(w: nat): (r: nat)
    requires w < WORD_LIMIT
    ensures r < WORD_LIMIT
    ensures Decode(r) == Decode(w).(isSet := false)
  {
    w - w % 2
  }

  function Pow256(n: nat): nat
  {
    if n == 0 then 1 else 256 * Pow256(n - 1)
  }

  /** The n low bytes of w, least significant first (the little-endian layout of size_info). */
  function WordBytes(w: nat, n: nat): (b: seq<byte>)
    ensures |b| == n
  {
    if n == 0 then [] else [(w % 256) as byte] + WordBytes(w / 256, n - 1)
  }

  function ReadWord(b: seq<byte>): nat
  {
    if b == [] then 0 else b[0] as nat + 256 * ReadWord(b[1..])
  }

  /** Writing a word as bytes and reading them back gives the word. */
  lemma {:induction false} ReadWordBytes(w: nat, n: nat)
    requires w < Pow256(n)
    ensures ReadWord(WordBytes(w, n)) == w
  {
    if n > 0 {
      ReadWordBytes(w / 256, n - 1);
      assert WordBytes(w, n)[1..] == WordBytes(w / 256, n - 1);
    }
  }

  /** Reading bytes as a word and writing the word back gives the same bytes. */
  lemma {:induction false} WordBytesRead(b: seq<byte>)
    ensures ReadWord(b) < Pow256(|b|)
    ensures WordBytes(ReadWord(b), |b|) == b
  {
    if b != [] {
      WordBytesRead(b[1..]);
      ByteDigits(b[0] as nat, ReadWord(b[1..]), Pow256(|b| - 1));
    }
  }

  /** x + 256 * r has x as its low byte and r above it. */
  lemma ByteDigits(x: nat, r: nat, bound: nat)
    requires x < 256 && r < bound
    ensures (x + 256 * r) % 256 == x && (x + 256 * r) / 256 == r
    ensures x + 256 * r < 256 * bound
  {
  }

  lemma Pow256Of8()
    ensures Pow256(HEADER_SIZE) == WORD_LIMIT
  {
  }

  function HeaderBytes(w: nat): (b: seq<byte>)
    requires w < WORD_LIMIT
    ensures |b| == HEADER_SIZE
    ensures ReadWord(b) == w
  {
    Pow256Of8();
    ReadWordBytes(w, HEADER_SIZE);
    WordBytes(w, HEADER_SIZE)
  }

  /** A plain write of bytes into an arena at pos (pmem_memcpy, persistence left out). */
  function Write(data: seq<byte>, pos: nat, bytes: seq<byte>): (r: seq<byte>)
    requires pos + |bytes| <= |data|
    ensures |r| == |data|
    ensures r[pos..pos + |bytes|] == bytes
    ensures forall i :: 0 <= i < |data| && !(pos <= i < pos + |bytes|) ==> r[i] == data[i]
  {
    data[..pos] + bytes + data[pos + |bytes|..]
  }

  /** The 64-bit word stored at pos. */
  function WordAt(data: seq<byte>, pos: nat): (w: nat)
    requires pos + HEADER_SIZE <= |data|
    ensures w < WORD_LIMIT
    ensures HeaderBytes(w) == data[pos..pos + HEADER_SIZE]
  {
    WordBytesRead(data[pos..pos + HEADER_SIZE]);
    Pow256Of8();
    ReadWord(data[pos..pos + HEADER_SIZE])
  }

  function HeaderAt(data: seq<byte>, pos: nat): (h: Header)
    requires pos + HEADER_SIZE <= |data|
  {
    Decode(WordAt(data, pos))
  }

  /** What VarEntryAccessor sees: the flag, the key and the value. */
  datatype EntryView = EntryView(isSet: bool, key: seq<byte>, value: seq<byte>)

  /**
   * VarEntryAccessor(raw_entry) at pos: key bytes start right after the header and value
   * bytes right after the key.  None when the header or the bytes it announces run past the
   * arena (the source would read past the page there).
   */
  function ReadEntry(data: seq<byte>, pos: nat): (v: Option<EntryView>)
  {
    if pos + HEADER_SIZE > |data| then None
    else
      var h := HeaderAt(data, pos);
      var keyStart := pos + HEADER_SIZE;
      var valueStart := keyStart + h.keySize;
      if valueStart + h.valueSize > |data| then None
      else Some(EntryView(h.isSet, data[keyStart..valueStart], data[valueStart..valueStart + h.valueSize]))
  }

  /**
   * VarEntryAccessor(raw_key_entry, raw_value_entry): the flag and the key from the header at
   * keyPos, the value from the header at the start of the continuation arena.
   */
  function ReadSplitEntry(keyData: seq<byte>, keyPos: nat, valueData: seq<byte>): (v: Option<EntryView>)
  {
    if keyPos + HEADER_SIZE > |keyData| || HEADER_SIZE > |valueData| then None
    else
      var kh := HeaderAt(keyData, keyPos);
      var vh := HeaderAt(valueData, 0);
      var keyStart := keyPos + HEADER_SIZE;
      if keyStart + kh.keySize > |keyData| || HEADER_SIZE + vh.valueSize > |valueData| then None
      else Some(EntryView(kh.isSet, keyData[keyStart..keyStart + kh.keySize],
                          valueData[HEADER_SIZE..HEADER_SIZE + vh.valueSize]))
  }

  /** The bytes of one record as put lays it out: header, key, value. */
  function Record(header: nat, key: seq<byte>, value: seq<byte>): (r: seq<byte>)
    requires header < WORD_LIMIT
    ensures |r| == HEADER_SIZE + |key| + |value|
  {
    HeaderBytes(header) + key + value
  }

  /** The header of a record written at pos reads back as written. */
  lemma HeaderAtWrite(data: seq<byte>, pos: nat, header: nat, rest: seq<byte>)
    requires header < WORD_LIMIT
    requires pos + HEADER_SIZE + |rest| <= |data|
    ensures HeaderAt(Write(data, pos, HeaderBytes(header) + rest), pos) == Decode(header)
  {
    var r := HeaderBytes(header) + rest;
    var d := Write(data, pos, r);
    assert d[pos..pos + HEADER_SIZE] == r[..HEADER_SIZE] == HeaderBytes(header) by {
      assert d[pos..pos + |r|] == r;
    }
  }

  /** A record written at pos reads back as present, with its own key and value. */
  lemma ReadWrittenRecord(data: seq<byte>, pos: nat, key: seq<byte>, value: seq<byte>)
    requires |key| < KEY_LIMIT && |value| < VALUE_LIMIT
    requires pos + HEADER_SIZE + |key| + |value| <= |data|
    ensures ReadEntry(Write(data, pos, Record(NewEntry(|key|, |value|), key, value)), pos)
            == Some(EntryView(true, key, value))
  {
    var w := NewEntry(|key|, |value|);
    var r := Record(w, key, value);
    var d := Write(data, pos, r);
    HeaderAtWrite(data, pos, w, key + value);
    assert HeaderBytes(w) + key + value == HeaderBytes(w) + (key + value);
    assert d[pos..pos + |r|] == r;
    assert d[pos + HEADER_SIZE..pos + HEADER_SIZE + |key|] == r[HEADER_SIZE..HEADER_SIZE + |key|] == key;
    assert d[pos + HEADER_SIZE + |key|..pos + |r|] == r[HEADER_SIZE + |key|..] == value;
  }

  /** Clearing the flag of a readable record leaves its key and value readable. */
  lemma ReadClearedRecord(data: seq<byte>, pos: nat)
    requires ReadEntry(data, pos).Some?
    ensures ReadEntry(Write(data, pos, HeaderBytes(ClearIsSet(WordAt(data, pos)))), pos)
            == Some(ReadEntry(data, pos).value.(isSet := false))
  {
    var w := WordAt(data, pos);
    var c := ClearIsSet(w);
    var d := Write(data, pos, HeaderBytes(c));
    var h := HeaderAt(data, pos);
    WordAtWrite(data, pos, c);
    var keyStart := pos + HEADER_SIZE;
    var valueStart := keyStart + h.keySize;
    WriteKeepsAfter(data, pos, HeaderBytes(c), keyStart, valueStart);
    WriteKeepsAfter(data, pos, HeaderBytes(c), valueStart, valueStart + h.valueSize);
  }

  /** The word written at pos is the word read back there. */
  lemma WordAtWrite(data: seq<byte>, pos: nat, w: nat)
    requires w < WORD_LIMIT && pos + HEADER_SIZE <= |data|
    ensures WordAt(Write(data, pos, HeaderBytes(w)), pos) == w
  {
    assert Write(data, pos, HeaderBytes(w))[pos..pos + HEADER_SIZE] == HeaderBytes(w);
  }

  /** A write leaves the bytes after it as they were. */
  lemma WriteKeepsAfter(data: seq<byte>, pos: nat, bytes: seq<byte>, lo: nat, hi: nat)
    requires pos + |bytes| <= lo <= hi <= |data|
    ensures Write(data, pos, bytes)[lo..hi] == data[lo..hi]
  {
  }
}
