/**
 * The hash index as the engine sees it: a map from key to KeyValueOffset.  The offset's bit
 * packing and the hash table itself are not part of this model.
 */
module Index {
  import opened Wrappers

  /** A record's location (block, page, slot or byte offset), or the reserved tombstone. */
  datatype Offset = Tombstone | At(block: nat, page: nat, slot: nat)

  /** map_.Get followed by the is_tombstone check: the key's live offset, if it has one. */
  function Lookup<K>(index: map<K, Offset>, key: K): (r: Option<Offset>)
    ensures r.Some? <==> key in index && index[key].At?
    ensures r.Some? ==> r.value == index[key] && r.value.At?
  {
    if key in index && index[key].At? then Some(index[key]) else None
  }

  /** What map_.Insert returns: the offset it replaced, or the tombstone when the key was new. */
  function Previous<K>(index: map<K, Offset>, key: K): Offset
  {
    if key in index then index[key] else Tombstone
  }
}
