/** Creating the genesis store. */
module Genesis {
  import opened Wrappers
  import opened Bcs
  import opened MoveStore

  /**
   Opens the store on disk, which may hold data already, and commits the genesis change set to it.
   Whatever fails (opening, encoding a value, or the disk during the commit), the stored state is
   what it was; on success the whole change set has been applied.
   */
  method CreateGenesis<K(!new), V(!new)>(
      codec: Codec<K, V>, disk: Database, changeSet: WriteSet<K, V>, openFails: bool, writeFails: bool)
    returns (r: Option<Store<K, V>>)
    modifies disk
    ensures r.Some? <==> !openFails && !writeFails && forall i | 0 <= i < |changeSet| :: codec.CanEncode(changeSet[i].1)
    ensures r.Some? ==> r.value.db == disk && r.value.codec == codec
                        && disk.data == ApplyOps(old(disk.data), codec.OpsFor(changeSet))
    ensures r.None? ==> disk.data == old(disk.data)
  {
    if openFails {
      return None;
    }
    var store := new Store(codec, disk);
    var batch := new WriteBatch();
    var added := store.AddWriteSet(batch, changeSet);
    if added.Raised? {
      return None;
    }
    assert changeSet[..EncodablePrefix(codec, changeSet)] == changeSet;
    assert batch.ops == codec.OpsFor(changeSet);
    var written := store.db.Write(batch, writeFails);
    if written.Raised? {
      return None;
    }
    return Some(store);
  }
}
