/** What committing write sets does to every later read. */
module MoveStoreLaws {
  import opened Wrappers
  import opened Bcs
  import opened MoveStore

  /** The write set as a map; of two operations on a key the later one counts. */
  ghost function AsMap<K, V>(ws: WriteSet<K, V>): map<K, WriteOp<V>> {
    if ws == [] then map[] else AsMap(ws[..|ws| - 1])[ws[|ws| - 1].0 := ws[|ws| - 1].1]
  }

  ghost predicate CanEncodeAll<K(!new), V(!new)>(codec: Codec<K, V>, ws: WriteSet<K, V>) {
    forall i | 0 <= i < |ws| :: codec.CanEncode(ws[i].1)
  }

  /** The contents after the write set's operations have been committed. */
  ghost function Committed<K(!new), V(!new)>(codec: Codec<K, V>, db: Contents, ws: WriteSet<K, V>): Contents
    requires CanEncodeAll(codec, ws)
  {
    ApplyOps(db, codec.OpsFor(ws))
  }

  /** The stored bytes under `b`, if any. */
  function At(db: Contents, b: Bytes): Option<Bytes> {
    if b in db then Some(db[b]) else None
  }

  lemma CommittedSnoc<K(!new), V(!new)>(codec: Codec<K, V>, db: Contents, ws: WriteSet<K, V>)
    requires ws != [] && CanEncodeAll(codec, ws)
    ensures var n := |ws| - 1;
            CanEncodeAll(codec, ws[..n]) &&
            Committed(codec, db, ws) == ApplyOp(Committed(codec, db, ws[..n]), codec.OpFor(ws[n].0, ws[n].1))
  {
    var n := |ws| - 1;
    assert codec.OpsFor(ws)[..n] == codec.OpsFor(ws[..n]);
  }

  /** Under a written key lies the encoding of what was last written there. */
  lemma {:induction false} WrittenAt<K(!new), V(!new)>(codec: Codec<K, V>, db: Contents, ws: WriteSet<K, V>, k: K)
    requires codec.Valid() && CanEncodeAll(codec, ws) && k in AsMap(ws)
    ensures codec.CanEncode(AsMap(ws)[k])
    ensures At(Committed(codec, db, ws), codec.key(k))
            == match AsMap(ws)[k]
               case Creation(v) => codec.encode(v)
               case Modification(v) => codec.encode(v)
               case Deletion => None
  {
    hide Committed, Codec.OpsFor;
    var n := |ws| - 1;
    CommittedSnoc(codec, db, ws);
    if ws[n].0 != k {
      assert codec.key(ws[n].0) != codec.key(k);
      WrittenAt(codec, db, ws[..n], k);
    }
  }

  /** Under any other key nothing changes. */
  lemma {:induction false} UnwrittenAt<K(!new), V(!new)>(codec: Codec<K, V>, db: Contents, ws: WriteSet<K, V>, b: Bytes)
    requires CanEncodeAll(codec, ws) && forall k | k in AsMap(ws) :: codec.key(k) != b
    ensures At(Committed(codec, db, ws), b) == At(db, b)
  {
    hide Codec.OpsFor;
    if ws != [] {
      var n := |ws| - 1;
      CommittedSnoc(codec, db, ws);
      assert ws[n].0 in AsMap(ws);
      UnwrittenAt(codec, db, ws[..n], b);
    }
  }

  /**
   Reads after a commit: a created or modified key gives the value written, a deleted key gives
   nothing, and every other key gives the old answer, decoding failures included.
   */
  lemma LookupAfterCommit<K(!new), V(!new)>(codec: Codec<K, V>, db: Contents, ws: WriteSet<K, V>, k: K)
    requires codec.Valid() && CanEncodeAll(codec, ws)
    ensures Lookup(codec, Committed(codec, db, ws), k)
            == if k !in AsMap(ws) then Lookup(codec, db, k)
               else match AsMap(ws)[k]
                 case Creation(v) => Some(Some(v))
                 case Modification(v) => Some(Some(v))
                 case Deletion => Some(None)
  {
    hide Committed;
    if k in AsMap(ws) {
      WrittenAt(codec, db, ws, k);
    } else {
      assert forall j | j in AsMap(ws) :: codec.key(j) != codec.key(k);
      UnwrittenAt(codec, db, ws, codec.key(k));
    }
  }

  // ---------------------------------------------------------------- the store as a plain map

  /** Reads on `db` answer exactly as reads on the map `m` do. */
  ghost predicate Represents<K(!new), V(!new)>(codec: Codec<K, V>, db: Contents, m: map<K, V>) {
    forall k :: Lookup(codec, db, k) == Some(if k in m then Some(m[k]) else None)
  }

  /** `m` with the writes of `w` made in it. */
  ghost function Overlay<K, V>(m: map<K, V>, w: map<K, WriteOp<V>>): map<K, V> {
    map k | k in m.Keys + w.Keys && (k in w ==> !w[k].Deletion?)
      :: if k !in w then m[k] else match w[k] case Creation(v) => v case Modification(v) => v
  }

  /** The store refines a plain map from state keys to state values. */
  lemma CommitRefinesOverlay<K(!new), V(!new)>(codec: Codec<K, V>, db: Contents, m: map<K, V>, ws: WriteSet<K, V>)
    requires codec.Valid() && CanEncodeAll(codec, ws) && Represents(codec, db, m)
    ensures Represents(codec, Committed(codec, db, ws), Overlay(m, AsMap(ws)))
  {
    hide Committed, AsMap, Lookup;
    forall k
      ensures var m' := Overlay(m, AsMap(ws));
              Lookup(codec, Committed(codec, db, ws), k) == Some(if k in m' then Some(m'[k]) else None)
    {
      LookupAfterCommit(codec, db, ws, k);
    }
  }

  // ---------------------------------------------------------------- equal effects

  /** Only the map matters: not the order of entries, nor operations that are overwritten. */
  lemma SameMapSameContents<K(!new), V(!new)>(codec: Codec<K, V>, db: Contents, ws: WriteSet<K, V>, ws': WriteSet<K, V>)
    requires codec.Valid() && CanEncodeAll(codec, ws) && CanEncodeAll(codec, ws') && AsMap(ws) == AsMap(ws')
    ensures Committed(codec, db, ws) == Committed(codec, db, ws')
  {
    hide Committed, AsMap;
    var after, after' := Committed(codec, db, ws), Committed(codec, db, ws');
    forall b: Bytes
      ensures At(after, b) == At(after', b)
    {
      if k :| k in AsMap(ws) && codec.key(k) == b {
        WrittenAt(codec, db, ws, k);
        WrittenAt(codec, db, ws', k);
      } else {
        UnwrittenAt(codec, db, ws, b);
        UnwrittenAt(codec, db, ws', b);
      }
    }
    assert forall b: Bytes :: b in after <==> At(after, b).Some?;
    assert forall b: Bytes :: b in after' <==> At(after', b).Some?;
    assert forall b: Bytes | b in after :: after[b] == At(after, b).value == At(after', b).value;
  }

  lemma {:induction false} AsMapConcat<K, V>(first: WriteSet<K, V>, second: WriteSet<K, V>)
    ensures AsMap(first + second) == AsMap(first) + AsMap(second)
  {
    if second == [] {
      assert first + second == first;
    } else {
      var n := |second| - 1;
      assert (first + second)[..|first| + n] == first + second[..n];
      AsMapConcat(first, second[..n]);
    }
  }

  lemma {:induction false} AsMapEntries<K(!new), V(!new)>(ws: WriteSet<K, V>, k: K, op: WriteOp<V>)
    requires IsWriteSet(ws)
    ensures k in AsMap(ws) && AsMap(ws)[k] == op <==> (k, op) in ws
  {
    if ws != [] {
      var n := |ws| - 1;
      assert ws == ws[..n] + [ws[n]];
      AsMapEntries(ws[..n], k, op);
      if (k, op) in ws[..n] {
        assert ws[n].0 != k;
      }
    }
  }

  /** Iterating a write set in any order commits the same contents. */
  lemma OrderIndependent<K(!new), V(!new)>(codec: Codec<K, V>, db: Contents, ws: WriteSet<K, V>, ws': WriteSet<K, V>)
    requires codec.Valid() && CanEncodeAll(codec, ws) && CanEncodeAll(codec, ws')
    requires IsWriteSet(ws) && IsWriteSet(ws') && forall e :: e in ws <==> e in ws'
    ensures Committed(codec, db, ws) == Committed(codec, db, ws')
  {
    forall k | k in AsMap(ws) ensures k in AsMap(ws') && AsMap(ws')[k] == AsMap(ws)[k] {
      AsMapEntries(ws, k, AsMap(ws)[k]);
      AsMapEntries(ws', k, AsMap(ws)[k]);
    }
    forall k | k in AsMap(ws') ensures k in AsMap(ws) {
      AsMapEntries(ws', k, AsMap(ws')[k]);
      AsMapEntries(ws, k, AsMap(ws')[k]);
    }
    SameMapSameContents(codec, db, ws, ws');
  }

  /** What each entry of a committed write set reads as afterwards, by its kind of operation. */
  lemma EntryReadsAfterCommit<K(!new), V(!new)>(codec: Codec<K, V>, db: Contents, ws: WriteSet<K, V>, i: nat)
    requires codec.Valid() && CanEncodeAll(codec, ws) && IsWriteSet(ws) && i < |ws|
    ensures Lookup(codec, Committed(codec, db, ws), ws[i].0)
            == match ws[i].1
               case Creation(v) => Some(Some(v))
               case Modification(v) => Some(Some(v))
               case Deletion => Some(None)
  {
    hide Committed, AsMap, Lookup;
    assert (ws[i].0, ws[i].1) in ws;
    AsMapEntries(ws, ws[i].0, ws[i].1);
    LookupAfterCommit(codec, db, ws, ws[i].0);
  }

  // ---------------------------------------------------------------- many write sets, one batch

  lemma CommittedConcat<K(!new), V(!new)>(codec: Codec<K, V>, db: Contents, first: WriteSet<K, V>, second: WriteSet<K, V>)
    requires CanEncodeAll(codec, first) && CanEncodeAll(codec, second)
    ensures CanEncodeAll(codec, first + second)
    ensures Committed(codec, db, first + second) == Committed(codec, Committed(codec, db, first), second)
  {
    assert forall i | 0 <= i < |first + second| :: (first + second)[i] in first || (first + second)[i] in second;
    assert codec.OpsFor(first + second) == codec.OpsFor(first) + codec.OpsFor(second);
    ApplyAll(db, codec.OpsFor(first), codec.OpsFor(second));
  }

  /** Committing the same change set again, when nothing else changed, changes nothing. */
  lemma CommitIdempotent<K(!new), V(!new)>(codec: Codec<K, V>, db: Contents, ws: WriteSet<K, V>)
    requires codec.Valid() && CanEncodeAll(codec, ws)
    ensures Committed(codec, Committed(codec, db, ws), ws) == Committed(codec, db, ws)
  {
    CommittedConcat(codec, db, ws, ws);
    AsMapConcat(ws, ws);
    SameMapSameContents(codec, db, ws + ws, ws);
  }

  /** The entries of several write sets, in the order they are added to one batch. */
  ghost function Flatten<K, V>(wss: seq<WriteSet<K, V>>): WriteSet<K, V> {
    if wss == [] then [] else Flatten(wss[..|wss| - 1]) + wss[|wss| - 1]
  }

  /** Each write set committed in a batch of its own, in order. */
  ghost function CommitEach<K(!new), V(!new)>(codec: Codec<K, V>, db: Contents, wss: seq<WriteSet<K, V>>): Contents
    requires forall i | 0 <= i < |wss| :: CanEncodeAll(codec, wss[i])
  {
    if wss == [] then db else Committed(codec, CommitEach(codec, db, wss[..|wss| - 1]), wss[|wss| - 1])
  }

  /** The write sets merged into one map, later ones winning. */
  ghost function Merge<K, V>(wss: seq<WriteSet<K, V>>): map<K, WriteOp<V>> {
    if wss == [] then map[] else Merge(wss[..|wss| - 1]) + AsMap(wss[|wss| - 1])
  }

  lemma {:induction false} FlattenMap<K, V>(wss: seq<WriteSet<K, V>>)
    ensures AsMap(Flatten(wss)) == Merge(wss)
  {
    if wss != [] {
      FlattenMap(wss[..|wss| - 1]);
      AsMapConcat(Flatten(wss[..|wss| - 1]), wss[|wss| - 1]);
    }
  }

  /** One batch for many write sets is as good as a batch for each. */
  lemma {:induction false} OneBatchIsMany<K(!new), V(!new)>(codec: Codec<K, V>, db: Contents, wss: seq<WriteSet<K, V>>)
    requires forall i | 0 <= i < |wss| :: CanEncodeAll(codec, wss[i])
    ensures CanEncodeAll(codec, Flatten(wss))
    ensures Committed(codec, db, Flatten(wss)) == CommitEach(codec, db, wss)
  {
    hide CanEncodeAll;
    if wss == [] {
      assert CanEncodeAll(codec, Flatten(wss)) by { EmptyEncodes(codec); }
    } else {
      OneBatchIsMany(codec, db, wss[..|wss| - 1]);
      CommittedConcat(codec, db, Flatten(wss[..|wss| - 1]), wss[|wss| - 1]);
    }
  }

  lemma EmptyEncodes<K(!new), V(!new)>(codec: Codec<K, V>)
    ensures CanEncodeAll(codec, [])
  {
  }

  /**
   Adding any sequence of write sets to one batch and committing once stores the same as one commit of
   their right-biased merge, whatever deletes and puts overwrite each other.
   */
  lemma OneBatchIsMerge<K(!new), V(!new)>(
      codec: Codec<K, V>, db: Contents, wss: seq<WriteSet<K, V>>, merged: WriteSet<K, V>)
    requires codec.Valid() && forall i | 0 <= i < |wss| :: CanEncodeAll(codec, wss[i])
    requires CanEncodeAll(codec, merged) && AsMap(merged) == Merge(wss)
    ensures CanEncodeAll(codec, Flatten(wss))
    ensures Committed(codec, db, Flatten(wss)) == Committed(codec, db, merged) == CommitEach(codec, db, wss)
  {
    hide CanEncodeAll, Committed, AsMap, Flatten, Merge;
    OneBatchIsMany(codec, db, wss);
    FlattenMap(wss);
    SameMapSameContents(codec, db, Flatten(wss), merged);
  }
}
