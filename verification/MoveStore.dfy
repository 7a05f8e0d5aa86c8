/**
 The Move state store: write sets become ordered batches of puts and deletes over encoded keys and
 values, a batch is committed atomically to a database shared by every handle, and reads decode what
 they find.
 */
module MoveStore {
  import opened Wrappers
  import opened Bcs

  // ---------------------------------------------------------------- the database

  datatype BatchOp = Put(key: Bytes, value: Bytes) | Delete(key: Bytes)

  type Contents = map<Bytes, Bytes>

  function ApplyOp(db: Contents, op: BatchOp): Contents {
    match op
    case Put(key, value) => db[key := value]
    case Delete(key) => db - {key}
  }

  /** The operations of a batch take effect in order. */
  function ApplyOps(db: Contents, ops: seq<BatchOp>): Contents {
    if ops == [] then db else ApplyOp(ApplyOps(db, ops[..|ops| - 1]), ops[|ops| - 1])
  }

  class WriteBatch {
    var ops: seq<BatchOp>

    constructor ()
      ensures ops == []
    {
      ops := [];
    }

    method PutCf(key: Bytes, value: Bytes)
      modifies this
      ensures ops == old(ops) + [Put(key, value)]
    {
      ops := ops + [Put(key, value)];
    }

    method DeleteCf(key: Bytes)
      modifies this
      ensures ops == old(ops) + [Delete(key)]
    {
      ops := ops + [Delete(key)];
    }
  }

  /** The column family the store lives in. `ioFails` says whether the disk fails during a call. */
  class Database {
    var data: Contents

    constructor (initial: Contents)
      ensures data == initial
    {
      data := initial;
    }

    method GetCf(key: Bytes, ioFails: bool) returns (r: Option<Option<Bytes>>)
      ensures r.None? <==> ioFails
      ensures r.Some? ==> r.value == if key in data then Some(data[key]) else None
    {
      if ioFails {
        return None;
      }
      return Some(if key in data then Some(data[key]) else None);
    }

    /** Commits a batch, all of it or none. */
    method Write(batch: WriteBatch, ioFails: bool) returns (r: Outcome)
      modifies this
      ensures r.Raised? <==> ioFails
      ensures data == if r.Pass? then ApplyOps(old(data), batch.ops) else old(data)
    {
      if ioFails {
        return Raised;
      }
      data := ApplyOps(data, batch.ops);
      return Pass;
    }
  }

  lemma {:induction false} ApplyAll(db: Contents, first: seq<BatchOp>, second: seq<BatchOp>)
    ensures ApplyOps(db, first + second) == ApplyOps(ApplyOps(db, first), second)
  {
    if second == [] {
      assert first + second == first;
    } else {
      var n := |second| - 1;
      assert (first + second)[..|first| + n] == first + second[..n];
      ApplyAll(db, first, second[..n]);
    }
  }

  // ---------------------------------------------------------------- write sets

  datatype WriteOp<V> = Creation(value: V) | Modification(value: V) | Deletion {
    function AsStateValue(): Option<V> {
      match this
      case Creation(value) => Some(value)
      case Modification(value) => Some(value)
      case Deletion => None
    }
  }

  /** A write set in the order it is iterated. */
  type WriteSet<K, V> = seq<(K, WriteOp<V>)>

  /** A write set is a map: it has one operation for a key. */
  ghost predicate IsWriteSet<K(!new), V(!new)>(ws: WriteSet<K, V>) {
    forall i, j | 0 <= i < j < |ws| :: ws[i].0 != ws[j].0
  }

  /** How keys and values are turned into bytes, and values read back. */
  datatype Codec<!K(!new), !V(!new)> = Codec(
    key: K -> Bytes,
    encode: V -> Option<Bytes>,
    decode: Bytes -> Option<V>)
  {
    /** Keys keep apart, and a value that can be encoded decodes to itself. */
    ghost predicate Valid() {
      (forall a, b :: key(a) == key(b) ==> a == b) &&
      (forall v :: encode(v).Some? ==> decode(encode(v).value) == Some(v))
    }

    predicate CanEncode(op: WriteOp<V>) {
      op.Deletion? || encode(op.value).Some?
    }

    /** The batch operation for one entry of a write set. */
    function OpFor(k: K, op: WriteOp<V>): BatchOp
      requires CanEncode(op)
    {
      match op
      case Creation(v) => Put(key(k), encode(v).value)
      case Modification(v) => Put(key(k), encode(v).value)
      case Deletion => Delete(key(k))
    }

    function OpsFor(ws: WriteSet<K, V>): (ops: seq<BatchOp>)
      requires forall i | 0 <= i < |ws| :: CanEncode(ws[i].1)
      ensures |ops| == |ws| && forall i | 0 <= i < |ws| :: ops[i] == OpFor(ws[i].0, ws[i].1)
    {
      seq(|ws|, i requires 0 <= i < |ws| => OpFor(ws[i].0, ws[i].1))
    }
  }

  /** The entries before the first whose value cannot be encoded; all of them if every value can. */
  function EncodablePrefix<K(!new), V(!new)>(codec: Codec<K, V>, ws: WriteSet<K, V>): (n: nat)
    ensures n <= |ws|
    ensures forall i | 0 <= i < n :: codec.CanEncode(ws[i].1)
    ensures n < |ws| ==> !codec.CanEncode(ws[n].1)
  {
    if ws == [] || !codec.CanEncode(ws[0].1) then 0 else 1 + EncodablePrefix(codec, ws[1..])
  }

  // ---------------------------------------------------------------- the store

  /** A handle. Cloning one copies the reference, so clones share the database. */
  class Store<K(!new), V(!new)> {
    const codec: Codec<K, V>
    const db: Database

    constructor (codec: Codec<K, V>, db: Database)
      ensures this.codec == codec && this.db == db
    {
      this.codec := codec;
      this.db := db;
    }

    method Clone() returns (copy: Store<K, V>)
      ensures fresh(copy) && copy.db == db && copy.codec == codec
    {
      copy := new Store(codec, db);
    }

    /**
     Raises when the disk fails or the stored bytes do not decode; otherwise the decoded value, or
     nothing for a key that is not stored.
     */
    method GetStateValue(k: K, ioFails: bool) returns (r: Option<Option<V>>)
      ensures r == if ioFails then None else Lookup(codec, db.data, k)
      ensures r.None? <==> ioFails || (codec.key(k) in db.data && codec.decode(db.data[codec.key(k)]).None?)
      ensures r == Some(None) <==> !ioFails && codec.key(k) !in db.data
      ensures forall v :: r == Some(Some(v))
                          <==> !ioFails && codec.key(k) in db.data && codec.decode(db.data[codec.key(k)]) == Some(v)
    {
      var key := codec.key(k);
      var found :- db.GetCf(key, ioFails);
      if found.None? {
        return Some(None);
      }
      var value :- codec.decode(found.value);
      return Some(Some(value));
    }

    /**
     Adds a write set to a batch. When a value cannot be encoded it raises, and the batch keeps the
     operations added before that entry. The database is not touched.
     */
    method AddWriteSet(batch: WriteBatch, ws: WriteSet<K, V>) returns (r: Outcome)
      modifies batch
      ensures r.Pass? <==> forall i | 0 <= i < |ws| :: codec.CanEncode(ws[i].1)
      ensures batch.ops == old(batch.ops) + codec.OpsFor(ws[..EncodablePrefix(codec, ws)])
    {
      ghost var prefix := EncodablePrefix(codec, ws);
      for i := 0 to |ws|
        invariant i <= prefix
        invariant batch.ops == old(batch.ops) + codec.OpsFor(ws[..i])
      {
        var (k, op) := ws[i];
        var key := codec.key(k);
        match op.AsStateValue()
        case None =>
          batch.DeleteCf(key);
        case Some(value) =>
          var encoded := codec.encode(value);
          if encoded.None? {
            assert !codec.CanEncode(ws[i].1);
            return Raised;
          }
          batch.PutCf(key, encoded.value);
        assert codec.OpsFor(ws[..i + 1]) == codec.OpsFor(ws[..i]) + [codec.OpFor(k, op)];
      }
      return Pass;
    }
  }

  /** What a read of `k` returns on the given contents. */
  function Lookup<K(!new), V(!new)>(codec: Codec<K, V>, db: Contents, k: K): Option<Option<V>> {
    if codec.key(k) !in db then Some(None)
    else match codec.decode(db[codec.key(k)])
      case None => None
      case Some(v) => Some(Some(v))
  }
}
