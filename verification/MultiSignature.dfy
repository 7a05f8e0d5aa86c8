/**
 The multi-signature wire form: the signatures in the order listed, then a 32-bit bitmap, big
 endian, whose most significant bit stands for signer 0.
 */
module MultiSignature {
  import opened Wrappers
  import opened Bcs
  import opened Bits

  const SIGNERS: nat := 32
  const BITMAP_NUM_OF_BYTES: nat := 4
  const SIGNATURE_LENGTH: nat := 64

  type Signature = s: Bytes | |s| == SIGNATURE_LENGTH witness seq(64, _ => 0)

  /** A signature with the position of its key in the multi-signature public key. */
  datatype IndexedSignature = IndexedSignature(index: int, data: Signature)

  predicate InRange(sigs: seq<IndexedSignature>) {
    forall j | 0 <= j < |sigs| :: 0 <= sigs[j].index < SIGNERS
  }

  function Indices(sigs: seq<IndexedSignature>): set<int> {
    set j | 0 <= j < |sigs| :: sigs[j].index
  }

  function Chunks(sigs: seq<IndexedSignature>): Bytes {
    if sigs == [] then [] else Chunks(sigs[..|sigs| - 1]) + sigs[|sigs| - 1].data
  }

  /** Signer `i`'s place on the wire: byte `i / 8` of the bitmap, mask `0x80 >> (i % 8)`. */
  predicate Present(bitmap: Bytes, i: nat)
    requires |bitmap| == BITMAP_NUM_OF_BYTES && i < SIGNERS
  {
    Bit(bitmap[i / 8], 7 - i % 8)
  }

  /** `bitmap` marks exactly the signers in `indices`. */
  ghost predicate Marks(bitmap: Bytes, indices: set<int>) {
    |bitmap| == BITMAP_NUM_OF_BYTES && forall i: nat | i < SIGNERS :: Present(bitmap, i) <==> i in indices
  }

  /** `bytes` is the wire form of `sigs`. */
  ghost predicate IsWireForm(sigs: seq<IndexedSignature>, bytes: Bytes) {
    |bytes| == SIGNATURE_LENGTH * |sigs| + BITMAP_NUM_OF_BYTES &&
    bytes[..|bytes| - BITMAP_NUM_OF_BYTES] == Chunks(sigs) &&
    Marks(bytes[|bytes| - BITMAP_NUM_OF_BYTES..], Indices(sigs))
  }

  /** Bit `31 - i` of the running bitmap is set exactly when index `i` has appeared. */
  ghost predicate Records(bitmap: nat, sigs: seq<IndexedSignature>) {
    forall k: nat :: Bit(bitmap, k) <==> 31 - k in Indices(sigs)
  }

  lemma RecordsStep(bitmap: nat, sigs: seq<IndexedSignature>, n: nat)
    requires n < |sigs| && sigs[n].index <= 31 && Records(bitmap, sigs[..n])
    ensures Records(BitOr(bitmap, Pow2(31 - sigs[n].index)), sigs[..n + 1])
  {
    var shift := 31 - sigs[n].index;
    assert Indices(sigs[..n + 1]) == Indices(sigs[..n]) + {sigs[n].index} by {
      assert sigs[..n + 1] == sigs[..n] + [sigs[n]];
      assert (sigs[..n + 1])[n] == sigs[n];
      assert forall j | 0 <= j < n :: sigs[..n + 1][j] == sigs[..n][j];
    }
    forall k: nat
      ensures Bit(BitOr(bitmap, Pow2(shift)), k) <==> 31 - k in Indices(sigs[..n + 1])
    {
      BitOrBit(bitmap, Pow2(shift), k);
      Pow2Bit(shift, k);
    }
  }

  /** The bitmap needs more than 32 bits exactly when a negative index was recorded. */
  lemma RecordsFits(bitmap: nat, sigs: seq<IndexedSignature>)
    requires Records(bitmap, sigs) && forall j | 0 <= j < |sigs| :: sigs[j].index <= 31
    ensures bitmap < Pow2(32) <==> InRange(sigs)
  {
    BelowPow2(bitmap, 32);
    if InRange(sigs) {
      forall k: nat | k >= 32 ensures !Bit(bitmap, k) {}
      assert NoBitFrom(bitmap, 32);
    } else {
      var j :| 0 <= j < |sigs| && sigs[j].index < 0;
      assert sigs[j].index in Indices(sigs);
      var k: nat := 31 - sigs[j].index;
      assert Bit(bitmap, k);
    }
  }

  lemma RecordsMarks(bitmap: nat, sigs: seq<IndexedSignature>)
    requires Records(bitmap, sigs)
    ensures Marks(BigEndian(BITMAP_NUM_OF_BYTES, bitmap), Indices(sigs))
  {
    var bytes := BigEndian(BITMAP_NUM_OF_BYTES, bitmap);
    forall i: nat | i < SIGNERS
      ensures Present(bytes, i) <==> i in Indices(sigs)
    {
      BigEndianBit(BITMAP_NUM_OF_BYTES, bitmap, i / 8, 7 - i % 8);
      assert 8 * (3 - i / 8) + (7 - i % 8) == 31 - i;
      assert Bit(bitmap, 31 - i) <==> 31 - (31 - i) in Indices(sigs);
    }
  }

  /**
   Raises on an index above 31 (a negative shift) and on a negative index (a bitmap too wide for four
   bytes), and otherwise returns the wire form.
   */
  method MultisigToCryptoBytes(signatures: seq<IndexedSignature>) returns (r: Option<Bytes>)
    ensures r.Some? <==> InRange(signatures)
    ensures r.Some? ==> IsWireForm(signatures, r.value)
  {
    hide BitOr, Bit, BigEndian, Marks, Indices;
    var signatureBytes: Bytes := [];
    var bitmap: nat := 0;
    assert Records(0, signatures[..0]) by { NothingRecorded(signatures); }
    for n := 0 to |signatures|
      invariant forall j | 0 <= j < n :: signatures[j].index <= 31
      invariant Records(bitmap, signatures[..n])
      invariant signatureBytes == Chunks(signatures[..n]) && |signatureBytes| == SIGNATURE_LENGTH * n
    {
      var shift := 31 - signatures[n].index;
      if shift < 0 {
        return None;
      }
      RecordsStep(bitmap, signatures, n);
      assert signatures[..n + 1][..n] == signatures[..n];
      bitmap := BitOr(bitmap, Pow2(shift));
      signatureBytes := signatureBytes + signatures[n].data;
    }
    assert signatures[..|signatures|] == signatures;
    RecordsFits(bitmap, signatures);
    if bitmap >= Pow2(8 * BITMAP_NUM_OF_BYTES) {
      return None;
    }
    RecordsMarks(bitmap, signatures);
    return Some(signatureBytes + BigEndian(BITMAP_NUM_OF_BYTES, bitmap));
  }

  lemma NothingRecorded(sigs: seq<IndexedSignature>)
    ensures Records(0, sigs[..0])
  {
    forall k: nat ensures !Bit(0, k) { ZeroBit(k); }
  }

  // ---------------------------------------------------------------- the bitmap is a function of the index set

  lemma MarksDetermines(a: Bytes, b: Bytes, s: set<int>, t: set<int>)
    requires Marks(a, s) && Marks(b, t)
    requires forall i | i in s || i in t :: 0 <= i < SIGNERS
    ensures a == b <==> s == t
  {
    hide Bit;
    if a == b {
      forall i | i in s || i in t ensures i in s && i in t {
        assert Present(a, i) <==> i in s;
        assert Present(b, i) <==> i in t;
      }
    }
    if s == t {
      forall j | 0 <= j < BITMAP_NUM_OF_BYTES
        ensures a[j] == b[j]
      {
        forall k | 0 <= k < 8
          ensures Bit(a[j], k) == Bit(b[j], k)
        {
          var i := 8 * j + 7 - k;
          assert i / 8 == j && 7 - i % 8 == k;
          assert Present(a, i) <==> Present(b, i);
        }
        ByteBitsDetermine(a[j], b[j]);
      }
    }
  }

  /**
   The last four bytes depend on the set of indices alone: permuting the list or repeating an index
   leaves them as they were, and different sets give different bytes.
   */
  lemma BitmapIsSetFunction(sigs: seq<IndexedSignature>, bytes: Bytes, sigs': seq<IndexedSignature>, bytes': Bytes)
    requires InRange(sigs) && InRange(sigs') && IsWireForm(sigs, bytes) && IsWireForm(sigs', bytes')
    ensures bytes[|bytes| - BITMAP_NUM_OF_BYTES..] == bytes'[|bytes'| - BITMAP_NUM_OF_BYTES..]
            <==> Indices(sigs) == Indices(sigs')
  {
    hide Present;
    MarksDetermines(bytes[|bytes| - BITMAP_NUM_OF_BYTES..], bytes'[|bytes'| - BITMAP_NUM_OF_BYTES..],
                    Indices(sigs), Indices(sigs'));
  }

  /** A list has one wire form. */
  lemma WireFormUnique(sigs: seq<IndexedSignature>, a: Bytes, b: Bytes)
    requires InRange(sigs) && IsWireForm(sigs, a) && IsWireForm(sigs, b)
    ensures a == b
  {
    hide Present, Chunks;
    BitmapIsSetFunction(sigs, a, sigs, b);
    var n := |a| - BITMAP_NUM_OF_BYTES;
    assert a == a[..n] + a[n..] && b == b[..n] + b[n..];
  }

  // ---------------------------------------------------------------- the matching reader

  /** Walks the bitmap from signer `i` on and gives each marked signer the next chunk. */
  function Walk(bitmap: Bytes, i: nat, chunks: Bytes): Option<seq<IndexedSignature>>
    requires |bitmap| == BITMAP_NUM_OF_BYTES && i <= SIGNERS
    decreases SIGNERS - i
  {
    if i == SIGNERS then
      if chunks == [] then Some([]) else None
    else if !Present(bitmap, i) then Walk(bitmap, i + 1, chunks)
    else if |chunks| < SIGNATURE_LENGTH then None
    else
      var later :- Walk(bitmap, i + 1, chunks[SIGNATURE_LENGTH..]);
      Some([IndexedSignature(i, chunks[..SIGNATURE_LENGTH])] + later)
  }

  function FromCryptoBytes(bytes: Bytes): Option<seq<IndexedSignature>> {
    if |bytes| < BITMAP_NUM_OF_BYTES then None
    else
      var n := |bytes| - BITMAP_NUM_OF_BYTES;
      Walk(bytes[n..], 0, bytes[..n])
  }

  /** The members of `s` from `i` up to 31, in ascending order. */
  ghost function Ascending(s: set<int>, i: nat): (r: seq<int>)
    requires i <= SIGNERS
    ensures forall j | 0 <= j < |r| :: r[j] in s && i <= r[j] < SIGNERS
    ensures forall j, k | 0 <= j < k < |r| :: r[j] < r[k]
    ensures forall x | x in s && i <= x < SIGNERS :: x in r
    decreases SIGNERS - i
  {
    if i == SIGNERS then [] else if i in s then [i] + Ascending(s, i + 1) else Ascending(s, i + 1)
  }

  ghost predicate StrictlyAscending(sigs: seq<IndexedSignature>) {
    forall j, k | 0 <= j < k < |sigs| :: sigs[j].index < sigs[k].index
  }

  ghost predicate Distinct(sigs: seq<IndexedSignature>) {
    forall j, k | 0 <= j < k < |sigs| :: sigs[j].index != sigs[k].index
  }

  /** The listed signatures in list order, paired with the given indices. */
  ghost function Paired(indices: seq<int>, sigs: seq<IndexedSignature>): seq<IndexedSignature>
    requires |indices| == |sigs|
  {
    seq(|sigs|, j requires 0 <= j < |sigs| => IndexedSignature(indices[j], sigs[j].data))
  }

  lemma {:induction false} ChunksFront(sigs: seq<IndexedSignature>)
    ensures |Chunks(sigs)| == SIGNATURE_LENGTH * |sigs|
    ensures sigs != [] ==> Chunks(sigs) == sigs[0].data + Chunks(sigs[1..])
  {
    if |sigs| > 0 {
      var front := sigs[..|sigs| - 1];
      ChunksFront(front);
      if |sigs| > 1 {
        assert sigs[1..][..|sigs| - 2] == front[1..];
        Assoc(front[0].data, Chunks(front[1..]), sigs[|sigs| - 1].data);
      }
    }
  }

  /** On the wire signature `j` takes bytes `64j` to `64j + 63`, whatever its index. */
  lemma {:induction false} ChunkAt(sigs: seq<IndexedSignature>, j: nat)
    requires j < |sigs|
    ensures |Chunks(sigs)| == 64 * |sigs| && Chunks(sigs)[64 * j..64 * j + 64] == sigs[j].data
  {
    ChunksFront(sigs);
    if j > 0 {
      ChunkAt(sigs[1..], j - 1);
      var later := Chunks(sigs[1..]);
      assert Chunks(sigs)[64 * j..64 * j + 64] == later[64 * (j - 1)..64 * (j - 1) + 64] by {
        hide Chunks;
        assert Chunks(sigs) == sigs[0].data + later;
      }
    }
  }

  /** One signature for every index, or nothing when the counts differ. */
  ghost function Pairing(indices: seq<int>, sigs: seq<IndexedSignature>): Option<seq<IndexedSignature>> {
    if |indices| == |sigs| then Some(Paired(indices, sigs)) else None
  }

  lemma PairingStep(i: int, indices: seq<int>, sigs: seq<IndexedSignature>)
    requires sigs != []
    ensures Pairing([i] + indices, sigs)
            == match Pairing(indices, sigs[1..])
               case None => None
               case Some(later) => Some([IndexedSignature(i, sigs[0].data)] + later)
  {
    if |indices| == |sigs| - 1 {
      assert Paired([i] + indices, sigs) == [IndexedSignature(i, sigs[0].data)] + Paired(indices, sigs[1..]);
    }
  }

  lemma {:induction false} WalkPairs(bitmap: Bytes, s: set<int>, i: nat, sigs: seq<IndexedSignature>)
    requires Marks(bitmap, s) && i <= SIGNERS
    ensures Walk(bitmap, i, Chunks(sigs)) == Pairing(Ascending(s, i), sigs)
    decreases SIGNERS - i
  {
    hide Present, Chunks;
    ChunksFront(sigs);
    if i == SIGNERS {
      assert sigs == [] ==> Paired([], sigs) == [];
    } else {
      assert Present(bitmap, i) <==> i in s;
      if i !in s {
        WalkPairs(bitmap, s, i + 1, sigs);
      } else if sigs != [] {
        assert Chunks(sigs)[SIGNATURE_LENGTH..] == Chunks(sigs[1..]);
        assert Chunks(sigs)[..SIGNATURE_LENGTH] == sigs[0].data;
        WalkPairs(bitmap, s, i + 1, sigs[1..]);
        PairingStep(i, Ascending(s, i + 1), sigs);
      }
    }
  }

  ghost function Members(r: seq<int>): set<int> {
    set x | x in r
  }

  ghost predicate NoRepeats(r: seq<int>) {
    forall j, k | 0 <= j < k < |r| :: r[j] != r[k]
  }

  lemma NoRepeatsStep(r: seq<int>)
    requires r != []
    ensures NoRepeats(r) <==> r[0] !in r[1..] && NoRepeats(r[1..])
  {
    if NoRepeats(r) {
      forall k | 0 <= k < |r| - 1 ensures r[1..][k] != r[0] {}
      forall j, k | 0 <= j < k < |r| - 1 ensures r[1..][j] != r[1..][k] {
        assert r[j + 1] != r[k + 1];
      }
    }
    if r[0] !in r[1..] && NoRepeats(r[1..]) {
      forall j, k | 0 <= j < k < |r| ensures r[j] != r[k] {
        assert r[k] == r[1..][k - 1];
        if j > 0 {
          assert r[j] == r[1..][j - 1];
        }
      }
    }
  }

  /** A list has as many members as entries exactly when none repeats. */
  lemma {:induction false} MemberCount(r: seq<int>)
    ensures |Members(r)| <= |r|
    ensures |Members(r)| == |r| <==> NoRepeats(r)
  {
    if r == [] {
      assert Members(r) == {};
    } else {
      MemberCount(r[1..]);
      NoRepeatsStep(r);
      assert Members(r) == Members(r[1..]) + {r[0]};
    }
  }

  ghost function IndexList(sigs: seq<IndexedSignature>): (r: seq<int>)
    ensures |r| == |sigs| && forall j | 0 <= j < |sigs| :: r[j] == sigs[j].index
  {
    seq(|sigs|, j requires 0 <= j < |sigs| => sigs[j].index)
  }

  lemma AscendingMembers(s: set<int>)
    requires forall x | x in s :: 0 <= x < SIGNERS
    ensures Members(Ascending(s, 0)) == s
  {
  }

  lemma IndexListMembers(sigs: seq<IndexedSignature>)
    ensures Members(IndexList(sigs)) == Indices(sigs)
  {
    var r := IndexList(sigs);
    forall x | x in Indices(sigs) ensures x in r {
      var j :| 0 <= j < |sigs| && sigs[j].index == x;
      assert r[j] == x;
    }
    forall x | x in r ensures x in Indices(sigs) {
      var j :| 0 <= j < |r| && r[j] == x;
      assert sigs[j].index == x;
    }
  }

  /** The marked signers are as many as the signatures exactly when no index repeats. */
  lemma SignerCount(sigs: seq<IndexedSignature>)
    requires InRange(sigs)
    ensures |Ascending(Indices(sigs), 0)| == |Indices(sigs)| <= |sigs|
    ensures |Indices(sigs)| == |sigs| <==> Distinct(sigs)
  {
    hide Members;
    AscendingMembers(Indices(sigs));
    MemberCount(Ascending(Indices(sigs), 0));
    IndexListMembers(sigs);
    MemberCount(IndexList(sigs));
    assert NoRepeats(IndexList(sigs)) <==> Distinct(sigs);
  }

  /** The bitmap has as many bits set as there are signatures exactly when no index repeats. */
  lemma PopulationCount(sigs: seq<IndexedSignature>, bytes: Bytes)
    requires InRange(sigs) && IsWireForm(sigs, bytes)
    ensures var bitmap := bytes[|bytes| - BITMAP_NUM_OF_BYTES..];
            var marked := set i | 0 <= i < SIGNERS && Present(bitmap, i);
            |marked| <= |sigs| && (|marked| == |sigs| <==> Distinct(sigs))
  {
    hide Present, Chunks;
    SignerCount(sigs);
    var bitmap := bytes[|bytes| - BITMAP_NUM_OF_BYTES..];
    assert (set i | 0 <= i < SIGNERS && Present(bitmap, i)) == Indices(sigs);
  }

  /**
   What the reader makes of a wire form. It is refused when an index repeats. Otherwise the listed
   signatures come back in list order, paired with the indices in ascending order.
   */
  lemma ReadBack(sigs: seq<IndexedSignature>, bytes: Bytes)
    requires InRange(sigs) && IsWireForm(sigs, bytes)
    ensures FromCryptoBytes(bytes).Some? <==> Distinct(sigs)
    ensures FromCryptoBytes(bytes) == Pairing(Ascending(Indices(sigs), 0), sigs)
  {
    hide Chunks, Walk, Marks, Paired;
    var s := Indices(sigs);
    WalkPairs(bytes[|bytes| - BITMAP_NUM_OF_BYTES..], s, 0, sigs);
    SignerCount(sigs);
  }

  /** Two strictly ascending lists with the same members are the same list. */
  lemma {:induction false} AscendingUnique(a: seq<int>, b: seq<int>)
    requires forall j, k | 0 <= j < k < |a| :: a[j] < a[k]
    requires forall j, k | 0 <= j < k < |b| :: b[j] < b[k]
    requires Members(a) == Members(b)
    ensures a == b
  {
    MemberCount(a);
    MemberCount(b);
    if a != [] {
      assert a[0] in Members(a) && b[0] in Members(b);
      assert a[0] == b[0];
      assert Members(a[1..]) == Members(a) - {a[0]};
      assert Members(b[1..]) == Members(b) - {b[0]};
      AscendingUnique(a[1..], b[1..]);
      assert a == [a[0]] + a[1..] && b == [b[0]] + b[1..];
    }
  }

  /**
   The round trip: reading a wire form gives back the very list it was made from exactly when the
   signer indices are strictly ascending.
   */
  lemma RoundTripIffAscending(sigs: seq<IndexedSignature>, bytes: Bytes)
    requires InRange(sigs) && IsWireForm(sigs, bytes)
    ensures FromCryptoBytes(bytes) == Some(sigs) <==> StrictlyAscending(sigs)
  {
    hide FromCryptoBytes, IsWireForm;
    ReadBack(sigs, bytes);
    var s := Indices(sigs);
    var sorted := Ascending(s, 0);
    if StrictlyAscending(sigs) {
      var indices := IndexList(sigs);
      AscendingMembers(s);
      IndexListMembers(sigs);
      AscendingUnique(indices, sorted);
      assert Paired(sorted, sigs) == sigs;
    }
    if FromCryptoBytes(bytes) == Some(sigs) {
      forall j, k | 0 <= j < k < |sigs| ensures sigs[j].index < sigs[k].index {
        assert Paired(sorted, sigs)[j].index == sorted[j] && Paired(sorted, sigs)[k].index == sorted[k];
      }
    }
  }

  // ---------------------------------------------------------------- the other direction

  /** What a walk accepts has the chunks it read and exactly the marked signers from `i` on. */
  lemma {:induction false} WalkSound(bitmap: Bytes, i: nat, chunks: Bytes)
    requires |bitmap| == BITMAP_NUM_OF_BYTES && i <= SIGNERS && Walk(bitmap, i, chunks).Some?
    ensures var sigs := Walk(bitmap, i, chunks).value;
            Chunks(sigs) == chunks && StrictlyAscending(sigs)
            && (forall j | 0 <= j < |sigs| :: i <= sigs[j].index < SIGNERS && Present(bitmap, sigs[j].index))
            && (forall x: nat | i <= x < SIGNERS && Present(bitmap, x) :: x in Indices(sigs))
    decreases SIGNERS - i
  {
    hide Present, Chunks;
    var sigs := Walk(bitmap, i, chunks).value;
    ChunksFront(sigs);
    if i == SIGNERS {
    } else if !Present(bitmap, i) {
      WalkSound(bitmap, i + 1, chunks);
    } else {
      var later := Walk(bitmap, i + 1, chunks[SIGNATURE_LENGTH..]).value;
      WalkSound(bitmap, i + 1, chunks[SIGNATURE_LENGTH..]);
      assert sigs[1..] == later && sigs[0].index == i;
      forall x: nat | i <= x < SIGNERS && Present(bitmap, x) ensures x in Indices(sigs) {
        if x > i {
          var j :| 0 <= j < |later| && later[j].index == x;
          assert sigs[j + 1].index == x;
        } else {
          assert sigs[0].index == x;
        }
      }
    }
  }

  /** Every byte string the reader accepts is the wire form of the list it reads. */
  lemma ReadThenWrite(bytes: Bytes)
    requires FromCryptoBytes(bytes).Some?
    ensures var sigs := FromCryptoBytes(bytes).value;
            InRange(sigs) && StrictlyAscending(sigs) && IsWireForm(sigs, bytes)
  {
    hide Present, Chunks, Walk;
    var n := |bytes| - BITMAP_NUM_OF_BYTES;
    var sigs := FromCryptoBytes(bytes).value;
    WalkSound(bytes[n..], 0, bytes[..n]);
    ChunksFront(sigs);
    forall i: nat | i < SIGNERS ensures Present(bytes[n..], i) <==> i in Indices(sigs) {}
  }
}
