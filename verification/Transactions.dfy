/** Raw transactions: the bytes that are signed, and what a signature over them commits to. */
module Transactions {
  import opened Wrappers
  import opened Bcs
  import opened Streams
  import opened Payload
  import opened PayloadLaws

  datatype RawTransaction = RawTransaction(
    sender: Address,
    sequenceNumber: int,
    payload: TransactionPayload,
    maxGasAmount: int,
    gasUnitPrice: int,
    expirationTimestampsSecs: int,
    chainId: int)
  {
    predicate Encodable() {
      Fits(8, sequenceNumber) && payload.Encodable() && Fits(8, maxGasAmount) && Fits(8, gasUnitPrice) &&
      Fits(8, expirationTimestampsSecs) && Fits(1, chainId)
    }

    method Serialize(s: Serializer) returns (r: Outcome)
      modifies s
      ensures r.Pass? <==> Encodable()
      ensures r.Pass? ==> s.output == old(s.output) + EncodeRaw(this)
    {
      hide Pow256, LittleEndian, EncodePayload, TransactionPayload.Encodable;
      ghost var before := s.output;
      s.FixedBytes(sender);
      :- s.UInt(8, sequenceNumber);
      :- payload.Serialize(s);
      :- s.UInt(8, maxGasAmount);
      :- s.UInt(8, gasUnitPrice);
      :- s.UInt(8, expirationTimestampsSecs);
      r := s.UInt(1, chainId);
      if r.Pass? {
        assert s.output == before + sender + LittleEndian(8, sequenceNumber) + EncodePayload(payload)
                           + LittleEndian(8, maxGasAmount) + LittleEndian(8, gasUnitPrice)
                           + LittleEndian(8, expirationTimestampsSecs) + LittleEndian(1, chainId);
      }
    }
  }

  function EncodeRaw(t: RawTransaction): Bytes
    requires t.Encodable()
  {
    t.sender + (LittleEndian(8, t.sequenceNumber) + (EncodePayload(t.payload)
    + (LittleEndian(8, t.maxGasAmount) + (LittleEndian(8, t.gasUnitPrice)
    + (LittleEndian(8, t.expirationTimestampsSecs) + LittleEndian(1, t.chainId))))))
  }

  /** The reader of a raw transaction that the layout calls for. */
  function DecodeRaw(input: Bytes): Parsed<RawTransaction> {
    var (sender, i1) :- DecodeAddress(input);
    var (sequenceNumber, i2) :- DecodeInt(8, i1);
    var (payload, i3) :- DecodePayload(false, i2);
    var (maxGasAmount, i4) :- DecodeInt(8, i3);
    var (gasUnitPrice, i5) :- DecodeInt(8, i4);
    var (expiration, i6) :- DecodeInt(8, i5);
    var (chainId, rest) :- DecodeInt(1, i6);
    Read(RawTransaction(sender, sequenceNumber, payload, maxGasAmount, gasUnitPrice, expiration, chainId), rest)
  }

  /**
   The transaction a caller asks for. `now` is the clock and `networkChainId` what the node reports;
   the latter is used when no chain id, or the chain id 0, is given.
   */
  function CreateRawTx(
      sender: Address, sequenceNumber: int, payload: TransactionPayload,
      maxGas: int, gasUnitPrice: int, expiryTimespan: int, chainId: Option<int>,
      now: int, networkChainId: int): RawTransaction
  {
    var chain := if chainId.Some? && chainId.value != 0 then chainId.value else networkChainId;
    RawTransaction(sender, sequenceNumber, payload, maxGas, gasUnitPrice, now + expiryTimespan, chain)
  }

  lemma RawRoundTrip(t: RawTransaction, tail: Bytes)
    requires t.Encodable()
    ensures DecodeRaw(EncodeRaw(t) + tail) == Read(t, tail)
  {
    hide Pow256, LittleEndian, DecodeInt, EncodePayload, DecodePayload, TransactionPayload.Encodable;
    var i6 := LittleEndian(1, t.chainId) + tail;
    var i5 := LittleEndian(8, t.expirationTimestampsSecs) + i6;
    var i4 := LittleEndian(8, t.gasUnitPrice) + i5;
    var i3 := LittleEndian(8, t.maxGasAmount) + i4;
    var i2 := EncodePayload(t.payload) + i3;
    var i1 := LittleEndian(8, t.sequenceNumber) + i2;
    assert EncodeRaw(t) + tail == t.sender + i1;
    FixedRoundTrip(t.sender, i1);
    IntRoundTrip(8, t.sequenceNumber, i2);
    PayloadRoundTrip(false, t.payload, i3);
    IntRoundTrip(8, t.maxGasAmount, i4);
    IntRoundTrip(8, t.gasUnitPrice, i5);
    IntRoundTrip(8, t.expirationTimestampsSecs, i6);
    IntRoundTrip(1, t.chainId, tail);
  }

  /** The chain a request means: the given one, unless none or 0 is given. */
  function RequestedChain(chainId: Option<int>, networkChainId: int): int {
    match chainId
    case None => networkChainId
    case Some(c) => if c == 0 then networkChainId else c
  }

  /** Where each field of a raw transaction lies, counting from the front and from the back. */
  lemma RawWireForm(t: RawTransaction)
    requires t.Encodable()
    ensures var bytes := EncodeRaw(t);
            var end := |bytes|;
            end >= 65 && bytes[..32] == t.sender && FromLittleEndian(bytes[32..40]) == t.sequenceNumber
            && bytes[40..end - 25] == EncodePayload(t.payload)
            && FromLittleEndian(bytes[end - 25..end - 17]) == t.maxGasAmount
            && FromLittleEndian(bytes[end - 17..end - 9]) == t.gasUnitPrice
            && FromLittleEndian(bytes[end - 9..end - 1]) == t.expirationTimestampsSecs
            && bytes[end - 1] == t.chainId
  {
    hide Pow256, LittleEndian, FromLittleEndian, EncodePayload, TransactionPayload.Encodable;
    LittleEndianRoundTrip(8, t.sequenceNumber);
    LittleEndianRoundTrip(8, t.maxGasAmount);
    LittleEndianRoundTrip(8, t.gasUnitPrice);
    LittleEndianRoundTrip(8, t.expirationTimestampsSecs);
    OneByte(t.chainId);
    var a, p, m, g, x := LittleEndian(8, t.sequenceNumber), EncodePayload(t.payload), LittleEndian(8, t.maxGasAmount),
                         LittleEndian(8, t.gasUnitPrice), LittleEndian(8, t.expirationTimestampsSecs);
    Slices(t.sender, a, p, m, g, x, [t.chainId]);
  }

  lemma OneByte(v: int)
    requires Fits(1, v)
    ensures 0 <= v < 0x100 && LittleEndian(1, v) == [v]
  {
    assert Pow256(1) == 0x100;
  }

  lemma Slices(s: Bytes, a: Bytes, p: Bytes, m: Bytes, g: Bytes, x: Bytes, c: Bytes)
    requires |s| == 32 && |a| == |m| == |g| == |x| == 8 && |c| == 1
    ensures var bytes := s + (a + (p + (m + (g + (x + c)))));
            var end := |bytes|;
            end >= 65 && bytes[..32] == s && bytes[32..40] == a && bytes[40..end - 25] == p
            && bytes[end - 25..end - 17] == m && bytes[end - 17..end - 9] == g && bytes[end - 9..end - 1] == x
            && bytes[end - 1] == c[0]
  {
  }

  /** What a request puts into the bytes that are signed after the prehash. */
  lemma RequestBytes(
      sender: Address, n: int, payload: TransactionPayload, maxGas: int, gasPrice: int, span: int,
      chain: Option<int>, now: int, networkChainId: int)
    requires CreateRawTx(sender, n, payload, maxGas, gasPrice, span, chain, now, networkChainId).Encodable()
    ensures payload.Encodable()
    ensures var bytes := EncodeRaw(CreateRawTx(sender, n, payload, maxGas, gasPrice, span, chain, now, networkChainId));
            var end := |bytes|;
            end >= 65 && bytes[..32] == sender && FromLittleEndian(bytes[32..40]) == n
            && bytes[40..end - 25] == EncodePayload(payload)
            && FromLittleEndian(bytes[end - 25..end - 17]) == maxGas
            && FromLittleEndian(bytes[end - 17..end - 9]) == gasPrice
            && FromLittleEndian(bytes[end - 9..end - 1]) == now + span
            && bytes[end - 1] == RequestedChain(chain, networkChainId)
  {
    hide EncodeRaw, EncodePayload, FromLittleEndian;
    RawWireForm(CreateRawTx(sender, n, payload, maxGas, gasPrice, span, chain, now, networkChainId));
  }

  // ---------------------------------------------------------------- the signing message

  datatype SignedKind = Single | MultiAgent

  /** What is hashed to keep signatures on the two kinds of transaction apart. */
  function Salt(kind: SignedKind): Bytes {
    match kind
    case Single => Ascii("SUPRA::RawTransaction")
    case MultiAgent => Ascii("SUPRA::RawTransactionWithData")
  }

  function SupraPrehash(sha3: Bytes -> Bytes, kind: SignedKind): Bytes {
    sha3(Salt(kind))
  }

  /** The bytes an account signs for a raw transaction. */
  function SigningMessage(sha3: Bytes -> Bytes, t: RawTransaction): Bytes
    requires t.Encodable()
  {
    SupraPrehash(sha3, Single) + EncodeRaw(t)
  }

  /**
   The message starts with the hash of the single-signer salt, and the rest reads back as the
   transaction with nothing left over.
   */
  method Keyed(sha3: Bytes -> Bytes, t: RawTransaction) returns (r: Option<Bytes>)
    ensures r == if t.Encodable() then Some(SigningMessage(sha3, t)) else None
    ensures r.Some? ==> var prefix := sha3(Ascii("SUPRA::RawTransaction"));
                        prefix <= r.value && DecodeRaw(r.value[|prefix|..]) == Read(t, [])
  {
    hide EncodeRaw, DecodeRaw, RawTransaction.Encodable;
    var s := new Serializer();
    var ok := t.Serialize(s);
    if ok.Raised? {
      return None;
    }
    assert [] + EncodeRaw(t) == EncodeRaw(t) == EncodeRaw(t) + [];
    RawRoundTrip(t, []);
    var prefix := SupraPrehash(sha3, Single);
    assert (prefix + EncodeRaw(t))[|prefix|..] == EncodeRaw(t);
    return Some(prefix + s.output);
  }

  /** The other kind hashes the same text followed by `WithData`. */
  lemma MultiAgentPrehash(sha3: Bytes -> Bytes)
    ensures SupraPrehash(sha3, MultiAgent) == sha3(Ascii("SUPRA::RawTransaction") + Ascii("WithData"))
  {
    assert "SUPRA::RawTransactionWithData" == "SUPRA::RawTransaction" + "WithData";
    AsciiConcat("SUPRA::RawTransaction", "WithData");
  }

  /** A signature commits to one transaction: equal signing messages come from equal transactions. */
  lemma SigningMessageInjective(sha3: Bytes -> Bytes, t: RawTransaction, u: RawTransaction)
    requires t.Encodable() && u.Encodable()
    ensures SigningMessage(sha3, t) == SigningMessage(sha3, u) <==> t == u
  {
    hide EncodeRaw, DecodeRaw, RawTransaction.Encodable;
    var n := |SupraPrehash(sha3, Single)|;
    assert SigningMessage(sha3, t)[n..] == EncodeRaw(t);
    assert SigningMessage(sha3, u)[n..] == EncodeRaw(u);
    assert EncodeRaw(t) + [] == EncodeRaw(t) && EncodeRaw(u) + [] == EncodeRaw(u);
    RawRoundTrip(t, []);
    RawRoundTrip(u, []);
  }

  /**
   No signing message of a single-signer transaction is also one of a multi-agent transaction,
   whatever bytes the latter signs, as long as the hash has a fixed length and keeps the two salts
   apart.
   */
  lemma SigningMessagesSeparate(sha3: Bytes -> Bytes, t: RawTransaction, multiAgentBytes: Bytes)
    requires t.Encodable()
    ensures |SupraPrehash(sha3, Single)| == |SupraPrehash(sha3, MultiAgent)| &&
            SupraPrehash(sha3, Single) != SupraPrehash(sha3, MultiAgent)
            ==> SigningMessage(sha3, t) != SupraPrehash(sha3, MultiAgent) + multiAgentBytes
  {
    hide EncodeRaw, SupraPrehash, RawTransaction.Encodable;
    var n := |SupraPrehash(sha3, Single)|;
    assert SigningMessage(sha3, t)[..n] == SupraPrehash(sha3, Single);
    if |SupraPrehash(sha3, MultiAgent)| == n {
      assert (SupraPrehash(sha3, MultiAgent) + multiAgentBytes)[..n] == SupraPrehash(sha3, MultiAgent);
    }
  }

  predicate ChainGiven(chainId: Option<int>) {
    chainId.Some? && chainId.value != 0
  }

  /**
   Two requests at the same time that differ at most in time span and chain id are signed alike
   exactly when the spans are equal and the chain ids name the same chain, where no chain id and the
   chain id 0 both name the node's chain.
   */
  lemma RequestsSignedAlike(
      sha3: Bytes -> Bytes, sender: Address, n: int, payload: TransactionPayload, maxGas: int, gasPrice: int,
      now: int, networkChainId: int, span: int, chain: Option<int>, span': int, chain': Option<int>)
    requires CreateRawTx(sender, n, payload, maxGas, gasPrice, span, chain, now, networkChainId).Encodable()
    requires CreateRawTx(sender, n, payload, maxGas, gasPrice, span', chain', now, networkChainId).Encodable()
    ensures SigningMessage(sha3, CreateRawTx(sender, n, payload, maxGas, gasPrice, span, chain, now, networkChainId))
              == SigningMessage(sha3, CreateRawTx(sender, n, payload, maxGas, gasPrice, span', chain', now, networkChainId))
            <==> span == span' &&
                 if ChainGiven(chain) && ChainGiven(chain') then chain == chain'
                 else if ChainGiven(chain) then chain.value == networkChainId
                 else if ChainGiven(chain') then chain'.value == networkChainId
                 else true
  {
    hide SigningMessage, RawTransaction.Encodable;
    var t := CreateRawTx(sender, n, payload, maxGas, gasPrice, span, chain, now, networkChainId);
    var u := CreateRawTx(sender, n, payload, maxGas, gasPrice, span', chain', now, networkChainId);
    if SigningMessage(sha3, t) == SigningMessage(sha3, u) {
      SigningMessageInjective(sha3, t, u);
    }
    assert t == u <==> t.expirationTimestampsSecs == u.expirationTimestampsSecs && t.chainId == u.chainId;
  }
}
