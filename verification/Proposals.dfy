/** Proposing a multisig transaction by its hash, and executing it later. */
module Proposals {
  import opened Wrappers
  import opened Bcs
  import opened Streams
  import opened Payload
  import opened PayloadLaws

  /** The bytes hashed when an entry function is proposed. */
  function ProposedBytes(f: EntryFunction): Bytes {
    EncodeInner(MultiSigTransactionPayload(f))
  }

  method ComputeMultisigTxPayloadHash(sha3: Bytes -> Bytes, f: EntryFunction) returns (r: Option<Bytes>)
    ensures r == if f.Encodable() then Some(sha3(ProposedBytes(f))) else None
  {
    hide EncodeInner, EntryFunction.Encodable;
    var payload := MultiSigTransactionPayload(f);
    var s := new Serializer();
    var ok := payload.Serialize(s);
    if ok.Raised? {
      return None;
    }
    assert [] + ProposedBytes(f) == ProposedBytes(f);
    return Some(sha3(s.output));
  }

  /** The payload an owner submits to execute `f` from the multisig account. */
  function CreateMultisig(multisigAddr: Address, f: EntryFunction): Multisig {
    Multisig(multisigAddr, Some(MultiSigTransactionPayload(f)))
  }

  /**
   The executed payload is its tag, the multisig address, a set option flag and then exactly the
   bytes that were hashed when the same entry function was proposed.
   */
  lemma ExecutedPayloadEndsInProposedBytes(multisigAddr: Address, f: EntryFunction)
    requires f.Encodable()
    ensures EncodePayload(MultisigPayload(CreateMultisig(multisigAddr, f)))
            == [MULTISIG] + multisigAddr + [1] + ProposedBytes(f)
  {
    hide EncodeInner, EntryFunction.Encodable;
    assert EncodeUleb(MULTISIG) == [MULTISIG];
  }

  lemma ProposedBytesInjective(f: EntryFunction, g: EntryFunction)
    requires f.Encodable() && g.Encodable()
    ensures ProposedBytes(f) == ProposedBytes(g) <==> f == g
  {
    hide EncodeInner, DecodeInner, EntryFunction.Encodable;
    InnerRoundTrip(true, MultiSigTransactionPayload(f), []);
    InnerRoundTrip(true, MultiSigTransactionPayload(g), []);
  }

  /** What the chain hashes at execution: the serialized executed payload past tag, address and flag. */
  function ExecutedBytes(multisigAddr: Address, g: EntryFunction): Bytes
    requires g.Encodable()
  {
    ExecutedPayloadEndsInProposedBytes(multisigAddr, g);
    EncodePayload(MultisigPayload(CreateMultisig(multisigAddr, g)))[ADDRESS_LENGTH + 2..]
  }

  /**
   Executing `g` from any address matches the hash `f` was proposed under exactly when `g` is `f`,
   unless the two byte strings are a collision of the hash.
   */
  lemma ExecutionMatchesProposal(sha3: Bytes -> Bytes, multisigAddr: Address, f: EntryFunction, g: EntryFunction)
    requires f.Encodable() && g.Encodable()
    requires sha3(ProposedBytes(f)) == sha3(ProposedBytes(g)) ==> ProposedBytes(f) == ProposedBytes(g)
    ensures sha3(ExecutedBytes(multisigAddr, g)) == sha3(ProposedBytes(f)) <==> f == g
  {
    hide EncodePayload, ProposedBytes, EntryFunction.Encodable;
    ExecutedPayloadEndsInProposedBytes(multisigAddr, g);
    assert ([MULTISIG] + multisigAddr + [1] + ProposedBytes(g))[ADDRESS_LENGTH + 2..] == ProposedBytes(g);
    ProposedBytesInjective(f, g);
  }

  // ---------------------------------------------------------------- the multisig account's address

  const SEED_PREFIX: string := "supra_framework::multisig_account"

  function MultisigAccountSeed(sequenceNumber: nat): Bytes {
    Ascii(SEED_PREFIX) + LittleEndian(8, sequenceNumber)
  }

  /** `derive` is the SDK's resource account derivation. */
  method ComputeMultisigAccountAddr(derive: (Address, Bytes) -> Address, owner: Address, sequenceNumber: int)
    returns (r: Option<Address>)
    ensures r == if 0 <= sequenceNumber <= MAX_U64
                 then Some(derive(owner, MultisigAccountSeed(sequenceNumber))) else None
  {
    FitsU64(sequenceNumber);
    var s := new Serializer();
    var ok := s.UInt(8, sequenceNumber);
    if ok.Raised? {
      return None;
    }
    assert [] + LittleEndian(8, sequenceNumber) == LittleEndian(8, sequenceNumber);
    return Some(derive(owner, Ascii(SEED_PREFIX) + s.output));
  }

  /**
   Every account creation of every owner gets an address of its own, if `derive` keeps apart owners
   and seeds.
   */
  lemma MultisigAccountAddrInjective(
      derive: (Address, Bytes) -> Address, owner: Address, n: nat, otherOwner: Address, m: nat)
    requires n <= MAX_U64 && m <= MAX_U64
    requires derive(owner, MultisigAccountSeed(n)) == derive(otherOwner, MultisigAccountSeed(m))
             ==> owner == otherOwner && MultisigAccountSeed(n) == MultisigAccountSeed(m)
    ensures derive(owner, MultisigAccountSeed(n)) == derive(otherOwner, MultisigAccountSeed(m))
            <==> owner == otherOwner && n == m
  {
    hide LittleEndian, Pow256;
    FitsU64(n);
    FitsU64(m);
    var k := |SEED_PREFIX|;
    assert MultisigAccountSeed(n)[k..] == LittleEndian(8, n);
    assert MultisigAccountSeed(m)[k..] == LittleEndian(8, m);
    LittleEndianRoundTrip(8, n);
    LittleEndianRoundTrip(8, m);
  }
}
