/**
 The bytes and names that leave the client, spelled out with the constants a receiver expects. Where
 the other laws compare a writer with its own reader, these say where each thing lies.
 */
module WireForms {
  import opened Wrappers
  import opened Bcs
  import TypeTags
  import Payload
  import Arguments
  import Builders
  import Proposals

  // ---------------------------------------------------------------- entry functions the scripts build

  /** `f` calls `name` in the framework's module `moduleName`, with these arguments and no type arguments. */
  ghost predicate Calls(f: Option<Payload.EntryFunction>, moduleName: Text, name: Text, args: seq<Bytes>) {
    f.Some? && f.value == Payload.EntryFunction(Payload.ModuleId(Builders.Framework(), moduleName), name, [], args)
  }

  /** The encoder takes the argument and turns it into these bytes. */
  ghost predicate Yields(e: Arguments.Encoder, a: Arguments.Arg, bytes: Bytes) {
    Arguments.Accepts(e, a) && Arguments.EncodeArg(e, a) == bytes
  }

  lemma Built(m: Text, name: Text, args: seq<Arguments.Arg>, encoders: seq<Arguments.Encoder>, bytes: seq<Bytes>)
    requires |bytes| == |args| == |encoders|
    requires forall i | 0 <= i < |args| :: Yields(encoders[i], args[i], bytes[i])
    ensures Calls(Builders.CreateEntryFunc(m, name, args, encoders), m, name, bytes)
  {
    hide Arguments.EncodeArg, Arguments.Accepts;
    assert Builders.AcceptsAll(encoders, args);
    var f := Builders.CreateEntryFunc(m, name, args, encoders).value;
    assert f.args == bytes;
  }

  lemma Number(n: int)
    requires 0 <= n <= MAX_U64
    ensures Yields(Arguments.U64, Arguments.Number(n), LittleEndian(8, n))
  {
  }

  lemma Account(a: Address)
    ensures Yields(Arguments.Struct, Arguments.Account(a), a)
  {
  }

  lemma Blob(b: Bytes)
    requires |b| <= MAX_U32
    ensures Yields(Arguments.ToBytes, Arguments.Blob(b), EncodeUleb(|b|) + b)
  {
  }

  lemma Flag(b: bool)
    ensures Yields(Arguments.Bool, Arguments.Flag(b), if b then [1] else [0])
  {
  }

  lemma VoteArguments(account: Address, n: int, approved: bool)
    requires 0 <= n <= MAX_U64
    ensures Calls(Builders.VoteMultisigTx(account, n, approved), Builders.MultisigModule(), Builders.VoteName(),
                  [account, LittleEndian(8, n), if approved then [1] else [0]])
  {
    hide LittleEndian, Calls, Yields, Builders.CreateEntryFunc, Builders.MultisigModule, Builders.VoteName;
    Account(account);
    Number(n);
    Flag(approved);
    Built(Builders.MultisigModule(), Builders.VoteName(),
      [Arguments.Account(account), Arguments.Number(n), Arguments.Flag(approved)],
      [Arguments.Struct, Arguments.U64, Arguments.Bool], [account, LittleEndian(8, n), if approved then [1] else [0]]);
  }

  /** A vote: the account, the sequence number, and 1 exactly when it approves. */
  lemma VoteWireForm(account: Address, n: int, approved: bool)
    requires 0 <= n <= MAX_U64
    ensures Calls(Builders.VoteMultisigTx(account, n, approved), Ascii("multisig_account"), Ascii("vote_transanction"),
                  [account, LittleEndian(8, n), if approved then [1] else [0]])
  {
    hide Ascii, Calls, Builders.VoteMultisigTx, LittleEndian;
    VoteArguments(account, n, approved);
  }

  /** A transfer: the recipient and the amount. */
  lemma TransferCall(recipient: Address, amount: int)
    requires 0 <= amount <= MAX_U64
    ensures Calls(Builders.TransferSupra(recipient, amount), Ascii("supra_account"), Ascii("transfer"),
                  [recipient, LittleEndian(8, amount)])
  {
    hide LittleEndian, Ascii, Calls, Yields, Builders.CreateEntryFunc;
    Account(recipient);
    Number(amount);
    Built(Builders.SupraModule(), Builders.TransferName(), [Arguments.Account(recipient), Arguments.Number(amount)],
      [Arguments.Struct, Arguments.U64], [recipient, LittleEndian(8, amount)]);
  }

  /** A proposal: the account, and the hash with its length in front. */
  lemma ProposalWireForm(account: Address, hash: Bytes)
    requires |hash| <= MAX_U32
    ensures Calls(Builders.ProposeMultisigTx(account, hash), Ascii("multisig_account"),
                  Ascii("create_transaction_with_hash"), [account, EncodeUleb(|hash|) + hash])
  {
    hide EncodeUleb, Ascii, Calls, Yields, Builders.CreateEntryFunc;
    Account(account);
    Blob(hash);
    Built(Builders.MultisigModule(), Builders.ProposeName(), [Arguments.Account(account), Arguments.Blob(hash)],
      [Arguments.Struct, Arguments.ToBytes], [account, EncodeUleb(|hash|) + hash]);
  }

  /** A removal: the account. */
  lemma RemovalWireForm(account: Address)
    ensures Calls(Builders.RemoveMultisigTx(account), Ascii("multisig_account"), Ascii("execute_rejected_transaction"), [account])
  {
    hide Ascii, Calls, Yields, Builders.CreateEntryFunc;
    Account(account);
    Built(Builders.MultisigModule(), Builders.RemoveName(), [Arguments.Account(account)], [Arguments.Struct], [account]);
  }

  /** The addresses one after another. */
  function Joined(xs: seq<Address>): Bytes {
    if xs == [] then [] else xs[0] + Joined(xs[1..])
  }

  lemma {:induction false} AccountsEncoded(xs: seq<Address>)
    ensures (forall i | 0 <= i < |xs| :: Arguments.Accepts(Arguments.Struct, Builders.Accounts(xs).items[i]))
    ensures Arguments.EncodeElements(Arguments.Struct, Builders.Accounts(xs).items) == Joined(xs)
  {
    if xs != [] {
      AccountsEncoded(xs[1..]);
      assert Builders.Accounts(xs).items[1..] == Builders.Accounts(xs[1..]).items;
    }
  }

  lemma {:induction false} TextsEncoded(xs: seq<Text>)
    requires forall i | 0 <= i < |xs| :: |xs[i]| <= MAX_U32
    ensures (forall i | 0 <= i < |xs| :: Arguments.Accepts(Arguments.Str, Builders.Texts(xs).items[i]))
    ensures Arguments.EncodeElements(Arguments.Str, Builders.Texts(xs).items) == Payload.EncodeItems(xs)
  {
    hide EncodeBytes;
    if xs != [] {
      TextsEncoded(xs[1..]);
      assert Builders.Texts(xs).items[1..] == Builders.Texts(xs[1..]).items;
    }
  }

  lemma {:induction false} BlobsEncoded(xs: seq<Bytes>)
    requires forall i | 0 <= i < |xs| :: |xs[i]| <= MAX_U32
    ensures (forall i | 0 <= i < |xs| :: Arguments.Accepts(Arguments.ToBytes, Builders.Blobs(xs).items[i]))
    ensures Arguments.EncodeElements(Arguments.ToBytes, Builders.Blobs(xs).items) == Payload.EncodeItems(xs)
  {
    hide EncodeBytes;
    if xs != [] {
      BlobsEncoded(xs[1..]);
      assert Builders.Blobs(xs).items[1..] == Builders.Blobs(xs[1..]).items;
    }
  }

  lemma ListsEncoded(owners: seq<Address>, keys: seq<Text>, values: seq<Bytes>)
    requires |owners| <= MAX_U32 && |keys| <= MAX_U32 && |values| <= MAX_U32
    requires forall i | 0 <= i < |keys| :: |keys[i]| <= MAX_U32
    requires forall i | 0 <= i < |values| :: |values[i]| <= MAX_U32
    ensures Yields(Arguments.Sequence(Arguments.Struct), Builders.Accounts(owners), EncodeUleb(|owners|) + Joined(owners))
    ensures Yields(Arguments.Sequence(Arguments.Str), Builders.Texts(keys), Payload.EncodeByteStrings(keys))
    ensures Yields(Arguments.Sequence(Arguments.ToBytes), Builders.Blobs(values), Payload.EncodeByteStrings(values))
  {
    hide EncodeUleb, Payload.EncodeItems, Joined, Arguments.EncodeElements;
    Builders.ListsAccepted(owners, keys, values);
    AccountsEncoded(owners);
    TextsEncoded(keys);
    BlobsEncoded(values);
  }

  lemma CreationArguments(owners: seq<Address>, required: int, keys: seq<Text>, values: seq<Bytes>, timeout: int)
    requires 0 <= required <= MAX_U64 && 0 <= timeout <= MAX_U64
    requires |owners| <= MAX_U32 && |keys| <= MAX_U32 && |values| <= MAX_U32
    requires forall i | 0 <= i < |keys| :: |keys[i]| <= MAX_U32
    requires forall i | 0 <= i < |values| :: |values[i]| <= MAX_U32
    ensures Calls(Builders.CreateMultisigAccount(owners, required, keys, values, timeout),
                  Builders.MultisigModule(), Builders.CreateName(),
                  [EncodeUleb(|owners|) + Joined(owners), LittleEndian(8, required),
                   Payload.EncodeByteStrings(keys), Payload.EncodeByteStrings(values), LittleEndian(8, timeout)])
  {
    hide LittleEndian, Calls, EncodeUleb, Joined, Payload.EncodeByteStrings, Yields, Builders.CreateEntryFunc;
    hide Builders.Accounts, Builders.Texts, Builders.Blobs, Builders.MultisigModule, Builders.CreateName;
    ListsEncoded(owners, keys, values);
    Number(required);
    Number(timeout);
    Built(Builders.MultisigModule(), Builders.CreateName(),
      [Builders.Accounts(owners), Arguments.Number(required), Builders.Texts(keys), Builders.Blobs(values), Arguments.Number(timeout)],
      [Arguments.Sequence(Arguments.Struct), Arguments.U64, Arguments.Sequence(Arguments.Str),
       Arguments.Sequence(Arguments.ToBytes), Arguments.U64],
      [EncodeUleb(|owners|) + Joined(owners), LittleEndian(8, required),
       Payload.EncodeByteStrings(keys), Payload.EncodeByteStrings(values), LittleEndian(8, timeout)]);
  }

  /**
   Account creation: the owners with their count in front, the signatures required, the metadata keys
   and then the values as lists of byte strings, and the timeout last. The numbers and lengths are
   those for which the builder does not raise (`Builders.CreationSucceeds`).
   */
  lemma CreationWireForm(owners: seq<Address>, required: int, keys: seq<Text>, values: seq<Bytes>, timeout: int)
    requires 0 <= required <= MAX_U64 && 0 <= timeout <= MAX_U64
    requires |owners| <= MAX_U32 && |keys| <= MAX_U32 && |values| <= MAX_U32
    requires forall i | 0 <= i < |keys| :: |keys[i]| <= MAX_U32
    requires forall i | 0 <= i < |values| :: |values[i]| <= MAX_U32
    ensures Calls(Builders.CreateMultisigAccount(owners, required, keys, values, timeout),
                  Ascii("multisig_account"), Ascii("create_with_owners"),
                  [EncodeUleb(|owners|) + Joined(owners), LittleEndian(8, required),
                   Payload.EncodeByteStrings(keys), Payload.EncodeByteStrings(values), LittleEndian(8, timeout)])
  {
    hide Ascii, Calls, Builders.CreateMultisigAccount, LittleEndian, EncodeUleb, Joined, Payload.EncodeByteStrings;
    CreationArguments(owners, required, keys, values, timeout);
  }

  // ---------------------------------------------------------------- proposals and multisig accounts

  /** A proposed entry function is hashed behind the byte 0. */
  lemma ProposedWireForm(f: Payload.EntryFunction)
    ensures Proposals.ProposedBytes(f) == [0] + Payload.EncodeEntry(f)
  {
    hide Payload.EncodeEntry;
  }

  /** The seed of a multisig account: the text first, then eight bytes that hold the sequence number. */
  lemma SeedWireForm(n: nat)
    requires n <= MAX_U64
    ensures var seed := Proposals.MultisigAccountSeed(n);
            |seed| == 41 && seed[..33] == Ascii("supra_framework::multisig_account") && FromLittleEndian(seed[33..]) == n
  {
    hide LittleEndian, FromLittleEndian, Pow256;
    FitsU64(n);
    LittleEndianRoundTrip(8, n);
    var text := Ascii("supra_framework::multisig_account");
    assert |"supra_framework::multisig_account"| == 33;
    assert Proposals.MultisigAccountSeed(n)[33..] == LittleEndian(8, n);
  }

  // ---------------------------------------------------------------- payloads, type tags, script arguments

  /** The first byte of each payload. */
  lemma PayloadTag(p: Payload.TransactionPayload)
    requires p.Encodable()
    ensures Payload.EncodePayload(p)[0]
            == match p case ScriptPayload(_) => 0 case EntryPayload(_) => 2 case MultisigPayload(_) => 3
  {
    hide Payload.EncodePayloadBody, Payload.TransactionPayload.Encodable;
    assert EncodeUleb(p.Variant()) == [p.Variant()];
  }

  /** A multisig payload: tag, address, and a flag that is 0 and ends the payload, or 1 and the inner payload. */
  lemma MultisigWireForm(m: Payload.Multisig)
    requires m.Encodable()
    ensures Payload.EncodePayload(Payload.MultisigPayload(m))
            == match m.payload
               case None => [3] + m.address + [0]
               case Some(inner) => [3] + m.address + [1] + ([0] + Payload.EncodeEntry(inner.entry))
  {
    hide Payload.EncodeEntry, Payload.EntryFunction.Encodable;
    assert EncodeUleb(3) == [3] && EncodeUleb(0) == [0];
  }

  /** Every type tag's number; a vector is followed by its element, a struct by its four parts in order. */
  lemma TypeTagWireForm(t: TypeTags.TypeTag)
    ensures TypeTags.Encode(t)
            == match t
               case Bool => [0]
               case U8 => [1]
               case U64 => [2]
               case U128 => [3]
               case Address => [4]
               case Signer => [5]
               case Vector(elem) => [6] + TypeTags.Encode(elem)
               case Struct(a, moduleName, name, typeArgs) =>
                 [7] + a + EncodeBytes(moduleName) + EncodeBytes(name) + TypeTags.EncodeSeq(typeArgs)
               case U16 => [8]
               case U32 => [9]
               case U256 => [10]
  {
    hide EncodeBytes, TypeTags.EncodeSeq;
    assert EncodeUleb(t.Variant()) == [t.Variant()];
    assert TypeTags.Encode(t) == [t.Variant()] + TypeTags.Body(t);
  }

  /** Every script argument's number and width. */
  lemma ScriptArgumentWireForm(a: Payload.ScriptArgument)
    requires a.Encodable()
    ensures Payload.EncodeScriptArgument(a)
            == match a
               case Int(kind, v) =>
                 (match kind
                  case U8 => [0] + LittleEndian(1, v)
                  case U64 => [1] + LittleEndian(8, v)
                  case U128 => [2] + LittleEndian(16, v)
                  case U16 => [6] + LittleEndian(2, v)
                  case U32 => [7] + LittleEndian(4, v)
                  case U256 => [8] + LittleEndian(32, v))
               case AddressArg(address) => [3] + address
               case U8Vector(bytes) => [4] + (EncodeUleb(|bytes|) + bytes)
               case BoolArg(flag) => [5] + if flag then [1] else [0]
  {
    hide LittleEndian, EncodeUleb, Pow256;
  }

  /** A script payload: tag, code, type arguments, arguments. */
  lemma ScriptWireForm(code: Bytes, a: Payload.ScriptArgument)
    requires |code| < 0x80 && a.Encodable()
    ensures var p := Payload.ScriptPayload(Payload.Script(code, [], [a]));
            p.Encodable() &&
            Payload.EncodePayload(p) == [0] + ([|code|] + code) + [0] + ([1] + Payload.EncodeScriptArgument(a))
  {
    hide Payload.EncodeScriptArgument, Payload.ScriptArgument.Encodable;
    assert [a][1..] == [];
    assert Payload.EncodeScriptItems([a]) == Payload.EncodeScriptArgument(a) + [];
    assert Payload.EncodeScriptArguments([a]) == [1] + Payload.EncodeScriptArgument(a);
    assert TypeTags.EncodeSeq([]) == [0];
    assert EncodeBytes(code) == [|code|] + code;
  }
}
