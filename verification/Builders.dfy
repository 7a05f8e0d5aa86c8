/** The entry functions the client scripts build, and why each determines its arguments. */
module Builders {
  import opened Wrappers
  import opened Bcs
  import opened Arguments
  import TypeTags
  import Payload

  /** Address 0x1, the framework account. */
  function Framework(): (a: Address)
    ensures a[ADDRESS_LENGTH - 1] == 1 && forall i | 0 <= i < ADDRESS_LENGTH - 1 :: a[i] == 0
  {
    var zeros: Bytes := seq(ADDRESS_LENGTH - 1, i => 0);
    zeros + [1]
  }

  /** Every argument has an encoder at its position that accepts it; extra encoders do no harm. */
  predicate AcceptsAll(encoders: seq<Encoder>, args: seq<Arg>) {
    |args| <= |encoders| && forall i | 0 <= i < |args| :: Accepts(encoders[i], args[i])
  }

  /** Raises when an argument has no encoder or its encoder raises. */
  function CreateEntryFunc(
      moduleName: Text, functionName: Text, args: seq<Arg>, encoders: seq<Encoder>,
      moduleAddr: Address := Framework(), tyArgs: seq<TypeTags.TypeTag> := []): Option<Payload.EntryFunction>
  {
    if !AcceptsAll(encoders, args) then None
    else
      var encoded := seq(|args|, i requires 0 <= i < |args| => EncodeArg(encoders[i], args[i]));
      Some(Payload.EntryFunction(Payload.ModuleId(moduleAddr, moduleName), functionName, tyArgs, encoded))
  }

  /**
   The entry function has one byte string per argument, and the encoder at position `i` reads
   argument `i` back from byte string `i` with nothing left over.
   */
  lemma CreateEntryFuncArguments(
      moduleName: Text, functionName: Text, args: seq<Arg>, encoders: seq<Encoder>,
      moduleAddr: Address, tyArgs: seq<TypeTags.TypeTag>)
    ensures var f := CreateEntryFunc(moduleName, functionName, args, encoders, moduleAddr, tyArgs);
            (f.Some? <==> AcceptsAll(encoders, args)) &&
            (f.Some? ==>
               f.value.moduleId == Payload.ModuleId(moduleAddr, moduleName) && f.value.name == functionName &&
               f.value.tyArgs == tyArgs && |f.value.args| == |args| &&
               forall i | 0 <= i < |args| :: DecodeArg(encoders[i], f.value.args[i]) == Read(args[i], []))
  {
    hide EncodeArg, DecodeArg, Accepts;
    if AcceptsAll(encoders, args) {
      var f := CreateEntryFunc(moduleName, functionName, args, encoders, moduleAddr, tyArgs).value;
      forall i | 0 <= i < |args|
        ensures DecodeArg(encoders[i], f.args[i]) == Read(args[i], [])
      {
        ArgRoundTrip(encoders[i], args[i], []);
        assert f.args[i] + [] == f.args[i];
      }
    }
  }

  /** With the encoders fixed, an entry function determines everything it was built from. */
  lemma CreateEntryFuncInjective(
      m1: Text, f1: Text, a1: seq<Arg>, m2: Text, f2: Text, a2: seq<Arg>, encoders: seq<Encoder>)
    requires AcceptsAll(encoders, a1) && AcceptsAll(encoders, a2)
    requires CreateEntryFunc(m1, f1, a1, encoders) == CreateEntryFunc(m2, f2, a2, encoders)
    ensures m1 == m2 && f1 == f2 && a1 == a2
  {
    hide EncodeArg, DecodeArg, Accepts;
    CreateEntryFuncArguments(m1, f1, a1, encoders, Framework(), []);
    CreateEntryFuncArguments(m2, f2, a2, encoders, Framework(), []);
    var f := CreateEntryFunc(m1, f1, a1, encoders).value;
    forall i | 0 <= i < |a1|
      ensures a1[i] == a2[i]
    {
      assert DecodeArg(encoders[i], f.args[i]) == Read(a1[i], []) == Read(a2[i], []);
    }
  }

  // ---------------------------------------------------------------- the builders

  function MultisigModule(): Text { Ascii("multisig_account") }

  function SupraModule(): Text { Ascii("supra_account") }

  function TransferName(): Text { Ascii("transfer") }

  function CreateName(): Text { Ascii("create_with_owners") }

  function ProposeName(): Text { Ascii("create_transaction_with_hash") }

  function VoteName(): Text { Ascii("vote_transanction") }

  function RemoveName(): Text { Ascii("execute_rejected_transaction") }

  function Accounts(xs: seq<Address>): Arg { List(seq(|xs|, i requires 0 <= i < |xs| => Account(xs[i]))) }

  function Texts(xs: seq<Text>): Arg { List(seq(|xs|, i requires 0 <= i < |xs| => Characters(xs[i]))) }

  function Blobs(xs: seq<Bytes>): Arg { List(seq(|xs|, i requires 0 <= i < |xs| => Blob(xs[i]))) }

  function TransferSupra(recipient: Address, amount: int): Option<Payload.EntryFunction> {
    CreateEntryFunc(SupraModule(), TransferName(), [Account(recipient), Number(amount)], [Struct, U64])
  }

  function CreateMultisigAccount(
      owners: seq<Address>, required: int, metadataKeys: seq<Text>, metadataValues: seq<Bytes>, timeout: int)
    : Option<Payload.EntryFunction>
  {
    CreateEntryFunc(MultisigModule(), CreateName(),
      [Accounts(owners), Number(required), Texts(metadataKeys), Blobs(metadataValues), Number(timeout)],
      [Sequence(Struct), U64, Sequence(Str), Sequence(ToBytes), U64])
  }

  function ProposeMultisigTx(account: Address, payloadHash: Bytes): Option<Payload.EntryFunction> {
    CreateEntryFunc(MultisigModule(), ProposeName(),
      [Account(account), Blob(payloadHash)], [Struct, ToBytes])
  }

  function VoteMultisigTx(account: Address, sequenceNumber: int, approved: bool): Option<Payload.EntryFunction> {
    CreateEntryFunc(MultisigModule(), VoteName(),
      [Account(account), Number(sequenceNumber), Flag(approved)], [Struct, U64, Bool])
  }

  function RemoveMultisigTx(account: Address): Option<Payload.EntryFunction> {
    CreateEntryFunc(MultisigModule(), RemoveName(), [Account(account)], [Struct])
  }

  /** One builder with two argument lists: the same entry function exactly when the lists are equal. */
  lemma BuiltAlike(m: Text, f: Text, a: seq<Arg>, b: seq<Arg>, encoders: seq<Encoder>)
    requires AcceptsAll(encoders, a)
    ensures CreateEntryFunc(m, f, a, encoders) == CreateEntryFunc(m, f, b, encoders) <==> a == b
  {
    hide EncodeArg, DecodeArg, Accepts;
    if CreateEntryFunc(m, f, a, encoders) == CreateEntryFunc(m, f, b, encoders) {
      CreateEntryFuncInjective(m, f, a, m, f, b, encoders);
    }
  }

  /** A transfer is built exactly when the amount fits 64 bits, and fixes recipient and amount. */
  lemma TransferDetermined(a: Address, n: int, a': Address, n': int)
    ensures TransferSupra(a, n).Some? <==> 0 <= n <= MAX_U64
    ensures TransferSupra(a, n).Some? ==> (TransferSupra(a, n) == TransferSupra(a', n') <==> a == a' && n == n')
  {
    hide EncodeArg, MultisigModule, SupraModule, TransferName, CreateName, ProposeName, VoteName, RemoveName;
    var args, args' := [Account(a), Number(n)], [Account(a'), Number(n')];
    if 0 <= n <= MAX_U64 {
      BuiltAlike(SupraModule(), TransferName(), args, args', [Struct, U64]);
      assert args == args' <==> args[0] == args'[0] && args[1] == args'[1];
    } else {
      assert !Accepts(U64, args[1]);
    }
  }

  /** A vote is built exactly when its sequence number fits 64 bits, and says who, what and how. */
  lemma VoteDetermined(a: Address, n: int, approved: bool, a': Address, n': int, approved': bool)
    ensures VoteMultisigTx(a, n, approved).Some? <==> 0 <= n <= MAX_U64
    ensures VoteMultisigTx(a, n, approved).Some?
            ==> (VoteMultisigTx(a, n, approved) == VoteMultisigTx(a', n', approved')
                 <==> a == a' && n == n' && approved == approved')
  {
    hide EncodeArg, MultisigModule, SupraModule, TransferName, CreateName, ProposeName, VoteName, RemoveName;
    var args, args' := [Account(a), Number(n), Flag(approved)], [Account(a'), Number(n'), Flag(approved')];
    if 0 <= n <= MAX_U64 {
      BuiltAlike(MultisigModule(), VoteName(), args, args', [Struct, U64, Bool]);
      assert args == args' <==> args[0] == args'[0] && args[1] == args'[1] && args[2] == args'[2];
    } else {
      assert !Accepts(U64, args[1]);
    }
  }

  /** A proposal is built exactly when the hash has an encodable length, and fixes account and hash. */
  lemma ProposalDetermined(a: Address, h: Bytes, a': Address, h': Bytes)
    ensures ProposeMultisigTx(a, h).Some? <==> |h| <= MAX_U32
    ensures ProposeMultisigTx(a, h).Some? ==> (ProposeMultisigTx(a, h) == ProposeMultisigTx(a', h') <==> a == a' && h == h')
  {
    hide EncodeArg, MultisigModule, SupraModule, TransferName, CreateName, ProposeName, VoteName, RemoveName;
    var args, args' := [Account(a), Blob(h)], [Account(a'), Blob(h')];
    if |h| <= MAX_U32 {
      BuiltAlike(MultisigModule(), ProposeName(), args, args', [Struct, ToBytes]);
      assert args == args' <==> args[0] == args'[0] && args[1] == args'[1];
    } else {
      assert !Accepts(ToBytes, args[1]);
    }
  }

  lemma RemovalDetermined(a: Address, a': Address)
    ensures RemoveMultisigTx(a).Some?
    ensures RemoveMultisigTx(a) == RemoveMultisigTx(a') <==> a == a'
  {
    hide EncodeArg, MultisigModule, SupraModule, TransferName, CreateName, ProposeName, VoteName, RemoveName;
    var args, args' := [Account(a)], [Account(a')];
    BuiltAlike(MultisigModule(), RemoveName(), args, args', [Struct]);
    assert args == args' <==> args[0] == args'[0];
  }

  lemma ListsInjective(xs: seq<Address>, xs': seq<Address>, ts: seq<Text>, ts': seq<Text>, bs: seq<Bytes>, bs': seq<Bytes>)
    ensures Accounts(xs) == Accounts(xs') <==> xs == xs'
    ensures Texts(ts) == Texts(ts') <==> ts == ts'
    ensures Blobs(bs) == Blobs(bs') <==> bs == bs'
  {
    if Accounts(xs) == Accounts(xs') {
      assert |Accounts(xs).items| == |xs| == |xs'|;
      assert forall i | 0 <= i < |xs| :: Accounts(xs).items[i] == Account(xs[i]) == Account(xs'[i]);
    }
    if Texts(ts) == Texts(ts') {
      assert |Texts(ts).items| == |ts| == |ts'|;
      assert forall i | 0 <= i < |ts| :: Texts(ts).items[i] == Characters(ts[i]) == Characters(ts'[i]);
    }
    if Blobs(bs) == Blobs(bs') {
      assert |Blobs(bs).items| == |bs| == |bs'|;
      assert forall i | 0 <= i < |bs| :: Blobs(bs).items[i] == Blob(bs[i]) == Blob(bs'[i]);
    }
  }

  /** Account creation, whose three list arguments go through nested sequence encoders. */
  lemma CreationDetermined(
      owners: seq<Address>, required: int, keys: seq<Text>, values: seq<Bytes>, timeout: int,
      owners': seq<Address>, required': int, keys': seq<Text>, values': seq<Bytes>, timeout': int)
    ensures CreateMultisigAccount(owners, required, keys, values, timeout).Some?
            ==> (CreateMultisigAccount(owners, required, keys, values, timeout)
                 == CreateMultisigAccount(owners', required', keys', values', timeout')
                 <==> owners == owners' && required == required' && keys == keys' && values == values' && timeout == timeout')
  {
    hide EncodeArg, MultisigModule, SupraModule, TransferName, CreateName, ProposeName, VoteName, RemoveName;
    hide Accepts, Accounts, Texts, Blobs;
    var args := [Accounts(owners), Number(required), Texts(keys), Blobs(values), Number(timeout)];
    var args' := [Accounts(owners'), Number(required'), Texts(keys'), Blobs(values'), Number(timeout')];
    var encoders := [Sequence(Struct), U64, Sequence(Str), Sequence(ToBytes), U64];
    if AcceptsAll(encoders, args) {
      BuiltAlike(MultisigModule(), CreateName(), args, args', encoders);
    }
    ListsInjective(owners, owners', keys, keys', values, values');
    assert args == args' <==> args[0] == args'[0] && args[1] == args'[1] && args[2] == args'[2]
                              && args[3] == args'[3] && args[4] == args'[4];
  }

  lemma ListsAccepted(xs: seq<Address>, ts: seq<Text>, bs: seq<Bytes>)
    ensures Accepts(Sequence(Struct), Accounts(xs)) <==> |xs| <= MAX_U32
    ensures Accepts(Sequence(Str), Texts(ts)) <==> |ts| <= MAX_U32 && forall i | 0 <= i < |ts| :: |ts[i]| <= MAX_U32
    ensures Accepts(Sequence(ToBytes), Blobs(bs)) <==> |bs| <= MAX_U32 && forall i | 0 <= i < |bs| :: |bs[i]| <= MAX_U32
  {
    assert forall i | 0 <= i < |ts| :: Texts(ts).items[i] == Characters(ts[i]);
    assert forall i | 0 <= i < |bs| :: Blobs(bs).items[i] == Blob(bs[i]);
  }

  /** When account creation raises: a number or a length out of range, and nothing else. */
  lemma CreationSucceeds(owners: seq<Address>, required: int, keys: seq<Text>, values: seq<Bytes>, timeout: int)
    ensures CreateMultisigAccount(owners, required, keys, values, timeout).Some?
            <==> |owners| <= MAX_U32 && |keys| <= MAX_U32 && |values| <= MAX_U32
                 && 0 <= required <= MAX_U64 && 0 <= timeout <= MAX_U64
                 && (forall i | 0 <= i < |keys| :: |keys[i]| <= MAX_U32)
                 && (forall i | 0 <= i < |values| :: |values[i]| <= MAX_U32)
  {
    hide EncodeArg, MultisigModule, SupraModule, TransferName, CreateName, ProposeName, VoteName, RemoveName;
    var args := [Accounts(owners), Number(required), Texts(keys), Blobs(values), Number(timeout)];
    var encoders := [Sequence(Struct), U64, Sequence(Str), Sequence(ToBytes), U64];
    ListsAccepted(owners, keys, values);
    hide Accounts, Texts, Blobs;
    assert AcceptsAll(encoders, args)
           <==> Accepts(encoders[0], args[0]) && Accepts(encoders[1], args[1]) && Accepts(encoders[2], args[2])
                && Accepts(encoders[3], args[3]) && Accepts(encoders[4], args[4]);
  }
}
