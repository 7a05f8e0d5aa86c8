/** Results that span the renderings of one transaction: bytes, dictionary and hash. */
module Agreement {
  import opened Wrappers
  import opened Bcs
  import TypeTags
  import Payload
  import Transactions
  import Arguments
  import Builders
  import Proposals
  import opened PayloadDict
  import opened PayloadDictLaws
  import opened Submission

  // ---------------------------------------------------------------- dictionary and signed bytes

  lemma ModulesAlike(m: Payload.ModuleId, n: Payload.ModuleId)
    ensures Alike(ModuleObject(m), ModuleObject(n))
    ensures AgreeVisibly(ModuleObject(m), ModuleObject(n)) <==> m == n
  {
    hide Hidden, KeyOf, KeysDistinct;
    ModuleStored(m);
    ModuleStored(n);
    var a, b := ModuleObject(m).attrs, ModuleObject(n).attrs;
    assert Visible(a[0]) && Visible(a[1]);
    assert Alike(ModuleObject(m), ModuleObject(n));
    assert ValuesAgree(a[0], b[0].value) <==> m.address == n.address;
    assert ValuesAgree(a[1], b[1].value) <==> m.name == n.name;
  }

  lemma EntriesAlike(f: Payload.EntryFunction, g: Payload.EntryFunction)
    ensures Alike(EntryObject(f), EntryObject(g))
    ensures AgreeVisibly(EntryObject(f), EntryObject(g)) <==> f == g
  {
    hide Hidden, KeyOf, KeysDistinct, ModuleObject;
    EntryStored(f);
    EntryStored(g);
    ModulesAlike(f.moduleId, g.moduleId);
    var a, b := EntryObject(f).attrs, EntryObject(g).attrs;
    assert Visible(a[0]) && Visible(a[1]) && Visible(a[2]) && Visible(a[3]);
    assert Alike(EntryObject(f), EntryObject(g));
    assert ValuesAgree(a[0], b[0].value) <==> f.moduleId == g.moduleId;
    assert ValuesAgree(a[1], b[1].value) <==> f.name == g.name;
    assert ValuesAgree(a[2], b[2].value) <==> f.tyArgs == g.tyArgs;
    assert ValuesAgree(a[3], b[3].value) <==> f.args == g.args;
  }

  lemma MultisigsAlike(m: Payload.Multisig, n: Payload.Multisig)
    ensures Alike(MultisigObject(m), MultisigObject(n))
    ensures AgreeVisibly(MultisigObject(m), MultisigObject(n)) <==> m == n
  {
    hide Hidden, KeyOf, KeysDistinct, EntryObject;
    MultisigStored(m);
    MultisigStored(n);
    if m.payload.Some? && n.payload.Some? {
      EntriesAlike(m.payload.value.entry, n.payload.value.entry);
    }
    var a, b := MultisigObject(m).attrs, MultisigObject(n).attrs;
    assert Visible(a[0]) && Visible(a[1]);
    assert a[1].name != EXPIRATION by { assert |"transaction_payload"| != |EXPIRATION|; }
    assert Alike(MultisigObject(m), MultisigObject(n));
    assert ValuesAgree(a[0], b[0].value) <==> m.address == n.address;
    assert ValuesAgree(a[1], b[1].value) <==> m.payload == n.payload;
  }

  lemma ScriptsAlike(t: Payload.Script, u: Payload.Script)
    ensures Alike(ScriptObject(t), ScriptObject(u))
    ensures AgreeVisibly(ScriptObject(t), ScriptObject(u)) <==> t == u
  {
    hide Hidden, KeyOf, KeysDistinct;
    ScriptStored(t);
    ScriptStored(u);
    var a, b := ScriptObject(t).attrs, ScriptObject(u).attrs;
    assert Visible(a[0]) && Visible(a[1]) && Visible(a[2]);
    assert Alike(ScriptObject(t), ScriptObject(u));
    assert ValuesAgree(a[0], b[0].value) <==> t.code == u.code;
    assert ValuesAgree(a[1], b[1].value) <==> t.tyArgs == u.tyArgs;
    assert ValuesAgree(a[2], b[2].value) <==> t.args == u.args;
  }

  lemma PayloadsAlike(name: string, p: Payload.TransactionPayload, q: Payload.TransactionPayload)
    ensures var a := Attr(name, TransactionPayload(ContentObject(p)));
            var w := TransactionPayload(ContentObject(q));
            AlikeValues(a, w) && (ValuesAgree(a, w) <==> p == q)
  {
    hide EntryObject, MultisigObject, ScriptObject, Alike, AgreeVisibly;
    match (p, q)
    case (EntryPayload(f), EntryPayload(g)) => EntriesAlike(f, g);
    case (MultisigPayload(m), MultisigPayload(n)) => MultisigsAlike(m, n);
    case (ScriptPayload(t), ScriptPayload(u)) => ScriptsAlike(t, u);
    case _ =>
  }

  lemma TransactionsAlike(t: Transactions.RawTransaction, u: Transactions.RawTransaction)
    ensures Alike(SignedFields(t), SignedFields(u))
    ensures AgreeVisibly(SignedFields(t), SignedFields(u)) <==> t == u
  {
    hide Hidden, KeyOf, KeysDistinct, ContentObject;
    TransactionStored(t);
    TransactionStored(u);
    PayloadsAlike("payload", t.payload, u.payload);
    var a, b := SignedFields(t).attrs, SignedFields(u).attrs;
    assert Visible(a[0]) && Visible(a[1]) && Visible(a[2]) && Visible(a[3]) && Visible(a[4]) && Visible(a[5]) && Visible(a[6]);
    assert Alike(SignedFields(t), SignedFields(u));
    assert ValuesAgree(a[0], b[0].value) <==> t.sender == u.sender;
    assert ValuesAgree(a[1], b[1].value) <==> t.sequenceNumber == u.sequenceNumber;
    assert ValuesAgree(a[2], b[2].value) <==> t.payload == u.payload;
    assert ValuesAgree(a[3], b[3].value) <==> t.maxGasAmount == u.maxGasAmount;
    assert ValuesAgree(a[4], b[4].value) <==> t.gasUnitPrice == u.gasUnitPrice;
    assert ValuesAgree(a[5], b[5].value) <==> t.expirationTimestampsSecs == u.expirationTimestampsSecs;
    assert ValuesAgree(a[6], b[6].value) <==> t.chainId == u.chainId;
  }

  /**
   Any two transactions whose dictionaries can be built at all, scripts and type arguments included,
   have equal dictionaries exactly when they have equal signing messages.
   */
  lemma DictEqualIffSignedEqual(
      str: AddressPrinter, sha3: Bytes -> Bytes, t: Transactions.RawTransaction, u: Transactions.RawTransaction)
    requires Injective(str) && t.Encodable() && u.Encodable()
    requires Render(str, TransactionObject(t)).Some? && Render(str, TransactionObject(u)).Some?
    ensures Render(str, TransactionObject(t)) == Render(str, TransactionObject(u))
            <==> Transactions.SigningMessage(sha3, t) == Transactions.SigningMessage(sha3, u)
  {
    hide Render, SignedFields, TransactionObject, Alike, AgreeVisibly;
    hide Transactions.SigningMessage, Transactions.RawTransaction.Encodable;
    PrehashDropped(str, t);
    PrehashDropped(str, u);
    TransactionsAlike(t, u);
    RenderLosesOnlyHidden(str, SignedFields(t), SignedFields(u));
    if Transactions.SigningMessage(sha3, t) == Transactions.SigningMessage(sha3, u) {
      Transactions.SigningMessageInjective(sha3, t, u);
    }
  }

  /** What is read from a submitted dictionary serializes to the bytes the signature covers. */
  lemma DictRebuildsSigningMessage(
      str: AddressPrinter, parse: AddressParser, sha3: Bytes -> Bytes, t: Transactions.RawTransaction)
    requires (forall a :: parse(str(a)) == Some(a)) && t.Encodable() && Submittable(str, TransactionObject(t))
    ensures var read := ReadTransaction(parse, Render(str, TransactionObject(t)).value);
            read.Some? && read.value.Encodable()
            && Transactions.SigningMessage(sha3, read.value) == Transactions.SigningMessage(sha3, t)
  {
    hide Render, TransactionObject, ReadTransaction, Sendable, Transactions.RawTransaction.Encodable;
    TransactionSubmittable(str, t);
    DictReadsBack(str, parse, t);
  }

  // ---------------------------------------------------------------- a transfer through a multisig account

  lemma TransferEncodable(recipient: Address, amount: int)
    requires 0 <= amount <= MAX_U64
    ensures var f := Builders.TransferSupra(recipient, amount);
            f.Some? && f.value.Encodable()
  {
    hide Builders.SupraModule, Builders.TransferName;
    Builders.TransferDetermined(recipient, amount, recipient, amount);
    NamesShort();
  }

  lemma NamesShort()
    ensures |Builders.SupraModule()| == 13 && |Builders.TransferName()| == 8
  {
  }

  /** Whether the hash tells the bytes of two proposals apart. */
  predicate NoCollision(sha3: Bytes -> Bytes, f: Payload.EntryFunction, g: Payload.EntryFunction) {
    sha3(Proposals.ProposedBytes(f)) == sha3(Proposals.ProposedBytes(g))
    ==> Proposals.ProposedBytes(f) == Proposals.ProposedBytes(g)
  }

  /**
   Owners approve a transfer by its hash. Executing a transfer from the account matches that hash
   exactly when it pays the same amount to the same recipient, unless the hash collides.
   */
  lemma ApprovedTransferIsExecuted(
      sha3: Bytes -> Bytes, account: Address, recipient: Address, amount: int, recipient': Address, amount': int)
    requires 0 <= amount <= MAX_U64 && 0 <= amount' <= MAX_U64
    ensures var approved := Builders.TransferSupra(recipient, amount);
            var executed := Builders.TransferSupra(recipient', amount');
            approved.Some? && executed.Some? && executed.value.Encodable() &&
            (NoCollision(sha3, approved.value, executed.value) ==>
               (sha3(Proposals.ExecutedBytes(account, executed.value)) == sha3(Proposals.ProposedBytes(approved.value))
                <==> recipient == recipient' && amount == amount'))
  {
    hide Builders.TransferSupra, Proposals.ProposedBytes, Proposals.ExecutedBytes, Payload.EntryFunction.Encodable;
    TransferEncodable(recipient, amount);
    TransferEncodable(recipient', amount');
    Builders.TransferDetermined(recipient, amount, recipient', amount');
    var f, g := Builders.TransferSupra(recipient, amount).value, Builders.TransferSupra(recipient', amount').value;
    if NoCollision(sha3, f, g) {
      Proposals.ExecutionMatchesProposal(sha3, account, f, g);
    }
  }

  /** The bytes of an entry function payload with two arguments and short names, field by field. */
  lemma TwoArgumentWireForm(f: Payload.EntryFunction, a: Bytes, b: Bytes)
    requires f.Encodable() && f.tyArgs == [] && f.args == [a, b]
    requires |f.moduleId.name| < 0x80 && |f.name| < 0x80 && |a| < 0x80 && |b| < 0x80
    ensures Payload.EncodePayload(Payload.EntryPayload(f))
            == [2] + f.moduleId.address + ([|f.moduleId.name|] + f.moduleId.name) + ([|f.name|] + f.name)
               + [0] + ([2] + ([|a|] + a) + ([|b|] + b))
  {
    ShortBytes(f.moduleId.name);
    ShortBytes(f.name);
    TwoItems(a, b);
    EmptyTags();
    assert EncodeUleb(2) == [2];
    hide Payload.EncodeByteStrings, TypeTags.EncodeSeq, Payload.EntryFunction.Encodable, EncodeBytes, EncodeUleb;
  }

  lemma ShortBytes(b: Bytes)
    requires |b| < 0x80
    ensures EncodeBytes(b) == [|b|] + b
  {
  }

  /** The bytes of a transfer payload: which module, which function, and the arguments in order. */
  lemma TransferWireForm(recipient: Address, amount: int)
    requires 0 <= amount <= MAX_U64
    ensures Builders.TransferSupra(recipient, amount).Some?
            && Builders.TransferSupra(recipient, amount).value.Encodable()
    ensures Payload.EncodePayload(Payload.EntryPayload(Builders.TransferSupra(recipient, amount).value))
            == [2] + Builders.Framework() + ([13] + Builders.SupraModule()) + ([8] + Builders.TransferName())
               + [0] + ([2] + ([32] + recipient) + ([8] + LittleEndian(8, amount)))
  {
    TransferEncodable(recipient, amount);
    hide Builders.SupraModule, Builders.TransferName, LittleEndian, Payload.EncodePayload, Payload.EntryFunction.Encodable;
    NamesShort();
    var f := Builders.TransferSupra(recipient, amount).value;
    assert f.args == [recipient, LittleEndian(8, amount)];
    TwoArgumentWireForm(f, recipient, LittleEndian(8, amount));
  }

  lemma TwoItems(a: Bytes, b: Bytes)
    requires |a| < 0x80 && |b| < 0x80
    ensures Payload.EncodeByteStrings([a, b]) == [2] + ([|a|] + a) + ([|b|] + b)
  {
    assert [a, b][1..] == [b];
    assert [b][1..] == [];
    assert Payload.EncodeItems([b]) == EncodeBytes(b) + Payload.EncodeItems([]);
  }

  lemma EmptyTags()
    ensures TypeTags.EncodeSeq([]) == [0]
  {
  }
}
