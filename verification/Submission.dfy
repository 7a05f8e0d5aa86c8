/**
 The body that is submitted for a transaction, the reader it calls for, and why the body and the
 signed bytes describe the same transaction.
 */
module Submission {
  import opened Wrappers
  import opened Bcs
  import TypeTags
  import Payload
  import Transactions
  import opened PayloadDict
  import opened PayloadDictLaws

  // ---------------------------------------------------------------- transactions as objects

  function ModuleObject(m: Payload.ModuleId): PyObject {
    PyObject(ModuleId, [Attr("address", AccountAddress(m.address)), Attr("name", PyStr(m.name))])
  }

  function EntryObject(f: Payload.EntryFunction): (o: PyObject)
    ensures o.cls == PyClass.EntryFunction
  {
    PyObject(EntryFunction,
      [Attr("module", Instance(ModuleObject(f.moduleId))), Attr("function", PyStr(f.name)),
       Attr("ty_args", TypeTagList(f.tyArgs)), Attr("args", ByteStrings(f.args))])
  }

  function OptionalPayload(p: Option<Payload.MultiSigTransactionPayload>): PyValue {
    if p.Some? then MultiSigTransactionPayload(EntryObject(p.value.entry)) else PyNone
  }

  function MultisigObject(m: Payload.Multisig): (o: PyObject)
    ensures o.cls == PyClass.Multisig
  {
    PyObject(Multisig,
      [Attr("multisig_address", AccountAddress(m.address)), Attr("transaction_payload", OptionalPayload(m.payload))])
  }

  function ScriptObject(t: Payload.Script): (o: PyObject)
    ensures o.cls == PyClass.Script
  {
    PyObject(Script,
      [Attr("code", PyBytes(t.code)), Attr("ty_args", TypeTagList(t.tyArgs)), Attr("args", ScriptArguments(t.args))])
  }

  function ContentObject(p: Payload.TransactionPayload): PyObject {
    match p
    case ScriptPayload(script) => ScriptObject(script)
    case EntryPayload(entry) => EntryObject(entry)
    case MultisigPayload(multisig) => MultisigObject(multisig)
  }

  // ---------------------------------------------------------------- the reader

  type AddressParser = Text -> Option<Address>

  function ReadField(d: map<string, Json>, k: string): Option<Json> {
    if k in d then Some(d[k]) else None
  }

  function ReadText(j: Json): Option<Text> {
    if j.Plain? && j.value.PyStr? then Some(j.value.s) else None
  }

  function ReadInt(j: Json): Option<int> {
    if j.Plain? && j.value.PyInt? then Some(j.value.n) else None
  }

  function ReadDict(j: Json): Option<map<string, Json>> {
    if j.Dict? then Some(j.entries) else None
  }

  function ReadAddress(parse: AddressParser, j: Json): Option<Address> {
    var s :- ReadText(j);
    parse(s)
  }

  function ReadModule(parse: AddressParser, d: map<string, Json>): Option<Payload.ModuleId> {
    var a :- ReadField(d, "address");
    var address :- ReadAddress(parse, a);
    var n :- ReadField(d, "name");
    var name :- ReadText(n);
    Some(Payload.ModuleId(address, name))
  }

  function ReadEntry(parse: AddressParser, d: map<string, Json>): Option<Payload.EntryFunction> {
    var m :- ReadField(d, "module");
    var md :- ReadDict(m);
    var moduleId :- ReadModule(parse, md);
    var f :- ReadField(d, "function");
    var name :- ReadText(f);
    var tyArgs :- ReadField(d, "ty_args");
    var args :- ReadField(d, "args");
    if tyArgs == Plain(TypeTagList([])) && args.ByteLists?
    then Some(Payload.EntryFunction(moduleId, name, [], args.items)) else None
  }

  function ReadMultisig(parse: AddressParser, d: map<string, Json>): Option<Payload.Multisig> {
    var a :- ReadField(d, "multisig_address");
    var address :- ReadAddress(parse, a);
    var p :- ReadField(d, "transaction_payload");
    if p == Plain(PyNone) then Some(Payload.Multisig(address, None))
    else
      var pd :- ReadDict(p);
      var e :- ReadField(pd, "EntryFunction");
      var ed :- ReadDict(e);
      var entry :- ReadEntry(parse, ed);
      Some(Payload.Multisig(address, Some(Payload.MultiSigTransactionPayload(entry))))
  }

  function ReadPayload(parse: AddressParser, d: map<string, Json>): Option<Payload.TransactionPayload> {
    if "EntryFunction" in d then
      var ed :- ReadDict(d["EntryFunction"]);
      var entry :- ReadEntry(parse, ed);
      Some(Payload.EntryPayload(entry))
    else if "Multisig" in d then
      var md :- ReadDict(d["Multisig"]);
      var multisig :- ReadMultisig(parse, md);
      Some(Payload.MultisigPayload(multisig))
    else None
  }

  function ReadTransaction(parse: AddressParser, d: map<string, Json>): Option<Transactions.RawTransaction> {
    var s :- ReadField(d, "sender");
    var sender :- ReadAddress(parse, s);
    var n :- ReadField(d, "sequence_number");
    var sequenceNumber :- ReadInt(n);
    var p :- ReadField(d, "payload");
    var pd :- ReadDict(p);
    var payload :- ReadPayload(parse, pd);
    var m :- ReadField(d, "max_gas_amount");
    var maxGas :- ReadInt(m);
    var g :- ReadField(d, "gas_unit_price");
    var gasPrice :- ReadInt(g);
    var x :- ReadField(d, RENAMED_EXPIRATION);
    var expiration :- ReadInt(x);
    var c :- ReadField(d, "chain_id");
    var chainId :- ReadInt(c);
    Some(Transactions.RawTransaction(sender, sequenceNumber, payload, maxGas, gasPrice, expiration, chainId))
  }

  // ---------------------------------------------------------------- reading back each object

  /** Every attribute is visible and stored under the key at its position, and no two keys are equal. */
  ghost predicate StoredAs(attrs: seq<Attr>, keys: seq<string>) {
    |attrs| == |keys| && KeysDistinct(attrs) &&
    forall i | 0 <= i < |attrs| :: Visible(attrs[i]) && KeyOf(attrs[i]) == keys[i]
  }

  /** An object whose attributes all render has a dictionary holding them. */
  lemma Entries(str: AddressPrinter, o: PyObject, keys: seq<string>)
    requires StoredAs(o.attrs, keys)
    requires forall i | 0 <= i < |o.attrs| && Visible(o.attrs[i]) :: RenderValue(str, o.attrs[i].name, o.attrs[i].value).Some?
    ensures Render(str, o).Some? && HoldsEntries(str, o.attrs, Render(str, o).value)
  {
    RendersIff(str, o.attrs);
    RenderedEntries(str, o.attrs);
  }

  /** The entry of attribute `i`. */
  lemma EntryAt(str: AddressPrinter, o: PyObject, keys: seq<string>, i: nat)
    requires StoredAs(o.attrs, keys) && i < |keys|
    requires Render(str, o).Some? && HoldsEntries(str, o.attrs, Render(str, o).value)
    ensures ReadField(Render(str, o).value, keys[i]) == RenderValue(str, o.attrs[i].name, o.attrs[i].value)
  {
    hide Render, RenderValue;
    assert Visible(o.attrs[i]);
  }

  lemma ModuleStored(m: Payload.ModuleId)
    ensures StoredAs(ModuleObject(m).attrs, ["address", "name"])
  {
  }

  lemma ModuleFields(str: AddressPrinter, m: Payload.ModuleId)
    ensures Render(str, ModuleObject(m)).Some?
    ensures var d := Render(str, ModuleObject(m)).value;
            ReadField(d, "address") == Some(Plain(PyStr(str(m.address)))) && ReadField(d, "name") == Some(Plain(PyStr(m.name)))
  {
    hide RenderAttrs, Render, StoredAs, HoldsEntries, ReadField;
    var o, keys := ModuleObject(m), ["address", "name"];
    ModuleStored(m);
    Entries(str, o, keys);
    EntryAt(str, o, keys, 0);
    EntryAt(str, o, keys, 1);
  }

  lemma ModuleReadsBack(str: AddressPrinter, parse: AddressParser, m: Payload.ModuleId)
    requires forall a :: parse(str(a)) == Some(a)
    ensures Render(str, ModuleObject(m)).Some? && ReadModule(parse, Render(str, ModuleObject(m)).value) == Some(m)
  {
    hide Render, ReadField, ModuleObject;
    ModuleFields(str, m);
  }

  lemma ModuleRenders(str: AddressPrinter, m: Payload.ModuleId)
    ensures Render(str, ModuleObject(m)).Some?
  {
    ModuleStored(m);
    Entries(str, ModuleObject(m), ["address", "name"]);
  }

  lemma EntryStored(f: Payload.EntryFunction)
    ensures StoredAs(EntryObject(f).attrs, ["module", "function", "ty_args", "args"])
  {
    hide ModuleObject;
  }

  lemma EntryValues(str: AddressPrinter, f: Payload.EntryFunction)
    requires Render(str, ModuleObject(f.moduleId)).Some?
    ensures RenderValue(str, "module", Instance(ModuleObject(f.moduleId)))
            == Some(Dict(Render(str, ModuleObject(f.moduleId)).value))
    ensures RenderValue(str, "function", PyStr(f.name)) == Some(Plain(PyStr(f.name)))
    ensures RenderValue(str, "ty_args", TypeTagList(f.tyArgs)) == Some(Plain(TypeTagList(f.tyArgs)))
    ensures RenderValue(str, "args", ByteStrings(f.args)) == Some(ByteLists(f.args))
  {
    hide Render, ModuleObject;
  }

  lemma EntryFields(str: AddressPrinter, f: Payload.EntryFunction)
    ensures Render(str, EntryObject(f)).Some? && Render(str, ModuleObject(f.moduleId)).Some?
    ensures var d := Render(str, EntryObject(f)).value;
            ReadField(d, "module") == Some(Dict(Render(str, ModuleObject(f.moduleId)).value)) &&
            ReadField(d, "function") == Some(Plain(PyStr(f.name))) &&
            ReadField(d, "ty_args") == Some(Plain(TypeTagList(f.tyArgs))) &&
            ReadField(d, "args") == Some(ByteLists(f.args))
  {
    hide RenderAttrs, Render, RenderValue, StoredAs, HoldsEntries, ReadField, ModuleObject;
    var o, keys := EntryObject(f), ["module", "function", "ty_args", "args"];
    EntryStored(f);
    ModuleRenders(str, f.moduleId);
    EntryValues(str, f);
    Entries(str, o, keys);
    EntryAt(str, o, keys, 0);
    EntryAt(str, o, keys, 1);
    EntryAt(str, o, keys, 2);
    EntryAt(str, o, keys, 3);
  }

  lemma EntryReadsBack(str: AddressPrinter, parse: AddressParser, f: Payload.EntryFunction)
    requires forall a :: parse(str(a)) == Some(a)
    ensures Render(str, EntryObject(f)).Some?
    ensures ReadEntry(parse, Render(str, EntryObject(f)).value) == if f.tyArgs == [] then Some(f) else None
  {
    hide Render, ReadField, ReadModule, ModuleObject, EntryObject;
    ModuleReadsBack(str, parse, f.moduleId);
    EntryFields(str, f);
  }

  predicate NoTypeArguments(p: Payload.TransactionPayload) {
    match p
    case ScriptPayload(script) => script.tyArgs == []
    case EntryPayload(entry) => entry.tyArgs == []
    case MultisigPayload(multisig) => multisig.payload.Some? ==> multisig.payload.value.entry.tyArgs == []
  }

  lemma MultisigStored(m: Payload.Multisig)
    ensures StoredAs(MultisigObject(m).attrs, ["multisig_address", "transaction_payload"])
  {
    hide EntryObject;
  }

  lemma MultisigFields(str: AddressPrinter, m: Payload.Multisig)
    ensures Render(str, MultisigObject(m)).Some?
    ensures m.payload.Some? ==> Render(str, EntryObject(m.payload.value.entry)).Some?
    ensures var d := Render(str, MultisigObject(m)).value;
            ReadField(d, "multisig_address") == Some(Plain(PyStr(str(m.address)))) &&
            ReadField(d, "transaction_payload")
            == Some(match m.payload
                    case None => Plain(PyNone)
                    case Some(p) => Dict(map["EntryFunction" := Dict(Render(str, EntryObject(p.entry)).value)]))
  {
    hide RenderAttrs, Render, StoredAs, HoldsEntries, ReadField, EntryObject;
    var o, keys := MultisigObject(m), ["multisig_address", "transaction_payload"];
    MultisigStored(m);
    if m.payload.Some? {
      EntryFields(str, m.payload.value.entry);
    }
    Entries(str, o, keys);
    EntryAt(str, o, keys, 0);
    EntryAt(str, o, keys, 1);
  }

  lemma MultisigReadsBack(str: AddressPrinter, parse: AddressParser, m: Payload.Multisig)
    requires forall a :: parse(str(a)) == Some(a)
    requires NoTypeArguments(Payload.MultisigPayload(m))
    ensures Render(str, MultisigObject(m)).Some?
    ensures ReadMultisig(parse, Render(str, MultisigObject(m)).value) == Some(m)
  {
    hide Render, ReadField, ReadEntry, EntryObject, MultisigObject;
    MultisigFields(str, m);
    if m.payload.Some? {
      EntryReadsBack(str, parse, m.payload.value.entry);
      WrappedField("EntryFunction", Dict(Render(str, EntryObject(m.payload.value.entry)).value));
    }
  }

  lemma WrappedField(k: string, j: Json)
    ensures ReadField(map[k := j], k) == Some(j)
  {
  }

  lemma PayloadReadsBack(str: AddressPrinter, parse: AddressParser, p: Payload.TransactionPayload)
    requires forall a :: parse(str(a)) == Some(a)
    requires !p.ScriptPayload? && NoTypeArguments(p)
    ensures var j := RenderValue(str, "payload", TransactionPayload(ContentObject(p)));
            j.Some? && j.value.Dict? && ReadPayload(parse, j.value.entries) == Some(p)
  {
    hide RenderAttrs, Render, ReadEntry, ReadMultisig;
    assert |"EntryFunction"| != |"Multisig"|;
    match p
    case EntryPayload(entry) => EntryReadsBack(str, parse, entry);
    case MultisigPayload(multisig) => MultisigReadsBack(str, parse, multisig);
  }

  /** The transaction object without its `prehash` attribute. */
  function SignedFields(t: Transactions.RawTransaction): PyObject {
    PyObject(RawTransaction,
      [Attr("sender", AccountAddress(t.sender)), Attr("sequence_number", PyInt(t.sequenceNumber)),
       Attr("payload", TransactionPayload(ContentObject(t.payload))), Attr("max_gas_amount", PyInt(t.maxGasAmount)),
       Attr("gas_unit_price", PyInt(t.gasUnitPrice)), Attr(EXPIRATION, PyInt(t.expirationTimestampsSecs)),
       Attr("chain_id", PyInt(t.chainId))])
  }

  /** A raw transaction as `create_raw_tx` leaves it, with the `prehash` method stored on it. */
  function TransactionObject(t: Transactions.RawTransaction): PyObject {
    var o := SignedFields(t);
    o.(attrs := o.attrs + [Attr(PREHASH, Instance(PyObject(OtherClass, [])))])
  }

  lemma PrehashDropped(str: AddressPrinter, t: Transactions.RawTransaction)
    ensures Render(str, TransactionObject(t)) == Render(str, SignedFields(t))
  {
    hide ContentObject, RenderValue;
    var attrs := TransactionObject(t).attrs;
    assert attrs[..|attrs| - 1] == SignedFields(t).attrs;
  }

  ghost function TransactionKeys(): seq<string> {
    ["sender", "sequence_number", "payload", "max_gas_amount", "gas_unit_price", RENAMED_EXPIRATION, "chain_id"]
  }

  lemma TransactionStored(t: Transactions.RawTransaction)
    ensures StoredAs(SignedFields(t).attrs, TransactionKeys())
  {
    hide ContentObject;
  }

  lemma TransactionFields(str: AddressPrinter, t: Transactions.RawTransaction)
    requires RenderValue(str, "payload", TransactionPayload(ContentObject(t.payload))).Some?
    ensures Render(str, TransactionObject(t)).Some?
    ensures var d := Render(str, TransactionObject(t)).value;
            ReadField(d, "sender") == Some(Plain(PyStr(str(t.sender)))) &&
            ReadField(d, "sequence_number") == Some(Plain(PyInt(t.sequenceNumber))) &&
            ReadField(d, "payload") == RenderValue(str, "payload", TransactionPayload(ContentObject(t.payload))) &&
            ReadField(d, "max_gas_amount") == Some(Plain(PyInt(t.maxGasAmount))) &&
            ReadField(d, "gas_unit_price") == Some(Plain(PyInt(t.gasUnitPrice))) &&
            ReadField(d, RENAMED_EXPIRATION) == Some(Plain(PyInt(t.expirationTimestampsSecs))) &&
            ReadField(d, "chain_id") == Some(Plain(PyInt(t.chainId)))
  {
    hide RenderAttrs, Render, StoredAs, HoldsEntries, ReadField, ContentObject, TransactionObject;
    var o, keys := SignedFields(t), TransactionKeys();
    PrehashDropped(str, t);
    TransactionStored(t);
    Entries(str, o, keys);
    EntryAt(str, o, keys, 0);
    EntryAt(str, o, keys, 1);
    EntryAt(str, o, keys, 2);
    EntryAt(str, o, keys, 3);
    EntryAt(str, o, keys, 4);
    EntryAt(str, o, keys, 5);
    EntryAt(str, o, keys, 6);
  }

  /**
   The body and the signed bytes describe the same transaction: rendering an entry function or
   multisig transaction without type arguments succeeds, and the dictionary reads back as that very
   transaction, so serializing what is read gives the bytes the signature covers.
   */
  lemma DictReadsBack(str: AddressPrinter, parse: AddressParser, t: Transactions.RawTransaction)
    requires forall a :: parse(str(a)) == Some(a)
    requires !t.payload.ScriptPayload? && NoTypeArguments(t.payload)
    ensures Render(str, TransactionObject(t)).Some?
    ensures ReadTransaction(parse, Render(str, TransactionObject(t)).value) == Some(t)
  {
    hide Render, RenderValue, ReadField, ReadPayload, ContentObject, TransactionObject;
    PayloadReadsBack(str, parse, t.payload);
    TransactionFields(str, t);
  }

  /** The payload of a transaction lies under the name of its variant. */
  lemma PayloadField(str: AddressPrinter, p: Payload.TransactionPayload)
    requires RenderValue(str, "payload", TransactionPayload(ContentObject(p))).Some?
    ensures match p
            case ScriptPayload(t) =>
              Render(str, ScriptObject(t)).Some? &&
              RenderValue(str, "payload", TransactionPayload(ContentObject(p)))
              == Some(Dict(map["Script" := Dict(Render(str, ScriptObject(t)).value)]))
            case EntryPayload(f) =>
              Render(str, EntryObject(f)).Some? &&
              RenderValue(str, "payload", TransactionPayload(ContentObject(p)))
              == Some(Dict(map["EntryFunction" := Dict(Render(str, EntryObject(f)).value)]))
            case MultisigPayload(m) =>
              Render(str, MultisigObject(m)).Some? &&
              RenderValue(str, "payload", TransactionPayload(ContentObject(p)))
              == Some(Dict(map["Multisig" := Dict(Render(str, MultisigObject(m)).value)]))
  {
    hide Render, ScriptObject, EntryObject, MultisigObject;
  }

  /** What a request puts into the submitted dictionary, key by key. */
  lemma RequestDict(
      str: AddressPrinter, sender: Address, n: int, payload: Payload.TransactionPayload, maxGas: int, gasPrice: int,
      span: int, chain: Option<int>, now: int, networkChainId: int)
    requires RenderValue(str, "payload", TransactionPayload(ContentObject(payload))).Some?
    ensures var t := Transactions.CreateRawTx(sender, n, payload, maxGas, gasPrice, span, chain, now, networkChainId);
            Render(str, TransactionObject(t)).Some? &&
            var d := Render(str, TransactionObject(t)).value;
            ReadField(d, "sender") == Some(Plain(PyStr(str(sender)))) &&
            ReadField(d, "sequence_number") == Some(Plain(PyInt(n))) &&
            ReadField(d, "payload") == RenderValue(str, "payload", TransactionPayload(ContentObject(payload))) &&
            ReadField(d, "max_gas_amount") == Some(Plain(PyInt(maxGas))) &&
            ReadField(d, "gas_unit_price") == Some(Plain(PyInt(gasPrice))) &&
            ReadField(d, "expiration_timestamp_secs") == Some(Plain(PyInt(now + span))) &&
            ReadField(d, "chain_id") == Some(Plain(PyInt(Transactions.RequestedChain(chain, networkChainId))))
  {
    hide Render, RenderValue, ReadField, ContentObject, TransactionObject;
    TransactionFields(str, Transactions.CreateRawTx(sender, n, payload, maxGas, gasPrice, span, chain, now, networkChainId));
  }

  // ---------------------------------------------------------------- what can be sent as JSON

  /** `json.dumps` accepts it: no byte strings and no objects are left in it. */
  ghost predicate Sendable(j: Json) {
    match j
    case Plain(v) =>
      v.PyNone? || v.PyInt? || v.PyStr? || v == TypeTagList([]) || v == ByteStrings([]) || v == ScriptArguments([])
    case ByteLists(_) => true
    case CharLists(_) => true
    case Dict(entries) => forall k | k in entries :: Sendable(entries[k])
  }

  ghost predicate Submittable(str: AddressPrinter, o: PyObject) {
    Render(str, o).Some? && Sendable(Dict(Render(str, o).value))
  }

  /** An object can be submitted exactly when each of its visible attributes can. */
  lemma SubmittableIff(str: AddressPrinter, o: PyObject, keys: seq<string>)
    requires StoredAs(o.attrs, keys)
    ensures Submittable(str, o)
            <==> forall i | 0 <= i < |o.attrs| ::
                   var r := RenderValue(str, o.attrs[i].name, o.attrs[i].value); r.Some? && Sendable(r.value)
  {
    hide RenderValue, RenderAttrs, KeyOf, Hidden;
    RendersIff(str, o.attrs);
    if Render(str, o).Some? {
      RenderedEntries(str, o.attrs);
      var d := Render(str, o).value;
      assert Sendable(Dict(d)) <==> forall k | k in d :: Sendable(d[k]);
    }
  }

  lemma SendableWrapped(k: string, d: map<string, Json>)
    ensures Sendable(Dict(map[k := Dict(d)])) <==> Sendable(Dict(d))
  {
    var m := map[k := Dict(d)];
    assert k in m && m[k] == Dict(d);
  }

  lemma ModuleSubmittable(str: AddressPrinter, m: Payload.ModuleId)
    ensures Submittable(str, ModuleObject(m))
  {
    hide RenderAttrs, StoredAs;
    ModuleStored(m);
    SubmittableIff(str, ModuleObject(m), ["address", "name"]);
  }

  lemma EntrySubmittable(str: AddressPrinter, f: Payload.EntryFunction)
    ensures Render(str, EntryObject(f)).Some?
    ensures Submittable(str, EntryObject(f)) <==> f.tyArgs == []
  {
    hide RenderAttrs, StoredAs, ModuleObject;
    var o := EntryObject(f);
    EntryStored(f);
    ModuleSubmittable(str, f.moduleId);
    RendersIff(str, o.attrs);
    SubmittableIff(str, o, ["module", "function", "ty_args", "args"]);
    assert RenderValue(str, o.attrs[2].name, o.attrs[2].value) == Some(Plain(TypeTagList(f.tyArgs)));
  }

  lemma MultisigSubmittable(str: AddressPrinter, m: Payload.Multisig)
    ensures Render(str, MultisigObject(m)).Some?
    ensures Submittable(str, MultisigObject(m)) <==> NoTypeArguments(Payload.MultisigPayload(m))
  {
    hide RenderAttrs, StoredAs, EntryObject;
    var o := MultisigObject(m);
    MultisigStored(m);
    RendersIff(str, o.attrs);
    SubmittableIff(str, o, ["multisig_address", "transaction_payload"]);
    if m.payload.Some? {
      var f := m.payload.value.entry;
      EntrySubmittable(str, f);
      SendableWrapped("EntryFunction", Render(str, EntryObject(f)).value);
    }
    var r := RenderValue(str, o.attrs[1].name, o.attrs[1].value);
    assert r.Some? && (Sendable(r.value) <==> NoTypeArguments(Payload.MultisigPayload(m)));
  }

  lemma ScriptStored(t: Payload.Script)
    ensures StoredAs(ScriptObject(t).attrs, ["code", "ty_args", "args"])
  {
  }

  /** A script payload never gets through: its code stays a byte string. */
  lemma ScriptNotSubmittable(str: AddressPrinter, t: Payload.Script)
    ensures !Submittable(str, ScriptObject(t))
  {
    hide RenderAttrs, StoredAs;
    var o := ScriptObject(t);
    ScriptStored(t);
    SubmittableIff(str, o, ["code", "ty_args", "args"]);
    assert RenderValue(str, o.attrs[0].name, o.attrs[0].value) == Some(Plain(PyBytes(t.code)));
  }

  lemma PayloadSubmittable(str: AddressPrinter, p: Payload.TransactionPayload)
    ensures var r := RenderValue(str, "payload", TransactionPayload(ContentObject(p)));
            r.Some? && Sendable(r.value) <==> !p.ScriptPayload? && NoTypeArguments(p)
  {
    hide RenderAttrs, Render, EntryObject, MultisigObject, ScriptObject;
    match p
    case ScriptPayload(script) =>
      ScriptNotSubmittable(str, script);
      if Render(str, ScriptObject(script)).Some? {
        SendableWrapped("Script", Render(str, ScriptObject(script)).value);
      }
    case EntryPayload(entry) =>
      EntrySubmittable(str, entry);
      SendableWrapped("EntryFunction", Render(str, EntryObject(entry)).value);
    case MultisigPayload(multisig) =>
      MultisigSubmittable(str, multisig);
      SendableWrapped("Multisig", Render(str, MultisigObject(multisig)).value);
  }

  /**
   Exactly which transactions can be submitted: those that carry an entry function or a multisig
   payload without type arguments. Type tags and script code stay Python objects in the dictionary.
   */
  lemma TransactionSubmittable(str: AddressPrinter, t: Transactions.RawTransaction)
    ensures Submittable(str, TransactionObject(t)) <==> !t.payload.ScriptPayload? && NoTypeArguments(t.payload)
  {
    hide RenderAttrs, StoredAs, ContentObject, TransactionObject, NoTypeArguments;
    var o := SignedFields(t);
    PrehashDropped(str, t);
    TransactionStored(t);
    PayloadSubmittable(str, t.payload);
    SubmittableIff(str, o, TransactionKeys());
    assert Submittable(str, o) <==> Submittable(str, TransactionObject(t));
    var r := RenderValue(str, o.attrs[2].name, o.attrs[2].value);
    assert (r.Some? && Sendable(r.value)) <==> !t.payload.ScriptPayload? && NoTypeArguments(t.payload);
  }
}
