/**
 Transaction payloads: the three variants a transaction can carry, the nested optional payload of a
 multisig execution, and their serializers and deserializers.
 */
module Payload {
  import opened Wrappers
  import opened Bcs
  import opened Streams
  import TypeTags

  // ---------------------------------------------------------------- lists of byte strings

  function EncodeByteStrings(items: seq<Bytes>): Bytes {
    EncodeUleb(|items|) + EncodeItems(items)
  }

  function EncodeItems(items: seq<Bytes>): Bytes {
    if items == [] then [] else EncodeBytes(items[0]) + EncodeItems(items[1..])
  }

  predicate EncodableByteStrings(items: seq<Bytes>) {
    |items| <= MAX_U32 && forall i | 0 <= i < |items| :: |items[i]| <= MAX_U32
  }

  function DecodeByteStrings(strict: bool, input: Bytes): (r: Parsed<seq<Bytes>>)
    ensures r.Read? ==> |r.rest| < |input| && |r.value| <= MAX_U32
  {
    var (n, rest) :- DecodeUleb(strict, input);
    DecodeItems(strict, n, rest)
  }

  function DecodeItems(strict: bool, n: nat, input: Bytes): (r: Parsed<seq<Bytes>>)
    ensures r.Read? ==> |r.rest| <= |input| && |r.value| == n
  {
    if n == 0 then Read([], input)
    else
      var (b, i1) :- DecodeBytes(strict, input);
      var (bs, rest) :- DecodeItems(strict, n - 1, i1);
      Read([b] + bs, rest)
  }

  lemma {:induction false} EncodeItemsTake(items: seq<Bytes>, i: nat)
    requires i < |items|
    ensures EncodeItems(items[..i + 1]) == EncodeItems(items[..i]) + EncodeBytes(items[i])
  {
    if i > 0 {
      EncodeItemsTake(items[1..], i - 1);
      assert items[..i][1..] == items[1..][..i - 1];
      assert items[..i + 1][1..] == items[1..][..i];
    }
  }

  method SerializeByteStrings(items: seq<Bytes>, s: Serializer) returns (r: Outcome)
    modifies s
    ensures r.Pass? <==> EncodableByteStrings(items)
    ensures r.Pass? ==> s.output == old(s.output) + EncodeByteStrings(items)
  {
    hide EncodeUleb, EncodeBytes;
    ghost var before := s.output;
    :- s.Uleb128(|items|);
    ghost var start := s.output;
    for i := 0 to |items|
      invariant forall j | 0 <= j < i :: |items[j]| <= MAX_U32
      invariant s.output == start + EncodeItems(items[..i])
    {
      :- s.ToBytes(items[i]);
      EncodeItemsTake(items, i);
      Assoc(start, EncodeItems(items[..i]), EncodeBytes(items[i]));
    }
    assert items[..|items|] == items;
    Assoc(before, EncodeUleb(|items|), EncodeItems(items));
    return Pass;
  }

  method DeserializeByteStrings(d: Deserializer) returns (r: Option<seq<Bytes>>)
    requires d.Valid()
    modifies d
    ensures d.Valid() && d.pos >= old(d.pos)
    ensures Agrees(r, d.Remaining(), DecodeByteStrings(false, old(d.Remaining())))
  {
    hide DecodeUleb, DecodeBytes;
    var length :- d.Uleb128();
    ghost var start := d.Remaining();
    var values: seq<Bytes> := [];
    PrependNothing(DecodeItems(false, length, start));
    while |values| < length
      invariant d.Valid() && d.pos >= old(d.pos) && |values| <= length
      invariant Prepend(values, DecodeItems(false, length - |values|, d.Remaining()))
                == DecodeItems(false, length, start)
    {
      var b :- d.ToBytes();
      PrependSnoc(values, b, DecodeItems(false, length - |values| - 1, d.Remaining()));
      values := values + [b];
    }
    assert values + [] == values;
    return Some(values);
  }

  // ---------------------------------------------------------------- entry functions

  datatype ModuleId = ModuleId(address: Address, name: Text) {
    method Serialize(s: Serializer) returns (r: Outcome)
      modifies s
      ensures r.Pass? <==> |name| <= MAX_U32
      ensures r.Pass? ==> s.output == old(s.output) + EncodeModuleId(this)
    {
      ghost var before := s.output;
      s.FixedBytes(address);
      r := s.ToBytes(name);
      Assoc(before, address, EncodeBytes(name));
    }

    static method Deserialize(d: Deserializer) returns (r: Option<ModuleId>)
      requires d.Valid()
      modifies d
      ensures d.Valid() && d.pos >= old(d.pos)
      ensures Agrees(r, d.Remaining(), DecodeModuleId(false, old(d.Remaining())))
    {
      var address :- d.AccountAddress();
      var name :- d.Str();
      return Some(ModuleId(address, name));
    }
  }

  function EncodeModuleId(m: ModuleId): Bytes {
    m.address + EncodeBytes(m.name)
  }

  function DecodeModuleId(strict: bool, input: Bytes): (r: Parsed<ModuleId>)
    ensures r.Read? ==> |r.rest| < |input|
  {
    var (address, i1) :- DecodeAddress(input);
    var (name, rest) :- DecodeText(strict, i1);
    Read(ModuleId(address, name), rest)
  }

  datatype EntryFunction =
    EntryFunction(moduleId: ModuleId, name: Text, tyArgs: seq<TypeTags.TypeTag>, args: seq<Bytes>)
  {
    predicate Encodable() {
      |moduleId.name| <= MAX_U32 && |name| <= MAX_U32 &&
      TypeTags.EncodableSeq(tyArgs) && EncodableByteStrings(args)
    }

    method Serialize(s: Serializer) returns (r: Outcome)
      modifies s
      ensures r.Pass? <==> Encodable()
      ensures r.Pass? ==> s.output == old(s.output) + EncodeEntry(this)
    {
      hide EncodeModuleId, EncodeBytes, TypeTags.EncodeSeq, EncodeByteStrings, TypeTags.EncodableSeq, EncodableByteStrings;
      ghost var before := s.output;
      :- moduleId.Serialize(s);
      :- s.ToBytes(name);
      :- TypeTags.SerializeSeq(tyArgs, s);
      r := SerializeByteStrings(args, s);
      if r.Pass? {
        assert s.output == before + EncodeModuleId(moduleId) + EncodeBytes(name)
                           + TypeTags.EncodeSeq(tyArgs) + EncodeByteStrings(args);
      }
    }

    static method Deserialize(d: Deserializer) returns (r: Option<EntryFunction>)
      requires d.Valid()
      modifies d
      ensures d.Valid() && d.pos >= old(d.pos)
      ensures Agrees(r, d.Remaining(), DecodeEntry(false, old(d.Remaining())))
    {
      hide DecodeModuleId, DecodeText, TypeTags.DecodeSeq, DecodeByteStrings;
      var moduleId :- ModuleId.Deserialize(d);
      var name :- d.Str();
      var tyArgs :- TypeTags.DeserializeSeq(d);
      var args :- DeserializeByteStrings(d);
      return Some(EntryFunction(moduleId, name, tyArgs, args));
    }
  }

  function EncodeEntry(f: EntryFunction): Bytes {
    EncodeModuleId(f.moduleId) + (EncodeBytes(f.name) + (TypeTags.EncodeSeq(f.tyArgs) + EncodeByteStrings(f.args)))
  }

  function DecodeEntry(strict: bool, input: Bytes): (r: Parsed<EntryFunction>)
    ensures r.Read? ==> |r.rest| < |input|
  {
    var (moduleId, i1) :- DecodeModuleId(strict, input);
    var (name, i2) :- DecodeText(strict, i1);
    var (tyArgs, i3) :- TypeTags.DecodeSeq(strict, i2);
    var (args, rest) :- DecodeByteStrings(strict, i3);
    Read(EntryFunction(moduleId, name, tyArgs, args), rest)
  }

  // ---------------------------------------------------------------- scripts

  datatype IntKind = U8 | U16 | U32 | U64 | U128 | U256 {
    function Variant(): Byte {
      match this
      case U8 => 0
      case U64 => 1
      case U128 => 2
      case U16 => 6
      case U32 => 7
      case U256 => 8
    }

    /** The number of bytes on the wire. */
    function Width(): nat {
      match this
      case U8 => 1
      case U16 => 2
      case U32 => 4
      case U64 => 8
      case U128 => 16
      case U256 => 32
    }
  }

  function KindOf(variant: Byte): Option<IntKind> {
    match variant
    case 0 => Some(U8)
    case 1 => Some(U64)
    case 2 => Some(U128)
    case 6 => Some(U16)
    case 7 => Some(U32)
    case 8 => Some(U256)
    case _ => None
  }

  datatype ScriptArgument =
    | Int(kind: IntKind, value: int)
    | AddressArg(address: Address)
    | U8Vector(bytes: Bytes)
    | BoolArg(flag: bool)
  {
    function Variant(): Byte {
      match this
      case Int(kind, _) => kind.Variant()
      case AddressArg(_) => 3
      case U8Vector(_) => 4
      case BoolArg(_) => 5
    }

    predicate Encodable() {
      match this
      case Int(kind, value) => Fits(kind.Width(), value)
      case U8Vector(bytes) => |bytes| <= MAX_U32
      case _ => true
    }

    method Serialize(s: Serializer) returns (r: Outcome)
      modifies s
      ensures r.Pass? <==> Encodable()
      ensures r.Pass? ==> s.output == old(s.output) + EncodeScriptArgument(this)
    {
      hide EncodeBytes, LittleEndian, Pow256;
      ghost var before := s.output;
      s.FixedBytes([Variant()]);
      r := Pass;
      match this
      case Int(kind, value) => r := s.UInt(kind.Width(), value);
      case AddressArg(address) => s.FixedBytes(address);
      case U8Vector(bytes) => r := s.ToBytes(bytes);
      case BoolArg(flag) => s.Bool(flag);
      if r.Pass? {
        Assoc(before, [Variant()], ScriptArgumentBody(this));
      }
    }

    static method Deserialize(d: Deserializer) returns (r: Option<ScriptArgument>)
      requires d.Valid()
      modifies d
      ensures d.Valid() && d.pos >= old(d.pos)
      ensures Agrees(r, d.Remaining(), DecodeScriptArgument(false, old(d.Remaining())))
    {
      hide DecodeInt, DecodeAddress, DecodeBytes, DecodeBool;
      var variant :- d.FixedBytes(1);
      var kind := KindOf(variant[0]);
      if kind.Some? {
        var value :- d.UInt(kind.value.Width());
        r := Some(Int(kind.value, value));
      } else if variant[0] == 3 {
        var address :- d.AccountAddress();
        r := Some(AddressArg(address));
      } else if variant[0] == 4 {
        var bytes :- d.ToBytes();
        r := Some(U8Vector(bytes));
      } else if variant[0] == 5 {
        var flag :- d.Bool();
        r := Some(BoolArg(flag));
      } else {
        r := None;
      }
    }
  }

  function EncodeScriptArgument(a: ScriptArgument): Bytes
    requires a.Encodable()
  {
    [a.Variant()] + ScriptArgumentBody(a)
  }

  function ScriptArgumentBody(a: ScriptArgument): Bytes
    requires a.Encodable()
  {
    match a
    case Int(kind, value) => LittleEndian(kind.Width(), value)
    case AddressArg(address) => address
    case U8Vector(bytes) => EncodeBytes(bytes)
    case BoolArg(flag) => EncodeBool(flag)
  }

  function DecodeScriptArgument(strict: bool, input: Bytes): (r: Parsed<ScriptArgument>)
    ensures r.Read? ==> |r.rest| < |input|
  {
    if input == [] then Malformed else DecodeScriptArgumentBody(strict, input[0], input[1..])
  }

  function DecodeScriptArgumentBody(strict: bool, variant: Byte, input: Bytes): (r: Parsed<ScriptArgument>)
    ensures r.Read? ==> |r.rest| <= |input|
  {
    match KindOf(variant)
    case Some(kind) =>
      var (value, rest) :- DecodeInt(kind.Width(), input);
      Read(Int(kind, value), rest)
    case None =>
      if variant == 3 then
        var (address, rest) :- DecodeAddress(input);
        Read(AddressArg(address), rest)
      else if variant == 4 then
        var (bytes, rest) :- DecodeBytes(strict, input);
        Read(U8Vector(bytes), rest)
      else if variant == 5 then
        var (flag, rest) :- DecodeBool(input);
        Read(BoolArg(flag), rest)
      else Malformed
  }

  predicate EncodableScriptArguments(items: seq<ScriptArgument>) {
    |items| <= MAX_U32 && forall i | 0 <= i < |items| :: items[i].Encodable()
  }

  function EncodeScriptArguments(items: seq<ScriptArgument>): Bytes
    requires EncodableScriptArguments(items)
  {
    EncodeUleb(|items|) + EncodeScriptItems(items)
  }

  function EncodeScriptItems(items: seq<ScriptArgument>): Bytes
    requires forall i | 0 <= i < |items| :: items[i].Encodable()
  {
    if items == [] then [] else EncodeScriptArgument(items[0]) + EncodeScriptItems(items[1..])
  }

  function DecodeScriptArguments(strict: bool, input: Bytes): (r: Parsed<seq<ScriptArgument>>)
    ensures r.Read? ==> |r.rest| < |input| && |r.value| <= MAX_U32
  {
    var (n, rest) :- DecodeUleb(strict, input);
    DecodeScriptItems(strict, n, rest)
  }

  function DecodeScriptItems(strict: bool, n: nat, input: Bytes): (r: Parsed<seq<ScriptArgument>>)
    ensures r.Read? ==> |r.rest| <= |input| && |r.value| == n
  {
    if n == 0 then Read([], input)
    else
      var (a, i1) :- DecodeScriptArgument(strict, input);
      var (later, rest) :- DecodeScriptItems(strict, n - 1, i1);
      Read([a] + later, rest)
  }

  lemma {:induction false} EncodeScriptItemsTake(items: seq<ScriptArgument>, i: nat)
    requires i < |items| && forall j | 0 <= j <= i :: items[j].Encodable()
    ensures EncodeScriptItems(items[..i + 1]) == EncodeScriptItems(items[..i]) + EncodeScriptArgument(items[i])
  {
    if i > 0 {
      EncodeScriptItemsTake(items[1..], i - 1);
      assert items[..i][1..] == items[1..][..i - 1];
      assert items[..i + 1][1..] == items[1..][..i];
    }
  }

  method SerializeScriptArguments(items: seq<ScriptArgument>, s: Serializer) returns (r: Outcome)
    modifies s
    ensures r.Pass? <==> EncodableScriptArguments(items)
    ensures r.Pass? ==> s.output == old(s.output) + EncodeScriptArguments(items)
  {
    hide EncodeUleb, EncodeScriptArgument, ScriptArgument.Encodable;
    ghost var before := s.output;
    :- s.Uleb128(|items|);
    ghost var start := s.output;
    for i := 0 to |items|
      invariant forall j | 0 <= j < i :: items[j].Encodable()
      invariant s.output == start + EncodeScriptItems(items[..i])
    {
      :- items[i].Serialize(s);
      EncodeScriptItemsTake(items, i);
      Assoc(start, EncodeScriptItems(items[..i]), EncodeScriptArgument(items[i]));
    }
    assert items[..|items|] == items;
    Assoc(before, EncodeUleb(|items|), EncodeScriptItems(items));
    return Pass;
  }

  method DeserializeScriptArguments(d: Deserializer) returns (r: Option<seq<ScriptArgument>>)
    requires d.Valid()
    modifies d
    ensures d.Valid() && d.pos >= old(d.pos)
    ensures Agrees(r, d.Remaining(), DecodeScriptArguments(false, old(d.Remaining())))
  {
    hide DecodeUleb, DecodeScriptArgument;
    var length :- d.Uleb128();
    ghost var start := d.Remaining();
    var values: seq<ScriptArgument> := [];
    PrependNothing(DecodeScriptItems(false, length, start));
    while |values| < length
      invariant d.Valid() && d.pos >= old(d.pos) && |values| <= length
      invariant Prepend(values, DecodeScriptItems(false, length - |values|, d.Remaining()))
                == DecodeScriptItems(false, length, start)
    {
      var a :- ScriptArgument.Deserialize(d);
      PrependSnoc(values, a, DecodeScriptItems(false, length - |values| - 1, d.Remaining()));
      values := values + [a];
    }
    assert values + [] == values;
    return Some(values);
  }

  datatype Script = Script(code: Bytes, tyArgs: seq<TypeTags.TypeTag>, args: seq<ScriptArgument>) {
    predicate Encodable() {
      |code| <= MAX_U32 && TypeTags.EncodableSeq(tyArgs) && EncodableScriptArguments(args)
    }

    method Serialize(s: Serializer) returns (r: Outcome)
      modifies s
      ensures r.Pass? <==> Encodable()
      ensures r.Pass? ==> s.output == old(s.output) + EncodeScript(this)
    {
      hide EncodeBytes, TypeTags.EncodeSeq, EncodeScriptArguments, TypeTags.EncodableSeq, EncodableScriptArguments;
      ghost var before := s.output;
      :- s.ToBytes(code);
      :- TypeTags.SerializeSeq(tyArgs, s);
      r := SerializeScriptArguments(args, s);
      if r.Pass? {
        assert s.output == before + EncodeBytes(code) + TypeTags.EncodeSeq(tyArgs) + EncodeScriptArguments(args);
      }
    }

    static method Deserialize(d: Deserializer) returns (r: Option<Script>)
      requires d.Valid()
      modifies d
      ensures d.Valid() && d.pos >= old(d.pos)
      ensures Agrees(r, d.Remaining(), DecodeScript(false, old(d.Remaining())))
    {
      hide DecodeBytes, TypeTags.DecodeSeq, DecodeScriptArguments;
      var code :- d.ToBytes();
      var tyArgs :- TypeTags.DeserializeSeq(d);
      var args :- DeserializeScriptArguments(d);
      return Some(Script(code, tyArgs, args));
    }
  }

  function EncodeScript(t: Script): Bytes
    requires t.Encodable()
  {
    EncodeBytes(t.code) + (TypeTags.EncodeSeq(t.tyArgs) + EncodeScriptArguments(t.args))
  }

  function DecodeScript(strict: bool, input: Bytes): (r: Parsed<Script>)
    ensures r.Read? ==> |r.rest| < |input|
  {
    var (code, i1) :- DecodeBytes(strict, input);
    var (tyArgs, i2) :- TypeTags.DecodeSeq(strict, i1);
    var (args, rest) :- DecodeScriptArguments(strict, i2);
    Read(Script(code, tyArgs, args), rest)
  }

  // ---------------------------------------------------------------- multisig payloads

  datatype MultiSigTransactionPayload = MultiSigTransactionPayload(entry: EntryFunction) {
    method Serialize(s: Serializer) returns (r: Outcome)
      modifies s
      ensures r.Pass? <==> entry.Encodable()
      ensures r.Pass? ==> s.output == old(s.output) + EncodeInner(this)
    {
      hide EncodeEntry, EntryFunction.Encodable;
      ghost var before := s.output;
      var tagged := s.Uleb128(0);
      r := entry.Serialize(s);
      Assoc(before, EncodeUleb(0), EncodeEntry(entry));
    }

    /** The inner tag is read and dropped. */
    static method Deserialize(d: Deserializer) returns (r: Option<MultiSigTransactionPayload>)
      requires d.Valid()
      modifies d
      ensures d.Valid() && d.pos >= old(d.pos)
      ensures Agrees(r, d.Remaining(), DecodeInner(false, old(d.Remaining())))
    {
      hide DecodeUleb, DecodeEntry;
      var tag :- d.Uleb128();
      var entry :- EntryFunction.Deserialize(d);
      return Some(MultiSigTransactionPayload(entry));
    }
  }

  function EncodeInner(p: MultiSigTransactionPayload): Bytes {
    EncodeUleb(0) + EncodeEntry(p.entry)
  }

  function DecodeInner(strict: bool, input: Bytes): (r: Parsed<MultiSigTransactionPayload>)
    ensures r.Read? ==> |r.rest| < |input|
  {
    var (tag, i1) :- DecodeUleb(strict, input);
    var (entry, rest) :- DecodeEntry(strict, i1);
    Read(MultiSigTransactionPayload(entry), rest)
  }

  datatype Multisig = Multisig(address: Address, payload: Option<MultiSigTransactionPayload>) {
    predicate Encodable() {
      payload.Some? ==> payload.value.entry.Encodable()
    }

    method Serialize(s: Serializer) returns (r: Outcome)
      modifies s
      ensures r.Pass? <==> Encodable()
      ensures r.Pass? ==> s.output == old(s.output) + EncodeMultisig(this)
    {
      hide EncodeInner, EntryFunction.Encodable;
      ghost var before := s.output;
      s.FixedBytes(address);
      s.Bool(payload.Some?);
      r := Pass;
      if payload.Some? {
        r := payload.value.Serialize(s);
      }
      if r.Pass? {
        assert s.output == before + address + EncodeBool(payload.Some?) + EncodeOptional(payload);
      }
    }

    static method Deserialize(d: Deserializer) returns (r: Option<Multisig>)
      requires d.Valid()
      modifies d
      ensures d.Valid() && d.pos >= old(d.pos)
      ensures Agrees(r, d.Remaining(), DecodeMultisig(false, old(d.Remaining())))
    {
      hide DecodeAddress, DecodeBool, DecodeInner;
      var address :- d.AccountAddress();
      var present :- d.Bool();
      var payload: Option<MultiSigTransactionPayload> := None;
      if present {
        var inner :- MultiSigTransactionPayload.Deserialize(d);
        payload := Some(inner);
      }
      return Some(Multisig(address, payload));
    }
  }

  function EncodeOptional(p: Option<MultiSigTransactionPayload>): Bytes {
    if p.Some? then EncodeInner(p.value) else []
  }

  function EncodeMultisig(m: Multisig): Bytes {
    m.address + (EncodeBool(m.payload.Some?) + EncodeOptional(m.payload))
  }

  function DecodeMultisig(strict: bool, input: Bytes): (r: Parsed<Multisig>)
    ensures r.Read? ==> |r.rest| < |input|
  {
    var (address, i1) :- DecodeAddress(input);
    var (present, i2) :- DecodeBool(i1);
    if present then
      var (inner, rest) :- DecodeInner(strict, i2);
      Read(Multisig(address, Some(inner)), rest)
    else
      Read(Multisig(address, None), i2)
  }

  // ---------------------------------------------------------------- transaction payloads

  const SCRIPT: nat := 0
  const SCRIPT_FUNCTION: nat := 2
  const MULTISIG: nat := 3

  datatype TransactionPayload =
    | ScriptPayload(script: Script)
    | EntryPayload(entry: EntryFunction)
    | MultisigPayload(multisig: Multisig)
  {
    function Variant(): (v: nat)
      ensures v <= 3
    {
      match this
      case ScriptPayload(_) => SCRIPT
      case EntryPayload(_) => SCRIPT_FUNCTION
      case MultisigPayload(_) => MULTISIG
    }

    predicate Encodable() {
      match this
      case ScriptPayload(script) => script.Encodable()
      case EntryPayload(entry) => entry.Encodable()
      case MultisigPayload(multisig) => multisig.Encodable()
    }

    method Serialize(s: Serializer) returns (r: Outcome)
      modifies s
      ensures r.Pass? <==> Encodable()
      ensures r.Pass? ==> s.output == old(s.output) + EncodePayload(this)
    {
      hide EncodeUleb, EncodeScript, EncodeEntry, EncodeMultisig;
      hide Script.Encodable, EntryFunction.Encodable, Multisig.Encodable;
      ghost var before := s.output;
      var tagged := s.Uleb128(Variant());
      match this
      case ScriptPayload(script) => r := script.Serialize(s);
      case EntryPayload(entry) => r := entry.Serialize(s);
      case MultisigPayload(multisig) => r := multisig.Serialize(s);
      if r.Pass? {
        Assoc(before, EncodeUleb(Variant()), EncodePayloadBody(this));
      }
    }

    static method Deserialize(d: Deserializer) returns (r: Option<TransactionPayload>)
      requires d.Valid()
      modifies d
      ensures d.Valid() && d.pos >= old(d.pos)
      ensures Agrees(r, d.Remaining(), DecodePayload(false, old(d.Remaining())))
      ensures r.Some? ==> d.pos > old(d.pos)
    {
      hide DecodeUleb, DecodeScript, DecodeEntry, DecodeMultisig;
      var variant :- d.Uleb128();
      if variant == SCRIPT {
        var script :- Script.Deserialize(d);
        r := Some(ScriptPayload(script));
      } else if variant == SCRIPT_FUNCTION {
        var entry :- EntryFunction.Deserialize(d);
        r := Some(EntryPayload(entry));
      } else if variant == MULTISIG {
        var multisig :- Multisig.Deserialize(d);
        r := Some(MultisigPayload(multisig));
      } else {
        r := None;
      }
    }
  }

  function EncodePayload(p: TransactionPayload): Bytes
    requires p.Encodable()
  {
    EncodeUleb(p.Variant()) + EncodePayloadBody(p)
  }

  function EncodePayloadBody(p: TransactionPayload): Bytes
    requires p.Encodable()
  {
    match p
    case ScriptPayload(script) => EncodeScript(script)
    case EntryPayload(entry) => EncodeEntry(entry)
    case MultisigPayload(multisig) => EncodeMultisig(multisig)
  }

  function DecodePayload(strict: bool, input: Bytes): (r: Parsed<TransactionPayload>)
    ensures r.Read? ==> |r.rest| < |input|
  {
    var (variant, i1) :- DecodeUleb(strict, input);
    if variant == SCRIPT then
      var (script, rest) :- DecodeScript(strict, i1);
      Read(ScriptPayload(script), rest)
    else if variant == SCRIPT_FUNCTION then
      var (entry, rest) :- DecodeEntry(strict, i1);
      Read(EntryPayload(entry), rest)
    else if variant == MULTISIG then
      var (multisig, rest) :- DecodeMultisig(strict, i1);
      Read(MultisigPayload(multisig), rest)
    else Malformed
  }
}
