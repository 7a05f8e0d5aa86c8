/** What the payload codec guarantees, for every payload and for every byte string. */
module PayloadLaws {
  import opened Wrappers
  import opened Bcs
  import TypeTags
  import opened Payload

  // ---------------------------------------------------------------- type tags

  lemma SimpleVariant(t: TypeTags.TypeTag)
    requires !t.Vector? && !t.Struct?
    ensures TypeTags.Simple(t.Variant()) == Some(t)
  {
  }

  lemma SimpleOnly(v: nat, t: TypeTags.TypeTag)
    requires TypeTags.Simple(v) == Some(t)
    ensures t.Variant() == v && TypeTags.Body(t) == []
  {
  }

  lemma {:induction false} TagRoundTrip(strict: bool, t: TypeTags.TypeTag, tail: Bytes)
    requires TypeTags.Encodable(t)
    ensures TypeTags.Decode(strict, TypeTags.Encode(t) + tail) == Read(t, tail)
    decreases t, 1
  {
    hide EncodeUleb, DecodeUleb, TypeTags.DecodeStruct, TypeTags.EncodeSeq, EncodeBytes;
    Assoc(EncodeUleb(t.Variant()), TypeTags.Body(t), tail);
    UlebRoundTrip(strict, t.Variant(), TypeTags.Body(t) + tail);
    match t
    case Vector(elem) => TagRoundTrip(strict, elem, tail);
    case Struct(_, _, _, _) => StructRoundTrip(strict, t, tail);
    case _ => SimpleVariant(t);
  }

  lemma {:induction false} StructRoundTrip(strict: bool, t: TypeTags.TypeTag, tail: Bytes)
    requires t.Struct? && TypeTags.Encodable(t)
    ensures TypeTags.DecodeStruct(strict, TypeTags.Body(t) + tail) == Read(t, tail)
    decreases t, 0
  {
    hide EncodeBytes, DecodeText, TypeTags.EncodeSeq, TypeTags.DecodeSeq;
    var i3 := TypeTags.EncodeSeq(t.typeArgs) + tail;
    var i2 := EncodeBytes(t.name) + i3;
    var i1 := EncodeBytes(t.moduleName) + i2;
    assert TypeTags.Body(t) + tail == t.address + i1;
    FixedRoundTrip(t.address, i1);
    TextRoundTrip(strict, t.moduleName, i2);
    TextRoundTrip(strict, t.name, i3);
    TagSeqRoundTrip(strict, t.typeArgs, tail);
  }

  lemma {:induction false} TagSeqRoundTrip(strict: bool, ts: seq<TypeTags.TypeTag>, tail: Bytes)
    requires TypeTags.EncodableSeq(ts)
    ensures TypeTags.DecodeSeq(strict, TypeTags.EncodeSeq(ts) + tail) == Read(ts, tail)
    decreases ts, 1
  {
    hide EncodeUleb, DecodeUleb, TypeTags.EncodeAll, TypeTags.DecodeAll;
    Assoc(EncodeUleb(|ts|), TypeTags.EncodeAll(ts), tail);
    UlebRoundTrip(strict, |ts|, TypeTags.EncodeAll(ts) + tail);
    TagsRoundTrip(strict, ts, tail);
  }

  lemma {:induction false} TagsRoundTrip(strict: bool, ts: seq<TypeTags.TypeTag>, tail: Bytes)
    requires forall i | 0 <= i < |ts| :: TypeTags.Encodable(ts[i])
    ensures TypeTags.DecodeAll(strict, |ts|, TypeTags.EncodeAll(ts) + tail) == Read(ts, tail)
    decreases ts, 0
  {
    hide TypeTags.Encode, TypeTags.Decode, TypeTags.Encodable;
    if ts == [] {
      assert [] + tail == tail;
    } else {
      Assoc(TypeTags.Encode(ts[0]), TypeTags.EncodeAll(ts[1..]), tail);
      TagRoundTrip(strict, ts[0], TypeTags.EncodeAll(ts[1..]) + tail);
      TagsRoundTrip(strict, ts[1..], tail);
      assert ts == [ts[0]] + ts[1..];
    }
  }

  // ---------------------------------------------------------------- lists

  lemma {:induction false} ItemsRoundTrip(strict: bool, items: seq<Bytes>, tail: Bytes)
    requires forall i | 0 <= i < |items| :: |items[i]| <= MAX_U32
    ensures DecodeItems(strict, |items|, EncodeItems(items) + tail) == Read(items, tail)
  {
    hide EncodeBytes, DecodeBytes;
    if items == [] {
      assert [] + tail == tail;
    } else {
      Assoc(EncodeBytes(items[0]), EncodeItems(items[1..]), tail);
      BytesRoundTrip(strict, items[0], EncodeItems(items[1..]) + tail);
      ItemsRoundTrip(strict, items[1..], tail);
      assert items == [items[0]] + items[1..];
    }
  }

  lemma ByteStringsRoundTrip(strict: bool, items: seq<Bytes>, tail: Bytes)
    requires EncodableByteStrings(items)
    ensures DecodeByteStrings(strict, EncodeByteStrings(items) + tail) == Read(items, tail)
  {
    hide EncodeUleb, DecodeUleb, EncodeItems, DecodeItems;
    Assoc(EncodeUleb(|items|), EncodeItems(items), tail);
    UlebRoundTrip(strict, |items|, EncodeItems(items) + tail);
    ItemsRoundTrip(strict, items, tail);
  }

  lemma ScriptBodyRoundTrip(strict: bool, a: ScriptArgument, tail: Bytes)
    requires a.Encodable()
    ensures DecodeScriptArgumentBody(strict, a.Variant(), ScriptArgumentBody(a) + tail) == Read(a, tail)
  {
    hide EncodeBytes, DecodeBytes, LittleEndian, DecodeInt, Pow256;
    match a
    case Int(kind, value) => IntRoundTrip(kind.Width(), value, tail);
    case AddressArg(address) => FixedRoundTrip(address, tail);
    case U8Vector(bytes) => BytesRoundTrip(strict, bytes, tail);
    case BoolArg(flag) => assert (EncodeBool(flag) + tail)[1..] == tail;
  }

  lemma ScriptArgumentRoundTrip(strict: bool, a: ScriptArgument, tail: Bytes)
    requires a.Encodable()
    ensures DecodeScriptArgument(strict, EncodeScriptArgument(a) + tail) == Read(a, tail)
  {
    hide ScriptArgument.Encodable, ScriptArgumentBody, DecodeScriptArgumentBody;
    ScriptBodyRoundTrip(strict, a, tail);
    assert (EncodeScriptArgument(a) + tail)[1..] == ScriptArgumentBody(a) + tail;
  }

  lemma {:induction false} ScriptItemsRoundTrip(strict: bool, items: seq<ScriptArgument>, tail: Bytes)
    requires forall i | 0 <= i < |items| :: items[i].Encodable()
    ensures DecodeScriptItems(strict, |items|, EncodeScriptItems(items) + tail) == Read(items, tail)
  {
    hide EncodeScriptArgument, DecodeScriptArgument, ScriptArgument.Encodable;
    if items == [] {
      assert [] + tail == tail;
    } else {
      Assoc(EncodeScriptArgument(items[0]), EncodeScriptItems(items[1..]), tail);
      ScriptArgumentRoundTrip(strict, items[0], EncodeScriptItems(items[1..]) + tail);
      ScriptItemsRoundTrip(strict, items[1..], tail);
      assert items == [items[0]] + items[1..];
    }
  }

  // ---------------------------------------------------------------- round trips

  lemma EntryRoundTrip(strict: bool, f: EntryFunction, tail: Bytes)
    requires f.Encodable()
    ensures DecodeEntry(strict, EncodeEntry(f) + tail) == Read(f, tail)
  {
    hide EncodeBytes, DecodeText, TypeTags.EncodeSeq, TypeTags.DecodeSeq, EncodeByteStrings, DecodeByteStrings;
    hide TypeTags.EncodableSeq, EncodableByteStrings;
    var i3 := EncodeByteStrings(f.args) + tail;
    var i2 := TypeTags.EncodeSeq(f.tyArgs) + i3;
    var i1 := EncodeBytes(f.name) + i2;
    var i0 := EncodeBytes(f.moduleId.name) + i1;
    assert EncodeEntry(f) + tail == f.moduleId.address + i0;
    FixedRoundTrip(f.moduleId.address, i0);
    TextRoundTrip(strict, f.moduleId.name, i1);
    TextRoundTrip(strict, f.name, i2);
    TagSeqRoundTrip(strict, f.tyArgs, i3);
    ByteStringsRoundTrip(strict, f.args, tail);
  }

  lemma ScriptRoundTrip(strict: bool, t: Script, tail: Bytes)
    requires t.Encodable()
    ensures DecodeScript(strict, EncodeScript(t) + tail) == Read(t, tail)
  {
    hide EncodeBytes, DecodeBytes, TypeTags.EncodeSeq, TypeTags.DecodeSeq, EncodeUleb, DecodeUleb;
    hide TypeTags.EncodableSeq, EncodeScriptItems, DecodeScriptItems;
    var i3 := EncodeScriptItems(t.args) + tail;
    var i2 := EncodeUleb(|t.args|) + i3;
    var i1 := TypeTags.EncodeSeq(t.tyArgs) + i2;
    assert EncodeScript(t) + tail == EncodeBytes(t.code) + i1;
    BytesRoundTrip(strict, t.code, i1);
    TagSeqRoundTrip(strict, t.tyArgs, i2);
    UlebRoundTrip(strict, |t.args|, i3);
    ScriptItemsRoundTrip(strict, t.args, tail);
  }

  lemma InnerRoundTrip(strict: bool, p: MultiSigTransactionPayload, tail: Bytes)
    requires p.entry.Encodable()
    ensures DecodeInner(strict, EncodeInner(p) + tail) == Read(p, tail)
  {
    hide EncodeUleb, DecodeUleb, EncodeEntry, DecodeEntry, EntryFunction.Encodable;
    Assoc(EncodeUleb(0), EncodeEntry(p.entry), tail);
    UlebRoundTrip(strict, 0, EncodeEntry(p.entry) + tail);
    EntryRoundTrip(strict, p.entry, tail);
  }

  lemma MultisigRoundTrip(strict: bool, m: Multisig, tail: Bytes)
    requires m.Encodable()
    ensures DecodeMultisig(strict, EncodeMultisig(m) + tail) == Read(m, tail)
  {
    hide EncodeInner, DecodeInner, EntryFunction.Encodable;
    var i2 := EncodeOptional(m.payload) + tail;
    var i1 := EncodeBool(m.payload.Some?) + i2;
    assert EncodeMultisig(m) + tail == m.address + i1;
    FixedRoundTrip(m.address, i1);
    assert i1[1..] == i2;
    if m.payload.Some? {
      InnerRoundTrip(strict, m.payload.value, tail);
    } else {
      assert i2 == tail;
    }
  }

  /**
   Whatever is serialized reads back as itself, and the cursor stops exactly where the payload ends,
   whatever follows. This holds for the client's reader and for the strict one.
   */
  lemma PayloadRoundTrip(strict: bool, p: TransactionPayload, tail: Bytes)
    requires p.Encodable()
    ensures DecodePayload(strict, EncodePayload(p) + tail) == Read(p, tail)
  {
    hide EncodeUleb, DecodeUleb, EncodeScript, DecodeScript, EncodeEntry, DecodeEntry, EncodeMultisig, DecodeMultisig;
    hide Script.Encodable, EntryFunction.Encodable, Multisig.Encodable;
    Assoc(EncodeUleb(p.Variant()), EncodePayloadBody(p), tail);
    UlebRoundTrip(strict, p.Variant(), EncodePayloadBody(p) + tail);
    match p
    case ScriptPayload(script) => ScriptRoundTrip(strict, script, tail);
    case EntryPayload(entry) => EntryRoundTrip(strict, entry, tail);
    case MultisigPayload(multisig) => MultisigRoundTrip(strict, multisig, tail);
  }

  /**
   Unique decodability: a payload and what follows it can be told apart in only one way. With
   `q`'s bytes a prefix of `p`'s this says that no serialized payload is a proper prefix of another.
   */
  lemma PayloadUniquelyDecodable(p: TransactionPayload, q: TransactionPayload, a: Bytes, b: Bytes)
    requires p.Encodable() && q.Encodable()
    requires EncodePayload(p) + a == EncodePayload(q) + b
    ensures p == q && a == b
  {
    hide EncodePayload, DecodePayload, TransactionPayload.Encodable;
    PayloadRoundTrip(true, p, a);
    PayloadRoundTrip(true, q, b);
  }

  lemma PayloadPrefixFree(p: TransactionPayload, q: TransactionPayload)
    requires p.Encodable() && q.Encodable()
    requires EncodePayload(p) <= EncodePayload(q)
    ensures p == q
  {
    hide EncodePayload, TransactionPayload.Encodable;
    var rest := EncodePayload(q)[|EncodePayload(p)|..];
    assert EncodePayload(p) + rest == EncodePayload(q) + [];
    PayloadUniquelyDecodable(p, q, rest, []);
  }

  // ---------------------------------------------------------------- decoded values can be written again

  lemma {:induction false} TagDecodedEncodable(strict: bool, input: Bytes)
    requires TypeTags.Decode(strict, input).Read?
    ensures TypeTags.Encodable(TypeTags.Decode(strict, input).value)
    decreases |input|, 0
  {
    hide DecodeUleb, TypeTags.DecodeStruct;
    var variant := DecodeUleb(strict, input);
    if variant.value == 6 {
      TagDecodedEncodable(strict, variant.rest);
    } else if variant.value == 7 {
      StructDecodedEncodable(strict, variant.rest);
    } else {
      SimpleOnly(variant.value, TypeTags.Decode(strict, input).value);
    }
  }

  lemma {:induction false} StructDecodedEncodable(strict: bool, input: Bytes)
    requires TypeTags.DecodeStruct(strict, input).Read?
    ensures TypeTags.Encodable(TypeTags.DecodeStruct(strict, input).value)
    ensures TypeTags.DecodeStruct(strict, input).value.Struct?
    decreases |input|, 1, 1
  {
    hide DecodeText, TypeTags.DecodeSeq;
    var i1 := DecodeAddress(input).rest;
    var i2 := DecodeText(strict, i1).rest;
    var i3 := DecodeText(strict, i2).rest;
    TagSeqDecodedEncodable(strict, i3);
  }

  lemma {:induction false} TagSeqDecodedEncodable(strict: bool, input: Bytes)
    requires TypeTags.DecodeSeq(strict, input).Read?
    ensures TypeTags.EncodableSeq(TypeTags.DecodeSeq(strict, input).value)
    decreases |input|, 1, 0
  {
    hide DecodeUleb, TypeTags.DecodeAll, TypeTags.Encodable;
    var n := DecodeUleb(strict, input);
    TagsDecodedEncodable(strict, n.value, n.rest);
  }

  lemma {:induction false} TagsDecodedEncodable(strict: bool, n: nat, input: Bytes)
    requires TypeTags.DecodeAll(strict, n, input).Read?
    ensures forall i | 0 <= i < n :: TypeTags.Encodable(TypeTags.DecodeAll(strict, n, input).value[i])
    decreases |input|, 2, n
  {
    hide TypeTags.Decode, TypeTags.Encodable;
    if n > 0 {
      TagDecodedEncodable(strict, input);
      TagsDecodedEncodable(strict, n - 1, TypeTags.Decode(strict, input).rest);
    }
  }

  lemma {:induction false} ItemsDecodedEncodable(strict: bool, n: nat, input: Bytes)
    requires DecodeItems(strict, n, input).Read?
    ensures forall i | 0 <= i < n :: |DecodeItems(strict, n, input).value[i]| <= MAX_U32
  {
    hide DecodeBytes;
    if n > 0 {
      ItemsDecodedEncodable(strict, n - 1, DecodeBytes(strict, input).rest);
    }
  }

  lemma ScriptArgumentDecodedEncodable(strict: bool, input: Bytes)
    requires DecodeScriptArgument(strict, input).Read?
    ensures DecodeScriptArgument(strict, input).value.Encodable()
  {
    hide DecodeBytes, DecodeAddress, DecodeBool, DecodeInt, Pow256, LittleEndian;
    var kind := KindOf(input[0]);
    if kind.Some? {
      IntReencode(kind.value.Width(), input[1..]);
    }
  }

  lemma {:induction false} ScriptItemsDecodedEncodable(strict: bool, n: nat, input: Bytes)
    requires DecodeScriptItems(strict, n, input).Read?
    ensures forall i | 0 <= i < n :: DecodeScriptItems(strict, n, input).value[i].Encodable()
  {
    hide DecodeScriptArgument, ScriptArgument.Encodable;
    if n > 0 {
      ScriptArgumentDecodedEncodable(strict, input);
      ScriptItemsDecodedEncodable(strict, n - 1, DecodeScriptArgument(strict, input).rest);
    }
  }

  lemma EntryDecodedEncodable(strict: bool, input: Bytes)
    requires DecodeEntry(strict, input).Read?
    ensures DecodeEntry(strict, input).value.Encodable()
  {
    hide DecodeText, TypeTags.DecodeSeq, TypeTags.EncodableSeq, DecodeUleb, DecodeItems;
    var i1 := DecodeModuleId(strict, input).rest;
    var i2 := DecodeText(strict, i1).rest;
    TagSeqDecodedEncodable(strict, i2);
    var i3 := TypeTags.DecodeSeq(strict, i2).rest;
    var n := DecodeUleb(strict, i3);
    ItemsDecodedEncodable(strict, n.value, n.rest);
  }

  lemma ScriptDecodedEncodable(strict: bool, input: Bytes)
    requires DecodeScript(strict, input).Read?
    ensures DecodeScript(strict, input).value.Encodable()
  {
    hide DecodeBytes, TypeTags.DecodeSeq, TypeTags.EncodableSeq, DecodeUleb, DecodeScriptItems, ScriptArgument.Encodable;
    var i1 := DecodeBytes(strict, input).rest;
    TagSeqDecodedEncodable(strict, i1);
    var i2 := TypeTags.DecodeSeq(strict, i1).rest;
    var n := DecodeUleb(strict, i2);
    ScriptItemsDecodedEncodable(strict, n.value, n.rest);
  }

  lemma PayloadDecodedEncodable(strict: bool, input: Bytes)
    requires DecodePayload(strict, input).Read?
    ensures DecodePayload(strict, input).value.Encodable()
  {
    hide DecodeUleb, DecodeScript, DecodeEntry, DecodeAddress, DecodeBool;
    hide Script.Encodable, EntryFunction.Encodable;
    var body := DecodeUleb(strict, input).rest;
    match DecodePayload(strict, input).value
    case ScriptPayload(_) => ScriptDecodedEncodable(strict, body);
    case EntryPayload(_) => EntryDecodedEncodable(strict, body);
    case MultisigPayload(multisig) =>
      if multisig.payload.Some? {
        var i2 := DecodeBool(DecodeAddress(body).rest).rest;
        EntryDecodedEncodable(strict, DecodeUleb(strict, i2).rest);
      }
  }

  /**
   Decode then encode is a normalisation: whatever the client's reader accepts can be written, and
   what is written reads back as the same payload.
   */
  lemma PayloadNormalises(input: Bytes)
    requires DecodePayload(false, input).Read?
    ensures var p := DecodePayload(false, input).value;
            p.Encodable() && DecodePayload(false, EncodePayload(p)) == Read(p, [])
  {
    PayloadDecodedEncodable(false, input);
    var p := DecodePayload(false, input).value;
    PayloadRoundTrip(false, p, []);
    assert EncodePayload(p) + [] == EncodePayload(p);
  }
}
