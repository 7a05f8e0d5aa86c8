/**
 When decoding and encoding again reproduces the very bytes that were read.

 The client's reader accepts more than the writer writes: over-long ULEB128 integers, and any tag in
 front of the entry function inside a multisig payload, which it reads and drops
 (transaction_payload.py:68). Nothing else is lost.
 */
module CanonicalLaws {
  import opened Wrappers
  import opened Bcs
  import TypeTags
  import opened Payload
  import opened PayloadLaws

  lemma TextReencode(input: Bytes)
    requires DecodeText(true, input).Read?
    ensures var r := DecodeText(true, input);
            EncodeBytes(r.value) + r.rest == input && r == DecodeText(false, input)
  {
    BytesReencode(input);
  }

  lemma {:induction false} TagReencode(input: Bytes)
    requires TypeTags.Decode(true, input).Read?
    ensures var r := TypeTags.Decode(true, input);
            TypeTags.Encode(r.value) + r.rest == input && r == TypeTags.Decode(false, input)
    decreases |input|, 0
  {
    hide EncodeUleb, DecodeUleb, TypeTags.DecodeStruct, TypeTags.EncodeSeq, EncodeBytes;
    UlebReencode(input);
    var variant := DecodeUleb(true, input);
    var r := TypeTags.Decode(true, input);
    if variant.value == 6 {
      TagReencode(variant.rest);
    } else if variant.value == 7 {
      StructReencode(variant.rest);
    } else {
      SimpleOnly(variant.value, r.value);
      assert [] + r.rest == r.rest;
    }
    Assoc(EncodeUleb(r.value.Variant()), TypeTags.Body(r.value), r.rest);
  }

  lemma {:induction false} StructReencode(input: Bytes)
    requires TypeTags.DecodeStruct(true, input).Read?
    ensures var r := TypeTags.DecodeStruct(true, input);
            r.value.Struct? && TypeTags.Body(r.value) + r.rest == input && r == TypeTags.DecodeStruct(false, input)
    decreases |input|, 1, 1
  {
    hide EncodeBytes, DecodeText, TypeTags.EncodeSeq, TypeTags.DecodeSeq;
    var r := TypeTags.DecodeStruct(true, input);
    var i1 := DecodeAddress(input).rest;
    var i2 := DecodeText(true, i1).rest;
    var i3 := DecodeText(true, i2).rest;
    TextReencode(i1);
    TextReencode(i2);
    TagSeqReencode(i3);
    assert r.value.address + i1 == input;
    assert TypeTags.Body(r.value) + r.rest
        == r.value.address + (EncodeBytes(r.value.moduleName)
           + (EncodeBytes(r.value.name) + (TypeTags.EncodeSeq(r.value.typeArgs) + r.rest)));
  }

  lemma {:induction false} TagSeqReencode(input: Bytes)
    requires TypeTags.DecodeSeq(true, input).Read?
    ensures var r := TypeTags.DecodeSeq(true, input);
            TypeTags.EncodeSeq(r.value) + r.rest == input && r == TypeTags.DecodeSeq(false, input)
    decreases |input|, 1, 0
  {
    hide EncodeUleb, DecodeUleb, TypeTags.EncodeAll, TypeTags.DecodeAll;
    var n := DecodeUleb(true, input);
    UlebReencode(input);
    TagsReencode(n.value, n.rest);
    var r := TypeTags.DecodeSeq(true, input);
    Assoc(EncodeUleb(n.value), TypeTags.EncodeAll(r.value), r.rest);
  }

  lemma {:induction false} TagsReencode(n: nat, input: Bytes)
    requires TypeTags.DecodeAll(true, n, input).Read?
    ensures var r := TypeTags.DecodeAll(true, n, input);
            TypeTags.EncodeAll(r.value) + r.rest == input && r == TypeTags.DecodeAll(false, n, input)
    decreases |input|, 2, n
  {
    hide TypeTags.Encode, TypeTags.Decode;
    var r := TypeTags.DecodeAll(true, n, input);
    if n == 0 {
      assert [] + input == input;
    } else {
      TagReencode(input);
      var first := TypeTags.Decode(true, input);
      TagsReencode(n - 1, first.rest);
      assert r.value[1..] == TypeTags.DecodeAll(true, n - 1, first.rest).value;
      Assoc(TypeTags.Encode(first.value), TypeTags.EncodeAll(r.value[1..]), r.rest);
    }
  }

  lemma {:induction false} ItemsReencode(n: nat, input: Bytes)
    requires DecodeItems(true, n, input).Read?
    ensures var r := DecodeItems(true, n, input);
            EncodeItems(r.value) + r.rest == input && r == DecodeItems(false, n, input)
  {
    hide EncodeBytes, DecodeBytes;
    var r := DecodeItems(true, n, input);
    if n == 0 {
      assert [] + input == input;
    } else {
      BytesReencode(input);
      var first := DecodeBytes(true, input);
      ItemsReencode(n - 1, first.rest);
      assert r.value[1..] == DecodeItems(true, n - 1, first.rest).value;
      Assoc(EncodeBytes(first.value), EncodeItems(r.value[1..]), r.rest);
    }
  }

  lemma ByteStringsReencode(input: Bytes)
    requires DecodeByteStrings(true, input).Read?
    ensures var r := DecodeByteStrings(true, input);
            EncodeByteStrings(r.value) + r.rest == input && r == DecodeByteStrings(false, input)
  {
    hide EncodeUleb, DecodeUleb, EncodeItems, DecodeItems;
    var n := DecodeUleb(true, input);
    UlebReencode(input);
    ItemsReencode(n.value, n.rest);
    var r := DecodeByteStrings(true, input);
    Assoc(EncodeUleb(n.value), EncodeItems(r.value), r.rest);
  }

  lemma ScriptBodyReencode(variant: Byte, input: Bytes)
    requires DecodeScriptArgumentBody(true, variant, input).Read?
    requires DecodeScriptArgumentBody(true, variant, input).value.Encodable()
    ensures var r := DecodeScriptArgumentBody(true, variant, input);
            r.value.Variant() == variant && ScriptArgumentBody(r.value) + r.rest == input
            && r == DecodeScriptArgumentBody(false, variant, input)
  {
    hide EncodeBytes, DecodeBytes, LittleEndian, DecodeInt, Pow256;
    match KindOf(variant)
    case Some(kind) => IntReencode(kind.Width(), input);
    case None =>
      if variant == 4 {
        BytesReencode(input);
      }
  }

  lemma ScriptArgumentReencode(input: Bytes)
    requires DecodeScriptArgument(true, input).Read?
    ensures var r := DecodeScriptArgument(true, input);
            r.value.Encodable() && EncodeScriptArgument(r.value) + r.rest == input
            && r == DecodeScriptArgument(false, input)
  {
    hide ScriptArgument.Encodable, ScriptArgumentBody, DecodeScriptArgumentBody;
    ScriptArgumentDecodedEncodable(true, input);
    ScriptBodyReencode(input[0], input[1..]);
    var r := DecodeScriptArgument(true, input);
    Assoc([input[0]], ScriptArgumentBody(r.value), r.rest);
    assert input == [input[0]] + input[1..];
  }

  lemma {:induction false} ScriptItemsReencode(n: nat, input: Bytes)
    requires DecodeScriptItems(true, n, input).Read?
    ensures var r := DecodeScriptItems(true, n, input);
            (forall i | 0 <= i < n :: r.value[i].Encodable())
            && EncodeScriptItems(r.value) + r.rest == input && r == DecodeScriptItems(false, n, input)
  {
    hide EncodeScriptArgument, DecodeScriptArgument, ScriptArgument.Encodable;
    ScriptItemsDecodedEncodable(true, n, input);
    var r := DecodeScriptItems(true, n, input);
    if n == 0 {
      assert [] + input == input;
    } else {
      ScriptArgumentReencode(input);
      var first := DecodeScriptArgument(true, input);
      ScriptItemsReencode(n - 1, first.rest);
      assert r.value[1..] == DecodeScriptItems(true, n - 1, first.rest).value;
      Assoc(EncodeScriptArgument(first.value), EncodeScriptItems(r.value[1..]), r.rest);
    }
  }

  lemma EntryReencode(input: Bytes)
    requires DecodeEntry(true, input).Read?
    ensures var r := DecodeEntry(true, input);
            EncodeEntry(r.value) + r.rest == input && r == DecodeEntry(false, input)
  {
    hide EncodeBytes, DecodeText, TypeTags.EncodeSeq, TypeTags.DecodeSeq, EncodeByteStrings, DecodeByteStrings;
    var r := DecodeEntry(true, input);
    var i0 := DecodeAddress(input).rest;
    var i1 := DecodeText(true, i0).rest;
    var i2 := DecodeText(true, i1).rest;
    var i3 := TypeTags.DecodeSeq(true, i2).rest;
    TextReencode(i0);
    TextReencode(i1);
    TagSeqReencode(i2);
    ByteStringsReencode(i3);
    assert r.value.moduleId.address + i0 == input;
    assert EncodeEntry(r.value) + r.rest
        == r.value.moduleId.address + (EncodeBytes(r.value.moduleId.name) + (EncodeBytes(r.value.name)
           + (TypeTags.EncodeSeq(r.value.tyArgs) + (EncodeByteStrings(r.value.args) + r.rest))));
  }

  lemma ScriptReencode(input: Bytes)
    requires DecodeScript(true, input).Read?
    ensures var r := DecodeScript(true, input);
            r.value.Encodable() && EncodeScript(r.value) + r.rest == input && r == DecodeScript(false, input)
  {
    hide EncodeBytes, DecodeBytes, TypeTags.EncodeSeq, TypeTags.DecodeSeq, EncodeUleb, DecodeUleb;
    hide TypeTags.EncodableSeq, EncodeScriptItems, DecodeScriptItems, ScriptArgument.Encodable;
    ScriptDecodedEncodable(true, input);
    var r := DecodeScript(true, input);
    var i1 := DecodeBytes(true, input).rest;
    var i2 := TypeTags.DecodeSeq(true, i1).rest;
    var n := DecodeUleb(true, i2);
    BytesReencode(input);
    TagSeqReencode(i1);
    UlebReencode(i2);
    ScriptItemsReencode(n.value, n.rest);
    assert EncodeScript(r.value) + r.rest
        == EncodeBytes(r.value.code) + (TypeTags.EncodeSeq(r.value.tyArgs)
           + (EncodeUleb(n.value) + (EncodeScriptItems(r.value.args) + r.rest)));
  }

  /** The bytes of a multisig payload come back exactly when its dropped inner tag was zero. */
  lemma InnerReencode(input: Bytes)
    requires DecodeInner(true, input).Read?
    ensures var r := DecodeInner(true, input);
            r == DecodeInner(false, input) && (EncodeInner(r.value) + r.rest == input <==> input[0] == 0)
  {
    hide DecodeUleb, EncodeEntry, DecodeEntry;
    var r := DecodeInner(true, input);
    var tag := DecodeUleb(true, input);
    UlebReencode(input);
    EntryReencode(tag.rest);
    assert EncodeUleb(tag.value)[0] == input[0];
    assert EncodeInner(r.value) + r.rest == [0] + (EncodeEntry(r.value.entry) + r.rest);
    assert ([0] + tag.rest)[0] == 0;
  }

  /** A multisig body (the bytes after the payload's own tag) that carries a nonzero inner tag. */
  predicate DropsInnerTag(body: Bytes) {
    |body| > ADDRESS_LENGTH + 1 && body[ADDRESS_LENGTH] == 1 && body[ADDRESS_LENGTH + 1] != 0
  }

  /** A multisig body taken apart: address, option flag, and the payload if there is one. */
  lemma MultisigParts(strict: bool, input: Bytes)
    requires |input| > ADDRESS_LENGTH && input[ADDRESS_LENGTH] <= 1
    ensures var address, i2 := input[..ADDRESS_LENGTH], input[ADDRESS_LENGTH + 1..];
            input == address + ([input[ADDRESS_LENGTH]] + i2) &&
            DecodeMultisig(strict, input)
            == if input[ADDRESS_LENGTH] == 0 then Read(Multisig(address, None), i2)
               else match DecodeInner(strict, i2)
                 case Malformed => Malformed
                 case Read(inner, rest) => Read(Multisig(address, Some(inner)), rest)
  {
    hide DecodeInner;
    assert input[ADDRESS_LENGTH..][1..] == input[ADDRESS_LENGTH + 1..];
  }

  lemma MultisigReencode(input: Bytes)
    requires DecodeMultisig(true, input).Read?
    ensures var r := DecodeMultisig(true, input);
            r == DecodeMultisig(false, input)
            && (EncodeMultisig(r.value) + r.rest == input <==> !DropsInnerTag(input))
  {
    hide EncodeInner, DecodeInner;
    MultisigParts(true, input);
    MultisigParts(false, input);
    hide DecodeMultisig;
    var r := DecodeMultisig(true, input);
    var flag, i2 := input[ADDRESS_LENGTH], input[ADDRESS_LENGTH + 1..];
    if flag == 1 {
      InnerReencode(i2);
    }
    OptionalReencode(r.value, flag, r.rest);
    SameTail(r.value.address, flag, EncodeOptional(r.value.payload) + r.rest, i2);
    assert flag == 0 ==> EncodeOptional(r.value.payload) + r.rest == i2;
  }

  lemma OptionalReencode(m: Multisig, flag: Byte, rest: Bytes)
    requires EncodeBool(m.payload.Some?) == [flag]
    ensures EncodeMultisig(m) + rest == m.address + ([flag] + (EncodeOptional(m.payload) + rest))
  {
    hide EncodeOptional;
  }

  lemma SameTail(address: Address, flag: Byte, a: Bytes, b: Bytes)
    ensures address + ([flag] + a) == address + ([flag] + b) <==> a == b
  {
    assert (address + ([flag] + a))[ADDRESS_LENGTH + 1..] == a;
    assert (address + ([flag] + b))[ADDRESS_LENGTH + 1..] == b;
  }

  /**
   For every byte string the client's reader accepts, the bytes it consumed are the bytes the writer
   would write if and only if every ULEB128 integer among them is in its shortest form (the strict
   reader accepts the input) and no nonzero inner tag was dropped.
   */
  lemma PayloadReencodes(input: Bytes)
    requires DecodePayload(false, input).Read?
    ensures var r := DecodePayload(false, input);
            r.value.Encodable() &&
            (EncodePayload(r.value) + r.rest == input
             <==> DecodePayload(true, input).Read? && !(input[0] as nat == MULTISIG && DropsInnerTag(input[1..])))
  {
    PayloadDecodedEncodable(false, input);
    var r := DecodePayload(false, input);
    if EncodePayload(r.value) + r.rest == input {
      PayloadRoundTrip(true, r.value, r.rest);
    }
    if DecodePayload(true, input).Read? {
      StrictReencodes(input);
    }
  }

  /** The strict reader never disagrees with the client's; it only accepts less. */
  lemma StrictReencodes(input: Bytes)
    requires DecodePayload(true, input).Read?
    ensures var r := DecodePayload(true, input);
            r == DecodePayload(false, input) && r.value.Encodable() &&
            (EncodePayload(r.value) + r.rest == input
             <==> !(input[0] as nat == MULTISIG && DropsInnerTag(input[1..])))
  {
    hide DecodeUleb, EncodeScript, DecodeScript, EncodeEntry, DecodeEntry, EncodeMultisig, DecodeMultisig;
    hide Script.Encodable, EntryFunction.Encodable, DropsInnerTag;
    PayloadDecodedEncodable(true, input);
    var r := DecodePayload(true, input);
    UlebReencode(input);
    var body := DecodeUleb(true, input).rest;
    assert input == [r.value.Variant()] + body;
    assert EncodePayload(r.value) + r.rest == [r.value.Variant()] + (EncodePayloadBody(r.value) + r.rest);
    match r.value
    case ScriptPayload(_) => ScriptReencode(body);
    case EntryPayload(_) => EntryReencode(body);
    case MultisigPayload(_) =>
      MultisigReencode(body);
      assert body == input[1..];
      assert EncodePayloadBody(r.value) + r.rest == ([r.value.Variant()] + (EncodePayloadBody(r.value) + r.rest))[1..];
  }

  /** The client's reader gives the same payload whatever inner tag a multisig payload carries. */
  lemma InnerTagIgnored(address: Address, tag: nat, f: EntryFunction, tail: Bytes)
    requires tag <= MAX_U32 && f.Encodable()
    ensures DecodePayload(false, [3] + (address + ([1] + (EncodeUleb(tag) + (EncodeEntry(f) + tail)))))
            == Read(MultisigPayload(Multisig(address, Some(MultiSigTransactionPayload(f)))), tail)
  {
    hide EncodeEntry, DecodeEntry, EntryFunction.Encodable, DecodeUleb;
    var i3 := EncodeEntry(f) + tail;
    var i2 := EncodeUleb(tag) + i3;
    var i1 := [1] + i2;
    assert EncodeUleb(3) == [3];
    UlebRoundTrip(false, 3, address + i1);
    FixedRoundTrip(address, i1);
    assert i1[1..] == i2;
    UlebRoundTrip(false, tag, i3);
    EntryRoundTrip(false, f, tail);
  }

  /** An over-long payload tag is accepted by the client's reader and refused by the strict one. */
  lemma OverlongTagAccepted(body: Bytes)
    requires DecodeMultisig(false, body).Read?
    ensures DecodePayload(false, [0x83, 0] + body).Read? && !DecodePayload(true, [0x83, 0] + body).Read?
  {
    hide DecodeMultisig;
    var input := [0x83, 0] + body;
    assert input[1..] == [0] + body;
    assert ([0] + body)[1..] == body;
    assert ReadGroups(false, input[1..]) == Read(0, body);
    assert ReadGroups(true, input[1..]) == Read(0, body);
  }
}
