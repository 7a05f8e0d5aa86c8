/**
 Move type tags: an externally tagged enumeration whose `Vector` and `Struct` variants nest.
 */
module TypeTags {
  import opened Wrappers
  import opened Bcs
  import opened Streams

  datatype TypeTag =
    | Bool | U8 | U64 | U128 | Address | Signer
    | Vector(elem: TypeTag)
    | Struct(address: Bcs.Address, moduleName: Text, name: Text, typeArgs: seq<TypeTag>)
    | U16 | U32 | U256
  {
    function Variant(): (v: nat)
      ensures v <= 10
    {
      match this
      case Bool => 0
      case U8 => 1
      case U64 => 2
      case U128 => 3
      case Address => 4
      case Signer => 5
      case Vector(_) => 6
      case Struct(_, _, _, _) => 7
      case U16 => 8
      case U32 => 9
      case U256 => 10
    }

    method Serialize(s: Serializer) returns (r: Outcome)
      modifies s
      decreases this, 1
      ensures r.Pass? <==> Encodable(this)
      ensures r.Pass? ==> s.output == old(s.output) + Encode(this)
    {
      hide EncodeUleb, EncodeSeq, EncodeBytes;
      ghost var before := s.output;
      var tagged := s.Uleb128(Variant());
      match this
      case Vector(elem) =>
        r := elem.Serialize(s);
      case Struct(_, _, _, _) =>
        r := SerializeStruct(this, s);
      case _ =>
        r := Pass;
      assert before + EncodeUleb(Variant()) + Body(this) == before + Encode(this);
    }

    static method Deserialize(d: Deserializer) returns (r: Option<TypeTag>)
      requires d.Valid()
      modifies d
      ensures d.Valid() && d.pos >= old(d.pos)
      ensures Agrees(r, d.Remaining(), Decode(false, old(d.Remaining())))
      ensures r.Some? ==> d.pos > old(d.pos)
      decreases |d.data| - d.pos
    {
      var variant :- d.Uleb128();
      if variant == 6 {
        var elem :- Deserialize(d);
        r := Some(Vector(elem));
      } else if variant == 7 {
        r := DeserializeStruct(d);
      } else {
        r := Simple(variant);
      }
    }
  }

  /** The tag of a variant that carries nothing; raises on `Vector`, `Struct` and unknown numbers. */
  function Simple(variant: nat): Option<TypeTag> {
    match variant
    case 0 => Some(Bool)
    case 1 => Some(U8)
    case 2 => Some(U64)
    case 3 => Some(U128)
    case 4 => Some(Address)
    case 5 => Some(Signer)
    case 8 => Some(U16)
    case 9 => Some(U32)
    case 10 => Some(U256)
    case _ => None
  }

  // ---------------------------------------------------------------- wire form

  function Encode(t: TypeTag): Bytes
    decreases t, 1
  {
    EncodeUleb(t.Variant()) + Body(t)
  }

  function Body(t: TypeTag): Bytes
    decreases t, 0
  {
    match t
    case Vector(elem) => Encode(elem)
    case Struct(a, moduleName, name, typeArgs) =>
      a + (EncodeBytes(moduleName) + (EncodeBytes(name) + EncodeSeq(typeArgs)))
    case _ => []
  }

  function EncodeSeq(ts: seq<TypeTag>): Bytes
    decreases ts, 1
  {
    EncodeUleb(|ts|) + EncodeAll(ts)
  }

  function EncodeAll(ts: seq<TypeTag>): Bytes
    decreases ts, 0
  {
    if ts == [] then [] else Encode(ts[0]) + EncodeAll(ts[1..])
  }

  /** Every length inside `t` fits the 32 bits a ULEB128 length has. */
  predicate Encodable(t: TypeTag)
    decreases t
  {
    match t
    case Vector(elem) => Encodable(elem)
    case Struct(_, moduleName, name, typeArgs) =>
      |moduleName| <= MAX_U32 && |name| <= MAX_U32 && |typeArgs| <= MAX_U32 &&
      forall i | 0 <= i < |typeArgs| :: Encodable(typeArgs[i])
    case _ => true
  }

  predicate EncodableSeq(ts: seq<TypeTag>) {
    |ts| <= MAX_U32 && forall i | 0 <= i < |ts| :: Encodable(ts[i])
  }

  /** Every tag takes at least one byte, so the remaining input bounds the nesting. */
  function Decode(strict: bool, input: Bytes): (r: Parsed<TypeTag>)
    ensures r.Read? ==> |r.rest| < |input|
    decreases |input|, 0
  {
    var (variant, body) :- DecodeUleb(strict, input);
    if variant == 6 then
      var (elem, rest) :- Decode(strict, body);
      Read(Vector(elem), rest)
    else if variant == 7 then DecodeStruct(strict, body)
    else match Simple(variant)
      case None => Malformed
      case Some(t) => Read(t, body)
  }

  function DecodeStruct(strict: bool, input: Bytes): (r: Parsed<TypeTag>)
    ensures r.Read? ==> |r.rest| < |input|
    decreases |input|, 1, 1
  {
    var (a, i1) :- DecodeAddress(input);
    var (moduleName, i2) :- DecodeText(strict, i1);
    var (name, i3) :- DecodeText(strict, i2);
    var (typeArgs, rest) :- DecodeSeq(strict, i3);
    Read(Struct(a, moduleName, name, typeArgs), rest)
  }

  function DecodeSeq(strict: bool, input: Bytes): (r: Parsed<seq<TypeTag>>)
    ensures r.Read? ==> |r.rest| < |input| && |r.value| <= MAX_U32
    decreases |input|, 1, 0
  {
    var (n, rest) :- DecodeUleb(strict, input);
    DecodeAll(strict, n, rest)
  }

  function DecodeAll(strict: bool, n: nat, input: Bytes): (r: Parsed<seq<TypeTag>>)
    ensures r.Read? ==> |r.rest| <= |input| && |r.value| == n
    decreases |input|, 2, n
  {
    if n == 0 then Read([], input)
    else
      var (t, i1) :- Decode(strict, input);
      var (ts, rest) :- DecodeAll(strict, n - 1, i1);
      Read([t] + ts, rest)
  }

  // ---------------------------------------------------------------- the loops over a list of tags

  lemma {:induction false} EncodeAllTake(ts: seq<TypeTag>, i: nat)
    requires i < |ts|
    ensures EncodeAll(ts[..i + 1]) == EncodeAll(ts[..i]) + Encode(ts[i])
  {
    if i > 0 {
      EncodeAllTake(ts[1..], i - 1);
      assert ts[..i][1..] == ts[1..][..i - 1];
      assert ts[..i + 1][1..] == ts[1..][..i];
    }
  }

  lemma DecodeAllStep(n: nat, input: Bytes)
    requires n > 0
    ensures DecodeAll(false, n, input)
            == match Decode(false, input)
               case Malformed => Malformed
               case Read(t, rest) => Prepend([t], DecodeAll(false, n - 1, rest))
  {
  }

  method SerializeStruct(t: TypeTag, s: Serializer) returns (r: Outcome)
    requires t.Struct?
    modifies s
    decreases t, 0
    ensures r.Pass? <==> Encodable(t)
    ensures r.Pass? ==> s.output == old(s.output) + Body(t)
  {
    hide Encode, EncodeSeq, EncodeBytes;
    ghost var before := s.output;
    s.FixedBytes(t.address);
    :- s.ToBytes(t.moduleName);
    :- s.ToBytes(t.name);
    r := SerializeSeq(t.typeArgs, s);
    if r.Pass? {
      assert s.output == before + t.address + EncodeBytes(t.moduleName) + EncodeBytes(t.name) + EncodeSeq(t.typeArgs);
      assert s.output == before + Body(t);
    }
  }

  method SerializeSeq(ts: seq<TypeTag>, s: Serializer) returns (r: Outcome)
    modifies s
    decreases ts, 0, 1
    ensures r.Pass? <==> EncodableSeq(ts)
    ensures r.Pass? ==> s.output == old(s.output) + EncodeSeq(ts)
  {
    ghost var before := s.output;
    :- s.Uleb128(|ts|);
    r := SerializeItems(ts, s);
    Assoc(before, EncodeUleb(|ts|), EncodeAll(ts));
  }

  method SerializeItems(ts: seq<TypeTag>, s: Serializer) returns (r: Outcome)
    modifies s
    decreases ts, 0, 0
    ensures r.Pass? <==> forall i | 0 <= i < |ts| :: Encodable(ts[i])
    ensures r.Pass? ==> s.output == old(s.output) + EncodeAll(ts)
  {
    hide Encode, Encodable;
    ghost var start := s.output;
    for i := 0 to |ts|
      invariant forall j | 0 <= j < i :: Encodable(ts[j])
      invariant s.output == start + EncodeAll(ts[..i])
    {
      :- ts[i].Serialize(s);
      EncodeAllTake(ts, i);
      Assoc(start, EncodeAll(ts[..i]), Encode(ts[i]));
    }
    assert ts[..|ts|] == ts;
    return Pass;
  }

  method DeserializeStruct(d: Deserializer) returns (r: Option<TypeTag>)
    requires d.Valid()
    modifies d
    ensures d.Valid() && d.pos >= old(d.pos)
    ensures Agrees(r, d.Remaining(), DecodeStruct(false, old(d.Remaining())))
    decreases |d.data| - d.pos, 1, 1
  {
    var a :- d.AccountAddress();
    var moduleName :- d.Str();
    var name :- d.Str();
    var typeArgs :- DeserializeSeq(d);
    r := Some(Struct(a, moduleName, name, typeArgs));
  }

  method DeserializeSeq(d: Deserializer) returns (r: Option<seq<TypeTag>>)
    requires d.Valid()
    modifies d
    ensures d.Valid() && d.pos >= old(d.pos)
    ensures Agrees(r, d.Remaining(), DecodeSeq(false, old(d.Remaining())))
    decreases |d.data| - d.pos
  {
    hide Decode, DecodeStruct;
    var length :- d.Uleb128();
    ghost var start := d.Remaining();
    var values: seq<TypeTag> := [];
    PrependNothing(DecodeAll(false, length, start));
    while |values| < length
      invariant d.Valid() && d.pos > old(d.pos) && |values| <= length
      invariant Prepend(values, DecodeAll(false, length - |values|, d.Remaining()))
                == DecodeAll(false, length, start)
    {
      ghost var before := d.Remaining();
      DecodeAllStep(length - |values|, before);
      var t :- TypeTag.Deserialize(d);
      PrependSnoc(values, t, DecodeAll(false, length - |values| - 1, d.Remaining()));
      values := values + [t];
    }
    assert values + [] == values;
    return Some(values);
  }
}
