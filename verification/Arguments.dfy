/** Entry function arguments, each encoded by the serializer method listed beside it. */
module Arguments {
  import opened Wrappers
  import opened Bcs

  /** The serializer methods the clients pass as encoders. */
  datatype Encoder = U64 | Bool | Struct | Str | ToBytes | Sequence(elem: Encoder)

  datatype Arg =
    | Number(n: int)
    | Flag(b: bool)
    | Account(address: Address)
    | Characters(s: Text)
    | Blob(bytes: Bytes)
    | List(items: seq<Arg>)

  /** The encoder fits the argument's kind, and every number and length is in range. */
  predicate Accepts(e: Encoder, a: Arg)
    decreases a
  {
    match (e, a)
    case (U64, Number(n)) => 0 <= n <= MAX_U64
    case (Bool, Flag(_)) => true
    case (Struct, Account(_)) => true
    case (Str, Characters(s)) => |s| <= MAX_U32
    case (ToBytes, Blob(bytes)) => |bytes| <= MAX_U32
    case (Sequence(elem), List(items)) => |items| <= MAX_U32 && forall i | 0 <= i < |items| :: Accepts(elem, items[i])
    case _ => false
  }

  function EncodeArg(e: Encoder, a: Arg): Bytes
    requires Accepts(e, a)
    decreases a, 1
  {
    match a
    case Number(n) => LittleEndian(8, n)
    case Flag(b) => EncodeBool(b)
    case Account(address) => address
    case Characters(s) => EncodeBytes(s)
    case Blob(bytes) => EncodeBytes(bytes)
    case List(items) => EncodeUleb(|items|) + EncodeElements(e.elem, items)
  }

  function EncodeElements(e: Encoder, items: seq<Arg>): Bytes
    requires forall i | 0 <= i < |items| :: Accepts(e, items[i])
    decreases items, 0
  {
    if items == [] then [] else EncodeArg(e, items[0]) + EncodeElements(e, items[1..])
  }

  /** Reads an argument back, given only the encoder it was written with. */
  function DecodeArg(e: Encoder, input: Bytes): Parsed<Arg>
    decreases e, 0
  {
    match e
    case U64 => var (n, rest) :- DecodeInt(8, input); Read(Number(n), rest)
    case Bool => var (b, rest) :- DecodeBool(input); Read(Flag(b), rest)
    case Struct => var (address, rest) :- DecodeAddress(input); Read(Account(address), rest)
    case Str => var (s, rest) :- DecodeText(false, input); Read(Characters(s), rest)
    case ToBytes => var (bytes, rest) :- DecodeBytes(false, input); Read(Blob(bytes), rest)
    case Sequence(elem) =>
      var (n, i1) :- DecodeUleb(false, input);
      var (items, rest) :- DecodeElements(elem, n, i1);
      Read(List(items), rest)
  }

  function DecodeElements(e: Encoder, n: nat, input: Bytes): Parsed<seq<Arg>>
    decreases e, n + 1
  {
    if n == 0 then Read([], input)
    else
      var (a, i1) :- DecodeArg(e, input);
      var (later, rest) :- DecodeElements(e, n - 1, i1);
      Read([a] + later, rest)
  }

  /** However deeply the sequences nest, an argument reads back as itself and nothing more is read. */
  lemma {:induction false} ArgRoundTrip(e: Encoder, a: Arg, tail: Bytes)
    requires Accepts(e, a)
    ensures DecodeArg(e, EncodeArg(e, a) + tail) == Read(a, tail)
    decreases a, 1
  {
    hide LittleEndian, DecodeInt, Pow256, EncodeBytes, DecodeBytes, DecodeText, EncodeUleb, DecodeUleb;
    hide EncodeElements, DecodeElements;
    match a
    case Number(n) =>
      FitsU64(n);
      IntRoundTrip(8, n, tail);
    case Flag(b) =>
      assert (EncodeBool(b) + tail)[1..] == tail;
    case Account(address) => FixedRoundTrip(address, tail);
    case Characters(s) => TextRoundTrip(false, s, tail);
    case Blob(bytes) => BytesRoundTrip(false, bytes, tail);
    case List(items) =>
      Assoc(EncodeUleb(|items|), EncodeElements(e.elem, items), tail);
      UlebRoundTrip(false, |items|, EncodeElements(e.elem, items) + tail);
      ElementsRoundTrip(e.elem, items, tail);
  }

  lemma {:induction false} ElementsRoundTrip(e: Encoder, items: seq<Arg>, tail: Bytes)
    requires forall i | 0 <= i < |items| :: Accepts(e, items[i])
    ensures DecodeElements(e, |items|, EncodeElements(e, items) + tail) == Read(items, tail)
    decreases items, 0
  {
    hide Accepts, EncodeArg, DecodeArg;
    if items == [] {
      assert [] + tail == tail;
    } else {
      Assoc(EncodeArg(e, items[0]), EncodeElements(e, items[1..]), tail);
      ArgRoundTrip(e, items[0], EncodeElements(e, items[1..]) + tail);
      ElementsRoundTrip(e, items[1..], tail);
      assert items == [items[0]] + items[1..];
    }
  }

  /** Two arguments the same encoder accepts are encoded alike only when they are the same. */
  lemma EncodeArgInjective(e: Encoder, a: Arg, b: Arg)
    requires Accepts(e, a) && Accepts(e, b)
    ensures EncodeArg(e, a) == EncodeArg(e, b) <==> a == b
  {
    hide EncodeArg, DecodeArg, Accepts;
    ArgRoundTrip(e, a, []);
    ArgRoundTrip(e, b, []);
  }
}
