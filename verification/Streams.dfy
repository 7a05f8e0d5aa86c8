/** The two mutable ends of the codec: a growing output buffer and a cursor over an input. */
module Streams {
  import opened Wrappers
  import opened Bcs

  /** Writes primitives to the end of `output`. A write that cannot be done raises. */
  class Serializer {
    var output: Bytes

    constructor ()
      ensures output == []
    {
      output := [];
    }

    method FixedBytes(b: Bytes)
      modifies this
      ensures output == old(output) + b
    {
      output := output + b;
    }

    method Bool(b: bool)
      modifies this
      ensures output == old(output) + EncodeBool(b)
    {
      output := output + [if b then 1 else 0];
    }

    method Uleb128(v: nat) returns (r: Outcome)
      modifies this
      ensures r.Pass? <==> v < 0x1_0000_0000
      ensures output == old(output) + if r.Pass? then EncodeUleb(v) else []
    {
      if v > MAX_U32 {
        return Raised;
      }
      var value := v;
      while value >= 0x80
        invariant output + EncodeUleb(value) == old(output) + EncodeUleb(v)
      {
        output := output + [value % 0x80 + 0x80];
        value := value / 0x80;
      }
      output := output + [value];
      return Pass;
    }

    /** Writes `value` as an unsigned integer of `width` bytes. */
    method UInt(width: nat, value: int) returns (r: Outcome)
      modifies this
      ensures r.Pass? <==> Fits(width, value)
      ensures output == old(output) + if r.Pass? then LittleEndian(width, value) else []
    {
      if !Fits(width, value) {
        return Raised;
      }
      output := output + LittleEndian(width, value);
      return Pass;
    }

    /** Writes a byte string with its length in front. */
    method ToBytes(b: Bytes) returns (r: Outcome)
      modifies this
      ensures r.Pass? <==> |b| <= MAX_U32
      ensures output == old(output) + if r.Pass? then EncodeBytes(b) else []
    {
      var length := |b|;
      :- Uleb128(length);
      FixedBytes(b);
      return Pass;
    }
  }

  /** `r` and `remaining` are what `spec` says a read should return and leave. */
  ghost predicate Agrees<T(!new)>(r: Option<T>, remaining: Bytes, spec: Parsed<T>) {
    match spec
    case Malformed => r.None?
    case Read(value, rest) => r == Some(value) && remaining == rest
  }

  /** Reads primitives at `pos`, moving it past what was read. A malformed or short input raises. */
  class Deserializer {
    const data: Bytes
    var pos: nat

    ghost predicate Valid()
      reads this
    {
      pos <= |data|
    }

    constructor (data: Bytes)
      ensures Valid() && this.data == data && Remaining() == data
    {
      this.data := data;
      pos := 0;
    }

    ghost function Remaining(): Bytes
      requires Valid()
      reads this
    {
      data[pos..]
    }

    method FixedBytes(length: nat) returns (r: Option<Bytes>)
      requires Valid()
      modifies this
      ensures Valid() && pos >= old(pos)
      ensures Agrees(r, Remaining(), DecodeFixed(length, old(Remaining())))
    {
      if |data| - pos < length {
        pos := |data|;
        return None;
      }
      assert data[pos..][..length] == data[pos..pos + length];
      r := Some(data[pos..pos + length]);
      pos := pos + length;
    }

    method Bool() returns (r: Option<bool>)
      requires Valid()
      modifies this
      ensures Valid() && pos >= old(pos)
      ensures Agrees(r, Remaining(), DecodeBool(old(Remaining())))
    {
      var b :- FixedBytes(1);
      if b[0] > 1 {
        return None;
      }
      return Some(b[0] == 1);
    }

    method Uleb128() returns (r: Option<nat>)
      requires Valid()
      modifies this
      ensures Valid() && pos >= old(pos)
      ensures Agrees(r, Remaining(), DecodeUleb(false, old(Remaining())))
    {
      var value: nat, scale: nat := 0, 1;
      var more := true;
      ghost var groups := ReadGroups(false, Remaining());
      while value <= MAX_U32 && more
        invariant Valid() && pos >= old(pos)
        invariant more ==> GroupsFrom(value, scale, ReadGroups(false, Remaining())) == groups
        invariant !more ==> groups == Read(value, Remaining())
        decreases more, |data| - pos
      {
        ghost var before := Remaining();
        var byte :- FixedBytes(1);
        assert Remaining() == before[1..];
        GroupsStep(value, scale, before);
        value := value + Weigh(scale, byte[0] % 0x80);
        more := byte[0] >= 0x80;
        scale := scale * 0x80;
      }
      if value > MAX_U32 {
        return None;
      }
      return Some(value);
    }

    method UInt(width: nat) returns (r: Option<nat>)
      requires Valid()
      modifies this
      ensures Valid() && pos >= old(pos)
      ensures Agrees(r, Remaining(), DecodeInt(width, old(Remaining())))
    {
      var b :- FixedBytes(width);
      return Some(FromLittleEndian(b));
    }

    method ToBytes() returns (r: Option<Bytes>)
      requires Valid()
      modifies this
      ensures Valid() && pos >= old(pos)
      ensures Agrees(r, Remaining(), DecodeBytes(false, old(Remaining())))
    {
      var length :- Uleb128();
      r := FixedBytes(length);
    }

    method Str() returns (r: Option<Text>)
      requires Valid()
      modifies this
      ensures Valid() && pos >= old(pos)
      ensures Agrees(r, Remaining(), DecodeText(false, old(Remaining())))
    {
      var b :- ToBytes();
      if !IsUtf8(b) {
        return None;
      }
      return Some(b);
    }

    method AccountAddress() returns (r: Option<Address>)
      requires Valid()
      modifies this
      ensures Valid() && pos >= old(pos)
      ensures Agrees(r, Remaining(), DecodeAddress(old(Remaining())))
    {
      var b :- FixedBytes(ADDRESS_LENGTH);
      return Some(b);
    }
  }

  /** A group shifted to its place: `v << shift` where `scale` is `1 << shift`. */
  function Weigh(scale: nat, v: nat): nat {
    scale * v
  }

  /** What a whole integer is worth when `value` holds the groups read and the rest weigh `scale`. */
  ghost function GroupsFrom(value: nat, scale: nat, later: Parsed<nat>): Parsed<nat> {
    match later
    case Malformed => Malformed
    case Read(v, rest) => Read(value + Weigh(scale, v), rest)
  }

  lemma WeighSplits(scale: nat, low: nat, high: nat)
    ensures Weigh(scale, low + 0x80 * high) == Weigh(scale, low) + Weigh(scale * 0x80, high)
  {
  }

  lemma GroupsStep(value: nat, scale: nat, input: Bytes)
    requires input != []
    ensures var value' := value + Weigh(scale, input[0] % 0x80);
            GroupsFrom(value, scale, ReadGroups(false, input))
            == if input[0] < 0x80 then Read(value', input[1..])
               else GroupsFrom(value', scale * 0x80, ReadGroups(false, input[1..]))
  {
    if input[0] >= 0x80 {
      var later := ReadGroups(false, input[1..]);
      if later.Read? {
        WeighSplits(scale, input[0] % 0x80, later.value);
      }
    }
  }

  // ---------------------------------------------------------------- reading lists

  /** `later` with `front` put before the items it reads. */
  ghost function Prepend<T(!new)>(front: seq<T>, later: Parsed<seq<T>>): Parsed<seq<T>> {
    match later
    case Malformed => Malformed
    case Read(items, rest) => Read(front + items, rest)
  }

  lemma PrependNothing<T(!new)>(later: Parsed<seq<T>>)
    ensures Prepend([], later) == later
  {
    if later.Read? {
      assert [] + later.value == later.value;
    }
  }

  lemma PrependSnoc<T(!new)>(front: seq<T>, item: T, later: Parsed<seq<T>>)
    ensures Prepend(front, Prepend([item], later)) == Prepend(front + [item], later)
  {
    if later.Read? {
      assert front + ([item] + later.value) == front + [item] + later.value;
    }
  }
}
