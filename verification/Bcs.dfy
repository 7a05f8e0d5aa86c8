/**
 Binary Canonical Serialization of the primitive types: what each primitive looks like on the
 wire, and what a reader makes of a byte string.

 A reader takes the flag `strict`. With `strict == false` it is the reader the client uses, which
 accepts an over-long ULEB128 integer (one padded with zero groups). With `strict == true` it
 insists on the shortest form, as the section "ULEB128-Encoded Integers" of the BCS standard does.
 */
module Bcs {
  type Byte = b: int | 0 <= b < 256
  type Bytes = seq<Byte>

  /** The largest ULEB128 integer: lengths and enumeration tags are 32-bit. */
  const MAX_U32: nat := 0xFFFF_FFFF
  const MAX_U64: nat := 0xFFFF_FFFF_FFFF_FFFF

  const ADDRESS_LENGTH: nat := 32

  type Address = a: Bytes | |a| == ADDRESS_LENGTH witness seq(32, _ => 0)

  /** A character string, given as its UTF-8 encoding. */
  type Text = s: Bytes | IsUtf8(s) witness []

  /** The result of reading one item from the front of a byte string. */
  datatype Parsed<+T> = Malformed | Read(value: T, rest: Bytes) {
    predicate IsFailure() { Malformed? }

    function PropagateFailure<U>(): Parsed<U>
      requires Malformed?
    {
      Malformed
    }

    function Extract(): (T, Bytes)
      requires Read?
    {
      (value, rest)
    }
  }

  lemma Assoc(a: Bytes, b: Bytes, c: Bytes)
    ensures a + b + c == a + (b + c)
  {
  }

  // ---------------------------------------------------------------- UTF-8

  predicate IsContinuation(b: Byte) { 0x80 <= b < 0xC0 }

  /** The number of bytes of the well-formed character at the front of `s`, or 0 (RFC 3629, section 4). */
  function CharacterLength(s: Bytes): (n: nat)
    ensures n <= |s|
  {
    if |s| == 0 then 0
    else if s[0] < 0x80 then 1
    else if |s| < 2 || !IsContinuation(s[1]) then 0
    else if 0xC2 <= s[0] < 0xE0 then 2
    else if |s| < 3 || !IsContinuation(s[2]) then 0
    else if 0xE0 <= s[0] < 0xF0 then
      if (s[0] == 0xE0 && s[1] < 0xA0) || (s[0] == 0xED && s[1] >= 0xA0) then 0 else 3
    else if |s| < 4 || !IsContinuation(s[3]) then 0
    else if 0xF0 <= s[0] < 0xF5 then
      if (s[0] == 0xF0 && s[1] < 0x90) || (s[0] == 0xF4 && s[1] >= 0x90) then 0 else 4
    else 0
  }

  predicate IsUtf8(s: Bytes)
    decreases |s|
  {
    s == [] || (CharacterLength(s) > 0 && IsUtf8(s[CharacterLength(s)..]))
  }

  /** The bytes of an ASCII string. (No other strings are used; another character would count as '?'.) */
  function Ascii(s: string): (t: Text)
    ensures |t| == |s| && forall i | 0 <= i < |s| && s[i] < 128 as char :: t[i] == s[i] as int
  {
    var bytes: Bytes := seq(|s|, i requires 0 <= i < |s| => if s[i] < 128 as char then s[i] as int else '?' as int);
    AsciiIsUtf8(bytes);
    bytes
  }

  lemma AsciiConcat(s: string, t: string)
    requires forall i | 0 <= i < |s| :: s[i] < 128 as char
    requires forall i | 0 <= i < |t| :: t[i] < 128 as char
    ensures Ascii(s + t) == Ascii(s) + Ascii(t)
  {
  }

  lemma {:induction false} AsciiIsUtf8(s: Bytes)
    requires forall i | 0 <= i < |s| :: s[i] < 128
    ensures IsUtf8(s)
  {
    if s != [] {
      AsciiIsUtf8(s[1..]);
    }
  }

  // ---------------------------------------------------------------- ULEB128

  /** Seven bits a byte, least significant group first, top bit set on all but the last. */
  function EncodeUleb(v: nat): Bytes {
    if v < 0x80 then [v] else [v % 0x80 + 0x80] + EncodeUleb(v / 0x80)
  }

  /** The groups at the front of `input` up to the first byte with a clear top bit. */
  function ReadGroups(strict: bool, input: Bytes): (r: Parsed<nat>)
    ensures r.Read? ==> |r.rest| < |input|
  {
    if input == [] then Malformed
    else if input[0] < 0x80 then Read(input[0], input[1..])
    else
      var (v, rest) :- ReadGroups(strict, input[1..]);
      if strict && v == 0 then Malformed else Read(input[0] % 0x80 + 0x80 * v, rest)
  }

  function DecodeUleb(strict: bool, input: Bytes): (r: Parsed<nat>)
    ensures r.Read? ==> |r.rest| < |input| && r.value <= MAX_U32
  {
    var (v, rest) :- ReadGroups(strict, input);
    if v > MAX_U32 then Malformed else Read(v, rest)
  }

  lemma {:induction false} GroupsRoundTrip(strict: bool, v: nat, tail: Bytes)
    ensures ReadGroups(strict, EncodeUleb(v) + tail) == Read(v, tail)
  {
    var bytes := EncodeUleb(v) + tail;
    if v < 0x80 {
      assert bytes[1..] == tail;
    } else {
      assert bytes[1..] == EncodeUleb(v / 0x80) + tail;
      GroupsRoundTrip(strict, v / 0x80, tail);
    }
  }

  /** Writing then reading a ULEB128 integer consumes exactly the bytes written. */
  lemma UlebRoundTrip(strict: bool, v: nat, tail: Bytes)
    requires v <= MAX_U32
    ensures DecodeUleb(strict, EncodeUleb(v) + tail) == Read(v, tail)
  {
    GroupsRoundTrip(strict, v, tail);
  }

  lemma GroupSplits(low: nat, high: nat)
    requires low < 0x80 && high > 0
    ensures EncodeUleb(low + 0x80 * high) == [low + 0x80] + EncodeUleb(high)
  {
  }

  lemma {:induction false} GroupsReencode(input: Bytes)
    requires ReadGroups(true, input).Read?
    ensures var r := ReadGroups(true, input);
            EncodeUleb(r.value) + r.rest == input && r == ReadGroups(false, input)
  {
    if input[0] < 0x80 {
    } else {
      GroupsReencode(input[1..]);
      var later := ReadGroups(true, input[1..]);
      GroupSplits(input[0] % 0x80, later.value);
      hide EncodeUleb;
      assert input == [input[0]] + input[1..];
      Assoc([input[0]], EncodeUleb(later.value), later.rest);
    }
  }

  /** What the strict reader accepts is exactly what the writer writes for the value read. */
  lemma UlebReencode(input: Bytes)
    requires DecodeUleb(true, input).Read?
    ensures var r := DecodeUleb(true, input);
            EncodeUleb(r.value) + r.rest == input && r == DecodeUleb(false, input)
  {
    GroupsReencode(input);
  }

  // ---------------------------------------------------------------- fixed-width integers

  function Pow256(n: nat): nat {
    if n == 0 then 1 else 0x100 * Pow256(n - 1)
  }

  /** `n` bytes, least significant first. */
  function LittleEndian(n: nat, v: nat): (bytes: Bytes)
    ensures |bytes| == n
  {
    if n == 0 then [] else [v % 0x100] + LittleEndian(n - 1, v / 0x100)
  }

  function FromLittleEndian(bytes: Bytes): nat {
    if bytes == [] then 0 else bytes[0] + 0x100 * FromLittleEndian(bytes[1..])
  }

  lemma {:induction false} LittleEndianRoundTrip(n: nat, v: nat)
    requires v < Pow256(n)
    ensures FromLittleEndian(LittleEndian(n, v)) == v
  {
    if n > 0 {
      LittleEndianRoundTrip(n - 1, v / 0x100);
      assert LittleEndian(n, v)[1..] == LittleEndian(n - 1, v / 0x100);
    }
  }

  lemma {:induction false} FromLittleEndianRoundTrip(bytes: Bytes)
    ensures FromLittleEndian(bytes) < Pow256(|bytes|)
    ensures LittleEndian(|bytes|, FromLittleEndian(bytes)) == bytes
  {
    if bytes != [] {
      FromLittleEndianRoundTrip(bytes[1..]);
      assert bytes == [bytes[0]] + bytes[1..];
    }
  }

  /** The `n`-byte unsigned integers. */
  predicate Fits(n: nat, v: int) {
    0 <= v < Pow256(n)
  }

  lemma FitsU64(v: int)
    ensures Fits(8, v) <==> 0 <= v <= MAX_U64
  {
    assert Pow256(4) == 0x1_0000_0000;
    assert Pow256(8) == 0x100 * (0x100 * (0x100 * (0x100 * Pow256(4))));
  }

  // ---------------------------------------------------------------- readers of the other primitives

  function DecodeFixed(n: nat, input: Bytes): (r: Parsed<Bytes>)
    ensures r.Read? ==> |r.rest| + n == |input| && |r.value| == n
  {
    if n <= |input| then Read(input[..n], input[n..]) else Malformed
  }

  function DecodeInt(n: nat, input: Bytes): (r: Parsed<nat>)
    ensures r.Read? ==> |r.rest| + n == |input|
  {
    var (bytes, rest) :- DecodeFixed(n, input);
    Read(FromLittleEndian(bytes), rest)
  }

  function DecodeAddress(input: Bytes): (r: Parsed<Address>)
    ensures r.Read? ==> |r.rest| + ADDRESS_LENGTH == |input|
  {
    var (bytes, rest) :- DecodeFixed(ADDRESS_LENGTH, input);
    Read(bytes, rest)
  }

  function EncodeBool(b: bool): Bytes {
    if b then [1] else [0]
  }

  function DecodeBool(input: Bytes): (r: Parsed<bool>)
    ensures r.Read? ==> |r.rest| + 1 == |input|
  {
    if input == [] || input[0] > 1 then Malformed else Read(input[0] == 1, input[1..])
  }

  function EncodeBytes(b: Bytes): Bytes {
    EncodeUleb(|b|) + b
  }

  function DecodeBytes(strict: bool, input: Bytes): (r: Parsed<Bytes>)
    ensures r.Read? ==> |r.rest| < |input| && |r.value| <= MAX_U32
  {
    var (n, rest) :- DecodeUleb(strict, input);
    DecodeFixed(n, rest)
  }

  function DecodeText(strict: bool, input: Bytes): (r: Parsed<Text>)
    ensures r.Read? ==> |r.rest| < |input| && |r.value| <= MAX_U32
  {
    var (bytes, rest) :- DecodeBytes(strict, input);
    if IsUtf8(bytes) then Read(bytes, rest) else Malformed
  }

  lemma FixedRoundTrip(b: Bytes, tail: Bytes)
    ensures DecodeFixed(|b|, b + tail) == Read(b, tail)
  {
    assert (b + tail)[..|b|] == b;
    assert (b + tail)[|b|..] == tail;
  }

  lemma IntRoundTrip(n: nat, v: nat, tail: Bytes)
    requires Fits(n, v)
    ensures DecodeInt(n, LittleEndian(n, v) + tail) == Read(v, tail)
  {
    FixedRoundTrip(LittleEndian(n, v), tail);
    LittleEndianRoundTrip(n, v);
  }

  lemma BytesRoundTrip(strict: bool, b: Bytes, tail: Bytes)
    requires |b| <= MAX_U32
    ensures DecodeBytes(strict, EncodeBytes(b) + tail) == Read(b, tail)
  {
    assert EncodeBytes(b) + tail == EncodeUleb(|b|) + (b + tail);
    UlebRoundTrip(strict, |b|, b + tail);
    FixedRoundTrip(b, tail);
  }

  lemma TextRoundTrip(strict: bool, s: Text, tail: Bytes)
    requires |s| <= MAX_U32
    ensures DecodeText(strict, EncodeBytes(s) + tail) == Read(s, tail)
  {
    BytesRoundTrip(strict, s, tail);
  }

  lemma BytesReencode(input: Bytes)
    requires DecodeBytes(true, input).Read?
    ensures var r := DecodeBytes(true, input);
            EncodeBytes(r.value) + r.rest == input && r == DecodeBytes(false, input)
  {
    UlebReencode(input);
    var n := DecodeUleb(true, input);
    var r := DecodeBytes(true, input);
    assert n.rest == r.value + r.rest;
  }

  lemma IntReencode(n: nat, input: Bytes)
    requires DecodeInt(n, input).Read?
    ensures var r := DecodeInt(n, input);
            Fits(n, r.value) && LittleEndian(n, r.value) + r.rest == input
  {
    FromLittleEndianRoundTrip(input[..n]);
  }
}
