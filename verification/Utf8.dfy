/**
 Which byte strings are character strings: exactly the UTF-8 encodings of sequences of Unicode scalar
 values (RFC 3629, section 3).
 */
module Utf8 {
  import opened Bcs

  /** A code point that is not a surrogate. */
  type Scalar = c: int | 0 <= c < 0xD800 || 0xE000 <= c < 0x110000 witness 0

  function EncodeScalar(c: Scalar): Bytes {
    if c < 0x80 then [c]
    else if c < 0x800 then [0xC0 + c / 0x40, 0x80 + c % 0x40]
    else if c < 0x10000 then [0xE0 + c / 0x1000, 0x80 + c / 0x40 % 0x40, 0x80 + c % 0x40]
    else [0xF0 + c / 0x40000, 0x80 + c / 0x1000 % 0x40, 0x80 + c / 0x40 % 0x40, 0x80 + c % 0x40]
  }

  function EncodeScalars(cs: seq<Scalar>): Bytes {
    if cs == [] then [] else EncodeScalar(cs[0]) + EncodeScalars(cs[1..])
  }

  /** An encoded character is recognised at the front of whatever follows, at its full length. */
  lemma CharacterRecognised(c: Scalar, tail: Bytes)
    ensures |EncodeScalar(c)| > 0 && CharacterLength(EncodeScalar(c) + tail) == |EncodeScalar(c)|
  {
  }

  /** A number built from a higher part and a six-bit digit comes apart again. */
  lemma Digit(high: nat, low: nat)
    requires low < 0x40
    ensures (high * 0x40 + low) / 0x40 == high && (high * 0x40 + low) % 0x40 == low
  {
  }

  lemma DivideTwice(c: nat)
    ensures c / 0x1000 == c / 0x40 / 0x40
    ensures c / 0x40000 == c / 0x40 / 0x40 / 0x40
  {
  }

  lemma TwoBytes(a: nat, b: nat) returns (c: Scalar)
    requires 2 <= a < 0x20 && b < 0x40
    ensures EncodeScalar(c) == [0xC0 + a, 0x80 + b]
  {
    Digit(a, b);
    c := a * 0x40 + b;
  }

  lemma ThreeBytes(a: nat, b: nat, d: nat) returns (c: Scalar)
    requires a < 0x10 && b < 0x40 && d < 0x40 && (a == 0 ==> b >= 0x20) && (a == 0xD ==> b < 0x20)
    ensures EncodeScalar(c) == [0xE0 + a, 0x80 + b, 0x80 + d]
  {
    Digit(a, b);
    Digit(a * 0x40 + b, d);
    c := (a * 0x40 + b) * 0x40 + d;
    DivideTwice(c);
  }

  lemma FourBytes(a: nat, b: nat, d: nat, e: nat) returns (c: Scalar)
    requires a < 5 && b < 0x40 && d < 0x40 && e < 0x40 && (a == 0 ==> b >= 0x10) && (a == 4 ==> b < 0x10)
    ensures EncodeScalar(c) == [0xF0 + a, 0x80 + b, 0x80 + d, 0x80 + e]
  {
    Digit(a, b);
    Digit(a * 0x40 + b, d);
    Digit((a * 0x40 + b) * 0x40 + d, e);
    c := ((a * 0x40 + b) * 0x40 + d) * 0x40 + e;
    DivideTwice(c);
  }

  /** What is recognised at the front is the encoding of some character. */
  lemma CharacterDecoded(s: Bytes) returns (c: Scalar)
    requires CharacterLength(s) > 0
    ensures EncodeScalar(c) == s[..CharacterLength(s)]
  {
    var n := CharacterLength(s);
    var first: int := s[0];
    if n == 1 {
      c := first;
    } else {
      hide EncodeScalar;
      var second: int := s[1];
      if n == 2 {
        c := TwoBytes(first - 0xC0, second - 0x80);
      } else {
        var third: int := s[2];
        if n == 3 {
          c := ThreeBytes(first - 0xE0, second - 0x80, third - 0x80);
        } else {
          var fourth: int := s[3];
          c := FourBytes(first - 0xF0, second - 0x80, third - 0x80, fourth - 0x80);
        }
      }
    }
  }

  lemma {:induction false} EncodedIsUtf8(cs: seq<Scalar>)
    ensures IsUtf8(EncodeScalars(cs))
  {
    if cs != [] {
      EncodedIsUtf8(cs[1..]);
      var head, rest := EncodeScalar(cs[0]), EncodeScalars(cs[1..]);
      CharacterRecognised(cs[0], rest);
      assert (head + rest)[|head|..] == rest;
    }
  }

  lemma {:induction false} Utf8IsEncoded(s: Bytes) returns (cs: seq<Scalar>)
    requires IsUtf8(s)
    ensures EncodeScalars(cs) == s
    decreases |s|
  {
    if s == [] {
      cs := [];
    } else {
      var n := CharacterLength(s);
      var c := CharacterDecoded(s);
      var later := Utf8IsEncoded(s[n..]);
      cs := [c] + later;
      assert cs[1..] == later;
      assert s == s[..n] + s[n..];
    }
  }

  /** The reader of strings accepts exactly the encodings of scalar value sequences. */
  lemma Utf8Exact(s: Bytes)
    ensures IsUtf8(s) <==> exists cs :: EncodeScalars(cs) == s
  {
    if IsUtf8(s) {
      var cs := Utf8IsEncoded(s);
    }
    if cs :| EncodeScalars(cs) == s {
      EncodedIsUtf8(cs);
    }
  }
}
