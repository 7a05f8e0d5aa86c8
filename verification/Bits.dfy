/** Bits of unbounded natural numbers, as Python's integers have them. */
module Bits {
  import opened Bcs

  /** Bit `k` of `n`, counting from the least significant. */
  predicate Bit(n: nat, k: nat) {
    if k == 0 then n % 2 == 1 else Bit(n / 2, k - 1)
  }

  /** `1 << k` */
  function Pow2(k: nat): (p: nat)
    ensures p > 0
  {
    if k == 0 then 1 else 2 * Pow2(k - 1)
  }

  /** `a | b` */
  function BitOr(a: nat, b: nat): nat
    decreases a + b
  {
    if a == 0 then b else if b == 0 then a
    else 2 * BitOr(a / 2, b / 2) + if a % 2 == 1 || b % 2 == 1 then 1 else 0
  }

  lemma {:induction false} ZeroBit(k: nat)
    ensures !Bit(0, k)
  {
    if k > 0 {
      ZeroBit(k - 1);
    }
  }

  lemma {:induction false} Pow2Bit(s: nat, k: nat)
    ensures Bit(Pow2(s), k) <==> k == s
  {
    if s == 0 {
      if k > 0 {
        ZeroBit(k - 1);
      }
    } else if k > 0 {
      Pow2Bit(s - 1, k - 1);
    }
  }

  lemma {:induction false} BitOrBit(a: nat, b: nat, k: nat)
    ensures Bit(BitOr(a, b), k) <==> Bit(a, k) || Bit(b, k)
    decreases a + b
  {
    if a == 0 || b == 0 {
      ZeroBit(k);
    } else if k > 0 {
      BitOrBit(a / 2, b / 2, k - 1);
    }
  }

  lemma {:induction false} SomeBit(n: nat) returns (k: nat)
    requires n > 0
    ensures Bit(n, k)
  {
    if n % 2 == 1 {
      k := 0;
    } else {
      var j := SomeBit(n / 2);
      k := j + 1;
    }
  }

  ghost predicate NoBitFrom(n: nat, w: nat) {
    forall k: nat | k >= w :: !Bit(n, k)
  }

  /** A number is below `1 << w` exactly when it has no bit at or above `w`. */
  lemma {:induction false} BelowPow2(n: nat, w: nat)
    ensures n < Pow2(w) <==> NoBitFrom(n, w)
  {
    if w == 0 {
      if n == 0 {
        forall k: nat | k >= w ensures !Bit(n, k) { ZeroBit(k); }
      } else {
        var k := SomeBit(n);
      }
    } else {
      BelowPow2(n / 2, w - 1);
      if n < Pow2(w) {
        forall k: nat | k >= w ensures !Bit(n, k) { assert !Bit(n / 2, k - 1); }
      } else {
        var k: nat :| k >= w - 1 && Bit(n / 2, k);
        var j: nat := k + 1;
        assert j >= w && Bit(n, j);
      }
    }
  }

  /** Numbers with the same bits are equal. */
  lemma {:induction false} BitsDetermine(a: nat, b: nat)
    requires forall k :: Bit(a, k) == Bit(b, k)
    ensures a == b
    decreases a + b
  {
    if a != 0 || b != 0 {
      assert Bit(a, 0) == Bit(b, 0);
      forall k: nat ensures Bit(a / 2, k) == Bit(b / 2, k) {
        assert Bit(a, k + 1) == Bit(b, k + 1);
      }
      BitsDetermine(a / 2, b / 2);
    }
  }

  /** `n.to_bytes(width, "big")` for an `n` that fits. */
  function BigEndian(width: nat, n: nat): (bytes: Bytes)
    ensures |bytes| == width
  {
    if width == 0 then [] else BigEndian(width - 1, n / 0x100) + [n % 0x100]
  }

  lemma {:induction false} HighBit(n: nat, k: nat)
    ensures Bit(n / 0x100, k) == Bit(n, k + 8)
  {
    assert n / 0x100 == n / 2 / 2 / 2 / 2 / 2 / 2 / 2 / 2;
    assert Bit(n, k + 8) == Bit(n / 2, k + 7) == Bit(n / 2 / 2, k + 6) == Bit(n / 2 / 2 / 2, k + 5);
    assert Bit(n / 2 / 2 / 2, k + 5) == Bit(n / 2 / 2 / 2 / 2, k + 4) == Bit(n / 2 / 2 / 2 / 2 / 2, k + 3);
    assert Bit(n / 2 / 2 / 2 / 2 / 2, k + 3) == Bit(n / 2 / 2 / 2 / 2 / 2 / 2, k + 2)
        == Bit(n / 2 / 2 / 2 / 2 / 2 / 2 / 2, k + 1);
  }

  /** Adding a multiple of `1 << w` leaves the bits below `w` alone. */
  lemma {:induction false} AddedAbove(q: nat, r: nat, k: nat, w: nat)
    requires k < w
    ensures Bit(Pow2(w) * q + r, k) == Bit(r, k)
  {
    var x := Pow2(w - 1) * q;
    assert Pow2(w) * q == 2 * x;
    if k > 0 {
      assert (2 * x + r) / 2 == x + r / 2;
      AddedAbove(q, r / 2, k - 1, w - 1);
    }
  }

  lemma {:induction false} BigEndianBit(width: nat, n: nat, j: nat, b: nat)
    requires j < width && b < 8
    ensures Bit(BigEndian(width, n)[j], b) == Bit(n, 8 * (width - 1 - j) + b)
  {
    if j == width - 1 {
      assert Pow2(8) == 0x100;
      AddedAbove(n / 0x100, n % 0x100, b, 8);
    } else {
      BigEndianBit(width - 1, n / 0x100, j, b);
      HighBit(n, 8 * (width - 2 - j) + b);
    }
  }

  /** A byte is determined by its eight bits. */
  lemma ByteBitsDetermine(a: Byte, b: Byte)
    requires forall k | 0 <= k < 8 :: Bit(a, k) == Bit(b, k)
    ensures a == b
  {
    assert Pow2(8) == 0x100;
    BelowPow2(a, 8);
    BelowPow2(b, 8);
    BitsDetermine(a, b);
  }

  // ---------------------------------------------------------------- where the primitives put each bit

  /** Byte `j` of a fixed-width integer holds its bits `8j` to `8j + 7`. */
  lemma {:induction false} LittleEndianBit(width: nat, n: nat, j: nat, b: nat)
    requires j < width && b < 8
    ensures Bit(LittleEndian(width, n)[j], b) == Bit(n, 8 * j + b)
  {
    if j == 0 {
      assert Pow2(8) == 0x100;
      AddedAbove(n / 0x100, n % 0x100, b, 8);
    } else {
      LittleEndianBit(width - 1, n / 0x100, j - 1, b);
      HighBit(n, 8 * (j - 1) + b);
    }
  }

  lemma {:induction false} GroupBit(n: nat, k: nat)
    ensures Bit(n / 0x80, k) == Bit(n, k + 7)
  {
    assert n / 0x80 == n / 2 / 2 / 2 / 2 / 2 / 2 / 2;
    assert Bit(n, k + 7) == Bit(n / 2, k + 6) == Bit(n / 2 / 2, k + 5) == Bit(n / 2 / 2 / 2, k + 4);
    assert Bit(n / 2 / 2 / 2, k + 4) == Bit(n / 2 / 2 / 2 / 2, k + 3) == Bit(n / 2 / 2 / 2 / 2 / 2, k + 2)
        == Bit(n / 2 / 2 / 2 / 2 / 2 / 2, k + 1);
  }

  /**
   Byte `j` of a ULEB128 integer holds its bits `7j` to `7j + 6`, the top bit is set on all bytes but
   the last, and no final byte is a zero group that could have been left out.
   */
  lemma {:induction false} UlebBit(n: nat, j: nat, b: nat)
    requires j < |EncodeUleb(n)| && b < 7
    ensures Bit(EncodeUleb(n)[j], b) == Bit(n, 7 * j + b)
    ensures EncodeUleb(n)[j] >= 0x80 <==> j < |EncodeUleb(n)| - 1
    ensures j == |EncodeUleb(n)| - 1 > 0 ==> EncodeUleb(n)[j] != 0
  {
    assert Pow2(7) == 0x80;
    if n >= 0x80 {
      if j == 0 {
        AddedAbove(n / 0x80, n % 0x80, b, 7);
        AddedAbove(1, n % 0x80, b, 7);
      } else {
        UlebBit(n / 0x80, j - 1, b);
        GroupBit(n, 7 * (j - 1) + b);
      }
    }
  }
}
