/** Numbers as little-endian bytes, and the bits of numbers, least significant first. */
module Bytes {

  type byte = x: int | 0 <= x < 256

  const TWO_32 := 0x1_0000_0000
  const TWO_64 := 0x1_0000_0000_0000_0000
  const ALL_ONES: nat := 0xffff_ffff_ffff_ffff

  function Zeros(n: nat): (r: seq<byte>)
    ensures |r| == n && forall i {:trigger r[i]} | 0 <= i < n :: r[i] == 0
  {
    seq(n, _ => 0)
  }

  function OnesBytes(n: nat): (r: seq<byte>)
    ensures |r| == n && forall i {:trigger r[i]} | 0 <= i < n :: r[i] == 255
  {
    seq(n, _ => 255)
  }

  // ---------- little-endian numbers ----------

  /** `n` bytes of `x`. */
  function LittleEndian(x: nat, n: nat): (r: seq<byte>)
    ensures |r| == n
  {
    if n == 0 then [] else [x % 256] + LittleEndian(x / 256, n - 1)
  }

  /** le32toh and le64toh, of as many bytes as there are. */
  function Value(b: seq<byte>): nat {
    if b == [] then 0 else b[0] + 256 * Value(b[1..])
  }

  function Pow256(n: nat): nat {
    if n == 0 then 1 else 256 * Pow256(n - 1)
  }

  /** What is written is read back, but for what does not fit in the bytes. */
  lemma {:induction false} ReadBack(x: nat, n: nat)
    ensures x < Pow256(n) ==> Value(LittleEndian(x, n)) == x
  {
    if n > 0 && x < Pow256(n) {
      ReadBack(x / 256, n - 1);
      assert LittleEndian(x, n)[1..] == LittleEndian(x / 256, n - 1);
    }
  }

  lemma ReadBack32(x: nat)
    requires x < TWO_32
    ensures Value(LittleEndian(x, 4)) == x
  {
    ReadBack(x, 4);
  }

  // ---------- bits ----------

  predicate Bit(x: nat, j: nat) {
    if j == 0 then x % 2 == 1 else Bit(x / 2, j - 1)
  }

  /** a & ~b */
  function AndNot(a: nat, b: nat): (r: nat)
    ensures r <= a
  {
    if a == 0 then 0
    else 2 * AndNot(a / 2, b / 2) + if a % 2 == 1 && b % 2 == 0 then 1 else 0
  }

  function Pow2(k: nat): (r: nat)
    ensures r > 0
  {
    if k == 0 then 1 else 2 * Pow2(k - 1)
  }

  lemma {:induction false} BitAndNot(a: nat, b: nat, j: nat)
    ensures Bit(AndNot(a, b), j) <==> Bit(a, j) && !Bit(b, j)
    decreases j
  {
    if a == 0 {
      NoBits(j);
    } else if j > 0 {
      BitAndNot(a / 2, b / 2, j - 1);
    }
  }

  lemma {:induction false} NoBits(j: nat)
    ensures !Bit(0, j)
  {
    if j > 0 {
      NoBits(j - 1);
    }
  }

  /** A mask with one bit. */
  lemma {:induction false} BitPow2(k: nat, j: nat)
    ensures Bit(Pow2(k), j) <==> j == k
  {
    if k == 0 {
      if j > 0 {
        NoBits(j - 1);
      }
    } else if j > 0 {
      BitPow2(k - 1, j - 1);
    }
  }

  lemma {:induction false} BitLowOnes(k: nat, j: nat)
    ensures Bit(Pow2(k) - 1, j) <==> j < k
  {
    if k == 0 {
      NoBits(j);
    } else if j > 0 {
      BitLowOnes(k - 1, j - 1);
      assert (Pow2(k) - 1) / 2 == Pow2(k - 1) - 1;
    }
  }

  lemma {:induction false} Pow2Adds(a: nat, b: nat)
    ensures Pow2(a + b) == Pow2(a) * Pow2(b)
  {
    if a > 0 {
      Pow2Adds(a - 1, b);
    }
  }

  lemma Pow2Of64()
    ensures Pow2(64) == TWO_64
  {
    assert Pow2(8) == 256;
    Pow2Adds(8, 8);
    Pow2Adds(16, 16);
    Pow2Adds(32, 32);
  }

  lemma {:induction false} Pow2Grows(k: nat, n: nat)
    requires k <= n
    ensures Pow2(k) <= Pow2(n)
  {
    if k < n {
      Pow2Grows(k, n - 1);
    }
  }

  lemma BitAllOnes(j: nat)
    ensures Bit(ALL_ONES, j) <==> j < 64
  {
    Pow2Of64();
    BitLowOnes(64, j);
  }

  // ---------- the bits of bytes ----------

  /** What is added in multiples of 2^m leaves the bits below `m` alone. */
  lemma {:induction false} LowBits(x: nat, y: nat, h: nat, m: nat, r: nat)
    requires x == y + Pow2(m) * h && r < m
    ensures Bit(x, r) == Bit(y, r)
  {
    var k := Pow2(m - 1) * h;
    assert Pow2(m) * h == 2 * k;
    if r > 0 {
      LowBits(x / 2, y / 2, h, m - 1, r - 1);
    }
  }

  lemma BitsOfByte(x: nat, r: nat)
    requires r < 8
    ensures Bit(x % 256, r) == Bit(x, r)
  {
    assert Pow2(4) == 16;
    assert Pow2(8) == 256;
    LowBits(x, x % 256, x / 256, 8, r);
  }

  lemma BitShift8(x: nat, j: nat)
    ensures Bit(x / 256, j) == Bit(x, j + 8)
  {
    var x2 := x / 2 / 2;
    var x4 := x2 / 2 / 2;
    var x6 := x4 / 2 / 2;
    var x8 := x6 / 2 / 2;
    assert x4 == x / 16 && x8 == x4 / 16 == x / 256;
    assert Bit(x, j + 8) == Bit(x2, j + 6);
    assert Bit(x2, j + 6) == Bit(x4, j + 4);
    assert Bit(x4, j + 4) == Bit(x6, j + 2);
    assert Bit(x6, j + 2) == Bit(x8, j);
  }

  /** Bit `r` of byte `t` of a number is its bit 8t + r. */
  lemma {:induction false} BitsOfLittleEndian(x: nat, n: nat, t: nat, r: nat)
    requires t < n && r < 8
    ensures Bit(LittleEndian(x, n)[t], r) == Bit(x, 8 * t + r)
  {
    if t == 0 {
      BitsOfByte(x, r);
    } else {
      BitsOfLittleEndian(x / 256, n - 1, t - 1, r);
      BitShift8(x, 8 * (t - 1) + r);
    }
  }
}
