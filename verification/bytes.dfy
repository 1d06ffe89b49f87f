/**
 Bytes, fixed-width unsigned integers and the little-endian field readers of
 the archive decoders.

 C's bitwise `|` and `&` are modelled as arithmetic functions on naturals
 (`Or`, `And`) so that the decoders can be written exactly as the source
 assembles its values, and the lemmas below prove what those assemblies mean.
 */
module Bytes {

  type byte = b: int | 0 <= b < 0x100
  type uint16 = n: int | 0 <= n < 0x1_0000
  type uint32 = n: int | 0 <= n < 0x1_0000_0000

  const TWO32: nat := 0x1_0000_0000

  datatype Option<T> = None | Some(value: T)

  function Pow2(k: nat): (r: nat)
    ensures r >= 1
  {
    if k == 0 then 1 else 2 * Pow2(k - 1)
  }

  /** Bit `k` of `x`. */
  function Bit(x: nat, k: nat): nat
  {
    if k == 0 then x % 2 else Bit(x / 2, k - 1)
  }

  /** C's `a | b` on non-negative values. */
  function Or(a: nat, b: nat): nat
    decreases a + b
  {
    if a == 0 then b
    else if b == 0 then a
    else 2 * Or(a / 2, b / 2) + (if a % 2 == 1 || b % 2 == 1 then 1 else 0)
  }

  /** C's `a & b` on non-negative values. */
  function And(a: nat, b: nat): nat
    decreases a + b
  {
    if a == 0 || b == 0 then 0
    else 2 * And(a / 2, b / 2) + (if a % 2 == 1 && b % 2 == 1 then 1 else 0)
  }

  /** C's `x << k`, before any truncation to the destination width. */
  function Shl(x: nat, k: nat): nat
  {
    x * Pow2(k)
  }

  /** Or-ing a value into the zero low bits of a shifted lane adds it. */
  lemma {:induction false} OrLanes(a: nat, b: nat, k: nat)
    requires a < Pow2(k)
    ensures Or(a, Shl(b, k)) == a + Shl(b, k)
  {
    if k == 0 {
    } else if a == 0 {
    } else if b == 0 {
    } else {
      var B := b * Pow2(k);
      assert B == 2 * (b * Pow2(k - 1));
      assert B / 2 == b * Pow2(k - 1);
      assert B % 2 == 0;
      OrLanes(a / 2, b, k - 1);
    }
  }

  /** Or never clears a bit of either operand and never sets one above width k. */
  lemma {:induction false} OrBounds(a: nat, b: nat, k: nat)
    requires a < Pow2(k) && b < Pow2(k)
    ensures a <= Or(a, b) < Pow2(k)
    ensures b <= Or(a, b)
    decreases a + b
  {
    if a == 0 || b == 0 {
    } else {
      assert k > 0;
      OrBounds(a / 2, b / 2, k - 1);
    }
  }

  /** Or works bit by bit: the lowest bit, then the rest shifted down. */
  lemma OrUnfold(a: nat, b: nat)
    ensures Or(a, b) == 2 * Or(a / 2, b / 2) + (if a % 2 == 1 || b % 2 == 1 then 1 else 0)
  {
    if a == 0 {
      assert Or(0, b / 2) == b / 2;
    } else if b == 0 {
      assert Or(a / 2, 0) == a / 2;
    }
  }

  /** Or splits at bit `k`: the low `k` bits and the bits above are or-ed apart. */
  lemma {:induction false} OrSplit(a0: nat, a1: nat, b0: nat, b1: nat, k: nat)
    requires a0 < Pow2(k) && b0 < Pow2(k)
    ensures Or(a0 + Pow2(k) * a1, b0 + Pow2(k) * b1) == Or(a0, b0) + Pow2(k) * Or(a1, b1)
  {
    if k > 0 {
      var p := Pow2(k - 1);
      var pa, pb := p * a1, p * b1;
      DoubleProduct(p, a1);
      DoubleProduct(p, b1);
      var a, b := a0 + Pow2(k) * a1, b0 + Pow2(k) * b1;
      assert a / 2 == a0 / 2 + pa && a % 2 == a0 % 2;
      assert b / 2 == b0 / 2 + pb && b % 2 == b0 % 2;
      OrUnfold(a, b);
      OrUnfold(a0, b0);
      OrSplit(a0 / 2, a1, b0 / 2, b1, k - 1);
      OrArgs(a / 2, b / 2, a0 / 2 + p * a1, b0 / 2 + p * b1);
      var o := Or(a1, b1);
      DoubleProduct(p, o);
    }
  }

  /** Or of equal arguments. */
  lemma OrArgs(a: nat, b: nat, a': nat, b': nat)
    requires a == a' && b == b'
    ensures Or(a, b) == Or(a', b')
  {
  }

  lemma DoubleProduct(p: nat, x: nat)
    ensures 2 * p * x == 2 * (p * x)
  {
  }

  /** Or-ing anything below 2^k with the all-ones value of width k gives all ones. */
  lemma {:induction false} OrAllOnes(a: nat, k: nat)
    requires a < Pow2(k)
    ensures Or(a, Pow2(k) - 1) == Pow2(k) - 1 && Or(Pow2(k) - 1, a) == Pow2(k) - 1
  {
    if k > 0 {
      var m := Pow2(k) - 1;
      assert m / 2 == Pow2(k - 1) - 1 && m % 2 == 1;
      OrAllOnes(a / 2, k - 1);
      OrUnfold(a, m);
      OrUnfold(m, a);
    }
  }

  /** Masking with a single power of two tests exactly that bit. */
  lemma {:induction false} AndSingleBit(x: nat, k: nat)
    ensures And(x, Pow2(k)) != 0 <==> Bit(x, k) == 1
  {
    if x == 0 {
      ZeroHasNoBits(k);
    } else if k == 0 {
      assert And(x, 1) == 2 * And(x / 2, 0) + (if x % 2 == 1 then 1 else 0);
    } else {
      assert Pow2(k) / 2 == Pow2(k - 1) && Pow2(k) % 2 == 0;
      AndSingleBit(x / 2, k - 1);
    }
  }

  lemma {:induction false} ZeroHasNoBits(k: nat)
    ensures Bit(0, k) == 0
  {
    if k > 0 {
      ZeroHasNoBits(k - 1);
    }
  }

  /**
   `read_le16`: the two bytes at `off`, low byte first, whatever the host
   byte order. The source assembles it as `p[0] | (p[1] << 8)`;
   `ReadLE16IsOr` shows that is this value.
   */
  function ReadLE16(s: seq<byte>, off: nat): (r: uint16)
    requires off + 2 <= |s|
  {
    s[off] as int + 0x100 * (s[off + 1] as int)
  }

  /** The source's bit expression for `read_le16` computes the little-endian value. */
  lemma ReadLE16IsOr(s: seq<byte>, off: nat)
    requires off + 2 <= |s|
    ensures Or(s[off], Shl(s[off + 1], 8)) == ReadLE16(s, off)
  {
    LaneWidths();
    OrLanes(s[off], s[off + 1], 8);
  }

  /**
   `read_le32`: the four bytes at `off`, low byte first. The source
   assembles it as p[0] | (p[1] << 8) | (p[2] << 16) | (p[3] << 24), with
   the last shift done in `int`, where it wraps for p[3] >= 0x80; the bits
   that reach the `uint32_t` result are the same, so `ReadLE32IsOr` shows
   the unbounded expression is this value.
   */
  function ReadLE32(s: seq<byte>, off: nat): (r: uint32)
    requires off + 4 <= |s|
  {
    s[off] as int + 0x100 * (s[off + 1] as int) + 0x1_0000 * (s[off + 2] as int) + 0x100_0000 * (s[off + 3] as int)
  }

  /** The source's bit expression for `read_le32` computes the little-endian value. */
  lemma ReadLE32IsOr(s: seq<byte>, off: nat)
    requires off + 4 <= |s|
    ensures Or(Or(Or(s[off], Shl(s[off + 1], 8)), Shl(s[off + 2], 16)), Shl(s[off + 3], 24)) == ReadLE32(s, off)
  {
    var b0, b1, b2, b3 := s[off], s[off + 1], s[off + 2], s[off + 3];
    LaneWidths();
    OrLanes(b0, b1, 8);
    OrLanes(b0 + Shl(b1, 8), b2, 16);
    OrLanes(b0 + Shl(b1, 8) + Shl(b2, 16), b3, 24);
  }

  lemma LaneWidths()
    ensures Pow2(8) == 0x100 && Pow2(16) == 0x1_0000 && Pow2(24) == 0x100_0000
  {
    assert Pow2(4) == 16;
    assert Pow2(8) == 0x100;
    assert Pow2(12) == 0x1000;
    assert Pow2(16) == 0x1_0000;
    assert Pow2(20) == 0x10_0000;
  }

  lemma Pow2Of32()
    ensures Pow2(32) == TWO32
  {
    LaneWidths();
    assert Pow2(28) == 0x1000_0000;
  }

  /** One byte lane: splitting off the low byte of `a + 0x100 * m`. */
  lemma SplitLowByte(a: int, m: nat)
    requires 0 <= a < 0x100
    ensures (a + 0x100 * m) % 0x100 == a && (a + 0x100 * m) / 0x100 == m
  {
  }

  /** The two bytes a little-endian writer emits for `n`. */
  function LE16Bytes(n: uint16): (r: seq<byte>)
    ensures |r| == 2
  {
    [n % 0x100, n / 0x100]
  }

  /** The four bytes a little-endian writer emits for `n`. */
  function LE32Bytes(n: uint32): (r: seq<byte>)
    ensures |r| == 4
  {
    [n % 0x100, (n / 0x100) % 0x100, (n / 0x100 / 0x100) % 0x100, n / 0x100 / 0x100 / 0x100]
  }

  lemma ReadLE16Encode(n: uint16, pre: seq<byte>, post: seq<byte>)
    ensures ReadLE16(pre + LE16Bytes(n) + post, |pre|) == n
  {
    var s := pre + LE16Bytes(n) + post;
    assert s[|pre|] == n % 0x100 && s[|pre| + 1] == n / 0x100;
  }

  lemma EncodeReadLE16(s: seq<byte>, off: nat)
    requires off + 2 <= |s|
    ensures LE16Bytes(ReadLE16(s, off)) == s[off..off + 2]
  {
    var b0: int, b1: int := s[off], s[off + 1];
    assert ReadLE16(s, off) == b0 + 0x100 * b1;
    SplitLowByte(b0, b1);
  }

  lemma ReadLE32Encode(n: uint32, pre: seq<byte>, post: seq<byte>)
    ensures ReadLE32(pre + LE32Bytes(n) + post, |pre|) == n
  {
    var w := LE32Bytes(n);
    var s := pre + w + post;
    var o := |pre|;
    assert s[o] == w[0] && s[o + 1] == w[1] && s[o + 2] == w[2] && s[o + 3] == w[3];
    LE32Value(n);
  }

  /** The four bytes of `n`, weighted by their lanes, add up to `n`. */
  lemma LE32Value(n: uint32)
    ensures var w := LE32Bytes(n);
            w[0] as int + 0x100 * (w[1] as int) + 0x1_0000 * (w[2] as int) + 0x100_0000 * (w[3] as int) == n
  {
    var q1 := n / 0x100;
    var q2 := q1 / 0x100;
    var q3 := q2 / 0x100;
    assert n == n % 0x100 + 0x100 * q1;
    assert q1 == q1 % 0x100 + 0x100 * q2;
    assert q2 == q2 % 0x100 + 0x100 * q3;
  }

  lemma EncodeReadLE32(s: seq<byte>, off: nat)
    requires off + 4 <= |s|
    ensures LE32Bytes(ReadLE32(s, off)) == s[off..off + 4]
  {
    var b0: int, b1: int, b2: int, b3: int := s[off], s[off + 1], s[off + 2], s[off + 3];
    var n := ReadLE32(s, off);
    var m2 := b2 + 0x100 * b3;
    var m1 := b1 + 0x100 * m2;
    assert n == b0 + 0x100 * m1;
    SplitLowByte(b0, m1);
    SplitLowByte(b1, m2);
    SplitLowByte(b2, b3);
  }

  /** `a | b` of two bytes, a byte. */
  function OrByte(a: byte, b: byte): byte
  {
    OrByteBound(a, b);
    Or(a, b)
  }

  lemma OrByteBound(a: byte, b: byte)
    ensures Or(a, b) < 0x100
  {
    LaneWidths();
    OrBounds(a, b, 8);
  }

  /** Or-ing two 32-bit values or-s their little-endian bytes lane by lane. */
  lemma OrByLanes(x: seq<byte>, y: seq<byte>)
    requires |x| == 4 && |y| == 4
    ensures Or(ReadLE32(x, 0), ReadLE32(y, 0))
            == ReadLE32([OrByte(x[0], y[0]), OrByte(x[1], y[1]), OrByte(x[2], y[2]), OrByte(x[3], y[3])], 0)
  {
    ReadLE32Nested(x);
    ReadLE32Nested(y);
    ReadLE32Nested([OrByte(x[0], y[0]), OrByte(x[1], y[1]), OrByte(x[2], y[2]), OrByte(x[3], y[3])]);
    OrFourBytes(x[0], x[1], x[2], x[3], y[0], y[1], y[2], y[3]);
  }

  /** The value of a low byte `lo` below the lanes `hi`. */
  function Lane(lo: nat, hi: nat): nat
  {
    lo + 0x100 * hi
  }

  /** The little-endian read, written as nested lanes. */
  lemma ReadLE32Nested(s: seq<byte>)
    requires |s| == 4
    ensures ReadLE32(s, 0) == Lane(s[0], Lane(s[1], Lane(s[2], s[3])))
  {
  }

  /** Or of two 32-bit values written as nested byte lanes. */
  lemma OrFourBytes(a0: byte, a1: byte, a2: byte, a3: byte, b0: byte, b1: byte, b2: byte, b3: byte)
    ensures Or(Lane(a0, Lane(a1, Lane(a2, a3))), Lane(b0, Lane(b1, Lane(b2, b3))))
            == Lane(OrByte(a0, b0), Lane(OrByte(a1, b1), Lane(OrByte(a2, b2), OrByte(a3, b3))))
  {
    OrByteLane(a2, a3, b2, b3);
    OrByteLane(a1, Lane(a2, a3), b1, Lane(b2, b3));
    OrByteLane(a0, Lane(a1, Lane(a2, a3)), b0, Lane(b1, Lane(b2, b3)));
  }

  /** Or splits at bit 8. */
  lemma OrByteLane(a0: byte, a1: nat, b0: byte, b1: nat)
    ensures Or(Lane(a0, a1), Lane(b0, b1)) == Lane(OrByte(a0, b0), Or(a1, b1))
  {
    LaneWidths();
    OrSplit(a0, a1, b0, b1, 8);
  }

  /** Or with zero and with 0xFF, on bytes. */
  lemma OrByteUnits(a: byte)
    ensures OrByte(a, 0) == a && OrByte(0, a) == a
    ensures OrByte(a, 0xFF) == 0xFF && OrByte(0xFF, a) == 0xFF
  {
    LaneWidths();
    OrAllOnes(a, 8);
  }

  /** Reading a 32-bit field is the same as comparing its four bytes. */
  lemma ReadLE32Injective(s: seq<byte>, i: nat, t: seq<byte>, j: nat)
    requires i + 4 <= |s| && j + 4 <= |t|
    ensures ReadLE32(s, i) == ReadLE32(t, j) <==> s[i..i + 4] == t[j..j + 4]
  {
    if ReadLE32(s, i) == ReadLE32(t, j) {
      EncodeReadLE32(s, i);
      EncodeReadLE32(t, j);
    }
    FourBytes(s, i);
    FourBytes(t, j);
  }

  lemma FourBytes(s: seq<byte>, i: nat)
    requires i + 4 <= |s|
    ensures s[i..i + 4] == [s[i], s[i + 1], s[i + 2], s[i + 3]]
  {
  }

  lemma ReadLE16Injective(s: seq<byte>, i: nat, t: seq<byte>, j: nat)
    requires i + 2 <= |s| && j + 2 <= |t|
    ensures ReadLE16(s, i) == ReadLE16(t, j) <==> s[i..i + 2] == t[j..j + 2]
  {
    EncodeReadLE16(s, i);
    EncodeReadLE16(t, j);
    if s[i..i + 2] == t[j..j + 2] {
      assert s[i] == t[j] && s[i + 1] == t[j + 1];
    }
  }
}
