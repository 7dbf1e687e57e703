/** Byte and bit arithmetic shared by the send and receive loops of the
    GameCube/N64 frame codec: the MSB-first extraction `(b >> (7 - j)) % 2`
    used when sending, and the packing `b += bit << (7 - j)` used when
    receiving. */
module Bits {

  /** An unsigned 8-bit value (`uint8_t`). */
  type Byte = x: int | 0 <= x < 256

  /** A decoded data bit. */
  type Bit = x: nat | x <= 1

  /** 2 to the power k, i.e. `1 << k`. */
  function Pow2(k: nat): (r: nat)
    ensures r >= 1
  {
    if k == 0 then 1 else 2 * Pow2(k - 1)
  }

  /** Logical right shift `x >> k` of a non-negative value: k halvings,
      which is division by 2^k. */
  function Shr(x: nat, k: nat): (r: nat)
    ensures r == x / Pow2(k)
  {
    if k == 0 then x
    else
      DivHalf(x, Pow2(k - 1));
      Shr(x, k - 1) / 2
  }

  /** Halving the quotient by p is dividing by 2 * p. */
  lemma DivHalf(x: nat, p: nat)
    requires p >= 1
    ensures (x / p) / 2 == x / (2 * p)
  {
    var q, rem := x / p, x % p;
    var h, e := q / 2, q % 2;
    assert x == (2 * h + e) * p + rem;
    assert x == h * (2 * p) + (e * p + rem);
    DivUnique(x, 2 * p, h, e * p + rem);
  }

  /** A quotient and remainder in range are the ones of Euclidean division. */
  lemma DivUnique(x: nat, d: nat, m: nat, rem: nat)
    requires d >= 1 && x == m * d + rem && rem < d
    ensures x / d == m
  {
    var q := x / d;
    if m < q {
      MulGap(m, q, d);
    } else if m > q {
      MulGap(q, m, d);
    }
  }

  /** A larger multiplier is larger by at least one multiple of d. */
  lemma MulGap(a: nat, b: nat, d: nat)
    requires a < b
    ensures a * d + d <= b * d
  {
    var t: nat := b - a - 1;
    assert b * d == a * d + d + t * d;
  }

  /** Shifting right by k divides the bound by 2^k. */
  lemma {:induction false} ShrBound(x: nat, n: nat, k: nat)
    requires x < Pow2(n) && k <= n
    ensures Shr(x, k) < Pow2(n - k)
  {
    if k > 0 {
      ShrBound(x, n, k - 1);
    }
  }

  /** Left shift `x << k`: k doublings, which is multiplication by 2^k. */
  function Shl(x: nat, k: nat): (r: nat)
    ensures r == x * Pow2(k)
  {
    if k == 0 then x else 2 * Shl(x, k - 1)
  }

  /** The j-th bit of b counting from the most significant one, as the send
      loop computes it: `(b >> (7 - j)) % 2`. It is the binary digit of b
      of weight 2^(7 - j). */
  function BitAt(b: Byte, j: nat): (r: Bit)
    requires j < 8
    ensures r == (b / Pow2(7 - j)) % 2
  {
    Shr(b, 7 - j) % 2
  }

  /** The eight bits of b, most significant first. */
  function BitsOf(b: Byte): (r: seq<Bit>)
    ensures |r| == 8
    ensures forall j :: 0 <= j < 8 ==> r[j] == BitAt(b, j)
  {
    seq(8, j requires 0 <= j < 8 => BitAt(b, j))
  }

  /** The byte the receive loop accumulates from the bits it has read so far:
      bit j contributes `bit << (7 - j)`. The contract says that the still
      empty low-order positions leave room for every later bit, so the
      accumulated value is below 256 and the `uint8_t` addition never wraps. */
  function Pack(bits: seq<Bit>): (r: nat)
    requires |bits| <= 8
    ensures r + Pow2(8 - |bits|) <= 256
  {
    if |bits| == 0 then 0
    else
      Pack(bits[..|bits| - 1]) + Shl(bits[|bits| - 1], 8 - |bits|)
  }

  /** Packing the first j extracted bits of b leaves b with its low 8 - j bits
      cleared. */
  lemma {:induction false} PackPrefix(b: Byte, j: nat)
    requires j <= 8
    ensures Pack(BitsOf(b)[..j]) == Shr(b, 8 - j) * Pow2(8 - j)
  {
    if j == 0 {
      ShrBound(b, 8, 8);
    } else {
      PackPrefix(b, j - 1);
      var bits := BitsOf(b)[..j];
      var s := Shr(b, 8 - j);
      var p := Pow2(8 - j);
      assert bits[..j - 1] == BitsOf(b)[..j - 1];
      assert bits[j - 1] == s % 2;
      assert Pack(bits) == Pack(BitsOf(b)[..j - 1]) + Shl(s % 2, 8 - j);
      assert Shr(b, 9 - j) == s / 2;
      assert Pow2(9 - j) == 2 * p;
      HalveAndRest(s, p, 8 - j);
    }
  }

  /** Splitting s into its upper bits s / 2 and its lowest bit s % 2. A
      separate step: `PackPrefix` runs out of resources when it is left
      implicit. */
  lemma HalveAndRest(s: nat, p: nat, k: nat)
    requires p == Pow2(k)
    ensures (s / 2) * (2 * p) + Shl(s % 2, k) == s * p
  {
  }

  /** Byte-level round trip: packing, MSB first, the eight bits the send loop
      extracts from b gives b back. */
  lemma PackBitsOf(b: Byte)
    ensures Pack(BitsOf(b)) == b
  {
    PackPrefix(b, 8);
    assert BitsOf(b)[..8] == BitsOf(b);
  }

  /** Packing one more bit adds it at its weight. */
  lemma PackStep(bits: seq<Bit>, j: nat)
    requires j < |bits| <= 8
    ensures Pack(bits[..j + 1]) == Pack(bits[..j]) + bits[j] * Pow2(7 - j)
  {
    assert bits[..j + 1][..j] == bits[..j];
  }

  /** The other round trip: extracting, MSB first, the eight bits of a
      packed byte gives back the bits that were packed. */
  lemma UnpackPack(bits: seq<Bit>)
    requires |bits| == 8
    ensures Pack(bits) < 256 && BitsOf(Pack(bits)) == bits
  {
    PackValue(bits);
    DigitsOf(bits);
  }

  /** Eight packed bits as a sum of their weights. */
  lemma PackValue(bits: seq<Bit>)
    requires |bits| == 8
    ensures Pack(bits) == 128 * (bits[0] as nat) + 64 * (bits[1] as nat) + 32 * (bits[2] as nat)
                          + 16 * (bits[3] as nat) + 8 * (bits[4] as nat) + 4 * (bits[5] as nat)
                          + 2 * (bits[6] as nat) + bits[7]
  {
    var b: seq<nat> := bits;
    assert bits[..0] == [];
    PackStep(bits, 0);
    assert Pow2(7) == 128;
    assert Pack(bits[..1]) == 128 * b[0];
    PackStep(bits, 1);
    assert Pow2(6) == 64;
    assert Pack(bits[..2]) == 128 * b[0] + 64 * b[1];
    PackStep(bits, 2);
    assert Pow2(5) == 32;
    assert Pack(bits[..3]) == 128 * b[0] + 64 * b[1] + 32 * b[2];
    PackStep(bits, 3);
    assert Pow2(4) == 16;
    assert Pack(bits[..4]) == 128 * b[0] + 64 * b[1] + 32 * b[2] + 16 * b[3];
    PackStep(bits, 4);
    assert Pow2(3) == 8;
    assert Pack(bits[..5]) == 128 * b[0] + 64 * b[1] + 32 * b[2] + 16 * b[3] + 8 * b[4];
    PackStep(bits, 5);
    assert Pow2(2) == 4;
    assert Pack(bits[..6]) == 128 * b[0] + 64 * b[1] + 32 * b[2] + 16 * b[3] + 8 * b[4] + 4 * b[5];
    PackStep(bits, 6);
    assert Pow2(1) == 2;
    assert Pack(bits[..7]) == 128 * b[0] + 64 * b[1] + 32 * b[2] + 16 * b[3] + 8 * b[4] + 4 * b[5] + 2 * b[6];
    PackStep(bits, 7);
    assert bits[..8] == bits;
  }

  /** The binary digits of a sum of bit weights are those bits. The proof
      follows the values h1, ..., h8 of the leading 1, ..., 8 bits read as a
      binary number: shifting the sum right by 8 - m leaves hm, whose lowest
      bit is bit m - 1. */
  lemma DigitsOf(bits: seq<Bit>)
    requires |bits| == 8
    ensures var v := 128 * (bits[0] as nat) + 64 * (bits[1] as nat) + 32 * (bits[2] as nat)
                     + 16 * (bits[3] as nat) + 8 * (bits[4] as nat) + 4 * (bits[5] as nat)
                     + 2 * (bits[6] as nat) + bits[7];
      v < 256 && BitsOf(v) == bits
  {
    var h1: nat := bits[0];
    var h2 := 2 * h1 + bits[1];
    var h3 := 2 * h2 + bits[2];
    var h4 := 2 * h3 + bits[3];
    var h5 := 2 * h4 + bits[4];
    var h6 := 2 * h5 + bits[5];
    var h7 := 2 * h6 + bits[6];
    var v := 2 * h7 + bits[7];
    assert Shr(v, 1) == h7;
    assert Shr(v, 2) == h6;
    assert Shr(v, 3) == h5;
    assert Shr(v, 4) == h4;
    assert Shr(v, 5) == h3;
    assert Shr(v, 6) == h2;
    assert Shr(v, 7) == h1;
    assert BitAt(v, 0) == bits[0] && BitAt(v, 1) == bits[1];
    assert BitAt(v, 2) == bits[2] && BitAt(v, 3) == bits[3];
    assert BitAt(v, 4) == bits[4] && BitAt(v, 5) == bits[5];
    assert BitAt(v, 6) == bits[6] && BitAt(v, 7) == bits[7];
  }
}
