/** Byte strings, the XOR of byte strings, and fixed-width big-endian integers:
    the vocabulary the cipher, MAC and record modules share. */
module Bytes {

  type byte = x: int | 0 <= x < 256

  /** The AES block, and the unit of the CCM formatting. */
  type Block = b: seq<byte> | |b| == 16 witness Zeros(16)

  /** A block cipher under a fixed key, used in its forward direction only. */
  type BlockCipher = Block -> Block

  /** The largest value of the C types the sources use. */
  const SIZE_MAX: nat := 0xFFFF_FFFF_FFFF_FFFF
  const UINT32_MAX: nat := 0xFFFF_FFFF
  const UINT16_MAX: nat := 0xFFFF
  const INT_MAX: nat := 0x7FFF_FFFF

  function Zeros(n: nat): (s: seq<byte>)
    ensures |s| == n
    ensures forall i :: 0 <= i < n ==> s[i] == 0
  {
    seq(n, i => 0)
  }

  /** The result of an opaque primitive, which has `n` bytes. */
  function Fit(s: seq<byte>, n: nat): (r: seq<byte>)
    ensures |r| == n
  {
    if |s| == n then s else Zeros(n)
  }

  function Min(a: nat, b: nat): nat {
    if a <= b then a else b
  }

  // ----- XOR -----

  /** Bitwise exclusive or, least significant bit first. */
  function BitXor(a: nat, b: nat): nat
    decreases a + b
  {
    if a == 0 && b == 0 then 0 else (a + b) % 2 + 2 * BitXor(a / 2, b / 2)
  }

  function Pow2(k: nat): (p: nat)
    ensures p >= 1
  {
    if k == 0 then 1 else 2 * Pow2(k - 1)
  }

  lemma {:induction false} BitXorBound(a: nat, b: nat, k: nat)
    requires a < Pow2(k) && b < Pow2(k)
    ensures BitXor(a, b) < Pow2(k)
  {
    if a != 0 || b != 0 {
      BitXorBound(a / 2, b / 2, k - 1);
    }
  }

  lemma {:induction false} BitXorCancels(a: nat, b: nat)
    ensures BitXor(BitXor(a, b), b) == a
    decreases a + b
  {
    if a != 0 || b != 0 {
      var h := BitXor(a / 2, b / 2);
      BitXorCancels(a / 2, b / 2);
      BitXorStep(BitXor(a, b), b);
      Parity(a, b, h);
    }
  }

  lemma BitXorStep(a: nat, b: nat)
    ensures BitXor(a, b) == (a + b) % 2 + 2 * BitXor(a / 2, b / 2)
  {
    assert BitXor(0, 0) == 0;
  }

  lemma Parity(a: nat, b: nat, h: nat)
    ensures var x := (a + b) % 2 + 2 * h; x / 2 == h && (x + b) % 2 + 2 * (a / 2) == a
  {
  }

  lemma {:induction false} BitXorSelf(a: nat)
    ensures BitXor(a, a) == 0
  {
    if a != 0 {
      BitXorSelf(a / 2);
    }
  }

  lemma {:induction false} BitXorZero(b: nat)
    ensures BitXor(0, b) == b
  {
    if b != 0 {
      BitXorZero(b / 2);
    }
  }

  /** Bitwise inclusive or. */
  function BitOr(a: nat, b: nat): (r: nat)
    ensures r == 0 <==> a == 0 && b == 0
    decreases a + b
  {
    if a == 0 && b == 0 then 0
    else (if a % 2 + b % 2 > 0 then 1 else 0) + 2 * BitOr(a / 2, b / 2)
  }

  function XorByte(a: byte, b: byte): byte {
    assert Pow2(8) == 256;
    BitXorBound(a, b, 8);
    BitXor(a, b)
  }

  lemma XorByteCancels(a: byte, b: byte)
    ensures XorByte(XorByte(a, b), b) == a
    ensures XorByte(a, b) == 0 <==> a == b
    ensures XorByte(0, b) == b
  {
    BitXorCancels(a, b);
    BitXorSelf(b);
    BitXorZero(b);
  }

  function Xor(a: seq<byte>, b: seq<byte>): (c: seq<byte>)
    requires |a| == |b|
    ensures |c| == |a|
    ensures forall i :: 0 <= i < |c| ==> c[i] == XorByte(a[i], b[i])
  {
    seq(|a|, i requires 0 <= i < |a| => XorByte(a[i], b[i]))
  }

  lemma XorZeroLeft(b: seq<byte>)
    ensures Xor(Zeros(|b|), b) == b
  {
    forall i | 0 <= i < |b| ensures Xor(Zeros(|b|), b)[i] == b[i] {
      XorByteCancels(0, b[i]);
    }
  }

  // ----- big-endian integers -----

  /** The low byte of a size: the C cast `(uint8_t)n`. */
  function LowByte(n: nat): byte {
    n % 256
  }

  function Pow256(k: nat): (p: nat)
    ensures p >= 1
  {
    if k == 0 then 1 else 256 * Pow256(k - 1)
  }

  lemma Pow256Monotonic(j: nat, k: nat)
    requires j <= k
    ensures Pow256(j) <= Pow256(k)
  {
  }

  /** `[n]_k`: the low `8 * k` bits of `n` in `k` bytes, most significant first. */
  function BigEndian(n: nat, k: nat): (s: seq<byte>)
    ensures |s| == k
  {
    if k == 0 then [] else BigEndian(n / 256, k - 1) + [LowByte(n)]
  }

  function Value(s: seq<byte>): nat {
    if |s| == 0 then 0 else Value(s[..|s| - 1]) * 256 + s[|s| - 1]
  }

  lemma {:induction false} ValueBound(s: seq<byte>)
    ensures Value(s) < Pow256(|s|)
  {
    if |s| > 0 {
      ValueBound(s[..|s| - 1]);
    }
  }

  /** Decoding recovers the encoded integer exactly when it fits the field. */
  lemma {:induction false} ValueOfBigEndian(n: nat, k: nat)
    requires n < Pow256(k)
    ensures Value(BigEndian(n, k)) == n
  {
    if 0 < k {
      ValueStep(n, k);
      ValueOfBigEndian(n / 256, k - 1);
    }
  }

  lemma ValueStep(n: nat, k: nat)
    requires k > 0
    ensures Value(BigEndian(n, k)) == Value(BigEndian(n / 256, k - 1)) * 256 + n % 256
  {
    assert BigEndian(n, k)[..k - 1] == BigEndian(n / 256, k - 1);
  }

  lemma MulAssociates(q: int, p: int)
    ensures 256 * (q * p) == q * (256 * p)
  {
  }

  lemma UniqueRemainder(n: nat, d: nat, q: int, r: nat)
    requires d > 0 && n == q * d + r && r < d
    ensures n % d == r && n / d == q
  {
    var q', r' := n / d, n % d;
    assert n == d * q' + r';
    MulDifference(q, q', d);
    NoSmallMultiple(q - q', d);
  }

  lemma MulDifference(a: int, b: int, d: int)
    ensures (a - b) * d == a * d - d * b
  {
  }

  lemma NoSmallMultiple(x: int, d: nat)
    requires -(d as int) < x * d < d
    ensures x == 0
  {
    if x >= 1 {
      MulMonotonic(1, x, d);
    } else if x <= -1 {
      MulMonotonic(x, -1, d);
    }
  }

  lemma MulMonotonic(a: int, b: int, d: nat)
    requires a <= b
    ensures a * d <= b * d
  {
    assert (b - a) * d >= 0;
  }

  lemma {:induction false} BigEndianOfValue(s: seq<byte>)
    ensures BigEndian(Value(s), |s|) == s
  {
    if |s| > 0 {
      var v, last := Value(s[..|s| - 1]), s[|s| - 1];
      UniqueRemainder(Value(s), 256, v, last);
      BigEndianOfValue(s[..|s| - 1]);
      assert s == s[..|s| - 1] + [last];
    }
  }

  lemma BigEndianInjective(m: nat, n: nat, k: nat)
    requires m < Pow256(k) && n < Pow256(k)
    requires BigEndian(m, k) == BigEndian(n, k)
    ensures m == n
  {
    ValueOfBigEndian(m, k);
    ValueOfBigEndian(n, k);
  }

  lemma {:induction false} ValueOfPrepend(x: byte, s: seq<byte>)
    ensures Value([x] + s) == x * Pow256(|s|) + Value(s)
  {
    var t := [x] + s;
    if |s| == 0 {
      assert t[..0] == [];
    } else {
      var front := s[..|s| - 1];
      assert t[..|t| - 1] == [x] + front;
      ValueOfPrepend(x, front);
      MulAssociates(x, Pow256(|s| - 1));
    }
  }

  /** `n` after `k` right shifts by eight bits. */
  function ShiftRight(n: nat, k: nat): nat {
    if k == 0 then n else ShiftRight(n / 256, k - 1)
  }

  lemma {:induction false} ShiftRightStep(n: nat, k: nat)
    ensures ShiftRight(n, k + 1) == ShiftRight(n, k) / 256
  {
    if k > 0 {
      ShiftRightStep(n / 256, k - 1);
    } else {
      assert ShiftRight(n / 256, 0) == n / 256;
    }
  }

  lemma {:induction false} ShiftedOut(n: nat, k: nat)
    ensures ShiftRight(n, k) == 0 <==> n < Pow256(k)
  {
    if k > 0 {
      ShiftedOut(n / 256, k - 1);
    }
  }

  /** The byte one place to the left of a big-endian field. */
  lemma {:induction false} BigEndianExtends(n: nat, k: nat)
    ensures BigEndian(n, k + 1) == [LowByte(ShiftRight(n, k))] + BigEndian(n, k)
  {
    if k > 0 {
      BigEndianExtends(n / 256, k - 1);
      BigEndianShift(n, k, [LowByte(ShiftRight(n, k))]);
    } else {
      assert BigEndian(n / 256, 0) == [];
    }
  }

  lemma BigEndianShift(n: nat, k: nat, high: seq<byte>)
    requires k > 0 && BigEndian(n / 256, k) == high + BigEndian(n / 256, k - 1)
    ensures BigEndian(n, k + 1) == high + BigEndian(n, k)
  {
    var low := [LowByte(n)];
    assert BigEndian(n, k) == BigEndian(n / 256, k - 1) + low;
    assert high + BigEndian(n / 256, k - 1) + low == high + (BigEndian(n / 256, k - 1) + low);
  }

  lemma {:induction false} BigEndianOfZero(k: nat)
    ensures BigEndian(0, k) == Zeros(k)
  {
    if k > 0 {
      BigEndianOfZero(k - 1);
    }
  }

  lemma BigEndianOfOne(k: nat)
    requires k > 0
    ensures BigEndian(1, k) == Zeros(k - 1) + [1]
  {
    BigEndianOfZero(k - 1);
  }

  // ----- slices -----

  /** The concatenation of the chunks a caller splits its data into. */
  function Flatten(chunks: seq<seq<byte>>): seq<byte> {
    if |chunks| == 0 then [] else Flatten(chunks[..|chunks| - 1]) + chunks[|chunks| - 1]
  }

  lemma FlattenTake(chunks: seq<seq<byte>>, i: nat)
    requires i < |chunks|
    ensures Flatten(chunks[..i + 1]) == Flatten(chunks[..i]) + chunks[i]
  {
    assert chunks[..i + 1][..i] == chunks[..i];
  }

  lemma {:induction false} FlattenPrefix(chunks: seq<seq<byte>>, i: nat)
    requires i <= |chunks|
    ensures |Flatten(chunks[..i])| <= |Flatten(chunks)|
    decreases |chunks| - i
  {
    if i == |chunks| {
      assert chunks[..i] == chunks;
    } else {
      FlattenTake(chunks, i);
      FlattenPrefix(chunks, i + 1);
    }
  }
}
