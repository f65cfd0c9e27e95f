/** The streaming CCM of src/psa_aead.c: a CBC-MAC with a partial block, a CTR
    keystream with an offset, and a counter block that is incremented in place.
    Each method is proved against the whole-message definitions of CcmSpec. */
module CcmStream {
  import opened Bytes
  import opened CcmSpec
  import opened Psa

  // ----- what the streaming state must be after `p` payload bytes -----

  function WholePart(n: nat): (w: nat)
    ensures w <= n < w + 16 && w % 16 == 0
  {
    n - n % 16
  }

  function MacAfter(E: BlockCipher, header: Block, p: seq<byte>): Block {
    CbcMac(E, header, p[..WholePart(|p|)])
  }

  function PartialBlock(p: seq<byte>): Block {
    p[WholePart(|p|)..] + Zeros(16 - |p| % 16)
  }

  /** The index of the counter block whose encryption is the current keystream block. */
  function CounterAfter(p: nat): nat {
    if p == 0 then 1 else 1 + (p - 1) / 16
  }

  function OffsetAfter(p: nat): nat {
    if p == 0 then 0 else (p - 1) % 16 + 1
  }

  function HeaderMac(E: BlockCipher, nonce: seq<byte>, aad: seq<byte>, payloadLen: nat, tagLen: nat): Block
    requires ValidNonce(nonce) && ValidTagLength(tagLen)
  {
    SumOfBlocks(|AadBlocks(aad)|, 0);
    CbcMac(E, Zeros(16), B0(nonce, aad != [], payloadLen, tagLen) + AadBlocks(aad))
  }

  lemma MacAfterByte(E: BlockCipher, header: Block, p: seq<byte>, x: byte)
    ensures MacAfter(E, header, p + [x])
         == if |p| % 16 < 15 then MacAfter(E, header, p)
            else E(Xor(MacAfter(E, header, p), PartialBlock(p)[15 := x]))
    ensures PartialBlock(p + [x]) == if |p| % 16 < 15 then PartialBlock(p)[|p| % 16 := x] else Zeros(16)
  {
    var w, p' := WholePart(|p|), p + [x];
    if |p| % 16 < 15 {
      assert p'[..w] == p[..w];
    } else {
      var last := PartialBlock(p)[15 := x];
      assert p'[..w + 16] == p[..w] + last;
      CbcMacAppend(E, header, p[..w], last);
      CbcMacOneBlock(E, MacAfter(E, header, p), last);
    }
  }

  /** The MAC of the whole message from the streaming state. */
  lemma MacOfMessage(E: BlockCipher, m: Message)
    requires ValidNonce(m.nonce) && ValidTagLength(m.tagLen)
    ensures var header := HeaderMac(E, m.nonce, m.aad, |m.payload|, m.tagLen);
            var y := MacAfter(E, header, m.payload);
            CbcMac(E, Zeros(16), Format(m))
            == if |m.payload| % 16 > 0 then E(Xor(y, PartialBlock(m.payload))) else y
  {
    var head := B0(m.nonce, m.aad != [], |m.payload|, m.tagLen) + AadBlocks(m.aad);
    var tail := PadTo16(m.payload);
    SumOfBlocks(|AadBlocks(m.aad)|, 0);
    assert Format(m) == head + tail;
    CbcMacAppend(E, Zeros(16), head, tail);
    PaddedTail(E, HeaderMac(E, m.nonce, m.aad, |m.payload|, m.tagLen), m.payload);
  }

  lemma PaddedTail(E: BlockCipher, header: Block, p: seq<byte>)
    ensures CbcMac(E, header, PadTo16(p))
         == if |p| % 16 > 0 then E(Xor(MacAfter(E, header, p), PartialBlock(p))) else MacAfter(E, header, p)
  {
    var w := WholePart(|p|);
    PaddingSplits(p);
    if |p| % 16 > 0 {
      CbcMacAppend(E, header, p[..w], PartialBlock(p));
      CbcMacOneBlock(E, MacAfter(E, header, p), PartialBlock(p));
    } else {
      assert p[..w] + [] == p[..w];
    }
  }

  lemma PaddingSplits(p: seq<byte>)
    ensures PadTo16(p) == p[..WholePart(|p|)] + if |p| % 16 > 0 then PartialBlock(p) else []
  {
    assert RoundUp16(|p|) == if |p| % 16 > 0 then WholePart(|p|) + 16 else |p|;
  }

  // ----- the counter increment -----

  /** What a pending carry is worth above `k` bytes. */
  function Weight(carry: byte, k: nat): nat {
    if carry == 1 then Pow256(k) else 0
  }

  /** `carry & (next == 0)`, on a carry that is 0 or 1. */
  function CarryOut(next: byte, carry: byte): byte {
    if next == 0 then carry else 0
  }

  /** The counter bytes `s` stand for `s0 + 1`, but for the carry still to be added above them. */
  ghost predicate Incremented(s: seq<byte>, s0: seq<byte>, carry: byte) {
    |s| == |s0| && carry <= 1 && Value(s) + Weight(carry, |s|) == Value(s0) + 1
  }

  /** One step of the carry chain: the new byte, and the carry out of it. */
  lemma CarryStep(x: byte, carry: byte, s: seq<byte>, s0: seq<byte>)
    requires Incremented(s, s0, carry)
    ensures Incremented([LowByte(x + carry)] + s, [x] + s0, CarryOut(LowByte(x + carry), carry))
  {
    CarryStepValue(x, carry, s, s0);
    assert |[LowByte(x + carry)] + s| == |s| + 1;
  }

  lemma CarryStepValue(x: byte, carry: byte, s: seq<byte>, s0: seq<byte>)
    requires Incremented(s, s0, carry)
    ensures Value([LowByte(x + carry)] + s) + Weight(CarryOut(LowByte(x + carry), carry), |s| + 1) == Value([x] + s0) + 1
  {
    ValueOfPrepend(LowByte(x + carry), s);
    ValueOfPrepend(x, s0);
    CarryCases(x, carry, |s|);
    CarryArithmetic(x, LowByte(x + carry), Weight(carry, |s|), Weight(CarryOut(LowByte(x + carry), carry), |s| + 1),
                    Value(s), Value(s0), Pow256(|s|));
  }

  lemma CarryCases(x: byte, carry: byte, k: nat)
    requires carry <= 1
    ensures var n, x', w, w' := LowByte(x + carry), x, Weight(carry, k), Weight(CarryOut(LowByte(x + carry), carry), k + 1);
            || (w == 0 && n == x' && w' == 0)
            || (w == Pow256(k) && n == x' + 1 && w' == 0)
            || (w == Pow256(k) && x' == 255 && n == 0 && w' == 256 * Pow256(k))
  {
    assert carry == 0 || carry == 1;
  }

  lemma CarryArithmetic(x: nat, n: nat, w: nat, w': nat, v: nat, v0: nat, p: nat)
    requires v + w == v0 + 1
    requires (w == 0 && n == x && w' == 0) || (w == p && n == x + 1 && w' == 0)
          || (w == p && x == 255 && n == 0 && w' == 256 * p)
    ensures n * p + v + w' == x * p + v0 + 1
  {
    if w == p && n == x + 1 {
      assert n * p == x * p + p;
    }
  }

  /** `now` is `was` with its last `q` bytes, as a number, one larger modulo 256^q. */
  ghost predicate IsIncrement(was: seq<byte>, now: seq<byte>, q: nat)
    requires |was| == |now| == 16 && q <= 16
  {
    var v := Value(was[16 - q..]);
    && now[..16 - q] == was[..16 - q]
    && Value(now[16 - q..]) == if v + 1 == Pow256(q) then 0 else v + 1
  }

  /** Adds one to the number in the last `lenSz` bytes, wrapping at the top. */
  method CtrInc(ctr: array<byte>, lenSz: nat)
    requires ctr.Length == 16 && lenSz <= 16
    modifies ctr
    ensures IsIncrement(old(ctr[..]), ctr[..], lenSz)
  {
    ghost var was := ctr[..];
    ghost var s, s0: seq<byte> := [], [];
    var i := 0;
    var carry: byte := 1;
    while i < lenSz
      invariant 0 <= i <= lenSz && |s| == i
      invariant ctr[..] == was[..16 - i] + s
      invariant s0 == was[16 - i..]
      invariant Incremented(s, s0, carry)
    {
      var next := LowByte(ctr[15 - i] + carry);
      CarryStep(was[15 - i], carry, s, s0);
      s, s0 := [next] + s, [was[15 - i]] + s0;
      ctr[15 - i] := next;
      carry := CarryOut(next, carry);
      i := i + 1;
    }
    IncrementWraps(s, s0, carry);
    assert ctr[16 - lenSz..] == s;
  }

  lemma IncrementWraps(s: seq<byte>, s0: seq<byte>, carry: byte)
    requires Incremented(s, s0, carry)
    ensures Value(s) == if Value(s0) + 1 == Pow256(|s|) then 0 else Value(s0) + 1
  {
    ValueBound(s);
    ValueBound(s0);
  }

  // ----- the context -----

  /** wc_AesEncryptDirect: `output` may be `input`. */
  method EncryptDirect(E: BlockCipher, output: array<byte>, input: array<byte>)
    requires output.Length == 16 && input.Length == 16
    modifies output
    ensures output[..] == E(old(input[..]))
  {
    var b: Block := E(input[..]);
    forall i | 0 <= i < 16 {
      output[i] := b[i];
    }
    assert output[..] == b;
  }

  method XorInto(mac: array<byte>, block: array<byte>)
    requires mac.Length == 16 && block.Length == 16 && mac != block
    modifies mac
    ensures mac[..] == Xor(old(mac[..]), block[..])
  {
    ghost var was := mac[..];
    var i := 0;
    while i < 16
      invariant 0 <= i <= 16
      invariant forall j :: 0 <= j < i ==> mac[j] == XorByte(was[j], block[j])
      invariant forall j :: i <= j < 16 ==> mac[j] == was[j]
    {
      mac[i] := XorByte(mac[i], block[i]);
      i := i + 1;
    }
    assert mac[..] == Xor(was, block[..]);
  }

  method CopyInto(dest: array<byte>, at: nat, src: seq<byte>)
    requires at + |src| <= dest.Length
    modifies dest
    ensures dest[..] == old(dest[..at]) + src + old(dest[at + |src|..])
  {
    forall i | 0 <= i < |src| {
      dest[at + i] := src[i];
    }
  }

  method Clear(dest: array<byte>)
    modifies dest
    ensures dest[..] == Zeros(dest.Length)
  {
    forall i | 0 <= i < dest.Length {
      dest[i] := 0;
    }
  }

  /** The length octets of B0, written by extracting one byte after another; what is
      left of the length is nonzero exactly when it does not fit. */
  method PutLength(block: array<byte>, length: nat, lenSz: nat) returns (left: nat)
    requires block.Length == 16 && lenSz <= 16
    modifies block
    ensures block[..] == old(block[..16 - lenSz]) + BigEndian(length, lenSz)
    ensures left == 0 <==> length < Pow256(lenSz)
  {
    ghost var was := block[..];
    left := length;
    var i := 0;
    while i < lenSz
      invariant 0 <= i <= lenSz
      invariant block[..] == was[..16 - i] + BigEndian(length, i)
      invariant left == ShiftRight(length, i)
    {
      BigEndianExtends(length, i);
      ShiftRightStep(length, i);
      block[15 - i] := LowByte(left);
      left := left / 256;
      i := i + 1;
    }
    ShiftedOut(length, lenSz);
  }

  /** CBC-MAC over one padded block that holds at most 16 bytes of `data`. */
  method MacPadded(E: BlockCipher, mac: array<byte>, block: array<byte>, data: seq<byte>)
    requires mac.Length == 16 && block.Length == 16 && mac != block && |data| <= 16
    modifies mac, block
    ensures mac[..] == E(Xor(old(mac[..]), data + Zeros(16 - |data|)))
  {
    Clear(block);
    CopyInto(block, 0, data);
    assert block[..] == data + Zeros(16 - |data|);
    XorInto(mac, block);
    EncryptDirect(E, mac, mac);
  }

  /** The CBC-MAC chaining value after `k` bytes of the AAD blocks. */
  function HeaderAfter(E: BlockCipher, b0: Block, blocks: seq<byte>, k: nat): Block
    requires k <= |blocks| && k % 16 == 0
  {
    CbcMac(E, E(b0), blocks[..k])
  }

  lemma HeaderStep(E: BlockCipher, b0: Block, blocks: seq<byte>, k: nat)
    requires k + 16 <= |blocks| && k % 16 == 0
    ensures HeaderAfter(E, b0, blocks, k + 16) == E(Xor(HeaderAfter(E, b0, blocks, k), blocks[k..k + 16]))
  {
    assert blocks[..k + 16] == blocks[..k] + blocks[k..k + 16];
    CbcMacAppend(E, E(b0), blocks[..k], blocks[k..k + 16]);
    CbcMacOneBlock(E, HeaderAfter(E, b0, blocks, k), blocks[k..k + 16]);
  }

  lemma HeaderComplete(E: BlockCipher, nonce: seq<byte>, aad: seq<byte>, payloadLen: nat, tagLen: nat)
    requires ValidNonce(nonce) && ValidTagLength(tagLen)
    ensures var b0 := B0(nonce, aad != [], payloadLen, tagLen);
            HeaderAfter(E, b0, AadBlocks(aad), |AadBlocks(aad)|) == HeaderMac(E, nonce, aad, payloadLen, tagLen)
  {
    var b0, blocks := B0(nonce, aad != [], payloadLen, tagLen), AadBlocks(aad);
    assert blocks[..|blocks|] == blocks;
    CbcMacAppend(E, Zeros(16), b0, blocks);
    CbcMacOneBlock(E, Zeros(16), b0);
    XorZeroLeft(b0);
  }

  /** `done` bytes of associated data fill exactly the first `k` bytes of its blocks. */
  ghost predicate AadCursor(aad: seq<byte>, done: nat, k: nat) {
    && done <= |aad| && k % 16 == 0 && k <= |AadBlocks(aad)|
    && if done < |aad| then k == |AadPrefix(|aad|)| + done else k == |AadBlocks(aad)|
  }

  lemma PaddedSlice(s: seq<byte>, k: nat)
    requires k % 16 == 0 && k < |s|
    ensures k + 16 <= RoundUp16(|s|)
    ensures k + 16 == RoundUp16(|s|) <==> |s| <= k + 16
    ensures var n := Min(16, |s| - k); PadTo16(s)[k..k + 16] == s[k..k + n] + Zeros(16 - n)
  {
  }

  lemma FirstAadBlock(aad: seq<byte>)
    requires aad != []
    ensures var prefix := AadPrefix(|aad|);
            var done := Min(16 - |prefix|, |aad|);
            && AadCursor(aad, done, 16)
            && AadBlocks(aad)[0..16] == prefix + aad[..done] + Zeros(16 - |prefix| - done)
  {
    hide BigEndian;
    var s := AadPrefix(|aad|) + aad;
    PaddedSlice(s, 0);
  }

  lemma NextAadBlock(aad: seq<byte>, done: nat, k: nat)
    requires done < |aad| && AadCursor(aad, done, k)
    ensures var n := Min(16, |aad| - done);
            && AadCursor(aad, done + n, k + 16)
            && AadBlocks(aad)[k..k + 16] == aad[done..done + n] + Zeros(16 - n)
  {
    hide AadPrefix, PadTo16, RoundUp16;
    var s := AadPrefix(|aad|) + aad;
    var n := Min(16, |aad| - done);
    PaddedSlice(s, k);
    assert s[k..k + n] == aad[done..done + n];
  }

  /** The 2- or 6-byte length prefix as the code lays it out, byte by byte. */
  function LengthPrefix(n: nat): (p: seq<byte>)
    requires n <= UINT32_MAX
    ensures p == AadPrefix(n)
  {
    ShiftedBytesAreBigEndian(n, 2);
    ShiftedBytesAreBigEndian(n, 4);
    if n <= 0xFEFF then ShiftedBytes(n, 2) else [0xff, 0xfe] + ShiftedBytes(n, 4)
  }

  /** The `k` casts `(uint8_t)(n >> 8 * i)`, from the highest down. */
  function ShiftedBytes(n: nat, k: nat): (s: seq<byte>)
    ensures |s| == k
  {
    if k == 0 then [] else [LowByte(ShiftRight(n, k - 1))] + ShiftedBytes(n, k - 1)
  }

  lemma {:induction false} ShiftedBytesAreBigEndian(n: nat, k: nat)
    ensures ShiftedBytes(n, k) == BigEndian(n, k)
  {
    if k > 0 {
      ShiftedBytesAreBigEndian(n, k - 1);
      BigEndianExtends(n, k - 1);
    }
  }

  /** The counter block after an increment that cannot wrap. */
  lemma CounterAdvances(nonce: seq<byte>, c: nat, p: nat, now: Block)
    requires ValidNonce(nonce) && p < Pow256(LengthOctets(nonce)) && c == CounterAfter(p) && OffsetAfter(p) == 16
    requires IsIncrement(CounterBlock(nonce, c), now, LengthOctets(nonce))
    ensures now == CounterBlock(nonce, c + 1)
  {
    var q := LengthOctets(nonce);
    assert CounterBlock(nonce, c)[..16 - q] == [q - 1] + nonce;
    assert CounterBlock(nonce, c)[16 - q..] == BigEndian(c, q);
    CounterBounded(p, q);
    ValueOfBigEndian(c, q);
    BigEndianOfValue(now[16 - q..]);
    assert now == now[..16 - q] + now[16 - q..];
  }

  lemma CounterBounded(p: nat, q: nat)
    requires p < Pow256(q) && q >= 1
    ensures p / 16 + 1 < Pow256(q)
  {
    Pow256Monotonic(1, q);
    assert Pow256(1) == 256;
  }

  lemma CryptByte(E: BlockCipher, nonce: seq<byte>, offset: nat, data: seq<byte>, i: nat)
    requires ValidNonce(nonce) && i < |data|
    ensures Crypt(E, nonce, offset, data[..i + 1])
         == Crypt(E, nonce, offset, data[..i]) + [XorByte(data[i], KeystreamByte(E, nonce, offset + i))]
  {
  }

  /** `i` bytes of `data` have been streamed on top of the payload `was`, over the
      front of an output buffer that held `rest`. */
  ghost predicate Streamed(E: BlockCipher, nonce: seq<byte>, encrypting: bool, data: seq<byte>, was: seq<byte>,
                           rest: seq<byte>, i: nat, output: seq<byte>, payload: seq<byte>)
    requires ValidNonce(nonce) && i <= |data| && i <= |rest|
  {
    var done := Crypt(E, nonce, |was|, data[..i]);
    && output == done + rest[i..]
    && payload == was + if encrypting then data[..i] else done
  }

  lemma StreamedByte(E: BlockCipher, nonce: seq<byte>, encrypting: bool, data: seq<byte>, was: seq<byte>,
                     rest: seq<byte>, i: nat, output: seq<byte>, payload: seq<byte>, x: byte)
    requires ValidNonce(nonce) && i < |data| && i < |rest|
    requires Streamed(E, nonce, encrypting, data, was, rest, i, output, payload)
    requires x == XorByte(data[i], KeystreamByte(E, nonce, |payload|))
    ensures Streamed(E, nonce, encrypting, data, was, rest, i + 1, output[i := x],
                     payload + [if encrypting then data[i] else x])
  {
    CryptByte(E, nonce, |was|, data, i);
    var done := Crypt(E, nonce, |was|, data[..i]);
    assert (done + rest[i..])[i := x] == done + [x] + rest[i + 1..];
    assert data[..i + 1] == data[..i] + [data[i]];
  }

  lemma StreamedEnds(E: BlockCipher, nonce: seq<byte>, encrypting: bool, data: seq<byte>, was: seq<byte>,
                     rest: seq<byte>, output: seq<byte>, payload: seq<byte>)
    requires ValidNonce(nonce) && |data| <= |rest|
    ensures Streamed(E, nonce, encrypting, data, was, rest, 0, rest, was)
    ensures Streamed(E, nonce, encrypting, data, was, rest, |data|, output, payload) ==>
              (&& output[..|data|] == Crypt(E, nonce, |was|, data)
               && output[|data|..] == rest[|data|..]
               && payload == was + if encrypting then data else output[..|data|])
  {
    assert Crypt(E, nonce, |was|, data[..0]) == [];
    assert data[..|data|] == data;
  }

  /** The CCM members of wolfpsa_aead_ctx_t. */
  class CcmContext {
    const E: BlockCipher
    var encrypting: bool
    const ctr: array<byte>
    const mac: array<byte>
    const mblk: array<byte>
    const ks: array<byte>
    var mfill: nat
    var ksOff: nat
    var lenSz: nat
    var nonce: seq<byte>
    var aad: seq<byte>
    var payloadLen: nat
    var tagLen: nat
    /** The plaintext bytes processed so far. */
    ghost var payload: seq<byte>

    ghost predicate Shape() {
      && ctr.Length == mac.Length == mblk.Length == ks.Length == 16
      && ctr != mac && ctr != mblk && ctr != ks && mac != mblk && mac != ks && mblk != ks
    }

    ghost predicate Valid()
      reads this, ctr, mac, mblk, ks
    {
      && Shape()
      && ValidNonce(nonce) && ValidTagLength(tagLen)
      && lenSz == LengthOctets(nonce)
      && |payload| <= payloadLen < Pow256(lenSz)
      && MacAt(payload)
      && KeystreamAt(|payload|)
    }

    ghost predicate MacAt(p: seq<byte>)
      reads this, mac, mblk
      requires mac.Length == mblk.Length == 16
      requires ValidNonce(nonce) && ValidTagLength(tagLen)
    {
      && mfill == |p| % 16
      && mac[..] == MacAfter(E, HeaderMac(E, nonce, aad, payloadLen, tagLen), p)
      && mblk[..] == PartialBlock(p)
    }

    ghost predicate KeystreamAt(p: nat)
      reads this, ctr, ks
      requires ctr.Length == ks.Length == 16
      requires ValidNonce(nonce)
    {
      && ksOff == OffsetAfter(p)
      && ctr[..] == CounterBlock(nonce, CounterAfter(p))
      && ks[..] == E(CounterBlock(nonce, CounterAfter(p)))
    }

    constructor (E: BlockCipher)
      ensures this.E == E
      ensures Shape() && fresh(ctr) && fresh(mac) && fresh(mblk) && fresh(ks)
    {
      this.E := E;
      encrypting := true;
      ctr := new byte[16](i => 0);
      mac := new byte[16](i => 0);
      mblk := new byte[16](i => 0);
      ks := new byte[16](i => 0);
      mfill, ksOff, lenSz, payloadLen, tagLen := 0, 0, 0, 0, 0;
      nonce, aad, payload := [], [], [];
    }

    method Init(encrypting: bool, nonce: seq<byte>, aad: seq<byte>, payloadLen: nat, tagLen: nat) returns (status: Status)
      requires Shape() && ValidTagLength(tagLen) && |aad| <= UINT32_MAX
      modifies this, ctr, mac, mblk, ks
      ensures status == if ValidNonce(nonce) && payloadLen < Pow256(LengthOctets(nonce)) then Success
                        else InvalidArgument
      ensures status == Success ==> Valid() && payload == []
      ensures status == Success ==> this.nonce == nonce && this.aad == aad && this.payloadLen == payloadLen
                                    && this.tagLen == tagLen && this.encrypting == encrypting
    {
      if |nonce| < 7 || |nonce| > 13 {
        return InvalidArgument;
      }
      this.encrypting, this.nonce, this.aad := encrypting, nonce, aad;
      this.payloadLen, this.tagLen := payloadLen, tagLen;
      payload := [];
      lenSz := 15 - |nonce|;
      var left := MacHeader();
      if left != 0 {
        return InvalidArgument;
      }
      StartKeystream();
      Clear(mblk);
      mfill := 0;
      assert payload[..WholePart(0)] == [];
      assert PartialBlock(payload) == Zeros(16);
      return Success;
    }

    /** B0 and the AAD blocks through the CBC-MAC. */
    method MacHeader() returns (left: nat)
      requires Shape() && ValidNonce(nonce) && ValidTagLength(tagLen) && |aad| <= UINT32_MAX
      requires lenSz == LengthOctets(nonce)
      modifies mac
      ensures left == 0 <==> payloadLen < Pow256(lenSz)
      ensures left == 0 ==> mac[..] == HeaderMac(E, nonce, aad, payloadLen, tagLen)
    {
      var block := new byte[16](i => 0);
      left := PutFirstBlock(block);
      if left == 0 {
        EncryptDirect(E, block, block);
        CopyInto(mac, 0, block[..]);
        HeaderComplete(E, nonce, aad, payloadLen, tagLen);
        if |aad| > 0 {
          MacAad(block);
        } else {
          assert AadBlocks(aad)[..0] == [];
        }
      }
    }

    method PutFirstBlock(block: array<byte>) returns (left: nat)
      requires block.Length == 16 && ValidNonce(nonce) && ValidTagLength(tagLen)
      requires lenSz == LengthOctets(nonce)
      modifies block
      ensures left == 0 <==> payloadLen < Pow256(lenSz)
      ensures left == 0 ==> block[..] == B0(nonce, aad != [], payloadLen, tagLen)
    {
      hide BigEndian;
      Clear(block);
      block[0] := (if |aad| > 0 then 64 else 0) + 8 * ((tagLen - 2) / 2) + (lenSz - 1);
      CopyInto(block, 1, nonce);
      left := PutLength(block, payloadLen, lenSz);
    }

    /** The AAD blocks: the first carries the length prefix. */
    method MacAad(block: array<byte>)
      requires Shape() && ValidNonce(nonce) && ValidTagLength(tagLen) && 0 < |aad| <= UINT32_MAX
      requires block.Length == 16 && block != mac
      requires mac[..] == E(B0(nonce, aad != [], payloadLen, tagLen))
      modifies mac, block
      ensures mac[..] == HeaderAfter(E, B0(nonce, aad != [], payloadLen, tagLen), AadBlocks(aad), |AadBlocks(aad)|)
    {
      ghost var b0, blocks := B0(nonce, aad != [], payloadLen, tagLen), AadBlocks(aad);
      var prefix := LengthPrefix(|aad|);
      var done := Min(16 - |prefix|, |aad|);
      assert blocks[..0] == [];
      FirstAadBlock(aad);
      HeaderStep(E, b0, blocks, 0);
      MacPadded(E, mac, block, prefix + aad[..done]);
      MacAadRest(block, done, b0, 16);
    }

    method MacAadRest(block: array<byte>, start: nat, ghost b0: Block, ghost k0: nat)
      requires Shape() && 0 < |aad| <= UINT32_MAX
      requires block.Length == 16 && block != mac
      requires AadCursor(aad, start, k0)
      requires mac[..] == HeaderAfter(E, b0, AadBlocks(aad), k0)
      modifies mac, block
      ensures mac[..] == HeaderAfter(E, b0, AadBlocks(aad), |AadBlocks(aad)|)
    {
      hide AadPrefix, AadBlocks, HeaderAfter;
      var done := start;
      ghost var k := k0;
      while done < |aad|
        invariant done <= |aad| && AadCursor(aad, done, k)
        invariant mac[..] == HeaderAfter(E, b0, AadBlocks(aad), k)
      {
        var n := Min(16, |aad| - done);
        NextAadBlock(aad, done, k);
        HeaderStep(E, b0, AadBlocks(aad), k);
        MacPadded(E, mac, block, aad[done..done + n]);
        done := done + n;
        k := k + 16;
      }
    }

    method StartKeystream()
      requires Shape() && ValidNonce(nonce)
      requires lenSz == LengthOctets(nonce)
      modifies ctr, ks, `ksOff
      ensures ksOff == 0
      ensures ctr[..] == CounterBlock(nonce, 1) && ks[..] == E(CounterBlock(nonce, 1))
    {
      Clear(ctr);
      ctr[0] := lenSz - 1;
      CopyInto(ctr, 1, nonce);
      ctr[15] := 1;
      BigEndianOfOne(lenSz);
      assert ctr[..] == CounterBlock(nonce, 1);
      EncryptDirect(E, ks, ctr);
      ksOff := 0;
    }

    /** Moves on to the next keystream block when the current one is used up. */
    method Refill(ghost p: nat)
      requires Shape() && ValidNonce(nonce) && lenSz == LengthOctets(nonce)
      requires KeystreamAt(p) && p < Pow256(lenSz)
      modifies ctr, ks, `ksOff
      ensures ksOff == p % 16
      ensures ctr[..] == CounterBlock(nonce, 1 + p / 16)
      ensures ks[..] == E(CounterBlock(nonce, 1 + p / 16))
    {
      hide CounterBlock, Pow256;
      if ksOff == 16 {
        CtrInc(ctr, lenSz);
        CounterAdvances(nonce, CounterAfter(p), p, ctr[..]);
        EncryptDirect(E, ks, ctr);
        ksOff := 0;
      }
    }

    method NextKeystreamByte(ghost p: nat) returns (k: byte)
      requires Shape() && ValidNonce(nonce) && lenSz == LengthOctets(nonce)
      requires KeystreamAt(p) && p < Pow256(lenSz)
      modifies ctr, ks, `ksOff
      ensures KeystreamAt(p + 1) && k == KeystreamByte(E, nonce, p)
    {
      Refill(p);
      k := ks[ksOff];
      ksOff := ksOff + 1;
    }

    /** One plaintext byte into the partial block, and a full block into the CBC-MAC. */
    method Absorb(x: byte, ghost p: seq<byte>)
      requires Shape() && ValidNonce(nonce) && ValidTagLength(tagLen) && MacAt(p)
      modifies mac, mblk, `mfill
      ensures MacAt(p + [x])
    {
      hide HeaderMac, MacAfter, PartialBlock;
      MacAfterByte(E, HeaderMac(E, nonce, aad, payloadLen, tagLen), p, x);
      FillByte(x, p);
      if mfill == 16 {
        XorInto(mac, mblk);
        EncryptDirect(E, mac, mac);
        mfill := 0;
        Clear(mblk);
      }
    }

    method FillByte(x: byte, ghost p: seq<byte>)
      requires mblk.Length == 16 && mfill == |p| % 16 && mblk[..] == PartialBlock(p)
      modifies mblk, `mfill
      ensures mfill == |p| % 16 + 1
      ensures mblk[..] == PartialBlock(p)[|p| % 16 := x]
    {
      XorByteCancels(0, x);
      assert mblk[..][mfill] == 0;
      mblk[mfill] := XorByte(mblk[mfill], x);
      mfill := mfill + 1;
    }

    /** Streams `n` bytes. `output` is `input` itself or a buffer apart from it; the
        CBC-MAC runs over the plaintext, which is the input when encrypting and the
        output when decrypting. */
    method Update(input: array<byte>, n: nat, output: array<byte>)
      requires Valid()
      requires n <= input.Length && n <= output.Length
      requires |payload| + n <= payloadLen
      requires output != ctr && output != mac && output != mblk && output != ks
      requires input != ctr && input != mac && input != mblk && input != ks
      modifies `mfill, `ksOff, `payload, ctr, mac, mblk, ks, output
      ensures Valid()
      ensures output[..n] == Crypt(E, nonce, |old(payload)|, old(input[..n]))
      ensures output[n..] == old(output[n..])
      ensures payload == old(payload) + if encrypting then old(input[..n]) else output[..n]
    {
      hide MacAfter, PartialBlock, HeaderMac, CounterBlock, Crypt, MacAt, KeystreamAt, KeystreamByte, ValidNonce;
      ghost var data, was, rest := input[..n], payload, output[..];
      StreamedEnds(E, nonce, encrypting, data, was, rest, output[..], payload);
      var i := 0;
      while i < n
        invariant 0 <= i <= n
        invariant Valid()
        invariant Streamed(E, nonce, encrypting, data, was, rest, i, output[..], payload)
        invariant forall j :: i <= j < n ==> input[j] == data[j]
      {
        ghost var out, p := output[..], payload;
        UpdateByte(input, i, output);
        StreamedByte(E, nonce, encrypting, data, was, rest, i, out, p, output[i]);
        i := i + 1;
      }
      StreamedEnds(E, nonce, encrypting, data, was, rest, output[..], payload);
    }

    method UpdateByte(input: array<byte>, i: nat, output: array<byte>)
      requires Valid()
      requires i < input.Length && i < output.Length
      requires |payload| < payloadLen
      requires output != ctr && output != mac && output != mblk && output != ks
      requires input != ctr && input != mac && input != mblk && input != ks
      modifies `mfill, `ksOff, `payload, ctr, mac, mblk, ks, output
      ensures Valid()
      ensures output[..] == old(output[..])[i := XorByte(old(input[i]), KeystreamByte(E, nonce, |old(payload)|))]
      ensures payload == old(payload) + [if encrypting then old(input[i]) else output[i]]
    {
      hide MacAfter, PartialBlock, HeaderMac, CounterBlock, KeystreamByte;
      var k := NextKeystreamByte(|payload|);
      var x := input[i];
      output[i] := XorByte(x, k);
      if !encrypting {
        x := output[i];
      }
      Absorb(x, payload);
      payload := payload + [x];
    }

    /** The tag: the MAC of the whole message under the keystream block S0. */
    method Finish(tag: array<byte>, n: nat)
      requires Valid() && |payload| == payloadLen && n == tagLen
      requires n <= tag.Length && tag != ctr && tag != mac && tag != mblk && tag != ks
      modifies mac, tag
      ensures tag[..n] == Tag(E, Message(nonce, aad, payload, tagLen))
      ensures tag[n..] == old(tag[n..])
    {
      hide MacAfter, PartialBlock, HeaderMac, CounterBlock, Format, CbcMac;
      FinishMac();
      var s0 := FirstKeystreamBlock();
      ghost var t, rest := Xor(mac[..n], s0[..n]), tag[n..];
      assert t == Tag(E, Message(nonce, aad, payload, tagLen));
      var i := 0;
      while i < n
        invariant 0 <= i <= n
        invariant forall j :: 0 <= j < i ==> tag[j] == t[j]
        invariant tag[n..] == rest
        modifies tag
      {
        assert t[i] == XorByte(mac[..n][i], s0[..n][i]);
        tag[i] := XorByte(mac[i], s0[i]);
        i := i + 1;
      }
    }

    method FinishMac()
      requires Valid() && |payload| == payloadLen
      modifies mac
      ensures mac[..] == CbcMac(E, Zeros(16), Format(Message(nonce, aad, payload, tagLen)))
    {
      MacOfMessage(E, Message(nonce, aad, payload, tagLen));
      if mfill > 0 {
        XorInto(mac, mblk);
        EncryptDirect(E, mac, mac);
      }
    }

    method FirstKeystreamBlock() returns (s0: array<byte>)
      requires ValidNonce(nonce) && lenSz == LengthOctets(nonce)
      ensures fresh(s0) && s0.Length == 16 && s0[..] == E(CounterBlock(nonce, 0))
    {
      s0 := new byte[16](i => 0);
      s0[0] := lenSz - 1;
      CopyInto(s0, 1, nonce);
      BigEndianOfZero(lenSz);
      assert s0[..] == CounterBlock(nonce, 0);
      EncryptDirect(E, s0, s0);
    }

    /** The decrypting side of wolfpsa_aead_stream_final. */
    method CheckTag(tag: seq<byte>) returns (status: Status)
      requires Valid() && |payload| == payloadLen && |tag| == tagLen
      modifies mac
      ensures status == if tag == Tag(E, Message(nonce, aad, payload, tagLen)) then Success else InvalidSignature
    {
      var computed := new byte[16](i => 0);
      Finish(computed, tagLen);
      var same := AllEqual(computed[..tagLen], tag);
      status := if same then Success else InvalidSignature;
    }
  }

  /** The accumulated difference is zero exactly when every byte agrees. */
  method AllEqual(computed: seq<byte>, tag: seq<byte>) returns (same: bool)
    requires |computed| == |tag|
    ensures same <==> computed == tag
  {
    var diff: nat := 0;
    var i := 0;
    while i < |tag|
      invariant 0 <= i <= |tag|
      invariant diff == 0 <==> computed[..i] == tag[..i]
    {
      XorByteCancels(computed[i], tag[i]);
      assert computed[..i + 1] == computed[..i] + [computed[i]] && tag[..i + 1] == tag[..i] + [tag[i]];
      diff := BitOr(diff, XorByte(computed[i], tag[i]));
      i := i + 1;
    }
    assert computed[..i] == computed && tag[..i] == tag;
    same := diff == 0;
  }
}
