/** The derivation loops that src/psa_key_derivation.c writes out by hand, proved
    against the block streams of KdfSpec. */
module KdfLoops {
  import opened Bytes
  import opened CcmStream
  import opened KdfSpec
  import opened Psa

  const TWO_TO_THE_32: nat := 0x1_0000_0000

  /** `offset` of `n` bytes are in place after `m` blocks. */
  ghost predicate Filled(block: nat -> seq<byte>, h: nat, m: nat, n: nat, prefix: seq<byte>)
    requires h >= 1
  {
    var all := Concat(block, h, m);
    |prefix| == Min(n, |all|) && prefix == all[..|prefix|]
  }

  lemma FilledStep(block: nat -> seq<byte>, h: nat, m: nat, n: nat, prefix: seq<byte>)
    requires h >= 1 && Filled(block, h, m, n, prefix) && |prefix| < n
    ensures var len := Min(h, n - |prefix|);
            Filled(block, h, m + 1, n, prefix + Fit(block(m + 1), h)[..len])
  {
    var len, b := Min(h, n - |prefix|), Fit(block(m + 1), h);
    assert prefix == Concat(block, h, m);
    assert (prefix + b)[..|prefix| + len] == prefix + b[..len];
  }

  lemma FilledDone(block: nat -> seq<byte>, h: nat, m: nat, n: nat, prefix: seq<byte>)
    requires h >= 1 && Filled(block, h, m, n, prefix) && |prefix| == n
    ensures prefix == Truncated(block, h, n)
  {
    EnoughBlocks(block, h, m, n);
  }

  lemma {:induction false} ConcatLength16(block: nat -> seq<byte>, m: nat)
    ensures |Concat(block, 16, m)| == 16 * m
  {
    if m > 0 {
      ConcatLength16(block, m - 1);
    }
  }

  /** Copies one block, or what still fits of it, behind the first `offset` bytes. */
  method CopyBlock(output: array<byte>, offset: nat, n: nat, block: seq<byte>) returns (next: nat)
    requires offset <= n <= output.Length
    modifies output
    ensures next == offset + Min(|block|, n - offset)
    ensures output[..next] == old(output[..offset]) + block[..next - offset]
    ensures output[n..] == old(output[n..])
  {
    var copyLen := |block|;
    if offset + copyLen > n {
      copyLen := n - offset;
    }
    CopyInto(output, offset, block[..copyLen]);
    next := offset + copyLen;
  }

  /** wc_HmacFinal and wc_CmacFinal behind their updates. */
  method WcHmac(k: Kdf, key: seq<byte>, msg: seq<byte>) returns (mac: seq<byte>)
    ensures mac == Hmac(k, key, msg)
  {
    mac := Fit(k.p.hmac(key, msg), k.hashLen);
  }

  method WcCmac(k: Kdf, key: seq<byte>, msg: seq<byte>) returns (mac: seq<byte>)
    ensures mac == Cmac(k, key, msg)
  {
    mac := Fit(k.p.cmac(key, msg), 16);
  }

  // ----- counter mode -----

  /** The low 32 bits of the bit length, byte by byte. */
  function LengthField(lBytes: nat): (s: seq<byte>)
    requires lBytes <= SP800_108_MAX
    ensures s == BigEndian(8 * lBytes, 4)
  {
    LengthBitsFit(lBytes);
    ShiftedBytes(lBytes * 8 % TWO_TO_THE_32, 4)
  }

  lemma LengthBitsFit(lBytes: nat)
    requires lBytes <= SP800_108_MAX
    ensures ShiftedBytes(lBytes * 8 % TWO_TO_THE_32, 4) == BigEndian(8 * lBytes, 4)
  {
    hide ShiftedBytes, BigEndian;
    assert lBytes * 8 % TWO_TO_THE_32 == 8 * lBytes;
    ShiftedBytesAreBigEndian(8 * lBytes, 4);
  }

  /** wolfpsa_kdf_sp800_108_hmac behind its argument checks. The 32-bit counter of the
      code counts blocks and never wraps. */
  method Sp800HmacLoop(k: Kdf, i: Inputs, lBytes: nat, output: array<byte>, n: nat)
    requires HashLenOk(k.hashLen) && n <= lBytes <= SP800_108_MAX && n <= output.Length
    modifies output
    ensures output[..n] == Truncated(HmacBlock(k, i, lBytes), k.hashLen, n)
    ensures output[n..] == old(output[n..])
  {
    hide Concat, BigEndian;
    ghost var f := HmacBlock(k, i, lBytes);
    var lBuf := LengthField(lBytes);
    var counter, offset := 1, 0;
    NothingFilled(f, k.hashLen, n, output[..0]);
    while offset < n
      invariant offset <= n && 1 <= counter <= offset + 1
      invariant Filled(f, k.hashLen, counter - 1, n, output[..offset])
      invariant output[n..] == old(output[n..])
      decreases n - offset
    {
      ShiftedBytesAreBigEndian(counter, 4);
      var block := WcHmac(k, i.secret, ShiftedBytes(counter, 4) + i.labelBytes + [0] + i.context + lBuf);
      assert block == f(counter) by {
        Regroup(BigEndian(counter, 4), i.labelBytes, i.context, lBuf);
      }
      FilledStep(f, k.hashLen, counter - 1, n, output[..offset]);
      offset := CopyBlock(output, offset, n, block);
      counter := (counter + 1) % TWO_TO_THE_32;
    }
    FilledDone(f, k.hashLen, counter - 1, n, output[..offset]);
  }

  lemma NothingFilled(block: nat -> seq<byte>, h: nat, n: nat, prefix: seq<byte>)
    requires h >= 1 && prefix == []
    ensures Filled(block, h, 0, n, prefix)
  {
  }

  lemma Regroup(counter: seq<byte>, labelBytes: seq<byte>, context: seq<byte>, lBuf: seq<byte>)
    ensures counter + labelBytes + [0] + context + lBuf == counter + (labelBytes + [0] + context + lBuf)
  {
  }

  /** wolfpsa_kdf_sp800_108_cmac behind its argument checks. */
  method Sp800CmacLoop(k: Kdf, i: Inputs, lBytes: nat, output: array<byte>, n: nat)
    requires n <= lBytes <= SP800_108_MAX && n <= output.Length
    modifies output
    ensures output[..n] == Truncated(CmacBlock(k, i, lBytes), 16, n)
    ensures output[n..] == old(output[n..])
  {
    hide Concat, BigEndian;
    ghost var f := CmacBlock(k, i, lBytes);
    var lBuf := LengthField(lBytes);
    var k0 := WcCmac(k, i.secret, i.labelBytes + [0] + i.context + lBuf);
    var counter, offset := 1, 0;
    NothingFilled(f, 16, n, output[..0]);
    while offset < n
      invariant offset <= n && 1 <= counter <= offset + 1
      invariant Filled(f, 16, counter - 1, n, output[..offset])
      invariant output[n..] == old(output[n..])
      decreases n - offset
    {
      ShiftedBytesAreBigEndian(counter, 4);
      var block := WcCmac(k, i.secret, ShiftedBytes(counter, 4) + i.labelBytes + [0] + i.context + lBuf + k0);
      assert block == f(counter) by {
        Regroup(BigEndian(counter, 4), i.labelBytes, i.context, lBuf);
      }
      FilledStep(f, 16, counter - 1, n, output[..offset]);
      offset := CopyBlock(output, offset, n, block);
      counter := (counter + 1) % TWO_TO_THE_32;
    }
    FilledDone(f, 16, counter - 1, n, output[..offset]);
  }

  // ----- PBKDF2 -----

  /** The value of the 32-bit loop counter after `steps` increments from 1. */
  function CounterAfterSteps(steps: nat): nat {
    (1 + steps) % TWO_TO_THE_32
  }

  /** The loop over `i <= blocks` is left at some step. */
  ghost predicate LoopExits(blocks: nat) {
    exists steps: nat :: CounterAfterSteps(steps) > blocks
  }

  const MAX_BLOCKS: nat := TWO_TO_THE_32 - 2

  /** The block loop ends exactly for at most 2^32 - 2 blocks: at 2^32 - 1 blocks, which
      RFC 8018 allows, the 32-bit counter wraps to 0 and stays in range for ever. */
  lemma Pbkdf2LoopExits(blocks: nat)
    ensures LoopExits(blocks) <==> blocks <= MAX_BLOCKS
  {
    if blocks <= MAX_BLOCKS {
      assert CounterAfterSteps(blocks) == blocks + 1;
    }
  }

  lemma Pbkdf2LoopWrapsAtTheLimit()
    ensures !LoopExits(0xFFFF_FFFF) && MAX_BLOCKS + 1 == 0xFFFF_FFFF
  {
    Pbkdf2LoopExits(0xFFFF_FFFF);
  }

  function BlocksFor(n: nat): nat {
    (n + 15) / 16
  }

  /** The AES-CMAC-PRF-128 arm of wolfpsa_kdf_pbkdf2 behind its length checks. */
  method Pbkdf2CmacLoop(k: Kdf, i: Inputs, output: array<byte>, n: nat)
    requires i.cost >= 1 && n <= output.Length && LoopExits(BlocksFor(n))
    modifies output
    ensures output[..n] == Truncated(Pbkdf2Block(k, i), 16, n)
    ensures output[n..] == old(output[n..])
  {
    hide Concat, BigEndian, T, U;
    ghost var f := Pbkdf2Block(k, i);
    Pbkdf2LoopExits(BlocksFor(n));
    var prfKey := i.password;
    if |i.password| != 16 {
      prfKey := WcCmac(k, Zeros(16), i.password);
    }
    var blocks, offset, counter := BlocksFor(n), 0, 1;
    NothingFilled(f, 16, n, output[..0]);
    while counter <= blocks
      invariant 1 <= counter <= blocks + 1
      invariant offset == Min(n, 16 * (counter - 1))
      invariant Filled(f, 16, counter - 1, n, output[..offset])
      invariant output[n..] == old(output[n..])
      decreases blocks + 1 - counter
    {
      var block := Pbkdf2BlockLoop(k, i, prfKey, counter);
      FilledStep(f, 16, counter - 1, n, output[..offset]);
      offset := CopyBlock(output, offset, n, block);
      counter := (counter + 1) % TWO_TO_THE_32;
    }
    FilledDone(f, 16, counter - 1, n, output[..offset]);
  }

  /** One block: U_1, then cost - 1 further PRF calls folded in by XOR, in place. */
  method Pbkdf2BlockLoop(k: Kdf, i: Inputs, prfKey: seq<byte>, j: nat) returns (t: seq<byte>)
    requires i.cost >= 1 && prfKey == PrfKey(k, i.password)
    ensures t == T(k, i, j, i.cost)
  {
    hide T, U;
    ShiftedBytesAreBigEndian(j, 4);
    FirstRound(k, i, j);
    var uBlock, tBlock := new byte[16](_ => 0), new byte[16](_ => 0);
    var u := WcCmac(k, prfKey, i.salt + ShiftedBytes(j, 4));
    Overwrite(uBlock, u);
    Overwrite(tBlock, uBlock[..]);
    var c := 1;
    while c < i.cost
      invariant 1 <= c <= i.cost
      invariant uBlock[..] == U(k, i, j, c) && tBlock[..] == T(k, i, j, c)
    {
      NextRound(k, i, j, c);
      u := WcCmac(k, prfKey, uBlock[..]);
      Overwrite(uBlock, u);
      XorInto(tBlock, uBlock);
      c := c + 1;
    }
    t := tBlock[..];
  }

  lemma FirstRound(k: Kdf, i: Inputs, j: nat)
    ensures U(k, i, j, 1) == T(k, i, j, 1) == Cmac(k, PrfKey(k, i.password), i.salt + BigEndian(j, 4))
  {
  }

  lemma NextRound(k: Kdf, i: Inputs, j: nat, c: nat)
    requires c >= 1
    ensures U(k, i, j, c + 1) == Cmac(k, PrfKey(k, i.password), U(k, i, j, c))
    ensures T(k, i, j, c + 1) == Xor(T(k, i, j, c), U(k, i, j, c + 1))
  {
  }

  method Overwrite(dest: array<byte>, src: seq<byte>)
    requires |src| == dest.Length
    modifies dest
    ensures dest[..] == src
  {
    CopyInto(dest, 0, src);
  }

  // ----- the premaster secret -----

  /** The premaster buffer of wolfpsa_kdf_tls12_psk_to_ms, written field by field. */
  method WritePremaster(secret: seq<byte>, otherSecret: Option<seq<byte>>) returns (premaster: array<byte>)
    requires |secret| <= UINT16_MAX && (otherSecret.Some? ==> |otherSecret.value| <= UINT16_MAX)
    ensures fresh(premaster) && premaster[..] == Premaster(secret, otherSecret)
  {
    var m := if otherSecret.Some? then |otherSecret.value| else |secret|;
    ghost var other := if otherSecret.Some? then otherSecret.value else Zeros(m);
    hide BigEndian, LowByte;
    premaster := new byte[2 + |secret| + 2 + m](_ => 0);
    HighLow(m);
    HighLow(|secret|);
    CopyInto(premaster, 0, [LowByte(m / 256), LowByte(m)]);
    if otherSecret.Some? {
      CopyInto(premaster, 2, otherSecret.value);
    }
    assert premaster[..2 + m] == BigEndian(m, 2) + other;
    CopyInto(premaster, 2 + m, [LowByte(|secret| / 256), LowByte(|secret|)]);
    assert premaster[..4 + m] == BigEndian(m, 2) + other + BigEndian(|secret|, 2);
    CopyInto(premaster, 4 + m, secret);
  }

  lemma HighLow(n: nat)
    ensures BigEndian(n, 2) == [LowByte(n / 256), LowByte(n)]
  {
    assert BigEndian(n / 256 / 256, 0) == [];
    assert BigEndian(n / 256, 1) == [LowByte(n / 256)];
  }
}
