/** CBC and ECB over whole messages, and the PKCS#7 padding of RFC 5652 section
    6.3: the definitions the multipart cipher operation is proved against. */
module BlockModes {
  import opened Bytes
  import opened Psa

  datatype Mode = CbcNoPadding | CbcPkcs7 | EcbNoPadding

  /** A block cipher under a fixed key: 16-byte blocks for AES, 8-byte blocks for DES. */
  datatype Cipher = Cipher(bs: nat, enc: seq<byte> -> seq<byte>, dec: seq<byte> -> seq<byte>)

  predicate BlockSizeOk(c: Cipher) {
    c.bs == 8 || c.bs == 16
  }

  function Enc(c: Cipher, b: seq<byte>): (r: seq<byte>)
    ensures |r| == |b|
  {
    Fit(c.enc(b), |b|)
  }

  function Dec(c: Cipher, b: seq<byte>): (r: seq<byte>)
    ensures |r| == |b|
  {
    Fit(c.dec(b), |b|)
  }

  /** The one law of the block cipher: decryption undoes encryption. */
  ghost predicate Inverse(c: Cipher) {
    forall b: seq<byte> :: |b| == c.bs ==> Dec(c, Enc(c, b)) == b
  }

  // ----- whole blocks -----

  /** `n` bytes make whole blocks. */
  predicate Aligned(n: nat, bs: nat) {
    if bs == 8 then n % 8 == 0 else n % 16 == 0
  }

  /** The bytes of the whole blocks among `n` bytes. */
  function Whole(n: nat, bs: nat): (w: nat)
    requires bs == 8 || bs == 16
    ensures w <= n < w + bs && Aligned(w, bs)
  {
    if bs == 8 then AlignedAt(n / 8, 8); n / 8 * 8 else AlignedAt(n / 16, 16); n / 16 * 16
  }

  lemma AlignedAt(q: nat, bs: nat)
    requires bs == 8 || bs == 16
    ensures Aligned(q * bs, bs)
  {
    UniqueRemainder(q * bs, bs, q, 0);
  }

  /** The number of blocks in `n` bytes. */
  function Blocks(n: nat, bs: nat): (q: nat)
    requires bs == 8 || bs == 16
    requires Aligned(n, bs)
    ensures n == q * bs
  {
    if bs == 8 then n / 8 else n / 16
  }

  lemma WholeIsUnique(n: nat, w: nat, bs: nat)
    requires bs == 8 || bs == 16
    requires Aligned(w, bs) && w <= n < w + bs
    ensures w == Whole(n, bs)
  {
    hide Aligned;
    var q := Blocks(w, bs);
    UniqueRemainder(n, bs, q, n - w);
  }

  lemma Multiples(a: nat, b: nat, bs: nat)
    requires bs == 8 || bs == 16
    requires Aligned(a, bs) && Aligned(b, bs)
    ensures Aligned(a + b, bs)
    ensures b <= a ==> Aligned(a - b, bs)
    ensures 0 < a ==> bs <= a
  {
    hide Aligned;
    var p, q := Blocks(a, bs), Blocks(b, bs);
    assert a == p * bs && b == q * bs;
    hide Blocks;
    AlignedAt(p + q, bs);
    if b <= a {
      AlignedAt(p - q, bs);
    }
  }

  lemma OneBlock(bs: nat)
    requires bs == 8 || bs == 16
    ensures Aligned(bs, bs) && Aligned(0, bs)
  {
  }

  // ----- chaining -----

  /** What a mode makes of some blocks: the output, and the chaining value behind it. */
  datatype Chained = Chained(out: seq<byte>, chain: seq<byte>)

  function Step(c: Cipher, mode: Mode, encrypting: bool, chain: seq<byte>, b: seq<byte>): (r: Chained)
    requires |chain| == |b|
    ensures |r.out| == |r.chain| == |b|
  {
    if mode == EcbNoPadding then Chained(if encrypting then Enc(c, b) else Dec(c, b), chain)
    else if encrypting then var x := Enc(c, Xor(chain, b)); Chained(x, x)
    else Chained(Xor(Dec(c, b), chain), b)
  }

  function Run(c: Cipher, mode: Mode, encrypting: bool, chain: seq<byte>, s: seq<byte>): (r: Chained)
    requires BlockSizeOk(c) && |chain| == c.bs && Aligned(|s|, c.bs)
    ensures |r.out| == |s| && |r.chain| == c.bs
    decreases |s|
  {
    if |s| == 0 then Chained([], chain) else
      OneBlock(c.bs);
      Multiples(|s|, c.bs, c.bs);
      var first := Step(c, mode, encrypting, chain, s[..c.bs]);
      var rest := Run(c, mode, encrypting, first.chain, s[c.bs..]);
      Chained(first.out + rest.out, rest.chain)
  }

  lemma RunStep(c: Cipher, mode: Mode, encrypting: bool, chain: seq<byte>, b: seq<byte>, s: seq<byte>)
    requires BlockSizeOk(c) && |chain| == |b| == c.bs && Aligned(|s|, c.bs)
    ensures Aligned(c.bs + |s|, c.bs)
    ensures var first := Step(c, mode, encrypting, chain, b);
            var rest := Run(c, mode, encrypting, first.chain, s);
            Run(c, mode, encrypting, chain, b + s) == Chained(first.out + rest.out, rest.chain)
  {
    OneBlock(c.bs);
    Multiples(|s|, c.bs, c.bs);
    assert (b + s)[..c.bs] == b && (b + s)[c.bs..] == s;
  }

  lemma Associative(a: seq<byte>, b: seq<byte>, c: seq<byte>)
    ensures (a + b) + c == a + (b + c)
  {
  }

  lemma FirstBlock(s: seq<byte>, bs: nat)
    requires bs == 8 || bs == 16
    requires 0 < |s| && Aligned(|s|, bs)
    ensures bs <= |s| && s == s[..bs] + s[bs..] && Aligned(|s[bs..]|, bs)
  {
    OneBlock(bs);
    Multiples(|s|, bs, bs);
  }

  /** The chaining value carries all that a mode needs to know of the blocks before. */
  lemma {:induction false} RunAppend(c: Cipher, mode: Mode, encrypting: bool, chain: seq<byte>, a: seq<byte>, b: seq<byte>)
    requires BlockSizeOk(c) && |chain| == c.bs && Aligned(|a|, c.bs) && Aligned(|b|, c.bs)
    ensures Aligned(|a| + |b|, c.bs)
    ensures RunsAppend(c, mode, encrypting, chain, a, b)
    decreases |a|
  {
    Multiples(|a|, |b|, c.bs);
    if |a| == 0 {
      assert a + b == b;
    } else {
      hide Run, Step, Aligned, RunsAppend;
      FirstBlock(a, c.bs);
      var head, tail := a[..c.bs], a[c.bs..];
      var first := Step(c, mode, encrypting, chain, head);
      RunAppend(c, mode, encrypting, first.chain, tail, b);
      AppendBehindBlock(c, mode, encrypting, chain, head, tail, b);
    }
  }

  ghost predicate RunsAppend(c: Cipher, mode: Mode, encrypting: bool, chain: seq<byte>, a: seq<byte>, b: seq<byte>)
    requires BlockSizeOk(c) && |chain| == c.bs && Aligned(|a|, c.bs) && Aligned(|b|, c.bs) && Aligned(|a| + |b|, c.bs)
  {
    var first := Run(c, mode, encrypting, chain, a);
    var second := Run(c, mode, encrypting, first.chain, b);
    Run(c, mode, encrypting, chain, a + b) == Chained(first.out + second.out, second.chain)
  }

  lemma AppendBehindBlock(c: Cipher, mode: Mode, encrypting: bool, chain: seq<byte>, head: seq<byte>, tail: seq<byte>,
                          b: seq<byte>)
    requires BlockSizeOk(c) && |chain| == |head| == c.bs
    requires Aligned(|tail|, c.bs) && Aligned(|b|, c.bs) && Aligned(|tail| + |b|, c.bs)
    requires RunsAppend(c, mode, encrypting, Step(c, mode, encrypting, chain, head).chain, tail, b)
    ensures Aligned(|head + tail|, c.bs) && Aligned(|head + tail| + |b|, c.bs)
    ensures RunsAppend(c, mode, encrypting, chain, head + tail, b)
  {
    hide Run, Step, Aligned;
    var first := Step(c, mode, encrypting, chain, head);
    RunStep(c, mode, encrypting, chain, head, tail);
    RunStep(c, mode, encrypting, chain, head, tail + b);
    var front := Run(c, mode, encrypting, first.chain, tail);
    Associative(head, tail, b);
    Associative(first.out, front.out, Run(c, mode, encrypting, front.chain, b).out);
  }

  lemma XorTwice(a: seq<byte>, b: seq<byte>)
    requires |a| == |b|
    ensures Xor(Xor(a, b), a) == b
  {
    forall i | 0 <= i < |a| ensures Xor(Xor(a, b), a)[i] == b[i] {
      XorTwiceByte(a[i], b[i]);
    }
  }

  lemma XorTwiceByte(a: byte, b: byte)
    ensures XorByte(XorByte(a, b), a) == b
  {
    XorCommutes(a, b);
    XorByteCancels(b, a);
  }

  lemma {:induction false} XorCommutes(a: nat, b: nat)
    ensures BitXor(a, b) == BitXor(b, a)
    decreases a + b
  {
    if a != 0 || b != 0 {
      XorCommutes(a / 2, b / 2);
    }
  }

  lemma StepInverts(c: Cipher, mode: Mode, chain: seq<byte>, b: seq<byte>)
    requires Inverse(c) && |chain| == |b| == c.bs
    ensures var e := Step(c, mode, true, chain, b); Step(c, mode, false, chain, e.out) == Chained(b, e.chain)
  {
    if mode != EcbNoPadding {
      XorTwice(chain, b);
    }
  }

  /** Decryption from the same initial vector undoes encryption, block for block. */
  lemma {:induction false} RunInverts(c: Cipher, mode: Mode, chain: seq<byte>, s: seq<byte>)
    requires BlockSizeOk(c) && Inverse(c) && |chain| == c.bs && Aligned(|s|, c.bs)
    ensures var e := Run(c, mode, true, chain, s); Run(c, mode, false, chain, e.out) == Chained(s, e.chain)
    decreases |s|
  {
    if |s| > 0 {
      hide Run, Step, Aligned;
      OneBlock(c.bs);
      Multiples(|s|, c.bs, c.bs);
      var head, tail := s[..c.bs], s[c.bs..];
      var first := Step(c, mode, true, chain, head);
      assert s == head + tail;
      StepInverts(c, mode, chain, head);
      RunInverts(c, mode, first.chain, tail);
      RunStep(c, mode, true, chain, head, tail);
      RunStep(c, mode, false, chain, first.out, Run(c, mode, true, first.chain, tail).out);
    }
  }

  // ----- what a mode makes of each block -----

  /** The block from `at` on. */
  function BlockAt(s: seq<byte>, at: nat, bs: nat): seq<byte>
    requires at + bs <= |s|
  {
    s[at..at + bs]
  }

  /** The block before the one at `at`, and `iv` before the first. */
  function Previous(iv: seq<byte>, s: seq<byte>, at: nat, bs: nat): seq<byte>
    requires at <= |s|
  {
    if at < bs then iv else s[at - bs..at]
  }

  /** Block for block: ECB is the cipher itself; CBC encrypts each block masked with the
      ciphertext before it, and decryption takes that mask off again. */
  ghost predicate IsBlock(c: Cipher, mode: Mode, encrypting: bool, iv: seq<byte>, s: seq<byte>, out: seq<byte>, at: nat)
    requires |s| == |out| && |iv| == c.bs && at + c.bs <= |s|
  {
    var x, y := BlockAt(s, at, c.bs), BlockAt(out, at, c.bs);
    if mode == EcbNoPadding then y == Fit(if encrypting then c.enc(x) else c.dec(x), c.bs)
    else if encrypting then y == Fit(c.enc(Xor(Previous(iv, out, at, c.bs), x)), c.bs)
    else y == Xor(Fit(c.dec(x), c.bs), Previous(iv, s, at, c.bs))
  }

  ghost predicate IsMode(c: Cipher, mode: Mode, encrypting: bool, iv: seq<byte>, s: seq<byte>, out: seq<byte>)
    requires |iv| == c.bs
  {
    |out| == |s| && forall at: nat :: at + c.bs <= |s| && Aligned(at, c.bs) ==> IsBlock(c, mode, encrypting, iv, s, out, at)
  }

  /** The mask of the second block, which is the chaining value behind the first. */
  function NextMask(mode: Mode, encrypting: bool, iv: seq<byte>, s: seq<byte>, out: seq<byte>, bs: nat): seq<byte>
    requires bs <= |s| == |out|
  {
    if mode == EcbNoPadding then iv else if encrypting then out[..bs] else s[..bs]
  }

  lemma BlockBehind(s: seq<byte>, at: nat, bs: nat)
    requires bs <= at && at + bs <= |s|
    ensures BlockAt(s[bs..], at - bs, bs) == BlockAt(s, at, bs)
  {
  }

  lemma PreviousBehind(iv: seq<byte>, s: seq<byte>, at: nat, bs: nat)
    requires 0 < bs <= at <= |s| && (at == bs || 2 * bs <= at)
    ensures Previous(s[..bs], s[bs..], at - bs, bs) == Previous(iv, s, at, bs)
  {
  }

  /** Behind its first block a mode goes on with the chaining value. */
  lemma LaterBlock(c: Cipher, mode: Mode, encrypting: bool, iv: seq<byte>, s: seq<byte>, out: seq<byte>, at: nat)
    requires BlockSizeOk(c) && |s| == |out| && |iv| == c.bs && c.bs <= at && at + c.bs <= |s|
    requires at == c.bs || 2 * c.bs <= at
    ensures IsBlock(c, mode, encrypting, iv, s, out, at)
       <==> IsBlock(c, mode, encrypting, NextMask(mode, encrypting, iv, s, out, c.bs), s[c.bs..], out[c.bs..], at - c.bs)
  {
    hide BlockAt, Previous;
    BlockBehind(s, at, c.bs);
    BlockBehind(out, at, c.bs);
    PreviousBehind(iv, s, at, c.bs);
    PreviousBehind(iv, out, at, c.bs);
  }

  /** The first block is one step. */
  lemma FirstIsStep(c: Cipher, mode: Mode, encrypting: bool, iv: seq<byte>, s: seq<byte>, out: seq<byte>)
    requires BlockSizeOk(c) && |iv| == c.bs <= |s| == |out|
    ensures var first := Step(c, mode, encrypting, iv, s[..c.bs]);
            && (IsBlock(c, mode, encrypting, iv, s, out, 0) <==> out[..c.bs] == first.out)
            && (out[..c.bs] == first.out ==> first.chain == NextMask(mode, encrypting, iv, s, out, c.bs))
  {
    assert BlockAt(s, 0, c.bs) == s[..c.bs] && BlockAt(out, 0, c.bs) == out[..c.bs];
  }

  lemma AlignedPlaces(at: nat, bs: nat)
    requires bs == 8 || bs == 16
    requires Aligned(at, bs)
    ensures at == 0 || at == bs || 2 * bs <= at
    ensures Aligned(at + bs, bs) && (bs <= at ==> Aligned(at - bs, bs))
  {
  }

  /** The first block is one step, and the rest is the mode from the chaining value behind it. */
  lemma ModeUnfolds(c: Cipher, mode: Mode, encrypting: bool, iv: seq<byte>, s: seq<byte>, out: seq<byte>)
    requires BlockSizeOk(c) && |iv| == c.bs && Aligned(|s|, c.bs) && c.bs <= |s| == |out|
    ensures var first := Step(c, mode, encrypting, iv, s[..c.bs]);
            IsMode(c, mode, encrypting, iv, s, out)
            <==> out[..c.bs] == first.out && IsMode(c, mode, encrypting, first.chain, s[c.bs..], out[c.bs..])
  {
    hide IsBlock, Aligned, Step, NextMask;
    OneBlock(c.bs);
    FirstIsStep(c, mode, encrypting, iv, s, out);
    if IsMode(c, mode, encrypting, iv, s, out) {
      assert IsBlock(c, mode, encrypting, iv, s, out, 0);
      RestOfMode(c, mode, encrypting, iv, s, out);
    } else if out[..c.bs] == Step(c, mode, encrypting, iv, s[..c.bs]).out {
      ModeFromRest(c, mode, encrypting, iv, s, out);
    }
  }

  lemma RestOfMode(c: Cipher, mode: Mode, encrypting: bool, iv: seq<byte>, s: seq<byte>, out: seq<byte>)
    requires BlockSizeOk(c) && |iv| == c.bs <= |s| && IsMode(c, mode, encrypting, iv, s, out)
    ensures IsMode(c, mode, encrypting, NextMask(mode, encrypting, iv, s, out, c.bs), s[c.bs..], out[c.bs..])
  {
    hide IsBlock, Aligned;
    var s', out' := s[c.bs..], out[c.bs..];
    forall at: nat | at + c.bs <= |s'| && Aligned(at, c.bs)
      ensures IsBlock(c, mode, encrypting, NextMask(mode, encrypting, iv, s, out, c.bs), s', out', at)
    {
      AlignedPlaces(at, c.bs);
      assert IsBlock(c, mode, encrypting, iv, s, out, at + c.bs);
      LaterBlock(c, mode, encrypting, iv, s, out, at + c.bs);
    }
  }

  lemma ModeFromRest(c: Cipher, mode: Mode, encrypting: bool, iv: seq<byte>, s: seq<byte>, out: seq<byte>)
    requires BlockSizeOk(c) && |iv| == c.bs <= |s| == |out| && IsBlock(c, mode, encrypting, iv, s, out, 0)
    ensures IsMode(c, mode, encrypting, NextMask(mode, encrypting, iv, s, out, c.bs), s[c.bs..], out[c.bs..])
            ==> IsMode(c, mode, encrypting, iv, s, out)
  {
    hide IsBlock, Aligned;
    if IsMode(c, mode, encrypting, NextMask(mode, encrypting, iv, s, out, c.bs), s[c.bs..], out[c.bs..]) {
      forall at: nat | at + c.bs <= |s| && Aligned(at, c.bs) ensures IsBlock(c, mode, encrypting, iv, s, out, at) {
        AlignedPlaces(at, c.bs);
        if at > 0 {
          LaterBlock(c, mode, encrypting, iv, s, out, at);
        }
      }
    }
  }

  /** A run is the mode, block for block, and nothing else is. */
  lemma {:induction false} RunIsMode(c: Cipher, mode: Mode, encrypting: bool, iv: seq<byte>, s: seq<byte>, out: seq<byte>)
    requires BlockSizeOk(c) && |iv| == c.bs && Aligned(|s|, c.bs)
    ensures IsMode(c, mode, encrypting, iv, s, out) <==> out == Run(c, mode, encrypting, iv, s).out
    decreases |s|
  {
    if |s| > 0 && |out| == |s| {
      hide IsMode, Step, Aligned;
      FirstBlock(s, c.bs);
      var first := Step(c, mode, encrypting, iv, s[..c.bs]);
      ModeUnfolds(c, mode, encrypting, iv, s, out);
      RunIsMode(c, mode, encrypting, first.chain, s[c.bs..], out[c.bs..]);
      assert out == out[..c.bs] + out[c.bs..];
    }
  }

  /** The chaining value behind a run: under CBC the last ciphertext block. */
  lemma {:induction false} ChainIsLastBlock(c: Cipher, mode: Mode, encrypting: bool, iv: seq<byte>, s: seq<byte>)
    requires BlockSizeOk(c) && |iv| == c.bs && Aligned(|s|, c.bs)
    ensures var r := Run(c, mode, encrypting, iv, s);
            r.chain == if mode == EcbNoPadding then iv else Previous(iv, if encrypting then r.out else s, |s|, c.bs)
    decreases |s|
  {
    if |s| > 0 {
      hide Step, Aligned, Previous;
      FirstBlock(s, c.bs);
      var first, tail := Step(c, mode, encrypting, iv, s[..c.bs]), s[c.bs..];
      var rest := Run(c, mode, encrypting, first.chain, tail);
      ChainIsLastBlock(c, mode, encrypting, first.chain, tail);
      StepChain(c, mode, encrypting, iv, s[..c.bs]);
      AlignedPlaces(|s|, c.bs);
      PreviousBehind(iv, s, |s|, c.bs);
      Halves(first.out, rest.out);
      PreviousBehind(iv, first.out + rest.out, |s|, c.bs);
    } else {
      assert Previous(iv, [], 0, c.bs) == iv;
    }
  }

  lemma Halves(a: seq<byte>, b: seq<byte>)
    ensures (a + b)[..|a|] == a && (a + b)[|a|..] == b
  {
  }

  lemma StepChain(c: Cipher, mode: Mode, encrypting: bool, iv: seq<byte>, b: seq<byte>)
    requires |iv| == |b| == c.bs
    ensures var r := Step(c, mode, encrypting, iv, b);
            r.chain == if mode == EcbNoPadding then iv else if encrypting then r.out else b
  {
  }

  // ----- PKCS#7 -----

  function PadLength(n: nat, bs: nat): (k: nat)
    requires bs == 8 || bs == 16
    ensures 1 <= k <= bs && Aligned(n + k, bs)
  {
    var w := Whole(n, bs);
    OneBlock(bs);
    Multiples(w, bs, bs);
    w + bs - n
  }

  function Fill(x: byte, n: nat): (s: seq<byte>)
    ensures |s| == n
    ensures forall i :: 0 <= i < n ==> s[i] == x
  {
    seq(n, i => x)
  }

  function Pad(s: seq<byte>, bs: nat): (p: seq<byte>)
    requires bs == 8 || bs == 16
    ensures Aligned(|p|, bs) && |s| < |p|
  {
    var k := PadLength(|s|, bs);
    s + Fill(k, k)
  }

  /** The last `k` bytes of `s` all say `k`. */
  predicate PaddedBy(s: seq<byte>, k: nat, bs: nat) {
    1 <= k <= bs && k <= |s| && forall i :: |s| - k <= i < |s| ==> s[i] == k
  }

  function Unpad(s: seq<byte>, bs: nat): Option<seq<byte>> {
    if |s| > 0 && PaddedBy(s, s[|s| - 1], bs) then Some(s[..|s| - s[|s| - 1]]) else None
  }

  lemma UnpadOfPad(s: seq<byte>, bs: nat)
    requires bs == 8 || bs == 16
    ensures Unpad(Pad(s, bs), bs) == Some(s)
  {
    var p := Pad(s, bs);
    assert p[|p| - 1] == PadLength(|s|, bs);
    assert p[..|s|] == s;
  }

  /** The padding is unambiguous: only the padded form of `s` unpads to `s`. */
  lemma PadOfUnpad(p: seq<byte>, bs: nat)
    requires bs == 8 || bs == 16
    requires Aligned(|p|, bs) && Unpad(p, bs).Some?
    ensures Pad(Unpad(p, bs).value, bs) == p
  {
    var k := p[|p| - 1];
    var s := p[..|p| - k];
    OneBlock(bs);
    Multiples(|p|, bs, bs);
    WholeIsUnique(|s|, |p| - bs, bs);
  }

  /** The padding check looks at the last block only. */
  lemma UnpadLastBlock(front: seq<byte>, last: seq<byte>, bs: nat)
    requires |last| == bs > 0
    ensures Unpad(front + last, bs) == match Unpad(last, bs) case Some(r) => Some(front + r) case None => None
  {
    var s, k := front + last, last[bs - 1];
    assert s[|s| - 1] == k;
    if PaddedBy(last, k, bs) {
      assert forall i :: |s| - k <= i < |s| ==> s[i] == last[i - |front|];
      assert s[..|s| - k] == front + last[..bs - k];
    } else if 1 <= k <= bs {
      var i :| bs - k <= i < bs && last[i] != k;
      assert s[|front| + i] != k;
    }
  }

  // ----- whole messages -----

  function Encrypt(c: Cipher, mode: Mode, iv: seq<byte>, m: seq<byte>): Option<seq<byte>>
    requires BlockSizeOk(c) && |iv| == c.bs
  {
    if mode == CbcPkcs7 then Some(Run(c, mode, true, iv, Pad(m, c.bs)).out)
    else if !Aligned(|m|, c.bs) then None
    else Some(Run(c, mode, true, iv, m).out)
  }

  function Decrypt(c: Cipher, mode: Mode, iv: seq<byte>, x: seq<byte>): Option<seq<byte>>
    requires BlockSizeOk(c) && |iv| == c.bs
  {
    if !Aligned(|x|, c.bs) || (mode == CbcPkcs7 && x == []) then None
    else if mode == CbcPkcs7 then Unpad(Run(c, mode, false, iv, x).out, c.bs)
    else Some(Run(c, mode, false, iv, x).out)
  }

  /** Every message comes back under PKCS#7; without padding, exactly those of whole blocks. */
  lemma DecryptInvertsEncrypt(c: Cipher, mode: Mode, iv: seq<byte>, m: seq<byte>)
    requires BlockSizeOk(c) && Inverse(c) && |iv| == c.bs
    ensures Encrypt(c, mode, iv, m).Some? <==> mode == CbcPkcs7 || Aligned(|m|, c.bs)
    ensures Encrypt(c, mode, iv, m).Some? ==> Decrypt(c, mode, iv, Encrypt(c, mode, iv, m).value) == Some(m)
  {
    if mode == CbcPkcs7 {
      RunInverts(c, mode, iv, Pad(m, c.bs));
      UnpadOfPad(m, c.bs);
    } else if Aligned(|m|, c.bs) {
      RunInverts(c, mode, iv, m);
    }
  }

  /** `out` is what the mode makes of the message `m`, padding included, in terms of the
      single blocks. */
  ghost predicate Processed(c: Cipher, mode: Mode, encrypting: bool, iv: seq<byte>, m: seq<byte>, out: seq<byte>)
    requires |iv| == c.bs
  {
    if mode != CbcPkcs7 then Aligned(|m|, c.bs) && IsMode(c, mode, encrypting, iv, m, out)
    else if encrypting then
      exists k: byte :: 1 <= k <= c.bs && Aligned(|m + Fill(k, k)|, c.bs) && IsMode(c, mode, true, iv, m + Fill(k, k), out)
    else
      Aligned(|m|, c.bs) && exists k: byte :: 1 <= k <= c.bs && IsMode(c, mode, false, iv, m, out + Fill(k, k))
  }

  /** A message has a result exactly when there are bytes the mode makes of it, and then
      these are the result. */
  lemma ResultIsProcessed(c: Cipher, mode: Mode, encrypting: bool, iv: seq<byte>, m: seq<byte>, out: seq<byte>)
    requires BlockSizeOk(c) && |iv| == c.bs
    ensures (if encrypting then Encrypt(c, mode, iv, m) else Decrypt(c, mode, iv, m)) == Some(out)
       <==> Processed(c, mode, encrypting, iv, m, out)
  {
    hide Run, IsMode, Aligned;
    if mode != CbcPkcs7 {
      if Aligned(|m|, c.bs) {
        RunIsMode(c, mode, encrypting, iv, m, out);
      }
    } else if encrypting {
      PaddedIsProcessed(c, iv, m, out);
    } else if Aligned(|m|, c.bs) {
      UnpaddedIsProcessed(c, iv, m, out);
    }
  }

  lemma PaddedIsProcessed(c: Cipher, iv: seq<byte>, m: seq<byte>, out: seq<byte>)
    requires BlockSizeOk(c) && |iv| == c.bs
    ensures Encrypt(c, CbcPkcs7, iv, m) == Some(out) <==> Processed(c, CbcPkcs7, true, iv, m, out)
  {
    hide Run, IsMode;
    var k := PadLength(|m|, c.bs);
    RunIsMode(c, CbcPkcs7, true, iv, Pad(m, c.bs), out);
    forall j: byte | 1 <= j <= c.bs && Aligned(|m + Fill(j, j)|, c.bs) ensures j == k {
      OneBlock(c.bs);
      Multiples(|m| + j, c.bs, c.bs);
      WholeIsUnique(|m|, |m| + j - c.bs, c.bs);
    }
  }

  lemma UnpaddedIsProcessed(c: Cipher, iv: seq<byte>, m: seq<byte>, out: seq<byte>)
    requires BlockSizeOk(c) && |iv| == c.bs && Aligned(|m|, c.bs)
    ensures Decrypt(c, CbcPkcs7, iv, m) == Some(out) <==> Processed(c, CbcPkcs7, false, iv, m, out)
  {
    hide Run, IsMode, Aligned;
    var p := Run(c, CbcPkcs7, false, iv, m).out;
    forall k: byte | 1 <= k <= c.bs ensures IsMode(c, CbcPkcs7, false, iv, m, out + Fill(k, k)) <==> out + Fill(k, k) == p {
      RunIsMode(c, CbcPkcs7, false, iv, m, out + Fill(k, k));
    }
    UnpadMeans(p, out, c.bs);
  }

  /** Unpadding takes off a run of bytes that say how many they are. */
  lemma UnpadMeans(p: seq<byte>, out: seq<byte>, bs: nat)
    requires bs == 8 || bs == 16
    ensures Unpad(p, bs) == Some(out) <==> exists k: byte :: 1 <= k <= bs && p == out + Fill(k, k)
  {
    if Unpad(p, bs) == Some(out) {
      var k := p[|p| - 1];
      assert p == out + Fill(k, k);
    }
    if k: byte :| 1 <= k <= bs && p == out + Fill(k, k) {
      assert p[|p| - 1] == k && p[..|p| - k] == out;
    }
  }
}
