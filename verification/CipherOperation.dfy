/** The multipart block-cipher operation of src/psa_cipher.c: CBC with and without
    PKCS#7 and ECB, with three buffering disciplines over one `partial` block. */
module CipherOperation {
  import opened BlockModes
  import opened Bytes
  import opened CcmStream
  import opened Psa

  // ----- buffering disciplines -----

  /** PKCS#7 decryption always holds the last block back. */
  predicate HoldsBack(mode: Mode, encrypting: bool) {
    mode == CbcPkcs7 && !encrypting
  }

  /** How many of `n` input bytes have been processed. */
  function Due(holdBack: bool, n: nat, bs: nat): (d: nat)
    requires bs == 8 || bs == 16
    ensures d <= n && Aligned(d, bs)
    ensures if holdBack then (n == 0 || d < n <= d + bs) else n < d + bs
  {
    if holdBack && n > 0 then Whole(n - 1, bs) else Whole(n, bs)
  }

  /** The bytes processed when `n` more join the `held` ones. */
  lemma DueGrows(holdBack: bool, was: nat, held: nat, n: nat, bs: nat)
    requires bs == 8 || bs == 16
    requires n > 0 && held == was - Due(holdBack, was, bs)
    ensures Due(holdBack, was + n, bs) == Due(holdBack, was, bs) + Due(holdBack, held + n, bs)
  {
    var d, more := Due(holdBack, was, bs), Due(holdBack, held + n, bs);
    Multiples(d, more, bs);
    WholeIsUnique(if holdBack then was + n - 1 else was + n, d + more, bs);
  }

  /** The first `due` of the bytes `seen` went through the mode, the rest is held. */
  ghost predicate Buffered(c: Cipher, mode: Mode, encrypting: bool, iv: seq<byte>,
                           seen: seq<byte>, held: seq<byte>, out: seq<byte>, chain: seq<byte>)
    requires BlockSizeOk(c) && |iv| == c.bs
  {
    var due := Due(HoldsBack(mode, encrypting), |seen|, c.bs);
    held == seen[due..] && Run(c, mode, encrypting, iv, seen[..due]) == Chained(out, chain)
  }

  /** New input joins the held bytes, and what is due goes through the mode. */
  lemma BufferedGrows(c: Cipher, mode: Mode, encrypting: bool, iv: seq<byte>, seen: seq<byte>, held: seq<byte>,
                      out: seq<byte>, chain: seq<byte>, data: seq<byte>)
    requires BlockSizeOk(c) && |iv| == c.bs && |data| > 0
    requires Buffered(c, mode, encrypting, iv, seen, held, out, chain)
    ensures |chain| == c.bs
    ensures var all := held + data;
            var n := Due(HoldsBack(mode, encrypting), |all|, c.bs);
            var r := Run(c, mode, encrypting, chain, all[..n]);
            Buffered(c, mode, encrypting, iv, seen + data, all[n..], out + r.out, r.chain)
  {
    hide Run, Aligned, Due;
    var back := HoldsBack(mode, encrypting);
    var due, all := Due(back, |seen|, c.bs), held + data;
    var n := Due(back, |all|, c.bs);
    DueGrows(back, |seen|, |held|, |data|, c.bs);
    hide HoldsBack;
    Resplit(seen, due, held, data, n);
    RunAppend(c, mode, encrypting, iv, seen[..due], all[..n]);
  }

  lemma Resplit(seen: seq<byte>, due: nat, held: seq<byte>, data: seq<byte>, n: nat)
    requires due <= |seen| && held == seen[due..] && n <= |held + data|
    ensures (seen + data)[..due + n] == seen[..due] + (held + data)[..n]
    ensures (seen + data)[due + n..] == (held + data)[n..]
  {
  }

  /** Nothing is held and nothing was seen: the state behind setup and set_iv. */
  lemma BufferedStarts(c: Cipher, mode: Mode, encrypting: bool, iv: seq<byte>)
    requires BlockSizeOk(c) && |iv| == c.bs
    ensures Buffered(c, mode, encrypting, iv, [], [], [], iv)
  {
  }

  // ----- the operation -----

  class CipherOperation {
    const c: Cipher
    const partial: array<byte>
    var active: bool
    var mode: Mode
    var encrypting: bool
    var ivAttempted: bool
    var ivSet: bool
    var iv: seq<byte>
    /** The chaining register of the wolfCrypt context. */
    var chain: seq<byte>
    var partialLen: nat
    /** The input of all successful updates, and their output. */
    ghost var consumed: seq<byte>
    ghost var emitted: seq<byte>

    ghost predicate Valid()
      reads this, partial
    {
      && BlockSizeOk(c) && partial.Length == 16
      && (active ==>
            && |iv| == c.bs && partialLen <= c.bs
            && (ivSet ==> ivAttempted && mode != EcbNoPadding)
            && (!ivSet && mode != EcbNoPadding ==> consumed == [])
            && Buffered(c, mode, encrypting, iv, consumed, partial[..partialLen], emitted, chain))
    }

    constructor (c: Cipher)
      requires BlockSizeOk(c)
      ensures Valid() && !active && this.c == c && fresh(partial)
    {
      this.c := c;
      partial := new byte[16](i => 0);
      active, mode, encrypting, ivAttempted, ivSet, iv := false, CbcNoPadding, true, false, false, [];
      chain, partialLen, consumed, emitted := [], 0, [], [];
    }

    /** psa_cipher_encrypt_setup and psa_cipher_decrypt_setup. */
    method Setup(mode: Mode, encrypting: bool, keyStatus: Status) returns (status: Status)
      requires Valid()
      modifies this
      ensures Valid()
      ensures status == if old(active) then BadState else keyStatus
      ensures active == (old(active) || status == Success)
      ensures status == Success ==>
                && this.mode == mode && this.encrypting == encrypting
                && !ivSet && !ivAttempted && consumed == [] && emitted == [] && iv == Zeros(c.bs)
    {
      if active {
        return BadState;
      }
      if keyStatus != Success {
        return keyStatus;
      }
      Begin(mode, encrypting);
      return Success;
    }

    /** The context that setup installs: cleared, with a zero initial vector. */
    method Begin(mode: Mode, encrypting: bool)
      requires BlockSizeOk(c) && partial.Length == 16
      modifies this
      ensures Valid() && active && this.mode == mode && this.encrypting == encrypting
      ensures !ivSet && !ivAttempted && consumed == [] && emitted == [] && iv == Zeros(c.bs)
    {
      hide Run, Due, Aligned;
      BufferedStarts(c, mode, encrypting, Zeros(c.bs));
      ClearData();
      assert partial[..0] == [];
      active, this.mode, this.encrypting, ivAttempted, ivSet := true, mode, encrypting, false, false;
    }

    method ClearData()
      modifies `iv, `chain, `partialLen, `consumed, `emitted
      ensures iv == chain == Zeros(c.bs) && partialLen == 0 && consumed == emitted == []
    {
      iv, chain, partialLen, consumed, emitted := Zeros(c.bs), Zeros(c.bs), 0, [], [];
    }

    /** psa_cipher_abort */
    method Abort()
      requires BlockSizeOk(c) && partial.Length == 16
      modifies `active
      ensures Valid() && !active
    {
      active := false;
    }

    /** psa_cipher_set_iv: once, before any input, and a failure ends the operation. */
    method SetIv(value: seq<byte>) returns (status: Status)
      requires Valid()
      modifies `active, `ivAttempted, `ivSet, `iv, `chain
      ensures Valid()
      ensures status == if !old(active) || old(ivAttempted) || mode == EcbNoPadding then BadState
                        else if |value| != c.bs then InvalidArgument
                        else Success
      ensures active == (status == Success)
      ensures status == Success ==> ivSet && iv == value && old(consumed == [])
    {
      hide Run, Due, Aligned;
      if !active || ivAttempted {
        Abort();
        return BadState;
      }
      ivAttempted := true;
      if mode == EcbNoPadding {
        Abort();
        return BadState;
      }
      if |value| != c.bs {
        Abort();
        return InvalidArgument;
      }
      StartChain(value);
      return Success;
    }

    method StartChain(value: seq<byte>)
      requires Valid() && active && !ivSet && ivAttempted && mode != EcbNoPadding && |value| == c.bs
      modifies `ivSet, `iv, `chain
      ensures Valid() && ivSet && iv == value
    {
      BufferedStarts(c, mode, encrypting, value);
      iv, chain, ivSet := value, value, true;
    }

    // ----- update -----

    /** What an update of `n` bytes emits. */
    function Emits(n: nat): (k: nat)
      reads this
      requires BlockSizeOk(c)
      ensures Aligned(k, c.bs) && k <= partialLen + n
    {
      Due(HoldsBack(mode, encrypting), partialLen + n, c.bs)
    }

    /** The outcome of psa_cipher_update, in the order of its checks. */
    function UpdateStatus(n: nat, outputSize: nat, overlap: bool): Status
      reads this
      requires BlockSizeOk(c)
    {
      if !active then BadState
      else if n > UINT32_MAX then InvalidArgument
      else if overlap then NotSupported
      else if n == 0 then Success
      else if mode != EcbNoPadding && !ivSet then BadState
      else if outputSize < Emits(n) then BufferTooSmall
      else Success
    }

    /** A wolfCrypt call on whole blocks. */
    method Process(data: seq<byte>, output: array<byte>, at: nat)
      requires BlockSizeOk(c) && |chain| == c.bs && Aligned(|data|, c.bs)
      requires at + |data| <= output.Length
      modifies output, `chain
      ensures var r := Run(c, mode, encrypting, old(chain), data);
              output[at..at + |data|] == r.out && chain == r.chain
      ensures IsMode(c, mode, encrypting, old(chain), data, output[at..at + |data|])
      ensures mode != EcbNoPadding && data != [] && encrypting ==> chain == output[at + |data| - c.bs..at + |data|]
      ensures mode != EcbNoPadding && data != [] && !encrypting ==> chain == data[|data| - c.bs..]
      ensures forall i :: 0 <= i < output.Length && !(at <= i < at + |data|) ==> output[i] == old(output[i])
    {
      hide Run, Aligned, IsMode;
      var r := Run(c, mode, encrypting, chain, data);
      CopyInto(output, at, r.out);
      RunIsMode(c, mode, encrypting, chain, data, r.out);
      ChainIsLastBlock(c, mode, encrypting, chain, data);
      if data != [] {
        FirstBlock(data, c.bs);
        assert r.out[|data| - c.bs..|data|] == output[at..at + |data|][|data| - c.bs..];
      }
      chain := r.chain;
    }

    /** The partial block first, completed from the front of the input. */
    method Assemble(input: array<byte>, inAt: nat, n: nat, output: array<byte>, outAt: nat)
      returns (inOff: nat, outOff: nat)
      requires BlockSizeOk(c) && partial.Length == 16 && |chain| == c.bs && partialLen <= c.bs <= partialLen + n
      requires inAt + n <= input.Length && outAt + c.bs <= output.Length
      requires input != output || inAt + n <= outAt || outAt + c.bs <= inAt
      modifies output, `chain, `partialLen
      ensures inOff <= n && Aligned(outOff, c.bs) && outOff <= c.bs && outOff == old(partialLen) + inOff
      ensures partialLen == 0
      ensures var all := old(partial[..partialLen] + input[inAt..inAt + n]);
              var r := Run(c, mode, encrypting, old(chain), all[..outOff]);
              output[outAt..outAt + outOff] == r.out && chain == r.chain
      ensures forall i :: 0 <= i < output.Length && !(outAt <= i < outAt + outOff) ==> output[i] == old(output[i])
    {
      hide Run, Aligned;
      OneBlock(c.bs);
      inOff, outOff := 0, 0;
      if partialLen > 0 {
        inOff := c.bs - partialLen;
        outOff := c.bs;
        var block := partial[..partialLen] + input[inAt..inAt + inOff];
        assert block == (partial[..partialLen] + input[inAt..inAt + n])[..c.bs];
        Process(block, output, outAt);
        partialLen := 0;
      } else {
        RunOfNothing(c, mode, encrypting, chain);
      }
    }

    /** The whole blocks of the input next, and what is left into the partial block. */
    method ProcessRest(input: array<byte>, inAt: nat, n: nat, output: array<byte>, outAt: nat, mid: nat)
      requires BlockSizeOk(c) && partial.Length == 16 && |chain| == c.bs
      requires Aligned(mid, c.bs) && mid <= n <= mid + c.bs && inAt + n <= input.Length && outAt + mid <= output.Length
      requires input != output || inAt + n <= outAt || outAt + mid <= inAt
      requires partialLen == 0 && input != partial && output != partial
      modifies output, partial, `chain, `partialLen
      ensures partialLen == n - mid && partial[..partialLen] == old(input[inAt + mid..inAt + n])
      ensures var r := Run(c, mode, encrypting, old(chain), old(input[inAt..inAt + mid]));
              output[outAt..outAt + mid] == r.out && chain == r.chain
      ensures forall i :: 0 <= i < output.Length && !(outAt <= i < outAt + mid) ==> output[i] == old(output[i])
    {
      hide Run, Aligned;
      if mid > 0 {
        Process(input[inAt..inAt + mid], output, outAt);
      } else {
        RunOfNothing(c, mode, encrypting, chain);
      }
      if n > mid {
        CopyInto(partial, 0, input[inAt + mid..inAt + n]);
        partialLen := n - mid;
      }
    }

    /** An update that completes at least one block. */
    method Advance(input: array<byte>, inAt: nat, n: nat, output: array<byte>, outAt: nat, due: nat)
      requires Valid() && active && n > 0 && due == Emits(n) && due > 0
      requires mode != EcbNoPadding ==> ivSet
      requires inAt + n <= input.Length && outAt + due <= output.Length
      requires input != output || inAt + n <= outAt || outAt + due <= inAt
      requires input != partial && output != partial
      modifies output, partial, `chain, `partialLen, `consumed, `emitted
      ensures Valid()
      ensures consumed == old(consumed) + old(input[inAt..inAt + n])
      ensures emitted == old(emitted) + output[outAt..outAt + due]
      ensures forall i :: 0 <= i < output.Length && !(outAt <= i < outAt + due) ==> output[i] == old(output[i])
    {
      hide Run, Aligned, Due, Buffered;
      ghost var held, data := partial[..partialLen], input[inAt..inAt + n];
      BufferedGrows(c, mode, encrypting, iv, consumed, held, emitted, chain, data);
      DueBounds(due, HoldsBack(mode, encrypting), partialLen + n, c.bs);
      Transfer(input, inAt, n, output, outAt, due);
      consumed := consumed + data;
      emitted := emitted + output[outAt..outAt + due];
    }

    /** `due` bytes of the held ones and the input go through the mode, the rest is held. */
    method Transfer(input: array<byte>, inAt: nat, n: nat, output: array<byte>, outAt: nat, due: nat)
      requires BlockSizeOk(c) && partial.Length == 16 && |chain| == c.bs && partialLen <= c.bs <= due
      requires Aligned(due, c.bs)
      requires if HoldsBack(mode, encrypting) then due < partialLen + n <= due + c.bs
               else due <= partialLen + n < due + c.bs
      requires inAt + n <= input.Length && outAt + due <= output.Length
      requires input != output || inAt + n <= outAt || outAt + due <= inAt
      requires input != partial && output != partial
      modifies output, partial, `chain, `partialLen
      ensures partialLen <= c.bs
      ensures var all := old(partial[..partialLen] + input[inAt..inAt + n]);
              var r := Run(c, mode, encrypting, old(chain), all[..due]);
              partial[..partialLen] == all[due..] && output[outAt..outAt + due] == r.out && chain == r.chain
      ensures forall i :: 0 <= i < output.Length && !(outAt <= i < outAt + due) ==> output[i] == old(output[i])
    {
      hide Run, Aligned, Due;
      ghost var held, data, chain0 := partial[..partialLen], input[..], chain;
      ghost var all := held + data[inAt..inAt + n];
      var inOff, outOff := Assemble(input, inAt, n, output, outAt);
      RestOfInput(data, input[..], held, inAt, n, inOff, outOff);
      Drain(input, inAt + inOff, n - inOff, output, outAt, outOff, due, all, chain0);
    }

    /** The second half: the first `k` bytes of `all` are done. */
    method Drain(input: array<byte>, inAt: nat, n: nat, output: array<byte>, outAt: nat, k: nat, due: nat,
                 ghost all: seq<byte>, ghost chain0: seq<byte>)
      requires BlockSizeOk(c) && partial.Length == 16 && |chain| == |chain0| == c.bs && partialLen == 0
      requires k <= due <= |all| == k + n && Aligned(k, c.bs) && Aligned(due, c.bs)
      requires if HoldsBack(mode, encrypting) then due < |all| <= due + c.bs else |all| < due + c.bs
      requires inAt + n <= input.Length && outAt + due <= output.Length
      requires input != output || inAt + n <= outAt + k || outAt + due <= inAt
      requires input != partial && output != partial
      requires input[inAt..inAt + n] == all[k..]
      requires Run(c, mode, encrypting, chain0, all[..k]) == Chained(output[outAt..outAt + k], chain)
      modifies output, partial, `chain, `partialLen
      ensures partialLen <= c.bs && partial[..partialLen] == all[due..]
      ensures Run(c, mode, encrypting, chain0, all[..due]) == Chained(output[outAt..outAt + due], chain)
      ensures forall i :: 0 <= i < output.Length && !(outAt + k <= i < outAt + due) ==> output[i] == old(output[i])
    {
      hide Run, Aligned, Due, HoldsBack;
      Pieces(c, mode, encrypting, chain0, all, k, due);
      var mid := Remaining(n, due - k);
      Parts(input[..], inAt, n, mid, all, k);
      ghost var before := output[..];
      ProcessRest(input, inAt, n, output, outAt + k, mid);
      Joined(before, output[..], outAt, k, due);
    }

    /** The full blocks of the rest, as either branch of the code counts them. */
    method Remaining(n: nat, left: nat) returns (mid: nat)
      requires BlockSizeOk(c) && Aligned(left, c.bs)
      requires if HoldsBack(mode, encrypting) then left <= n <= left + c.bs else left <= n < left + c.bs
      ensures mid == left
    {
      if HoldsBack(mode, encrypting) {
        mid := left;
      } else {
        WholeIsUnique(n, left, c.bs);
        mid := Whole(n, c.bs);
      }
    }

    /** An update that completes no block. */
    method Append(input: array<byte>, inAt: nat, n: nat)
      requires Valid() && active && n > 0 && Emits(n) == 0
      requires mode != EcbNoPadding ==> ivSet
      requires inAt + n <= input.Length && input != partial
      modifies partial, `partialLen, `consumed
      ensures Valid()
      ensures consumed == old(consumed) + input[inAt..inAt + n]
    {
      hide Run, Aligned, Buffered;
      ghost var held, data := partial[..partialLen], input[inAt..inAt + n];
      BufferedGrows(c, mode, encrypting, iv, consumed, held, emitted, chain, data);
      RunOfNothing(c, mode, encrypting, chain);
      assert (held + data)[..0] == [] && (held + data)[0..] == held + data;
      CopyInto(partial, partialLen, input[inAt..inAt + n]);
      partialLen := partialLen + n;
      consumed := consumed + data;
      assert partial[..partialLen] == held + data && emitted + [] == emitted;
    }

    /** psa_cipher_update on `n` bytes of `input` from `inAt`, into the `outputSize`
        bytes of `output` from `outAt`. */
    method Update(input: array<byte>, inAt: nat, n: nat, output: array<byte>, outAt: nat, outputSize: nat)
      returns (status: Status, outputLength: nat)
      requires Valid()
      requires inAt + n <= input.Length && outAt + outputSize <= output.Length
      requires input != partial && output != partial
      modifies output, partial, `active, `chain, `partialLen, `consumed, `emitted
      ensures Valid()
      ensures status == old(UpdateStatus(n, outputSize, Overlap(input, inAt, n, output, outAt, outputSize)))
      ensures active == (old(active) && status == Success)
      ensures outputLength == if status == Success then old(if n == 0 then 0 else Emits(n)) else 0
      ensures status == Success ==>
                && outputLength <= outputSize
                && consumed == old(consumed) + old(input[inAt..inAt + n])
                && emitted == old(emitted) + output[outAt..outAt + outputLength]
      ensures forall i :: 0 <= i < output.Length && !(outAt <= i < outAt + outputLength) ==> output[i] == old(output[i])
    {
      hide Run, Aligned, Buffered, Due;
      if !active {
        Abort();
        return BadState, 0;
      }
      if n > UINT32_MAX {
        Abort();
        return InvalidArgument, 0;
      }
      if Overlap(input, inAt, n, output, outAt, outputSize) {
        Abort();
        return NotSupported, 0;
      }
      if n == 0 {
        return Success, 0;
      }
      if mode != EcbNoPadding && !ivSet {
        Abort();
        return BadState, 0;
      }
      var due := Emits(n);
      if outputSize < due {
        Abort();
        return BufferTooSmall, 0;
      }
      if due == 0 {
        Append(input, inAt, n);
      } else {
        Advance(input, inAt, n, output, outAt, due);
      }
      return Success, due;
    }

    /** The bytes emitted so far follow from the bytes taken in. */
    lemma EmittedLength()
      requires Valid() && active
      ensures |emitted| == Due(HoldsBack(mode, encrypting), |consumed|, c.bs)
      ensures partialLen == |consumed| - |emitted|
      ensures if HoldsBack(mode, encrypting) && consumed != [] then 1 <= partialLen <= c.bs else partialLen < c.bs
    {
    }

    lemma NothingEmitted()
      requires Valid() && active && consumed == []
      ensures emitted == [] && partialLen == 0
    {
    }

    // ----- finish -----

    /** The result of the whole operation, if it has one. */
    ghost function Result(): Option<seq<byte>>
      reads this
      requires BlockSizeOk(c) && |iv| == c.bs
    {
      if encrypting then Encrypt(c, mode, iv, consumed) else Decrypt(c, mode, iv, consumed)
    }

    /** What finish has left to emit never exceeds one block. */
    lemma ResultFits()
      requires Valid() && active
      ensures Result().Some? ==> |emitted| <= |Result().value| <= |emitted| + c.bs
    {
      hide Run, Aligned, Buffered;
      if mode != CbcPkcs7 {
        WholeResult(c, mode, encrypting, iv, consumed, partial[..partialLen], emitted, chain);
      } else if encrypting {
        PaddedResult(c, iv, consumed, partial[..partialLen], emitted, chain);
      } else {
        UnpaddedResult(c, iv, consumed, partial[..partialLen], emitted, chain);
      }
    }

    /** psa_cipher_finish into the `outputSize` bytes of `output` from `outAt`. */
    method Finish(output: array<byte>, outAt: nat, outputSize: nat) returns (status: Status, outputLength: nat)
      requires Valid() && outAt + outputSize <= output.Length && output != partial
      modifies output, `active, `chain
      ensures Valid() && !active
      ensures !old(active) || (mode == CbcPkcs7 && !ivSet) ==> status == BadState
      ensures old(active) && (mode == CbcPkcs7 ==> ivSet) ==>
                match Result()
                case None => status == if mode != CbcPkcs7 then InvalidArgument else InvalidPadding
                case Some(whole) => status == if |whole| - |emitted| > outputSize then BufferTooSmall else Success
      ensures status == Success ==>
                outputLength <= outputSize && Result() == Some(emitted + output[outAt..outAt + outputLength])
      ensures status == Success ==>
                |iv| == c.bs && Processed(c, mode, encrypting, iv, consumed, emitted + output[outAt..outAt + outputLength])
      ensures status != Success ==> outputLength == 0
    {
      hide Run, Aligned, Buffered, Due, Processed;
      outputLength := 0;
      if !active || (mode == CbcPkcs7 && !ivSet) {
        Abort();
        return BadState, 0;
      }
      if mode == CbcPkcs7 && encrypting {
        status, outputLength := FinishPadded(output, outAt, outputSize);
      } else if mode == CbcPkcs7 {
        status, outputLength := FinishUnpadded(output, outAt, outputSize);
      } else {
        WholeResult(c, mode, encrypting, iv, consumed, partial[..partialLen], emitted, chain);
        status := if partialLen != 0 then InvalidArgument else Success;
        assert emitted + output[outAt..outAt] == emitted;
      }
      ResultIsProcessed(c, mode, encrypting, iv, consumed, emitted + output[outAt..outAt + outputLength]);
      Abort();
    }

    method FinishPadded(output: array<byte>, outAt: nat, outputSize: nat) returns (status: Status, outputLength: nat)
      requires Valid() && active && mode == CbcPkcs7 && encrypting
      requires outAt + outputSize <= output.Length && output != partial
      modifies output, `chain
      ensures status == if outputSize < c.bs then BufferTooSmall else Success
      ensures outputLength == if status == Success then c.bs else 0
      ensures Result().Some? && |Result().value| == |emitted| + c.bs
      ensures status == Success ==> Result() == Some(emitted + output[outAt..outAt + outputLength])
    {
      hide Run, Aligned;
      PaddedResult(c, iv, consumed, partial[..partialLen], emitted, chain);
      var padLen := c.bs - partialLen;
      if outputSize < c.bs {
        return BufferTooSmall, 0;
      }
      var block := partial[..partialLen] + Fill(padLen, padLen);
      Process(block, output, outAt);
      return Success, c.bs;
    }

    method FinishUnpadded(output: array<byte>, outAt: nat, outputSize: nat) returns (status: Status, outputLength: nat)
      requires Valid() && active && mode == CbcPkcs7 && !encrypting
      requires outAt + outputSize <= output.Length && output != partial
      modifies output, `chain
      ensures match Result()
              case None => status == InvalidPadding
              case Some(whole) => status == if |whole| - |emitted| > outputSize then BufferTooSmall else Success
      ensures status != Success ==> outputLength == 0
      ensures status == Success ==>
                outputLength <= outputSize && Result() == Some(emitted + output[outAt..outAt + outputLength])
    {
      hide Run, Aligned;
      UnpaddedResult(c, iv, consumed, partial[..partialLen], emitted, chain);
      if partialLen != c.bs {
        return InvalidPadding, 0;
      }
      var block := new byte[c.bs](i => 0);
      Process(partial[..c.bs], block, 0);
      var last := block[..];
      assert partial[..c.bs] == partial[..partialLen] && block[0..c.bs] == last;
      var invalid := CheckPadding(last, c.bs);
      if invalid != 0 {
        return InvalidPadding, 0;
      }
      var plainLen := c.bs - block[c.bs - 1];
      if outputSize < plainLen {
        return BufferTooSmall, 0;
      }
      CopyInto(output, outAt, last[..plainLen]);
      assert output[outAt..outAt + plainLen] == last[..plainLen];
      return Success, plainLen;
    }
  }

  /** The masked accumulate loop over the last block: zero exactly for good padding. */
  method CheckPadding(block: seq<byte>, bs: nat) returns (invalid: nat)
    requires |block| == bs > 0
    ensures invalid == 0 <==> PaddedBy(block, block[bs - 1], bs)
  {
    var padLen := block[bs - 1];
    invalid := if padLen == 0 then 0xFF else 0;
    invalid := BitOr(invalid, if padLen > bs then 0xFF else 0);
    var i := 0;
    while i < bs
      invariant 0 <= i <= bs
      invariant invalid == 0 <==>
        1 <= padLen <= bs && forall j :: bs - i <= j < bs && bs - j <= padLen ==> block[j] == padLen
    {
      XorByteCancels(block[bs - 1 - i], padLen);
      var masked: nat := if i < padLen then XorByte(block[bs - 1 - i], padLen) else 0;
      invalid := BitOr(invalid, masked);
      i := i + 1;
    }
  }

  /** Without padding, the operation has a result exactly when nothing is held. */
  lemma WholeResult(c: Cipher, mode: Mode, encrypting: bool, iv: seq<byte>, seen: seq<byte>, held: seq<byte>,
                    out: seq<byte>, chain: seq<byte>)
    requires BlockSizeOk(c) && |iv| == c.bs && mode != CbcPkcs7
    requires Buffered(c, mode, encrypting, iv, seen, held, out, chain)
    ensures (if encrypting then Encrypt(c, mode, iv, seen) else Decrypt(c, mode, iv, seen))
         == if held == [] then Some(out) else None
  {
    hide Run;
    var due := Due(false, |seen|, c.bs);
    if held == [] {
      assert seen[..due] == seen;
    } else if Aligned(|seen|, c.bs) {
      WholeIsUnique(|seen|, |seen|, c.bs);
    }
  }

  /** A first update never needs more room than the whole result does. */
  lemma RoomForUpdate(c: Cipher, mode: Mode, encrypting: bool, iv: seq<byte>, m: seq<byte>)
    requires BlockSizeOk(c) && |iv| == c.bs
    ensures var result := if encrypting then Encrypt(c, mode, iv, m) else Decrypt(c, mode, iv, m);
            result.Some? && m != [] ==> Due(HoldsBack(mode, encrypting), |m|, c.bs) <= |result.value|
  {
    hide Run;
    if mode == CbcPkcs7 && !encrypting && Aligned(|m|, c.bs) && m != [] {
      Multiples(|m|, c.bs, c.bs);
      OneBlock(c.bs);
      WholeIsUnique(|m| - 1, |m| - c.bs, c.bs);
    }
  }

  lemma PaddedResult(c: Cipher, iv: seq<byte>, seen: seq<byte>, held: seq<byte>, out: seq<byte>, chain: seq<byte>)
    requires BlockSizeOk(c) && |iv| == c.bs
    requires Buffered(c, CbcPkcs7, true, iv, seen, held, out, chain)
    ensures |held| < c.bs && |chain| == c.bs
    ensures var k := c.bs - |held|;
            var block := held + Fill(k, k);
            && Aligned(|block|, c.bs)
            && Encrypt(c, CbcPkcs7, iv, seen) == Some(out + Run(c, CbcPkcs7, true, chain, block).out)
  {
    hide Run;
    var due, k := Due(false, |seen|, c.bs), c.bs - |held|;
    var block := held + Fill(k, k);
    OneBlock(c.bs);
    assert Pad(seen, c.bs) == seen[..due] + block;
    RunAppend(c, CbcPkcs7, true, iv, seen[..due], block);
  }

  lemma UnpaddedResult(c: Cipher, iv: seq<byte>, seen: seq<byte>, held: seq<byte>, out: seq<byte>, chain: seq<byte>)
    requires BlockSizeOk(c) && |iv| == c.bs
    requires Buffered(c, CbcPkcs7, false, iv, seen, held, out, chain)
    ensures |held| <= c.bs && |chain| == c.bs
    ensures |held| != c.bs ==> Decrypt(c, CbcPkcs7, iv, seen) == None
    ensures |held| == c.bs ==>
              && Aligned(|held|, c.bs)
              && Decrypt(c, CbcPkcs7, iv, seen)
                 == match Unpad(Run(c, CbcPkcs7, false, chain, held).out, c.bs)
                    case Some(r) => Some(out + r)
                    case None => None
  {
    hide Run, Unpad, Aligned;
    var due := Due(true, |seen|, c.bs);
    OneBlock(c.bs);
    if |held| == c.bs {
      assert seen == seen[..due] + held;
      RunAppend(c, CbcPkcs7, false, iv, seen[..due], held);
      UnpadLastBlock(out, Run(c, CbcPkcs7, false, chain, held).out, c.bs);
    } else if seen != [] && Aligned(|seen|, c.bs) {
      Multiples(|seen|, c.bs, c.bs);
      WholeIsUnique(|seen| - 1, |seen| - c.bs, c.bs);
    }
  }

  /** The declared ranges share a byte. */
  predicate Overlap(input: array<byte>, inAt: nat, n: nat, output: array<byte>, outAt: nat, outputSize: nat) {
    input == output && n > 0 && outputSize > 0 && inAt < outAt + outputSize && outAt < inAt + n
  }

  predicate Within(i: nat, at: nat, n: nat) {
    at <= i < at + n
  }

  /** They do exactly when some place of the buffer lies in both. */
  lemma OverlapMeansCommonPlace(input: array<byte>, inAt: nat, n: nat, output: array<byte>, outAt: nat, outputSize: nat)
    ensures Overlap(input, inAt, n, output, outAt, outputSize)
       <==> input == output && exists i :: Within(i, inAt, n) && Within(i, outAt, outputSize)
  {
    if Overlap(input, inAt, n, output, outAt, outputSize) {
      var i := if inAt < outAt then outAt else inAt;
      assert Within(i, inAt, n) && Within(i, outAt, outputSize);
    }
  }

  /** The input behind the bytes that completed the partial block, read after the
      output was written elsewhere. */
  lemma RestOfInput(data: seq<byte>, now: seq<byte>, held: seq<byte>, at: nat, n: nat, inOff: nat, k: nat)
    requires |now| == |data| && at + n <= |data| && inOff <= n && k == |held| + inOff
    requires forall i :: at <= i < at + n ==> now[i] == data[i]
    ensures now[at + inOff..at + n] == (held + data[at..at + n])[k..]
  {
    var all := held + data[at..at + n];
    forall i | 0 <= i < n - inOff ensures now[at + inOff..at + n][i] == all[k..][i] {
      assert all[k + i] == data[at + inOff + i];
    }
  }

  lemma Parts(input: seq<byte>, at: nat, n: nat, mid: nat, all: seq<byte>, k: nat)
    requires at + n <= |input| && k <= |all| && mid <= n && input[at..at + n] == all[k..]
    ensures k + mid <= |all|
    ensures input[at..at + mid] == all[k..][..mid] && input[at + mid..at + n] == all[k + mid..]
  {
    assert input[at..at + mid] == input[at..at + n][..mid] && input[at + mid..at + n] == input[at..at + n][mid..];
  }

  lemma Joined(before: seq<byte>, after: seq<byte>, at: nat, k: nat, due: nat)
    requires |before| == |after| && k <= due && at + due <= |after|
    requires forall i :: at <= i < at + k ==> after[i] == before[i]
    ensures after[at..at + due] == before[at..at + k] + after[at + k..at + due]
  {
  }

  lemma DueBounds(due: nat, holdBack: bool, n: nat, bs: nat)
    requires bs == 8 || bs == 16
    requires n > 0 && due == Due(holdBack, n, bs) && due > 0
    ensures Aligned(due, bs) && bs <= due
    ensures if holdBack then due < n <= due + bs else due <= n < due + bs
  {
  }

  /** A run over the partial block and then over the rest is a run over both. */
  lemma Pieces(c: Cipher, mode: Mode, encrypting: bool, chain: seq<byte>, all: seq<byte>, k: nat, due: nat)
    requires BlockSizeOk(c) && |chain| == c.bs
    requires k <= due <= |all| && Aligned(k, c.bs) && Aligned(due, c.bs)
    ensures Aligned(due - k, c.bs)
    ensures var first := Run(c, mode, encrypting, chain, all[..k]);
            var second := Run(c, mode, encrypting, first.chain, all[k..][..due - k]);
            Run(c, mode, encrypting, chain, all[..due]) == Chained(first.out + second.out, second.chain)
  {
    Multiples(due, k, c.bs);
    assert all[..due] == all[..k] + all[k..][..due - k];
    RunAppend(c, mode, encrypting, chain, all[..k], all[k..][..due - k]);
  }

  lemma RunOfNothing(c: Cipher, mode: Mode, encrypting: bool, chain: seq<byte>)
    requires BlockSizeOk(c) && |chain| == c.bs
    ensures Aligned(0, c.bs) && Run(c, mode, encrypting, chain, []) == Chained([], chain)
  {
  }
}
