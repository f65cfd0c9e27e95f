/** The multipart AEAD operation of src/psa_aead.c. The CCM arm runs the streaming
    code of CcmStream; GCM and ChaCha20-Poly1305 are wolfCrypt calls and appear as
    uninterpreted functions with the one law a streaming cipher has: the output is
    the input under a keystream, and the tag depends on nonce, associated data and
    plaintext. */
module AeadOperation {
  import opened Bytes
  import opened Psa
  import CcmSpec
  import opened CcmStream

  datatype Alg = Ccm | Gcm | ChaCha20Poly1305 | XChaCha20Poly1305 | AsconAead128 | NotAead

  /** The primitives of wolfCrypt under the key of the operation. */
  datatype Primitives = Primitives(
    E: BlockCipher,
    keystream: (Alg, seq<byte>, nat) -> byte,
    tag: (Alg, seq<byte>, seq<byte>, seq<byte>) -> Block)

  // ----- the AEAD as a function of whole messages -----

  function KeystreamAt(p: Primitives, alg: Alg, nonce: seq<byte>, i: nat): byte
    requires NonceLengthOk(alg, |nonce|)
  {
    if alg == Ccm then CcmSpec.KeystreamByte(p.E, nonce, i) else p.keystream(alg, nonce, i)
  }

  function Crypt(p: Primitives, alg: Alg, nonce: seq<byte>, offset: nat, data: seq<byte>): (r: seq<byte>)
    requires NonceLengthOk(alg, |nonce|)
    ensures |r| == |data|
    ensures alg == Ccm ==> r == CcmSpec.Crypt(p.E, nonce, offset, data)
  {
    seq(|data|, i requires 0 <= i < |data| => XorByte(data[i], KeystreamAt(p, alg, nonce, offset + i)))
  }

  function Tag(p: Primitives, alg: Alg, nonce: seq<byte>, aad: seq<byte>, payload: seq<byte>, tagLen: nat)
    : (t: seq<byte>)
    requires NonceLengthOk(alg, |nonce|) && TagLengthOk(alg, tagLen)
    ensures |t| == tagLen
    ensures alg == Ccm ==> t == CcmSpec.Tag(p.E, CcmSpec.Message(nonce, aad, payload, tagLen))
  {
    if alg == Ccm then CcmSpec.Tag(p.E, CcmSpec.Message(nonce, aad, payload, tagLen))
    else p.tag(alg, nonce, aad, payload)[..tagLen]
  }

  /** For GCM and ChaCha20-Poly1305 the tag is that of wolfCrypt over nonce, associated
      data and plaintext, cut to its length. */
  lemma TagIsPrimitive(p: Primitives, alg: Alg, nonce: seq<byte>, aad: seq<byte>, payload: seq<byte>, tagLen: nat)
    requires alg != Ccm && NonceLengthOk(alg, |nonce|) && TagLengthOk(alg, tagLen)
    ensures tagLen <= 16 && Tag(p, alg, nonce, aad, payload, tagLen) == p.tag(alg, nonce, aad, payload)[..tagLen]
  {
  }

  /** Their output is the input under the keystream, byte for byte. */
  lemma CryptIsKeystream(p: Primitives, alg: Alg, nonce: seq<byte>, offset: nat, data: seq<byte>)
    requires alg != Ccm && NonceLengthOk(alg, |nonce|)
    ensures Crypt(p, alg, nonce, offset, data)
         == seq(|data|, i requires 0 <= i < |data| => XorByte(data[i], p.keystream(alg, nonce, offset + i)))
  {
  }

  lemma CryptAppend(p: Primitives, alg: Alg, nonce: seq<byte>, offset: nat, a: seq<byte>, b: seq<byte>)
    requires NonceLengthOk(alg, |nonce|)
    ensures Crypt(p, alg, nonce, offset, a + b) == Crypt(p, alg, nonce, offset, a) + Crypt(p, alg, nonce, offset + |a|, b)
  {
  }

  lemma CryptInvolutive(p: Primitives, alg: Alg, nonce: seq<byte>, offset: nat, data: seq<byte>)
    requires NonceLengthOk(alg, |nonce|)
    ensures Crypt(p, alg, nonce, offset, Crypt(p, alg, nonce, offset, data)) == data
  {
    forall i | 0 <= i < |data|
      ensures Crypt(p, alg, nonce, offset, Crypt(p, alg, nonce, offset, data))[i] == data[i]
    {
      XorByteCancels(data[i], KeystreamAt(p, alg, nonce, offset + i));
    }
  }

  // ----- argument checks -----

  predicate TagLengthOk(alg: Alg, t: nat) {
    match alg
    case Ccm => CcmSpec.ValidTagLength(t)
    case Gcm => t == 4 || t == 8 || 12 <= t <= 16
    case ChaCha20Poly1305 => t == 16
    case _ => false
  }

  predicate NonceLengthOk(alg: Alg, n: nat) {
    match alg
    case Ccm => 7 <= n <= 13
    case Gcm => 12 <= n <= 24
    case ChaCha20Poly1305 => n == 12
    case _ => false
  }

  /** wolfpsa_aead_check_lengths; a zero nonce length means the nonce is not set yet. */
  function CheckLengths(alg: Alg, nonceLen: nat, adLen: nat, payloadLen: nat): Status {
    if alg == Ccm && 7 < nonceLen <= 15 && ShiftRight(payloadLen, 15 - nonceLen) != 0 then InvalidArgument
    else if alg == Gcm && (adLen > 0x1FFF_FFFF_FFFF_FFFF || payloadLen > 0xF_FFFF_FFE0) then InvalidArgument
    else if alg == ChaCha20Poly1305 && payloadLen > UINT32_MAX * 64 then InvalidArgument
    else if adLen > UINT32_MAX || (alg != Ccm && payloadLen > UINT32_MAX) then NotSupported
    else Success
  }

  /** What a successful check means for CCM: the payload length fits its field. */
  lemma CheckLengthsFits(nonceLen: nat, adLen: nat, payloadLen: nat)
    requires 7 <= nonceLen <= 13 && adLen <= SIZE_MAX && payloadLen <= SIZE_MAX
    requires CheckLengths(Ccm, nonceLen, adLen, payloadLen) == Success
    ensures payloadLen < Pow256(15 - nonceLen) && adLen <= UINT32_MAX
  {
    ShiftedOut(payloadLen, 15 - nonceLen);
    if nonceLen == 7 {
      assert Pow256(8) == SIZE_MAX + 1;
    }
  }

  /** The check in numbers. The limits of GCM and ChaCha20-Poly1305 decide only which
      error a length beyond 32 bits gets. */
  lemma CheckLengthsExact(alg: Alg, nonceLen: nat, adLen: nat, payloadLen: nat)
    requires alg == Ccm && nonceLen != 0 ==> 7 <= nonceLen <= 13
    requires adLen <= SIZE_MAX && payloadLen <= SIZE_MAX
    ensures CheckLengths(alg, nonceLen, adLen, payloadLen) == InvalidArgument <==>
              || (alg == Ccm && nonceLen != 0 && payloadLen >= Pow256(15 - nonceLen))
              || (alg == Gcm && (adLen > 0x1FFF_FFFF_FFFF_FFFF || payloadLen > 0xF_FFFF_FFE0))
              || (alg == ChaCha20Poly1305 && payloadLen > 0x3F_FFFF_FFC0)
    ensures CheckLengths(alg, nonceLen, adLen, payloadLen) == Success <==> LengthsFit(alg, nonceLen, adLen, payloadLen)
    ensures CheckLengths(alg, nonceLen, adLen, payloadLen) in {Success, InvalidArgument, NotSupported}
  {
    if alg == Ccm && nonceLen != 0 {
      ShiftedOut(payloadLen, 15 - nonceLen);
      if nonceLen == 7 {
        assert Pow256(8) == SIZE_MAX + 1;
      }
    }
  }

  predicate LengthsFit(alg: Alg, nonceLen: nat, adLen: nat, payloadLen: nat) {
    && adLen <= 0xFFFF_FFFF
    && if alg == Ccm then nonceLen != 0 && nonceLen <= 15 ==> payloadLen < Pow256(15 - nonceLen)
       else payloadLen <= 0xFFFF_FFFF
  }

  /** The tag lengths of every algorithm, in numbers. */
  lemma TagLengths(alg: Alg, t: nat)
    ensures TagLengthOk(alg, t) <==>
              || (alg == Ccm && t in {4, 6, 8, 10, 12, 14, 16})
              || (alg == Gcm && t in {4, 8, 12, 13, 14, 15, 16})
              || (alg == ChaCha20Poly1305 && t == 16)
  {
  }

  // ----- the outcome of every call -----

  /** An operation as its callers know it: the parameters, the declared totals, how far
      it has come, and what went in and came out. */
  datatype Progress = Progress(
    active: bool,
    alg: Alg,
    tagLength: nat,
    encrypting: bool,
    nonce: seq<byte>,
    declared: Option<(nat, nat)>,
    adStarted: bool,
    bodyStarted: bool,
    streaming: bool,
    aad: seq<byte>,
    input: seq<byte>,
    output: seq<byte>)

  predicate IsReady(v: Progress) {
    v.nonce != [] && (v.alg == Ccm ==> v.declared.Some?)
  }

  predicate TotalsMet(v: Progress) {
    v.declared.Some? ==> v.declared.value == (|v.aad|, |v.input|)
  }

  function SetupStatus(alg: Alg, atLeast: bool, tagLength: nat, keyStatus: Status): Status {
    if alg == NotAead then NotSupported
    else if atLeast then InvalidArgument
    else if alg == XChaCha20Poly1305 || alg == AsconAead128 then NotSupported
    else if keyStatus != Success then keyStatus
    else if TagLengthOk(alg, tagLength) then Success
    else if alg == ChaCha20Poly1305 && tagLength != 0 then NotSupported
    else InvalidArgument
  }

  function LengthsStatus(v: Progress, adLength: nat, payloadLength: nat): Status {
    if !v.active || v.declared.Some? || v.adStarted || v.bodyStarted then BadState
    else CheckLengths(v.alg, |v.nonce|, adLength, payloadLength)
  }

  function NonceStatus(v: Progress, n: nat): Status {
    if !v.active || v.nonce != [] then BadState
    else if !NonceLengthOk(v.alg, n) then if v.alg == Gcm && n != 0 then NotSupported else InvalidArgument
    else if v.declared.Some? then CheckLengths(v.alg, n, v.declared.value.0, v.declared.value.1)
    else Success
  }

  function AdStatus(v: Progress, n: nat): Status {
    if !v.active || v.bodyStarted || !IsReady(v) then BadState
    else if v.declared.Some? && |v.aad| + n > v.declared.value.0 then InvalidArgument
    else if |v.aad| + n > UINT32_MAX then InvalidArgument
    else Success
  }

  /** The outcome of psa_aead_update, in the order of its checks; `outputSize` is missing
      when there is no output buffer. */
  function UpdateStatus(v: Progress, hasInput: bool, n: nat, outputSize: Option<nat>, backend: Status): Status {
    if !v.active || !IsReady(v) then BadState
    else if v.declared.Some? && (|v.aad| != v.declared.value.0 || |v.input| + n > v.declared.value.1) then InvalidArgument
    else if !hasInput && n > 0 then InvalidArgument
    else if n == 0 then Success
    else if outputSize == None then if v.streaming then BadState else Success
    else if !v.streaming && v.input != [] then BadState
    else if outputSize.value < n then BufferTooSmall
    else if n > UINT32_MAX then InvalidArgument
    else if v.alg == Ccm then Success
    else backend
  }

  /** The outcome of psa_aead_finish; `backend` is that of the wolfCrypt calls, if any. */
  function FinishStatus(v: Progress, ciphertextSize: nat, tagSize: nat, backend: Status): Status {
    if !v.active || !v.encrypting || !IsReady(v) then BadState
    else if !TotalsMet(v) then InvalidArgument
    else if !v.streaming && |v.input| > SIZE_MAX - v.tagLength && v.alg == ChaCha20Poly1305 then BufferTooSmall
    else if !v.streaming && ciphertextSize < |v.input| then BufferTooSmall
    else if tagSize < v.tagLength then BufferTooSmall
    else if !v.streaming && |v.input| > UINT32_MAX then InvalidArgument
    else if v.alg == Ccm && v.streaming then Success
    else backend
  }

  /** The outcome of psa_aead_verify up to the tag comparison. */
  function VerifyStatus(v: Progress, plaintextSize: nat, tagLen: nat, backend: Status): Status {
    if !v.active || v.encrypting || !IsReady(v) then BadState
    else if !TotalsMet(v) then InvalidArgument
    else if tagLen != v.tagLength then InvalidSignature
    else if !v.streaming && plaintextSize < |v.input| then BufferTooSmall
    else if !v.streaming && |v.input| > UINT32_MAX then InvalidArgument
    else if v.alg == Ccm && v.streaming then Success
    else if v.alg == ChaCha20Poly1305 && !v.streaming && backend != Success then InvalidSignature
    else backend
  }

  /** `tag` is the tag of the plaintext under the ciphertext that went in. */
  predicate TagRight(p: Primitives, v: Progress, tag: seq<byte>) {
    && NonceLengthOk(v.alg, |v.nonce|) && TagLengthOk(v.alg, v.tagLength)
    && tag == Tag(p, v.alg, v.nonce, v.aad, Crypt(p, v.alg, v.nonce, 0, v.input), v.tagLength)
  }

  // ----- the operation -----

  /** One call into the streaming primitive. */
  datatype Call = Start(aad: seq<byte>) | Data(bytes: seq<byte>)

  /** The associated data was handed over once, before any payload. */
  ghost predicate WellFed(calls: seq<Call>, aad: seq<byte>) {
    && 0 < |calls| && calls[0] == Start(aad)
    && forall i :: 0 < i < |calls| ==> calls[i].Data?
  }

  function Fed(calls: seq<Call>): seq<byte> {
    if |calls| == 0 then []
    else Fed(calls[..|calls| - 1]) + (match calls[|calls| - 1] case Start(_) => [] case Data(b) => b)
  }

  class AeadOperation {
    const p: Primitives
    /** Whether operation->opaque holds a context. */
    var active: bool
    var alg: Alg
    var encrypting: bool
    var tagLength: nat
    var nonce: seq<byte>
    var aad: seq<byte>
    /** The payload buffered by updates without an output buffer. */
    var buffered: seq<byte>
    var inputLength: nat
    var adExpected: nat
    var payloadExpected: nat
    var lengthsSet: bool
    var adStarted: bool
    var bodyStarted: bool
    var streaming: bool
    const ccm: CcmContext
    /** The streaming context, as the history of calls made into it, and the bytes it returned. */
    var calls: seq<Call>
    ghost var emitted: seq<byte>

    ghost function Repr(): set<object>
    {
      {this, ccm, ccm.ctr, ccm.mac, ccm.mblk, ccm.ks}
    }

    /** The plaintext that has gone through the streaming primitive. */
    ghost function Streamed(): seq<byte>
      reads `encrypting, `calls, `emitted
    {
      if encrypting then Fed(calls) else emitted
    }

    /** The payload the caller has passed in, streamed or buffered. */
    function Payload(): seq<byte>
      reads this
    {
      if streaming then Fed(calls) else buffered
    }

    ghost function View(): Progress
      reads this
    {
      Progress(active, alg, tagLength, encrypting, nonce,
               if lengthsSet then Some((adExpected, payloadExpected)) else None,
               adStarted, bodyStarted, streaming, aad, Payload(), emitted)
    }

    ghost predicate LengthsMissing()
      reads this
    {
      alg == Ccm && !lengthsSet
    }

    ghost predicate Ready()
      reads this
    {
      nonce != [] && !LengthsMissing()
    }

    /** What holds of the operation between any two calls. */
    ghost predicate Valid()
      reads this, ccm, ccm.ctr, ccm.mac, ccm.mblk, ccm.ks
    {
      ccm.Shape() && ccm.E == p.E && (active ==> LengthsValid() && PhaseValid() && StreamValid())
    }

    ghost predicate LengthsValid()
      reads `alg, `tagLength, `nonce, `aad, `adExpected, `payloadExpected, `lengthsSet, `inputLength
    {
      && TagLengthOk(alg, tagLength)
      && (nonce == [] || NonceLengthOk(alg, |nonce|))
      && |aad| <= UINT32_MAX
      && adExpected <= SIZE_MAX && payloadExpected <= SIZE_MAX
      && (lengthsSet ==>
            && CheckLengths(alg, |nonce|, adExpected, payloadExpected) == Success
            && |aad| <= adExpected && inputLength <= payloadExpected)
    }

    ghost predicate PhaseValid()
      reads this
    {
      && (aad != [] ==> adStarted)
      && (adStarted || bodyStarted ==> Ready())
      && (bodyStarted && lengthsSet ==> |aad| == adExpected)
      && (streaming || buffered != [] ==> bodyStarted)
      && !(streaming && buffered != [])
    }

    ghost predicate StreamValid()
      reads `streaming, `calls, `emitted, `inputLength, `buffered, `alg, `nonce
      reads `encrypting, `aad, `payloadExpected, `tagLength, ccm, ccm.ctr, ccm.mac, ccm.mblk, ccm.ks
    {
      if !streaming then calls == [] && emitted == [] && inputLength == |buffered|
         else
           && WellFed(calls, aad) && NonceLengthOk(alg, |nonce|)
           && inputLength == |Fed(calls)|
           && emitted == Crypt(p, alg, nonce, 0, Fed(calls))
           && (alg == Ccm ==> CcmFollows(Streamed()))
    }

    ghost predicate CcmFollows(payload: seq<byte>)
      reads `encrypting, `nonce, `aad, `payloadExpected, `tagLength, ccm, ccm.ctr, ccm.mac, ccm.mblk, ccm.ks
    {
      && ccm.Valid() && ccm.encrypting == encrypting
      && ccm.nonce == nonce && ccm.aad == aad && ccm.payloadLen == payloadExpected && ccm.tagLen == tagLength
      && ccm.payload == payload
    }

    constructor (p: Primitives)
      ensures this.p == p && !active && Valid() && fresh(Repr() - {this})
    {
      this.p := p;
      ccm := new CcmContext(p.E);
      active, alg, encrypting, tagLength, nonce, aad := false, NotAead, true, 0, [], [];
      buffered, inputLength, adExpected, payloadExpected := [], 0, 0, 0;
      lengthsSet, adStarted, bodyStarted, streaming := false, false, false, false;
      calls, emitted := [], [];
    }

    /** wolfpsa_aead_setup; `keyStatus` is the outcome of the key checks. */
    method Setup(alg: Alg, atLeast: bool, tagLength: nat, encrypting: bool, keyStatus: Status) returns (status: Status)
      requires Valid()
      modifies this
      ensures Valid()
      ensures status == if old(active) then BadState else SetupStatus(alg, atLeast, tagLength, keyStatus)
      ensures status == Success ==> TagLengthOk(alg, tagLength)
      ensures status != Success ==> unchanged(this)
      ensures status == Success ==>
                && active && this.alg == alg && this.encrypting == encrypting && this.tagLength == tagLength
                && nonce == [] && aad == [] && buffered == [] && calls == [] && emitted == []
                && !lengthsSet && !adStarted && !bodyStarted && !streaming
    {
      if active {
        return BadState;
      }
      status := CheckSetup(alg, atLeast, tagLength, keyStatus);
      if status == Success {
        Begin(alg, tagLength, encrypting);
      }
    }

    /** The context that setup installs: cleared, then given its algorithm. */
    method Begin(alg: Alg, tagLength: nat, encrypting: bool)
      requires ccm.Shape() && ccm.E == p.E && TagLengthOk(alg, tagLength)
      modifies this
      ensures Valid()
      ensures active && this.alg == alg && this.encrypting == encrypting && this.tagLength == tagLength
      ensures nonce == [] && aad == [] && buffered == [] && calls == [] && emitted == [] && inputLength == 0
      ensures !lengthsSet && !adStarted && !bodyStarted && !streaming
    {
      hide CheckLengths, Crypt, Fed, WellFed, NonceLengthOk, TagLengthOk;
      ClearData();
      ClearPhase();
      active, this.alg, this.encrypting, this.tagLength := true, alg, encrypting, tagLength;
    }

    method ClearData()
      modifies `nonce, `aad, `buffered, `inputLength, `adExpected, `payloadExpected
      ensures nonce == aad == buffered == [] && inputLength == adExpected == payloadExpected == 0
    {
      nonce, aad, buffered, inputLength, adExpected, payloadExpected := [], [], [], 0, 0, 0;
    }

    method ClearPhase()
      modifies `lengthsSet, `adStarted, `bodyStarted, `streaming, `calls, `emitted
      ensures !lengthsSet && !adStarted && !bodyStarted && !streaming && calls == [] && emitted == []
    {
      lengthsSet, adStarted, bodyStarted, streaming := false, false, false, false;
      calls, emitted := [], [];
    }

    static method CheckSetup(alg: Alg, atLeast: bool, tagLength: nat, keyStatus: Status) returns (status: Status)
      ensures status == SetupStatus(alg, atLeast, tagLength, keyStatus)
    {
      if alg == NotAead {
        return NotSupported;
      }
      if atLeast {
        return InvalidArgument;
      }
      if alg == XChaCha20Poly1305 || alg == AsconAead128 {
        return NotSupported;
      }
      if keyStatus != Success {
        return keyStatus;
      }
      if tagLength == 0 {
        return InvalidArgument;
      }
      if alg == Ccm && !CcmSpec.ValidTagLength(tagLength) {
        return InvalidArgument;
      }
      if alg == Gcm && tagLength != 4 && tagLength != 8 && (tagLength < 12 || tagLength > 16) {
        return InvalidArgument;
      }
      if alg == ChaCha20Poly1305 && tagLength != 16 {
        return NotSupported;
      }
      return Success;
    }

    /** psa_aead_abort */
    method Abort()
      requires ccm.Shape() && ccm.E == p.E
      modifies `active
      ensures Valid() && !active
    {
      active := false;
    }

    /** psa_aead_set_lengths */
    method SetLengths(adLength: nat, payloadLength: nat) returns (status: Status)
      requires Valid() && adLength <= SIZE_MAX && payloadLength <= SIZE_MAX
      modifies `active, `adExpected, `payloadExpected, `lengthsSet
      ensures Valid()
      ensures status == LengthsStatus(old(View()), adLength, payloadLength)
      ensures active <==> status == Success
      ensures status == Success ==> lengthsSet && adExpected == adLength && payloadExpected == payloadLength
    {
      if !active {
        return BadState;
      }
      if lengthsSet || adStarted || bodyStarted {
        status := BadState;
      } else {
        status := CheckLengths(alg, |nonce|, adLength, payloadLength);
      }
      if status != Success {
        Abort();
        return;
      }
      adExpected, payloadExpected, lengthsSet := adLength, payloadLength, true;
    }

    /** psa_aead_set_nonce. A refused nonce leaves the operation as it was. */
    method SetNonce(n: seq<byte>) returns (status: Status)
      requires Valid() && |n| <= SIZE_MAX
      modifies `nonce
      ensures Valid()
      ensures status == NonceStatus(old(View()), |n|)
      ensures nonce == if status == Success then n else old(nonce)
    {
      if !active {
        return BadState;
      }
      if nonce != [] {
        return BadState;
      }
      if alg == Gcm {
        if |n| == 0 {
          return InvalidArgument;
        }
        if |n| < 12 || |n| > 24 {
          return NotSupported;
        }
      } else if alg == Ccm {
        if |n| < 7 || |n| > 13 {
          return InvalidArgument;
        }
      } else if |n| != 12 {
        return InvalidArgument;
      }
      if lengthsSet {
        status := CheckLengths(alg, |n|, adExpected, payloadExpected);
        if status != Success {
          return;
        }
      }
      nonce := n;
      return Success;
    }

    /** psa_aead_update_ad. Once the body has started the associated data is frozen:
        the attempt ends the operation. */
    method UpdateAd(data: seq<byte>) returns (status: Status)
      requires Valid() && |data| <= SIZE_MAX
      modifies `active, `aad, `adStarted
      ensures Valid()
      ensures status == AdStatus(old(View()), |data|)
      ensures active == (old(active) && !old(bodyStarted) && status != InvalidArgument)
      ensures aad == if status == Success then old(aad) + data else old(aad)
      ensures adStarted == (status == Success || old(adStarted))
    {
      if !active {
        return BadState;
      }
      if bodyStarted {
        Abort();
        return BadState;
      }
      if nonce == [] || (alg == Ccm && !lengthsSet) {
        return BadState;
      }
      if |data| == 0 {
        adStarted := true;
        return Success;
      }
      if lengthsSet && (|data| > SIZE_MAX - |aad| || |aad| + |data| > adExpected) {
        Abort();
        return InvalidArgument;
      }
      if |data| > SIZE_MAX - |aad| || |aad| + |data| > UINT32_MAX {
        Abort();
        return InvalidArgument;
      }
      aad := aad + data;
      adStarted := true;
      return Success;
    }

    /** One chunk through the CCM streaming code; the first call initialises it. */
    method StreamCcm(data: array<byte>, n: nat, output: array<byte>)
      requires Valid() && active && alg == Ccm && Ready() && buffered == []
      requires 0 < n <= data.Length && n <= output.Length
      requires inputLength + n <= payloadExpected && |aad| == adExpected
      requires data !in Repr() && output !in Repr()
      modifies ccm, ccm.ctr, ccm.mac, ccm.mblk, ccm.ks, output
      ensures CcmFollows(Streamed() + if encrypting then old(data[..n]) else output[..n])
      ensures output[..n] == Crypt(p, alg, nonce, inputLength, old(data[..n])) && output[n..] == old(output[n..])
    {
      hide CheckLengths, Fed, WellFed, CcmContext.MacAt, CcmContext.KeystreamAt;
      NothingFed(p, alg, nonce);
      if !streaming {
        CheckLengthsFits(|nonce|, adExpected, payloadExpected);
        var status := ccm.Init(encrypting, nonce, aad, payloadExpected, tagLength);
        assert status == Success;
      }
      assert |ccm.payload| == inputLength;
      ccm.Update(data, n, output);
    }

    /** One chunk through a wolfCrypt streaming primitive. */
    method StreamOther(data: array<byte>, n: nat, output: array<byte>)
      requires NonceLengthOk(alg, |nonce|) && alg != Ccm
      requires n <= data.Length && n <= output.Length
      modifies output
      ensures output[..n] == Crypt(p, alg, nonce, inputLength, old(data[..n])) && output[n..] == old(output[n..])
    {
      forall i | 0 <= i < n {
        output[i] := XorByte(data[i], p.keystream(alg, nonce, inputLength + i));
      }
    }

    /** psa_aead_update: a null `output` buffers the payload for the one-shot path,
        another streams it. `backend` is the result of the wolfCrypt call, if any. */
    method Update(input: array?<byte>, n: nat, output: array?<byte>, outputSize: nat, backend: Status)
      returns (status: Status, outputLength: nat)
      requires Valid() && n <= SIZE_MAX
      requires input != null ==> n <= input.Length && input !in Repr()
      requires output != null ==> outputSize <= output.Length && output !in Repr()
      modifies Repr() - {this} + (if output != null then {output} else {})
      modifies `active, `bodyStarted, `buffered, `inputLength, `streaming, `calls, `emitted
      ensures Valid()
      ensures status == UpdateStatus(old(View()), input != null, n, if output != null then Some(outputSize) else None, backend)
      ensures active == (old(active) && (status == Success || old(!Ready())))
      ensures status == Success ==> active && Ready()
      ensures status != Success || n == 0 || output == null ==> outputLength == 0
      ensures output != null ==> outputLength <= outputSize
      ensures alg == Ccm && output != null && (status != Success || n == 0) ==> output[..] == old(output[..])
      ensures bodyStarted == (old(bodyStarted) || status == Success)
      ensures streaming == (old(streaming) || (status == Success && 0 < n && output != null))
      ensures active ==>
                Payload() == old(Payload()) + (if status == Success && n > 0 then old(input[..n]) else [])
      ensures active ==>
                emitted == old(emitted) + (if status == Success && n > 0 && output != null then output[..n] else [])
      ensures status == Success && (n == 0 || output != null) ==> buffered == old(buffered)
      ensures status == Success && n == 0 ==> calls == old(calls)
      ensures status == Success && n == 0 ==> inputLength == old(inputLength)
      ensures status == Success && 0 < n && output == null ==>
                buffered == old(buffered) + old(input[..n])
      ensures status == Success && 0 < n && output != null ==>
                && outputLength == n
                && output[..n] == Crypt(p, alg, nonce, old(inputLength), old(input[..n]))
                && output[n..] == old(output[n..])
                && calls == old(if streaming then calls else [Start(aad)]) + [Data(old(input[..n]))]
    {
      hide CheckLengths, Crypt, Fed, WellFed, TagLengthOk, NonceLengthOk, LengthsValid, PhaseValid, StreamValid;
      hide UpdateStatus, CcmFollows;
      outputLength := 0;
      status := CheckUpdate(input != null, n, if output != null then Some(outputSize) else None, backend);
      if status != Success {
        if active && nonce != [] && (alg != Ccm || lengthsSet) {
          Abort();
        }
        return;
      }
      BeginBody(n);
      if n > 0 {
        outputLength := PutChunk(input, n, output);
      }
    }

    /** A checked chunk: buffered without an output buffer, otherwise streamed. */
    method PutChunk(input: array<byte>, n: nat, output: array?<byte>) returns (outputLength: nat)
      requires Valid() && active && bodyStarted
      requires 0 < n <= input.Length && input !in Repr()
      requires output == null ==> !streaming
      requires output != null ==> n <= output.Length && output !in Repr() && buffered == []
      requires lengthsSet ==> inputLength + n <= payloadExpected
      modifies Repr() - {this} + (if output != null then {output} else {})
      modifies `buffered, `inputLength, `streaming, `calls, `emitted
      ensures Valid() && Payload() == old(Payload()) + old(input[..n])
      ensures output == null ==>
                && outputLength == 0 && !streaming && emitted == old(emitted)
                && buffered == old(buffered) + old(input[..n])
      ensures output != null ==>
                && outputLength == n && streaming && buffered == [] && emitted == old(emitted) + output[..n]
                && output[..n] == Crypt(p, alg, nonce, old(inputLength), old(input[..n]))
                && output[n..] == old(output[n..])
                && calls == old(if streaming then calls else [Start(aad)]) + [Data(old(input[..n]))]
    {
      hide CheckLengths, Crypt, Fed, WellFed, TagLengthOk, NonceLengthOk, LengthsValid, StreamValid;
      if output == null {
        BufferChunk(input[..n]);
        return 0;
      }
      StreamChunk(input, n, output);
      return n;
    }

    /** The checks of psa_aead_update. */
    method CheckUpdate(hasInput: bool, n: nat, outputSize: Option<nat>, backend: Status) returns (status: Status)
      requires Valid() && n <= SIZE_MAX
      ensures status == UpdateStatus(View(), hasInput, n, outputSize, backend)
      ensures status == Success ==>
                && active && Ready()
                && (lengthsSet ==> |aad| == adExpected && inputLength + n <= payloadExpected)
                && (n > 0 ==> hasInput && if outputSize.Some? then buffered == [] && n <= outputSize.value else !streaming)
    {
      if !active {
        return BadState;
      }
      SeenAs();
      hide View, IsReady, TotalsMet, Valid;
      if (alg == Ccm && !lengthsSet) || nonce == [] {
        return BadState;
      }
      if lengthsSet && |aad| != adExpected {
        return InvalidArgument;
      }
      if lengthsSet && (n > SIZE_MAX - inputLength || inputLength + n > payloadExpected) {
        return InvalidArgument;
      }
      if !hasInput && n > 0 {
        return InvalidArgument;
      }
      if n == 0 {
        return Success;
      }
      if outputSize == None {
        return if streaming then BadState else Success;
      }
      if buffered != [] {
        return BadState;
      }
      if outputSize.value < n {
        return BufferTooSmall;
      }
      if n > UINT32_MAX {
        return InvalidArgument;
      }
      return if alg == Ccm then Success else backend;
    }

    /** From here on the associated data is frozen. */
    method BeginBody(n: nat)
      requires Valid() && active && Ready()
      requires lengthsSet ==> |aad| == adExpected && inputLength + n <= payloadExpected
      modifies `bodyStarted
      ensures Valid() && bodyStarted
    {
      hide LengthsValid, StreamValid;
      bodyStarted := true;
    }

    /** The one-shot path keeps the payload until finish or verify. */
    method BufferChunk(data: seq<byte>)
      requires Valid() && active && bodyStarted && !streaming
      requires lengthsSet ==> inputLength + |data| <= payloadExpected
      modifies `buffered, `inputLength
      ensures Valid() && buffered == old(buffered) + data
    {
      hide CheckLengths, Crypt, Fed, WellFed, CcmFollows, TagLengthOk, NonceLengthOk;
      buffered := buffered + data;
      inputLength := inputLength + |data|;
    }

    /** wolfpsa_aead_stream_update and the bookkeeping behind it. */
    method StreamChunk(data: array<byte>, n: nat, output: array<byte>)
      requires Valid() && active && bodyStarted && buffered == []
      requires 0 < n <= data.Length && n <= output.Length
      requires lengthsSet ==> inputLength + n <= payloadExpected
      requires data !in Repr() && output !in Repr()
      modifies ccm, ccm.ctr, ccm.mac, ccm.mblk, ccm.ks, output, `inputLength, `streaming, `calls, `emitted
      ensures Valid()
      ensures output[..n] == Crypt(p, alg, nonce, old(inputLength), old(data[..n]))
      ensures output[n..] == old(output[n..])
      ensures streaming && emitted == old(emitted) + output[..n]
      ensures calls == old(if streaming then calls else [Start(aad)]) + [Data(old(data[..n]))]
      ensures Payload() == old(Payload()) + old(data[..n])
    {
      hide CheckLengths, Crypt, Fed, WellFed;
      var bytes := data[..n];
      NothingFed(p, alg, nonce);
      if alg == Ccm {
        StreamCcm(data, n, output);
      } else {
        StreamOther(data, n, output);
      }
      Record(n, bytes, output[..n]);
    }

    /** The bookkeeping behind a chunk that was streamed. */
    method Record(n: nat, bytes: seq<byte>, ghost out: seq<byte>)
      requires n == |bytes|
      requires ccm.Shape() && ccm.E == p.E && LengthsValid() && PhaseValid() && bodyStarted && buffered == []
      requires lengthsSet ==> inputLength + |bytes| <= payloadExpected
      requires if streaming then WellFed(calls, aad) else calls == []
      requires inputLength == |Fed(calls)| && emitted == Crypt(p, alg, nonce, 0, Fed(calls))
      requires out == Crypt(p, alg, nonce, inputLength, bytes)
      requires alg == Ccm ==> CcmFollows(Streamed() + if encrypting then bytes else out)
      modifies `inputLength, `streaming, `calls, `emitted
      ensures Valid()
      ensures streaming && emitted == old(emitted) + out && inputLength == old(inputLength) + |bytes|
      ensures calls == old(if streaming then calls else [Start(aad)]) + [Data(bytes)]
      ensures Fed(calls) == old(Fed(calls)) + bytes
    {
      hide CheckLengths, Crypt, Fed, WellFed, CcmFollows, TagLengthOk, NonceLengthOk;
      FedGrows(calls, aad, streaming, bytes);
      CryptAppend(p, alg, nonce, 0, Fed(calls), bytes);
      Note((if streaming then calls else [Start(aad)]) + [Data(bytes)], emitted + out, inputLength + n);
    }

    method Note(calls: seq<Call>, ghost emitted: seq<byte>, length: nat)
      modifies `inputLength, `streaming, `calls, `emitted
      ensures this.calls == calls && this.emitted == emitted && inputLength == length && streaming
    {
      this.calls, this.emitted, inputLength, streaming := calls, emitted, length, true;
    }

    /** The algorithm, the tag length and the nonce suit each other, and the payload is counted. */
    lemma ParametersOk()
      requires Valid() && active
      ensures TagLengthOk(alg, tagLength) && (nonce == [] || NonceLengthOk(alg, |nonce|))
      ensures inputLength == |Payload()|
    {
    }

    /** The fields against what callers know. */
    lemma SeenAs()
      requires Valid() && active
      ensures var v := View();
              && v.active && v.alg == alg && v.tagLength == tagLength && v.encrypting == encrypting
              && v.streaming == streaming && |v.input| == inputLength
              && v.declared == (if lengthsSet then Some((adExpected, payloadExpected)) else None)
              && |v.aad| == |aad|
              && (IsReady(v) <==> Ready()) && (TotalsMet(v) <==> TotalsMatch())
              && (!v.streaming && v.input != [] <==> buffered != [])
    {
      hide CheckLengths, Crypt, Fed, WellFed, TagLengthOk, NonceLengthOk, CcmFollows;
    }

    // ----- finish and verify -----

    ghost predicate TotalsMatch()
      reads this
    {
      lengthsSet ==> |aad| == adExpected && inputLength == payloadExpected
    }

    /** The checks of wolfpsa_aead_encrypt_final and the outcome of what it calls. */
    method CheckFinish(ciphertextSize: nat, tagSize: nat, backend: Status) returns (status: Status)
      requires Valid()
      ensures status == FinishStatus(View(), ciphertextSize, tagSize, backend)
      ensures status == Success ==>
                && active && encrypting && Ready() && TotalsMatch()
                && tagLength <= tagSize && (streaming || inputLength <= ciphertextSize)
    {
      if !active {
        return BadState;
      }
      SeenAs();
      hide View, IsReady, TotalsMet, Valid;
      if !encrypting {
        return BadState;
      }
      if nonce == [] || (alg == Ccm && !lengthsSet) {
        return BadState;
      }
      if lengthsSet && (|aad| != adExpected || inputLength != payloadExpected) {
        return InvalidArgument;
      }
      if !streaming {
        if alg == ChaCha20Poly1305 && inputLength > SIZE_MAX - tagLength {
          return BufferTooSmall;
        }
        if ciphertextSize < inputLength {
          return BufferTooSmall;
        }
      }
      if tagSize < tagLength {
        return BufferTooSmall;
      }
      if !streaming && inputLength > UINT32_MAX {
        return InvalidArgument;
      }
      return if alg == Ccm && streaming then Success else backend;
    }

    /** The encrypting side of wolfpsa_aead_stream_final. */
    method StreamTag(tag: array<byte>)
      requires Valid() && active && encrypting && streaming && Ready() && TotalsMatch()
      requires tagLength <= tag.Length && tag !in Repr()
      modifies ccm.mac, tag
      ensures tag[..tagLength] == Tag(p, alg, nonce, aad, Payload(), tagLength)
    {
      hide CheckLengths, Crypt, Fed, WellFed;
      if alg == Ccm {
        ccm.Finish(tag, tagLength);
      } else {
        var t := ContextTag();
        CopyInto(tag, 0, t);
      }
    }

    /** The tag inside a wolfCrypt context. It knows the calls made into it and nothing
        else: the associated data it was started with, and the data that followed. */
    method ContextTag() returns (t: seq<byte>)
      requires Valid() && active && streaming && alg != Ccm
      ensures NonceLengthOk(alg, |nonce|)
      ensures t == Tag(p, alg, nonce, aad, if encrypting then Payload() else Crypt(p, alg, nonce, 0, Payload()), tagLength)
    {
      hide CheckLengths, Crypt, Fed, CcmFollows;
      var text := if encrypting then Fed(calls) else Crypt(p, alg, nonce, 0, Fed(calls));
      var started := calls[0].aad;
      t := p.tag(alg, nonce, started, text)[..tagLength];
    }

    /** The tag of a one-shot wolfCrypt call on buffered data. */
    method OneShotTag(text: seq<byte>) returns (t: seq<byte>)
      requires NonceLengthOk(alg, |nonce|) && TagLengthOk(alg, tagLength)
      ensures t == Tag(p, alg, nonce, aad, text, tagLength)
    {
      if alg == Ccm {
        t := CcmSpec.Tag(p.E, CcmSpec.Message(nonce, aad, text, tagLength));
      } else {
        t := p.tag(alg, nonce, aad, text)[..tagLength];
      }
    }

    /** A one-shot wolfCrypt call over the buffered payload. */
    method OneShot(output: array<byte>)
      requires NonceLengthOk(alg, |nonce|) && |buffered| <= output.Length
      modifies output
      ensures output[..|buffered|] == Crypt(p, alg, nonce, 0, buffered)
    {
      var out := Crypt(p, alg, nonce, 0, buffered);
      CopyInto(output, 0, out);
    }

    /** What finish writes: the rest of the ciphertext, and the tag. */
    method Emit(ciphertext: array<byte>, tag: array<byte>) returns (ciphertextLength: nat)
      requires Valid() && active && encrypting && Ready() && TotalsMatch()
      requires tagLength <= tag.Length && (streaming || inputLength <= ciphertext.Length)
      requires ciphertext != tag && tag !in Repr() && ciphertext !in Repr()
      modifies ccm.mac, ciphertext, tag
      ensures ciphertextLength <= ciphertext.Length
      ensures tag[..tagLength] == Tag(p, alg, nonce, aad, Payload(), tagLength)
      ensures emitted + ciphertext[..ciphertextLength] == Crypt(p, alg, nonce, 0, Payload())
    {
      hide CheckLengths, Crypt, Fed, WellFed, Tag;
      if streaming {
        StreamTag(tag);
        return 0;
      }
      OneShot(ciphertext);
      var t := OneShotTag(buffered);
      CopyInto(tag, 0, t);
      return inputLength;
    }

    /** psa_aead_finish. `backend` is the result of the wolfCrypt calls on the paths
        that have one. */
    method Finish(ciphertext: array<byte>, ciphertextSize: nat, tag: array<byte>, tagSize: nat, backend: Status)
      returns (status: Status, ciphertextLength: nat, tagLen: nat)
      requires Valid() && ciphertextSize <= ciphertext.Length && tagSize <= tag.Length && ciphertext != tag
      requires ciphertext !in Repr() && tag !in Repr()
      modifies `active, ccm.mac, ciphertext, tag
      ensures Valid()
      ensures status == FinishStatus(old(View()), ciphertextSize, tagSize, backend)
      ensures active == (old(active) && !encrypting)
      ensures status != Success ==> ciphertextLength == tagLen == 0
      ensures alg == Ccm && status != Success ==> ciphertext[..] == old(ciphertext[..]) && tag[..] == old(tag[..])
      ensures status == Success ==>
                && old(active) && Ready() && TotalsMatch()
                && tagLen == tagLength <= tag.Length && ciphertextLength <= ciphertext.Length
                && tag[..tagLen] == Tag(p, alg, nonce, aad, Payload(), tagLength)
                && (alg != Ccm ==> tag[..tagLen] == p.tag(alg, nonce, aad, Payload())[..tagLength])
                && emitted + ciphertext[..ciphertextLength] == Crypt(p, alg, nonce, 0, Payload())
    {
      hide CheckLengths, Crypt, Fed, WellFed, Tag, StreamValid, PhaseValid;
      ciphertextLength, tagLen := 0, 0;
      status := CheckFinish(ciphertextSize, tagSize, backend);
      if status == Success {
        ciphertextLength := Emit(ciphertext, tag);
        tagLen := tagLength;
        if alg != Ccm {
          TagIsPrimitive(p, alg, nonce, aad, Payload(), tagLength);
        }
      }
      if active && encrypting {
        Abort();
      }
    }

    /** The plaintext a decryption has recovered, streamed or still buffered. */
    function Plaintext(): seq<byte>
      reads this
      requires NonceLengthOk(alg, |nonce|)
    {
      Crypt(p, alg, nonce, 0, Payload())
    }

    ghost predicate TagAccepted(tag: seq<byte>)
      reads this
      requires NonceLengthOk(alg, |nonce|) && TagLengthOk(alg, tagLength)
    {
      tag == Tag(p, alg, nonce, aad, Plaintext(), tagLength)
    }

    /** The checks of wolfpsa_aead_decrypt_final before the tag comparison. */
    method CheckVerify(plaintextSize: nat, tagLen: nat, backend: Status) returns (status: Status)
      requires Valid()
      ensures status == VerifyStatus(View(), plaintextSize, tagLen, backend)
      ensures status == Success ==>
                && active && !encrypting && Ready() && TotalsMatch()
                && tagLen == tagLength && (streaming || inputLength <= plaintextSize)
    {
      if !active {
        return BadState;
      }
      SeenAs();
      hide View, IsReady, TotalsMet, Valid;
      if encrypting {
        return BadState;
      }
      if nonce == [] || (alg == Ccm && !lengthsSet) {
        return BadState;
      }
      if lengthsSet && (|aad| != adExpected || inputLength != payloadExpected) {
        return InvalidArgument;
      }
      if tagLen != tagLength {
        return InvalidSignature;
      }
      if !streaming && plaintextSize < inputLength {
        return BufferTooSmall;
      }
      if !streaming && inputLength > UINT32_MAX {
        return InvalidArgument;
      }
      if alg == Ccm && streaming {
        return Success;
      }
      if alg == ChaCha20Poly1305 && !streaming && backend != Success {
        return InvalidSignature;
      }
      return backend;
    }

    /** The tag comparison: byte by byte for streamed CCM, inside wolfCrypt otherwise. */
    method CompareTag(tag: seq<byte>) returns (status: Status)
      requires Valid() && active && !encrypting && Ready() && TotalsMatch() && |tag| == tagLength
      modifies ccm.mac
      ensures status == if TagAccepted(tag) then Success else InvalidSignature
      ensures streaming ==> emitted == Plaintext()
    {
      hide CheckLengths, Crypt, Fed, WellFed;
      if alg == Ccm && streaming {
        status := ccm.CheckTag(tag);
      } else {
        var t;
        if streaming {
          t := ContextTag();
        } else {
          t := OneShotTag(Crypt(p, alg, nonce, 0, buffered));
        }
        status := if t == tag then Success else InvalidSignature;
      }
    }

    /** The verdict on the tag, and the buffered payload when it is right. */
    method Recover(plaintext: array<byte>, tag: seq<byte>) returns (status: Status, plaintextLength: nat)
      requires Valid() && active && !encrypting && Ready() && TotalsMatch() && |tag| == tagLength
      requires (streaming || inputLength <= plaintext.Length) && plaintext !in Repr()
      modifies ccm.mac, plaintext
      ensures status == if TagAccepted(tag) then Success else InvalidSignature
      ensures plaintextLength <= plaintext.Length && (status != Success ==> plaintextLength == 0)
      ensures status == Success ==> emitted + plaintext[..plaintextLength] == Plaintext()
    {
      hide CheckLengths, Crypt, Fed, WellFed, Tag;
      status := CompareTag(tag);
      plaintextLength := 0;
      if status == Success && !streaming {
        OneShot(plaintext);
        plaintextLength := inputLength;
      }
    }

    /** psa_aead_verify. `backend` is the result of the wolfCrypt calls on the paths
        that have one, apart from their verdict on the tag. */
    method Verify(plaintext: array<byte>, plaintextSize: nat, tag: seq<byte>, backend: Status)
      returns (status: Status, plaintextLength: nat)
      requires Valid() && plaintextSize <= plaintext.Length && plaintext !in Repr()
      modifies `active, ccm.mac, plaintext
      ensures Valid()
      ensures active == (old(active) && encrypting)
      ensures var checked := VerifyStatus(old(View()), plaintextSize, |tag|, backend);
              status == if checked != Success then checked
                        else if TagRight(p, old(View()), tag) then Success
                        else InvalidSignature
      ensures status != Success ==> plaintextLength == 0
      ensures status == Success ==>
                && old(active) && Ready() && TotalsMatch() && TagAccepted(tag)
                && (alg != Ccm ==> tag == p.tag(alg, nonce, aad, Crypt(p, alg, nonce, 0, Payload()))[..tagLength])
                && plaintextLength <= plaintext.Length && emitted + plaintext[..plaintextLength] == Plaintext()
    {
      hide CheckLengths, Crypt, Fed, WellFed, Tag, StreamValid, PhaseValid;
      hide LengthsValid, TagLengthOk, NonceLengthOk;
      if active {
        ParametersOk();
      }
      plaintextLength := 0;
      status := CheckVerify(plaintextSize, |tag|, backend);
      if status == Success {
        status, plaintextLength := Recover(plaintext, tag);
        if alg != Ccm {
          TagIsPrimitive(p, alg, nonce, aad, Plaintext(), tagLength);
        }
      }
      if active && !encrypting {
        Abort();
      }
    }
  }

  lemma NothingFed(p: Primitives, alg: Alg, nonce: seq<byte>)
    requires NonceLengthOk(alg, |nonce|)
    ensures Fed([]) == [] && Crypt(p, alg, nonce, 0, []) == []
  {
  }

  lemma FedGrows(calls: seq<Call>, aad: seq<byte>, streaming: bool, data: seq<byte>)
    requires if streaming then WellFed(calls, aad) else calls == []
    ensures var calls' := (if streaming then calls else [Start(aad)]) + [Data(data)];
            WellFed(calls', aad) && Fed(calls') == Fed(calls) + data
    ensures !streaming ==> Fed(calls) == []
  {
    var before := if streaming then calls else [Start(aad)];
    var calls' := before + [Data(data)];
    assert calls'[..|calls'| - 1] == before;
    if !streaming {
      assert before[..0] == [];
      assert Fed(before) == Fed([]) + [];
    }
  }
}
