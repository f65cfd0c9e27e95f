/** Whole messages through the multipart AEAD operation, split into any chunks:
    the operation computes the AEAD of the concatenations, streamed or buffered,
    and decryption undoes encryption whichever way either side splits its data. */
module AeadMessages {
  import opened AeadOperation
  import opened Bytes
  import CcmSpec
  import opened Psa

  /** The parameters one message is processed under. */
  datatype Params = Params(p: Primitives, alg: Alg, tagLength: nat, nonce: seq<byte>)

  /** How a caller declares the lengths: before the nonce, behind it, or not at all,
      which CCM does not allow. */
  datatype Lengths = First | Second | Undeclared

  /** What the algorithm and the calls can take: the lengths in numbers. */
  predicate Usable(k: Params, lengths: Lengths, stream: bool, aadLen: nat, payloadLen: nat) {
    && TagLengthOk(k.alg, k.tagLength) && NonceLengthOk(k.alg, |k.nonce|)
    && aadLen <= UINT32_MAX
    && (if lengths == Undeclared then k.alg != Ccm
        else payloadLen <= SIZE_MAX && LengthsFit(k.alg, |k.nonce|, aadLen, payloadLen))
    && (stream || payloadLen <= UINT32_MAX)
  }

  /** Every chunk fits one call of the API. */
  ghost predicate Chunked(chunks: seq<seq<byte>>) {
    forall i :: 0 <= i < |chunks| ==> |chunks[i]| <= UINT32_MAX
  }

  function Seal(k: Params, aad: seq<byte>, payload: seq<byte>): (r: (seq<byte>, seq<byte>))
    requires TagLengthOk(k.alg, k.tagLength) && NonceLengthOk(k.alg, |k.nonce|)
  {
    (Crypt(k.p, k.alg, k.nonce, 0, payload), Tag(k.p, k.alg, k.nonce, aad, payload, k.tagLength))
  }

  function Open(k: Params, aad: seq<byte>, ciphertext: seq<byte>, tag: seq<byte>): (r: Option<seq<byte>>)
    requires TagLengthOk(k.alg, k.tagLength) && NonceLengthOk(k.alg, |k.nonce|)
  {
    var payload := Crypt(k.p, k.alg, k.nonce, 0, ciphertext);
    if Tag(k.p, k.alg, k.nonce, aad, payload, k.tagLength) == tag then Some(payload) else None
  }

  /** For CCM the two are the processes of SP 800-38C sections 6.1 and 6.2. */
  lemma CcmIsSp80038C(k: Params, aad: seq<byte>, text: seq<byte>, tag: seq<byte>)
    requires k.alg == Ccm && TagLengthOk(k.alg, k.tagLength) && NonceLengthOk(k.alg, |k.nonce|)
    ensures Seal(k, aad, text) == CcmSpec.Encrypt(k.p.E, CcmSpec.Message(k.nonce, aad, text, k.tagLength))
    ensures |tag| == k.tagLength ==> Open(k, aad, text, tag) == CcmSpec.Decrypt(k.p.E, k.nonce, aad, text, tag)
  {
  }

  /** Streaming decryption undoes streaming encryption for any two ways of splitting
      associated data and payload, and accepts the tag. */
  lemma OpenUndoesSeal(k: Params, sentAds: seq<seq<byte>>, sent: seq<seq<byte>>,
                       ads: seq<seq<byte>>, received: seq<seq<byte>>)
    requires TagLengthOk(k.alg, k.tagLength) && NonceLengthOk(k.alg, |k.nonce|)
    requires Flatten(ads) == Flatten(sentAds)
    requires Flatten(received) == Seal(k, Flatten(sentAds), Flatten(sent)).0
    ensures Open(k, Flatten(ads), Flatten(received), Seal(k, Flatten(sentAds), Flatten(sent)).1) == Some(Flatten(sent))
  {
    CryptInvolutive(k.p, k.alg, k.nonce, 0, Flatten(sent));
  }

  /** Declared lengths admit `payloadLen` bytes in all, and no more. */
  ghost predicate Room(op: AeadOperation, payloadLen: nat)
    reads op
  {
    op.lengthsSet ==> op.payloadExpected == payloadLen
  }

  /** The operation is set up for the message `k`, and its associated data is in. */
  ghost predicate Begun(op: AeadOperation, k: Params, encrypting: bool, aad: seq<byte>, payloadLen: nat)
    reads op, op.Repr()
  {
    && op.Valid() && op.active && op.encrypting == encrypting
    && op.p == k.p && op.alg == k.alg && op.tagLength == k.tagLength && op.nonce == k.nonce && op.aad == aad
    && Room(op, payloadLen) && op.Ready() && (op.lengthsSet ==> op.adExpected == |aad|)
  }

  /** Setup, lengths and nonce in either order or the nonce alone, then the associated data. */
  method Begin(k: Params, encrypting: bool, lengths: Lengths, ghost stream: bool, ads: seq<seq<byte>>, payloadLen: nat)
    returns (op: AeadOperation)
    requires Usable(k, lengths, stream, |Flatten(ads)|, payloadLen)
    ensures fresh(op) && fresh(op.Repr())
    ensures Begun(op, k, encrypting, Flatten(ads), payloadLen) && op.Payload() == [] && op.emitted == []
    ensures !op.bodyStarted && op.buffered == [] && !op.streaming
  {
    hide CheckLengths, Crypt, Tag, Fed, WellFed, Flatten;
    hide AeadOperation.LengthsValid, AeadOperation.PhaseValid, AeadOperation.StreamValid;
    op := new AeadOperation(k.p);
    var status := op.Setup(k.alg, false, k.tagLength, encrypting, Success);
    assert status == Success;
    Declare(op, k, lengths, stream, |Flatten(ads)|, payloadLen);
    FeedAad(op, ads);
  }

  lemma LengthsBeforeNonce(alg: Alg, nonceLen: nat, adLen: nat, payloadLen: nat)
    requires NonceLengthOk(alg, nonceLen) && adLen <= SIZE_MAX && payloadLen <= SIZE_MAX
    requires CheckLengths(alg, nonceLen, adLen, payloadLen) == Success
    ensures CheckLengths(alg, 0, adLen, payloadLen) == Success && adLen <= UINT32_MAX
  {
  }

  method Declare(op: AeadOperation, k: Params, lengths: Lengths, ghost stream: bool, adLen: nat, payloadLen: nat)
    requires op.Valid() && op.active && Usable(k, lengths, stream, adLen, payloadLen)
    requires op.alg == k.alg && op.tagLength == k.tagLength
    requires op.nonce == op.aad == [] && !op.lengthsSet && !op.adStarted && !op.bodyStarted
    modifies op`active, op`adExpected, op`payloadExpected, op`lengthsSet, op`nonce
    ensures op.Valid() && op.active && op.nonce == k.nonce && op.lengthsSet == (lengths != Undeclared)
    ensures op.lengthsSet ==> op.adExpected == adLen && op.payloadExpected == payloadLen
  {
    hide CheckLengths, Crypt, Tag, Fed, WellFed;
    var status;
    if lengths == Undeclared {
      status := op.SetNonce(k.nonce);
    } else {
      CheckLengthsExact(k.alg, |k.nonce|, adLen, payloadLen);
      CheckLengthsExact(k.alg, 0, adLen, payloadLen);
      hide LengthsFit;
      if lengths == First {
        status := op.SetLengths(adLen, payloadLen);
        status := op.SetNonce(k.nonce);
      } else {
        status := op.SetNonce(k.nonce);
        status := op.SetLengths(adLen, payloadLen);
      }
    }
    assert status == Success;
  }

  method FeedAad(op: AeadOperation, ads: seq<seq<byte>>)
    requires op.Valid() && op.active && op.Ready() && op.aad == [] && !op.bodyStarted
    requires |Flatten(ads)| <= UINT32_MAX && (op.lengthsSet ==> op.adExpected == |Flatten(ads)|)
    modifies op`active, op`aad, op`adStarted
    ensures op.Valid() && op.active && op.aad == Flatten(ads)
  {
    hide CheckLengths, Crypt, Tag, Fed, WellFed;
    var i := 0;
    while i < |ads|
      invariant 0 <= i <= |ads|
      invariant op.Valid() && op.active && op.aad == Flatten(ads[..i])
      modifies op`active, op`aad, op`adStarted
    {
      FlattenTake(ads, i);
      FlattenPrefix(ads, i + 1);
      var status := op.UpdateAd(ads[i]);
      assert status == Success;
      i := i + 1;
    }
    assert ads[..i] == ads;
  }

  /** psa_aead_update with an output buffer of the given size, or without one. */
  method PutData(op: AeadOperation, data: seq<byte>, outputSize: Option<nat>, backend: Status)
    returns (status: Status, out: seq<byte>)
    requires op.Valid() && |data| <= SIZE_MAX
    modifies op.Repr() - {op}, op`active, op`bodyStarted, op`buffered, op`inputLength, op`streaming, op`calls, op`emitted
    ensures op.Valid()
    ensures status == UpdateStatus(old(op.View()), true, |data|, outputSize, backend)
    ensures op.active == (old(op.active) && (status == Success || old(!op.Ready())))
    ensures op.active ==> op.Payload() == old(op.Payload()) + if status == Success then data else []
    ensures op.active ==> op.emitted == old(op.emitted) + out
    ensures op.bodyStarted == (old(op.bodyStarted) || status == Success)
    ensures op.streaming == (old(op.streaming) || (status == Success && data != [] && outputSize.Some?))
    ensures status != Success || outputSize == None ==> out == []
    ensures status == Success && outputSize.Some? ==> op.buffered == old(op.buffered)
    ensures status == Success && outputSize.Some? ==>
              && NonceLengthOk(op.alg, |op.nonce|)
              && out == Crypt(op.p, op.alg, op.nonce, |old(op.Payload())|, data)
  {
    hide CheckLengths, Crypt, Tag, Fed, WellFed, TagLengthOk, NonceLengthOk, UpdateStatus;
    hide AeadOperation.LengthsValid, AeadOperation.PhaseValid, AeadOperation.StreamValid;
    if op.active {
      op.ParametersOk();
    }
    var input := ArrayOf(data);
    assert input[..|data|] == data;
    var output := new byte[if outputSize.Some? then outputSize.value else 0](i => 0);
    var n;
    status, n := op.Update(input, |data|, if outputSize.Some? then output else null, output.Length, backend);
    out := if status == Success then output[..n] else [];
  }

  /** One chunk of a message that is streamed throughout or buffered throughout. */
  method FeedChunk(op: AeadOperation, chunk: seq<byte>, stream: bool) returns (out: seq<byte>)
    requires op.Valid() && op.active && op.Ready() && |chunk| <= UINT32_MAX
    requires op.lengthsSet ==> |op.aad| == op.adExpected && |op.Payload()| + |chunk| <= op.payloadExpected
    requires if stream then op.buffered == [] else !op.streaming
    modifies op.Repr() - {op}, op`active, op`bodyStarted, op`buffered, op`inputLength, op`streaming, op`calls, op`emitted
    ensures op.Valid() && op.active && op.Payload() == old(op.Payload()) + chunk
    ensures op.emitted == old(op.emitted) + out
    ensures if stream then op.buffered == [] else !op.streaming
  {
    op.SeenAs();
    hide Crypt, NonceLengthOk, IsReady, AeadOperation.Valid, AeadOperation.View;
    var status;
    status, out := PutData(op, chunk, if stream then Some(|chunk|) else None, Success);
  }

  method ArrayOf(s: seq<byte>) returns (a: array<byte>)
    ensures fresh(a) && a[..] == s
  {
    a := new byte[|s|](i requires 0 <= i < |s| => s[i]);
  }

  method FeedPayload(op: AeadOperation, chunks: seq<seq<byte>>, stream: bool) returns (out: seq<byte>)
    requires op.Valid() && op.active && op.Ready() && (op.lengthsSet ==> |op.aad| == op.adExpected)
    requires op.Payload() == [] && op.emitted == [] && op.buffered == [] && !op.streaming
    requires Chunked(chunks) && Room(op, |Flatten(chunks)|)
    modifies op.Repr() - {op}, op`active, op`bodyStarted, op`buffered, op`inputLength, op`streaming, op`calls, op`emitted
    ensures op.Valid() && op.active && op.Payload() == Flatten(chunks)
    ensures op.emitted == out && op.inputLength == |Flatten(chunks)|
    ensures if stream then op.buffered == [] else !op.streaming
  {
    hide CheckLengths, Crypt, Tag, Fed, WellFed;
    out := [];
    var i := 0;
    while i < |chunks|
      invariant 0 <= i <= |chunks|
      invariant op.Valid() && op.active && op.Payload() == Flatten(chunks[..i])
      invariant op.emitted == out
      invariant if stream then op.buffered == [] else !op.streaming
      modifies op.Repr() - {op}, op`active, op`bodyStarted, op`buffered, op`inputLength, op`streaming, op`calls, op`emitted
    {
      FlattenTake(chunks, i);
      FlattenPrefix(chunks, i + 1);
      var part := FeedChunk(op, chunks[i], stream);
      out := out + part;
      i := i + 1;
    }
    assert chunks[..i] == chunks;
  }

  method FinishMessage(op: AeadOperation) returns (rest: seq<byte>, tag: seq<byte>)
    requires op.Valid() && op.active && op.encrypting && op.Ready() && op.TotalsMatch()
    requires !op.streaming ==> op.inputLength <= UINT32_MAX
    modifies op`active, op.ccm.mac
    ensures op.emitted + rest == Crypt(op.p, op.alg, op.nonce, 0, op.Payload())
    ensures tag == Tag(op.p, op.alg, op.nonce, op.aad, op.Payload(), op.tagLength)
  {
    op.SeenAs();
    hide CheckLengths, Crypt, Tag, Fed, WellFed, IsReady, TotalsMet;
    hide AeadOperation.LengthsValid, AeadOperation.PhaseValid, AeadOperation.StreamValid;
    var ciphertext := new byte[op.inputLength](i => 0);
    var t := new byte[op.tagLength](i => 0);
    var status, n, tagLen := op.Finish(ciphertext, op.inputLength, t, op.tagLength, Success);
    rest, tag := ciphertext[..n], t[..tagLen];
  }

  method VerifyMessage(op: AeadOperation, tag: seq<byte>) returns (accepted: bool, rest: seq<byte>)
    requires op.Valid() && op.active && !op.encrypting && op.Ready() && op.TotalsMatch()
    requires !op.streaming ==> op.inputLength <= UINT32_MAX
    modifies op`active, op.ccm.mac
    ensures accepted <==> op.TagAccepted(tag)
    ensures accepted ==> op.emitted + rest == op.Plaintext()
  {
    op.SeenAs();
    hide CheckLengths, Crypt, Tag, Fed, WellFed, IsReady, TotalsMet;
    hide AeadOperation.LengthsValid, AeadOperation.PhaseValid, AeadOperation.StreamValid;
    var plaintext := new byte[op.inputLength](i => 0);
    var status, n := op.Verify(plaintext, op.inputLength, tag, Success);
    accepted, rest := status == Success, plaintext[..n];
  }

  /** Byte by byte under the keystream of wolfCrypt. */
  ghost predicate Keyed(k: Params, input: seq<byte>, output: seq<byte>) {
    |output| == |input| && forall i :: 0 <= i < |input| ==> output[i] == XorByte(input[i], k.p.keystream(k.alg, k.nonce, i))
  }

  /** What GCM and ChaCha20-Poly1305 make of a message: the keystream of wolfCrypt over
      the plaintext, and its tag over nonce, associated data and plaintext. */
  lemma SealedByPrimitives(k: Params, aad: seq<byte>, text: seq<byte>)
    requires k.alg != Ccm && TagLengthOk(k.alg, k.tagLength) && NonceLengthOk(k.alg, |k.nonce|)
    ensures k.tagLength <= 16 && Keyed(k, text, Seal(k, aad, text).0)
    ensures Seal(k, aad, text).1 == k.p.tag(k.alg, k.nonce, aad, text)[..k.tagLength]
    ensures forall tag ::
              match Open(k, aad, text, tag)
              case Some(plain) => Keyed(k, text, plain) && tag == k.p.tag(k.alg, k.nonce, aad, plain)[..k.tagLength]
              case None => forall plain | Keyed(k, text, plain) :: tag != k.p.tag(k.alg, k.nonce, aad, plain)[..k.tagLength]
  {
    var keyed := Crypt(k.p, k.alg, k.nonce, 0, text);
    TagIsPrimitive(k.p, k.alg, k.nonce, aad, text, k.tagLength);
    TagIsPrimitive(k.p, k.alg, k.nonce, aad, keyed, k.tagLength);
    CryptIsKeystream(k.p, k.alg, k.nonce, 0, text);
    forall plain | Keyed(k, text, plain) ensures plain == keyed {
    }
  }

  /** Encryption of any chunks computes the AEAD of their concatenation. */
  method SealChunks(k: Params, lengths: Lengths, stream: bool, ads: seq<seq<byte>>, chunks: seq<seq<byte>>)
    returns (ciphertext: seq<byte>, tag: seq<byte>)
    requires Usable(k, lengths, stream, |Flatten(ads)|, |Flatten(chunks)|) && Chunked(chunks)
    ensures (ciphertext, tag) == Seal(k, Flatten(ads), Flatten(chunks))
    ensures k.alg != Ccm ==>
              && Keyed(k, Flatten(chunks), ciphertext)
              && tag == k.p.tag(k.alg, k.nonce, Flatten(ads), Flatten(chunks))[..k.tagLength]
  {
    hide CheckLengths, Crypt, Tag, Fed, WellFed, Flatten, LengthsFit, TagLengthOk, NonceLengthOk, Keyed;
    hide AeadOperation.LengthsValid, AeadOperation.PhaseValid, AeadOperation.StreamValid;
    var op := Begin(k, true, lengths, stream, ads, |Flatten(chunks)|);
    ciphertext := FeedPayload(op, chunks, stream);
    var rest;
    rest, tag := FinishMessage(op);
    ciphertext := ciphertext + rest;
    if k.alg != Ccm {
      SealedByPrimitives(k, Flatten(ads), Flatten(chunks));
    }
  }

  /** Decryption of any chunks: the plaintext exactly when the tag is right. */
  method OpenChunks(k: Params, lengths: Lengths, stream: bool, ads: seq<seq<byte>>, chunks: seq<seq<byte>>,
                    tag: seq<byte>)
    returns (plaintext: Option<seq<byte>>)
    requires Usable(k, lengths, stream, |Flatten(ads)|, |Flatten(chunks)|) && Chunked(chunks)
    ensures plaintext == Open(k, Flatten(ads), Flatten(chunks), tag)
    ensures k.alg != Ccm ==>
              match plaintext
              case Some(plain) =>
                && Keyed(k, Flatten(chunks), plain)
                && tag == k.p.tag(k.alg, k.nonce, Flatten(ads), plain)[..k.tagLength]
              case None =>
                forall plain | Keyed(k, Flatten(chunks), plain) ::
                  tag != k.p.tag(k.alg, k.nonce, Flatten(ads), plain)[..k.tagLength]
  {
    hide CheckLengths, Crypt, Tag, Fed, WellFed, Flatten, LengthsFit, TagLengthOk, NonceLengthOk, Keyed;
    hide AeadOperation.LengthsValid, AeadOperation.PhaseValid, AeadOperation.StreamValid;
    var op := Begin(k, false, lengths, stream, ads, |Flatten(chunks)|);
    var out := FeedPayload(op, chunks, stream);
    var accepted, rest := VerifyMessage(op, tag);
    plaintext := if accepted then Some(out + rest) else None;
    if k.alg != Ccm {
      SealedByPrimitives(k, Flatten(ads), Flatten(chunks));
    }
  }
}
