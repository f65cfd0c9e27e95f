/** Whole messages through the multipart cipher operation: any chunks give the
    mode's result on their concatenation, and the one-shot calls carry the initial
    vector in front of the ciphertext. */
module CipherMessages {
  import opened BlockModes
  import opened Bytes
  import opened CipherOperation
  import opened Psa

  function WholeMessage(c: Cipher, mode: Mode, encrypting: bool, iv: seq<byte>, m: seq<byte>): Option<seq<byte>>
    requires BlockSizeOk(c) && |iv| == c.bs
  {
    if encrypting then Encrypt(c, mode, iv, m) else Decrypt(c, mode, iv, m)
  }

  /** The initial vector of a mode that takes none is zero. */
  predicate IvFits(c: Cipher, mode: Mode, iv: seq<byte>) {
    |iv| == c.bs && (mode == EcbNoPadding ==> iv == Zeros(c.bs))
  }

  /** Whatever either side splits its data into, decryption returns the message: every
      message under PKCS#7, and those of whole blocks otherwise. */
  lemma AnyChunksRoundTrip(c: Cipher, mode: Mode, iv: seq<byte>, sent: seq<seq<byte>>, received: seq<seq<byte>>)
    requires BlockSizeOk(c) && Inverse(c) && IvFits(c, mode, iv)
    requires mode == CbcPkcs7 || Aligned(|Flatten(sent)|, c.bs)
    ensures WholeMessage(c, mode, true, iv, Flatten(sent)).Some?
    ensures Flatten(received) == WholeMessage(c, mode, true, iv, Flatten(sent)).value
            ==> WholeMessage(c, mode, false, iv, Flatten(received)) == Some(Flatten(sent))
  {
    DecryptInvertsEncrypt(c, mode, iv, Flatten(sent));
  }

  method Begin(c: Cipher, mode: Mode, encrypting: bool, iv: seq<byte>) returns (op: CipherOperation)
    requires BlockSizeOk(c) && IvFits(c, mode, iv)
    ensures fresh(op) && fresh(op.partial) && op.Valid() && op.active && op.c == c
    ensures op.mode == mode && op.encrypting == encrypting && op.iv == iv
    ensures op.consumed == [] && op.emitted == [] && op.partialLen == 0 && (mode != EcbNoPadding ==> op.ivSet)
  {
    hide Run, Aligned, Buffered, Due;
    op := new CipherOperation(c);
    var status := op.Setup(mode, encrypting, Success);
    assert status == Success;
    if mode != EcbNoPadding {
      status := op.SetIv(iv);
    }
    op.NothingEmitted();
  }

  /** The error of a message that has no result: bad padding, or a residue. */
  function NoResult(mode: Mode): Status {
    if mode == CbcPkcs7 then InvalidPadding else InvalidArgument
  }

  method Finish(op: CipherOperation, room: nat) returns (status: Status, out: seq<byte>)
    requires op.Valid() && op.active && (op.mode != EcbNoPadding ==> op.ivSet)
    modifies op`active, op`chain
    ensures match op.Result()
            case None => status == NoResult(op.mode)
            case Some(whole) => status == if |whole| - |op.emitted| > room then BufferTooSmall else Success
    ensures status == Success ==> op.Result() == Some(op.emitted + out)
  {
    hide Run, Aligned, Buffered, Due, Encrypt, Decrypt;
    var output := new byte[room](i => 0);
    var n;
    status, n := op.Finish(output, 0, room);
    out := output[..n];
    assert output[0..0 + n] == out;
  }

  /** Any chunks of at most 2^32 - 1 bytes each. */
  method RunChunks(c: Cipher, mode: Mode, encrypting: bool, iv: seq<byte>, chunks: seq<seq<byte>>)
    returns (result: Option<seq<byte>>)
    requires BlockSizeOk(c) && IvFits(c, mode, iv)
    requires forall i :: 0 <= i < |chunks| ==> |chunks[i]| <= UINT32_MAX
    ensures result == WholeMessage(c, mode, encrypting, iv, Flatten(chunks))
    ensures forall out :: result == Some(out) <==> Processed(c, mode, encrypting, iv, Flatten(chunks), out)
  {
    hide Run, Aligned, Buffered, Due, Encrypt, Decrypt, Processed;
    var op: CipherOperation := Begin(c, mode, encrypting, iv);
    var out: seq<byte> := [];
    var i := 0;
    while i < |chunks|
      invariant 0 <= i <= |chunks|
      invariant op.Valid() && op.active && (mode != EcbNoPadding ==> op.ivSet)
      invariant op.consumed == Flatten(chunks[..i]) && op.emitted == out
      modifies op.partial, op`active, op`chain, op`partialLen, op`consumed, op`emitted
    {
      FlattenTake(chunks, i);
      var status, part := FeedChunk(op, chunks[i], op.Emits(|chunks[i]|));
      out := out + part;
      i := i + 1;
    }
    assert chunks[..i] == chunks;
    op.ResultFits();
    var status, rest := Finish(op, c.bs);
    result := if status == Success then Some(out + rest) else None;
    forall out ensures result == Some(out) <==> Processed(c, mode, encrypting, iv, Flatten(chunks), out) {
      ResultIsProcessed(c, mode, encrypting, iv, Flatten(chunks), out);
    }
  }

  method FeedChunk(op: CipherOperation, chunk: seq<byte>, room: nat) returns (status: Status, out: seq<byte>)
    requires op.Valid() && op.active && (op.mode != EcbNoPadding ==> op.ivSet)
    modifies op.partial, op`active, op`chain, op`partialLen, op`consumed, op`emitted
    ensures op.Valid() && op.active == (status == Success)
    ensures status == if |chunk| > UINT32_MAX then InvalidArgument
                      else if chunk != [] && room < old(op.Emits(|chunk|)) then BufferTooSmall
                      else Success
    ensures status == Success ==> op.consumed == old(op.consumed) + chunk && op.emitted == old(op.emitted) + out
    ensures status == Success ==> |out| <= room && (chunk != [] ==> |out| == old(op.Emits(|chunk|)))
  {
    hide Run, Aligned, Buffered, Due;
    var input := new byte[|chunk|](i requires 0 <= i < |chunk| => chunk[i]);
    var output := new byte[room](i => 0);
    assert input[0..0 + |chunk|] == chunk;
    var n;
    status, n := op.Update(input, 0, |chunk|, output, 0, room);
    out := output[0..n];
  }

  // ----- one-shot calls -----

  function IvLength(c: Cipher, mode: Mode): nat {
    if mode == EcbNoPadding then 0 else c.bs
  }

  /** The initial vector and the ciphertext behind it. */
  function Sealed(c: Cipher, mode: Mode, iv: seq<byte>, m: seq<byte>): Option<seq<byte>>
    requires BlockSizeOk(c) && IvFits(c, mode, iv)
  {
    match Encrypt(c, mode, iv, m)
    case Some(x) => Some(iv[..IvLength(c, mode)] + x)
    case None => None
  }

  function Opened(c: Cipher, mode: Mode, x: seq<byte>): Option<seq<byte>>
    requires BlockSizeOk(c)
  {
    var k := IvLength(c, mode);
    if |x| < k then None
    else Decrypt(c, mode, if mode == EcbNoPadding then Zeros(c.bs) else x[..k], x[k..])
  }

  lemma OpenedUndoesSealed(c: Cipher, mode: Mode, iv: seq<byte>, m: seq<byte>)
    requires BlockSizeOk(c) && Inverse(c) && IvFits(c, mode, iv)
    ensures Sealed(c, mode, iv, m).Some? <==> mode == CbcPkcs7 || Aligned(|m|, c.bs)
    ensures Sealed(c, mode, iv, m).Some? ==> Opened(c, mode, Sealed(c, mode, iv, m).value) == Some(m)
  {
    hide Run, Aligned, Decrypt, Encrypt;
    DecryptInvertsEncrypt(c, mode, iv, m);
    match Encrypt(c, mode, iv, m)
    case None =>
    case Some(x) =>
      var s, k := Sealed(c, mode, iv, m).value, IvLength(c, mode);
      assert s[..k] == iv[..k] && s[k..] == x;
      assert iv[..c.bs] == iv;
  }

  /** The outcome of one update over `n` input bytes and a finish that yields `result`. */
  function OneShotStatus(c: Cipher, mode: Mode, encrypting: bool, n: nat, result: Option<seq<byte>>, room: nat): Status
    requires BlockSizeOk(c)
  {
    if n > UINT32_MAX then InvalidArgument
    else if n > 0 && room < Due(HoldsBack(mode, encrypting), n, c.bs) then BufferTooSmall
    else match result
      case None => NoResult(mode)
      case Some(whole) => if |whole| > room then BufferTooSmall else Success
  }

  /** One update over the whole input, then finish: the body of both one-shot calls. */
  method OneShot(op: CipherOperation, input: seq<byte>, room: nat) returns (status: Status, out: seq<byte>)
    requires op.Valid() && op.active && op.consumed == op.emitted == [] && op.partialLen == 0
    requires op.mode != EcbNoPadding ==> op.ivSet
    modifies op.partial, op`active, op`chain, op`partialLen, op`consumed, op`emitted
    ensures var result := WholeMessage(op.c, op.mode, op.encrypting, op.iv, input);
            && status == OneShotStatus(op.c, op.mode, op.encrypting, |input|, result, room)
            && (status == Success ==> result == Some(out))
  {
    hide Run, Aligned, Buffered, Due, Encrypt, Decrypt;
    ghost var result := WholeMessage(op.c, op.mode, op.encrypting, op.iv, input);
    status, out := FeedChunk(op, input, room);
    if status != Success {
      return;
    }
    assert op.consumed == input && op.emitted == out;
    assert op.Result() == result;
    op.ResultFits();
    var rest;
    status, rest := Finish(op, room - |out|);
    out := out + rest;
  }

  /** psa_cipher_encrypt with the initial vector that the generator returned. */
  method EncryptOneShot(c: Cipher, mode: Mode, iv: seq<byte>, keyStatus: Status, input: seq<byte>, outputSize: nat)
    returns (status: Status, output: seq<byte>)
    requires BlockSizeOk(c) && IvFits(c, mode, iv)
    ensures status == if keyStatus != Success then keyStatus
                      else if outputSize < IvLength(c, mode) then BufferTooSmall
                      else
                        var room := outputSize - IvLength(c, mode);
                        OneShotStatus(c, mode, true, |input|, Encrypt(c, mode, iv, input), room)
    ensures status == Success ==> Sealed(c, mode, iv, input) == Some(output) && |output| <= outputSize
    ensures status == Success ==>
              var k := if mode == EcbNoPadding then 0 else c.bs;
              k <= |output| && output[..k] == iv[..k] && Processed(c, mode, true, iv, input, output[k..])
  {
    hide Run, Aligned, Buffered, Due, Encrypt, Decrypt, Processed;
    output := [];
    if keyStatus != Success {
      return keyStatus, [];
    }
    var ivLen := IvLength(c, mode);
    if outputSize < ivLen {
      return BufferTooSmall, [];
    }
    var op := Begin(c, mode, true, iv);
    var text;
    status, text := OneShot(op, input, outputSize - ivLen);
    output := iv[..ivLen] + text;
    ResultIsProcessed(c, mode, true, iv, input, text);
    assert output[ivLen..] == text;
  }

  /** psa_cipher_decrypt */
  method DecryptOneShot(c: Cipher, mode: Mode, keyStatus: Status, input: seq<byte>, outputSize: nat)
    returns (status: Status, output: seq<byte>)
    requires BlockSizeOk(c)
    ensures status == if keyStatus != Success then keyStatus
                      else if |input| < IvLength(c, mode) then InvalidArgument
                      else OneShotStatus(c, mode, false, |input| - IvLength(c, mode), Opened(c, mode, input), outputSize)
    ensures status == Success ==> Opened(c, mode, input) == Some(output) && |output| <= outputSize
    ensures status == Success ==>
              if mode == EcbNoPadding then Processed(c, mode, false, Zeros(c.bs), input, output)
              else c.bs <= |input| && Processed(c, mode, false, input[..c.bs], input[c.bs..], output)
  {
    hide Run, Aligned, Buffered, Due, Encrypt, Decrypt, Processed;
    output := [];
    if keyStatus != Success {
      return keyStatus, [];
    }
    var ivLen := IvLength(c, mode);
    if |input| < ivLen {
      return InvalidArgument, [];
    }
    var iv := if mode == EcbNoPadding then Zeros(c.bs) else input[..ivLen];
    var op := Begin(c, mode, false, iv);
    status, output := OneShot(op, input[ivLen..], outputSize);
    ResultIsProcessed(c, mode, false, iv, input[ivLen..], output);
    assert mode == EcbNoPadding ==> input[ivLen..] == input;
  }

  /** A first update never needs more room than the whole result, so a one-shot call
      succeeds exactly when the message has a result that fits. */
  lemma OneShotSucceeds(c: Cipher, mode: Mode, encrypting: bool, iv: seq<byte>, m: seq<byte>, room: nat)
    requires BlockSizeOk(c) && |iv| == c.bs
    ensures var result := WholeMessage(c, mode, encrypting, iv, m);
            OneShotStatus(c, mode, encrypting, |m|, result, room) == Success
            <==> |m| <= UINT32_MAX && result.Some? && |result.value| <= room
  {
    RoomForUpdate(c, mode, encrypting, iv, m);
  }
}
