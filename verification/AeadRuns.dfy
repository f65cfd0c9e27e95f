/** Arbitrary runs of the multipart AEAD operation: whatever calls a caller makes, in
    whatever order, every reply follows from the calls and replies before it, and a
    finish or a verify that succeeds stands for the whole message since setup. */
module AeadRuns {
  import opened AeadMessages
  import opened AeadOperation
  import opened Bytes
  import opened Psa

  /** One call of the API with its arguments. `Stream` passes an output buffer of
      `outputSize` bytes to psa_aead_update, `Buffer` none. */
  datatype Api =
    | Setup(alg: Alg, atLeast: bool, tagLength: nat, encrypting: bool, keyStatus: Status)
    | SetLengths(adLength: nat, payloadLength: nat)
    | SetNonce(nonce: seq<byte>)
    | UpdateAd(ad: seq<byte>)
    | Stream(data: seq<byte>, outputSize: nat, backend: Status)
    | Buffer(data: seq<byte>)
    | Finish(ciphertextSize: nat, tagSize: nat, backend: Status)
    | Verify(plaintextSize: nat, tag: seq<byte>, backend: Status)
    | Abort

  /** What a call answers: its status, the payload bytes it put out, and the tag. */
  datatype Reply = Reply(status: Status, out: seq<byte>, tag: seq<byte>)

  const NOTHING_YET := Progress(false, NotAead, 0, true, [], None, false, false, false, [], [], [])

  /** What one more call with its reply says about the operation. */
  function Advance(v: Progress, call: Api, reply: Reply): Progress {
    var ok := reply.status == Success;
    match call
    case Setup(alg, _, tagLength, encrypting, _) =>
      if ok then Progress(true, alg, tagLength, encrypting, [], None, false, false, false, [], [], []) else v
    case SetLengths(ad, payload) => if ok then v.(declared := Some((ad, payload))) else v.(active := false)
    case SetNonce(nonce) => if ok then v.(nonce := nonce) else v
    case UpdateAd(ad) =>
      if ok then v.(aad := v.aad + ad, adStarted := true)
      else v.(active := v.active && !v.bodyStarted && reply.status != InvalidArgument)
    case Stream(data, _, _) =>
      if ok then v.(bodyStarted := true, streaming := v.streaming || data != [],
                    input := v.input + data, output := v.output + reply.out)
      else v.(active := v.active && !IsReady(v))
    case Buffer(data) =>
      if ok then v.(bodyStarted := true, input := v.input + data) else v.(active := v.active && !IsReady(v))
    case Finish(_, _, _) => v.(active := v.active && !v.encrypting)
    case Verify(_, _, _) => v.(active := v.active && v.encrypting)
    case Abort => v.(active := false)
  }

  /** What a whole run of calls and replies says. */
  function Past(calls: seq<Api>, replies: seq<Reply>): Progress
    requires |calls| == |replies|
  {
    if |calls| == 0 then NOTHING_YET
    else Advance(Past(calls[..|calls| - 1], replies[..|calls| - 1]), calls[|calls| - 1], replies[|calls| - 1])
  }

  /** The one status that a call can answer. */
  function StatusOf(p: Primitives, v: Progress, call: Api): Status {
    match call
    case Setup(alg, atLeast, tagLength, _, keyStatus) =>
      if v.active then BadState else SetupStatus(alg, atLeast, tagLength, keyStatus)
    case SetLengths(ad, payload) => LengthsStatus(v, ad, payload)
    case SetNonce(nonce) => NonceStatus(v, |nonce|)
    case UpdateAd(ad) => AdStatus(v, |ad|)
    case Stream(data, outputSize, backend) => UpdateStatus(v, true, |data|, Some(outputSize), backend)
    case Buffer(data) => UpdateStatus(v, true, |data|, None, Success)
    case Finish(ciphertextSize, tagSize, backend) => FinishStatus(v, ciphertextSize, tagSize, backend)
    case Verify(plaintextSize, tag, backend) =>
      var checked := VerifyStatus(v, plaintextSize, |tag|, backend);
      if checked != Success then checked else if TagRight(p, v, tag) then Success else InvalidSignature
    case Abort => Success
  }

  /** The parameters suit the algorithm, and the declared totals are those of the message. */
  ghost predicate Complete(v: Progress) {
    && TagLengthOk(v.alg, v.tagLength) && NonceLengthOk(v.alg, |v.nonce|)
    && (v.alg == Ccm ==> v.declared.Some?) && TotalsMet(v)
  }

  function ParamsOf(p: Primitives, v: Progress): Params {
    Params(p, v.alg, v.tagLength, v.nonce)
  }

  /** The reply to a call: its status, and for each success the bytes it must put out. A
      finish or a verify that reports success stands for the whole message. */
  ghost predicate Genuine(p: Primitives, v: Progress, call: Api, reply: Reply) {
    && reply.status == StatusOf(p, v, call)
    && (reply.status == Success ==>
          match call
          case Stream(data, _, _) =>
            && NonceLengthOk(v.alg, |v.nonce|)
            && reply == Reply(Success, Crypt(p, v.alg, v.nonce, |v.input|, data), [])
          case Finish(_, _, _) =>
            && Complete(v)
            && (v.output + reply.out, reply.tag) == Seal(ParamsOf(p, v), v.aad, v.input)
          case Verify(_, tag, _) =>
            && Complete(v) && reply.tag == []
            && Open(ParamsOf(p, v), v.aad, v.input, tag) == Some(v.output + reply.out)
          case _ => reply == Reply(Success, [], []))
  }

  /** The sizes of one call are values of size_t. */
  predicate SizesFit(call: Api) {
    match call
    case SetLengths(ad, payload) => ad <= SIZE_MAX && payload <= SIZE_MAX
    case SetNonce(nonce) => |nonce| <= SIZE_MAX
    case UpdateAd(ad) => |ad| <= SIZE_MAX
    case Stream(data, _, _) => |data| <= SIZE_MAX
    case Buffer(data) => |data| <= SIZE_MAX
    case _ => true
  }

  // ----- the operation -----

  /** The operation holds what calls and replies say. */
  ghost predicate Follows(op: AeadOperation, v: Progress)
    reads op, op.Repr()
  {
    op.Valid() && op.active == v.active && (op.active ==> op.View() == v)
  }

  /** An operation that is not set up answers as any other. */
  lemma SameStatus(op: AeadOperation, v: Progress, call: Api)
    requires Follows(op, v)
    ensures StatusOf(op.p, op.View(), call) == StatusOf(op.p, v, call)
    ensures !v.active && !call.Setup? && !call.Abort? ==> StatusOf(op.p, v, call) == BadState
  {
    hide AeadOperation.Valid, CheckLengths;
  }

  /** A call that sets a parameter or aborts. */
  method Feed(op: AeadOperation, call: Api, ghost v: Progress) returns (reply: Reply)
    requires Follows(op, v) && SizesFit(call)
    requires call.SetLengths? || call.SetNonce? || call.Abort?
    modifies op
    ensures Follows(op, Advance(v, call, reply)) && Genuine(op.p, v, call, reply)
  {
    hide CheckLengths, Crypt, Tag, Fed, WellFed, TagLengthOk, NonceLengthOk;
    hide AeadOperation.LengthsValid, AeadOperation.PhaseValid, AeadOperation.StreamValid;
    hide LengthsStatus, NonceStatus;
    SameStatus(op, v, call);
    var status := Success;
    match call {
      case SetLengths(ad, payload) =>
        status := op.SetLengths(ad, payload);
      case SetNonce(nonce) =>
        status := op.SetNonce(nonce);
      case Abort =>
        op.Abort();
    }
    reply := Reply(status, [], []);
  }

  method FeedAd(op: AeadOperation, ad: seq<byte>, ghost v: Progress) returns (reply: Reply)
    requires Follows(op, v) && |ad| <= SIZE_MAX
    modifies op
    ensures Follows(op, Advance(v, UpdateAd(ad), reply)) && Genuine(op.p, v, UpdateAd(ad), reply)
  {
    hide AeadOperation.Valid, IsReady;
    SameStatus(op, v, UpdateAd(ad));
    var status := op.UpdateAd(ad);
    reply := Reply(status, [], []);
  }

  method StreamData(op: AeadOperation, data: seq<byte>, outputSize: nat, backend: Status, ghost v: Progress)
    returns (reply: Reply)
    requires Follows(op, v) && |data| <= SIZE_MAX
    modifies op, op.Repr()
    ensures Follows(op, Advance(v, Stream(data, outputSize, backend), reply))
    ensures Genuine(op.p, v, Stream(data, outputSize, backend), reply)
  {
    hide AeadOperation.Valid, AeadOperation.Payload, Crypt, NonceLengthOk;
    var status, out := PutData(op, data, Some(outputSize), backend);
    reply := Reply(status, out, []);
  }

  method BufferData(op: AeadOperation, data: seq<byte>, ghost v: Progress) returns (reply: Reply)
    requires Follows(op, v) && |data| <= SIZE_MAX
    modifies op, op.Repr()
    ensures Follows(op, Advance(v, Buffer(data), reply)) && Genuine(op.p, v, Buffer(data), reply)
  {
    hide AeadOperation.Valid, AeadOperation.Payload, Crypt, NonceLengthOk;
    var status, out := PutData(op, data, None, Success);
    reply := Reply(status, [], []);
  }

  /** psa_aead_finish on output buffers of the given sizes. */
  method FinishCall(op: AeadOperation, ciphertextSize: nat, tagSize: nat, backend: Status) returns (reply: Reply)
    requires op.Valid()
    modifies op`active, op.ccm.mac
    ensures op.Valid() && op.active == (old(op.active) && !op.encrypting)
    ensures reply.status == FinishStatus(old(op.View()), ciphertextSize, tagSize, backend)
    ensures reply.status == Success ==>
              && old(op.active) && op.Ready() && op.TotalsMatch() && TagLengthOk(op.alg, op.tagLength)
              && NonceLengthOk(op.alg, |op.nonce|) && op.inputLength == |op.Payload()|
              && reply.tag == Tag(op.p, op.alg, op.nonce, op.aad, op.Payload(), op.tagLength)
              && op.emitted + reply.out == Crypt(op.p, op.alg, op.nonce, 0, op.Payload())
  {
    hide CheckLengths, Crypt, Tag, Fed, WellFed, TagLengthOk, NonceLengthOk, FinishStatus;
    hide AeadOperation.LengthsValid, AeadOperation.PhaseValid, AeadOperation.StreamValid;
    if op.active {
      op.ParametersOk();
    }
    var ciphertext := new byte[ciphertextSize](i => 0);
    var t := new byte[tagSize](i => 0);
    var status, n, tagLen := op.Finish(ciphertext, ciphertextSize, t, tagSize, backend);
    reply := Reply(status, [], []);
    if status == Success {
      reply := Reply(status, ciphertext[..n], t[..tagLen]);
    }
  }

  method FinishReply(op: AeadOperation, ciphertextSize: nat, tagSize: nat, backend: Status, ghost v: Progress)
    returns (reply: Reply)
    requires Follows(op, v)
    modifies op`active, op.ccm.mac
    ensures Follows(op, Advance(v, Finish(ciphertextSize, tagSize, backend), reply))
    ensures Genuine(op.p, v, Finish(ciphertextSize, tagSize, backend), reply)
  {
    hide AeadOperation.Valid, Crypt, Tag, TagLengthOk, NonceLengthOk, FinishStatus;
    SameStatus(op, v, Finish(ciphertextSize, tagSize, backend));
    reply := FinishCall(op, ciphertextSize, tagSize, backend);
  }

  /** psa_aead_verify on an output buffer of the given size. */
  method VerifyCall(op: AeadOperation, plaintextSize: nat, tag: seq<byte>, backend: Status) returns (reply: Reply)
    requires op.Valid()
    modifies op`active, op.ccm.mac
    ensures op.Valid() && op.active == (old(op.active) && op.encrypting)
    ensures reply.status == StatusOf(op.p, old(op.View()), Verify(plaintextSize, tag, backend))
    ensures reply.status == Success ==>
              && old(op.active) && op.Ready() && op.TotalsMatch() && TagLengthOk(op.alg, op.tagLength)
              && NonceLengthOk(op.alg, |op.nonce|) && op.inputLength == |op.Payload()|
              && reply.tag == [] && op.TagAccepted(tag)
              && op.emitted + reply.out == op.Plaintext()
  {
    hide CheckLengths, Crypt, Tag, Fed, WellFed, TagLengthOk, NonceLengthOk, VerifyStatus;
    hide AeadOperation.LengthsValid, AeadOperation.PhaseValid, AeadOperation.StreamValid;
    if op.active {
      op.ParametersOk();
    }
    var plaintext := new byte[plaintextSize](i => 0);
    var status, n := op.Verify(plaintext, plaintextSize, tag, backend);
    reply := Reply(status, [], []);
    if status == Success {
      reply := Reply(status, plaintext[..n], []);
    }
  }

  method VerifyReply(op: AeadOperation, plaintextSize: nat, tag: seq<byte>, backend: Status, ghost v: Progress)
    returns (reply: Reply)
    requires Follows(op, v)
    modifies op`active, op.ccm.mac
    ensures Follows(op, Advance(v, Verify(plaintextSize, tag, backend), reply))
    ensures Genuine(op.p, v, Verify(plaintextSize, tag, backend), reply)
  {
    hide AeadOperation.Valid, Crypt, Tag, TagLengthOk, NonceLengthOk, VerifyStatus, TagRight;
    SameStatus(op, v, Verify(plaintextSize, tag, backend));
    reply := VerifyCall(op, plaintextSize, tag, backend);
  }

  method OneCall(op: AeadOperation, call: Api, ghost v: Progress) returns (reply: Reply)
    requires Follows(op, v) && SizesFit(call)
    modifies op, op.Repr()
    ensures Follows(op, Advance(v, call, reply)) && Genuine(op.p, v, call, reply)
  {
    hide CheckLengths, Crypt, Tag, Fed, WellFed, TagLengthOk, NonceLengthOk, Complete, Seal, Open;
    hide LengthsStatus, NonceStatus, AdStatus, UpdateStatus, FinishStatus, VerifyStatus, SetupStatus, TagRight;
    match call
    case Setup(alg, atLeast, tagLength, encrypting, keyStatus) =>
      var status := op.Setup(alg, atLeast, tagLength, encrypting, keyStatus);
      reply := Reply(status, [], []);
    case UpdateAd(ad) =>
      reply := FeedAd(op, ad, v);
    case Stream(data, outputSize, backend) =>
      reply := StreamData(op, data, outputSize, backend, v);
    case Buffer(data) =>
      reply := BufferData(op, data, v);
    case Finish(ciphertextSize, tagSize, backend) =>
      reply := FinishReply(op, ciphertextSize, tagSize, backend, v);
    case Verify(plaintextSize, tag, backend) =>
      reply := VerifyReply(op, plaintextSize, tag, backend, v);
    case _ =>
      reply := Feed(op, call, v);
  }

  /** Every reply of a run follows from the calls and replies before it. */
  ghost predicate RunOk(p: Primitives, calls: seq<Api>, replies: seq<Reply>) {
    && |calls| == |replies|
    && forall i :: 0 <= i < |calls| ==> Genuine(p, Past(calls[..i], replies[..i]), calls[i], replies[i])
  }

  /** Any calls in any order. */
  method RunCalls(p: Primitives, calls: seq<Api>) returns (replies: seq<Reply>)
    requires forall i :: 0 <= i < |calls| ==> SizesFit(calls[i])
    ensures RunOk(p, calls, replies)
  {
    hide Genuine, Follows, Advance, SizesFit;
    var op: AeadOperation := new AeadOperation(p);
    replies := [];
    Inactive(op, NOTHING_YET);
    var i := 0;
    while i < |calls|
      invariant 0 <= i == |replies| <= |calls| && Follows(op, Past(calls[..i], replies))
      invariant forall j :: 0 <= j < i ==> Genuine(p, Past(calls[..j], replies[..j]), calls[j], replies[j])
      modifies op, op.Repr()
    {
      ghost var v := Past(calls[..i], replies);
      var reply := OneCall(op, calls[i], v);
      assert replies[..i] == replies;
      assert calls[..i + 1][..i] == calls[..i] && (replies + [reply])[..i] == replies;
      replies := replies + [reply];
      i := i + 1;
      assert forall j :: 0 <= j < i ==> replies[..j] == replies[..i - 1][..j];
    }
    assert calls[..i] == calls;
  }

  lemma Inactive(op: AeadOperation, v: Progress)
    requires op.Valid() && !op.active && !v.active
    ensures Follows(op, v)
  {
  }

  // ----- what follows for every run -----

  /** No call in between installs a new message. */
  ghost predicate SameMessage(calls: seq<Api>, replies: seq<Reply>, i: nat, j: nat)
    requires |calls| == |replies|
  {
    forall k :: i < k < j && k < |calls| ==> !(calls[k].Setup? && replies[k].status == Success)
  }

  /** How far a message has come never goes back: a started body stays started, and
      what was streamed or buffered stays so. */
  ghost predicate Later(was: Progress, now: Progress) {
    now.active ==>
      && was.active
      && (was.bodyStarted ==> now.bodyStarted && now.aad == was.aad)
      && (was.streaming || was.input != [] ==> now.streaming == was.streaming)
      && was.input <= now.input
  }

  lemma PastStep(calls: seq<Api>, replies: seq<Reply>, k: nat)
    requires |calls| == |replies| && k < |calls|
    ensures Past(calls[..k + 1], replies[..k + 1]) == Advance(Past(calls[..k], replies[..k]), calls[k], replies[k])
  {
    assert calls[..k + 1][..k] == calls[..k] && replies[..k + 1][..k] == replies[..k];
  }

  lemma OneStepLater(p: Primitives, v: Progress, call: Api, reply: Reply)
    requires Genuine(p, v, call, reply) && !(call.Setup? && reply.status == Success)
    ensures Later(v, Advance(v, call, reply))
  {
  }

  lemma {:induction false} NeverBack(p: Primitives, calls: seq<Api>, replies: seq<Reply>, i: nat, j: nat)
    requires RunOk(p, calls, replies) && i < j <= |calls| && SameMessage(calls, replies, i, j)
    ensures Later(Past(calls[..i + 1], replies[..i + 1]), Past(calls[..j], replies[..j]))
  {
    hide Genuine, Advance, Past;
    if i + 1 < j {
      NeverBack(p, calls, replies, i, j - 1);
      PastStep(calls, replies, j - 1);
      OneStepLater(p, Past(calls[..j - 1], replies[..j - 1]), calls[j - 1], replies[j - 1]);
    }
  }

  /** In no run does one message mix streamed and buffered payload. */
  lemma NoMixing(p: Primitives, calls: seq<Api>, replies: seq<Reply>, i: nat, j: nat)
    requires RunOk(p, calls, replies) && i < j < |calls| && SameMessage(calls, replies, i, j)
    requires replies[i].status == Success
    ensures calls[i].Stream? && calls[i].data != [] && calls[j].Buffer? && calls[j].data != []
            ==> replies[j].status != Success
    ensures calls[i].Buffer? && calls[i].data != [] && calls[j].Stream? && calls[j].data != []
            ==> replies[j].status != Success
  {
    NeverBack(p, calls, replies, i, j);
    PastStep(calls, replies, i);
  }

  /** In no run does associated data join a message whose body has started, even with an
      empty chunk. */
  lemma AssociatedDataFrozen(p: Primitives, calls: seq<Api>, replies: seq<Reply>, i: nat, j: nat)
    requires RunOk(p, calls, replies) && i < j < |calls| && SameMessage(calls, replies, i, j)
    requires replies[i].status == Success && (calls[i].Stream? || calls[i].Buffer?)
    ensures calls[j].UpdateAd? || calls[j].SetLengths? ==> replies[j].status != Success
  {
    NeverBack(p, calls, replies, i, j);
    PastStep(calls, replies, i);
  }

  /** In every run, for GCM and ChaCha20-Poly1305: the tag that a finish puts out or a
      verify accepts is wolfCrypt's over the nonce, all associated data and the whole
      plaintext, and all output is the input under the keystream. */
  lemma TagsAreOfTheMessage(p: Primitives, calls: seq<Api>, replies: seq<Reply>, i: nat)
    requires RunOk(p, calls, replies) && i < |calls| && replies[i].status == Success
    requires Past(calls[..i], replies[..i]).alg != Ccm
    ensures var v, r := Past(calls[..i], replies[..i]), replies[i];
            && (calls[i].Finish? ==>
                  && v.tagLength <= 16 && r.tag == p.tag(v.alg, v.nonce, v.aad, v.input)[..v.tagLength]
                  && Keyed(ParamsOf(p, v), v.input, v.output + r.out))
            && (calls[i].Verify? ==>
                  && v.tagLength <= 16 && calls[i].tag == p.tag(v.alg, v.nonce, v.aad, v.output + r.out)[..v.tagLength]
                  && Keyed(ParamsOf(p, v), v.input, v.output + r.out))
  {
    hide Past, Seal, Open, TagLengthOk, NonceLengthOk, Keyed, StatusOf;
    var v := Past(calls[..i], replies[..i]);
    assert Genuine(p, v, calls[i], replies[i]);
    if calls[i].Finish? || calls[i].Verify? {
      SealedByPrimitives(ParamsOf(p, v), v.aad, v.input);
    }
  }
}
