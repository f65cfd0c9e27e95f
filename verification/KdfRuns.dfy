/** Whole runs of a key derivation: any calls in any order. Every reply is that of a
    simple machine that knows no buffers, no cache and no recomputation, only the
    accepted inputs and the one stream they define. */
module KdfRuns {
  import opened Bytes
  import opened KdfLoops
  import opened KdfOperation
  import opened KdfSpec
  import opened Psa

  /** One call with its arguments. The outcome of loading or importing a key and of the
      key agreement itself are arguments, and so is what the attributes of a key permit. */
  datatype Api =
    | SetCapacity(capacity: nat)
    | GetCapacity
    | InputBytes(step: Step, data: seq<byte>)
    | InputInteger(step: Step, value: nat)
    | InputKey(step: Step, data: seq<byte>, keyStatus: Status, usageOk: bool, typeOk: bool, algOk: bool, derives: bool)
    | KeyAgreement(step: Step, agreed: Status, secret: seq<byte>)
    | Read(n: nat)
    | Check(expected: seq<byte>)
    | Key(bits: nat, unstructured: bool, imported: Status)

  /** What a call answers: its status, the bytes read or put into a key, and the capacity
      it reports. */
  datatype Reply = Reply(status: Status, bytes: seq<byte>, capacity: nat)

  // ----- the machine -----

  /** An operation as its callers know it. */
  datatype Session = Session(
    kdf: Kdf,
    keyAgreement: bool,
    given: seq<Given>,
    cost: nat,
    capacity: nat,
    /** How many bytes of the stream are out. */
    offset: nat,
    /** The length that counter mode has bound. */
    lBytes: nat,
    started: bool,
    canOutputKey: bool,
    failed: bool)

  function Initial(k: Kdf, keyAgreement: bool): Session {
    Session(Installed(k, keyAgreement), keyAgreement, [], 0, Granted(k), 0, 0, false, false, false)
  }

  function Steps(s: Session): set<Step> {
    set step: Step | if step == Cost then s.cost >= 1 else Count(s.given, step) > 0
  }

  function InputsOf(s: Session): Inputs {
    InputsFrom(s.given, s.cost)
  }

  function Bound(s: Session): nat {
    if IsSp800(s.kdf.alg) && !s.started then s.capacity else s.lBytes
  }

  /** The first `n` bytes of the stream of the accepted inputs, where there is one. */
  function Stream(s: Session, n: nat): (r: seq<byte>)
    ensures |r| == n
  {
    var i := InputsOf(s);
    if !HashLenOk(s.kdf.hashLen) || (s.kdf.alg == Pbkdf2Cmac && i.cost == 0) || (s.kdf.alg == Raw && n > |i.secret|)
    then Zeros(n)
    else Derived(s.kdf, i, Bound(s), n)
  }

  /** The next `n` bytes of the stream. */
  function Slice(s: Session, n: nat): seq<byte> {
    Stream(s, s.offset + n)[s.offset..]
  }

  function StepStatus(s: Session, step: Step, length: nat): Status {
    if s.started then BadState else ValidateStep(s.kdf, Steps(s), step, length)
  }

  function InputsReady(s: Session, n: nat): Status {
    if s.kdf.alg == Raw then
      if Secret !in Steps(s) || s.offset + n > |InputsOf(s).secret| then InsufficientData else Success
    else if RequiredSteps(s.kdf.alg) <= Steps(s) then Success
    else BadState
  }

  /** The outcome of asking for `n` bytes of output. */
  function SliceStatus(s: Session, n: nat): (r: Status)
    ensures r == Success || KdfOperation.Fatal(r)
  {
    if InputsReady(s, n) != Success then InputsReady(s, n)
    else if s.capacity != UNLIMITED && s.capacity < n then InsufficientData
    else if s.offset + n > SIZE_MAX then InvalidArgument
    else BackendStatus(s.kdf, InputsOf(s), s.offset + n)
  }

  function CapacityLeft(s: Session, n: nat): nat {
    if InputsReady(s, n) != Success || s.capacity == UNLIMITED then s.capacity
    else if s.capacity < n then 0
    else s.capacity - n
  }

  /** The bytes an output call asks for. */
  function Wanted(call: Api): nat {
    match call
    case Read(n) => n
    case Check(expected) => |expected|
    case Key(bits, _, _) => (bits + 7) / 8
    case _ => 0
  }

  /** The checks of an output call before it asks for output. */
  function Asks(s: Session, call: Api): Status {
    match call
    case Check(expected) => if |expected| > INT_MAX then InvalidArgument else Success
    case Key(bits, unstructured, _) =>
      if bits == 0 then InvalidArgument
      else if !s.canOutputKey then NotPermitted
      else if !unstructured then InvalidArgument
      else Success
    case _ => Success
  }

  predicate IsOutput(call: Api) {
    call.Read? || call.Check? || call.Key?
  }

  /** An output call takes its bytes out of the stream. */
  predicate Takes(s: Session, call: Api) {
    IsOutput(call) && !s.failed && Asks(s, call) == Success && SliceStatus(s, Wanted(call)) == Success
  }

  /** The call takes bytes that PBKDF2-CMAC never finishes to compute. */
  predicate NeverReturns(s: Session, call: Api) {
    Takes(s, call) && s.kdf.alg == Pbkdf2Cmac && BlocksFor(s.offset + Wanted(call)) > MAX_BLOCKS
  }

  /** What an output call makes of its bytes. */
  function Verdict(s: Session, call: Api): Status {
    match call
    case Check(expected) => if Slice(s, |expected|) == expected then Success else InvalidSignature
    case Key(_, _, imported) => imported
    case _ => Success
  }

  /** The status of every call but the getter on an operation that has not failed. */
  function StatusOf(s: Session, call: Api): Status {
    match call
    case GetCapacity => Success
    case SetCapacity(value) =>
      if value > s.capacity || (IsHkdf(s.kdf.alg) && value > Limit(s.kdf).value) then InvalidArgument else Success
    case InputBytes(step, data) => StepStatus(s, step, |data|)
    case InputInteger(step, value) =>
      if s.started then BadState
      else if step != Cost || !IsPbkdf2(s.kdf.alg) then InvalidArgument
      else if s.cost >= 1 then BadState
      else if value == 0 then InvalidArgument
      else if value > UINT32_MAX then NotSupported
      else Success
    case InputKey(step, data, keyStatus, usageOk, typeOk, algOk, _) =>
      if keyStatus != Success then keyStatus
      else if StepStatus(s, step, |data|) != Success then StepStatus(s, step, |data|)
      else if !usageOk then NotPermitted
      else if !typeOk then InvalidArgument
      else if !algOk then NotPermitted
      else Success
    case KeyAgreement(step, agreed, secret) =>
      if !s.keyAgreement then InvalidArgument
      else if s.started then BadState
      else if step != Secret && (step != OtherSecret || s.kdf.alg != Tls12PskToMs) then InvalidArgument
      else if agreed != Success then agreed
      else StepStatus(s, step, |secret|)
    case _ =>
      if Asks(s, call) != Success then Asks(s, call)
      else if SliceStatus(s, Wanted(call)) != Success then SliceStatus(s, Wanted(call))
      else Verdict(s, call)
  }

  /** The one reply to a call. */
  function Answer(s: Session, call: Api): Reply {
    if call.GetCapacity? then Reply(Success, [], s.capacity)
    else if s.failed then Reply(BadState, [], 0)
    else Reply(StatusOf(s, call), if (call.Read? || call.Key?) && Takes(s, call) then Slice(s, Wanted(call)) else [], 0)
  }

  function Accepted(s: Session, step: Step, data: seq<byte>, opens: bool): Session {
    s.(given := s.given + [Given(step, data)], canOutputKey := s.canOutputKey || opens)
  }

  function Effect(s: Session, call: Api): Session {
    if IsOutput(call) then
      if Takes(s, call) then
        s.(started := true, lBytes := Bound(s), offset := s.offset + Wanted(call), capacity := CapacityLeft(s, Wanted(call)))
      else if !s.failed && Asks(s, call) == Success then s.(capacity := CapacityLeft(s, Wanted(call)))
      else s
    else if Answer(s, call).status != Success then s
    else match call
      case SetCapacity(value) => s.(capacity := value)
      case InputBytes(step, data) => Accepted(s, step, data, false)
      case InputInteger(_, value) => s.(cost := value)
      case InputKey(step, data, _, _, _, _, derives) =>
        Accepted(s, step, data, derives && (step == Secret || step == Password))
      case KeyAgreement(step, _, secret) => Accepted(s, step, secret, step == Secret)
      case _ => s
  }

  /** The state after a call: a failure is sticky, except that of the two capacity calls. */
  function After(s: Session, call: Api): Session {
    Effect(s, call).(failed := s.failed ||
                               (!call.SetCapacity? && !call.GetCapacity? && KdfOperation.Fatal(Answer(s, call).status)))
  }

  function StateAfter(s: Session, calls: seq<Api>): Session {
    if |calls| == 0 then s else After(StateAfter(s, calls[..|calls| - 1]), calls[|calls| - 1])
  }

  // ----- the operation refines the machine -----

  /** The operation and the machine agree on all that later calls can see. */
  ghost predicate Follows(op: KdfOperation, s: Session)
    reads op
  {
    && op.Valid() && op.active && op.kdf == s.kdf && op.keyAgreement == s.keyAgreement
    && op.capacity == s.capacity && op.errorState == s.failed
    && (!s.failed ==>
          && op.given == s.given && op.cost == s.cost && op.canOutputKey == s.canOutputKey
          && op.outputOffset == s.offset && op.outputStarted == s.started && op.lBytes == s.lBytes)
  }

  /** The buffers and flags of the operation are those of the accepted inputs. */
  lemma Seen(op: KdfOperation, s: Session)
    requires Follows(op, s) && !s.failed
    ensures op.stepsSet == Steps(s) && op.In() == InputsOf(s)
    ensures forall step, n :: op.InputStatus(step, n) == StepStatus(s, step, n)
    ensures forall n :: op.InputsStatus(n) == InputsReady(s, n) && op.OutputStatus(n) == SliceStatus(s, n)
    ensures op.BoundLength() == Bound(s) && |op.delivered| == s.offset
    ensures forall n :: op.CapacityAfter(n) == CapacityLeft(s, n)
    ensures forall n :: op.Hangs(n) <==>
              SliceStatus(s, n) == Success && s.kdf.alg == Pbkdf2Cmac && BlocksFor(s.offset + n) > MAX_BLOCKS
  {
    hide Collected, Count, ValidateStep, BackendStatus, RequiredSteps, KdfOperation.StreamOk;
    op.InputsAreGiven();
    op.OffsetIsDelivered();
    assert op.stepsSet == Steps(s);
  }

  /** What was delivered last is the machine's slice. */
  lemma TheSlice(op: KdfOperation, s: Session, n: nat)
    requires op.Valid() && op.active && op.outputStarted && op.kdf == s.kdf && op.In() == InputsOf(s)
    requires op.lBytes == Bound(s) && |op.delivered| == s.offset + n
    ensures op.outputOffset == s.offset + n && op.delivered[s.offset..] == Slice(s, n)
  {
    hide Derived, BackendStatus, RequiredSteps, InputsOf, History;
  }

  /** The sizes of one call are values of size_t. */
  predicate SizeFits(call: Api) {
    call.SetCapacity? ==> call.capacity <= SIZE_MAX
  }

  method Configure(op: KdfOperation, call: Api, ghost s: Session) returns (reply: Reply)
    requires Follows(op, s) && SizeFits(call) && (call.SetCapacity? || call.GetCapacity?)
    modifies op`capacity, op`budget
    ensures Follows(op, After(s, call)) && reply == Answer(s, call)
  {
    hide KdfOperation.StreamOk, History;
    if call.SetCapacity? {
      var status := op.SetCapacity(call.capacity);
      reply := Reply(status, [], 0);
    } else {
      var status, value := op.GetCapacity();
      reply := Reply(status, [], value);
    }
  }

  method GiveBytes(op: KdfOperation, step: Step, data: seq<byte>, ghost s: Session) returns (reply: Reply)
    requires Follows(op, s)
    modifies op`stepsSet, op`buffers, op`given, op`errorState
    ensures Follows(op, After(s, InputBytes(step, data))) && reply == Answer(s, InputBytes(step, data))
  {
    hide KdfOperation.Valid, StepStatus, KdfOperation.InputStatus, Slice, SliceStatus, CapacityLeft, Bound, Steps;
    hide KdfOperation.OutputStatus, KdfOperation.CapacityAfter, KdfOperation.Hangs, KdfOperation.In, InputsOf;
    hide KdfOperation.InputsStatus, InputsReady, KdfOperation.BoundLength, Takes, Asks, Verdict;
    if !s.failed {
      Seen(op, s);
    }
    var status := op.InputBytes(step, data);
    reply := Reply(status, [], 0);
  }

  method GiveInteger(op: KdfOperation, step: Step, value: nat, ghost s: Session) returns (reply: Reply)
    requires Follows(op, s)
    modifies op`stepsSet, op`cost, op`errorState
    ensures Follows(op, After(s, InputInteger(step, value))) && reply == Answer(s, InputInteger(step, value))
  {
    hide KdfOperation.Valid, StepStatus, KdfOperation.InputStatus, Slice, SliceStatus, CapacityLeft, Bound;
    hide KdfOperation.OutputStatus, KdfOperation.CapacityAfter, KdfOperation.Hangs, KdfOperation.In, InputsOf;
    hide KdfOperation.InputsStatus, InputsReady, KdfOperation.BoundLength, Takes, Asks, Verdict;
    if !s.failed {
      Seen(op, s);
    }
    var status := op.InputInteger(step, value);
    reply := Reply(status, [], 0);
  }

  method GiveKey(op: KdfOperation, step: Step, data: seq<byte>, keyStatus: Status, usageOk: bool, typeOk: bool, algOk: bool,
                 derives: bool, ghost s: Session) returns (reply: Reply)
    requires Follows(op, s)
    modifies op`stepsSet, op`buffers, op`given, op`errorState, op`canOutputKey
    ensures Follows(op, After(s, InputKey(step, data, keyStatus, usageOk, typeOk, algOk, derives))) && reply == Answer(s, InputKey(step, data, keyStatus, usageOk, typeOk, algOk, derives))
  {
    hide KdfOperation.Valid, StepStatus, KdfOperation.InputStatus, Slice, SliceStatus, CapacityLeft, Bound, Steps;
    hide KdfOperation.OutputStatus, KdfOperation.CapacityAfter, KdfOperation.Hangs, KdfOperation.In, InputsOf;
    hide KdfOperation.InputsStatus, InputsReady, KdfOperation.BoundLength, Takes, Asks, Verdict;
    if !s.failed {
      Seen(op, s);
    }
    var status := op.InputKey(step, data, keyStatus, usageOk, typeOk, algOk, derives);
    reply := Reply(status, [], 0);
  }

  method Agree(op: KdfOperation, step: Step, agreed: Status, secret: seq<byte>, ghost s: Session) returns (reply: Reply)
    requires Follows(op, s)
    modifies op`stepsSet, op`buffers, op`given, op`errorState, op`canOutputKey
    ensures Follows(op, After(s, KeyAgreement(step, agreed, secret))) && reply == Answer(s, KeyAgreement(step, agreed, secret))
  {
    hide KdfOperation.Valid, StepStatus, KdfOperation.InputStatus, Slice, SliceStatus, CapacityLeft, Bound, Steps;
    hide KdfOperation.OutputStatus, KdfOperation.CapacityAfter, KdfOperation.Hangs, KdfOperation.In, InputsOf;
    hide KdfOperation.InputsStatus, InputsReady, KdfOperation.BoundLength, Takes, Asks, Verdict;
    if !s.failed {
      Seen(op, s);
    }
    var status := op.KeyAgreement(step, agreed, secret);
    reply := Reply(status, [], 0);
  }

  method ReadCall(op: KdfOperation, n: nat, ghost s: Session) returns (reply: Reply)
    requires Follows(op, s) && !NeverReturns(s, Read(n))
    modifies op`capacity, op`lBytes, op`outputStarted, op`cache, op`outputOffset, op`delivered, op`errorState
    ensures Follows(op, After(s, Read(n))) && reply == Answer(s, Read(n))
  {
    hide Slice, SliceStatus, CapacityLeft, KdfOperation.OutputStatus, KdfOperation.CapacityAfter, InputsOf;
    hide KdfOperation.Hangs, KdfOperation.In, KdfOperation.Valid, KdfOperation.BoundLength, Bound, Steps, InputsReady;
    hide KdfOperation.InputsStatus, StepStatus, KdfOperation.InputStatus;
    if !s.failed {
      Seen(op, s);
    }
    var output := new byte[n](_ => 0);
    var status := op.OutputBytes(output, n);
    if status == Success {
      TheSlice(op, s, n);
    }
    reply := Reply(status, if status == Success then output[..n] else [], 0);
  }

  method CheckCall(op: KdfOperation, expected: seq<byte>, ghost s: Session) returns (reply: Reply)
    requires Follows(op, s) && !NeverReturns(s, Check(expected))
    modifies op`capacity, op`lBytes, op`outputStarted, op`cache, op`outputOffset, op`delivered, op`errorState
    ensures Follows(op, After(s, Check(expected))) && reply == Answer(s, Check(expected))
  {
    hide Slice, SliceStatus, CapacityLeft, KdfOperation.OutputStatus, KdfOperation.CapacityAfter, InputsOf;
    hide KdfOperation.Hangs, KdfOperation.In, KdfOperation.Valid, KdfOperation.BoundLength, Bound, Steps, InputsReady;
    hide KdfOperation.InputsStatus, StepStatus, KdfOperation.InputStatus;
    if !s.failed {
      Seen(op, s);
    }
    var status := op.VerifyBytes(expected);
    if Takes(s, Check(expected)) {
      TheSlice(op, s, |expected|);
    }
    reply := Reply(status, [], 0);
  }

  method KeyCall(op: KdfOperation, bits: nat, unstructured: bool, imported: Status, ghost s: Session)
    returns (reply: Reply)
    requires Follows(op, s) && !NeverReturns(s, Key(bits, unstructured, imported))
    modifies op`capacity, op`lBytes, op`outputStarted, op`cache, op`outputOffset, op`delivered, op`errorState
    ensures Follows(op, After(s, Key(bits, unstructured, imported)))
    ensures reply == Answer(s, Key(bits, unstructured, imported))
  {
    hide Slice, SliceStatus, CapacityLeft, KdfOperation.OutputStatus, KdfOperation.CapacityAfter, InputsOf;
    hide KdfOperation.Hangs, KdfOperation.In, KdfOperation.Valid, KdfOperation.BoundLength, Bound, Steps, InputsReady;
    hide KdfOperation.InputsStatus, StepStatus, KdfOperation.InputStatus;
    if !s.failed {
      Seen(op, s);
    }
    var status, key := op.OutputKey(bits, unstructured, imported);
    if Takes(s, Key(bits, unstructured, imported)) {
      TheSlice(op, s, (bits + 7) / 8);
    }
    reply := Reply(status, key, 0);
  }

  method OneCall(op: KdfOperation, call: Api, ghost s: Session) returns (reply: Reply)
    requires Follows(op, s) && SizeFits(call) && !NeverReturns(s, call)
    modifies op
    ensures Follows(op, After(s, call)) && reply == Answer(s, call)
  {
    hide Follows, After, Answer, NeverReturns;
    match call
    case SetCapacity(_) => reply := Configure(op, call, s);
    case GetCapacity => reply := Configure(op, call, s);
    case Read(n) => reply := ReadCall(op, n, s);
    case Check(expected) => reply := CheckCall(op, expected, s);
    case Key(bits, unstructured, imported) => reply := KeyCall(op, bits, unstructured, imported, s);
    case InputBytes(step, data) => reply := GiveBytes(op, step, data, s);
    case InputInteger(step, value) => reply := GiveInteger(op, step, value, s);
    case InputKey(step, data, keyStatus, usageOk, typeOk, algOk, derives) =>
      reply := GiveKey(op, step, data, keyStatus, usageOk, typeOk, algOk, derives, s);
    case KeyAgreement(step, agreed, secret) => reply := Agree(op, step, agreed, secret, s);
  }

  /** The operation would not return from the call. */
  method Stuck(op: KdfOperation, call: Api, ghost s: Session) returns (stuck: bool)
    requires Follows(op, s)
    ensures stuck <==> NeverReturns(s, call)
  {
    hide KdfOperation.Valid, SliceStatus, InputsOf, KdfOperation.OutputStatus, KdfOperation.Hangs;
    hide Bound, Steps, InputsReady, KdfOperation.InputsStatus, StepStatus, KdfOperation.InputStatus, CapacityLeft;
    hide KdfOperation.BoundLength, KdfOperation.CapacityAfter, KdfOperation.In;
    if !op.errorState {
      Seen(op, s);
    }
    stuck := op.Usable() && op.Hangs(Wanted(call))
             && match call
                case Read(_) => true
                case Check(expected) => |expected| <= INT_MAX
                case Key(bits, unstructured, _) => bits > 0 && op.canOutputKey && unstructured
                case _ => false;
  }

  /** `reply` is that of the machine to call number `i`, which does return. */
  ghost predicate AnsweredAt(first: Session, calls: seq<Api>, i: nat, reply: Reply)
    requires i < |calls|
  {
    var s := StateAfter(first, calls[..i]);
    !NeverReturns(s, calls[i]) && reply == Answer(s, calls[i])
  }

  /** Every reply is that of the machine, and there are as many as calls unless one of
      them never returns. */
  ghost predicate Replied(first: Session, calls: seq<Api>, replies: seq<Reply>) {
    && |replies| <= |calls|
    && forall i :: 0 <= i < |replies| ==> AnsweredAt(first, calls, i, replies[i])
  }

  lemma ReplyJoins(first: Session, calls: seq<Api>, replies: seq<Reply>, reply: Reply)
    requires Replied(first, calls, replies) && |replies| < |calls|
    requires AnsweredAt(first, calls, |replies|, reply)
    ensures Replied(first, calls, replies + [reply])
    ensures StateAfter(first, calls[..|replies| + 1]) == After(StateAfter(first, calls[..|replies|]), calls[|replies|])
  {
    hide AnsweredAt, After;
    StateStep(first, calls, |replies|);
  }

  lemma StateStep(first: Session, calls: seq<Api>, i: nat)
    requires i < |calls|
    ensures StateAfter(first, calls[..i + 1]) == After(StateAfter(first, calls[..i]), calls[i])
  {
    assert calls[..i + 1][..i] == calls[..i];
  }

  /** Any calls in any order, up to one that never returns: every reply is that of the
      machine. */
  method RunCalls(k: Kdf, keyAgreement: bool, calls: seq<Api>) returns (replies: seq<Reply>)
    requires HashLenOk(k.hashLen) && forall i :: 0 <= i < |calls| ==> SizeFits(calls[i])
    ensures Replied(Initial(k, keyAgreement), calls, replies)
    ensures |replies| < |calls| ==>
              NeverReturns(StateAfter(Initial(k, keyAgreement), calls[..|replies|]), calls[|replies|])
  {
    hide Answer, After, NeverReturns, SizeFits, Replied, Follows, KdfOperation.Valid;
    var op: KdfOperation := new KdfOperation();
    var status := op.Setup(k, keyAgreement);
    Ready(op, k, keyAgreement);
    replies := [];
    ghost var first := Initial(k, keyAgreement);
    assert Replied(first, calls, []) by {
      NoReplies(first, calls);
    }
    var i := 0;
    while i < |calls|
      invariant 0 <= i == |replies| <= |calls| && Follows(op, StateAfter(first, calls[..i]))
      invariant Replied(first, calls, replies)
      modifies op
    {
      ghost var s := StateAfter(first, calls[..i]);
      var stuck := Stuck(op, calls[i], s);
      if stuck {
        return;
      }
      var reply := OneCall(op, calls[i], s);
      ReplyJoins(first, calls, replies, reply);
      replies := replies + [reply];
      i := i + 1;
    }
  }

  lemma NoReplies(first: Session, calls: seq<Api>)
    ensures Replied(first, calls, [])
  {
  }

  lemma Ready(op: KdfOperation, k: Kdf, keyAgreement: bool)
    requires op.Valid() && op.active && op.kdf == Installed(k, keyAgreement) && op.keyAgreement == keyAgreement
    requires op.capacity == Granted(k) && op.cost == op.lBytes == 0 && op.given == [] && op.delivered == []
    requires !op.errorState && !op.outputStarted && !op.canOutputKey
    ensures Follows(op, Initial(k, keyAgreement))
  {
    op.OffsetIsDelivered();
  }

  // ----- what follows for every run -----

  /** What every state of a run satisfies. */
  ghost predicate Sane(s: Session) {
    && HashLenOk(s.kdf.hashLen) && s.capacity <= UNLIMITED && s.offset <= SIZE_MAX
    && (!s.started ==> s.offset == 0)
    && (s.cost >= 1 ==> s.kdf.alg == Pbkdf2Hmac || s.kdf.alg == Pbkdf2Cmac)
    && (Limit(s.kdf).Some? ==> s.capacity <= Limit(s.kdf).value)
    && (IsSp800(s.kdf.alg) ==>
          s.capacity + s.offset <= SP800_108_MAX && (s.started ==> s.capacity + s.offset <= s.lBytes <= SP800_108_MAX))
  }

  /** `now` is a later state of the same operation: the stream goes on from where it was,
      and once output has begun its inputs are settled. */
  ghost predicate Continues(was: Session, now: Session) {
    && now.kdf == was.kdf && was.offset <= now.offset
    && Stream(now, now.offset)[..was.offset] == Stream(was, was.offset)
    && (was.started ==> now.started && now.given == was.given && now.cost == was.cost && now.lBytes == was.lBytes)
    && (was.failed ==> now.failed && now.offset == was.offset)
    && (was.capacity != UNLIMITED ==>
          now.capacity != UNLIMITED && now.capacity + now.offset <= was.capacity + was.offset)
  }

  /** With all its inputs in place a derivation is a prefix of every longer one. */
  lemma StreamPrefix(s: Session, n: nat)
    requires HashLenOk(s.kdf.hashLen) && InputsReady(s, n) == Success
    ensures Stream(s, s.offset + n)[..s.offset] == Stream(s, s.offset)
  {
    hide Derived, Collected, Count;
    DerivedPrefix(s.kdf, InputsOf(s), Bound(s), s.offset, s.offset + n);
  }

  lemma StepContinues(s: Session, call: Api)
    requires Sane(s)
    ensures Sane(After(s, call)) && Continues(s, After(s, call))
    ensures Takes(s, call) ==>
              var t := After(s, call);
              t.offset == s.offset + Wanted(call) && Stream(t, t.offset)[s.offset..] == Slice(s, Wanted(call))
    ensures !Takes(s, call) ==> After(s, call).offset == s.offset
  {
    hide After, Sane, Continues, Takes, Slice, Stream;
    if Takes(s, call) {
      TakeContinues(s, call);
    } else {
      OtherContinues(s, call);
    }
  }

  lemma OtherContinues(s: Session, call: Api)
    requires Sane(s) && !Takes(s, call)
    ensures Sane(After(s, call)) && Continues(s, After(s, call)) && After(s, call).offset == s.offset
  {
    hide Derived, BackendStatus, ValidateStep, InputsFrom, Wanted, Asks, Verdict, SliceStatus, Takes, RequiredSteps;
  }

  lemma TakeContinues(s: Session, call: Api)
    requires Sane(s) && Takes(s, call)
    ensures var t := After(s, call);
            && Sane(t) && Continues(s, t) && t.offset == s.offset + Wanted(call)
            && Stream(t, t.offset)[s.offset..] == Slice(s, Wanted(call))
  {
    hide Derived, BackendStatus, ValidateStep, Collected, Count, RequiredSteps, Limit, Asks, Verdict, Wanted;
    StreamPrefix(s, Wanted(call));
  }

  lemma ContinuesTransitive(a: Session, b: Session, c: Session)
    requires Continues(a, b) && Continues(b, c)
    ensures Continues(a, c)
  {
    hide Stream;
    assert Stream(c, c.offset)[..b.offset][..a.offset] == Stream(c, c.offset)[..a.offset];
  }

  lemma {:induction false} RunSane(k: Kdf, keyAgreement: bool, calls: seq<Api>)
    requires HashLenOk(k.hashLen)
    ensures Sane(StateAfter(Initial(k, keyAgreement), calls))
  {
    hide After, Continues;
    if |calls| > 0 {
      RunSane(k, keyAgreement, calls[..|calls| - 1]);
      StepContinues(StateAfter(Initial(k, keyAgreement), calls[..|calls| - 1]), calls[|calls| - 1]);
    }
  }

  lemma {:induction false} RunContinues(k: Kdf, keyAgreement: bool, calls: seq<Api>, i: nat, j: nat)
    requires HashLenOk(k.hashLen) && i <= j <= |calls|
    ensures Continues(StateAfter(Initial(k, keyAgreement), calls[..i]), StateAfter(Initial(k, keyAgreement), calls[..j]))
  {
    hide After, Stream, StateAfter;
    var first := Initial(k, keyAgreement);
    if i < j {
      RunContinues(k, keyAgreement, calls, i, j - 1);
      RunSane(k, keyAgreement, calls[..j - 1]);
      StateStep(first, calls, j - 1);
      StepContinues(StateAfter(first, calls[..j - 1]), calls[j - 1]);
      ContinuesTransitive(StateAfter(first, calls[..i]), StateAfter(first, calls[..j - 1]), StateAfter(first, calls[..j]));
    }
  }

  /** The bytes of a reply, or the verdict on a comparison, are those of `stream` behind `at`. */
  ghost predicate RightAbout(stream: seq<byte>, at: nat, call: Api, r: Reply) {
    match call
    case Read(n) => r.status == Success ==> at + n <= |stream| && r.bytes == stream[at..at + n]
    case Check(expected) =>
      r.status == Success || r.status == InvalidSignature ==>
        && at + |expected| <= |stream|
        && (r.status == Success <==> stream[at..at + |expected|] == expected)
    case Key(bits, _, _) =>
      r.status == Success || r.bytes != [] ==>
        at + (bits + 7) / 8 <= |stream| && r.bytes == stream[at..at + (bits + 7) / 8] && bits > 0
    case _ => r.bytes == []
  }

  /** Whatever the calls: all that is read, compared or put into keys are consecutive
      slices of the one stream that the inputs at the end of the run define. */
  lemma SlicesOfOneStream(k: Kdf, keyAgreement: bool, calls: seq<Api>, i: nat)
    requires HashLenOk(k.hashLen) && i < |calls|
    ensures var first := Initial(k, keyAgreement);
            var before, after, last := StateAfter(first, calls[..i]), StateAfter(first, calls[..i + 1]), StateAfter(first, calls);
            && RightAbout(Stream(last, last.offset), before.offset, calls[i], Answer(before, calls[i]))
            && after.offset == before.offset + if Takes(before, calls[i]) then Wanted(calls[i]) else 0
  {
    hide Stream, Slice, StateAfter, After, Takes, RightAbout, Answer;
    var first := Initial(k, keyAgreement);
    var before, after, last := StateAfter(first, calls[..i]), StateAfter(first, calls[..i + 1]), StateAfter(first, calls);
    RunSane(k, keyAgreement, calls[..i]);
    StateStep(first, calls, i);
    StepContinues(before, calls[i]);
    RunContinues(k, keyAgreement, calls, i + 1, |calls|);
    assert calls[..|calls|] == calls;
    var all := Stream(last, last.offset);
    assert all[..after.offset][before.offset..] == all[before.offset..after.offset];
    AnswerIsRight(before, calls[i], all);
  }

  lemma AnswerIsRight(s: Session, call: Api, stream: seq<byte>)
    requires var end := s.offset + Wanted(call);
             Takes(s, call) ==> end <= |stream| && stream[s.offset..end] == Slice(s, Wanted(call))
    ensures RightAbout(stream, s.offset, call, Answer(s, call))
  {
    hide Slice, SliceStatus, StepStatus;
  }

  /** At no point does more come out than the capacity at that point, nor from counter
      mode more than the length it binds. */
  lemma CapacityBoundsOutput(k: Kdf, keyAgreement: bool, calls: seq<Api>, i: nat, j: nat)
    requires HashLenOk(k.hashLen) && i <= j <= |calls|
    ensures var s, t := StateAfter(Initial(k, keyAgreement), calls[..i]), StateAfter(Initial(k, keyAgreement), calls[..j]);
            && t.offset - s.offset <= s.capacity
            && (IsSp800(t.kdf.alg) && t.started ==> t.offset <= t.lBytes <= SP800_108_MAX)
  {
    hide Stream, StateAfter;
    RunContinues(k, keyAgreement, calls, i, j);
    RunSane(k, keyAgreement, calls[..j]);
  }

  /** After a failure nothing but the capacity can be had. */
  lemma FailureIsSticky(k: Kdf, keyAgreement: bool, calls: seq<Api>, i: nat, j: nat)
    requires HashLenOk(k.hashLen) && i < j < |calls|
    ensures var r := Answer(StateAfter(Initial(k, keyAgreement), calls[..i]), calls[i]).status;
            KdfOperation.Fatal(r) && !calls[i].SetCapacity? && !calls[j].GetCapacity? ==>
              Answer(StateAfter(Initial(k, keyAgreement), calls[..j]), calls[j]) == Reply(BadState, [], 0)
  {
    hide Stream, StateAfter, Effect, StatusOf, Takes;
    StateStep(Initial(k, keyAgreement), calls, i);
    RunContinues(k, keyAgreement, calls, i + 1, j);
  }

  /** The input that a call with this status has put in, if it is one. */
  function AcceptedBy(call: Api, status: Status): seq<Given> {
    if status != Success then []
    else match call
      case InputBytes(step, data) => [Given(step, data)]
      case InputKey(step, data, _, _, _, _, _) => [Given(step, data)]
      case KeyAgreement(step, _, secret) => [Given(step, secret)]
      case _ => []
  }

  /** The inputs that calls and their replies show to be accepted. */
  function AcceptedIn(calls: seq<Api>, replies: seq<Reply>): seq<Given>
    requires |calls| == |replies|
  {
    if |calls| == 0 then []
    else
      var n := |calls| - 1;
      AcceptedIn(calls[..n], replies[..n]) + AcceptedBy(calls[n], replies[n].status)
  }

  lemma GivenStep(s: Session, call: Api)
    ensures After(s, call).given == s.given + AcceptedBy(call, Answer(s, call).status)
  {
    hide StatusOf, Takes;
  }

  lemma RepliedFront(first: Session, calls: seq<Api>, replies: seq<Reply>)
    requires Replied(first, calls, replies) && |replies| == |calls| > 0
    ensures Replied(first, calls[..|calls| - 1], replies[..|calls| - 1])
    ensures replies[|calls| - 1] == Answer(StateAfter(first, calls[..|calls| - 1]), calls[|calls| - 1])
  {
    hide Answer, NeverReturns, StateAfter;
    var n := |calls| - 1;
    forall i | 0 <= i < n ensures AnsweredAt(first, calls[..n], i, replies[i]) {
      assert AnsweredAt(first, calls, i, replies[i]);
      assert calls[..n][..i] == calls[..i];
    }
    assert AnsweredAt(first, calls, n, replies[n]);
  }

  /** The stream is that of the accepted inputs. */
  lemma {:induction false} GivenIsAccepted(k: Kdf, keyAgreement: bool, calls: seq<Api>, replies: seq<Reply>)
    requires Replied(Initial(k, keyAgreement), calls, replies) && |replies| == |calls|
    ensures StateAfter(Initial(k, keyAgreement), calls).given == AcceptedIn(calls, replies)
  {
    hide After, Answer, Replied;
    if |calls| > 0 {
      var n := |calls| - 1;
      RepliedFront(Initial(k, keyAgreement), calls, replies);
      GivenIsAccepted(k, keyAgreement, calls[..n], replies[..n]);
      GivenStep(StateAfter(Initial(k, keyAgreement), calls[..n]), calls[n]);
    }
  }

  /** The call puts a secret or password of a key that may derive keys, or an agreed secret, in. */
  predicate Opens(call: Api) {
    (call.InputKey? && call.derives && (call.step == Secret || call.step == Password))
    || (call.KeyAgreement? && call.step == Secret)
  }

  /** A key with any bytes comes out only behind such an input. */
  lemma KeysNeedConsent(k: Kdf, keyAgreement: bool, calls: seq<Api>, j: nat)
    requires j < |calls|
    ensures calls[j].Key? && Answer(StateAfter(Initial(k, keyAgreement), calls[..j]), calls[j]).bytes != [] ==>
              exists i :: 0 <= i < j && Opens(calls[i])
                          && Answer(StateAfter(Initial(k, keyAgreement), calls[..i]), calls[i]).status == Success
  {
    hide StateAfter, SliceStatus, StatusOf, Slice, Opens;
    var first, front := Initial(k, keyAgreement), calls[..j];
    if calls[j].Key? && Answer(StateAfter(first, front), calls[j]).bytes != [] {
      PermissionHasSource(k, keyAgreement, front);
      var i :| 0 <= i < j && Opens(front[i]) && Answer(StateAfter(first, front[..i]), front[i]).status == Success;
      assert front[..i] == calls[..i] && Opens(calls[i]);
    }
  }

  lemma {:induction false} PermissionHasSource(k: Kdf, keyAgreement: bool, calls: seq<Api>)
    ensures StateAfter(Initial(k, keyAgreement), calls).canOutputKey ==>
              exists i :: 0 <= i < |calls| && Opens(calls[i])
                          && Answer(StateAfter(Initial(k, keyAgreement), calls[..i]), calls[i]).status == Success
  {
    hide StatusOf, Takes;
    var first := Initial(k, keyAgreement);
    if |calls| > 0 && StateAfter(first, calls).canOutputKey {
      var n := |calls| - 1;
      var front := calls[..n];
      if StateAfter(first, front).canOutputKey {
        PermissionHasSource(k, keyAgreement, front);
        var i :| 0 <= i < n && Opens(front[i]) && Answer(StateAfter(first, front[..i]), front[i]).status == Success;
        assert front[..i] == calls[..i] && Opens(calls[i]);
      } else {
        assert Opens(calls[n]);
      }
    }
  }
}
