/** The orders in which a key derivation takes its inputs: which calls succeed, which
    come too early or too late, and what an output call needs. */
module KdfOrders {
  import opened Bytes
  import opened KdfOperation
  import opened KdfRuns
  import opened KdfSpec
  import opened Psa

  // ----- single inputs -----

  /** The byte inputs that an algorithm has. */
  predicate Has(a: Alg, step: Step) {
    match a
    case NoKdf => false
    case Raw => step == Secret
    case HkdfExtract => step == Salt || step == Secret
    case HkdfExpand => step == Secret || step == Info
    case Hkdf => step == Salt || step == Secret || step == Info
    case Tls12Prf => step == Secret || step == Label || step == Seed
    case Tls12PskToMs => step == Seed || step == OtherSecret || step == Secret
    case Pbkdf2Hmac => step == Password || step == Salt
    case Pbkdf2Cmac => step == Password || step == Salt
    case Sp800Hmac => step == Secret || step == Label || step == Context
    case Sp800Cmac => step == Secret || step == Label || step == Context
  }

  /** Only the salt of PBKDF2 comes in parts. */
  predicate Repeats(a: Alg, step: Step) {
    step == Salt && (a == Pbkdf2Hmac || a == Pbkdf2Cmac)
  }

  /** Extraction takes its salt first, expansion its secret, PSK-to-MS its seed; the salt
      of HKDF may be missing but never comes behind the secret. */
  predicate InOrder(a: Alg, before: set<Step>, step: Step) {
    match a
    case HkdfExtract => if step == Salt then Secret !in before else Salt in before
    case HkdfExpand => if step == Secret then before == {} else Secret in before
    case Hkdf => step == Salt ==> Secret !in before
    case Tls12PskToMs => step != Seed ==> Seed in before
    case _ => true
  }

  predicate LengthFine(k: Kdf, step: Step, n: nat) {
    && (k.alg == HkdfExpand && step == Secret ==> n == k.hashLen)
    && (k.alg == Tls12PskToMs && step == Secret ==> n <= 128)
    && (k.alg == Tls12PskToMs && step == OtherSecret ==> n <= 65535)
  }

  /** The reply to every byte input, whatever was put in before. */
  lemma InputOutcome(s: Session, step: Step, data: seq<byte>)
    ensures Answer(s, InputBytes(step, data)).status ==
              if s.failed || s.started then BadState
              else if step == Zero then InvalidArgument
              else if step in Steps(s) && !Repeats(s.kdf.alg, step) then BadState
              else if s.kdf.alg == NoKdf then NotSupported
              else if !Has(s.kdf.alg, step) then InvalidArgument
              else if !InOrder(s.kdf.alg, Steps(s), step) then BadState
              else if !LengthFine(s.kdf, step, |data|) then InvalidArgument
              else Success
  {
    hide Steps;
  }

  /** A key is an input under the same rules, once its policy has been looked at. */
  lemma KeyOutcome(s: Session, step: Step, data: seq<byte>, usageOk: bool, typeOk: bool, algOk: bool, derives: bool)
    ensures var r := Answer(s, InputKey(step, data, Success, usageOk, typeOk, algOk, derives)).status;
            && (usageOk && typeOk && algOk ==> r == Answer(s, InputBytes(step, data)).status)
            && (r == Success ==> usageOk && typeOk && algOk)
  {
    hide StepStatus;
  }

  /** Digests from 1 to 64 bytes. */
  lemma DigestSizes(h: nat)
    ensures HashLenOk(h) <==> 1 <= h <= 64
  {
  }

  // ----- what output needs -----

  /** The inputs without which nothing comes out. */
  function Needs(a: Alg): set<Step> {
    match a
    case NoKdf => {}
    case Raw => {Secret}
    case HkdfExtract => {Salt, Secret}
    case HkdfExpand => {Secret, Info}
    case Hkdf => {Secret, Info}
    case Tls12Prf => {Secret, Label, Seed}
    case Tls12PskToMs => {Seed, Secret}
    case Pbkdf2Hmac => {Password, Salt, Cost}
    case Pbkdf2Cmac => {Password, Salt, Cost}
    case Sp800Hmac => {Secret}
    case Sp800Cmac => {Secret}
  }

  /** The lengths, in numbers, that the primitives take for an output of `n` bytes in all. */
  predicate WithinLimits(k: Kdf, i: Inputs, n: nat) {
    match k.alg
    case NoKdf => false
    case Raw => true
    case HkdfExtract => |i.salt| <= 0xFFFF_FFFF && |i.secret| <= 0xFFFF_FFFF && n <= k.hashLen
    case HkdfExpand => |i.secret| <= 0xFFFF_FFFF && |i.info| <= 0xFFFF_FFFF && n <= 0xFFFF_FFFF
    case Hkdf => |i.salt| <= 0xFFFF_FFFF && |i.secret| <= 0xFFFF_FFFF && |i.info| <= 0xFFFF_FFFF && n <= 0xFFFF_FFFF
    case Tls12Prf =>
      |i.secret| <= 0xFFFF_FFFF && |i.labelBytes| <= 0xFFFF_FFFF && |i.seed| <= 0xFFFF_FFFF && n <= 0xFFFF_FFFF
    case Tls12PskToMs =>
      && |i.secret| <= 0xFFFF && (i.otherSecret.Some? ==> |i.otherSecret.value| <= 0xFFFF)
      && |i.seed| <= 0xFFFF_FFFF && n <= 0xFFFF_FFFF
    case Pbkdf2Hmac => |i.password| <= 0x7FFF_FFFF && |i.salt| <= 0x7FFF_FFFF && i.cost <= 0x7FFF_FFFF && n <= 0x7FFF_FFFF
    case Pbkdf2Cmac => |i.password| <= 0xFFFF_FFFF && |i.salt| <= 0xFFFF_FFFB
    case Sp800Hmac => |i.secret| <= 0x7FFF_FFFF && |i.labelBytes| <= 0xFFFF_FFFF && |i.context| <= 0xFFFF_FFFF
    case Sp800Cmac => |i.secret| in {16, 24, 32} && |i.labelBytes| <= 0xFFFF_FFFF && |i.context| <= 0xFFFF_FFFF
  }

  /** The TLS 1.2 functions take only the hashes that wolfCrypt has a PRF for. */
  predicate Supported(k: Kdf) {
    k.alg != NoKdf && (k.alg == Tls12Prf || k.alg == Tls12PskToMs ==> k.prfHash)
  }

  /** The reply to every read. */
  lemma ReadOutcome(s: Session, n: nat)
    ensures Answer(s, Read(n)).status ==
              if s.failed then BadState
              else if s.kdf.alg == Raw && !(Secret in Steps(s) && s.offset + n <= |InputsOf(s).secret|) then InsufficientData
              else if !(Needs(s.kdf.alg) <= Steps(s)) then BadState
              else if s.capacity != 0xFFFF_FFFF_FFFF_FFFF && s.capacity < n then InsufficientData
              else if s.offset + n > 0xFFFF_FFFF_FFFF_FFFF then InvalidArgument
              else if !Supported(s.kdf) then NotSupported
              else if !WithinLimits(s.kdf, InputsOf(s), s.offset + n) then InvalidArgument
              else Success
  {
    hide Steps, InputsOf, Slice;
  }

  /** The capacity behind setup, and the algorithm the category alone stands for. */
  lemma InitialCapacity(k: Kdf, keyAgreement: bool)
    ensures var s := Initial(k, keyAgreement);
            && s.capacity == (match k.alg
                              case HkdfExtract => k.hashLen
                              case HkdfExpand => 255 * k.hashLen
                              case Hkdf => 255 * k.hashLen
                              case Sp800Hmac => 0x1FFF_FFFF
                              case Sp800Cmac => 0x1FFF_FFFF
                              case _ => 0xFFFF_FFFF_FFFF_FFFF)
            && s.kdf.p == k.p && s.kdf.hashLen == k.hashLen
            && (k.alg != Raw && k.alg != NoKdf ==> s.kdf == k)
            && (k.alg == Raw || k.alg == NoKdf ==> s.kdf.alg == if keyAgreement then Raw else NoKdf)
  {
  }

  /** In every run a new capacity is taken exactly when it is no larger than the one there is. */
  lemma CapacityOutcome(k: Kdf, keyAgreement: bool, calls: seq<Api>, value: nat)
    requires HashLenOk(k.hashLen)
    ensures var s := StateAfter(Initial(k, keyAgreement), calls);
            Answer(s, SetCapacity(value)).status
            == if s.failed then BadState else if value <= s.capacity then Success else InvalidArgument
  {
    hide StateAfter;
    RunSane(k, keyAgreement, calls);
  }

  // ----- failures -----

  /** The call ends the operation: any failure but a mismatch, a bad handle, or a refused
      or queried capacity. */
  predicate Ends(call: Api, status: Status) {
    && !call.SetCapacity? && !call.GetCapacity?
    && status != Success && status != InvalidSignature && status != InvalidHandle
  }

  /** In every run the operation has failed exactly when some call ended it, and from then
      on every call but the capacity query reports a bad state. */
  lemma {:induction false} FailedExactly(k: Kdf, keyAgreement: bool, calls: seq<Api>, replies: seq<Reply>)
    requires Replied(Initial(k, keyAgreement), calls, replies) && |replies| == |calls|
    ensures StateAfter(Initial(k, keyAgreement), calls).failed <==>
              exists i :: 0 <= i < |calls| && Ends(calls[i], replies[i].status)
    ensures forall call: Api :: StateAfter(Initial(k, keyAgreement), calls).failed && !call.GetCapacity? ==>
              Answer(StateAfter(Initial(k, keyAgreement), calls), call) == Reply(BadState, [], 0)
  {
    hide Replied, Effect, Answer, Ends;
    if |calls| > 0 {
      var n := |calls| - 1;
      var s := StateAfter(Initial(k, keyAgreement), calls[..n]);
      RepliedFront(Initial(k, keyAgreement), calls, replies);
      FailedExactly(k, keyAgreement, calls[..n], replies[..n]);
      EndsFails(s, calls[n]);
      if s.failed {
        var i :| 0 <= i < n && Ends(calls[..n][i], replies[..n][i].status);
        assert Ends(calls[i], replies[i].status);
      }
    }
    forall call: Api | !call.GetCapacity? && StateAfter(Initial(k, keyAgreement), calls).failed
      ensures Answer(StateAfter(Initial(k, keyAgreement), calls), call) == Reply(BadState, [], 0)
    {
      FailedAnswer(StateAfter(Initial(k, keyAgreement), calls), call);
    }
  }

  lemma EndsFails(s: Session, call: Api)
    ensures After(s, call).failed <==> s.failed || Ends(call, Answer(s, call).status)
  {
    hide Effect, StatusOf, Takes;
  }

  lemma FailedAnswer(s: Session, call: Api)
    requires s.failed && !call.GetCapacity?
    ensures Answer(s, call) == Reply(BadState, [], 0)
  {
    hide StatusOf, Takes;
  }

  // ----- sequences of inputs -----

  function StepsIn(inputs: seq<Given>): set<Step> {
    set g | g in inputs :: g.step
  }

  /** One more input fits behind those with the steps `before`. */
  predicate Fits(k: Kdf, before: set<Step>, g: Given) {
    && Has(k.alg, g.step) && (g.step in before ==> Repeats(k.alg, g.step))
    && InOrder(k.alg, before, g.step) && LengthFine(k, g.step, |g.data|)
  }

  ghost predicate Orderly(k: Kdf, inputs: seq<Given>) {
    forall i :: 0 <= i < |inputs| ==> Fits(k, StepsIn(inputs[..i]), inputs[i])
  }

  lemma OrderlyGrows(k: Kdf, inputs: seq<Given>, g: Given)
    ensures Orderly(k, inputs + [g]) <==> Orderly(k, inputs) && Fits(k, StepsIn(inputs), g)
  {
    hide Fits, StepsIn;
    var longer := inputs + [g];
    assert longer[..|inputs|] == inputs;
    if Orderly(k, longer) {
      assert Fits(k, StepsIn(longer[..|inputs|]), longer[|inputs|]);
      forall i | 0 <= i < |inputs| ensures Fits(k, StepsIn(inputs[..i]), inputs[i]) {
        assert longer[..i] == inputs[..i] && Fits(k, StepsIn(longer[..i]), longer[i]);
      }
    }
    if Orderly(k, inputs) && Fits(k, StepsIn(inputs), g) {
      forall i | 0 <= i < |longer| ensures Fits(k, StepsIn(longer[..i]), longer[i]) {
        if i < |inputs| {
          assert longer[..i] == inputs[..i];
        }
      }
    }
  }

  lemma {:induction false} CountMeansIn(given: seq<Given>, step: Step)
    ensures Count(given, step) > 0 <==> step in StepsIn(given)
  {
    if |given| > 0 {
      var n := |given| - 1;
      CountMeansIn(given[..n], step);
      assert given == given[..n] + [given[n]];
    }
  }

  /** Without a cost the steps of a session are those of its inputs; a cost adds its own. */
  lemma StepsOfSession(s: Session)
    ensures forall step :: step != Cost ==> (step in Steps(s) <==> step in StepsIn(s.given))
    ensures s.cost == 0 && Cost !in StepsIn(s.given) ==> Steps(s) == StepsIn(s.given)
    ensures Cost in Steps(s) <==> s.cost >= 1
  {
    hide Count, StepsIn;
    forall step: Step ensures Count(s.given, step) > 0 <==> step in StepsIn(s.given) {
      CountMeansIn(s.given, step);
    }
  }

  lemma OrderlyHasNoCost(k: Kdf, inputs: seq<Given>)
    requires Orderly(k, inputs)
    ensures Cost !in StepsIn(inputs)
  {
    hide InOrder, LengthFine, Repeats;
    forall i | 0 <= i < |inputs| ensures inputs[i].step != Cost {
      assert Fits(k, StepsIn(inputs[..i]), inputs[i]);
    }
  }

  /** A byte input that no key or state check stands in front of succeeds exactly when it fits. */
  lemma StepFits(s: Session, g: Given)
    requires Sane(s) && Orderly(s.kdf, s.given)
    ensures StepStatus(s, g.step, |g.data|) == Success <==> !s.started && Fits(s.kdf, StepsIn(s.given), g)
  {
    hide Steps, StepsIn, Sane;
    OrderlyHasNoCost(s.kdf, s.given);
    StepsOfSession(s);
    var t := s.(failed := false);
    assert StepStatus(s, g.step, |g.data|) == StepStatus(t, g.step, |g.data|) && Steps(t) == Steps(s) by {
      SameSteps(s, t);
    }
    InputOutcome(t, g.step, g.data);
    if s.cost >= 1 {
      CostOnlyForPbkdf2(s);
    }
  }

  lemma SameSteps(s: Session, t: Session)
    requires t == s.(failed := t.failed)
    ensures Steps(t) == Steps(s)
  {
  }

  lemma CostOnlyForPbkdf2(s: Session)
    requires Sane(s) && s.cost >= 1
    ensures s.kdf.alg == Pbkdf2Hmac || s.kdf.alg == Pbkdf2Cmac
  {
  }

  // ----- runs -----

  lemma AcceptedFits(s: Session, call: Api)
    requires Sane(s) && Orderly(s.kdf, s.given)
    ensures var more := AcceptedBy(call, Answer(s, call).status);
            more == [] || (|more| == 1 && !s.started && Fits(s.kdf, StepsIn(s.given), more[0]))
  {
    hide Sane, Orderly, Fits, StepStatus, Takes;
    match call
    case InputBytes(step, data) => StepFits(s, Given(step, data));
    case InputKey(step, data, _, _, _, _, _) => StepFits(s, Given(step, data));
    case KeyAgreement(step, _, secret) => StepFits(s, Given(step, secret));
    case _ =>
  }

  lemma KdfStays(s: Session, call: Api)
    ensures After(s, call).kdf == s.kdf
  {
    hide StatusOf, Takes;
  }

  lemma {:induction false} RunsAreOrderly(k: Kdf, keyAgreement: bool, calls: seq<Api>)
    requires HashLenOk(k.hashLen)
    ensures var s := StateAfter(Initial(k, keyAgreement), calls);
            s.kdf == Installed(k, keyAgreement) && Orderly(s.kdf, s.given)
  {
    hide After, Orderly, Fits, Sane, AcceptedBy, Answer;
    if |calls| == 0 {
      assert Orderly(Installed(k, keyAgreement), []) by {
        NoInputs(Installed(k, keyAgreement));
      }
    } else {
      var n := |calls| - 1;
      var s := StateAfter(Initial(k, keyAgreement), calls[..n]);
      RunsAreOrderly(k, keyAgreement, calls[..n]);
      RunSane(k, keyAgreement, calls[..n]);
      AcceptedFits(s, calls[n]);
      GivenStep(s, calls[n]);
      KdfStays(s, calls[n]);
      var more := AcceptedBy(calls[n], Answer(s, calls[n]).status);
      if more != [] {
        assert more == [more[0]];
        OrderlyGrows(s.kdf, s.given, more[0]);
      } else {
        assert s.given + more == s.given;
      }
    }
  }

  lemma NoInputs(k: Kdf)
    ensures Orderly(k, [])
  {
  }

  /** What can never follow what: nothing comes twice but the salt of PBKDF2; no salt
      behind the secret it belongs to; an expansion begins with its secret, an extraction
      with its salt, PSK-to-MS with its seed. */
  ghost predicate KeepsOrder(k: Kdf, inputs: seq<Given>) {
    forall i, j :: 0 <= i < j < |inputs| ==>
      && (inputs[i].step == inputs[j].step ==> inputs[i].step == Salt && (k.alg == Pbkdf2Hmac || k.alg == Pbkdf2Cmac))
      && (k.alg == Hkdf || k.alg == HkdfExtract ==> !(inputs[i].step == Secret && inputs[j].step == Salt))
      && (k.alg == HkdfExpand ==> inputs[i].step == Secret && inputs[j].step == Info)
      && (k.alg == HkdfExtract ==> inputs[i].step == Salt && inputs[j].step == Secret)
      && (k.alg == Tls12PskToMs ==> inputs[j].step != Seed)
  }

  /** The first input of those algorithms that insist on one. */
  predicate BeginsRight(k: Kdf, inputs: seq<Given>) {
    inputs != [] ==>
      && (k.alg == HkdfExtract ==> inputs[0].step == Salt)
      && (k.alg == HkdfExpand ==> inputs[0].step == Secret)
      && (k.alg == Tls12PskToMs ==> inputs[0].step == Seed)
  }

  lemma OrderlyKeepsOrder(k: Kdf, inputs: seq<Given>)
    requires Orderly(k, inputs)
    ensures KeepsOrder(k, inputs) && BeginsRight(k, inputs)
  {
    if inputs != [] {
      assert Fits(k, StepsIn(inputs[..0]), inputs[0]);
      assert StepsIn(inputs[..0]) == {};
    }
    forall i, j | 0 <= i < j < |inputs|
      ensures inputs[i].step in StepsIn(inputs[..j]) && Fits(k, StepsIn(inputs[..j]), inputs[j])
      ensures Fits(k, StepsIn(inputs[..i]), inputs[i])
      ensures inputs[0].step in StepsIn(inputs[..j])
    {
      assert inputs[..j][i] == inputs[i] && inputs[..j][0] == inputs[0];
    }
  }

  /** In every run the accepted inputs keep that order, whether they came as bytes, as keys
      or from an agreement, and none is accepted once output has begun. */
  lemma InputOrderOfRuns(k: Kdf, keyAgreement: bool, calls: seq<Api>, replies: seq<Reply>)
    requires HashLenOk(k.hashLen)
    requires Replied(Initial(k, keyAgreement), calls, replies) && |replies| == |calls|
    ensures KeepsOrder(Installed(k, keyAgreement), AcceptedIn(calls, replies))
    ensures BeginsRight(Installed(k, keyAgreement), AcceptedIn(calls, replies))
    ensures forall i, j :: 0 <= i < j < |calls| && calls[i].Read? && replies[i].status == Success ==>
              AcceptedBy(calls[j], replies[j].status) == []
  {
    hide StateAfter, Replied, AcceptedIn, Orderly, KeepsOrder, BeginsRight, AcceptedBy;
    GivenIsAccepted(k, keyAgreement, calls, replies);
    RunsAreOrderly(k, keyAgreement, calls);
    OrderlyKeepsOrder(Installed(k, keyAgreement), AcceptedIn(calls, replies));
    forall i, j | 0 <= i < j < |calls| && calls[i].Read? && replies[i].status == Success
      ensures AcceptedBy(calls[j], replies[j].status) == []
    {
      NoInputBehindOutput(k, keyAgreement, calls, replies, i, j);
    }
  }

  lemma NoInputBehindOutput(k: Kdf, keyAgreement: bool, calls: seq<Api>, replies: seq<Reply>, i: nat, j: nat)
    requires HashLenOk(k.hashLen) && i < j < |calls| && calls[i].Read?
    requires Replied(Initial(k, keyAgreement), calls, replies) && |replies| == |calls| && replies[i].status == Success
    ensures AcceptedBy(calls[j], replies[j].status) == []
  {
    hide StateAfter, AcceptedBy, Stream, Answer, After, Orderly, Fits;
    var first := Initial(k, keyAgreement);
    var s, t := StateAfter(first, calls[..i]), StateAfter(first, calls[..j]);
    assert AnsweredAt(first, calls, i, replies[i]) && AnsweredAt(first, calls, j, replies[j]);
    StateStep(first, calls, i);
    ReadStarts(s, calls[i]);
    RunContinues(k, keyAgreement, calls, i + 1, j);
    RunSane(k, keyAgreement, calls[..j]);
    RunsAreOrderly(k, keyAgreement, calls[..j]);
    AcceptedFits(t, calls[j]);
  }

  lemma ReadStarts(s: Session, call: Api)
    requires call.Read? && Answer(s, call).status == Success
    ensures After(s, call).started
  {
    hide SliceStatus, Slice;
  }

  // ----- which sequences succeed -----

  /** All calls report success. */
  ghost predicate AllSucceed(first: Session, calls: seq<Api>) {
    forall i :: 0 <= i < |calls| ==> Answer(StateAfter(first, calls[..i]), calls[i]).status == Success
  }

  lemma SucceedOneMore(first: Session, calls: seq<Api>, call: Api)
    ensures AllSucceed(first, calls + [call])
       <==> AllSucceed(first, calls) && Answer(StateAfter(first, calls), call).status == Success
    ensures StateAfter(first, calls + [call]) == After(StateAfter(first, calls), call)
  {
    hide Answer, After;
    var longer := calls + [call];
    assert longer[..|calls|] == calls;
    if AllSucceed(first, longer) {
      assert Answer(StateAfter(first, longer[..|calls|]), longer[|calls|]).status == Success;
      forall i | 0 <= i < |calls| ensures Answer(StateAfter(first, calls[..i]), calls[i]).status == Success {
        assert longer[..i] == calls[..i] && Answer(StateAfter(first, longer[..i]), longer[i]).status == Success;
      }
    }
    if AllSucceed(first, calls) && Answer(StateAfter(first, calls), call).status == Success {
      forall i | 0 <= i < |longer| ensures Answer(StateAfter(first, longer[..i]), longer[i]).status == Success {
        if i < |calls| {
          assert longer[..i] == calls[..i];
        }
      }
    }
  }

  function AsCalls(inputs: seq<Given>): seq<Api> {
    seq(|inputs|, i requires 0 <= i < |inputs| => InputBytes(inputs[i].step, inputs[i].data))
  }

  /** A sequence of inputs is accepted exactly when each fits behind those before it. */
  lemma {:induction false} OrderlyExactly(k: Kdf, keyAgreement: bool, inputs: seq<Given>)
    requires HashLenOk(k.hashLen)
    ensures var first := Initial(k, keyAgreement);
            && (AllSucceed(first, AsCalls(inputs)) <==> Orderly(Installed(k, keyAgreement), inputs))
            && (AllSucceed(first, AsCalls(inputs)) ==>
                  StateAfter(first, AsCalls(inputs)) == first.(given := inputs))
  {
    hide Orderly, Answer, After, AllSucceed, Fits;
    var first := Initial(k, keyAgreement);
    if inputs == [] {
      NoInputs(Installed(k, keyAgreement));
      NoCalls(first);
      assert AsCalls(inputs) == [];
    } else {
      var n := |inputs| - 1;
      var front, g := inputs[..n], inputs[n];
      assert inputs == front + [g] && AsCalls(inputs) == AsCalls(front) + [InputBytes(g.step, g.data)];
      OrderlyExactly(k, keyAgreement, front);
      OrderlyGrows(Installed(k, keyAgreement), front, g);
      SucceedOneMore(first, AsCalls(front), InputBytes(g.step, g.data));
      if AllSucceed(first, AsCalls(front)) {
        var s := StateAfter(first, AsCalls(front));
        RunSane(k, keyAgreement, AsCalls(front));
        InputOfSession(s, g);
      }
    }
  }

  lemma NoCalls(first: Session)
    ensures AllSucceed(first, [])
  {
  }

  lemma InputOfSession(s: Session, g: Given)
    requires Sane(s) && Orderly(s.kdf, s.given) && !s.failed && !s.started
    ensures Answer(s, InputBytes(g.step, g.data)).status == Success <==> Fits(s.kdf, StepsIn(s.given), g)
    ensures Answer(s, InputBytes(g.step, g.data)).status == Success ==>
              After(s, InputBytes(g.step, g.data)) == s.(given := s.given + [g])
  {
    hide Orderly, Fits, StepsIn, Sane, StepStatus;
    StepFits(s, g);
  }

  // ----- the usual orders -----

  /** The inputs of a derivation in their usual order, with the optional ones or without:
      the salt of HKDF, the other secret of PSK-to-MS, a second part of the salt of PBKDF2,
      label and context of counter mode. */
  function Usual(a: Alg, i: Inputs, optional: bool): seq<Given> {
    match a
    case NoKdf => []
    case Raw => [Given(Secret, i.secret)]
    case HkdfExtract => [Given(Salt, i.salt), Given(Secret, i.secret)]
    case HkdfExpand => [Given(Secret, i.secret), Given(Info, i.info)]
    case Hkdf =>
      if optional then [Given(Salt, i.salt), Given(Secret, i.secret), Given(Info, i.info)]
      else [Given(Secret, i.secret), Given(Info, i.info)]
    case Tls12Prf => [Given(Seed, i.seed), Given(Secret, i.secret), Given(Label, i.labelBytes)]
    case Tls12PskToMs =>
      if optional && i.otherSecret.Some? then
        [Given(Seed, i.seed), Given(OtherSecret, i.otherSecret.value), Given(Secret, i.secret)]
      else [Given(Seed, i.seed), Given(Secret, i.secret)]
    case Pbkdf2Hmac => UsualPbkdf2(i, optional)
    case Pbkdf2Cmac => UsualPbkdf2(i, optional)
    case Sp800Hmac => UsualCounter(i, optional)
    case Sp800Cmac => UsualCounter(i, optional)
  }

  function UsualPbkdf2(i: Inputs, optional: bool): seq<Given> {
    if optional then [Given(Password, i.password), Given(Salt, i.salt), Given(Salt, i.info)]
    else [Given(Password, i.password), Given(Salt, i.salt)]
  }

  function UsualCounter(i: Inputs, optional: bool): seq<Given> {
    if optional then [Given(Secret, i.secret), Given(Label, i.labelBytes), Given(Context, i.context)]
    else [Given(Secret, i.secret)]
  }

  lemma UsualIsOrderly(k: Kdf, i: Inputs, optional: bool)
    requires k.alg == HkdfExpand ==> |i.secret| == k.hashLen
    requires k.alg == Tls12PskToMs ==> |i.secret| <= 128 && (i.otherSecret.Some? ==> |i.otherSecret.value| <= 65535)
    ensures Orderly(k, Usual(k.alg, i, optional))
  {
    var inputs := Usual(k.alg, i, optional);
    forall j | 0 <= j < |inputs| ensures Fits(k, StepsIn(inputs[..j]), inputs[j]) {
      assert StepsIn(inputs[..0]) == {};
      if j >= 1 {
        assert inputs[..j][0] == inputs[0];
        assert StepsIn(inputs[..1]) == {inputs[0].step};
      }
      if j == 2 {
        assert inputs[..2] == [inputs[0], inputs[1]];
        assert StepsIn(inputs[..2]) == {inputs[0].step, inputs[1].step};
      }
    }
  }

  lemma UsualHasNeeds(a: Alg, i: Inputs, optional: bool)
    ensures forall step :: step in Needs(a) && step != Cost ==> step in StepsIn(Usual(a, i, optional))
  {
    var inputs := Usual(a, i, optional);
    assert forall j :: 0 <= j < |inputs| ==> inputs[j].step in StepsIn(inputs);
    if |inputs| == 1 {
      assert inputs[0] in inputs;
    } else if |inputs| == 2 {
      assert inputs[0] in inputs && inputs[1] in inputs;
    } else if |inputs| == 3 {
      assert inputs[0] in inputs && inputs[1] in inputs && inputs[2] in inputs;
    }
  }

  function CostCalls(a: Alg, cost: nat): seq<Api> {
    if a == Pbkdf2Hmac || a == Pbkdf2Cmac then [InputInteger(Cost, cost)] else []
  }

  /** The cost goes in behind the byte inputs. */
  lemma CostWorks(k: Kdf, keyAgreement: bool, inputs: seq<Given>, cost: nat)
    requires HashLenOk(k.hashLen) && Orderly(Installed(k, keyAgreement), inputs)
    requires k.alg == Pbkdf2Hmac || k.alg == Pbkdf2Cmac ==> 1 <= cost <= 0xFFFF_FFFF
    ensures var first, calls := Initial(k, keyAgreement), AsCalls(inputs) + CostCalls(k.alg, cost);
            && AllSucceed(first, calls)
            && StateAfter(first, calls)
               == first.(given := inputs, cost := if CostCalls(k.alg, cost) == [] then 0 else cost)
  {
    hide AllSucceed, StateAfter, Orderly;
    var first, calls := Initial(k, keyAgreement), AsCalls(inputs);
    OrderlyExactly(k, keyAgreement, inputs);
    if CostCalls(k.alg, cost) == [] {
      assert calls + [] == calls;
    } else {
      SucceedOneMore(first, calls, InputInteger(Cost, cost));
    }
  }

  /** For every algorithm: the usual inputs, with the optional ones or without, then a read
      of any length within the limits, all succeed. */
  lemma UsualOrderWorks(k: Kdf, keyAgreement: bool, i: Inputs, cost: nat, n: nat, optional: bool)
    requires HashLenOk(k.hashLen) && Supported(k) && (k.alg == Raw ==> keyAgreement && n <= |i.secret|)
    requires k.alg == HkdfExpand ==> |i.secret| == k.hashLen
    requires k.alg == Tls12PskToMs ==> |i.secret| <= 128 && (i.otherSecret.Some? ==> |i.otherSecret.value| <= 65535)
    requires k.alg == Pbkdf2Hmac || k.alg == Pbkdf2Cmac ==> 1 <= cost <= 0xFFFF_FFFF
    requires n <= Initial(k, keyAgreement).capacity
    requires WithinLimits(k, InputsFrom(Usual(k.alg, i, optional), if CostCalls(k.alg, cost) == [] then 0 else cost), n)
    ensures AllSucceed(Initial(k, keyAgreement), AsCalls(Usual(k.alg, i, optional)) + CostCalls(k.alg, cost) + [Read(n)])
  {
    hide AllSucceed, StateAfter, Orderly, Usual, Answer, WithinLimits, StepsIn, InputsFrom, Steps, Needs, Granted;
    var first, inputs := Initial(k, keyAgreement), Usual(k.alg, i, optional);
    var calls := AsCalls(inputs) + CostCalls(k.alg, cost);
    UsualIsOrderly(k, i, optional);
    CostWorks(k, keyAgreement, inputs, cost);
    var s := StateAfter(first, calls);
    UsualHasNeeds(k.alg, i, optional);
    StepsOfSession(s);
    NeedsMet(s);
    if k.alg == Raw {
      RawSecret(i, optional);
    }
    RunSane(k, keyAgreement, calls);
    FirstRead(s, n);
    SucceedOneMore(first, calls, Read(n));
  }

  lemma FirstRead(s: Session, n: nat)
    requires !s.failed && s.offset == 0 && Needs(s.kdf.alg) <= Steps(s) && Supported(s.kdf)
    requires n <= s.capacity <= UNLIMITED && WithinLimits(s.kdf, InputsOf(s), n)
    requires s.kdf.alg == Raw ==> Secret in Steps(s) && n <= |InputsOf(s).secret|
    ensures Answer(s, Read(n)).status == Success
  {
    hide Answer, WithinLimits, InputsOf, Steps, Needs;
    ReadOutcome(s, n);
  }

  lemma NeedsMet(s: Session)
    requires forall step :: step in Needs(s.kdf.alg) && step != Cost ==> step in Steps(s)
    requires s.kdf.alg == Pbkdf2Hmac || s.kdf.alg == Pbkdf2Cmac ==> s.cost >= 1
    ensures Needs(s.kdf.alg) <= Steps(s)
    ensures s.kdf.alg == Raw ==> Secret in Steps(s)
  {
    StepsOfSession(s);
    hide Steps;
  }

  lemma RawSecret(i: Inputs, optional: bool)
    ensures InputsFrom(Usual(Raw, i, optional), 0).secret == i.secret
  {
    var inputs := Usual(Raw, i, optional);
    assert inputs[..0] == [];
    assert Collected(inputs, Secret) == Collected(inputs[..0], Secret) + i.secret;
  }
}
