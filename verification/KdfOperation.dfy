/** The key-derivation operation of src/psa_key_derivation.c: step order, capacity,
    the sticky error state, and one output stream behind three ways of serving it. */
module KdfOperation {
  import opened Bytes
  import opened CcmStream
  import opened KdfLoops
  import opened KdfSpec
  import opened Psa

  /** The input steps; `Zero` is the value 0 and `Unknown` every other one. */
  datatype Step = Secret | OtherSecret | Salt | Info | Label | Context | Seed | Password | Cost | Zero | Unknown

  const UNLIMITED: nat := SIZE_MAX
  const MAX_CACHE_BYTES: nat := 64 * 1024
  const PSK_MAX_SIZE: nat := 128

  predicate IsHkdf(a: Alg) {
    a == HkdfExtract || a == HkdfExpand || a == Hkdf
  }

  predicate IsPbkdf2(a: Alg) {
    a == Pbkdf2Hmac || a == Pbkdf2Cmac
  }

  predicate IsSp800(a: Alg) {
    a == Sp800Hmac || a == Sp800Cmac
  }

  /** The most bytes an algorithm yields, where the code bounds it. */
  function Limit(k: Kdf): Option<nat> {
    match k.alg
    case HkdfExtract => Some(k.hashLen)
    case HkdfExpand => Some(255 * k.hashLen)
    case Hkdf => Some(255 * k.hashLen)
    case Sp800Hmac => Some(SP800_108_MAX)
    case Sp800Cmac => Some(SP800_108_MAX)
    case _ => None
  }

  /** The capacity that setup grants. */
  function Granted(k: Kdf): nat {
    match Limit(k) case Some(l) => l case None => UNLIMITED
  }

  /** The bare category derives only behind a key agreement. */
  function Installed(k: Kdf, keyAgreement: bool): Kdf {
    if k.alg == Raw || k.alg == NoKdf then k.(alg := if keyAgreement then Raw else NoKdf) else k
  }

  /** PBKDF2 takes its salt in parts; every other step is single-use. */
  predicate Multipart(a: Alg, step: Step) {
    IsPbkdf2(a) && step == Salt
  }

  /** wolfpsa_kdf_validate_step on an operation that has not produced output. */
  function ValidateStep(k: Kdf, stepsSet: set<Step>, step: Step, length: nat): Status {
    if step == Zero then InvalidArgument
    else if !Multipart(k.alg, step) && step in stepsSet then BadState
    else match k.alg
      case NoKdf => NotSupported
      case Raw => if step == Secret then Success else InvalidArgument
      case HkdfExtract =>
        if step == Salt then if Secret in stepsSet then BadState else Success
        else if step == Secret then if Salt in stepsSet then Success else BadState
        else InvalidArgument
      case HkdfExpand =>
        if step == Secret then
          if stepsSet != {} then BadState else if length != k.hashLen then InvalidArgument else Success
        else if step == Info then if Secret in stepsSet then Success else BadState
        else InvalidArgument
      case Hkdf =>
        if step == Salt then if Secret in stepsSet then BadState else Success
        else if step == Secret || step == Info then Success
        else InvalidArgument
      case Tls12Prf => if step == Secret || step == Label || step == Seed then Success else InvalidArgument
      case Tls12PskToMs =>
        if step == Seed then Success
        else if step == Secret then
          if Seed !in stepsSet then BadState else if length > PSK_MAX_SIZE then InvalidArgument else Success
        else if step == OtherSecret then
          if Seed !in stepsSet then BadState else if length > UINT16_MAX then InvalidArgument else Success
        else InvalidArgument
      case Pbkdf2Hmac => if step == Password || step == Salt then Success else InvalidArgument
      case Pbkdf2Cmac => if step == Password || step == Salt then Success else InvalidArgument
      case Sp800Hmac => if step == Secret || step == Label || step == Context then Success else InvalidArgument
      case Sp800Cmac => if step == Secret || step == Label || step == Context then Success else InvalidArgument
  }

  /** The steps that output needs. */
  function RequiredSteps(a: Alg): set<Step> {
    match a
    case NoKdf => {}
    case Raw => {Secret}
    case HkdfExtract => {Salt, Secret}
    case HkdfExpand => {Secret, Info}
    case Hkdf => {Secret, Info}
    case Tls12Prf => {Secret, Label, Seed}
    case Tls12PskToMs => {Secret, Seed}
    case Pbkdf2Hmac => {Password, Salt, Cost}
    case Pbkdf2Cmac => {Password, Salt, Cost}
    case Sp800Hmac => {Secret}
    case Sp800Cmac => {Secret}
  }

  /** The argument checks of wolfpsa_kdf_compute_output and of the functions under it. */
  function BackendStatus(k: Kdf, i: Inputs, n: nat): (r: Status)
    ensures r == Success || r == InvalidArgument || r == NotSupported
  {
    match k.alg
    case NoKdf => NotSupported
    case Raw => Success
    case HkdfExtract =>
      if |i.salt| > UINT32_MAX || |i.secret| > UINT32_MAX || n > k.hashLen then InvalidArgument else Success
    case HkdfExpand =>
      if |i.secret| > UINT32_MAX || |i.info| > UINT32_MAX || n > UINT32_MAX then InvalidArgument else Success
    case Hkdf =>
      if |i.salt| > UINT32_MAX || |i.secret| > UINT32_MAX || |i.info| > UINT32_MAX || n > UINT32_MAX
      then InvalidArgument else Success
    case Tls12Prf =>
      if !k.prfHash then NotSupported
      else if n > UINT32_MAX || |i.secret| > UINT32_MAX || |i.labelBytes| > UINT32_MAX || |i.seed| > UINT32_MAX
      then InvalidArgument else Success
    case Tls12PskToMs =>
      if !k.prfHash then NotSupported
      else if |i.secret| > UINT16_MAX || (i.otherSecret.Some? && |i.otherSecret.value| > UINT16_MAX) then InvalidArgument
      else if n > UINT32_MAX || |i.seed| > UINT32_MAX then InvalidArgument else Success
    case Pbkdf2Hmac =>
      if |i.password| > INT_MAX || |i.salt| > INT_MAX || i.cost > INT_MAX || n > INT_MAX then InvalidArgument else Success
    case Pbkdf2Cmac =>
      if |i.password| > UINT32_MAX || |i.salt| + 4 > UINT32_MAX then InvalidArgument else Success
    case Sp800Hmac =>
      if |i.secret| > INT_MAX || |i.labelBytes| > UINT32_MAX || |i.context| > UINT32_MAX then InvalidArgument else Success
    case Sp800Cmac =>
      if |i.secret| != 16 && |i.secret| != 24 && |i.secret| != 32 then InvalidArgument
      else if |i.labelBytes| > UINT32_MAX || |i.context| > UINT32_MAX then InvalidArgument else Success
  }

  /** What fails for a longer output may succeed for a shorter one, not the reverse. */
  lemma BackendMonotone(k: Kdf, i: Inputs, m: nat, n: nat)
    requires m <= n && BackendStatus(k, i, n) == Success
    ensures BackendStatus(k, i, m) == Success
  {
  }

  /** Deriving all that is left of a small capacity fails exactly when the request does. */
  lemma CacheFailsAlike(k: Kdf, i: Inputs, m: nat, n: nat)
    requires m <= n <= MAX_CACHE_BYTES && (Limit(k).Some? ==> n <= Limit(k).value)
    ensures BackendStatus(k, i, n) == BackendStatus(k, i, m)
  {
  }

  /** When the code's loops end and its buffers suffice for `n` bytes. */
  ghost predicate Computable(k: Kdf, i: Inputs, lBytes: nat, n: nat) {
    && HashLenOk(k.hashLen)
    && (k.alg == Raw ==> n <= |i.secret|)
    && (k.alg == Pbkdf2Cmac ==> i.cost >= 1 && (BackendStatus(k, i, n) == Success ==> LoopExits(BlocksFor(n))))
    && (IsSp800(k.alg) ==> n <= lBytes <= SP800_108_MAX)
  }

  /** The arms that are calls into wolfCrypt on the input buffers, or a copy of one. */
  method WcDerive(k: Kdf, i: Inputs, output: array<byte>, n: nat)
    requires HashLenOk(k.hashLen) && n <= output.Length && (k.alg == Raw ==> n <= |i.secret|)
    requires k.alg in {Raw, HkdfExtract, HkdfExpand, Hkdf, Tls12Prf, Pbkdf2Hmac}
    modifies output
    ensures output[..n] == Derived(k, i, 0, n) && output[n..] == old(output[n..])
  {
    var bytes: seq<byte> := [];
    if k.alg == Raw {
      bytes := i.secret[..n];
    } else if k.alg == HkdfExtract {
      bytes := seq<byte>(n, j requires 0 <= j < n => k.p.hkdfExtract(i.salt, i.secret, j));
    } else if k.alg == HkdfExpand {
      bytes := seq<byte>(n, j requires 0 <= j < n => k.p.hkdfExpand(i.secret, i.info, j));
    } else if k.alg == Hkdf {
      var prk: seq<byte> := seq<byte>(k.hashLen, j requires 0 <= j < k.hashLen => k.p.hkdfExtract(i.salt, i.secret, j));
      assert prk == Prefix((j: nat) => k.p.hkdfExtract(i.salt, i.secret, j), k.hashLen);
      bytes := seq<byte>(n, j requires 0 <= j < n => k.p.hkdfExpand(prk, i.info, j));
    } else if k.alg == Tls12Prf {
      bytes := seq<byte>(n, j requires 0 <= j < n => k.p.tlsPrf(i.secret, i.labelBytes, i.seed, j));
    } else {
      bytes := seq<byte>(n, j requires 0 <= j < n => k.p.pbkdf2(i.password, i.salt, i.cost, j));
    }
    CopyInto(output, 0, bytes);
  }

  /** wolfpsa_kdf_compute_output */
  method ComputeOutput(k: Kdf, i: Inputs, lBytes: nat, output: array<byte>, n: nat) returns (status: Status)
    requires Computable(k, i, lBytes, n) && n <= output.Length
    modifies output
    ensures status == BackendStatus(k, i, n)
    ensures status == Success ==> output[..n] == Derived(k, i, lBytes, n)
    ensures output[n..] == old(output[n..])
  {
    hide LoopExits, Truncated, Premaster;
    status := BackendStatus(k, i, n);
    if status != Success {
      return;
    }
    if k.alg == Tls12PskToMs {
      var premaster := WritePremaster(i.secret, i.otherSecret);
      var key := premaster[..];
      var masterSecret: seq<byte> := [109, 97, 115, 116, 101, 114, 32, 115, 101, 99, 114, 101, 116];
      CopyInto(output, 0, seq<byte>(n, j requires 0 <= j < n => k.p.tlsPrf(key, masterSecret, i.seed, j)));
    } else if k.alg == Pbkdf2Cmac {
      Pbkdf2CmacLoop(k, i, output, n);
    } else if k.alg == Sp800Hmac {
      Sp800HmacLoop(k, i, lBytes, output, n);
    } else if k.alg == Sp800Cmac {
      Sp800CmacLoop(k, i, lBytes, output, n);
    } else {
      WcDerive(k, i, output, n);
    }
  }

  // ----- histories -----

  /** One accepted input. */
  datatype Given = Given(step: Step, data: seq<byte>)

  /** All that was given for `step`, concatenated. */
  function Collected(given: seq<Given>, step: Step): seq<byte> {
    if |given| == 0 then []
    else
      var last := given[|given| - 1];
      Collected(given[..|given| - 1], step) + if last.step == step then last.data else []
  }

  function Count(given: seq<Given>, step: Step): nat {
    if |given| == 0 then 0
    else Count(given[..|given| - 1], step) + if given[|given| - 1].step == step then 1 else 0
  }

  lemma HistoryGrows(given: seq<Given>, g: Given, step: Step)
    ensures Collected(given + [g], step) == Collected(given, step) + if g.step == step then g.data else []
    ensures Count(given + [g], step) == Count(given, step) + if g.step == step then 1 else 0
  {
    assert (given + [g])[..|given|] == given;
  }

  /** The buffers hold exactly what was given: one input per step, and for the salt of
      PBKDF2 the concatenation of its parts. */
  ghost predicate History(a: Alg, given: seq<Given>, stepsSet: set<Step>, buffers: map<Step, seq<byte>>) {
    && (forall s: Step :: s != Cost ==> (s in stepsSet <==> Count(given, s) > 0))
    && (forall s: Step :: !Multipart(a, s) ==> Count(given, s) <= 1)
    && (forall s: Step :: BufferOf(buffers, s) == Collected(given, s))
  }

  function BufferOf(buffers: map<Step, seq<byte>>, s: Step): seq<byte> {
    if s in buffers then buffers[s] else []
  }

  lemma {:induction false} NeverGiven(given: seq<Given>, step: Step)
    requires Count(given, step) == 0
    ensures Collected(given, step) == []
    ensures forall g :: g in given ==> g.step != step
  {
    if |given| > 0 {
      NeverGiven(given[..|given| - 1], step);
      assert given == given[..|given| - 1] + [given[|given| - 1]];
    }
  }

  /** A single-use step's buffer is its one accepted input, unchanged. */
  lemma {:induction false} SingleInput(given: seq<Given>, g: Given)
    requires g in given && Count(given, g.step) <= 1
    ensures Collected(given, g.step) == g.data
  {
    var front, last := given[..|given| - 1], given[|given| - 1];
    assert given == front + [last];
    if last.step == g.step {
      NeverGiven(front, g.step);
    } else {
      SingleInput(front, g);
    }
  }

  /** The inputs a derivation depends on, from what was given. */
  function InputsFrom(given: seq<Given>, cost: nat): Inputs {
    Inputs(Collected(given, Secret), if Count(given, OtherSecret) > 0 then Some(Collected(given, OtherSecret)) else None,
           Collected(given, Salt), Collected(given, Info), Collected(given, Label), Collected(given, Context),
           Collected(given, Seed), Collected(given, Password), cost)
  }

  lemma HistoryStep(a: Alg, given: seq<Given>, stepsSet: set<Step>, buffers: map<Step, seq<byte>>, g: Given)
    requires History(a, given, stepsSet, buffers)
    requires g.step != Cost && (Multipart(a, g.step) || g.step !in stepsSet)
    ensures History(a, given + [g], stepsSet + {g.step}, buffers[g.step := BufferOf(buffers, g.step) + g.data])
  {
    hide Collected, Count;
    var given', steps', buffers' := given + [g], stepsSet + {g.step}, buffers[g.step := BufferOf(buffers, g.step) + g.data];
    forall s: Step
      ensures s != Cost ==> (s in steps' <==> Count(given', s) > 0)
      ensures !Multipart(a, s) ==> Count(given', s) <= 1
      ensures BufferOf(buffers', s) == Collected(given', s)
    {
      HistoryGrows(given, g, s);
    }
  }

  // ----- the operation -----

  class KdfOperation {
    var active: bool
    var kdf: Kdf
    var keyAgreement: bool
    var capacity: nat
    var outputOffset: nat
    var stepsSet: set<Step>
    /** The secret, salt, info, label, context, seed and password buffers. */
    var buffers: map<Step, seq<byte>>
    var cost: nat
    /** The output length counter mode binds, taken at the first output call. */
    var lBytes: nat
    var outputStarted: bool
    var canOutputKey: bool
    var errorState: bool
    var cache: Option<seq<byte>>
    /** All bytes produced so far, the accepted inputs, and the capacity last granted
        plus what had been produced by then. */
    ghost var delivered: seq<byte>
    ghost var given: seq<Given>
    ghost var budget: nat

    function In(): Inputs
      reads `stepsSet, `buffers, `cost
    {
      Inputs(BufferOf(buffers, Secret), if OtherSecret in stepsSet then Some(BufferOf(buffers, OtherSecret)) else None,
             BufferOf(buffers, Salt), BufferOf(buffers, Info), BufferOf(buffers, Label), BufferOf(buffers, Context),
             BufferOf(buffers, Seed), BufferOf(buffers, Password), cost)
    }

    ghost predicate Valid()
      reads this
    {
      active ==> Shape() && CapacityOk(errorState) && StreamOk() && History(kdf.alg, given, stepsSet, buffers)
    }

    ghost predicate Shape()
      reads this
    {
      && HashLenOk(kdf.hashLen) && capacity <= UNLIMITED && cost <= UINT32_MAX
      && (Cost in stepsSet <==> cost >= 1)
      && (outputStarted ==> RequiredSteps(kdf.alg) <= stepsSet)
      && (!outputStarted ==> outputOffset == 0 && cache == None)
    }

    /** Capacity accounting; `failed` says that the operation is past its last output. */
    ghost predicate CapacityOk(failed: bool)
      reads this
    {
      && (!failed && capacity != UNLIMITED ==> capacity + outputOffset == budget)
      && (Limit(kdf).Some? ==> capacity <= Limit(kdf).value && (!failed ==> capacity + outputOffset <= Limit(kdf).value))
      && (cache.Some? ==> capacity != UNLIMITED && outputOffset + capacity <= |cache.value|)
      && (IsSp800(kdf.alg) && outputStarted && !failed ==> outputOffset + capacity <= lBytes)
      && (IsSp800(kdf.alg) && outputStarted ==> outputOffset <= lBytes <= SP800_108_MAX)
    }

    /** What was produced is the front of the one stream, and so is the cache. */
    ghost predicate StreamOk()
      reads `kdf, `delivered, `outputOffset, `outputStarted, `lBytes, `cache, `stepsSet, `buffers, `cost
      requires HashLenOk(kdf.hashLen)
    {
      && |delivered| == outputOffset
      && (outputStarted ==>
            && StreamDefined(outputOffset) && delivered == Derived(kdf, In(), lBytes, outputOffset)
            && (cache.Some? ==>
                  && kdf.alg != Raw && cache.value == Derived(kdf, In(), lBytes, |cache.value|)
                  && BackendStatus(kdf, In(), |cache.value|) == Success))
    }

    ghost predicate StreamDefined(n: nat)
      reads `kdf, `stepsSet, `buffers, `cost
    {
      (kdf.alg == Pbkdf2Cmac ==> cost >= 1) && (kdf.alg == Raw ==> n <= |In().secret|)
    }

    constructor ()
      ensures Valid() && !active
    {
      active := false;
    }

    /** psa_key_derivation_setup for a supported algorithm, with a key agreement or without. */
    method Setup(k: Kdf, keyAgreement: bool) returns (status: Status)
      requires Valid() && HashLenOk(k.hashLen)
      modifies this
      ensures Valid()
      ensures status == if old(active) then BadState else Success
      ensures old(active) ==> unchanged(this)
      ensures status == Success ==>
                && active && kdf == Installed(k, keyAgreement) && this.keyAgreement == keyAgreement
                && capacity == budget == Granted(k) && cost == lBytes == 0 && given == [] && delivered == []
                && !errorState && !outputStarted && !canOutputKey
    {
      if active {
        return BadState;
      }
      Begin(Installed(k, keyAgreement), keyAgreement);
      return Success;
    }

    /** The context that setup installs: cleared, with the capacity of the algorithm. */
    method Begin(k: Kdf, keyAgreement: bool)
      requires HashLenOk(k.hashLen)
      modifies this
      ensures Valid() && active && kdf == k && this.keyAgreement == keyAgreement && !errorState && !outputStarted
      ensures capacity == budget == Granted(k)
      ensures cost == lBytes == 0 && given == [] && delivered == [] && !canOutputKey
    {
      hide Derived, In;
      ClearInputs();
      ClearOutput();
      active, kdf, this.keyAgreement := true, k, keyAgreement;
      capacity := Granted(k);
      budget := capacity;
    }

    method ClearInputs()
      modifies `stepsSet, `buffers, `cost, `canOutputKey, `given
      ensures stepsSet == {} && buffers == map[] && cost == 0 && !canOutputKey && given == []
    {
      stepsSet, buffers, cost, canOutputKey, given := {}, map[], 0, false, [];
    }

    method ClearOutput()
      modifies `outputOffset, `lBytes, `outputStarted, `errorState, `cache, `delivered
      ensures outputOffset == lBytes == 0 && !outputStarted && !errorState && cache == None && delivered == []
    {
      outputOffset, lBytes, outputStarted, errorState, cache, delivered := 0, 0, false, false, None, [];
    }

    /** psa_key_derivation_abort */
    method Abort()
      modifies `active
      ensures Valid() && !active
    {
      active := false;
    }

    /** Which outcomes end the operation, as wolfpsa_kdf_done decides. */
    static predicate Fatal(status: Status) {
      status != Success && status != InvalidSignature && status != InvalidHandle
    }

    /** psa_key_derivation_set_capacity: capacity only goes down, and a refused value
        changes nothing. */
    method SetCapacity(value: nat) returns (status: Status)
      requires Valid() && value <= SIZE_MAX
      modifies `capacity, `budget
      ensures Valid()
      ensures status == if !active || errorState then BadState
                        else if value > old(capacity) || (IsHkdf(kdf.alg) && value > Limit(kdf).value) then InvalidArgument
                        else Success
      ensures capacity == if status == Success then value else old(capacity)
      ensures budget == if status == Success then value + outputOffset else old(budget)
    {
      hide StreamOk, History;
      if !active || errorState {
        return BadState;
      }
      if IsHkdf(kdf.alg) && value > Limit(kdf).value {
        return InvalidArgument;
      }
      if value > capacity {
        return InvalidArgument;
      }
      capacity := value;
      budget := value + outputOffset;
      return Success;
    }

    /** psa_key_derivation_get_capacity: not gated by the error state. */
    method GetCapacity() returns (status: Status, value: nat)
      ensures status == if active then Success else BadState
      ensures status == Success ==> value == capacity
    {
      if !active {
        return BadState, 0;
      }
      return Success, capacity;
    }

    /** wolfpsa_kdf_check_state */
    predicate Usable()
      reads `active, `errorState
    {
      active && !errorState
    }

    /** wolfpsa_kdf_done: a failed call ends the operation until abort. */
    method Done(status: Status)
      requires Shape() && StreamOk() && History(kdf.alg, given, stepsSet, buffers)
      requires CapacityOk(errorState || Fatal(status))
      modifies `errorState
      ensures Valid() && errorState == (old(errorState) || Fatal(status))
    {
      hide StreamOk, History;
      if Fatal(status) {
        errorState := true;
      }
    }

    // ----- inputs -----

    /** The outcome of wolfpsa_kdf_input_bytes. */
    function InputStatus(step: Step, length: nat): Status
      reads `kdf, `stepsSet, `outputStarted
    {
      if outputStarted then BadState else ValidateStep(kdf, stepsSet, step, length)
    }

    method Accept(step: Step, data: seq<byte>) returns (status: Status)
      requires Valid() && Usable()
      modifies `stepsSet, `buffers, `given
      ensures Valid() && status == old(InputStatus(step, |data|))
      ensures if status == Success then given == old(given) + [Given(step, data)] && stepsSet == old(stepsSet) + {step}
              else given == old(given) && stepsSet == old(stepsSet) && buffers == old(buffers)
    {
      hide History, Derived, In;
      status := InputStatus(step, |data|);
      if status != Success {
        return;
      }
      HistoryStep(kdf.alg, given, stepsSet, buffers, Given(step, data));
      buffers := buffers[step := BufferOf(buffers, step) + data];
      stepsSet := stepsSet + {step};
      given := given + [Given(step, data)];
    }

    /** psa_key_derivation_input_bytes */
    method InputBytes(step: Step, data: seq<byte>) returns (status: Status)
      requires Valid()
      modifies `stepsSet, `buffers, `given, `errorState
      ensures Valid()
      ensures status == if !old(Usable()) then BadState else old(InputStatus(step, |data|))
      ensures errorState == (old(errorState) || (active && Fatal(status)))
      ensures given == if status == Success then old(given) + [Given(step, data)] else old(given)
    {
      if !Usable() {
        return BadState;
      }
      status := Accept(step, data);
      Done(status);
    }

    /** psa_key_derivation_input_integer: the cost of PBKDF2, once. */
    method InputInteger(step: Step, value: nat) returns (status: Status)
      requires Valid()
      modifies `cost, `stepsSet, `errorState
      ensures Valid()
      ensures status == if !old(Usable()) || outputStarted then BadState
                        else if step != Cost || !IsPbkdf2(kdf.alg) then InvalidArgument
                        else if Cost in old(stepsSet) then BadState
                        else if value == 0 then InvalidArgument
                        else if value > UINT32_MAX then NotSupported
                        else Success
      ensures errorState == (old(errorState) || (active && Fatal(status)))
      ensures if status == Success then cost == value && stepsSet == old(stepsSet) + {Cost}
              else cost == old(cost) && stepsSet == old(stepsSet)
    {
      hide Derived, In;
      if !Usable() {
        return BadState;
      }
      status := if outputStarted then BadState
                else if step != Cost then InvalidArgument
                else if !IsPbkdf2(kdf.alg) then InvalidArgument
                else if Cost in stepsSet then BadState
                else if value == 0 then InvalidArgument
                else if value > UINT32_MAX then NotSupported
                else Success;
      if status == Success {
        cost := value;
        stepsSet := stepsSet + {Cost};
      }
      Done(status);
    }

    /** psa_key_derivation_input_key. `keyStatus` is the outcome of loading the key,
        and the flags say what its attributes permit. */
    method InputKey(step: Step, data: seq<byte>, keyStatus: Status, usageOk: bool, typeOk: bool, algOk: bool, derives: bool)
      returns (status: Status)
      requires Valid()
      modifies `stepsSet, `buffers, `given, `errorState, `canOutputKey
      ensures Valid()
      ensures status == if !old(Usable()) then BadState
                        else if keyStatus != Success then keyStatus
                        else if old(InputStatus(step, |data|)) != Success then old(InputStatus(step, |data|))
                        else if !usageOk then NotPermitted
                        else if !typeOk then InvalidArgument
                        else if !algOk then NotPermitted
                        else Success
      ensures errorState == (old(errorState) || (active && Fatal(status)))
      ensures given == if status == Success then old(given) + [Given(step, data)] else old(given)
      ensures canOutputKey == (old(canOutputKey) || (status == Success && derives && (step == Secret || step == Password)))
    {
      hide StreamOk, History, InputStatus;
      if !Usable() {
        return BadState;
      }
      status := keyStatus;
      if status == Success {
        status := InputStatus(step, |data|);
      }
      if status == Success {
        status := if !usageOk then NotPermitted else if !typeOk then InvalidArgument
                  else if !algOk then NotPermitted else Success;
      }
      if status == Success {
        status := Accept(step, data);
      }
      if status == Success && derives && (step == Secret || step == Password) {
        AllowOutputKey();
      }
      Done(status);
    }

    method AllowOutputKey()
      requires Valid()
      modifies `canOutputKey
      ensures Valid() && canOutputKey
    {
      hide StreamOk, History;
      canOutputKey := true;
    }

    /** psa_key_derivation_key_agreement. `agreed` is the outcome of the agreement
        itself, key checks included, and `secret` its result. */
    method KeyAgreement(step: Step, agreed: Status, secret: seq<byte>) returns (status: Status)
      requires Valid()
      modifies `stepsSet, `buffers, `given, `errorState, `canOutputKey
      ensures Valid()
      ensures status == if !old(Usable()) then BadState
                        else if !keyAgreement then InvalidArgument
                        else if outputStarted then BadState
                        else if step != Secret && (step != OtherSecret || kdf.alg != Tls12PskToMs) then InvalidArgument
                        else if agreed != Success then agreed
                        else old(InputStatus(step, |secret|))
      ensures errorState == (old(errorState) || (active && Fatal(status)))
      ensures given == if status == Success then old(given) + [Given(step, secret)] else old(given)
      ensures canOutputKey == (old(canOutputKey) || (status == Success && step == Secret))
    {
      hide StreamOk, History, InputStatus;
      if !Usable() {
        return BadState;
      }
      status := if !keyAgreement then InvalidArgument
                else if outputStarted then BadState
                else if step != Secret && step != OtherSecret then InvalidArgument
                else if step == OtherSecret && kdf.alg != Tls12PskToMs then InvalidArgument
                else agreed;
      if status == Success {
        status := Accept(step, secret);
      }
      if status == Success && step == Secret {
        AllowOutputKey();
      }
      Done(status);
    }

    // ----- output -----

    /** The outcome of the checks before wolfpsa_kdf_require_output. */
    function InputsStatus(n: nat): Status
      reads `kdf, `stepsSet, `buffers, `cost, `outputOffset
    {
      if kdf.alg == Raw then
        if Secret !in stepsSet || outputOffset > |In().secret| || n > |In().secret| - outputOffset then InsufficientData
        else Success
      else if RequiredSteps(kdf.alg) <= stepsSet then Success
      else BadState
    }

    /** Whether the first output call derives everything at once. */
    predicate FillsCache(n: nat, left: nat)
      reads `kdf, `cache, `outputOffset
    {
      cache == None && kdf.alg != Raw && left != UNLIMITED && outputOffset == 0 && n + left <= MAX_CACHE_BYTES
    }

    /** The outcome behind the capacity check. The cache does not show. */
    function FulfilStatus(n: nat): Status
      reads `kdf, `stepsSet, `buffers, `cost, `outputOffset
    {
      if outputOffset + n > SIZE_MAX then InvalidArgument else BackendStatus(kdf, In(), outputOffset + n)
    }

    /** The length that counter mode binds at the next output. */
    function BoundLength(): nat
      reads this
    {
      if IsSp800(kdf.alg) && !outputStarted then capacity else lBytes
    }

    /** The outcome of wolfpsa_kdf_output_bytes on a usable operation. */
    function OutputStatus(n: nat): Status
      reads this
    {
      if InputsStatus(n) != Success then InputsStatus(n)
      else if capacity != UNLIMITED && capacity < n then InsufficientData
      else FulfilStatus(n)
    }

    /** The capacity that wolfpsa_kdf_output_bytes leaves, whatever its outcome. */
    function CapacityAfter(n: nat): nat
      reads this
    {
      if InputsStatus(n) != Success || capacity == UNLIMITED then capacity
      else if capacity < n then 0
      else capacity - n
    }

    /** The request reaches the block loop of PBKDF2-CMAC, and the loop does not end. */
    predicate Hangs(n: nat)
      reads this
    {
      OutputStatus(n) == Success && TooManyBlocks(n)
    }

    predicate TooManyBlocks(n: nat)
      reads `kdf, `outputOffset
    {
      kdf.alg == Pbkdf2Cmac && BlocksFor(outputOffset + n) > MAX_BLOCKS
    }

    /** What the output holds of the stream after a successful read of `n` bytes. */
    ghost predicate NextSlice(was: nat, n: nat, out: seq<byte>)
      reads `kdf, `stepsSet, `buffers, `cost, `lBytes
      requires HashLenOk(kdf.hashLen)
    {
      StreamDefined(was + n) && out == Derived(kdf, In(), lBytes, was + n)[was..]
    }

    /** The derivation sees exactly the accepted inputs. */
    lemma InputsAreGiven()
      requires Valid() && active
      ensures In() == InputsFrom(given, cost)
    {
      hide Collected, Count;
    }

    lemma OffsetIsDelivered()
      requires Valid() && active
      ensures outputOffset == |delivered|
    {
    }

    /** wolfpsa_kdf_require_output */
    method RequireOutput(n: nat) returns (status: Status)
      modifies `capacity
      ensures status == if old(capacity) != UNLIMITED && old(capacity) < n then InsufficientData else Success
      ensures capacity == if status != Success then 0
                          else if old(capacity) == UNLIMITED then old(capacity)
                          else old(capacity) - n
    {
      if capacity == UNLIMITED {
        return Success;
      }
      if capacity < n {
        capacity := 0;
        return InsufficientData;
      }
      capacity := capacity - n;
      return Success;
    }

    /** Derives `n` bytes plus all remaining capacity once. */
    method FillCache(n: nat) returns (status: Status)
      requires Computable(kdf, In(), lBytes, n + capacity) && cache == None
      modifies `cache
      ensures status == BackendStatus(kdf, In(), n + capacity)
      ensures status != Success ==> cache == None
      ensures status == Success ==>
                StreamDefined(n + capacity) && cache == Some(Derived(kdf, In(), lBytes, n + capacity))
    {
      hide Derived, BackendStatus, LoopExits;
      var buffer := new byte[n + capacity](_ => 0);
      status := ComputeOutput(kdf, In(), lBytes, buffer, n + capacity);
      if status == Success {
        assert buffer[..] == buffer[..n + capacity];
        cache := Some(buffer[..]);
      }
    }

    /** The cache holds what is asked for, or it can be computed. */
    ghost predicate Servable(n: nat)
      reads this
      requires HashLenOk(kdf.hashLen)
    {
      if cache.Some? then
        && outputOffset + n <= |cache.value| && StreamDefined(|cache.value|)
        && kdf.alg != Raw && cache.value == Derived(kdf, In(), lBytes, |cache.value|)
        && BackendStatus(kdf, In(), |cache.value|) == Success
      else Computable(kdf, In(), lBytes, outputOffset + n)
    }

    /** The three ways to serve a request: from the cache, by a first derivation, or by
        deriving everything up to the request and taking its end. */
    method Serve(output: array<byte>, n: nat) returns (status: Status)
      requires n <= output.Length && HashLenOk(kdf.hashLen) && Servable(n)
      modifies output
      ensures status == BackendStatus(kdf, In(), outputOffset + n)
      ensures status == Success ==> NextSlice(outputOffset, n, output[..n])
      ensures output[n..] == old(output[n..])
    {
      hide Derived, BackendStatus, LoopExits, BlocksFor, Limit, RequiredSteps;
      if cache.Some? {
        status := ServeFromCache(output, n);
      } else if outputOffset == 0 {
        status := ComputeOutput(kdf, In(), lBytes, output, n);
        if status != Success {
          CopyInto(output, 0, Zeros(n));
        }
      } else {
        status := Recompute(output, n);
      }
    }

    method Recompute(output: array<byte>, n: nat) returns (status: Status)
      requires n <= output.Length && Computable(kdf, In(), lBytes, outputOffset + n)
      modifies output
      ensures status == BackendStatus(kdf, In(), outputOffset + n)
      ensures status == Success ==> NextSlice(outputOffset, n, output[..n])
      ensures output[n..] == old(output[n..])
    {
      hide Derived, BackendStatus, LoopExits, BlocksFor, Limit, RequiredSteps;
      var total := outputOffset + n;
      var full := new byte[total](_ => 0);
      status := ComputeOutput(kdf, In(), lBytes, full, total);
      if status == Success {
        CopyInto(output, 0, full[outputOffset..]);
        assert full[..total] == full[..];
      }
    }

    method ServeFromCache(output: array<byte>, n: nat) returns (status: Status)
      requires n <= output.Length && HashLenOk(kdf.hashLen) && Servable(n) && cache.Some?
      modifies output
      ensures status == Success == BackendStatus(kdf, In(), outputOffset + n)
      ensures NextSlice(outputOffset, n, output[..n])
      ensures output[n..] == old(output[n..])
    {
      hide Derived, BackendStatus, BlocksFor, Limit;
      var total := outputOffset + n;
      if total > |cache.value| {
        return InsufficientData;
      }
      DerivedPrefix(kdf, In(), lBytes, total, |cache.value|);
      BackendMonotone(kdf, In(), total, |cache.value|);
      CopyInto(output, 0, cache.value[outputOffset..total]);
      return Success;
    }

    /** `n` bytes have been taken out of the capacity and not been produced yet. */
    ghost predicate Reserved(n: nat)
      reads this
    {
      && outputStarted
      && (capacity != UNLIMITED ==> capacity + n + outputOffset == budget)
      && (Limit(kdf).Some? ==> capacity + n + outputOffset <= Limit(kdf).value)
      && (cache.Some? ==> capacity != UNLIMITED && outputOffset + n + capacity <= |cache.value|)
      && (IsSp800(kdf.alg) ==> outputOffset + n + capacity <= lBytes <= SP800_108_MAX)
      && (kdf.alg == Raw ==> outputOffset + n <= |In().secret|)
      && (kdf.alg == Pbkdf2Cmac ==> cost >= 1)
    }

    /** The first half of wolfpsa_kdf_output_bytes: checks, the snapshot of L, capacity. */
    method Reserve(n: nat) returns (status: Status)
      requires Valid() && Usable()
      modifies `capacity, `lBytes, `outputStarted
      ensures Shape() && StreamOk() && History(kdf.alg, given, stepsSet, buffers)
      ensures status == if InputsStatus(n) != Success then InputsStatus(n)
                        else if old(capacity) != UNLIMITED && old(capacity) < n then InsufficientData
                        else Success
      ensures if status == Success then Reserved(n) && outputStarted else CapacityOk(true)
      ensures capacity == old(CapacityAfter(n))
      ensures status == Success ==> lBytes == old(BoundLength())
      ensures old(outputStarted) ==> lBytes == old(lBytes)
      ensures status != Success ==> outputStarted == old(outputStarted)
    {
      hide Derived, History;
      status := InputsStatus(n);
      if status != Success {
        return;
      }
      if IsSp800(kdf.alg) && !outputStarted {
        lBytes := capacity;
      }
      status := RequireOutput(n);
      if status == Success {
        outputStarted := true;
      }
    }

    /** A served slice joins what was delivered. */
    method Deliver(n: nat, ghost out: seq<byte>)
      requires Shape() && StreamOk() && Reserved(n) && |out| == n && NextSlice(outputOffset, n, out)
      modifies `outputOffset, `delivered
      ensures Shape() && StreamOk() && CapacityOk(false)
      ensures outputOffset == old(outputOffset) + n && delivered == old(delivered) + out
    {
      hide Derived;
      DerivedPrefix(kdf, In(), lBytes, outputOffset, outputOffset + n);
      assert Derived(kdf, In(), lBytes, outputOffset + n) == delivered + out;
      outputOffset := outputOffset + n;
      delivered := delivered + out;
    }

    /** What is reserved can be computed, and so can the whole of what a first call caches. */
    lemma ReservedIsComputable(n: nat)
      requires Shape() && Reserved(n) && (FulfilStatus(n) == Success ==> !TooManyBlocks(n))
      requires outputOffset + n <= SIZE_MAX
      ensures cache == None ==> Computable(kdf, In(), lBytes, outputOffset + n)
      ensures FillsCache(n, capacity) ==>
                && Computable(kdf, In(), lBytes, n + capacity)
                && BackendStatus(kdf, In(), n + capacity) == FulfilStatus(n)
    {
      hide LoopExits, BackendStatus;
      Pbkdf2LoopExits(BlocksFor(outputOffset + n));
      if FillsCache(n, capacity) {
        Pbkdf2LoopExits(BlocksFor(n + capacity));
        CacheFailsAlike(kdf, In(), n, n + capacity);
      }
    }

    /** A first request that leaves little capacity derives all of it. */
    method PrepareCache(n: nat) returns (status: Status)
      requires Shape() && StreamOk() && Reserved(n) && outputOffset + n <= SIZE_MAX
      requires FulfilStatus(n) == Success ==> !TooManyBlocks(n)
      modifies `cache
      ensures Shape() && StreamOk() && Reserved(n)
      ensures if status == Success then Servable(n) else status == FulfilStatus(n)
    {
      hide Derived, BackendStatus, LoopExits, RequiredSteps, Limit, Computable;
      ReservedIsComputable(n);
      status := Success;
      if FillsCache(n, capacity) {
        status := FillCache(n);
      }
    }

    /** The second half: the cache, the slice, and the new offset. */
    method Fulfil(output: array<byte>, n: nat) returns (status: Status)
      requires Shape() && StreamOk() && Reserved(n) && n <= output.Length
      requires FulfilStatus(n) == Success ==> !TooManyBlocks(n)
      modifies output, `cache, `outputOffset, `delivered
      ensures Shape() && StreamOk() && CapacityOk(status != Success)
      ensures status == old(FulfilStatus(n))
      ensures output[n..] == old(output[n..])
      ensures if status == Success then
                outputOffset == old(outputOffset) + n && delivered == old(delivered) + output[..n]
              else outputOffset == old(outputOffset) && delivered == old(delivered)
    {
      hide Derived, BackendStatus, LoopExits, RequiredSteps, Limit, Computable, StreamOk, In, Servable;
      if outputOffset + n > SIZE_MAX {
        return InvalidArgument;
      }
      status := PrepareCache(n);
      if status != Success {
        return;
      }
      status := Serve(output, n);
      if status == Success {
        Deliver(n, output[..n]);
      }
    }

    /** wolfpsa_kdf_output_bytes */
    method Produce(output: array<byte>, n: nat) returns (status: Status)
      requires Valid() && Usable() && n <= output.Length && !Hangs(n)
      modifies output, `capacity, `lBytes, `outputStarted, `cache, `outputOffset, `delivered
      ensures Shape() && StreamOk() && History(kdf.alg, given, stepsSet, buffers) && CapacityOk(Fatal(status))
      ensures status == old(OutputStatus(n))
      ensures output[n..] == old(output[n..])
      ensures old(outputStarted) ==> lBytes == old(lBytes) && outputStarted
      ensures capacity == old(CapacityAfter(n))
      ensures if status == Success then
                outputStarted && delivered == old(delivered) + output[..n] && lBytes == old(BoundLength())
              else delivered == old(delivered)
    {
      hide StreamOk, BackendStatus, History, LoopExits, In, FillsCache, RequiredSteps, Limit, Reserved, Shape;
      status := Reserve(n);
      if status == Success {
        status := Fulfil(output, n);
      }
    }

    /** psa_key_derivation_output_bytes: the next `n` bytes of the stream. */
    method OutputBytes(output: array<byte>, n: nat) returns (status: Status)
      requires Valid() && n <= output.Length && (Usable() ==> !Hangs(n))
      modifies output, `capacity, `lBytes, `outputStarted, `cache, `outputOffset, `delivered, `errorState
      ensures Valid()
      ensures status == if old(Usable()) then old(OutputStatus(n)) else BadState
      ensures errorState == (old(errorState) || (active && Fatal(status)))
      ensures output[n..] == old(output[n..])
      ensures old(outputStarted) ==> lBytes == old(lBytes) && outputStarted
      ensures capacity == if old(Usable()) then old(CapacityAfter(n)) else old(capacity)
      ensures if status == Success then
                outputStarted && delivered == old(delivered) + output[..n] && lBytes == old(BoundLength())
              else delivered == old(delivered)
    {
      hide StreamOk, History, OutputStatus;
      if !Usable() {
        return BadState;
      }
      status := Produce(output, n);
      Done(status);
    }

    /** psa_key_derivation_verify_bytes: compares the next bytes of the stream, and a
        mismatch leaves the operation usable. */
    method VerifyBytes(expected: seq<byte>) returns (status: Status)
      requires Valid() && (Usable() && |expected| <= INT_MAX ==> !Hangs(|expected|))
      modifies `capacity, `lBytes, `outputStarted, `cache, `outputOffset, `delivered, `errorState
      ensures Valid()
      ensures var read := if !old(Usable()) then BadState
                          else if |expected| > INT_MAX then InvalidArgument
                          else old(OutputStatus(|expected|));
              if read != Success then status == read && delivered == old(delivered)
              else
                && outputStarted && lBytes == old(BoundLength()) && |delivered| == |old(delivered)| + |expected| && old(delivered) <= delivered
                && status == if delivered[|old(delivered)|..] == expected then Success else InvalidSignature
      ensures errorState == (old(errorState) || (active && Fatal(status)))
      ensures old(outputStarted) ==> lBytes == old(lBytes) && outputStarted
      ensures capacity == if old(Usable()) && |expected| <= INT_MAX then old(CapacityAfter(|expected|)) else old(capacity)
    {
      hide StreamOk, History, OutputStatus, CapacityAfter, BoundLength, Hangs;
      if !Usable() {
        return BadState;
      }
      if |expected| > INT_MAX {
        Done(InvalidArgument);
        return InvalidArgument;
      }
      ghost var was := delivered;
      var buffer := new byte[|expected|](_ => 0);
      status := OutputBytes(buffer, |expected|);
      if status == Success {
        assert delivered[|was|..] == buffer[..|expected|] == buffer[..];
        var same := AllEqual(buffer[..], expected);
        status := if same then Success else InvalidSignature;
      }
    }

    /** psa_key_derivation_output_key: the next bytes of the stream become a key. */
    method OutputKey(bits: nat, unstructured: bool, imported: Status) returns (status: Status, key: seq<byte>)
      requires Valid()
      requires Usable() && bits > 0 && canOutputKey && unstructured ==> !Hangs((bits + 7) / 8)
      modifies `capacity, `lBytes, `outputStarted, `cache, `outputOffset, `delivered, `errorState
      ensures Valid()
      ensures var n := (bits + 7) / 8;
              var read := if !old(Usable()) then BadState
                          else if n == 0 then InvalidArgument
                          else if !canOutputKey then NotPermitted
                          else if !unstructured then InvalidArgument
                          else old(OutputStatus(n));
              if read != Success then status == read && delivered == old(delivered) && key == []
              else
                && status == imported && outputStarted && lBytes == old(BoundLength())
                && delivered == old(delivered) + key && |key| == n
      ensures errorState == (old(errorState) || (active && Fatal(status)))
      ensures old(outputStarted) ==> lBytes == old(lBytes) && outputStarted
      ensures capacity == if old(Usable()) && bits > 0 && canOutputKey && unstructured
                          then old(CapacityAfter((bits + 7) / 8)) else old(capacity)
    {
      hide StreamOk, History, OutputStatus, CapacityAfter, BoundLength, Hangs;
      key := [];
      if !Usable() {
        return BadState, [];
      }
      var n := (bits + 7) / 8;
      status := if n == 0 then InvalidArgument
                else if !canOutputKey then NotPermitted
                else if !unstructured then InvalidArgument
                else Success;
      if status == Success {
        var buffer := new byte[n](_ => 0);
        status := OutputBytes(buffer, n);
        if status == Success {
          key := buffer[..n];
          status := imported;
        }
      }
      Done(status);
    }
  }
}
