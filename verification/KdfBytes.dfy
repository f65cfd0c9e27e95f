/** What comes out of a key derivation, byte for byte, in terms of the wolfCrypt
    primitives and of the inputs that the calls of a run put in. */
module KdfBytes {
  import opened Bytes
  import opened KdfOperation
  import opened KdfRuns
  import opened KdfSpec
  import opened Psa

  /** Byte `j` of what the accepted inputs `given` and `cost` derive; counter mode binds
      the length `lBytes`. */
  ghost function StreamByte(k: Kdf, given: seq<Given>, cost: nat, lBytes: nat, j: nat): byte
    requires HashLenOk(k.hashLen)
  {
    var secret, salt, info := Collected(given, Secret), Collected(given, Salt), Collected(given, Info);
    var seed, password := Collected(given, Seed), Collected(given, Password);
    var other := if Count(given, OtherSecret) > 0 then Collected(given, OtherSecret) else Zeros(|secret|);
    var fixedInput := Collected(given, Label) + [0] + Collected(given, Context) + BigEndian(8 * lBytes, 4);
    match k.alg
    case NoKdf => 0
    case Raw => if j < |secret| then secret[j] else 0
    case HkdfExtract => k.p.hkdfExtract(salt, secret, j)
    case HkdfExpand => k.p.hkdfExpand(secret, info, j)
    case Hkdf =>
      var prk := seq<byte>(k.hashLen, x requires 0 <= x < k.hashLen => k.p.hkdfExtract(salt, secret, x));
      k.p.hkdfExpand(prk, info, j)
    case Tls12Prf => k.p.tlsPrf(secret, Collected(given, Label), seed, j)
    case Tls12PskToMs =>
      var premaster := BigEndian(|other|, 2) + other + BigEndian(|secret|, 2) + secret;
      k.p.tlsPrf(premaster, [109, 97, 115, 116, 101, 114, 32, 115, 101, 99, 114, 101, 116], seed, j)
    case Pbkdf2Hmac => k.p.pbkdf2(password, salt, cost, j)
    case Pbkdf2Cmac =>
      var key := if |password| == 16 then password else Fit(k.p.cmac(Zeros(16), password), 16);
      if cost == 0 then 0 else Folded(k.p, key, salt + BigEndian(j / 16 + 1, 4), cost).1[j % 16]
    case Sp800Hmac => Fit(k.p.hmac(secret, BigEndian(j / k.hashLen + 1, 4) + fixedInput), k.hashLen)[j % k.hashLen]
    case Sp800Cmac =>
      var k0 := Fit(k.p.cmac(secret, fixedInput), 16);
      Fit(k.p.cmac(secret, BigEndian(j / 16 + 1, 4) + fixedInput + k0), 16)[j % 16]
  }

  /** The last of `rounds` chained CMACs from `message` on, and the XOR of all of them. */
  function Folded(p: Primitives, key: seq<byte>, message: seq<byte>, rounds: nat): (r: (seq<byte>, seq<byte>))
    requires rounds >= 1
    ensures |r.0| == |r.1| == 16
  {
    if rounds == 1 then
      var u := Fit(p.cmac(key, message), 16);
      (u, u)
    else
      var before := Folded(p, key, message, rounds - 1);
      var u := Fit(p.cmac(key, before.0), 16);
      (u, Xor(before.1, u))
  }

  // ----- block streams -----

  lemma Division(j: nat, h: nat, q: nat)
    requires h >= 1 && q * h <= j < q * h + h
    ensures j / h == q && j % h == j - q * h
  {
    UniqueRemainder(j, h, q, j - q * h);
  }

  lemma {:induction false} ConcatAt(block: nat -> seq<byte>, h: nat, m: nat, j: nat)
    requires h >= 1
    ensures |Concat(block, h, m)| == m * h
    ensures j < m * h ==> Concat(block, h, m)[j] == Fit(block(j / h + 1), h)[j % h]
  {
    if m > 0 {
      ConcatAt(block, h, m - 1, j);
      assert m * h == (m - 1) * h + h;
      if (m - 1) * h <= j < m * h {
        Division(j, h, m - 1);
      }
    }
  }

  lemma TruncatedAt(block: nat -> seq<byte>, h: nat, n: nat, j: nat)
    requires h >= 1 && j < n
    ensures Truncated(block, h, n)[j] == Fit(block(j / h + 1), h)[j % h]
  {
    MulMonotonic(1, h, n);
    assert n * h == h * n && 1 * n == n;
    hide Concat, Fit;
    ConcatAt(block, h, n, j);
  }

  lemma {:induction false} FoldedIsBlock(k: Kdf, i: Inputs, j: nat, c: nat)
    requires c >= 1
    ensures Folded(k.p, PrfKey(k, i.password), i.salt + BigEndian(j, 4), c) == (U(k, i, j, c), T(k, i, j, c))
  {
    if c > 1 {
      FoldedIsBlock(k, i, j, c - 1);
    }
  }

  // ----- the stream of a session -----

  /** Enough inputs are in for `n` bytes. */
  predicate Defined(s: Session, n: nat) {
    && HashLenOk(s.kdf.hashLen) && s.kdf.alg != NoKdf
    && (s.kdf.alg == Pbkdf2Cmac ==> s.cost >= 1)
    && (s.kdf.alg == Raw ==> n <= |Collected(s.given, Secret)|)
  }

  lemma TakenIsDefined(s: Session, call: Api)
    requires HashLenOk(s.kdf.hashLen) && Takes(s, call)
    ensures Defined(s, s.offset + Wanted(call))
  {
    hide Collected, Count, Wanted, Asks;
    if s.kdf.alg == Pbkdf2Cmac {
      assert Cost in RequiredSteps(s.kdf.alg);
      assert Cost in Steps(s);
    }
  }

  lemma StreamBytes(s: Session, n: nat, j: nat)
    requires Defined(s, n) && j < n
    ensures Stream(s, n)[j] == StreamByte(s.kdf, s.given, s.cost, Bound(s), j)
  {
    hide Stream, StreamByte;
    match s.kdf.alg
    case Pbkdf2Cmac => Pbkdf2CmacBytes(s, n, j);
    case Sp800Hmac => Sp800HmacBytes(s, n, j);
    case Sp800Cmac => Sp800CmacBytes(s, n, j);
    case Tls12PskToMs => PskToMsBytes(s, n, j);
    case Hkdf => HkdfBytes(s, n, j);
    case _ => PlainBytes(s, n, j);
  }

  lemma Pbkdf2CmacBytes(s: Session, n: nat, j: nat)
    requires Defined(s, n) && j < n && s.kdf.alg == Pbkdf2Cmac
    ensures Stream(s, n)[j] == StreamByte(s.kdf, s.given, s.cost, Bound(s), j)
  {
    hide Collected, Count, BigEndian;
    var k, i := s.kdf, InputsOf(s);
    TruncatedAt(Pbkdf2Block(k, i), 16, n, j);
    FoldedIsBlock(k, i, j / 16 + 1, i.cost);
  }

  lemma Sp800HmacBytes(s: Session, n: nat, j: nat)
    requires Defined(s, n) && j < n && s.kdf.alg == Sp800Hmac
    ensures Stream(s, n)[j] == StreamByte(s.kdf, s.given, s.cost, Bound(s), j)
  {
    hide Collected, Count, BigEndian;
    var k, i := s.kdf, InputsOf(s);
    TruncatedAt(HmacBlock(k, i, Bound(s)), k.hashLen, n, j);
  }

  lemma Sp800CmacBytes(s: Session, n: nat, j: nat)
    requires Defined(s, n) && j < n && s.kdf.alg == Sp800Cmac
    ensures Stream(s, n)[j] == StreamByte(s.kdf, s.given, s.cost, Bound(s), j)
  {
    hide Collected, Count, BigEndian;
    var k, i := s.kdf, InputsOf(s);
    TruncatedAt(CmacBlock(k, i, Bound(s)), 16, n, j);
    var c := BigEndian(j / 16 + 1, 4);
    assert c + FixedInput(i, Bound(s)) + K0(k, i, Bound(s)) == c + (FixedInput(i, Bound(s)) + K0(k, i, Bound(s)));
  }

  lemma PskToMsBytes(s: Session, n: nat, j: nat)
    requires Defined(s, n) && j < n && s.kdf.alg == Tls12PskToMs
    ensures Stream(s, n)[j] == StreamByte(s.kdf, s.given, s.cost, Bound(s), j)
  {
    hide Collected, Count, BigEndian;
    var k, i := s.kdf, InputsOf(s);
    var other := if i.otherSecret.Some? then i.otherSecret.value else Zeros(|i.secret|);
    assert Premaster(i.secret, i.otherSecret) == BigEndian(|other|, 2) + other + BigEndian(|i.secret|, 2) + i.secret;
  }

  lemma HkdfBytes(s: Session, n: nat, j: nat)
    requires Defined(s, n) && j < n && s.kdf.alg == Hkdf
    ensures Stream(s, n)[j] == StreamByte(s.kdf, s.given, s.cost, Bound(s), j)
  {
    hide Collected, Count, BigEndian;
    var k, i := s.kdf, InputsOf(s);
    assert Prefix((x: nat) => k.p.hkdfExtract(i.salt, i.secret, x), k.hashLen)
        == seq<byte>(k.hashLen, x requires 0 <= x < k.hashLen => k.p.hkdfExtract(i.salt, i.secret, x));
  }

  lemma PlainBytes(s: Session, n: nat, j: nat)
    requires Defined(s, n) && j < n && s.kdf.alg in {Raw, HkdfExtract, HkdfExpand, Tls12Prf, Pbkdf2Hmac}
    ensures Stream(s, n)[j] == StreamByte(s.kdf, s.given, s.cost, Bound(s), j)
  {
    hide Collected, Count, BigEndian;
  }

  /** The bytes of a slice, counted from the place where it begins. */
  lemma SliceBytes(s: Session, call: Api, j: nat)
    requires HashLenOk(s.kdf.hashLen) && Takes(s, call) && j < Wanted(call)
    ensures |Slice(s, Wanted(call))| == Wanted(call)
    ensures Slice(s, Wanted(call))[j] == StreamByte(s.kdf, s.given, s.cost, Bound(s), s.offset + j)
  {
    hide StreamByte, Takes, Stream, Defined;
    TakenIsDefined(s, call);
    StreamBytes(s, s.offset + Wanted(call), s.offset + j);
  }

  // ----- runs -----

  /** The cost that calls and their replies show to be accepted, and 0 before one is. */
  function CostIn(calls: seq<Api>, replies: seq<Reply>): nat
    requires |calls| == |replies|
  {
    if |calls| == 0 then 0
    else
      var n := |calls| - 1;
      if calls[n].InputInteger? && replies[n].status == Success then calls[n].value
      else CostIn(calls[..n], replies[..n])
  }

  /** How many bytes the calls and their replies show to be out of the stream. */
  function TakenIn(calls: seq<Api>, replies: seq<Reply>): nat
    requires |calls| == |replies|
  {
    if |calls| == 0 then 0
    else
      var n := |calls| - 1;
      TakenIn(calls[..n], replies[..n]) + TakenBy(calls[n], replies[n])
  }

  /** A comparison that comes to a verdict takes its bytes, and a read or a key those it delivers. */
  function TakenBy(call: Api, reply: Reply): nat {
    if call.Check? then
      if reply.status == Success || reply.status == InvalidSignature then |call.expected| else 0
    else |reply.bytes|
  }

  lemma ObservedStep(s: Session, call: Api)
    ensures var t, r := After(s, call), Answer(s, call);
            && t.kdf == s.kdf
            && t.cost == (if call.InputInteger? && r.status == Success then call.value else s.cost)
            && t.offset == s.offset + TakenBy(call, r)
  {
    hide Stream, StepStatus;
  }

  lemma RepliedPrefix(first: Session, calls: seq<Api>, replies: seq<Reply>, i: nat)
    requires Replied(first, calls, replies) && i <= |replies|
    ensures Replied(first, calls[..i], replies[..i])
  {
    hide Answer, NeverReturns, StateAfter;
    forall x | 0 <= x < i ensures AnsweredAt(first, calls[..i], x, replies[..i][x]) {
      assert AnsweredAt(first, calls, x, replies[x]);
      assert calls[..i][..x] == calls[..x];
    }
  }

  lemma {:induction false} Observed(k: Kdf, keyAgreement: bool, calls: seq<Api>, replies: seq<Reply>)
    requires Replied(Initial(k, keyAgreement), calls, replies) && |replies| == |calls|
    ensures var s := StateAfter(Initial(k, keyAgreement), calls);
            s.kdf == Installed(k, keyAgreement) && s.cost == CostIn(calls, replies) && s.offset == TakenIn(calls, replies)
  {
    hide After, Answer, Replied, TakenBy;
    if |calls| > 0 {
      var n := |calls| - 1;
      RepliedFront(Initial(k, keyAgreement), calls, replies);
      Observed(k, keyAgreement, calls[..n], replies[..n]);
      ObservedStep(StateAfter(Initial(k, keyAgreement), calls[..n]), calls[n]);
    }
  }

  /** `bytes` lie in the stream of the inputs from `at` on. */
  ghost predicate FromStream(k: Kdf, given: seq<Given>, cost: nat, lBytes: nat, at: nat, bytes: seq<byte>)
    requires HashLenOk(k.hashLen)
  {
    forall j :: 0 <= j < |bytes| ==> bytes[j] == StreamByte(k, given, cost, lBytes, at + j)
  }

  /** In every run every byte that is read or put into a key is the primitive's, applied
      to the inputs whose calls reported success, at the place behind all bytes taken
      before; and a comparison succeeds exactly for these bytes. */
  lemma BytesOfRuns(k: Kdf, keyAgreement: bool, calls: seq<Api>, replies: seq<Reply>, i: nat)
    requires HashLenOk(k.hashLen) && Replied(Initial(k, keyAgreement), calls, replies) && i < |replies|
    ensures var given, cost := AcceptedIn(calls[..i], replies[..i]), CostIn(calls[..i], replies[..i]);
            var lBytes, at := Bound(StateAfter(Initial(k, keyAgreement), calls[..i])), TakenIn(calls[..i], replies[..i]);
            var kdf := Installed(k, keyAgreement);
            match calls[i]
            case Read(n) =>
              replies[i].status == Success ==>
                |replies[i].bytes| == n && FromStream(kdf, given, cost, lBytes, at, replies[i].bytes)
            case Check(expected) =>
              replies[i].status == Success || replies[i].status == InvalidSignature ==>
                (replies[i].status == Success <==> FromStream(kdf, given, cost, lBytes, at, expected))
            case Key(bits, _, _) =>
              replies[i].bytes != [] ==>
                |replies[i].bytes| == (bits + 7) / 8 && FromStream(kdf, given, cost, lBytes, at, replies[i].bytes)
            case _ => replies[i].bytes == []
  {
    assert |replies| <= |calls|;
    hide StreamByte, StateAfter, Replied, AcceptedIn, CostIn, TakenIn, Slice, SliceStatus, StepStatus, FromStream;
    var first := Initial(k, keyAgreement);
    var s := StateAfter(first, calls[..i]);
    RepliedPrefix(first, calls, replies, i);
    AnsweredThere(first, calls, replies, i);
    Observed(k, keyAgreement, calls[..i], replies[..i]);
    GivenIsAccepted(k, keyAgreement, calls[..i], replies[..i]);
    if Takes(s, calls[i]) {
      SliceIsFromStream(s, calls[i]);
    }
  }

  lemma AnsweredThere(first: Session, calls: seq<Api>, replies: seq<Reply>, i: nat)
    requires Replied(first, calls, replies) && i < |replies|
    ensures replies[i] == Answer(StateAfter(first, calls[..i]), calls[i])
  {
    hide Answer, NeverReturns, StateAfter;
    assert AnsweredAt(first, calls, i, replies[i]);
  }

  lemma SliceIsFromStream(s: Session, call: Api)
    requires HashLenOk(s.kdf.hashLen) && Takes(s, call)
    ensures var slice := Slice(s, Wanted(call));
            && |slice| == Wanted(call) && FromStream(s.kdf, s.given, s.cost, Bound(s), s.offset, slice)
            && forall other ::
                 |other| == Wanted(call) ==>
                   (other == slice <==> FromStream(s.kdf, s.given, s.cost, Bound(s), s.offset, other))
  {
    hide StreamByte, Takes, Wanted, Stream;
    var slice := Slice(s, Wanted(call));
    forall j | 0 <= j < |slice| ensures slice[j] == StreamByte(s.kdf, s.given, s.cost, Bound(s), s.offset + j) {
      SliceBytes(s, call, j);
    }
    forall other | |other| == Wanted(call) && FromStream(s.kdf, s.given, s.cost, Bound(s), s.offset, other)
      ensures other == slice
    {
      assert forall j :: 0 <= j < |other| ==> other[j] == slice[j];
    }
  }
}
