/** The key-derivation functions of src/psa_key_derivation.c as functions of their
    inputs: counter mode of SP 800-108r1, PBKDF2 of RFC 8018 over AES-CMAC-PRF-128,
    the premaster secret of RFC 4279, and the wolfCrypt functions (HKDF, the TLS 1.2
    PRF, PBKDF2-HMAC) as uninterpreted byte streams. */
module KdfSpec {
  import opened Bytes
  import opened Psa

  /** `Raw` is the bare key-derivation category behind a key agreement, which yields the
      agreed secret itself; `NoKdf` is the category alone, which yields nothing. */
  datatype Alg =
    | NoKdf
    | Raw
    | HkdfExtract
    | HkdfExpand
    | Hkdf
    | Tls12Prf
    | Tls12PskToMs
    | Pbkdf2Hmac
    | Pbkdf2Cmac
    | Sp800Hmac
    | Sp800Cmac

  /** Everything a derivation depends on besides the length. */
  datatype Inputs = Inputs(
    secret: seq<byte>,
    otherSecret: Option<seq<byte>>,
    salt: seq<byte>,
    info: seq<byte>,
    labelBytes: seq<byte>,
    context: seq<byte>,
    seed: seq<byte>,
    password: seq<byte>,
    cost: nat)

  /** The wolfCrypt primitives under the hash of the operation. HMAC and CMAC take key and
      message. The others give byte `j` of their output, so that a shorter request is a
      prefix of a longer one: extraction of salt and secret, expansion of key and info, the
      TLS 1.2 PRF of secret, label and seed, and PBKDF2 of password, salt and cost. */
  datatype Primitives = Primitives(
    hmac: (seq<byte>, seq<byte>) -> seq<byte>,
    cmac: (seq<byte>, seq<byte>) -> seq<byte>,
    hkdfExtract: (seq<byte>, seq<byte>, nat) -> byte,
    hkdfExpand: (seq<byte>, seq<byte>, nat) -> byte,
    tlsPrf: (seq<byte>, seq<byte>, seq<byte>, nat) -> byte,
    pbkdf2: (seq<byte>, seq<byte>, nat, nat) -> byte)

  /** An algorithm with its digest size, and whether the TLS PRF takes its hash. */
  datatype Kdf = Kdf(p: Primitives, alg: Alg, hashLen: nat, prfHash: bool)

  predicate HashLenOk(h: nat) {
    1 <= h <= 64
  }

  function Hmac(k: Kdf, key: seq<byte>, msg: seq<byte>): (r: seq<byte>)
    ensures |r| == k.hashLen
  {
    Fit(k.p.hmac(key, msg), k.hashLen)
  }

  function Cmac(k: Kdf, key: seq<byte>, msg: seq<byte>): (r: seq<byte>)
    ensures |r| == 16
  {
    Fit(k.p.cmac(key, msg), 16)
  }

  // ----- block streams -----

  /** block(1) || block(2) || ... || block(m), each of `h` bytes. */
  function Concat(block: nat -> seq<byte>, h: nat, m: nat): (s: seq<byte>)
    requires h >= 1
    ensures |s| >= m
  {
    if m == 0 then [] else Concat(block, h, m - 1) + Fit(block(m), h)
  }

  lemma {:induction false} ConcatPrefix(block: nat -> seq<byte>, h: nat, m: nat, n: nat)
    requires h >= 1 && m <= n
    ensures Concat(block, h, m) <= Concat(block, h, n)
  {
    if m < n {
      ConcatPrefix(block, h, m, n - 1);
    }
  }

  /** The first `n` bytes of block(1) || block(2) || ... */
  function Truncated(block: nat -> seq<byte>, h: nat, n: nat): (s: seq<byte>)
    requires h >= 1
    ensures |s| == n
  {
    Concat(block, h, n)[..n]
  }

  lemma TruncatedPrefix(block: nat -> seq<byte>, h: nat, m: nat, n: nat)
    requires h >= 1 && m <= n
    ensures Truncated(block, h, m) == Truncated(block, h, n)[..m]
  {
    ConcatPrefix(block, h, m, n);
  }

  /** Any number of blocks that reaches `n` bytes will do. */
  lemma EnoughBlocks(block: nat -> seq<byte>, h: nat, m: nat, n: nat)
    requires h >= 1 && |Concat(block, h, m)| >= n
    ensures Truncated(block, h, n) == Concat(block, h, m)[..n]
  {
    if m <= n {
      ConcatPrefix(block, h, m, n);
    } else {
      ConcatPrefix(block, h, n, m);
    }
  }

  // ----- counter mode, SP 800-108r1 section 4.1 -----

  /** Label || 0x00 || Context || [L]_4, with L the output length in bits. */
  function FixedInput(i: Inputs, lBytes: nat): seq<byte> {
    i.labelBytes + [0] + i.context + BigEndian(8 * lBytes, 4)
  }

  function HmacBlock(k: Kdf, i: Inputs, lBytes: nat): nat -> seq<byte> {
    (j: nat) => Hmac(k, i.secret, BigEndian(j, 4) + FixedInput(i, lBytes))
  }

  function K0(k: Kdf, i: Inputs, lBytes: nat): seq<byte> {
    Cmac(k, i.secret, FixedInput(i, lBytes))
  }

  function CmacBlock(k: Kdf, i: Inputs, lBytes: nat): nat -> seq<byte> {
    (j: nat) => Cmac(k, i.secret, BigEndian(j, 4) + FixedInput(i, lBytes) + K0(k, i, lBytes))
  }

  /** The largest capacity of a counter-mode operation. */
  const SP800_108_MAX: nat := 0x1FFF_FFFF

  /** Every reachable length has an exact bit count in four bytes, and no two blocks of
      one derivation share a counter field. */
  lemma LengthAndCounterExact(lBytes: nat, i: nat, j: nat)
    requires lBytes <= SP800_108_MAX && i <= lBytes && j <= lBytes
    ensures Value(BigEndian(8 * lBytes, 4)) == 8 * lBytes
    ensures BigEndian(i, 4) == BigEndian(j, 4) ==> i == j
  {
    assert Pow256(4) == 0x1_0000_0000;
    ValueOfBigEndian(8 * lBytes, 4);
    ValueOfBigEndian(i, 4);
    ValueOfBigEndian(j, 4);
  }

  // ----- PBKDF2 over AES-CMAC-PRF-128, RFC 8018 section 5.2 and RFC 4615 section 3 -----

  function PrfKey(k: Kdf, password: seq<byte>): (key: seq<byte>)
    ensures |key| == 16
  {
    if |password| == 16 then password else Cmac(k, Zeros(16), password)
  }

  /** U_c of block `j`. */
  function U(k: Kdf, i: Inputs, j: nat, c: nat): (u: seq<byte>)
    requires c >= 1
    ensures |u| == 16
  {
    if c == 1 then Cmac(k, PrfKey(k, i.password), i.salt + BigEndian(j, 4))
    else Cmac(k, PrfKey(k, i.password), U(k, i, j, c - 1))
  }

  /** U_1 xor U_2 xor ... xor U_c of block `j`. */
  function T(k: Kdf, i: Inputs, j: nat, c: nat): (t: seq<byte>)
    requires c >= 1
    ensures |t| == 16
  {
    if c == 1 then U(k, i, j, 1) else Xor(T(k, i, j, c - 1), U(k, i, j, c))
  }

  function Pbkdf2Block(k: Kdf, i: Inputs): nat -> seq<byte>
    requires i.cost >= 1
  {
    (j: nat) => T(k, i, j, i.cost)
  }

  // ----- the premaster secret, RFC 4279 section 2 -----

  function Premaster(secret: seq<byte>, otherSecret: Option<seq<byte>>): seq<byte> {
    var other := match otherSecret case Some(o) => o case None => Zeros(|secret|);
    BigEndian(|other|, 2) + other + BigEndian(|secret|, 2) + secret
  }

  function ParsePremaster(s: seq<byte>): Option<(seq<byte>, seq<byte>)> {
    if |s| < 2 then None else
      var m := Value(s[..2]);
      if |s| < 4 + m then None else
        var n := Value(s[2 + m..4 + m]);
        if |s| != 4 + m + n then None else Some((s[2..2 + m], s[4 + m..]))
  }

  /** With the 16-bit lengths the code insists on, the encoding gives both secrets back. */
  lemma PremasterParses(secret: seq<byte>, otherSecret: Option<seq<byte>>)
    requires |secret| <= UINT16_MAX && (otherSecret.Some? ==> |otherSecret.value| <= UINT16_MAX)
    ensures var other := match otherSecret case Some(o) => o case None => Zeros(|secret|);
            ParsePremaster(Premaster(secret, otherSecret)) == Some((other, secret))
  {
    hide BigEndian, Value;
    var other := match otherSecret case Some(o) => o case None => Zeros(|secret|);
    var s, m := Premaster(secret, otherSecret), |other|;
    TwoBytes(m);
    TwoBytes(|secret|);
    assert s[..2] == BigEndian(m, 2);
    assert s[2 + m..4 + m] == BigEndian(|secret|, 2);
    assert s[2..2 + m] == other && s[4 + m..] == secret;
  }

  lemma TwoBytes(n: nat)
    requires n <= UINT16_MAX
    ensures Value(BigEndian(n, 2)) == n
  {
    assert Pow256(2) == 0x1_0000;
    ValueOfBigEndian(n, 2);
  }

  // ----- the output of a derivation -----

  function Prefix(stream: nat -> byte, n: nat): (s: seq<byte>)
    ensures |s| == n
  {
    seq(n, j requires 0 <= j < n => stream(j))
  }

  /** The first `n` bytes an operation yields; `lBytes` is the length that counter mode
      binds into its blocks. */
  function Derived(k: Kdf, i: Inputs, lBytes: nat, n: nat): (s: seq<byte>)
    requires HashLenOk(k.hashLen)
    requires k.alg == Pbkdf2Cmac ==> i.cost >= 1
    requires k.alg == Raw ==> n <= |i.secret|
    ensures |s| == n
  {
    match k.alg
    case NoKdf => Zeros(n)
    case Raw => i.secret[..n]
    case HkdfExtract => Prefix((j: nat) => k.p.hkdfExtract(i.salt, i.secret, j), n)
    case HkdfExpand => Prefix((j: nat) => k.p.hkdfExpand(i.secret, i.info, j), n)
    case Hkdf =>
      var prk := Prefix((j: nat) => k.p.hkdfExtract(i.salt, i.secret, j), k.hashLen);
      Prefix((j: nat) => k.p.hkdfExpand(prk, i.info, j), n)
    case Tls12Prf => Prefix((j: nat) => k.p.tlsPrf(i.secret, i.labelBytes, i.seed, j), n)
    case Tls12PskToMs => Prefix((j: nat) => k.p.tlsPrf(Premaster(i.secret, i.otherSecret), MASTER_SECRET, i.seed, j), n)
    case Pbkdf2Cmac => Truncated(Pbkdf2Block(k, i), 16, n)
    case Sp800Hmac => Truncated(HmacBlock(k, i, lBytes), k.hashLen, n)
    case Sp800Cmac => Truncated(CmacBlock(k, i, lBytes), 16, n)
    case Pbkdf2Hmac => Prefix((j: nat) => k.p.pbkdf2(i.password, i.salt, i.cost, j), n)
  }

  /** The label "master secret". */
  const MASTER_SECRET: seq<byte> := [109, 97, 115, 116, 101, 114, 32, 115, 101, 99, 114, 101, 116]

  /** A shorter request is a prefix of a longer one. */
  lemma DerivedPrefix(k: Kdf, i: Inputs, lBytes: nat, m: nat, n: nat)
    requires HashLenOk(k.hashLen) && m <= n
    requires k.alg == Pbkdf2Cmac ==> i.cost >= 1
    requires k.alg == Raw ==> n <= |i.secret|
    ensures Derived(k, i, lBytes, m) == Derived(k, i, lBytes, n)[..m]
  {
    match k.alg
    case Pbkdf2Cmac => TruncatedPrefix(Pbkdf2Block(k, i), 16, m, n);
    case Sp800Hmac => TruncatedPrefix(HmacBlock(k, i, lBytes), k.hashLen, m, n);
    case Sp800Cmac => TruncatedPrefix(CmacBlock(k, i, lBytes), 16, m, n);
    case _ =>
  }
}
