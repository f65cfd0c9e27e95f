/** The policy of a copied key: the algorithm intersection of src/psa_key_storage.c,
    against what MAC and AEAD calls permit (src/psa_mac.c and src/psa_aead.c). The
    algorithm identifiers are the 32-bit words of the PSA Crypto API. */
module Policy {
  import opened Psa

  type Word = bv32

  const ALG_NONE: Word := 0
  const CATEGORY_MASK: Word := 0x7f00_0000
  const CATEGORY_HASH: Word := 0x0200_0000
  const CATEGORY_MAC: Word := 0x0300_0000
  const CATEGORY_AEAD: Word := 0x0500_0000
  const CATEGORY_SIGN: Word := 0x0600_0000
  const HASH_MASK: Word := 0x0000_00ff
  const ANY_HASH: Word := 0x0200_00ff
  const PKCS1V15_SIGN_BASE: Word := 0x0600_0200
  const PURE_EDDSA: Word := 0x0600_0800
  const EDDSA_CTX: Word := 0x0600_0a00
  /** MAC truncation and AEAD tag length share their field and their wildcard flag. */
  const LENGTH_MASK: Word := 0x003f_0000
  const AT_LEAST_FLAG: Word := 0x0000_8000
  const USAGE_COPY: Word := 0x0000_0002

  predicate IsMac(a: Word) {
    a & CATEGORY_MASK == CATEGORY_MAC
  }

  predicate IsAead(a: Word) {
    a & CATEGORY_MASK == CATEGORY_AEAD
  }

  predicate IsSignHash(a: Word) {
    a & CATEGORY_MASK == CATEGORY_SIGN && a != PURE_EDDSA && a != EDDSA_CTX
  }

  /** PSA_ALG_FULL_LENGTH_MAC, and PSA_ALG_AEAD_WITH_SHORTENED_TAG with length 0. */
  function Family(a: Word): Word {
    a & !(LENGTH_MASK | AT_LEAST_FLAG)
  }

  function LengthField(a: Word): Word {
    (a & LENGTH_MASK) >> 16
  }

  predicate Wildcard(a: Word) {
    a & AT_LEAST_FLAG != 0
  }

  /** The value of a six-bit field, bit by bit. */
  function SixBits(w: Word): nat {
    (if w & 1 != 0 then 1 else 0) + (if w & 2 != 0 then 2 else 0) + (if w & 4 != 0 then 4 else 0)
    + (if w & 8 != 0 then 8 else 0) + (if w & 16 != 0 then 16 else 0) + (if w & 32 != 0 then 32 else 0)
  }

  /** The comparisons of the code are those of the values. */
  lemma SixBitsOrder(a: Word, b: Word)
    requires a <= 0x3f && b <= 0x3f
    ensures a > b <==> SixBits(a) > SixBits(b)
    ensures a >= b <==> SixBits(a) >= SixBits(b)
    ensures a == b <==> SixBits(a) == SixBits(b)
    ensures a == 0 <==> SixBits(a) == 0
  {
  }

  function AtLeast(a: Word, length: Word): Word {
    Family(a) | ((length << 16) & LENGTH_MASK) | AT_LEAST_FLAG
  }

  function GetHash(a: Word): Word {
    if a & HASH_MASK == 0 then ALG_NONE else CATEGORY_HASH | (a & HASH_MASK)
  }

  lemma AtLeastParts(a: Word, length: Word)
    requires length <= 0x3f
    ensures Family(AtLeast(a, length)) == Family(a)
    ensures LengthField(AtLeast(a, length)) == length && Wildcard(AtLeast(a, length))
    ensures AtLeast(a, length) != ALG_NONE
  {
  }

  /** The three parts of a MAC or AEAD algorithm. */
  datatype Parts = Parts(family: Word, wild: bool, length: nat)

  function PartsOf(a: Word): Parts {
    Parts(Family(a), Wildcard(a), SixBits(LengthField(a)))
  }

  /** The three parts are all there is. */
  lemma PartsDetermine(a: Word, b: Word)
    ensures PartsOf(a) == PartsOf(b) <==> a == b
  {
    hide Family, LengthField, Wildcard, SixBits;
    FieldBound(a);
    FieldBound(b);
    SixBitsOrder(LengthField(a), LengthField(b));
    if PartsOf(a) == PartsOf(b) {
      FieldsDetermine(a, b);
    }
  }

  lemma FieldsDetermine(a: Word, b: Word)
    requires Family(a) == Family(b) && LengthField(a) == LengthField(b) && (Wildcard(a) <==> Wildcard(b))
    ensures a == b
  {
  }

  lemma FieldBound(a: Word)
    ensures LengthField(a) <= 0x3f
  {
  }

  lemma FamilyKeepsCategory(a: Word, b: Word)
    requires Family(a) == Family(b)
    ensures IsMac(a) <==> IsMac(b)
    ensures IsAead(a) <==> IsAead(b)
    ensures IsMac(a) || IsAead(a) ==> a != ALG_NONE && !IsSignHash(a)
  {
  }

  // ----- the intersection -----

  function TagLenPermitted(concrete: Word, minimum: Word): bool {
    if minimum == 0 then concrete == 0 else concrete == 0 || concrete >= minimum
  }

  function TagLenRestrict(a: Word, b: Word): Word {
    if a == 0 || b == 0 then 0 else if a > b then a else b
  }

  /** The arm of wolfpsa_alg_intersect for two different algorithms of one MAC or AEAD family. */
  function IntersectLengths(src: Word, dst: Word): Option<Word> {
    var s, d := LengthField(src), LengthField(dst);
    if Wildcard(src) && Wildcard(dst) then Some(AtLeast(src, TagLenRestrict(s, d)))
    else if Wildcard(src) then if TagLenPermitted(d, s) then Some(dst) else None
    else if Wildcard(dst) then if TagLenPermitted(s, d) then Some(src) else None
    else None
  }

  /** The arm for two hash-and-sign algorithms of one scheme. */
  function IntersectHashes(src: Word, dst: Word): Option<Word> {
    var s, d := GetHash(src), GetHash(dst);
    if (s == ANY_HASH) == (d == ANY_HASH) then None
    else
      var concrete := if s == ANY_HASH then d else s;
      if concrete != ALG_NONE || src & !HASH_MASK == PKCS1V15_SIGN_BASE
      then Some(if s == ANY_HASH then dst else src) else None
  }

  /** wolfpsa_alg_intersect */
  function Intersect(src: Word, dst: Word): Option<Word> {
    if src == dst then Some(src)
    else if src & !HASH_MASK == dst & !HASH_MASK && IsSignHash(src) && IsSignHash(dst) then IntersectHashes(src, dst)
    else if IsMac(src) && IsMac(dst) && Family(src) == Family(dst) then IntersectLengths(src, dst)
    else if IsAead(src) && IsAead(dst) && Family(src) == Family(dst) then IntersectLengths(src, dst)
    else None
  }

  function LongerTag(a: nat, b: nat): nat {
    if a == 0 || b == 0 then 0 else if a > b then a else b
  }

  predicate AdmitsTag(concrete: nat, minimum: nat) {
    concrete == 0 || (minimum != 0 && concrete >= minimum)
  }

  /** The intersection on the parts of two algorithms of one category. */
  function MeetParts(p: Parts, q: Parts): Option<Parts> {
    if p == q then Some(p)
    else if p.family != q.family then None
    else if p.wild && q.wild then Some(Parts(p.family, true, LongerTag(p.length, q.length)))
    else if p.wild then if AdmitsTag(q.length, p.length) then Some(q) else None
    else if q.wild then if AdmitsTag(p.length, q.length) then Some(p) else None
    else None
  }

  lemma TagLengths(a: Word, b: Word)
    requires a <= 0x3f && b <= 0x3f
    ensures TagLenPermitted(a, b) <==> AdmitsTag(SixBits(a), SixBits(b))
    ensures SixBits(TagLenRestrict(a, b)) == LongerTag(SixBits(a), SixBits(b))
    ensures TagLenRestrict(a, b) <= 0x3f
  {
    hide SixBits;
    SixBitsOrder(a, b);
    SixBitsOrder(b, a);
    SixBitsOrder(a, 0);
    ZeroBits();
  }

  lemma ZeroBits()
    ensures SixBits(0) == 0
  {
  }

  /** What the intersection does with MAC and AEAD policies. */
  lemma IntersectByParts(src: Word, dst: Word)
    requires (IsMac(src) && IsMac(dst)) || (IsAead(src) && IsAead(dst))
    ensures match Intersect(src, dst)
            case None => MeetParts(PartsOf(src), PartsOf(dst)) == None
            case Some(x) => MeetParts(PartsOf(src), PartsOf(dst)) == Some(PartsOf(x)) && x != ALG_NONE
  {
    hide Family, LengthField, Wildcard, AtLeast, IntersectHashes, GetHash, TagLenPermitted, TagLenRestrict, SixBits;
    PartsDetermine(src, dst);
    FamilyKeepsCategory(src, src);
    FamilyKeepsCategory(dst, dst);
    FieldBound(src);
    FieldBound(dst);
    TagLengths(LengthField(src), LengthField(dst));
    TagLengths(LengthField(dst), LengthField(src));
    AtLeastParts(src, TagLenRestrict(LengthField(src), LengthField(dst)));
  }

  // ----- MAC policies -----

  /** The length a MAC length field stands for; `full` is the untruncated length of the family. */
  function Effective(length: nat, full: nat): nat {
    if length == 0 then full else length
  }

  /** wolfpsa_mac_alg_permitted for a request `r` under the policy `key`. */
  predicate MacPermits(key: Word, r: Word, full: nat) {
    key != ALG_NONE && MacPartsPermit(PartsOf(key), PartsOf(r), full)
  }

  predicate MacPartsPermit(key: Parts, r: Parts, full: nat) {
    && key.family == r.family
    && if key.wild then Effective(r.length, full) >= Effective(key.length, full)
       else Effective(r.length, full) == Effective(key.length, full)
  }

  /** 0 for the full length, otherwise shorter than it. */
  predicate CanonicalMac(a: Word, full: nat) {
    PartsOf(a).length < full || PartsOf(a).length == 0
  }

  /** The intersection permits exactly what both sides permit. */
  ghost predicate MacMeet(src: Word, dst: Word, full: nat) {
    forall r: Word ::
      (Intersect(src, dst).Some? && MacPermits(Intersect(src, dst).value, r, full))
      <==> (MacPermits(src, r, full) && MacPermits(dst, r, full))
  }

  /** Where one side asks for the full length by 0 and the other names a length, the
      named length must fall short of the full one, or at most reach it for a wildcard. */
  predicate MacLengthsAgree(src: Word, dst: Word, full: nat) {
    PartsAgree(PartsOf(src), PartsOf(dst), full)
  }

  predicate PartsAgree(p: Parts, q: Parts, full: nat) {
    if p.family != q.family || (p.length == 0) == (q.length == 0) then true
    else if p.length == 0 then OneNamed(p.wild, q, full)
    else OneNamed(q.wild, p, full)
  }

  predicate OneNamed(fullWild: bool, named: Parts, full: nat) {
    if named.wild then named.length <= full else if fullWild then named.length < full else named.length != full
  }

  ghost predicate PartsExact(p: Parts, q: Parts, r: Parts, full: nat) {
    (MeetParts(p, q).Some? && MacPartsPermit(MeetParts(p, q).value, r, full))
    <==> (MacPartsPermit(p, r, full) && MacPartsPermit(q, r, full))
  }

  lemma PartsMeet(p: Parts, q: Parts, r: Parts, full: nat)
    requires PartsAgree(p, q, full)
    ensures PartsExact(p, q, r, full)
  {
  }

  /** A request that tells the two sides from their intersection. */
  function Witness(src: Word, dst: Word): Word {
    var full, named := if PartsOf(src).length == 0 then src else dst, if PartsOf(src).length == 0 then dst else src;
    if Wildcard(named) then full else named
  }

  lemma PartsDiffer(p: Parts, q: Parts, full: nat)
    requires !PartsAgree(p, q, full)
    ensures var fullSide, named := if p.length == 0 then p else q, if p.length == 0 then q else p;
            !PartsExact(p, q, if named.wild then fullSide else named, full)
  {
  }

  /** For any two MAC policies the intersection is exact if and only if their length
      fields agree; canonical policies always do. */
  lemma MacMeetExact(src: Word, dst: Word, full: nat)
    requires IsMac(src) && IsMac(dst)
    ensures MacMeet(src, dst, full) <==> MacLengthsAgree(src, dst, full)
    ensures CanonicalMac(src, full) && CanonicalMac(dst, full) ==> MacLengthsAgree(src, dst, full)
  {
    hide Family, LengthField, Wildcard, Intersect, MeetParts, MacPartsPermit, IsAead, PartsAgree, PartsOf;
    IntersectByParts(src, dst);
    MacIsSomething(src);
    MacIsSomething(dst);
    if CanonicalMac(src, full) && CanonicalMac(dst, full) {
      CanonicalAgree(src, dst, full);
    }
    if MacLengthsAgree(src, dst, full) {
      forall r: Word
        ensures (Intersect(src, dst).Some? && MacPermits(Intersect(src, dst).value, r, full))
           <==> (MacPermits(src, r, full) && MacPermits(dst, r, full))
      {
        PartsMeet(PartsOf(src), PartsOf(dst), PartsOf(r), full);
      }
    } else {
      PartsDiffer(PartsOf(src), PartsOf(dst), full);
      WitnessParts(src, dst);
      var r := Witness(src, dst);
      assert !((Intersect(src, dst).Some? && MacPermits(Intersect(src, dst).value, r, full))
               <==> (MacPermits(src, r, full) && MacPermits(dst, r, full)));
    }
  }

  lemma WitnessParts(src: Word, dst: Word)
    ensures var p, q := PartsOf(src), PartsOf(dst);
            var fullSide, named := if p.length == 0 then p else q, if p.length == 0 then q else p;
            PartsOf(Witness(src, dst)) == if named.wild then fullSide else named
  {
    hide Family, LengthField, Wildcard, SixBits;
  }

  lemma MacIsSomething(a: Word)
    requires IsMac(a)
    ensures a != ALG_NONE
  {
  }

  lemma CanonicalAgree(src: Word, dst: Word, full: nat)
    requires CanonicalMac(src, full) && CanonicalMac(dst, full)
    ensures MacLengthsAgree(src, dst, full)
  {
    hide Family, LengthField, Wildcard, SixBits;
  }

  /** HMAC-SHA-256 at full length, and "truncated" to all of its 32 bytes: both permit
      the full MAC, and the copy is refused. */
  lemma MacMeetNeedsCanonicalLengths()
    ensures var src, dst := 0x0380_0009, 0x03a0_0009;
            && Intersect(src, dst) == None
            && MacPermits(src, src, 32) && MacPermits(dst, src, 32) && !CanonicalMac(dst, 32)
  {
  }

  // ----- AEAD policies -----

  /** The AEAD families of the API, with the tag length field cleared. */
  predicate KnownAead(a: Word) {
    var f := Family(a);
    f == 0x0540_0100 || f == 0x0540_0200 || f == 0x0500_0500 || f == 0x0500_0600 || f == 0x0500_0700
  }

  /** PSA_ALG_AEAD_WITH_DEFAULT_LENGTH_TAG: each known family at its default length. */
  function DefaultAead(a: Word): Word {
    if KnownAead(a) then Family(a) | 0x0010_0000 else 0
  }

  /** wolfpsa_aead_alg_permitted */
  predicate AeadPermits(key: Word, r: Word) {
    && LengthField(key) != 0 && DefaultAead(key) == DefaultAead(r)
    && if Wildcard(key) then LengthField(r) >= LengthField(key) else LengthField(r) == LengthField(key)
  }

  predicate AeadPartsPermit(key: Parts, r: Parts) {
    && key.length != 0 && key.family == r.family
    && if key.wild then r.length >= key.length else r.length == key.length
  }

  /** AES-CCM, AES-GCM, ChaCha20-Poly1305, XChaCha20-Poly1305 and Ascon-AEAD128 are known;
      each policy permits its own algorithm, and none the next one. */
  lemma KnownAlgorithms()
    ensures KnownAead(0x0550_0100) && KnownAead(0x0550_0200) && KnownAead(0x0510_0500)
    ensures KnownAead(0x0510_0600) && KnownAead(0x0510_0700) && !KnownAead(0x0550_0300)
    ensures AeadPermits(0x0550_0100, 0x0550_0100) && !AeadPermits(0x0550_0100, 0x0550_0200)
    ensures AeadPermits(0x0550_0200, 0x0550_0200) && !AeadPermits(0x0550_0200, 0x0510_0500)
    ensures AeadPermits(0x0510_0500, 0x0510_0500) && !AeadPermits(0x0510_0500, 0x0510_0600)
    ensures AeadPermits(0x0510_0600, 0x0510_0600) && !AeadPermits(0x0510_0600, 0x0510_0700)
    ensures AeadPermits(0x0510_0700, 0x0510_0700) && !AeadPermits(0x0510_0700, 0x0550_0100)
  {
  }

  lemma AeadPermitsByParts(key: Word, r: Word)
    requires KnownAead(r)
    ensures AeadPermits(key, r) <==> AeadPartsPermit(PartsOf(key), PartsOf(r))
  {
    hide KnownAead, DefaultAead, Family, LengthField, Wildcard, SixBits;
    DefaultIsFamily(key, r);
    FieldBound(key);
    FieldBound(r);
    SixBitsOrder(LengthField(r), LengthField(key));
    SixBitsOrder(LengthField(key), LengthField(r));
  }

  lemma DefaultIsFamily(a: Word, b: Word)
    requires KnownAead(b)
    ensures DefaultAead(a) == DefaultAead(b) <==> Family(a) == Family(b)
  {
  }

  lemma AeadPartsMeet(p: Parts, q: Parts, r: Parts)
    ensures (MeetParts(p, q).Some? && AeadPartsPermit(MeetParts(p, q).value, r))
       <==> (AeadPartsPermit(p, r) && AeadPartsPermit(q, r))
  {
  }

  /** For AEAD policies the intersection is exact for every request of a known family,
      whatever the tag lengths. */
  lemma AeadMeetExact(src: Word, dst: Word, r: Word)
    requires IsAead(src) && IsAead(dst) && KnownAead(r)
    ensures (Intersect(src, dst).Some? && AeadPermits(Intersect(src, dst).value, r))
       <==> (AeadPermits(src, r) && AeadPermits(dst, r))
  {
    hide PartsOf, Intersect, MeetParts, AeadPermits, AeadPartsPermit, KnownAead, IsMac, IsAead;
    IntersectByParts(src, dst);
    AeadPermitsByParts(src, r);
    AeadPermitsByParts(dst, r);
    AeadPartsMeet(PartsOf(src), PartsOf(dst), PartsOf(r));
    match Intersect(src, dst)
    case None =>
    case Some(x) => AeadPermitsByParts(x, r);
  }

  // ----- signature policies -----

  /** The scheme of a signature algorithm, and its hash field. */
  function Scheme(a: Word): Word {
    a & 0xffff_ff00
  }

  function HashField(a: Word): Word {
    a & 0xff
  }

  /** PSA_ALG_SIGN_GET_HASH: none for a hashless algorithm. */
  function SignHash(a: Word): Word {
    if IsSignHash(a) && a & HASH_MASK != 0 then (a & HASH_MASK) | CATEGORY_HASH else 0
  }

  /** wolfpsa_policy_alg_permits: the same algorithm, or any other of a scheme whose policy
      leaves the hash open. */
  predicate SignPermits(key: Word, r: Word) {
    && key != ALG_NONE
    && (key == r || (&& IsSignHash(r) && SignHash(key) == ANY_HASH && SignHash(r) != ANY_HASH
                     && key & !HASH_MASK == r & !HASH_MASK))
  }

  ghost predicate SignMeet(src: Word, dst: Word) {
    forall r: Word :: SignMeetAt(src, dst, r)
  }

  /** The intersection permits the request `r` exactly when both sides do. */
  ghost predicate SignMeetAt(src: Word, dst: Word, r: Word) {
    (Intersect(src, dst).Some? && SignPermits(Intersect(src, dst).value, r))
    <==> (SignPermits(src, r) && SignPermits(dst, r))
  }

  /** One side leaves the hash open and the other has none, under a scheme other than
      RSA PKCS#1 v1.5. */
  predicate HashlessUnderOpen(src: Word, dst: Word) {
    && Scheme(src) == Scheme(dst) && Scheme(src) != 0x0600_0200
    && ((HashField(src) == 0xff && HashField(dst) == 0) || (HashField(src) == 0 && HashField(dst) == 0xff))
  }

  lemma SchemeAndHash(a: Word, b: Word)
    ensures Scheme(a) == Scheme(b) && HashField(a) == HashField(b) <==> a == b
  {
  }

  /** What the code reads off one signature algorithm. */
  lemma SignFields(a: Word)
    requires IsSignHash(a)
    ensures a != ALG_NONE && !IsMac(a) && !IsAead(a)
    ensures a & !HASH_MASK == Scheme(a)
    ensures GetHash(a) == ANY_HASH <==> HashField(a) == 0xff
    ensures GetHash(a) == ALG_NONE <==> HashField(a) == 0
    ensures SignHash(a) == ANY_HASH <==> HashField(a) == 0xff
  {
  }

  lemma SignPermitsByFields(key: Word, r: Word)
    requires IsSignHash(key)
    ensures SignPermits(key, r) <==>
              key == r || (IsSignHash(r) && HashField(key) == 0xff && HashField(r) != 0xff && Scheme(key) == Scheme(r))
  {
    hide Scheme, HashField, SignHash, IsSignHash;
    SignFields(key);
    if IsSignHash(r) {
      SignFields(r);
    }
  }

  function MeetSign(src: Word, dst: Word): Option<Word> {
    if src == dst then Some(src)
    else if Scheme(src) != Scheme(dst) || (HashField(src) == 0xff) == (HashField(dst) == 0xff) then None
    else
      var concrete := if HashField(src) == 0xff then dst else src;
      if HashField(concrete) != 0 || Scheme(src) == PKCS1V15_SIGN_BASE then Some(concrete) else None
  }

  lemma IntersectByFields(src: Word, dst: Word)
    requires IsSignHash(src) && IsSignHash(dst)
    ensures Intersect(src, dst) == MeetSign(src, dst)
  {
    hide Scheme, HashField, IsSignHash, IsMac, IsAead, GetHash, IntersectLengths, Family;
    SignFields(src);
    SignFields(dst);
  }

  /** For signature policies the intersection is exact if and only if it does not set a
      hashless algorithm against an open hash: the permission test lets that through, the
      intersection does not. */
  lemma SignMeetExact(src: Word, dst: Word)
    requires IsSignHash(src) && IsSignHash(dst)
    ensures SignMeet(src, dst) <==> !HashlessUnderOpen(src, dst)
  {
    hide Intersect, SignPermits, HashlessUnderOpen, IsSignHash;
    forall r: Word ensures SignMeetAt(src, dst, r) || HashlessUnderOpen(src, dst) {
      if !HashlessUnderOpen(src, dst) {
        SignMeetHolds(src, dst, r);
      }
    }
    if HashlessUnderOpen(src, dst) {
      SignMeetFails(src, dst);
    } else {
      assert forall r: Word :: SignMeetAt(src, dst, r);
    }
  }

  lemma SignMeetHolds(src: Word, dst: Word, r: Word)
    requires IsSignHash(src) && IsSignHash(dst) && !HashlessUnderOpen(src, dst)
    ensures SignMeetAt(src, dst, r)
  {
    hide Intersect, SignPermits, Scheme, HashField, IsSignHash;
    IntersectByFields(src, dst);
    SignPermitsByFields(src, r);
    SignPermitsByFields(dst, r);
    SchemeAndHash(src, dst);
    SchemeAndHash(src, r);
    SchemeAndHash(dst, r);
  }

  lemma SignMeetFails(src: Word, dst: Word)
    requires IsSignHash(src) && IsSignHash(dst) && HashlessUnderOpen(src, dst)
    ensures exists r: Word :: !SignMeetAt(src, dst, r)
  {
    hide Intersect, SignPermits, Scheme, HashField, IsSignHash;
    var r := if HashField(src) == 0 then src else dst;
    IntersectByFields(src, dst);
    SignPermitsByFields(src, r);
    SignPermitsByFields(dst, r);
    assert !SignMeetAt(src, dst, r);
  }

  /** ECDSA with an open hash, and hashless ECDSA: both permit the hashless request, and
      the copy is refused. */
  lemma SignMeetNeedsAHash()
    ensures var src, dst := 0x0600_06ff, 0x0600_0600;
            Intersect(src, dst) == None && SignPermits(src, dst) && SignPermits(dst, dst)
  {
  }

  /** What some copies come to, in the words of the API: ECDSA narrowed to SHA-256, HMAC-
      SHA-256 of at least 16 bytes narrowed to 20 and met with at least 24, AES-CCM of at
      least 8 narrowed to 12, PKCS#1 v1.5 narrowed to its raw form, and refusals across
      hashes, families, categories and minimum lengths. */
  lemma IntersectExamples()
    ensures Intersect(0x0600_06ff, 0x0600_0609) == Some(0x0600_0609)
    ensures Intersect(0x0600_0609, 0x0600_060a) == None && Intersect(0x0600_06ff, 0x0600_0709) == None
    ensures Intersect(0x0600_02ff, 0x0600_0200) == Some(0x0600_0200)
    ensures Intersect(0x0390_8009, 0x0394_0009) == Some(0x0394_0009)
    ensures Intersect(0x0390_8009, 0x0398_8009) == Some(0x0398_8009)
    ensures Intersect(0x0390_8009, 0x0388_0009) == None && Intersect(0x0390_8009, 0x0394_000b) == None
    ensures Intersect(0x0548_8100, 0x054c_0100) == Some(0x054c_0100)
    ensures Intersect(0x0548_8100, 0x0544_0100) == None && Intersect(0x0548_8100, 0x054c_0200) == None
    ensures Intersect(0x0440_4000, 0x0440_4000) == Some(0x0440_4000) && Intersect(0x0440_4000, 0x0440_4100) == None
    ensures AeadPermits(0x0548_8100, 0x054c_0100) && !AeadPermits(0x0548_8100, 0x0544_0100)
    ensures MacPermits(0x0390_8009, 0x0394_0009, 32) && !MacPermits(0x0390_8009, 0x0388_0009, 32)
    ensures MacPermits(0x0390_8009, 0x0380_0009, 32)
  {
  }

  // ----- chains of copies -----

  /** The policy part of key attributes. */
  datatype Attributes = Attributes(usage: Word, alg: Word, alg2: Word)

  /** wolfpsa_alg2_intersect: an enrollment algorithm unset on either side is dropped. */
  function Intersect2(src: Word, dst: Word): Option<Word> {
    if src == ALG_NONE || dst == ALG_NONE then Some(ALG_NONE) else Intersect(src, dst)
  }

  predicate MayCopy(usage: Word) {
    usage & USAGE_COPY != 0
  }

  function Common(a: Word, b: Word): Word {
    a & b
  }

  /** The policy psa_copy_key gives the new key, if it copies at all. */
  function CopyPolicy(src: Attributes, requested: Attributes): Option<Attributes> {
    if !MayCopy(src.usage) then None
    else match Intersect(src.alg, requested.alg)
      case None => None
      case Some(alg) =>
        match Intersect2(src.alg2, requested.alg2)
        case None => None
        case Some(alg2) => Some(Attributes(Common(src.usage, requested.usage), alg, alg2))
  }

  /** A copy comes about exactly when the source may be copied (usage flag 2) and both
      algorithms intersect, an unset enrollment algorithm on either side aside; then the
      usage flags are those that both sides set, and the algorithms the intersections. */
  lemma CopyOutcome(src: Attributes, requested: Attributes)
    ensures CopyPolicy(src, requested).Some? <==>
              && Sets(src.usage, 0x2) && Intersect(src.alg, requested.alg).Some?
              && (src.alg2 == 0 || requested.alg2 == 0 || Intersect(src.alg2, requested.alg2).Some?)
    ensures CopyPolicy(src, requested).Some? ==>
              var copy := CopyPolicy(src, requested).value;
              && (forall flags :: Sets(copy.usage, flags) <==> Sets(src.usage, flags) && Sets(requested.usage, flags))
              && Some(copy.alg) == Intersect(src.alg, requested.alg)
              && if src.alg2 == 0 || requested.alg2 == 0 then copy.alg2 == 0
                 else Some(copy.alg2) == Intersect(src.alg2, requested.alg2)
  {
    hide Intersect, Sets, MayCopy, Common;
    CopyFlag(src.usage);
    forall flags
      ensures Sets(Common(src.usage, requested.usage), flags) <==> Sets(src.usage, flags) && Sets(requested.usage, flags)
    {
      SetsBoth(src.usage, requested.usage, flags);
    }
  }

  /** All of `flags` are set. */
  predicate Sets(usage: Word, flags: Word) {
    usage & flags == flags
  }

  lemma CopyFlag(usage: Word)
    ensures MayCopy(usage) <==> Sets(usage, 0x2)
  {
  }

  lemma SetsBoth(a: Word, b: Word, c: Word)
    ensures Sets(Common(a, b), c) <==> Sets(a, c) && Sets(b, c)
  {
    SetsFewer(a, b, c);
    assert (a & b) & c == a & (b & c);
  }

  lemma SetsFewer(a: Word, b: Word, c: Word)
    ensures (a & b) & c == c ==> a & c == c && b & c == c
  {
    Absorbs(a, b, c);
  }

  lemma Absorbs(a: Word, b: Word, c: Word)
    ensures a & ((a & b) & c) == (a & b) & c && b & ((a & b) & c) == (a & b) & c
  {
  }

  /** The policy at the end of a chain of copies. */
  function CopyChain(first: Attributes, requests: seq<Attributes>): Option<Attributes>
    decreases |requests|
  {
    if requests == [] then Some(first)
    else match CopyPolicy(first, requests[0])
      case None => None
      case Some(next) => CopyChain(next, requests[1..])
  }

  /** A MAC algorithm whose length is canonical for its own family; `full` gives the
      untruncated length of every family. */
  predicate CanonicalInFamily(a: Word, full: Word -> nat) {
    IsMac(a) && CanonicalMac(a, full(Family(a)))
  }

  /** A policy of MAC algorithms with canonical lengths, the enrollment one optional and
      possibly of another family. */
  predicate MacPolicy(a: Attributes, full: Word -> nat) {
    CanonicalInFamily(a.alg, full) && (a.alg2 == ALG_NONE || CanonicalInFamily(a.alg2, full))
  }

  predicate AeadPolicy(a: Attributes) {
    IsAead(a.alg) && (a.alg2 == ALG_NONE || IsAead(a.alg2))
  }

  /** The permitted or the enrollment algorithm allows the request, as the front ends ask. */
  predicate MacAllowed(a: Attributes, r: Word, full: Word -> nat) {
    MacPermits(a.alg, r, full(Family(a.alg))) || MacPermits(a.alg2, r, full(Family(a.alg2)))
  }

  predicate AeadAllowed(a: Attributes, r: Word) {
    AeadPermits(a.alg, r) || AeadPermits(a.alg2, r)
  }

  /** One algorithm of a copied MAC key: the intersection stays canonical and permits
      no more than either side. */
  lemma MacMeetShrinks(src: Word, dst: Word, r: Word, full: Word -> nat)
    requires CanonicalInFamily(src, full) && CanonicalInFamily(dst, full) && Intersect(src, dst).Some?
    ensures var x := Intersect(src, dst).value;
            && CanonicalInFamily(x, full)
            && (MacPermits(x, r, full(Family(x)))
                ==> MacPermits(src, r, full(Family(src))) && MacPermits(dst, r, full(Family(dst))))
  {
    hide Family, LengthField, Wildcard, AtLeast, IntersectHashes, GetHash, SixBits, IsMac, MacMeet, MacPermits,
         MacLengthsAgree, Intersect, MeetParts;
    IntersectByParts(src, dst);
    var x := Intersect(src, dst).value;
    MeetFamily(PartsOf(src), PartsOf(dst));
    assert Family(src) == Family(dst) == Family(x);
    FamilyKeepsCategory(src, x);
    MacMeetExact(src, dst, full(Family(x)));
    MeetPermits(src, dst, r, full(Family(x)));
  }

  lemma MeetFamily(p: Parts, q: Parts)
    requires MeetParts(p, q).Some?
    ensures p.family == q.family == MeetParts(p, q).value.family
    ensures MeetParts(p, q).value.length in {0, p.length, q.length}
  {
  }

  lemma MeetPermits(src: Word, dst: Word, r: Word, full: nat)
    requires MacMeet(src, dst, full) && Intersect(src, dst).Some?
    ensures MacPermits(Intersect(src, dst).value, r, full) ==> MacPermits(src, r, full) && MacPermits(dst, r, full)
  {
    hide Intersect, MacPermits;
  }

  lemma MacCopyShrinks(src: Attributes, requested: Attributes, r: Word, full: Word -> nat)
    requires MacPolicy(src, full) && MacPolicy(requested, full) && CopyPolicy(src, requested).Some?
    ensures MacPolicy(CopyPolicy(src, requested).value, full)
    ensures MacAllowed(CopyPolicy(src, requested).value, r, full)
            ==> MacAllowed(src, r, full) && MacAllowed(requested, r, full)
  {
    hide Intersect, CanonicalInFamily, MacPartsPermit, PartsOf, Family;
    MacMeetShrinks(src.alg, requested.alg, r, full);
    if src.alg2 != ALG_NONE && requested.alg2 != ALG_NONE {
      MacMeetShrinks(src.alg2, requested.alg2, r, full);
    }
  }

  /** All requests set all of `flags`. */
  ghost predicate AllSet(requests: seq<Attributes>, flags: Word) {
    forall i :: 0 <= i < |requests| ==> Sets(requests[i].usage, flags)
  }

  lemma AllSetTail(requests: seq<Attributes>, flags: Word)
    requires requests != []
    ensures AllSet(requests, flags) <==> Sets(requests[0].usage, flags) && AllSet(requests[1..], flags)
  {
    hide Sets;
    var rest := requests[1..];
    if Sets(requests[0].usage, flags) && AllSet(rest, flags) {
      forall i | 0 <= i < |requests| ensures Sets(requests[i].usage, flags) {
        if i > 0 {
          assert requests[i] == rest[i - 1];
        }
      }
    }
  }

  /** At the end of a chain of copies a usage flag is set exactly when the first policy and
      every request set it. */
  lemma {:induction false} UsageOfChain(first: Attributes, requests: seq<Attributes>, flags: Word)
    requires CopyChain(first, requests).Some?
    ensures Sets(CopyChain(first, requests).value.usage, flags) <==> Sets(first.usage, flags) && AllSet(requests, flags)
    decreases |requests|
  {
    hide CopyPolicy, Intersect, Sets, AllSet;
    if requests == [] {
      NoneToSet(flags);
    } else {
      CopyOutcome(first, requests[0]);
      AllSetTail(requests, flags);
      UsageOfChain(CopyPolicy(first, requests[0]).value, requests[1..], flags);
    }
  }

  lemma NoneToSet(flags: Word)
    ensures AllSet([], flags)
  {
  }

  /** The algorithms along a chain of copies, wherever they intersect. */
  function AlgChain(first: Word, requests: seq<Word>, enrollment: bool): Option<Word>
    decreases |requests|
  {
    if requests == [] then Some(first)
    else if enrollment && (first == 0 || requests[0] == 0) then AlgChain(0, requests[1..], true)
    else match Intersect(first, requests[0])
      case None => None
      case Some(next) => AlgChain(next, requests[1..], enrollment)
  }

  function Algs(requests: seq<Attributes>): seq<Word> {
    seq(|requests|, i requires 0 <= i < |requests| => requests[i].alg)
  }

  function Algs2(requests: seq<Attributes>): seq<Word> {
    seq(|requests|, i requires 0 <= i < |requests| => requests[i].alg2)
  }

  /** A chain of copies exists exactly when the first policy and every request but the last
      may be copied (usage flag 2) and the algorithms of both kinds intersect all along. */
  lemma {:induction false} ChainExists(first: Attributes, requests: seq<Attributes>)
    ensures CopyChain(first, requests).Some? <==>
              && (requests != [] ==> Sets(first.usage, 0x2) && AllSet(requests[..|requests| - 1], 0x2))
              && AlgChain(first.alg, Algs(requests), false).Some?
              && AlgChain(first.alg2, Algs2(requests), true).Some?
    decreases |requests|
  {
    hide CopyPolicy, Intersect, Sets, AllSet;
    if requests != [] {
      CopyOutcome(first, requests[0]);
      AlgsTail(requests);
      if CopyPolicy(first, requests[0]).Some? {
        ChainExists(CopyPolicy(first, requests[0]).value, requests[1..]);
        AllButLast(requests, 0x2);
      }
    }
  }

  lemma AllButLast(requests: seq<Attributes>, flags: Word)
    requires requests != []
    ensures |requests| == 1 ==> AllSet(requests[..|requests| - 1], flags) && requests[1..] == []
    ensures |requests| > 1 ==>
              (AllSet(requests[..|requests| - 1], flags)
               <==> Sets(requests[0].usage, flags) && AllSet(requests[1..][..|requests| - 2], flags))
  {
    hide Sets, AllSet;
    if |requests| == 1 {
      NoneToSet(flags);
      assert requests[..0] == [];
    } else {
      AllSetTail(requests[..|requests| - 1], flags);
      assert requests[..|requests| - 1][1..] == requests[1..][..|requests| - 2];
    }
  }

  lemma AlgsTail(requests: seq<Attributes>)
    requires requests != []
    ensures Algs(requests)[1..] == Algs(requests[1..]) && Algs2(requests)[1..] == Algs2(requests[1..])
    ensures Algs(requests)[0] == requests[0].alg && Algs2(requests)[0] == requests[0].alg2
  {
  }

  /** Along any chain of copies of a MAC key the permitted requests only shrink. */
  lemma {:induction false} MacChainShrinks(first: Attributes, requests: seq<Attributes>, r: Word, full: Word -> nat)
    requires MacPolicy(first, full) && forall i :: 0 <= i < |requests| ==> MacPolicy(requests[i], full)
    requires CopyChain(first, requests).Some?
    ensures var last := CopyChain(first, requests).value;
            && (MacAllowed(last, r, full) ==> MacAllowed(first, r, full))
            && forall i :: 0 <= i < |requests| && MacAllowed(last, r, full) ==> MacAllowed(requests[i], r, full)
    decreases |requests|
  {
    hide MacPolicy, MacAllowed, CopyPolicy;
    if requests != [] {
      var next := CopyPolicy(first, requests[0]).value;
      MacCopyShrinks(first, requests[0], r, full);
      MacChainShrinks(next, requests[1..], r, full);
      var last := CopyChain(first, requests).value;
      forall i | 0 <= i < |requests| && MacAllowed(last, r, full) ensures MacAllowed(requests[i], r, full) {
        if i > 0 {
          assert requests[i] == requests[1..][i - 1];
        }
      }
    }
  }

  lemma MeetIsAead(src: Word, dst: Word)
    requires IsAead(src) && IsAead(dst)
    ensures Intersect(src, dst).Some? ==> IsAead(Intersect(src, dst).value)
  {
    hide Family, LengthField, Wildcard, AtLeast, IntersectHashes, GetHash, SixBits, IsAead;
    IntersectByParts(src, dst);
    if Intersect(src, dst).Some? {
      FamilyKeepsCategory(src, Intersect(src, dst).value);
      FamilyKeepsCategory(dst, Intersect(src, dst).value);
    }
  }

  lemma AeadCopyShrinks(src: Attributes, requested: Attributes, r: Word)
    requires AeadPolicy(src) && AeadPolicy(requested) && KnownAead(r) && CopyPolicy(src, requested).Some?
    ensures AeadPolicy(CopyPolicy(src, requested).value)
    ensures AeadAllowed(CopyPolicy(src, requested).value, r) ==> AeadAllowed(src, r) && AeadAllowed(requested, r)
  {
    hide Intersect, IsAead, KnownAead, AeadPermits;
    NonePermitsNothing(r);
    AeadMeetExact(src.alg, requested.alg, r);
    MeetIsAead(src.alg, requested.alg);
    if src.alg2 != ALG_NONE && requested.alg2 != ALG_NONE {
      AeadMeetExact(src.alg2, requested.alg2, r);
      MeetIsAead(src.alg2, requested.alg2);
    }
  }

  lemma NonePermitsNothing(r: Word)
    ensures !AeadPermits(ALG_NONE, r)
  {
  }

  /** The same for AEAD keys and requests of the known families. */
  lemma {:induction false} AeadChainShrinks(first: Attributes, requests: seq<Attributes>, r: Word)
    requires AeadPolicy(first) && forall i :: 0 <= i < |requests| ==> AeadPolicy(requests[i])
    requires KnownAead(r) && CopyChain(first, requests).Some?
    ensures var last := CopyChain(first, requests).value;
            && (AeadAllowed(last, r) ==> AeadAllowed(first, r))
            && forall i :: 0 <= i < |requests| && AeadAllowed(last, r) ==> AeadAllowed(requests[i], r)
    decreases |requests|
  {
    hide AeadPolicy, AeadAllowed, KnownAead, CopyPolicy;
    if requests != [] {
      var next := CopyPolicy(first, requests[0]).value;
      AeadCopyShrinks(first, requests[0], r);
      AeadChainShrinks(next, requests[1..], r);
      var last := CopyChain(first, requests).value;
      forall i | 0 <= i < |requests| && AeadAllowed(last, r) ensures AeadAllowed(requests[i], r) {
        if i > 0 {
          assert requests[i] == requests[1..][i - 1];
        }
      }
    }
  }
}
