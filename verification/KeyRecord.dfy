/** The persistent key record of src/psa_key_storage.c: the serialized attributes, the
    data length and the data, in the byte order of a little-endian 64-bit host. */
module KeyRecord {
  import opened Bytes
  import opened Psa

  /** The attributes a record holds; `alg2` is never stored. */
  datatype Attributes = Attributes(
    keyType: nat,
    bits: nat,
    usage: nat,
    alg: nat,
    alg2: nat,
    lifetime: nat)

  const ALG_NONE: nat := 0
  const USAGE_EXPORT: nat := 1
  const ATTR_LENGTH: nat := 16
  const HEADER_LENGTH: nat := 24

  predicate Storable(a: Attributes) {
    && a.keyType <= UINT16_MAX && a.bits <= UINT16_MAX
    && a.usage <= UINT32_MAX && a.alg <= UINT32_MAX && a.alg2 <= UINT32_MAX && a.lifetime <= UINT32_MAX
  }

  // ----- host integers -----

  function Reverse(s: seq<byte>): (r: seq<byte>)
    ensures |r| == |s| && forall i :: 0 <= i < |s| ==> r[i] == s[|s| - 1 - i]
  {
    seq(|s|, i requires 0 <= i < |s| => s[|s| - 1 - i])
  }

  lemma ReverseTwice(s: seq<byte>)
    ensures Reverse(Reverse(s)) == s
  {
  }

  /** An integer as `memcpy` lays it out, least significant byte first. */
  function Put(n: nat, k: nat): (s: seq<byte>)
    ensures |s| == k
  {
    Reverse(BigEndian(n, k))
  }

  function Get(s: seq<byte>): nat {
    Value(Reverse(s))
  }

  lemma GetOfPut(n: nat, k: nat)
    requires n < Pow256(k)
    ensures Get(Put(n, k)) == n
  {
    ReverseTwice(BigEndian(n, k));
    ValueOfBigEndian(n, k);
  }

  // ----- attributes -----

  /** psa_key_attributes_serialize: a short buffer is refused. */
  function Serialize(a: Attributes): (s: seq<byte>)
    ensures |s| == ATTR_LENGTH
  {
    Put(a.keyType, 2) + Put(a.bits, 2) + Put(a.usage, 4) + Put(a.alg, 4) + Put(a.lifetime, 4)
  }

  /** psa_key_attributes_deserialize */
  function Deserialize(s: seq<byte>): Option<Attributes> {
    if |s| < ATTR_LENGTH then None
    else Some(Attributes(Get(s[0..2]), Get(s[2..4]), Get(s[4..8]), Get(s[8..12]), ALG_NONE, Get(s[12..16])))
  }

  lemma DeserializeOfSerialize(a: Attributes, rest: seq<byte>)
    requires Storable(a)
    ensures Deserialize(Serialize(a) + rest) == Some(a.(alg2 := ALG_NONE))
  {
    hide Get, Put, Pow256;
    var s := Serialize(a) + rest;
    FieldsFit();
    GetOfPut(a.keyType, 2);
    GetOfPut(a.bits, 2);
    GetOfPut(a.usage, 4);
    GetOfPut(a.alg, 4);
    GetOfPut(a.lifetime, 4);
    assert s[0..2] == Put(a.keyType, 2);
    assert s[2..4] == Put(a.bits, 2);
    assert s[4..8] == Put(a.usage, 4);
    assert s[8..12] == Put(a.alg, 4);
    assert s[12..16] == Put(a.lifetime, 4);
  }

  lemma FieldsFit()
    ensures Pow256(2) == UINT16_MAX + 1 && Pow256(4) == UINT32_MAX + 1 && Pow256(8) == SIZE_MAX + 1
  {
    Pow256Splits();
  }

  lemma Pow256Splits()
    ensures Pow256(4) == 0x1_0000_0000 && Pow256(8) == 0x1_0000_0000_0000_0000
  {
    assert Pow256(4) == 0x1_0000_0000;
    assert Pow256(6) == 0x1_0000_0000_0000;
  }

  // ----- records -----

  function Header(a: Attributes, dataLength: nat): (s: seq<byte>)
    ensures |s| == HEADER_LENGTH
  {
    Serialize(a) + Put(dataLength, 8)
  }

  /** The one buffer that psa_import_key writes. */
  function Record(a: Attributes, data: seq<byte>): (s: seq<byte>)
    ensures |s| == HEADER_LENGTH + |data|
  {
    Header(a, |data|) + data
  }

  predicate DataLengthOk(n: nat) {
    1 <= n <= INT_MAX
  }

  datatype Loaded = Loaded(status: Status, attributes: Attributes, data: seq<byte>)

  const NOTHING := Attributes(0, 0, 0, 0, 0, 0)

  /** The read path of wolfpsa_get_key_data behind a successful open: a header, its
      length field, and as many bytes as that says. */
  function Load(s: seq<byte>): Loaded {
    if |s| < HEADER_LENGTH then Loaded(StorageFailure, NOTHING, [])
    else
      var n := Get(s[ATTR_LENGTH..HEADER_LENGTH]);
      if !DataLengthOk(n) then Loaded(DataInvalid, NOTHING, [])
      else if |s| < HEADER_LENGTH + n then Loaded(StorageFailure, NOTHING, [])
      else Loaded(Success, Deserialize(s).value, s[HEADER_LENGTH..HEADER_LENGTH + n])
  }

  // ----- what both backends promise -----

  /** The outcome of a read that opens its record once: `content` is what the record
      holds then, and `io` says that the open failed. */
  function ReadOutcome(content: Option<seq<byte>>, io: bool): Loaded {
    if io then Loaded(StorageFailure, NOTHING, [])
    else match content
      case None => Loaded(InvalidHandle, NOTHING, [])
      case Some(s) => Load(s)
  }

  /** The outcome of a read through a snapshot: the size is that of the object `atInfo`,
      the bytes are those of the object `atGet`. */
  function SnapshotOutcome(atInfo: Option<seq<byte>>, atGet: Option<seq<byte>>, io: bool): Loaded {
    if io then Loaded(StorageFailure, NOTHING, [])
    else match atInfo
      case None => Loaded(InvalidHandle, NOTHING, [])
      case Some(was) =>
        if was == [] then Load([])
        else match atGet
          case None => Loaded(StorageFailure, NOTHING, [])
          case Some(now) => if |now| < |was| then Loaded(StorageFailure, NOTHING, []) else Load(now[..|was|])
  }

  /** The outcome of an import: whether the record was there already, whether that could
      not be found out, and whether the new record got there. */
  function ImportOutcome(present: bool, probeIo: bool, stored: bool): Status {
    if probeIo then StorageFailure
    else if present then AlreadyExists
    else if stored then Success
    else StorageFailure
  }

  /** The outcome of a destroy: whether the record was there, and whether its removal failed. */
  function DestroyOutcome(present: bool, io: bool): Status {
    if io then StorageFailure else if present then Success else InvalidHandle
  }

  /** The outcome of an export that opens its record once: the usage flags in the header
      decide before the length and the data are looked at. */
  function ExportOutcome(content: Option<seq<byte>>, io: bool): Loaded {
    if io then Loaded(StorageFailure, NOTHING, [])
    else match content
      case None => Loaded(InvalidHandle, NOTHING, [])
      case Some(s) =>
        if |s| < 24 then Loaded(StorageFailure, NOTHING, [])
        else if s[4] % 2 == 0 then Loaded(NotPermitted, NOTHING, [])
        else Load(s)
  }

  lemma HeaderFields(a: Attributes, n: nat, rest: seq<byte>)
    requires Storable(a) && n <= SIZE_MAX
    ensures var s := Header(a, n) + rest;
            && Deserialize(s) == Some(a.(alg2 := ALG_NONE))
            && Get(s[ATTR_LENGTH..HEADER_LENGTH]) == n
  {
    hide Get, Put, Serialize, Deserialize, Pow256;
    var s := Header(a, n) + rest;
    FieldsFit();
    GetOfPut(n, 8);
    assert s[ATTR_LENGTH..HEADER_LENGTH] == Put(n, 8);
    assert s == Serialize(a) + (Put(n, 8) + rest);
    DeserializeOfSerialize(a, Put(n, 8) + rest);
  }

  /** What import stores is what a later read returns; the enrollment algorithm, which
      only volatile keys have, is not part of the record. */
  lemma LoadOfRecord(a: Attributes, data: seq<byte>)
    requires Storable(a) && DataLengthOk(|data|)
    ensures Load(Record(a, data)) == Loaded(Success, a.(alg2 := ALG_NONE), data)
  {
    hide Get, Header, Deserialize;
    HeaderFields(a, |data|, data);
  }

  /** A record cut short anywhere never reads as a key: a read of a prefix succeeds
      exactly when the prefix is the whole record. */
  lemma LoadOfPrefix(a: Attributes, data: seq<byte>, k: nat)
    requires Storable(a) && DataLengthOk(|data|) && k <= |Record(a, data)|
    ensures Load(Record(a, data)[..k]).status == Success <==> k == |Record(a, data)|
    ensures Load(Record(a, data)[..k]).status in {Success, StorageFailure}
  {
    hide Get, Header, Deserialize;
    var s := Record(a, data);
    LoadOfRecord(a, data);
    assert s[..|s|] == s;
    if HEADER_LENGTH <= k < |s| {
      HeaderFields(a, |data|, data[..k - HEADER_LENGTH]);
      assert s[..k] == Header(a, |data|) + data[..k - HEADER_LENGTH];
    }
  }

  /** The record determines data and attributes. */
  lemma RecordInjective(a: Attributes, data: seq<byte>, a': Attributes, data': seq<byte>)
    requires Storable(a) && Storable(a') && DataLengthOk(|data|) && DataLengthOk(|data'|)
    requires Record(a, data) == Record(a', data')
    ensures a.(alg2 := ALG_NONE) == a'.(alg2 := ALG_NONE) && data == data'
  {
    LoadOfRecord(a, data);
    LoadOfRecord(a', data');
  }

  // ----- the record, byte for byte -----

  /** A stored integer, least significant byte first. */
  function LittleEndian(s: seq<byte>): nat {
    if |s| == 0 then 0 else s[0] + 256 * LittleEndian(s[1..])
  }

  lemma {:induction false} GetIsLittleEndian(s: seq<byte>)
    ensures Get(s) == LittleEndian(s)
  {
    if |s| > 0 {
      GetIsLittleEndian(s[1..]);
      assert Reverse(s)[..|s| - 1] == Reverse(s[1..]);
    }
  }

  /** Where every field of a record lies; the lowest usage flag is the lowest bit of byte 4. */
  lemma RecordLayout(a: Attributes, data: seq<byte>)
    requires Storable(a) && |data| <= SIZE_MAX
    ensures var s := Record(a, data);
            && |s| == 24 + |data| && s[24..] == data
            && LittleEndian(s[0..2]) == a.keyType && LittleEndian(s[2..4]) == a.bits
            && LittleEndian(s[4..8]) == a.usage && LittleEndian(s[8..12]) == a.alg
            && LittleEndian(s[12..16]) == a.lifetime && LittleEndian(s[16..24]) == |data|
            && s[4] % 2 == a.usage % 2
  {
    hide Get, Put, Header, Deserialize, LittleEndian;
    var s := Record(a, data);
    HeaderFields(a, |data|, data);
    FieldsOf(s);
    GetIsLittleEndian(s[0..2]);
    GetIsLittleEndian(s[2..4]);
    GetIsLittleEndian(s[4..8]);
    GetIsLittleEndian(s[8..12]);
    GetIsLittleEndian(s[12..16]);
    GetIsLittleEndian(s[16..24]);
    LowestBit(s[4..8]);
  }

  lemma FieldsOf(s: seq<byte>)
    requires |s| >= 24
    ensures Deserialize(s)
         == Some(Attributes(Get(s[0..2]), Get(s[2..4]), Get(s[4..8]), Get(s[8..12]), ALG_NONE, Get(s[12..16])))
  {
    hide Get;
  }

  lemma LowestBit(s: seq<byte>)
    requires |s| > 0
    ensures LittleEndian(s) % 2 == s[0] % 2
  {
  }

  /** What a read makes of any bytes, in numbers. */
  lemma LoadOutcome(s: seq<byte>)
    ensures Load(s).status ==
              if |s| < 24 then StorageFailure
              else
                var n := LittleEndian(s[16..24]);
                if n == 0 || n > 0x7FFF_FFFF then DataInvalid
                else if |s| < 24 + n then StorageFailure
                else Success
    ensures Load(s).status == Success ==>
              && Load(s).data == s[24..24 + LittleEndian(s[16..24])]
              && Load(s).attributes.keyType == LittleEndian(s[0..2]) && Load(s).attributes.bits == LittleEndian(s[2..4])
              && Load(s).attributes.usage == LittleEndian(s[4..8]) && Load(s).attributes.alg == LittleEndian(s[8..12])
              && Load(s).attributes.lifetime == LittleEndian(s[12..16]) && Load(s).attributes.alg2 == 0
  {
    if |s| >= 24 {
      hide Get, LittleEndian, Deserialize;
      FieldsOf(s);
      GetIsLittleEndian(s[0..2]);
      GetIsLittleEndian(s[2..4]);
      GetIsLittleEndian(s[4..8]);
      GetIsLittleEndian(s[8..12]);
      GetIsLittleEndian(s[12..16]);
      GetIsLittleEndian(s[16..24]);
    }
  }

  /** An exportable key comes out, and no other. */
  lemma ExportOfRecord(a: Attributes, data: seq<byte>)
    requires Storable(a) && DataLengthOk(|data|)
    ensures ExportOutcome(Some(Record(a, data)), false)
         == if a.usage % 2 == 1 then Loaded(Success, a.(alg2 := ALG_NONE), data) else Loaded(NotPermitted, NOTHING, [])
  {
    hide LittleEndian, Load, Record;
    RecordLayout(a, data);
    LoadOfRecord(a, data);
  }
}
