/** The Zephyr backend of src/psa_store_zephyr.c over an internal trusted storage that
    replaces whole objects: a write handle commits what it accumulated, a read handle
    serves a snapshot, and other threads may replace the object between the size query
    and the read behind one open. */
module ZephyrStore {
  import opened Bytes
  import opened KeyRecord
  import opened PosixStore
  import opened Psa

  class ItsStorage {
    var objects: map<nat, seq<byte>>

    constructor ()
      ensures objects == map[]
    {
      objects := map[];
    }

    /** psa_its_set: the whole object is replaced, or nothing changes. */
    method Set(uid: nat, data: seq<byte>, ok: bool)
      modifies this
      ensures objects == if ok then old(objects)[uid := data] else old(objects)
    {
      if ok {
        objects := objects[uid := data];
      }
    }

    /** psa_its_remove of an object that is there. */
    method Remove(uid: nat)
      modifies this
      ensures objects == old(objects) - {uid}
    {
      objects := objects - {uid};
    }
  }

  /** The persistent path of psa_destroy_key over this backend. */
  method DestroyRecord(its: ItsStorage, uid: nat, io: bool) returns (status: Status)
    modifies its
    ensures status == DestroyOutcome(old(Object(its, uid)).Some?, uid == 0 || io)
    ensures its.objects == if status == Success then old(its.objects) - {uid} else old(its.objects)
  {
    if uid == 0 || io {
      return StorageFailure;
    }
    if uid !in its.objects {
      return InvalidHandle;
    }
    its.Remove(uid);
    return Success;
  }

  function Object(its: ItsStorage, uid: nat): Option<seq<byte>>
    reads its
  {
    if uid in its.objects then Some(its.objects[uid]) else None
  }

  /** WolfpsaZephyrStore */
  class ZephyrHandle {
    const uid: nat
    const write: bool
    var buf: seq<byte>
    var off: nat

    ghost predicate Valid()
      reads this
    {
      uid != 0 && off <= |buf| && (write ==> off == 0)
    }

    constructor (uid: nat, write: bool, snapshot: seq<byte>)
      requires uid != 0 && (write ==> snapshot == [])
      ensures Valid() && this.uid == uid && this.write == write && buf == snapshot && off == 0
    {
      this.uid, this.write, buf, off := uid, write, snapshot, 0;
    }

    /** wolfPSA_Store_Read: the next bytes of the snapshot. */
    method Read(len: nat) returns (data: seq<byte>)
      requires Valid() && !write
      modifies `off
      ensures Valid() && off == old(off) + |data| && |data| == Min(len, |buf| - old(off))
      ensures data == buf[old(off)..off]
    {
      if len == 0 || off >= |buf| {
        return [];
      }
      var got := |buf| - off;
      if got > len {
        got := len;
      }
      data := buf[off..off + got];
      off := off + got;
    }

    /** wolfPSA_Store_Write: accumulates, and commits all of it at once. */
    method Write(its: ItsStorage, data: seq<byte>, setOk: bool) returns (status: StoreStatus, written: nat)
      requires Valid() && write
      modifies this`buf, its
      ensures Valid() && buf == old(buf) + data
      ensures status == if buf == [] || setOk then Ok else IoError
      ensures status == Ok ==> written == |data|
      ensures its.objects == if buf != [] && setOk then old(its.objects)[uid := buf] else old(its.objects)
    {
      if |data| > 0 {
        buf := buf + data;
      }
      if |buf| == 0 {
        return Ok, |data|;
      }
      its.Set(uid, buf, setOk);
      if !setOk {
        return IoError, 0;
      }
      return Ok, |data|;
    }
  }

  /** What psa_its_get returns for `size` bytes of an object: as many as there are. */
  function ItsGet(record: seq<byte>, size: nat): seq<byte> {
    record[..Min(size, |record|)]
  }

  /** wolfPSA_Store_OpenSz for reading: the object `atInfo` answers the size query, the
      object `atGet` the read, and either may be gone. */
  method OpenSnapshot(uid: nat, atInfo: Option<seq<byte>>, atGet: Option<seq<byte>>, io: bool)
    returns (status: StoreStatus, handle: ZephyrHandle?)
    ensures status == if uid == 0 || io then IoError
                      else match atInfo
                        case None => NotAvailable
                        case Some(was) =>
                          if was == [] then Ok
                          else match atGet
                            case None => IoError
                            case Some(now) => if |now| < |was| then IoError else Ok
    ensures status == Ok <==> handle != null
    ensures handle != null ==> fresh(handle) && handle.Valid() && !handle.write && handle.off == 0
    ensures handle != null ==>
              handle.buf == if atInfo.value == [] then [] else ItsGet(atGet.value, |atInfo.value|)
  {
    if uid == 0 || io {
      return IoError, null;
    }
    if atInfo == None {
      return NotAvailable, null;
    }
    var size := |atInfo.value|;
    var snapshot: seq<byte> := [];
    if size > 0 {
      if atGet == None {
        return IoError, null;
      }
      snapshot := ItsGet(atGet.value, size);
      if |snapshot| != size {
        return IoError, null;
      }
    }
    handle := new ZephyrHandle(uid, false, snapshot);
    return Ok, handle;
  }

  /** The persistent path of wolfpsa_get_key_data over this backend. */
  method GetKeyData(uid: nat, atInfo: Option<seq<byte>>, atGet: Option<seq<byte>>, io: bool) returns (loaded: Loaded)
    ensures loaded == SnapshotOutcome(atInfo, atGet, uid == 0 || io)
  {
    hide Get, Deserialize;
    var ret, handle := OpenSnapshot(uid, atInfo, atGet, io);
    if ret == NotAvailable {
      return Loaded(InvalidHandle, NOTHING, []);
    }
    if ret != Ok {
      return Loaded(StorageFailure, NOTHING, []);
    }
    ghost var s := handle.buf;
    var header := handle.Read(HEADER_LENGTH);
    if |header| != HEADER_LENGTH {
      return Loaded(StorageFailure, NOTHING, []);
    }
    DeserializeHeader(s, header);
    var attributes := Deserialize(header);
    var n := Get(header[ATTR_LENGTH..]);
    assert header[ATTR_LENGTH..] == s[ATTR_LENGTH..HEADER_LENGTH];
    if !DataLengthOk(n) {
      return Loaded(DataInvalid, NOTHING, []);
    }
    var data := handle.Read(n);
    if |data| != n {
      return Loaded(StorageFailure, NOTHING, []);
    }
    return Loaded(Success, attributes.value, data);
  }

  /** Whatever record was there at the size query, a successful read returns data and
      attributes of the one record that was there at the get: never a mixed key, and
      never a truncated one. */
  method ReadAcrossReplacement(uid: nat, was: Option<seq<byte>>, a: Attributes, data: seq<byte>, io: bool)
    returns (loaded: Loaded)
    requires Storable(a) && a.alg2 == ALG_NONE && DataLengthOk(|data|)
    ensures loaded.status == Success ==> loaded == Loaded(Success, a, data)
    ensures loaded.status == Success <==>
              uid != 0 && !io && was.Some? && |was.value| == |Record(a, data)|
  {
    hide Load;
    loaded := GetKeyData(uid, was, Some(Record(a, data)), io);
    if was.Some? {
      var k := Min(|was.value|, |Record(a, data)|);
      LoadOfPrefix(a, data, k);
      LoadOfRecord(a, data);
      assert Record(a, data)[..|Record(a, data)|] == Record(a, data);
    }
  }

  /** The persistent path of psa_import_key over this backend. */
  method ImportRecord(its: ItsStorage, uid: nat, a: Attributes, data: seq<byte>, probeIo: bool, setOk: bool)
    returns (status: Status)
    requires HEADER_LENGTH + |data| <= INT_MAX
    modifies its
    ensures status == ImportOutcome(old(Object(its, uid)).Some?, uid == 0 || probeIo, setOk)
    ensures its.objects == if status == Success then old(its.objects)[uid := Record(a, data)] else old(its.objects)
  {
    if uid == 0 || probeIo {
      return StorageFailure;
    }
    if uid in its.objects {
      return AlreadyExists;
    }
    var handle := new ZephyrHandle(uid, true, []);
    var buffer := Record(a, data);
    assert [] + buffer == buffer;
    var ret, written := handle.Write(its, buffer, setOk);
    if ret != Ok {
      return StorageFailure;
    }
    if written != |buffer| {
      return StorageFailure;
    }
    return Success;
  }
}
