/** The POSIX backend of src/psa_store_posix.c over an abstract file system: names,
    inodes, and steps that may fail. A record name maps to its old content or to a
    complete new record, whatever fails on the way. */
module PosixStore {
  import opened Bytes
  import opened KeyRecord
  import opened Psa

  /** The return codes of the store interface. */
  datatype StoreStatus = Ok | NotAvailable | IoError

  type Name = string

  /** Directory entries and file contents. A rename or an unlink changes `names` only,
      so an open file keeps its inode. */
  class FileSystem {
    var names: map<Name, nat>
    var inodes: map<nat, seq<byte>>

    constructor ()
      ensures names == map[] && inodes == map[]
    {
      names, inodes := map[], map[];
    }

    /** Every name leads to an inode, and no two names share one. */
    ghost predicate Valid()
      reads this
    {
      && (forall n :: n in names ==> names[n] in inodes)
      && (forall m, n :: m in names && n in names && names[m] == names[n] ==> m == n)
    }

    /** What a reader of `name` would find. */
    function Content(name: Name): Option<seq<byte>>
      reads this
      requires Valid()
    {
      if name in names then Some(inodes[names[name]]) else None
    }

    /** Creates `name` exclusively, on a fresh inode. */
    method CreateExclusive(name: Name, inode: nat)
      requires Valid() && name !in names && inode !in inodes
      modifies this
      ensures Valid() && names == old(names)[name := inode] && inodes == old(inodes)[inode := []]
    {
      names := names[name := inode];
      inodes := inodes[inode := []];
    }

    method Append(inode: nat, data: seq<byte>)
      requires Valid() && inode in inodes
      modifies `inodes
      ensures Valid() && inodes == old(inodes)[inode := old(inodes)[inode] + data]
    {
      inodes := inodes[inode := inodes[inode] + data];
    }

    /** rename(2): `to` atomically takes over the inode of `from`. */
    method Rename(from: Name, to: Name)
      requires Valid() && from in names && from != to
      modifies `names
      ensures Valid() && names == (old(names) - {from})[to := old(names)[from]]
    {
      names := (names - {from})[to := names[from]];
    }

    method Unlink(name: Name)
      requires Valid()
      modifies `names
      ensures Valid() && names == old(names) - {name}
    {
      names := names - {name};
    }
  }

  /** WOLFPSA_FileStoreCtx */
  class FileStore {
    const fs: FileSystem
    const isWrite: bool
    const finalName: Name
    const tempName: Name
    /** The inode behind `file`, and the read position. */
    const inode: nat
    var open: bool
    var position: nat
    var hasTemp: bool
    var writeFailed: bool
    /** Everything the caller asked to write. */
    ghost var intended: seq<byte>

    ghost predicate Valid()
      reads this, fs
    {
      && fs.Valid()
      && inode in fs.inodes && position <= |fs.inodes[inode]|
      && (isWrite <==> hasTemp) && (open ==> isWrite ==> WriteValid())
    }

    ghost predicate WriteValid()
      reads this, fs
    {
      && tempName != finalName && tempName in fs.names && fs.names[tempName] == inode
      && inode in fs.inodes && (!writeFailed ==> fs.inodes[inode] == intended)
    }

    constructor Reader(fs: FileSystem, name: Name)
      requires fs.Valid() && name in fs.names
      ensures Valid() && this.fs == fs && !isWrite && open && position == 0 && inode == fs.names[name]
    {
      this.fs, isWrite, finalName, tempName, inode := fs, false, name, "", fs.names[name];
      open, position, hasTemp, writeFailed, intended := true, 0, false, false, [];
    }

    constructor Writer(fs: FileSystem, name: Name, temp: Name)
      requires fs.Valid() && temp in fs.names && temp != name && fs.inodes[fs.names[temp]] == []
      ensures Valid() && this.fs == fs && isWrite && open && hasTemp && !writeFailed && intended == []
      ensures finalName == name && tempName == temp && inode == fs.names[temp]
    {
      this.fs, isWrite, finalName, tempName, inode := fs, true, name, temp, fs.names[temp];
      open, position, hasTemp, writeFailed, intended := true, 0, true, false, [];
    }

    /** wolfPSA_Store_Read: the next bytes of the file that was opened. */
    method Read(len: nat) returns (data: seq<byte>)
      requires Valid() && open && !isWrite
      modifies `position
      ensures Valid() && position == old(position) + |data|
      ensures data == fs.inodes[inode][old(position)..position]
      ensures |data| == Min(len, |fs.inodes[inode]| - old(position))
    {
      var n := Min(len, |fs.inodes[inode]| - position);
      data := fs.inodes[inode][position..position + n];
      position := position + n;
    }

    /** wolfPSA_Store_Write. `taken` is what fwrite accepted and `landed` what of it
        reached the file; fflush fails when some of it did not. */
    method Write(buffer: seq<byte>, taken: nat, landed: nat) returns (status: StoreStatus, written: nat)
      requires Valid() && open && isWrite && landed <= taken <= |buffer|
      modifies this`writeFailed, this`intended, fs`inodes
      ensures Valid()
      ensures intended == old(intended) + buffer
      ensures status == if taken == |buffer| && landed < taken then IoError else Ok
      ensures status == Ok ==> written == taken
      ensures writeFailed == (old(writeFailed) || landed < |buffer|)
      ensures fs.inodes == old(fs.inodes)[inode := old(fs.inodes)[inode] + buffer[..landed]]
    {
      fs.Append(inode, buffer[..landed]);
      intended := intended + buffer;
      written := taken;
      status := Ok;
      if taken == |buffer| {
        if landed < taken {
          writeFailed := true;
          status := IoError;
        } else {
          assert buffer[..landed] == buffer;
        }
      } else {
        writeFailed := true;
      }
    }

    /** wolfPSA_StoreAbortTemp: nobody hears of a removal that fails, and then the
        temporary name stays behind. */
    method AbortTemp(removeOk: bool)
      requires fs.Valid() && hasTemp
      modifies this`hasTemp, fs`names
      ensures fs.Valid() && !hasTemp
      ensures fs.names == if removeOk then old(fs.names) - {tempName} else old(fs.names)
    {
      if removeOk {
        fs.Unlink(tempName);
      }
      hasTemp := false;
    }

    /** wolfPSA_Store_Close on a write handle; fclose, rename and the removal may fail. The
        record name gets everything that was written, or keeps what it had. */
    method Close(closeOk: bool, renameOk: bool, removeOk: bool) returns (status: StoreStatus)
      requires Valid() && open && isWrite
      modifies this`open, this`hasTemp, this`writeFailed, fs`names
      ensures fs.Valid() && !open && !hasTemp
      ensures status == if old(writeFailed) || !closeOk || !renameOk then IoError else Ok
      ensures fs.Content(finalName) == if status == Ok then Some(intended) else old(fs.Content(finalName))
      ensures tempName in fs.names <==> status != Ok && !removeOk
      ensures forall n :: n != finalName && n != tempName ==> fs.Content(n) == old(fs.Content(n))
    {
      status := Ok;
      if !closeOk {
        writeFailed := true;
        status := IoError;
      }
      open := false;
      if !writeFailed {
        if renameOk {
          fs.Rename(tempName, finalName);
          hasTemp := false;
        } else {
          AbortTemp(removeOk);
          status := IoError;
        }
      } else {
        AbortTemp(removeOk);
        status := IoError;
      }
    }

    /** wolfPSA_Store_Close on a read handle. */
    method CloseReader()
      requires Valid() && !isWrite
      modifies `open
      ensures Valid() && !open
    {
      open := false;
    }
  }

  /** The environment's choices along one import: what fails, and how far a write gets. */
  datatype Faults = Faults(probeIo: bool, createIo: bool, taken: nat, landed: nat, closeOk: bool, renameOk: bool,
                           removeOk: bool)

  predicate NoFault(f: Faults, n: nat) {
    !f.probeIo && !f.createIo && f.taken >= n && f.landed >= n && f.closeOk && f.renameOk
  }

  /** wolfPSA_Store_OpenSz for reading. */
  method OpenReader(fs: FileSystem, name: Name, io: bool) returns (status: StoreStatus, store: FileStore?)
    requires fs.Valid()
    ensures status == if io then IoError else if name in fs.names then Ok else NotAvailable
    ensures status == Ok <==> store != null
    ensures store != null ==>
              && fresh(store) && store.Valid() && store.open && !store.isWrite && store.position == 0
              && store.fs == fs && name in fs.names && store.inode == fs.names[name]
  {
    if io {
      return IoError, null;
    }
    if name !in fs.names {
      return NotAvailable, null;
    }
    store := new FileStore.Reader(fs, name);
    return Ok, store;
  }

  /** wolfPSA_Store_OpenSz for writing: an exclusive temporary file. */
  method OpenWriter(fs: FileSystem, name: Name, temp: Name, inode: nat, io: bool)
    returns (status: StoreStatus, store: FileStore?)
    requires fs.Valid() && temp !in fs.names && temp != name && inode !in fs.inodes
    modifies fs
    ensures fs.Valid() && (status == Ok <==> store != null) && status == if io then IoError else Ok
    ensures store == null ==> fs.names == old(fs.names) && fs.inodes == old(fs.inodes)
    ensures store != null ==>
              && fresh(store) && store.Valid() && store.open && store.isWrite && !store.writeFailed
              && store.fs == fs && store.intended == [] && store.finalName == name && store.tempName == temp
              && store.inode == inode
              && fs.names == old(fs.names)[temp := inode] && fs.inodes == old(fs.inodes)[inode := []]
  {
    if io {
      return IoError, null;
    }
    fs.CreateExclusive(temp, inode);
    store := new FileStore.Writer(fs, name, temp);
    return Ok, store;
  }

  /** One write call: the buffer, what fwrite took, and what reached the file. */
  datatype WriteStep = WriteStep(buffer: seq<byte>, taken: nat, landed: nat)

  function Buffers(steps: seq<WriteStep>): seq<seq<byte>> {
    seq(|steps|, i requires 0 <= i < |steps| => steps[i].buffer)
  }

  predicate AllLanded(steps: seq<WriteStep>) {
    forall i :: 0 <= i < |steps| ==> steps[i].landed == |steps[i].buffer|
  }

  /** Any run of writes on one handle, each failing anywhere, and its close: the record
      name maps to everything that was written, or to its old content. */
  method RunWrites(store: FileStore, steps: seq<WriteStep>, closeOk: bool, renameOk: bool, removeOk: bool)
    returns (status: StoreStatus)
    requires store.Valid() && store.open && store.isWrite && !store.writeFailed && store.intended == []
    requires forall i :: 0 <= i < |steps| ==> steps[i].landed <= steps[i].taken <= |steps[i].buffer|
    modifies store, store.fs
    ensures store.fs.Valid() && (store.tempName in store.fs.names <==> status != Ok && !removeOk)
    ensures status == if AllLanded(steps) && closeOk && renameOk then Ok else IoError
    ensures store.fs.Content(store.finalName)
         == if status == Ok then Some(Flatten(Buffers(steps))) else old(store.fs.Content(store.finalName))
    ensures forall n :: n != store.finalName && n != store.tempName
              ==> store.fs.Content(n) == old(store.fs.Content(n))
  {
    var i := 0;
    ghost var names, inodes := store.fs.names, store.fs.inodes;
    while i < |steps|
      invariant 0 <= i <= |steps| && store.Valid() && store.open
      invariant store.intended == Flatten(Buffers(steps)[..i])
      invariant store.writeFailed <==> !AllLanded(steps[..i])
      invariant store.fs.names == names && store.fs.inodes == inodes[store.inode := store.fs.inodes[store.inode]]
      modifies store`writeFailed, store`intended, store.fs`inodes
    {
      FlattenTake(Buffers(steps), i);
      assert steps[..i + 1] == steps[..i] + [steps[i]];
      var ret, written := store.Write(steps[i].buffer, steps[i].taken, steps[i].landed);
      i := i + 1;
    }
    assert steps[..i] == steps && Buffers(steps)[..i] == Buffers(steps);
    status := store.Close(closeOk, renameOk, removeOk);
  }

  /** The persistent path of psa_import_key, under the key-store lock. Success means
      that the whole record is committed; anything else leaves the name as it was. */
  method ImportRecord(fs: FileSystem, name: Name, temp: Name, inode: nat, a: Attributes, data: seq<byte>, f: Faults)
    returns (status: Status)
    requires fs.Valid() && temp !in fs.names && temp != name && inode !in fs.inodes
    requires HEADER_LENGTH + |data| <= INT_MAX
    modifies fs
    ensures fs.Valid()
    ensures status == ImportOutcome(old(fs.Content(name)).Some?, f.probeIo, NoFault(f, |Record(a, data)|))
    ensures fs.Content(name) == if status == Success then Some(Record(a, data)) else old(fs.Content(name))
    ensures temp in fs.names <==>
              old(fs.Content(name)) == None && !f.probeIo && !f.createIo && status != Success && !f.removeOk
    ensures forall n :: n != name && n != temp ==> fs.Content(n) == old(fs.Content(n))
  {
    hide Record;
    var ret, store := OpenReader(fs, name, f.probeIo);
    if ret == Ok {
      return AlreadyExists;
    }
    if ret != NotAvailable {
      return StorageFailure;
    }
    var buffer := Record(a, data);
    ret, store := OpenWriter(fs, name, temp, inode, f.createIo);
    if ret != Ok {
      return StorageFailure;
    }
    status := WriteRecord(store, buffer, f);
  }

  /** One write of the whole buffer, and the close that commits it. */
  method WriteRecord(store: FileStore, buffer: seq<byte>, f: Faults) returns (status: Status)
    requires store.Valid() && store.open && store.isWrite && !store.writeFailed && store.intended == []
    modifies store, store.fs
    ensures store.fs.Valid()
    ensures status == if f.taken >= |buffer| && f.landed >= |buffer| && f.closeOk && f.renameOk then Success
                      else StorageFailure
    ensures store.fs.Content(store.finalName)
         == if status == Success then Some(buffer) else old(store.fs.Content(store.finalName))
    ensures store.tempName in store.fs.names <==> status != Success && !f.removeOk
    ensures forall n :: n != store.finalName && n != store.tempName
              ==> store.fs.Content(n) == old(store.fs.Content(n))
  {
    var taken := Min(f.taken, |buffer|);
    var ret, written := store.Write(buffer, taken, Min(f.landed, taken));
    assert [] + buffer == buffer;
    var closeRet := store.Close(f.closeOk, f.renameOk, f.removeOk);
    if ret == Ok && closeRet != Ok {
      ret := closeRet;
    }
    if ret != Ok {
      return StorageFailure;
    }
    if written != |buffer| {
      return StorageFailure;
    }
    return Success;
  }

  /** The persistent path of wolfpsa_get_key_data: header and body from one handle. */
  method GetKeyData(fs: FileSystem, name: Name, io: bool) returns (loaded: Loaded)
    requires fs.Valid()
    ensures loaded == ReadOutcome(fs.Content(name), io)
  {
    var ret, store := OpenReader(fs, name, io);
    if ret == NotAvailable {
      return Loaded(InvalidHandle, NOTHING, []);
    }
    if ret != Ok {
      return Loaded(StorageFailure, NOTHING, []);
    }
    loaded := ReadKey(store);
  }

  method ReadKey(store: FileStore) returns (loaded: Loaded)
    requires store.Valid() && store.open && !store.isWrite && store.position == 0
    modifies store
    ensures loaded == Load(store.fs.inodes[store.inode])
  {
    hide Get, Deserialize;
    ghost var s := store.fs.inodes[store.inode];
    var header := store.Read(HEADER_LENGTH);
    if |header| != HEADER_LENGTH {
      store.CloseReader();
      return Loaded(StorageFailure, NOTHING, []);
    }
    DeserializeHeader(s, header);
    var attributes := Deserialize(header);
    var n := Get(header[ATTR_LENGTH..]);
    assert header[ATTR_LENGTH..] == s[ATTR_LENGTH..HEADER_LENGTH];
    if !DataLengthOk(n) {
      store.CloseReader();
      return Loaded(DataInvalid, NOTHING, []);
    }
    var data := store.Read(n);
    store.CloseReader();
    if |data| != n {
      return Loaded(StorageFailure, NOTHING, []);
    }
    return Loaded(Success, attributes.value, data);
  }

  /** The attributes lie within the header. */
  lemma DeserializeHeader(s: seq<byte>, header: seq<byte>)
    requires HEADER_LENGTH <= |s| && header == s[0..HEADER_LENGTH]
    ensures Deserialize(header) == Deserialize(s) && Deserialize(s).Some?
  {
    assert header[0..2] == s[0..2] && header[2..4] == s[2..4] && header[4..8] == s[4..8];
    assert header[8..12] == s[8..12] && header[12..16] == s[12..16];
  }

  /** The persistent path of psa_destroy_key: removes the record name, and nothing else. */
  method DestroyRecord(fs: FileSystem, name: Name, io: bool) returns (status: Status)
    requires fs.Valid()
    modifies fs`names
    ensures fs.Valid()
    ensures status == DestroyOutcome(old(name in fs.names), io)
    ensures fs.names == if status == Success then old(fs.names) - {name} else old(fs.names)
  {
    if io {
      return StorageFailure;
    }
    if name !in fs.names {
      return InvalidHandle;
    }
    fs.Unlink(name);
    return Success;
  }

  /** Import and read back: the same attributes and data when the import succeeded, and
      no key at all when it did not. */
  method ImportThenGet(name: Name, temp: Name, a: Attributes, data: seq<byte>, f: Faults)
    returns (status: Status, loaded: Loaded)
    requires temp != name && Storable(a) && a.alg2 == ALG_NONE && 1 <= |data| <= INT_MAX - HEADER_LENGTH
    ensures status == Success <==> NoFault(f, |Record(a, data)|)
    ensures loaded == if status == Success then Loaded(Success, a, data) else Loaded(InvalidHandle, NOTHING, [])
  {
    var fs := new FileSystem();
    status := ImportRecord(fs, name, temp, 0, a, data, f);
    loaded := GetKeyData(fs, name, false);
    LoadOfRecord(a, data);
  }
}
