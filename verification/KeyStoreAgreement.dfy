/** The steps of KeyStoreInterleaving against the two backends: whatever happens between
    them, the steps of a read end in what the read path of its backend computes, and the
    steps of an import in what the import path does. */
module KeyStoreAgreement {
  import opened Bytes
  import opened KeyRecord
  import opened KeyStoreInterleaving
  import PosixStore
  import opened Psa

  /** What a reader of `id` would find. */
  function Content(s: State, id: nat): Option<seq<byte>> {
    if id in s.names && s.names[id] in s.inodes then Some(s.inodes[s.names[id]]) else None
  }

  /** The three steps of a read through one open file, on the states that other threads
      leave in between; `held` is the file it opened, which they do not touch. */
  lemma PosixReadAgrees(s1: State, s2: State, s3: State, t: nat, io: bool)
    requires At(s1, t).Opening?
    requires At(s1, t).r.id in s1.names ==> s1.names[At(s1, t).r.id] in s1.inodes
    requires At(s2, t) == At(ReadStep(s1, t, Open(io)).value, t)
    requires At(s2, t).AtHeader? ==>
               var held := At(s2, t).inode;
               && held in s2.inodes && held in s3.inodes && s3.inodes[held] == s2.inodes[held] == s1.inodes[held]
               && At(s3, t) == At(ReadStep(s2, t, ReadHeader).value, t)
    ensures var end := if At(s2, t).Done? then At(s2, t)
                       else if At(s3, t).Done? then At(s3, t)
                       else At(ReadStep(s3, t, ReadBody).value, t);
            var content := Content(s1, At(s1, t).r.id);
            end.Done? && end.result == if At(s1, t).r.exporting then ExportOutcome(content, io) else ReadOutcome(content, io)
  {
    hide Deserialize, Get, Finish, Load, ExportOutcome, ReadOutcome;
    if At(s2, t).AtHeader? {
      var content := s1.inodes[At(s2, t).inode];
      FinishOfContent(At(s1, t).r.exporting, content);
      if At(s3, t).AtBody? {
        assert content[..HEADER_LENGTH] + content[HEADER_LENGTH..] == content;
      }
    } else {
      NoContent();
    }
  }

  lemma NoContent()
    ensures forall content :: ExportOutcome(content, true) == ReadOutcome(content, true) == Loaded(StorageFailure, NOTHING, [])
    ensures ExportOutcome(None, false) == ReadOutcome(None, false) == Loaded(InvalidHandle, NOTHING, [])
  {
  }

  /** The export flag of the header is the lowest bit of byte 4. */
  lemma ExportFlag(s: seq<byte>)
    requires |s| >= HEADER_LENGTH
    ensures Deserialize(s).Some? && (Exportable(Deserialize(s).value) <==> s[4] % 2 == 1)
  {
    hide Get, LittleEndian;
    FieldsOf(s);
    GetIsLittleEndian(s[4..8]);
    LowestBit(s[4..8]);
  }

  lemma FinishOfContent(exporting: bool, content: seq<byte>)
    ensures Finish(exporting, content)
         == if exporting then ExportOutcome(Some(content), false) else ReadOutcome(Some(content), false)
    ensures |content| < HEADER_LENGTH ==> Finish(exporting, content) == Loaded(StorageFailure, NOTHING, [])
  {
    hide Get, Deserialize;
    if |content| >= HEADER_LENGTH {
      ExportFlag(content);
    }
  }

  /** The step of a destroy, and what its record holds behind it. */
  lemma DestroyAgrees(s: State, t: nat, io: bool)
    requires At(s, t).Destroying? && (At(s, t).id in s.names ==> s.names[At(s, t).id] in s.inodes)
    ensures var id, end := At(s, t).id, Next(s, t, Remove(io));
            var status := DestroyOutcome(Content(s, id).Some?, io);
            && end.Some? && At(end.value, t) == Destroyed(id, status)
            && Content(end.value, id) == (if status == Success then None else Content(s, id))
            && forall other :: other != id ==> Content(end.value, other) == Content(s, other)
  {
  }

  /** The three steps of a read through a snapshot: other threads may replace or remove
      the object between the size query and the get. */
  lemma ZephyrReadAgrees(s1: State, s2: State, s3: State, t: nat, infoIo: bool, getIo: bool)
    requires At(s1, t).Sizing? && !At(s1, t).r.exporting
    requires At(s2, t) == At(ReadStep(s1, t, GetInfo(infoIo)).value, t)
    requires At(s2, t).Getting? ==> At(s3, t) == At(ReadStep(s2, t, GetObject(getIo)).value, t)
    ensures var id := At(s1, t).r.id;
            var end := if At(s2, t).Done? then At(s2, t)
                       else if At(s3, t).Done? then At(s3, t)
                       else At(ReadStep(s3, t, ReadSnapshot).value, t);
            && end.Done?
            && end.result == SnapshotOutcome(Content(s1, id), Content(s2, id), infoIo || (At(s2, t).Getting? && getIo))
  {
    hide Deserialize, Get;
  }

  // ----- imports -----

  /** Steps of one thread in a row. */
  function Solo(s: State, t: nat, acts: seq<Act>): Option<State>
    decreases |acts|
  {
    if acts == [] then Some(s)
    else match Next(s, t, acts[0])
      case None => None
      case Some(next) => Solo(next, t, acts[1..])
  }

  lemma SoloStep(s: State, t: nat, act: Act, acts: seq<Act>)
    ensures Solo(s, t, [act] + acts)
         == match Next(s, t, act) case None => None case Some(next) => Solo(next, t, acts)
  {
    hide Next;
    assert ([act] + acts)[1..] == acts;
  }

  /** A thread that has stored its record, or failed to, gives up the lock. */
  lemma Unlocks(s: State, t: nat)
    requires At(s, t).Unlocking?
    ensures var th := At(s, t);
            Solo(s, t, [Unlock]) == Some(Go(s.(lock := None), t, Imported(th.id, th.attributes, th.data, th.status)))
  {
    SoloStep(s, t, Unlock, []);
  }

  /** The outcome of an import's steps: its status, and what its record holds behind it. */
  ghost predicate ImportEnds(s: State, end: Option<State>, t: nat, id: nat, a: Attributes, data: seq<byte>, status: Status) {
    && end.Some? && end.value.lock == None && At(end.value, t) == Imported(id, a, data, status)
    && Content(end.value, id) == if status == Success then Some(Record(a, data)) else Content(s, id)
  }

  /** The steps of psa_import_key over the POSIX backend under the faults `f`. */
  function PosixImport(s: State, id: nat, n: nat, inode: nat, f: PosixStore.Faults): seq<Act> {
    [Lock, Probe(f.probeIo)]
    + (if f.probeIo || id in s.names then []
       else [Create(inode, f.createIo)] + PosixWrite(n, f))
    + [Unlock]
  }

  function PosixWrite(n: nat, f: PosixStore.Faults): seq<Act> {
    if f.createIo then [] else [Write(Min(f.landed, Min(f.taken, n)), true), Close(f.closeOk, f.renameOk)]
  }

  lemma PosixImportAgrees(s: State, t: nat, inode: nat, f: PosixStore.Faults)
    requires At(s, t).Importing? && s.lock == None && inode !in s.inodes
    requires At(s, t).id in s.names ==> s.names[At(s, t).id] in s.inodes
    ensures var Importing(id, a, data) := At(s, t);
            var n := |Record(a, data)|;
            ImportEnds(s, Solo(s, t, PosixImport(s, id, n, inode, f)), t, id, a, data,
                       ImportOutcome(Content(s, id).Some?, f.probeIo, PosixStore.NoFault(f, n)))
  {
    hide Record, Solo;
    var Importing(id, a, data) := At(s, t);
    var n := |Record(a, data)|;
    var s1 := Next(s, t, Lock).value;
    var s2 := Next(s1, t, Probe(f.probeIo)).value;
    if f.probeIo || id in s.names {
      assert PosixImport(s, id, n, inode, f) == [Lock] + ([Probe(f.probeIo)] + [Unlock]);
      SoloStep(s, t, Lock, [Probe(f.probeIo)] + [Unlock]);
      SoloStep(s1, t, Probe(f.probeIo), [Unlock]);
      Unlocks(s2, t);
    } else {
      var rest := [Create(inode, f.createIo)] + (PosixWrite(n, f) + [Unlock]);
      assert PosixImport(s, id, n, inode, f) == [Lock] + ([Probe(f.probeIo)] + rest);
      SoloStep(s, t, Lock, [Probe(f.probeIo)] + rest);
      SoloStep(s1, t, Probe(f.probeIo), rest);
      SoloStep(s2, t, Create(inode, f.createIo), PosixWrite(n, f) + [Unlock]);
      var s3 := Next(s2, t, Create(inode, f.createIo)).value;
      if f.createIo {
        assert PosixWrite(n, f) + [Unlock] == [Unlock];
        Unlocks(s3, t);
      } else {
        WriteAgrees(s3, t, f);
      }
    }
  }

  lemma WriteAgrees(s: State, t: nat, f: PosixStore.Faults)
    requires At(s, t).Writing? && At(s, t).inode in s.inodes && !f.createIo && !f.probeIo
    ensures var Writing(id, a, data, inode) := At(s, t);
            var n := |Record(a, data)|;
            var end := Solo(s, t, PosixWrite(n, f) + [Unlock]);
            && end.Some? && end.value.lock == None
            && At(end.value, t) == Imported(id, a, data, if PosixStore.NoFault(f, n) then Success else StorageFailure)
            && end.value.inodes.Keys == s.inodes.Keys
            && (forall p :: p in s.inodes && p != inode ==> end.value.inodes[p] == s.inodes[p])
            && end.value.names == (if PosixStore.NoFault(f, n) then s.names[id := inode] else s.names)
            && (PosixStore.NoFault(f, n) ==> end.value.inodes[inode] == Record(a, data))
  {
    hide Record, Solo;
    var Writing(id, a, data, inode) := At(s, t);
    var n := |Record(a, data)|;
    var write := Write(Min(f.landed, Min(f.taken, n)), true);
    var close := Close(f.closeOk, f.renameOk);
    assert PosixWrite(n, f) + [Unlock] == [write] + ([close] + [Unlock]);
    assert Record(a, data)[..n] == Record(a, data);
    SoloStep(s, t, write, [close] + [Unlock]);
    var s1 := Next(s, t, write).value;
    SoloStep(s1, t, close, [Unlock]);
    var s2 := Next(s1, t, close).value;
    Unlocks(s2, t);
  }

  /** The steps of psa_import_key over the Zephyr backend. */
  lemma ZephyrImportAgrees(s: State, t: nat, inode: nat, probeIo: bool, setOk: bool)
    requires At(s, t).Importing? && s.lock == None && inode !in s.inodes
    requires At(s, t).id in s.names ==> s.names[At(s, t).id] in s.inodes
    ensures var Importing(id, a, data) := At(s, t);
            var acts := [Lock, Probe(probeIo)] + (if probeIo || id in s.names then [] else [SetObject(inode, setOk)]) + [Unlock];
            ImportEnds(s, Solo(s, t, acts), t, id, a, data, ImportOutcome(Content(s, id).Some?, probeIo, setOk))
  {
    hide Record, Solo;
    var Importing(id, a, data) := At(s, t);
    var middle: seq<Act> := if probeIo || id in s.names then [] else [SetObject(inode, setOk)];
    var s1 := Next(s, t, Lock).value;
    var s2 := Next(s1, t, Probe(probeIo)).value;
    assert [Lock, Probe(probeIo)] + middle + [Unlock] == [Lock] + ([Probe(probeIo)] + (middle + [Unlock]));
    SoloStep(s, t, Lock, [Probe(probeIo)] + (middle + [Unlock]));
    SoloStep(s1, t, Probe(probeIo), middle + [Unlock]);
    if probeIo || id in s.names {
      assert middle + [Unlock] == [Unlock];
      Unlocks(s2, t);
    } else {
      SoloStep(s2, t, SetObject(inode, setOk), [Unlock]);
      Unlocks(Next(s2, t, SetObject(inode, setOk)).value, t);
    }
  }
}
