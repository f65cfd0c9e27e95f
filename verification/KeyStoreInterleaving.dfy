/** Threads that import, destroy and read persistent keys, in every interleaving of
    their steps on the store (src/psa_key_storage.c over src/psa_store_posix.c and
    src/psa_store_zephyr.c). Import holds the key-store lock from its probe to its
    commit; destroy removes a record without the lock; readers take no lock. */
module KeyStoreInterleaving {
  import opened Bytes
  import opened KeyRecord
  import opened Psa

  // ----- the state machine -----

  /** What happened to the record names, in order. */
  datatype Event = Commit(id: nat, attributes: Attributes, data: seq<byte>) | Removal(id: nat)

  /** One call that reads a key. `since` is how long the history was when it began, and
      `at` how long when it opened the record or took its snapshot. */
  datatype Reader = Reader(id: nat, exporting: bool, since: nat, at: nat)

  /** Where a thread stands. `inode` is a file it holds open. */
  datatype Thread =
    | Idle
    | Importing(id: nat, attributes: Attributes, data: seq<byte>)
    | Probing(id: nat, attributes: Attributes, data: seq<byte>)
    | Creating(id: nat, attributes: Attributes, data: seq<byte>)
    | Writing(id: nat, attributes: Attributes, data: seq<byte>, inode: nat)
    | Closing(id: nat, attributes: Attributes, data: seq<byte>, inode: nat, failed: bool)
    | Unlocking(id: nat, attributes: Attributes, data: seq<byte>, status: Status)
    | Imported(id: nat, attributes: Attributes, data: seq<byte>, status: Status)
    | Destroying(id: nat)
    | Destroyed(id: nat, status: Status)
    | Opening(r: Reader)
    | AtHeader(r: Reader, inode: nat)
    | AtBody(r: Reader, inode: nat, header: seq<byte>)
    | Sizing(r: Reader)
    | Getting(r: Reader, size: nat)
    | Snapshot(r: Reader, buf: seq<byte>)
    | Done(r: Reader, result: Loaded)

  /** A step of one thread with the choices of its environment. */
  datatype Act =
    | BeginImport(id: nat, attributes: Attributes, data: seq<byte>)
    | BeginDestroy(id: nat)
    | BeginRead(id: nat, exporting: bool)
    | BeginSnapshot(id: nat, exporting: bool)
    | Lock
    | Probe(io: bool)
    | Create(inode: nat, io: bool)
    | Write(landed: nat, flushed: bool)
    | Close(closed: bool, renamed: bool)
    | SetObject(inode: nat, ok: bool)
    | Unlock
    | Remove(io: bool)
    | Open(io: bool)
    | ReadHeader
    | ReadBody
    | GetInfo(io: bool)
    | GetObject(io: bool)
    | ReadSnapshot

  /** `names` maps a key id to the file behind its record name. `published` holds every
      file that ever carried a record name. */
  datatype State = State(
    lock: Option<nat>,
    names: map<nat, nat>,
    inodes: map<nat, seq<byte>>,
    published: set<nat>,
    threads: map<nat, Thread>,
    history: seq<Event>)

  const EMPTY := State(None, map[], map[], {}, map[], [])

  function At(s: State, t: nat): Thread {
    if t in s.threads then s.threads[t] else Idle
  }

  function Go(s: State, t: nat, th: Thread): State {
    s.(threads := s.threads[t := th])
  }

  predicate KeyOk(a: Attributes, data: seq<byte>) {
    Storable(a) && a.alg2 == ALG_NONE && DataLengthOk(|data|)
  }

  predicate Exportable(a: Attributes) {
    a.usage % 2 == USAGE_EXPORT
  }

  /** The read path of wolfpsa_get_key_data, and of psa_export_key with its usage check,
      on a header and the bytes behind it. */
  function Finish(exporting: bool, s: seq<byte>): Loaded {
    if |s| < HEADER_LENGTH then Loaded(StorageFailure, NOTHING, [])
    else if exporting && !Exportable(Deserialize(s).value) then Loaded(NotPermitted, NOTHING, [])
    else Load(s)
  }

  /** The reader looks at the store now. */
  function Now(s: State, r: Reader): Reader {
    r.(at := |s.history|)
  }

  function Fail(s: State, t: nat, r: Reader, status: Status): State {
    Go(s, t, Done(r, Loaded(status, NOTHING, [])))
  }

  /** The record name of `id` now leads to `inode`. */
  function Publish(s: State, id: nat, a: Attributes, data: seq<byte>, inode: nat): State {
    s.(names := s.names[id := inode], published := s.published + {inode}, history := s.history + [Commit(id, a, data)])
  }

  function ImportStep(s: State, t: nat, act: Act): Option<State> {
    match At(s, t)
    case Importing(id, a, data) =>
      if act == Lock && s.lock == None then Some(Go(s.(lock := Some(t)), t, Probing(id, a, data))) else None
    case Probing(id, a, data) =>
      if !act.Probe? then None
      else if act.io then Some(Go(s, t, Unlocking(id, a, data, StorageFailure)))
      else if id in s.names then Some(Go(s, t, Unlocking(id, a, data, AlreadyExists)))
      else Some(Go(s, t, Creating(id, a, data)))
    case Creating(id, a, data) =>
      if act.Create? && act.io then Some(Go(s, t, Unlocking(id, a, data, StorageFailure)))
      else if act.Create? && act.inode !in s.inodes then
        Some(Go(s.(inodes := s.inodes[act.inode := []]), t, Writing(id, a, data, act.inode)))
      else if act.SetObject? && !act.ok then Some(Go(s, t, Unlocking(id, a, data, StorageFailure)))
      else if act.SetObject? && act.inode !in s.inodes then
        var s1 := s.(inodes := s.inodes[act.inode := Record(a, data)]);
        Some(Go(Publish(s1, id, a, data, act.inode), t, Unlocking(id, a, data, Success)))
      else None
    case Writing(id, a, data, inode) =>
      if act.Write? && act.landed <= |Record(a, data)| then
        var failed := act.landed < |Record(a, data)| || !act.flushed;
        Some(Go(s.(inodes := s.inodes[inode := Record(a, data)[..act.landed]]), t, Closing(id, a, data, inode, failed)))
      else None
    case Closing(id, a, data, inode, failed) =>
      if !act.Close? then None
      else if !failed && act.closed && act.renamed then
        Some(Go(Publish(s, id, a, data, inode), t, Unlocking(id, a, data, Success)))
      else Some(Go(s, t, Unlocking(id, a, data, StorageFailure)))
    case Unlocking(id, a, data, status) =>
      if act == Unlock then Some(Go(s.(lock := None), t, Imported(id, a, data, status))) else None
    case _ => None
  }

  function ReadStep(s: State, t: nat, act: Act): Option<State> {
    match At(s, t)
    case Opening(r) =>
      if !act.Open? then None
      else if act.io then Some(Fail(s, t, Now(s, r), StorageFailure))
      else if r.id !in s.names then Some(Fail(s, t, Now(s, r), InvalidHandle))
      else Some(Go(s, t, AtHeader(Now(s, r), s.names[r.id])))
    case AtHeader(r, inode) =>
      if act != ReadHeader || inode !in s.inodes then None
      else if |s.inodes[inode]| < HEADER_LENGTH then Some(Fail(s, t, r, StorageFailure))
      else Some(Go(s, t, AtBody(r, inode, s.inodes[inode][..HEADER_LENGTH])))
    case AtBody(r, inode, header) =>
      if act != ReadBody || inode !in s.inodes || |s.inodes[inode]| < HEADER_LENGTH then None
      else Some(Go(s, t, Done(r, Finish(r.exporting, header + s.inodes[inode][HEADER_LENGTH..]))))
    case Sizing(r) =>
      if !act.GetInfo? then None
      else if act.io then Some(Fail(s, t, Now(s, r), StorageFailure))
      else if r.id !in s.names || s.names[r.id] !in s.inodes then Some(Fail(s, t, Now(s, r), InvalidHandle))
      else Some(Go(s, t, Getting(r, |s.inodes[s.names[r.id]]|)))
    case Getting(r, size) =>
      if !act.GetObject? then None
      else if act.io || r.id !in s.names || s.names[r.id] !in s.inodes || |s.inodes[s.names[r.id]]| < size then
        Some(Fail(s, t, Now(s, r), StorageFailure))
      else Some(Go(s, t, Snapshot(Now(s, r), s.inodes[s.names[r.id]][..size])))
    case Snapshot(r, buf) =>
      if act == ReadSnapshot then Some(Go(s, t, Done(r, Finish(r.exporting, buf)))) else None
    case _ => None
  }

  /** The start of a call, and the one step of psa_destroy_key. An import comes here with
      an id, its own or an issued one; destroying the null id does nothing. */
  function CallStep(s: State, t: nat, act: Act): Option<State> {
    match At(s, t)
    case Idle =>
      (match act
       case BeginImport(id, a, data) =>
         if id != 0 && KeyOk(a, data) then Some(Go(s, t, Importing(id, a, data))) else None
       case BeginDestroy(id) => Some(Go(s, t, if id == 0 then Destroyed(0, Success) else Destroying(id)))
       case BeginRead(id, exporting) => Some(Go(s, t, Opening(Reader(id, exporting, |s.history|, |s.history|))))
       case BeginSnapshot(id, exporting) => Some(Go(s, t, Sizing(Reader(id, exporting, |s.history|, |s.history|))))
       case _ => None)
    case Destroying(id) =>
      if !act.Remove? then None
      else if act.io then Some(Go(s, t, Destroyed(id, StorageFailure)))
      else if id !in s.names then Some(Go(s, t, Destroyed(id, InvalidHandle)))
      else Some(Go(Removed(s, id), t, Destroyed(id, Success)))
    case _ => None
  }

  /** One step of thread `t`, if `act` is one it can take. */
  function Next(s: State, t: nat, act: Act): Option<State> {
    if CallStep(s, t, act).Some? then CallStep(s, t, act)
    else if ReadStep(s, t, act).Some? then ReadStep(s, t, act)
    else ImportStep(s, t, act)
  }

  /** A run: which thread moves, and how. */
  function Exec(s: State, steps: seq<(nat, Act)>): Option<State>
    decreases |steps|
  {
    if steps == [] then Some(s)
    else match Next(s, steps[0].0, steps[0].1)
      case None => None
      case Some(next) => Exec(next, steps[1..])
  }

  // ----- what every state keeps -----

  function LastOf(history: seq<Event>, id: nat): (last: Option<Event>)
    ensures last.Some? ==> last.value.id == id
  {
    if |history| == 0 then None
    else if history[|history| - 1].id == id then Some(history[|history| - 1])
    else LastOf(history[..|history| - 1], id)
  }

  /** Commits and removals of each id take turns, a commit first. */
  ghost predicate Alternates(history: seq<Event>) {
    forall i :: 0 <= i < |history| ==>
      var before := LastOf(history[..i], history[i].id);
      if history[i].Commit? then before == None || before.value.Removal? else before.Some? && before.value.Commit?
  }

  predicate HoldsLock(th: Thread) {
    th.Probing? || th.Creating? || th.Writing? || th.Closing? || th.Unlocking?
  }

  /** The import of `id` that was current after the first `at` events, if there was one. */
  ghost function Current(history: seq<Event>, at: nat, id: nat): Option<Event>
    requires at <= |history|
  {
    var last := LastOf(history[..at], id);
    if last.Some? && last.value.Commit? then last else None
  }

  /** `content` is the record of that import. */
  ghost predicate Stored(history: seq<Event>, at: nat, id: nat, content: seq<byte>) {
    && at <= |history| && Current(history, at, id).Some?
    && var e := Current(history, at, id).value;
       KeyOk(e.attributes, e.data) && content == Record(e.attributes, e.data)
  }

  ghost predicate StoredFront(history: seq<Event>, at: nat, id: nat, buf: seq<byte>) {
    && at <= |history| && Current(history, at, id).Some?
    && var e := Current(history, at, id).value;
       KeyOk(e.attributes, e.data) && buf <= Record(e.attributes, e.data)
  }

  /** A successful read returns what the import current at its one look at the store put
      there, and a read that found no key looked when there was none. */
  ghost predicate GoodResult(history: seq<Event>, r: Reader, result: Loaded) {
    && r.since <= r.at <= |history|
    && (result.status == Success ==>
          && Current(history, r.at, r.id) == Some(Commit(r.id, result.attributes, result.data))
          && (r.exporting ==> Exportable(result.attributes)))
    && (result.status == InvalidHandle ==> Current(history, r.at, r.id) == None)
  }

  ghost predicate ThreadOk(s: State, th: Thread) {
    match th
    case Importing(_, a, data) => KeyOk(a, data)
    case Probing(_, a, data) => KeyOk(a, data)
    case Creating(id, a, data) => KeyOk(a, data) && id !in s.names
    case Writing(id, a, data, inode) => KeyOk(a, data) && id !in s.names && TempFile(s, inode)
    case Closing(id, a, data, inode, failed) =>
      KeyOk(a, data) && id !in s.names && TempFile(s, inode) && (!failed ==> s.inodes[inode] == Record(a, data))
    case Unlocking(id, a, data, status) => status == Success ==> Commit(id, a, data) in s.history
    case Imported(id, a, data, status) => status == Success ==> Commit(id, a, data) in s.history
    case Opening(r) => r.since <= |s.history|
    case Destroying(id) => id != 0
    case Destroyed(id, status) => status == Success && id != 0 ==> Removal(id) in s.history
    case AtHeader(r, inode) => OpenFile(s, r, inode)
    case AtBody(r, inode, header) =>
      OpenFile(s, r, inode) && |s.inodes[inode]| >= HEADER_LENGTH && header == s.inodes[inode][..HEADER_LENGTH]
    case Sizing(r) => r.since <= |s.history|
    case Getting(r, _) => r.since <= |s.history|
    case Snapshot(r, buf) => r.since <= r.at && StoredFront(s.history, r.at, r.id, buf)
    case Done(r, result) => GoodResult(s.history, r, result)
    case _ => true
  }

  /** A file under its temporary name only. */
  ghost predicate TempFile(s: State, inode: nat) {
    inode in s.inodes && inode !in s.published
  }

  /** The reader holds the file of the import that was current when it opened. */
  ghost predicate OpenFile(s: State, r: Reader, inode: nat) {
    && r.since <= r.at && inode in s.published && inode in s.inodes
    && Stored(s.history, r.at, r.id, s.inodes[inode])
  }

  /** Every record name leads to the record of the current import of its id. */
  ghost predicate StoreOk(s: State) {
    && (forall p :: p in s.published ==> p in s.inodes)
    && (forall id :: id in s.names ==>
          s.names[id] in s.published && Stored(s.history, |s.history|, id, s.inodes[s.names[id]]))
  }

  ghost predicate HistoryOk(s: State) {
    Alternates(s.history) && NamesFollow(s.names, s.history)
  }

  /** A record name exists exactly while the last event of its id is a commit. */
  ghost predicate NamesFollow(names: map<nat, nat>, history: seq<Event>) {
    forall id :: id in names <==> (LastOf(history, id).Some? && LastOf(history, id).value.Commit?)
  }

  ghost predicate LockOk(s: State) {
    forall t: nat :: HoldsLock(At(s, t)) <==> s.lock == Some(t)
  }

  ghost predicate Inv(s: State) {
    LockOk(s) && StoreOk(s) && HistoryOk(s) && forall t: nat :: ThreadOk(s, At(s, t))
  }

  // ----- the store -----

  lemma LastOfAppend(history: seq<Event>, e: Event, id: nat)
    ensures LastOf(history + [e], id) == if e.id == id then Some(e) else LastOf(history, id)
  {
    assert (history + [e])[..|history|] == history;
  }

  lemma AlternatesAppend(history: seq<Event>, e: Event)
    requires Alternates(history)
    requires var last := LastOf(history, e.id);
             if e.Commit? then last == None || last.value.Removal? else last.Some? && last.value.Commit?
    ensures Alternates(history + [e])
  {
    var longer := history + [e];
    forall i | 0 <= i < |longer|
      ensures var before := LastOf(longer[..i], longer[i].id);
              if longer[i].Commit? then before == None || before.value.Removal? else before.Some? && before.value.Commit?
    {
      assert longer[..i] == history[..i];
      if i == |history| {
        assert history[..i] == history;
      }
    }
  }

  lemma CurrentAppend(history: seq<Event>, e: Event, id: nat)
    ensures Current(history + [e], |history| + 1, id)
         == if e.id == id then if e.Commit? then Some(e) else None else Current(history, |history|, id)
  {
    assert (history + [e])[..|history| + 1] == history + [e] && history[..|history|] == history;
    LastOfAppend(history, e, id);
  }

  lemma CurrentStays(h: seq<Event>, h': seq<Event>, at: nat, id: nat)
    requires h <= h' && at <= |h|
    ensures Current(h', at, id) == Current(h, at, id)
  {
    assert h'[..at] == h[..at];
  }

  lemma NamesFollowCommit(names: map<nat, nat>, history: seq<Event>, e: Event, inode: nat)
    requires NamesFollow(names, history) && e.Commit?
    ensures NamesFollow(names[e.id := inode], history + [e])
  {
    forall x
      ensures x in names[e.id := inode] <==> (LastOf(history + [e], x).Some? && LastOf(history + [e], x).value.Commit?)
    {
      LastOfAppend(history, e, x);
    }
  }

  lemma NamesFollowRemoval(names: map<nat, nat>, history: seq<Event>, e: Event)
    requires NamesFollow(names, history) && e.Removal?
    ensures NamesFollow(names - {e.id}, history + [e])
  {
    forall x
      ensures x in names - {e.id} <==> (LastOf(history + [e], x).Some? && LastOf(history + [e], x).value.Commit?)
    {
      LastOfAppend(history, e, x);
    }
  }

  /** The turn of `id` follows from whether its name exists. */
  lemma TurnOf(names: map<nat, nat>, history: seq<Event>, id: nat)
    requires NamesFollow(names, history)
    ensures id in names ==> LastOf(history, id).Some? && LastOf(history, id).value.Commit?
    ensures id !in names ==> LastOf(history, id) == None || LastOf(history, id).value.Removal?
  {
  }

  /** The record of one id is untouched by an event of another. */
  lemma OtherStored(history: seq<Event>, e: Event, id: nat, content: seq<byte>)
    requires Stored(history, |history|, id, content) && e.id != id
    ensures Stored(history + [e], |history| + 1, id, content)
  {
    hide Record, KeyOk;
    CurrentAppend(history, e, id);
  }

  lemma JustStored(history: seq<Event>, e: Event)
    requires e.Commit? && KeyOk(e.attributes, e.data)
    ensures Stored(history + [e], |history| + 1, e.id, Record(e.attributes, e.data))
  {
    hide Record, KeyOk;
    CurrentAppend(history, e, e.id);
  }

  lemma PublishKeepsStore(s: State, id: nat, a: Attributes, data: seq<byte>, inode: nat)
    requires StoreOk(s) && HistoryOk(s) && KeyOk(a, data) && id !in s.names
    requires TempFile(s, inode) && s.inodes[inode] == Record(a, data)
    ensures StoreOk(Publish(s, id, a, data, inode)) && HistoryOk(Publish(s, id, a, data, inode))
  {
    hide Record, KeyOk, Stored, LastOf, Alternates, NamesFollow;
    var e := Commit(id, a, data);
    forall x | x in s.names ensures Stored(s.history + [e], |s.history| + 1, x, s.inodes[s.names[x]]) {
      OtherStored(s.history, e, x, s.inodes[s.names[x]]);
    }
    JustStored(s.history, e);
    TurnOf(s.names, s.history, id);
    AlternatesAppend(s.history, e);
    NamesFollowCommit(s.names, s.history, e, inode);
  }

  function Removed(s: State, id: nat): State {
    s.(names := s.names - {id}, history := s.history + [Removal(id)])
  }

  lemma RemovalKeepsStore(s: State, id: nat)
    requires StoreOk(s) && HistoryOk(s) && id in s.names
    ensures StoreOk(Removed(s, id)) && HistoryOk(Removed(s, id))
  {
    hide Stored, LastOf, Alternates, NamesFollow;
    var e := Removal(id);
    forall x | x in s.names && x != id ensures Stored(s.history + [e], |s.history| + 1, x, s.inodes[s.names[x]]) {
      OtherStored(s.history, e, x, s.inodes[s.names[x]]);
    }
    TurnOf(s.names, s.history, id);
    AlternatesAppend(s.history, e);
    NamesFollowRemoval(s.names, s.history, e);
  }

  // ----- the threads that do not move -----

  /** No step forgets an event or touches a file that ever carried a record name. */
  ghost predicate Grows(s: State, s': State) {
    && s.history <= s'.history
    && s.published <= s'.published
    && forall p :: p in s.published && p in s.inodes ==> p in s'.inodes && s'.inodes[p] == s.inodes[p]
  }

  /** A step of a thread without the lock creates no record and touches no file. */
  ghost predicate Quiet(s: State, s': State) {
    s'.names.Keys <= s.names.Keys && s'.published == s.published && s'.inodes == s.inodes
  }

  lemma EventsStay(s: State, s': State)
    requires s.history <= s'.history
    ensures forall e :: e in s.history ==> e in s'.history
  {
  }

  lemma OtherThread(s: State, s': State, th: Thread)
    requires ThreadOk(s, th) && Grows(s, s') && (HoldsLock(th) ==> Quiet(s, s'))
    ensures ThreadOk(s', th)
  {
    hide Record, KeyOk, Exportable, Current;
    EventsStay(s, s');
    match th
    case AtHeader(r, _) => CurrentStays(s.history, s'.history, r.at, r.id);
    case AtBody(r, _, _) => CurrentStays(s.history, s'.history, r.at, r.id);
    case Snapshot(r, _) => CurrentStays(s.history, s'.history, r.at, r.id);
    case Done(r, _) => CurrentStays(s.history, s'.history, r.at, r.id);
    case _ =>
  }

  /** What a step leaves alone. */
  ghost predicate Framed(s: State, s': State, t: nat) {
    && Grows(s, s')
    && (!HoldsLock(At(s, t)) ==> Quiet(s, s'))
    && forall u: nat :: u != t ==> At(s', u) == At(s, u)
  }

  lemma CallFrame(s: State, t: nat, act: Act)
    requires CallStep(s, t, act).Some?
    ensures var s' := CallStep(s, t, act).value;
            && Framed(s, s', t) && s'.lock == s.lock && !HoldsLock(At(s, t)) && !HoldsLock(At(s', t))
            && (s' == s.(threads := s'.threads) || (At(s, t).Destroying? && At(s, t).id in s.names
                && s' == Removed(s, At(s, t).id).(threads := s'.threads)))
  {
    hide KeyOk;
  }

  lemma ReadFrame(s: State, t: nat, act: Act)
    requires ReadStep(s, t, act).Some?
    ensures var s' := ReadStep(s, t, act).value;
            Framed(s, s', t) && !HoldsLock(At(s, t)) && !HoldsLock(At(s', t)) && s' == s.(threads := s'.threads)
  {
    hide Finish;
  }

  lemma ImportFrame(s: State, t: nat, act: Act)
    requires StoreOk(s) && ThreadOk(s, At(s, t)) && ImportStep(s, t, act).Some?
    ensures Framed(s, ImportStep(s, t, act).value, t)
  {
    hide Record, KeyOk, Stored;
  }

  lemma StepFrame(s: State, t: nat, act: Act)
    requires StoreOk(s) && ThreadOk(s, At(s, t)) && Next(s, t, act).Some?
    ensures Framed(s, Next(s, t, act).value, t)
  {
    hide CallStep, ReadStep, ImportStep, Framed, StoreOk, ThreadOk;
    if CallStep(s, t, act).Some? {
      CallFrame(s, t, act);
    } else if ReadStep(s, t, act).Some? {
      ReadFrame(s, t, act);
    } else {
      ImportFrame(s, t, act);
    }
  }

  // ----- the thread that moves -----

  /** A read of a stored record, or of the front of one, succeeds only with its import. */
  lemma ReadsStored(h: seq<Event>, r: Reader, buf: seq<byte>)
    requires r.since <= r.at && StoredFront(h, r.at, r.id, buf)
    ensures GoodResult(h, r, Finish(r.exporting, buf))
  {
    hide Record, Load, Deserialize, LastOf;
    var e := Current(h, r.at, r.id).value;
    var whole := Record(e.attributes, e.data);
    assert buf == whole[..|buf|];
    LoadOfPrefix(e.attributes, e.data, |buf|);
    LoadOfRecord(e.attributes, e.data);
    assert whole[..|whole|] == whole;
    if Finish(r.exporting, buf).status == Success {
      LoadIsDeserialized(buf);
    }
  }

  lemma LoadIsDeserialized(s: seq<byte>)
    ensures Load(s).status == Success ==> |s| >= HEADER_LENGTH && Deserialize(s) == Some(Load(s).attributes)
  {
  }

  lemma StoredIsFront(h: seq<Event>, at: nat, id: nat, content: seq<byte>, k: nat)
    requires Stored(h, at, id, content) && k <= |content|
    ensures StoredFront(h, at, id, content[..k])
  {
    hide Record, KeyOk;
  }

  lemma CallThread(s: State, t: nat, act: Act)
    requires CallStep(s, t, act).Some?
    ensures var s' := CallStep(s, t, act).value; ThreadOk(s', At(s', t))
  {
    hide Record, KeyOk;
  }

  lemma ReadThread(s: State, t: nat, act: Act)
    requires StoreOk(s) && HistoryOk(s) && ThreadOk(s, At(s, t)) && ReadStep(s, t, act).Some?
    ensures var s' := ReadStep(s, t, act).value; ThreadOk(s', At(s', t))
  {
    hide Finish, StoredFront, Alternates, LastOf, Record, KeyOk;
    assert s.history[..|s.history|] == s.history;
    var s' := ReadStep(s, t, act).value;
    match At(s, t)
    case AtBody(r, inode, header) =>
      var content := s.inodes[inode];
      assert header + content[HEADER_LENGTH..] == content == content[..|content|];
      StoredIsFront(s.history, r.at, r.id, content, |content|);
      ReadsStored(s.history, r, content);
    case Getting(r, size) =>
      if At(s', t).Snapshot? {
        StoredIsFront(s.history, |s.history|, r.id, s.inodes[s.names[r.id]], size);
      }
    case Snapshot(r, buf) =>
      ReadsStored(s.history, r, buf);
    case _ =>
  }

  lemma ImportThread(s: State, t: nat, act: Act)
    requires StoreOk(s) && ThreadOk(s, At(s, t)) && ImportStep(s, t, act).Some?
    ensures var s' := ImportStep(s, t, act).value; ThreadOk(s', At(s', t))
  {
    hide Record, KeyOk, Stored;
    match At(s, t)
    case Writing(id, a, data, inode) =>
      assert Record(a, data)[..|Record(a, data)|] == Record(a, data);
    case _ =>
  }

  lemma StepThread(s: State, t: nat, act: Act)
    requires StoreOk(s) && HistoryOk(s) && ThreadOk(s, At(s, t)) && Next(s, t, act).Some?
    ensures var s' := Next(s, t, act).value; ThreadOk(s', At(s', t))
  {
    hide CallStep, ReadStep, ImportStep, StoreOk, HistoryOk, ThreadOk;
    if CallStep(s, t, act).Some? {
      CallThread(s, t, act);
    } else if ReadStep(s, t, act).Some? {
      ReadThread(s, t, act);
    } else {
      ImportThread(s, t, act);
    }
  }

  // ----- one step -----

  lemma ImportKeepsStore(s: State, t: nat, act: Act)
    requires StoreOk(s) && HistoryOk(s) && ThreadOk(s, At(s, t)) && ImportStep(s, t, act).Some?
    ensures var s' := ImportStep(s, t, act).value; StoreOk(s') && HistoryOk(s')
  {
    hide Record, KeyOk, Stored, LastOf, Alternates, NamesFollow;
    match At(s, t)
    case Creating(id, a, data) =>
      if act.SetObject? && act.ok && act.inode !in s.inodes {
        PublishKeepsStore(s.(inodes := s.inodes[act.inode := Record(a, data)]), id, a, data, act.inode);
      }
    case Closing(id, a, data, inode, failed) =>
      if !failed && act.closed && act.renamed {
        PublishKeepsStore(s, id, a, data, inode);
      }
    case _ =>
  }

  lemma StepStore(s: State, t: nat, act: Act)
    requires StoreOk(s) && HistoryOk(s) && ThreadOk(s, At(s, t)) && Next(s, t, act).Some?
    ensures var s' := Next(s, t, act).value; StoreOk(s') && HistoryOk(s')
  {
    hide CallStep, ReadStep, ImportStep, ThreadOk, Stored, Alternates, NamesFollow, Framed;
    if CallStep(s, t, act).Some? {
      CallFrame(s, t, act);
      if At(s, t).Destroying? && At(s, t).id in s.names {
        RemovalKeepsStore(s, At(s, t).id);
      }
    } else if ReadStep(s, t, act).Some? {
      ReadFrame(s, t, act);
    } else {
      ImportKeepsStore(s, t, act);
    }
  }

  /** The lock is taken by a thread that starts holding it, and given up by its holder. */
  ghost predicate LockMoves(s: State, s': State, t: nat) {
    && (HoldsLock(At(s', t)) <==> s'.lock == Some(t))
    && (s'.lock == s.lock || s.lock == None || s.lock == Some(t))
    && (s'.lock == s.lock || s'.lock == None || s'.lock == Some(t))
  }

  lemma ImportLock(s: State, t: nat, act: Act)
    requires (HoldsLock(At(s, t)) <==> s.lock == Some(t)) && ImportStep(s, t, act).Some?
    ensures LockMoves(s, ImportStep(s, t, act).value, t)
  {
    hide Record;
  }

  lemma StepLock(s: State, t: nat, act: Act)
    requires LockOk(s) && StoreOk(s) && ThreadOk(s, At(s, t)) && Next(s, t, act).Some?
    ensures LockOk(Next(s, t, act).value)
  {
    hide CallStep, ReadStep, ImportStep, ThreadOk, StoreOk, HoldsLock, Grows, Quiet;
    var s' := Next(s, t, act).value;
    assert HoldsLock(At(s, t)) <==> s.lock == Some(t);
    StepFrame(s, t, act);
    if CallStep(s, t, act).Some? {
      CallFrame(s, t, act);
    } else if ReadStep(s, t, act).Some? {
      ReadFrame(s, t, act);
    } else {
      ImportLock(s, t, act);
    }
    assert LockMoves(s, s', t);
    forall u: nat ensures HoldsLock(At(s', u)) <==> s'.lock == Some(u) {
      assert HoldsLock(At(s, u)) <==> s.lock == Some(u);
    }
  }

  /** Every step of every thread keeps the invariant. */
  lemma StepKeepsInv(s: State, t: nat, act: Act)
    requires Inv(s) && Next(s, t, act).Some?
    ensures Inv(Next(s, t, act).value)
  {
    hide Next, StoreOk, HistoryOk, ThreadOk, Grows, Quiet;
    assert HoldsLock(At(s, t)) <==> s.lock == Some(t);
    var s' := Next(s, t, act).value;
    StepFrame(s, t, act);
    StepStore(s, t, act);
    StepLock(s, t, act);
    forall u: nat ensures ThreadOk(s', At(s', u)) {
      if u == t {
        StepThread(s, t, act);
      } else {
        assert HoldsLock(At(s, u)) <==> s.lock == Some(u);
        OtherThread(s, s', At(s, u));
      }
    }
  }

  lemma EmptyInv()
    ensures Inv(EMPTY)
  {
  }

  lemma {:induction false} RunKeepsInv(s: State, steps: seq<(nat, Act)>)
    requires Inv(s) && Exec(s, steps).Some?
    ensures Inv(Exec(s, steps).value)
    decreases |steps|
  {
    hide Inv, Next;
    if steps != [] {
      StepKeepsInv(s, steps[0].0, steps[0].1);
      RunKeepsInv(Next(s, steps[0].0, steps[0].1).value, steps[1..]);
    }
  }

  // ----- what follows for every run -----

  /** In every interleaving the commits and the removals of one id take turns, so between
      two successful imports of an id there is a successful destroy. */
  lemma CommitsAndRemovalsAlternate(steps: seq<(nat, Act)>, i: nat, j: nat)
    requires Exec(EMPTY, steps).Some?
    ensures var h := Exec(EMPTY, steps).value.history;
            && Alternates(h)
            && (i < j < |h| && h[i].Commit? && h[j].Commit? && h[i].id == h[j].id
                ==> exists k :: i < k < j && h[k] == Removal(h[i].id))
  {
    hide Exec, ThreadOk, StoreOk, LockOk, NamesFollow;
    EmptyInv();
    RunKeepsInv(EMPTY, steps);
    var h := Exec(EMPTY, steps).value.history;
    if i < j < |h| && h[i].Commit? && h[j].Commit? && h[i].id == h[j].id {
      var k := LastIndex(h[..j], h[i].id);
      assert h[..j][i] == h[i];
      LastOfIsLate(h[..j], i);
      assert h[..j][k] == h[k];
      assert LastOf(h[..j], h[j].id) == Some(h[k]) && h[k].Removal?;
      assert h[k] == Removal(h[i].id);
    }
  }

  lemma {:induction false} LastOfIsLate(h: seq<Event>, i: nat)
    requires i < |h|
    ensures LastOf(h, h[i].id).Some?
    ensures i <= LastIndex(h, h[i].id) < |h| && LastOf(h, h[i].id) == Some(h[LastIndex(h, h[i].id)])
  {
    if h[|h| - 1].id != h[i].id {
      LastOfIsLate(h[..|h| - 1], i);
    }
  }

  /** Where the last event of an id stands. */
  function LastIndex(h: seq<Event>, id: nat): nat {
    if |h| == 0 then 0 else if h[|h| - 1].id == id then |h| - 1 else LastIndex(h[..|h| - 1], id)
  }

  /** In every interleaving a read behaves as if it had happened at one moment between its
      begin and its end: when it succeeds it returns the attributes and the data of the
      import that was current at that moment, and when it finds no key there was none.
      An export succeeds with an exportable key only. */
  lemma ReadsReturnTheCurrentImport(steps: seq<(nat, Act)>, t: nat)
    requires Exec(EMPTY, steps).Some?
    ensures var s := Exec(EMPTY, steps).value;
            At(s, t).Done? ==> GoodResult(s.history, At(s, t).r, At(s, t).result)
  {
    hide Exec, StoreOk, LockOk, HistoryOk;
    EmptyInv();
    RunKeepsInv(EMPTY, steps);
    assert ThreadOk(Exec(EMPTY, steps).value, At(Exec(EMPTY, steps).value, t));
  }

  /** A record name is taken exactly from a commit of its id to the next removal, and an
      import that reported success did commit its key. */
  lemma ImportsCommit(steps: seq<(nat, Act)>, t: nat)
    requires Exec(EMPTY, steps).Some?
    ensures var s := Exec(EMPTY, steps).value;
            && NamesFollow(s.names, s.history)
            && (At(s, t).Imported? && At(s, t).status == Success
                ==> Commit(At(s, t).id, At(s, t).attributes, At(s, t).data) in s.history)
  {
    hide Exec, StoreOk, LockOk;
    EmptyInv();
    RunKeepsInv(EMPTY, steps);
    assert ThreadOk(Exec(EMPTY, steps).value, At(Exec(EMPTY, steps).value, t));
  }

  /** In every run the one step of a destroy fails when the removal does, finds no key
      exactly when the last event of its id is no commit, and otherwise takes the record
      name away and nothing else; without success nothing changes at all. */
  lemma DestroyOfRuns(steps: seq<(nat, Act)>, t: nat, io: bool)
    requires Exec(EMPTY, steps).Some? && At(Exec(EMPTY, steps).value, t).Destroying?
    ensures var s := Exec(EMPTY, steps).value;
            var id, last, end := At(s, t).id, LastOf(s.history, At(s, t).id), Next(s, t, Remove(io));
            && end.Some?
            && At(end.value, t) == Destroyed(id, if io then StorageFailure
                                                 else if last.Some? && last.value.Commit? then Success
                                                 else InvalidHandle)
            && (At(end.value, t).status == Success ==>
                  && id !in end.value.names && end.value.history == s.history + [Removal(id)]
                  && (forall other :: other != id ==> (other in end.value.names <==> other in s.names))
                  && (forall other :: other != id && other in s.names ==> end.value.names[other] == s.names[other]))
            && (At(end.value, t).status != Success ==> end.value.names == s.names && end.value.history == s.history)
            && end.value.inodes == s.inodes && end.value.lock == s.lock
            && (forall u: nat :: u != t ==> At(end.value, u) == At(s, u))
  {
    hide Exec, ThreadOk, StoreOk, LockOk, LastOf;
    EmptyInv();
    RunKeepsInv(EMPTY, steps);
    TurnOf(Exec(EMPTY, steps).value.names, Exec(EMPTY, steps).value.history, At(Exec(EMPTY, steps).value, t).id);
  }

  /** A destroy that reported success removed its key, the null id apart. */
  lemma DestroysRemove(steps: seq<(nat, Act)>, t: nat)
    requires Exec(EMPTY, steps).Some?
    ensures var s := Exec(EMPTY, steps).value;
            At(s, t).Destroyed? && At(s, t).status == Success && At(s, t).id != 0 ==> Removal(At(s, t).id) in s.history
  {
    hide Exec, StoreOk, LockOk, HistoryOk;
    EmptyInv();
    RunKeepsInv(EMPTY, steps);
    assert ThreadOk(Exec(EMPTY, steps).value, At(Exec(EMPTY, steps).value, t));
  }

  /** In every run the body step of a read succeeds, with the attributes and the data of
      the import that was current when the file was opened; an export of a key without the
      export flag is refused instead. */
  lemma ReadsSucceed(steps: seq<(nat, Act)>, t: nat)
    requires Exec(EMPTY, steps).Some? && At(Exec(EMPTY, steps).value, t).AtBody?
    ensures var s := Exec(EMPTY, steps).value;
            var r := At(s, t).r;
            && r.at <= |s.history| && Current(s.history, r.at, r.id).Some?
            && var e := Current(s.history, r.at, r.id).value;
               && ReadStep(s, t, ReadBody).Some?
               && At(ReadStep(s, t, ReadBody).value, t)
                  == Done(r, if r.exporting && e.attributes.usage % 2 == 0 then Loaded(NotPermitted, NOTHING, [])
                             else Loaded(Success, e.attributes, e.data))
  {
    hide Exec, StoreOk, LockOk, HistoryOk, LastOf, Load, Deserialize, Record;
    EmptyInv();
    RunKeepsInv(EMPTY, steps);
    var s := Exec(EMPTY, steps).value;
    assert ThreadOk(s, At(s, t));
    var r, content := At(s, t).r, s.inodes[At(s, t).inode];
    var e := Current(s.history, r.at, r.id).value;
    assert content[..HEADER_LENGTH] + content[HEADER_LENGTH..] == content;
    LoadOfRecord(e.attributes, e.data);
    LoadIsDeserialized(content);
  }

  /** Every import that the record format and the length check can take may begin. */
  lemma ImportsBegin(s: State, t: nat, id: nat, a: Attributes, data: seq<byte>)
    requires At(s, t) == Idle
    ensures Next(s, t, BeginImport(id, a, data)).Some? <==>
              && id != 0 && 1 <= |data| <= 0x7FFF_FFFF && a.alg2 == 0
              && a.keyType <= 0xFFFF && a.bits <= 0xFFFF && a.usage <= 0xFFFF_FFFF
              && a.alg <= 0xFFFF_FFFF && a.lifetime <= 0xFFFF_FFFF
  {
  }

  /** A step commits a key exactly when it makes its thread report success, and removes
      one exactly when it makes its thread report a successful destroy. */
  lemma EventsAreSuccesses(s: State, t: nat, act: Act)
    requires Next(s, t, act).Some?
    ensures var s', th, th' := Next(s, t, act).value, At(s, t), At(Next(s, t, act).value, t);
            s'.history == s.history
            + (if !th.Unlocking? && th'.Unlocking? && th'.status == Success then [Commit(th'.id, th'.attributes, th'.data)]
               else if th.Destroying? && th'.Destroyed? && th'.status == Success then [Removal(th'.id)]
               else [])
  {
    hide CallStep, ReadStep, ImportStep;
    if CallStep(s, t, act).Some? {
      CallEvents(s, t, act);
    } else if ReadStep(s, t, act).Some? {
      ReadFrame(s, t, act);
      ReadThreads(s, t, act);
    } else {
      ImportEvents(s, t, act);
    }
  }

  lemma CallEvents(s: State, t: nat, act: Act)
    requires CallStep(s, t, act).Some?
    ensures var s', th, th' := CallStep(s, t, act).value, At(s, t), At(CallStep(s, t, act).value, t);
            && !th'.Unlocking?
            && (th.Destroying? ==> th'.Destroyed?)
            && s'.history == s.history + (if th.Destroying? && th'.status == Success then [Removal(th'.id)] else [])
  {
    hide KeyOk;
  }

  lemma ReadThreads(s: State, t: nat, act: Act)
    requires ReadStep(s, t, act).Some?
    ensures !At(ReadStep(s, t, act).value, t).Unlocking? && !At(s, t).Destroying?
  {
    hide Finish;
  }

  lemma ImportEvents(s: State, t: nat, act: Act)
    requires ImportStep(s, t, act).Some?
    ensures var s', th, th' := ImportStep(s, t, act).value, At(s, t), At(ImportStep(s, t, act).value, t);
            && !th.Destroying?
            && s'.history == s.history
               + (if !th.Unlocking? && th'.Unlocking? && th'.status == Success
                  then [Commit(th'.id, th'.attributes, th'.data)] else [])
  {
    hide Record;
  }
}
