/** The record store over whole runs: what any sequence of mutations keeps, what concurrent
    readers can rely on, and what survives a crash. */
module StoreRuns {
  import opened Bytes
  import opened Messages
  import opened Zone

  datatype Op = PutOp(name: bytes, rec: Record) | RemoveOp(name: bytes, rtype: u16)

  function Apply(st: State, op: Op): State {
    match op
    case PutOp(name, rec) => Put(st, name, rec)
    case RemoveOp(name, rtype) => Remove(st, name, rtype)
  }

  function Replay(st: State, ops: seq<Op>): State
    decreases |ops|
  {
    if ops == [] then st else Replay(Apply(st, ops[0]), ops[1..])
  }

  // ----- The plain map a store implements -----

  type Book = map<(bytes, u16), Record>

  predicate Struck(k: (bytes, u16), name: bytes, rtype: u16) {
    k.0 == Lower(name) && (rtype == 0 || k.1 == rtype)
  }

  function BookApply(b: Book, op: Op): Book {
    match op
    case PutOp(name, rec) => if ValidOwner(Lower(name)) then b[(Lower(name), rec.rtype) := rec] else b
    case RemoveOp(name, rtype) => map k | k in b && !Struck(k, name, rtype) :: b[k]
  }

  /** A put counts whenever its owner is valid; a removal counts when something was there. */
  predicate Counts(b: Book, op: Op) {
    match op
    case PutOp(name, _) => ValidOwner(Lower(name))
    case RemoveOp(name, rtype) => exists k :: k in b && Struck(k, name, rtype)
  }

  function BookReplay(b: Book, ops: seq<Op>): Book
    decreases |ops|
  {
    if ops == [] then b else BookReplay(BookApply(b, ops[0]), ops[1..])
  }

  function Mutations(b: Book, ops: seq<Op>): nat
    decreases |ops|
  {
    if ops == [] then 0 else (if Counts(b, ops[0]) then 1 else 0) + Mutations(BookApply(b, ops[0]), ops[1..])
  }

  // ----- One name's records -----

  function Find(recs: seq<Record>, rtype: u16): (r: Option<Record>)
    ensures r.Some? ==> r.value in recs && r.value.rtype == rtype
    ensures r.None? ==> forall i :: 0 <= i < |recs| ==> recs[i].rtype != rtype
  {
    if recs == [] then None
    else if recs[0].rtype == rtype then Some(recs[0])
    else Find(recs[1..], rtype)
  }

  predicate OnePerType(recs: seq<Record>) {
    forall i, j :: 0 <= i < j < |recs| ==> recs[i].rtype != recs[j].rtype
  }

  lemma {:induction false} OthersFind(recs: seq<Record>, rtype: u16, t: u16)
    ensures Find(Others(recs, rtype), t) == if t == rtype then None else Find(recs, t)
  {
    if recs != [] {
      OthersFind(recs[1..], rtype, t);
      var tail := Others(recs[1..], rtype);
      if recs[0].rtype != rtype {
        assert ([recs[0]] + tail)[1..] == tail;
      } else {
        assert [] + tail == tail;
      }
    }
  }

  lemma {:induction false} OthersMembers(recs: seq<Record>, rtype: u16)
    ensures forall r :: r in Others(recs, rtype) ==> r in recs && r.rtype != rtype
    ensures |Others(recs, rtype)| <= |recs|
    ensures |Others(recs, rtype)| == |recs| <==> Find(recs, rtype).None?
  {
    if recs != [] {
      OthersMembers(recs[1..], rtype);
      var tail := Others(recs[1..], rtype);
      assert Others(recs, rtype) == (if recs[0].rtype != rtype then [recs[0]] + tail else tail);
    }
  }

  lemma {:induction false} OthersOnePerType(recs: seq<Record>, rtype: u16)
    requires OnePerType(recs)
    ensures OnePerType(Others(recs, rtype))
  {
    hide Find;
    if recs != [] {
      OthersOnePerType(recs[1..], rtype);
      OthersMembers(recs[1..], rtype);
      var tail := Others(recs[1..], rtype);
      assert Others(recs, rtype) == (if recs[0].rtype != rtype then [recs[0]] + tail else tail);
      forall i | 0 <= i < |tail| ensures tail[i].rtype != recs[0].rtype {
        assert tail[i] in recs[1..];
      }
    }
  }

  /** The records without the `k`-th. */
  function Without(recs: seq<Record>, k: nat): seq<Record>
    requires k < |recs|
  {
    recs[..k] + recs[k + 1..]
  }

  lemma {:induction false} OthersKeepsAll(recs: seq<Record>, rtype: u16)
    requires forall i :: 0 <= i < |recs| ==> recs[i].rtype != rtype
    ensures Others(recs, rtype) == recs
  {
    if recs != [] {
      OthersKeepsAll(recs[1..], rtype);
      assert recs == [recs[0]] + recs[1..];
    }
  }

  lemma {:induction false} OthersDropsOne(recs: seq<Record>, k: nat)
    requires OnePerType(recs) && k < |recs|
    ensures Others(recs, recs[k].rtype) == Without(recs, k)
  {
    if k == 0 {
      OthersKeepsAll(recs[1..], recs[0].rtype);
    } else {
      OthersDropsOne(recs[1..], k - 1);
      assert recs[0].rtype != recs[k].rtype;
      assert Without(recs, k) == [recs[0]] + Without(recs[1..], k - 1);
    }
  }

  /** The order of a name's records: a set puts its record last, taking out the one of its type; a
      typed delete takes out one and leaves the rest where they were. */
  lemma OrderKept(st: State, name: bytes, rec: Record, k: nat)
    requires StoreOk(st) && ValidOwner(Lower(name))
    ensures var recs := Stored(st, name);
            && (Find(recs, rec.rtype).None? ==> Stored(Put(st, name, rec), name) == recs + [rec])
            && (k < |recs| && recs[k].rtype == rec.rtype ==>
                  Stored(Put(st, name, rec), name) == Without(recs, k) + [rec])
            && (k < |recs| && recs[k].rtype != 0 ==>
                  Stored(Remove(st, name, recs[k].rtype), name) == Without(recs, k))
  {
    hide ValidOwner, Find;
    var recs := Stored(st, name);
    assert OnePerType(recs);
    if Find(recs, rec.rtype).None? {
      OthersKeepsAll(recs, rec.rtype);
    }
    if k < |recs| {
      OthersDropsOne(recs, k);
    }
  }

  lemma SnocOnePerType(recs: seq<Record>, r: Record)
    requires OnePerType(recs) && Find(recs, r.rtype).None?
    ensures OnePerType(recs + [r])
  {
  }

  lemma {:induction false} FindSnoc(recs: seq<Record>, r: Record, t: u16)
    requires Find(recs, r.rtype).None?
    ensures Find(recs + [r], t) == if t == r.rtype then Some(r) else Find(recs, t)
  {
    if recs == [] {
      assert recs + [r] == [r] && [r][1..] == [];
    } else {
      FindSnoc(recs[1..], r, t);
      assert (recs + [r])[1..] == recs[1..] + [r];
    }
  }

  // ----- Refinement -----

  function RecordsAt(st: State, key: bytes): seq<Record> { if key in st.records then st.records[key] else [] }

  /** Owners are valid (so lowercase), and each holds at least one record and at most one per type. */
  predicate StoreOk(st: State) {
    forall name :: name in st.records ==>
      ValidOwner(name) && st.records[name] != [] && OnePerType(st.records[name])
  }

  function BookFind(b: Book, name: bytes, rtype: u16): Option<Record> {
    if (name, rtype) in b then Some(b[(name, rtype)]) else None
  }

  ghost predicate Agrees(st: State, b: Book) {
    forall name, rtype :: BookFind(b, name, rtype) == Find(RecordsAt(st, name), rtype)
  }

  lemma PutKeepsOk(st: State, name: bytes, rec: Record)
    requires StoreOk(st)
    ensures StoreOk(Put(st, name, rec))
  {
    var recs := RecordsAt(st, Lower(name));
    assert OnePerType(recs);
    OthersOnePerType(recs, rec.rtype);
    OthersFind(recs, rec.rtype, rec.rtype);
    SnocOnePerType(Others(recs, rec.rtype), rec);
  }

  lemma RemoveKeepsOk(st: State, name: bytes, rtype: u16)
    requires StoreOk(st)
    ensures StoreOk(Remove(st, name, rtype))
  {
    var recs := RecordsAt(st, Lower(name));
    assert OnePerType(recs);
    OthersOnePerType(recs, rtype);
  }

  lemma PutRefines(st: State, b: Book, name: bytes, rec: Record)
    requires StoreOk(st) && Agrees(st, b) && ValidOwner(Lower(name))
    ensures StoreOk(Put(st, name, rec)) && Agrees(Put(st, name, rec), BookApply(b, PutOp(name, rec)))
  {
    hide ValidOwner, OnePerType, Others;
    var key := Lower(name);
    var recs := RecordsAt(st, key);
    var others := Others(recs, rec.rtype);
    PutKeepsOk(st, name, rec);
    OthersFind(recs, rec.rtype, rec.rtype);
    var st', b' := Put(st, name, rec), BookApply(b, PutOp(name, rec));
    assert RecordsAt(st', key) == others + [rec];
    forall n: bytes, t: u16 ensures BookFind(b', n, t) == Find(RecordsAt(st', n), t) {
      assert BookFind(b, n, t) == Find(RecordsAt(st, n), t);
      OthersFind(recs, rec.rtype, t);
      FindSnoc(others, rec, t);
    }
  }

  lemma RemoveRefines(st: State, b: Book, name: bytes, rtype: u16)
    requires StoreOk(st) && Agrees(st, b)
    ensures StoreOk(Remove(st, name, rtype))
    ensures Agrees(Remove(st, name, rtype), BookApply(b, RemoveOp(name, rtype)))
    ensures Removes(st, name, rtype) <==> Counts(b, RemoveOp(name, rtype))
  {
    RemovalCounts(st, b, name, rtype);
    if Removes(st, name, rtype) {
      RemovalRefines(st, b, name, rtype);
    } else {
      assert BookApply(b, RemoveOp(name, rtype)) == b;
    }
  }

  lemma RemovalRefines(st: State, b: Book, name: bytes, rtype: u16)
    requires StoreOk(st) && Agrees(st, b) && Removes(st, name, rtype)
    ensures StoreOk(Remove(st, name, rtype))
    ensures Agrees(Remove(st, name, rtype), BookApply(b, RemoveOp(name, rtype)))
  {
    hide ValidOwner, OnePerType, Others;
    var key := Lower(name);
    var recs := RecordsAt(st, key);
    RemoveKeepsOk(st, name, rtype);
    var st', b' := Remove(st, name, rtype), BookApply(b, RemoveOp(name, rtype));
    assert RecordsAt(st', key) == Kept(recs, rtype);
    forall n: bytes, t: u16 ensures BookFind(b', n, t) == Find(RecordsAt(st', n), t) {
      assert BookFind(b, n, t) == Find(RecordsAt(st, n), t);
      OthersFind(recs, rtype, t);
    }
  }

  lemma RemovalCounts(st: State, b: Book, name: bytes, rtype: u16)
    requires StoreOk(st) && Agrees(st, b)
    ensures Removes(st, name, rtype) <==> Counts(b, RemoveOp(name, rtype))
  {
    hide Others, OnePerType;
    var key := Lower(name);
    var recs := RecordsAt(st, key);
    OthersMembers(recs, rtype);
    if Removes(st, name, rtype) {
      var t := if rtype == 0 then recs[0].rtype else rtype;
      assert BookFind(b, key, t) == Find(recs, t);
      assert (key, t) in b && Struck((key, t), name, rtype);
    }
    if Counts(b, RemoveOp(name, rtype)) {
      var k :| k in b && Struck(k, name, rtype);
      assert BookFind(b, key, k.1) == Find(recs, k.1);
    }
  }

  lemma StepRefines(st: State, b: Book, op: Op)
    requires StoreOk(st) && Agrees(st, b)
    ensures StoreOk(Apply(st, op)) && Agrees(Apply(st, op), BookApply(b, op))
    ensures Apply(st, op).serial == if Counts(b, op) then Bump(st.serial) else st.serial
    ensures !Counts(b, op) ==> Apply(st, op) == st
  {
    match op
    case PutOp(name, rec) =>
      if ValidOwner(Lower(name)) {
        PutRefines(st, b, name, rec);
      }
    case RemoveOp(name, rtype) => RemoveRefines(st, b, name, rtype);
  }

  lemma {:induction false} ReplayRefines(st: State, b: Book, ops: seq<Op>)
    requires StoreOk(st) && Agrees(st, b)
    ensures StoreOk(Replay(st, ops)) && Agrees(Replay(st, ops), BookReplay(b, ops))
    ensures Replay(st, ops).serial == (st.serial + Mutations(b, ops)) % 0x1_0000_0000
    ensures Mutations(b, ops) == 0 ==> Replay(st, ops) == st
    decreases |ops|
  {
    hide StoreOk, Agrees, Counts, BookApply, Apply, Bump;
    if ops != [] {
      StepRefines(st, b, ops[0]);
      ReplayRefines(Apply(st, ops[0]), BookApply(b, ops[0]), ops[1..]);
      BumpAdds(st.serial, Mutations(BookApply(b, ops[0]), ops[1..]));
    }
  }

  lemma BumpAdds(serial: u32, n: nat)
    ensures (Bump(serial) + n) % 0x1_0000_0000 == (serial + (1 + n)) % 0x1_0000_0000
  {
  }

  /** Over any run from an empty store: every owner stays valid and every list non-empty with one
      record per type, the contents are those of a plain map keyed by owner and type, and the
      serial is one more than the number of effective mutations, modulo 2^32. */
  lemma StoreRefinesBook(ops: seq<Op>)
    ensures StoreOk(Replay(EMPTY, ops)) && Agrees(Replay(EMPTY, ops), BookReplay(map[], ops))
    ensures Replay(EMPTY, ops).serial == (1 + Mutations(map[], ops)) % 0x1_0000_0000
  {
    ReplayRefines(EMPTY, map[], ops);
  }

  /** A look-up in any letter case finds, for every type, the record last set and not since deleted. */
  lemma LookupIsBook(ops: seq<Op>, name: bytes, rtype: u16)
    ensures Find(Stored(Replay(EMPTY, ops), name), rtype) == BookFind(BookReplay(map[], ops), Lower(name), rtype)
  {
    hide Replay, BookReplay, StoreOk, BookFind, Find;
    StoreRefinesBook(ops);
    assert RecordsAt(Replay(EMPTY, ops), Lower(name)) == Stored(Replay(EMPTY, ops), name);
  }

  // ----- Serials seen by interleaved readers -----

  /** Serial arithmetic, section 3.2 of RFC 1982. */
  predicate SerialBefore(a: u32, b: u32) {
    || (a < b && b - a < 0x8000_0000)
    || (a > b && a - b > 0x8000_0000)
  }

  /** Before means: fewer than 2^31 increments away. */
  lemma SerialExact(a: u32, b: u32)
    ensures SerialBefore(a, b) <==> exists n :: SerialSteps(a, b, n)
  {
    if SerialBefore(a, b) {
      assert SerialSteps(a, b, if a < b then b - a else b - a + 0x1_0000_0000);
    }
  }

  predicate SerialSteps(a: u32, b: u32, n: int) { 0 < n < 0x8000_0000 && b == (a + n) % 0x1_0000_0000 }

  lemma {:induction false} ReplayConcat(st: State, xs: seq<Op>, ys: seq<Op>)
    ensures Replay(st, xs + ys) == Replay(Replay(st, xs), ys)
    decreases |xs|
  {
    if xs == [] {
      assert xs + ys == ys;
    } else {
      assert (xs + ys)[0] == xs[0] && (xs + ys)[1..] == xs[1..] + ys;
      ReplayConcat(Apply(st, xs[0]), xs[1..], ys);
    }
  }

  /** The locked operations of all clients fall in one order, `earlier + between`. A client that
      saw the serial after `earlier` (its own Set, say) and reads it again after the others'
      `between` never sees it go back in RFC 1982 order, and an unchanged serial means unchanged
      records, as long as fewer than 2^31 mutations happened in between. */
  lemma LaterReadersSeeNoLess(earlier: seq<Op>, between: seq<Op>)
    requires Mutations(BookReplay(map[], earlier), between) < 0x8000_0000
    ensures var before, after := Replay(EMPTY, earlier), Replay(EMPTY, earlier + between);
            && (before.serial == after.serial || SerialBefore(before.serial, after.serial))
            && (before.serial == after.serial ==> before == after)
  {
    hide StoreOk, Agrees, Mutations, BookReplay, Replay;
    StoreRefinesBook(earlier);
    ReplayConcat(EMPTY, earlier, between);
    ReplayRefines(Replay(EMPTY, earlier), BookReplay(map[], earlier), between);
  }

  // ----- Crashes -----

  /** The process holding the store: between calls, in the middle of a save, or gone. */
  datatype Process = Down | Idle(mem: State) | Saving(mem: State) | Saved(mem: State)

  datatype World = World(disk: Disk, process: Process)

  /** One atomic step: a mutation takes effect in memory and starts a save; the temporary file is
      written, or the write fails half way; the rename happens, or fails; the process dies at any
      point, perhaps tearing the temporary file; a new process loads the state file. */
  ghost predicate Step(w: World, w': World) {
    || Mutates(w, w')
    || Writes(w, w')
    || Renames(w, w')
    || Crashes(w, w')
    || Restarts(w, w')
  }

  ghost predicate Mutates(w: World, w': World) {
    && w.process.Idle? && w'.disk == w.disk
    && exists op :: Became(w.process.mem, op, w'.process)
  }

  predicate Became(mem: State, op: Op, p: Process) {
    p == if Apply(mem, op) == mem then Idle(mem) else Saving(Apply(mem, op))
  }

  predicate Writes(w: World, w': World) {
    && w.process.Saving?
    && var mem := w.process.mem;
       match SnapshotOf(mem)
       case None => w' == World(w.disk, Idle(mem))
       case Some(snap) =>
         || w' == World(w.disk.(temp := Complete(snap)), Saved(mem))
         || w' == World(w.disk.(temp := Torn), Idle(mem))
  }

  predicate Renames(w: World, w': World) {
    && w.process.Saved?
    && (w' == World(Disk(w.disk.temp, Absent), Idle(w.process.mem)) || w' == World(w.disk, Idle(w.process.mem)))
  }

  predicate Crashes(w: World, w': World) {
    && w'.process.Down? && w'.disk.file == w.disk.file
    && (w'.disk.temp == w.disk.temp || (w.process.Saving? && w'.disk.temp == Torn))
  }

  predicate Restarts(w: World, w': World) {
    && w.process.Down? && w'.disk == w.disk
    && Load(w.disk.file, EMPTY).Some? && w'.process == Idle(Load(w.disk.file, EMPTY).value)
  }

  ghost predicate IsRun(run: seq<World>) {
    && run != [] && !run[0].process.Saved?
    && forall i :: 0 <= i < |run| - 1 ==> Step(run[i], run[i + 1])
  }

  /** The step in which a save reaches the state file. */
  predicate Completes(w: World, w': World) {
    w.process.Saved? && w' == World(Disk(w.disk.temp, Absent), Idle(w.process.mem))
  }

  /** Of the steps before `i`, the one from `j` on was the last to complete a save. */
  predicate LastSave(run: seq<World>, i: nat, j: nat)
    requires j < i < |run|
  {
    Completes(run[j], run[j + 1]) && forall k :: j < k < i ==> !Completes(run[k], run[k + 1])
  }

  predicate NoSave(run: seq<World>, i: nat)
    requires i < |run|
  {
    forall k :: 0 <= k < i ==> !Completes(run[k], run[k + 1])
  }

  /** The state file at step `i` holds a complete snapshot of what the store held at step `j`. */
  predicate FileFrom(run: seq<World>, i: nat, j: nat)
    requires i < |run| && j < |run|
  {
    && !run[j].process.Down?
    && SnapshotOf(run[j].process.mem).Some?
    && run[i].disk.file == Complete(SnapshotOf(run[j].process.mem).value)
  }

  /** While a save waits for its rename, the temporary file is complete. */
  lemma {:induction false} TempComplete(run: seq<World>, i: nat)
    requires IsRun(run) && i < |run|
    ensures run[i].process.Saved? ==>
              SnapshotOf(run[i].process.mem).Some? &&
              run[i].disk.temp == Complete(SnapshotOf(run[i].process.mem).value)
  {
    hide SnapshotOf, Apply, Load;
    if i > 0 {
      TempComplete(run, i - 1);
      assert Step(run[i - 1], run[i]);
    }
  }

  lemma OnlySavesChangeFile(w: World, w': World)
    requires Step(w, w') && !Completes(w, w')
    ensures w'.disk.file == w.disk.file
  {
    hide SnapshotOf, Load, Became;
  }

  /** At every step of every run, however writes and renames fail and whenever the process dies,
      the state file is a complete snapshot of what the store held when it last completed a save,
      or still the file the run began with if no save was completed. */
  lemma {:induction false} FileAlwaysWhole(run: seq<World>, i: nat)
    requires IsRun(run) && i < |run|
    ensures || (NoSave(run, i) && run[i].disk.file == run[0].disk.file)
            || exists j :: 0 <= j < i && LastSave(run, i, j) && FileFrom(run, i, j)
  {
    hide SnapshotOf, Apply, Load, Step, Completes;
    if i > 0 {
      FileAlwaysWhole(run, i - 1);
      assert Step(run[i - 1], run[i - 1 + 1]);
      if Completes(run[i - 1], run[i - 1 + 1]) {
        TempComplete(run, i - 1);
        SaveLands(run[i - 1], run[i]);
        assert LastSave(run, i, i - 1) && FileFrom(run, i, i - 1);
      } else {
        OnlySavesChangeFile(run[i - 1], run[i]);
        if !NoSave(run, i - 1) {
          var j :| 0 <= j < i - 1 && LastSave(run, i - 1, j) && FileFrom(run, i - 1, j);
          assert LastSave(run, i, j) && FileFrom(run, i, j);
        }
      }
    }
  }

  lemma SaveLands(w: World, w': World)
    requires Completes(w, w')
    ensures w.process.Saved? && w'.disk.file == w.disk.temp
  {
  }

  // ----- Restarts -----

  /** A mutation that stores nothing JSON would change. */
  predicate CleanOp(op: Op) { op.PutOp? ==> Clean(op.rec) }

  lemma StepKeepsClean(st: State, op: Op)
    requires StateClean(st) && CleanOp(op)
    ensures StateClean(Apply(st, op))
  {
    hide Clean, ValidOwner, Others;
    var recs := Stored(st, op.name);
    var rtype := if op.PutOp? then op.rec.rtype else op.rtype;
    assert AllClean(recs);
    OthersMembers(recs, rtype);
    forall i | 0 <= i < |Others(recs, rtype)| ensures Clean(Others(recs, rtype)[i]) {
      assert Others(recs, rtype)[i] in recs;
    }
  }

  predicate CleanOps(ops: seq<Op>) { forall i :: 0 <= i < |ops| ==> CleanOp(ops[i]) }

  lemma {:induction false} RunsStayClean(st: State, ops: seq<Op>)
    requires StateClean(st) && CleanOps(ops)
    ensures StateClean(Replay(st, ops))
    decreases |ops|
  {
    hide CleanOp, StateClean, Apply;
    if ops != [] {
      StepKeepsClean(st, ops[0]);
      RunsStayClean(Apply(st, ops[0]), ops[1..]);
    }
  }

  /** A state as a fresh store loads it back: a serial that had wrapped to zero becomes one. */
  function Reloaded(st: State): State { st.(serial := if st.serial == 0 then 1 else st.serial) }

  /** Every state clean updates reach can be saved, and loads back into a fresh store. */
  lemma RunsSaveAndLoad(ops: seq<Op>)
    requires CleanOps(ops)
    ensures var st := Replay(EMPTY, ops);
            SnapshotOf(st).Some? && Load(Complete(SnapshotOf(st).value), EMPTY) == Some(Reloaded(st))
  {
    RunsStayClean(EMPTY, ops);
    SnapshotRestores(Replay(EMPTY, ops), EMPTY);
  }

  /** The state file a fresh store loads as `st`: none for the empty store, or a snapshot. */
  predicate FileHolds(file: File, st: State) {
    || (file.Absent? && st == EMPTY)
    || (SnapshotOf(st).Some? && file == Complete(SnapshotOf(st).value))
  }

  lemma LoadHolds(file: File, st: State)
    requires FileHolds(file, st) && StateClean(st)
    ensures Load(file, EMPTY) == Some(Reloaded(st))
  {
    hide StateClean, SnapshotOf;
    if !file.Absent? {
      SnapshotRestores(st, EMPTY);
    }
  }

  /** A run whose every mutation is clean, from the state file of a clean state. */
  ghost predicate IsCleanRun(run: seq<World>, first: State) {
    && IsRun(run) && run[0].process.Down? && FileHolds(run[0].disk.file, first) && StateClean(first)
    && forall i :: 0 <= i < |run| - 1 ==> CleanStep(run[i], run[i + 1])
  }

  /** Nothing but a clean mutation, or a crash, leads out of an idle process. */
  ghost predicate CleanStep(w: World, w': World) {
    w.process.Idle? && !w'.process.Down? ==> exists op :: CleanOp(op) && Became(w.process.mem, op, w'.process)
  }

  /** What the state file would load as at step `i`: the state of the last completed save, or the
      first one. */
  ghost predicate FileIs(run: seq<World>, i: nat, first: State, st: State)
    requires i < |run|
  {
    || (NoSave(run, i) && st == first)
    || exists j :: 0 <= j < i && LastSave(run, i, j) && !run[j].process.Down? && run[j].process.mem == st
  }

  ghost predicate HeldClean(run: seq<World>, i: nat)
    requires i < |run|
  {
    forall k :: 0 <= k <= i && !run[k].process.Down? ==> StateClean(run[k].process.mem)
  }

  lemma LoadAtStep(run: seq<World>, i: nat, first: State) returns (st: State)
    requires IsCleanRun(run, first) && i < |run| && HeldClean(run, i)
    ensures FileIs(run, i, first, st) && Load(run[i].disk.file, EMPTY) == Some(Reloaded(st)) && StateClean(st)
  {
    hide SnapshotOf, Load, StateClean, NoSave, LastSave, Step, CleanStep;
    FileAlwaysWhole(run, i);
    if NoSave(run, i) && run[i].disk.file == run[0].disk.file {
      st := first;
    } else {
      var j :| 0 <= j < i && LastSave(run, i, j) && FileFrom(run, i, j);
      st := run[j].process.mem;
    }
    LoadHolds(run[i].disk.file, st);
  }

  lemma StepHoldsClean(w: World, w': World)
    requires Step(w, w') && CleanStep(w, w') && !w'.process.Down?
    requires !w.process.Down? && StateClean(w.process.mem)
    ensures StateClean(w'.process.mem)
  {
    hide SnapshotOf, Load, StateClean, Clean, Apply;
    if w.process.Idle? {
      var op :| CleanOp(op) && Became(w.process.mem, op, w'.process);
      StepKeepsClean(w.process.mem, op);
    }
  }

  lemma OnlyRestartsRevive(w: World, w': World)
    requires Step(w, w') && w.process.Down? && !w'.process.Down?
    ensures Restarts(w, w')
  {
    hide SnapshotOf, Load, Became;
  }

  lemma ReloadedClean(st: State)
    ensures StateClean(Reloaded(st)) <==> StateClean(st)
  {
  }

  /** Every state such a run ever holds is clean. */
  lemma {:induction false} CleanRunsHoldClean(run: seq<World>, i: nat, first: State)
    requires IsCleanRun(run, first) && i < |run|
    ensures HeldClean(run, i)
  {
    hide SnapshotOf, Load, StateClean, Step, CleanStep, FileHolds;
    if i > 0 {
      CleanRunsHoldClean(run, i - 1, first);
      assert Step(run[i - 1], run[i - 1 + 1]) && CleanStep(run[i - 1], run[i - 1 + 1]);
      if !run[i].process.Down? {
        if run[i - 1].process.Down? {
          OnlyRestartsRevive(run[i - 1], run[i]);
          var st := LoadAtStep(run, i - 1, first);
          ReloadedClean(st);
        } else {
          StepHoldsClean(run[i - 1], run[i]);
        }
      }
    }
  }

  /** No completed save is lost: a process that restarts holds exactly the state of the last
      completed save, or what the run began with if there was none, whatever crashed or failed in
      between. Only a serial that had wrapped to zero comes back as one. */
  lemma RestartRestores(run: seq<World>, i: nat, first: State)
    requires IsCleanRun(run, first) && i + 1 < |run| && Restarts(run[i], run[i + 1])
    ensures exists st :: FileIs(run, i, first, st) && run[i + 1].process.mem == Reloaded(st)
  {
    hide SnapshotOf, Load, StateClean, Step, CleanStep, FileIs, FileHolds, Reloaded;
    CleanRunsHoldClean(run, i, first);
    var st := LoadAtStep(run, i, first);
  }

  /** What persistence is for: a set that reports success leaves a disk from which a fresh store
      loads the very state it was made on. */
  method SetThenReload(store: Store, name: bytes, rec: Record, io: Io) returns (ok: bool, reopened: Store)
    requires store.persistent && StateClean(store.Now()) && Clean(rec)
    modifies store
    ensures ok <==> ValidOwner(Lower(name)) && io.AllFine?
    ensures ok ==> reopened.Now() == Reloaded(store.Now()) && store.Now() == Put(old(store.Now()), name, rec)
  {
    hide StateClean, Clean, ValidOwner, Put, SnapshotOf, Load;
    StepKeepsClean(store.Now(), PutOp(name, rec));
    ok := store.Set(name, rec, io);
    SnapshotRestores(store.Now(), EMPTY);
    reopened := new Store(true, store.disk);
    if ok {
      var loaded := reopened.LoadFile();
    }
  }

  /** The same for a delete. */
  method DeleteThenReload(store: Store, name: bytes, rtype: u16, io: Io) returns (removed: bool, ok: bool, reopened: Store)
    requires store.persistent && StateClean(store.Now())
    modifies store
    ensures removed && io.AllFine? ==> ok
    ensures removed && ok ==> reopened.Now() == Reloaded(store.Now()) && store.Now() == Remove(old(store.Now()), name, rtype)
  {
    hide StateClean, Clean, Remove, Removes, SnapshotOf, Load;
    StepKeepsClean(store.Now(), RemoveOp(name, rtype));
    removed, ok := store.Delete(name, rtype, io);
    SnapshotRestores(store.Now(), EMPTY);
    reopened := new Store(true, store.disk);
    if removed && ok {
      var loaded := reopened.LoadFile();
    }
  }

  /** The store's own save is a path of these steps: each outcome of the two system calls. */
  lemma PersistIsSteps(st: State, d: Disk, io: Io)
    ensures var (d', ok) := Persist(st, d, io);
            && (ok ==> SnapshotOf(st).Some? && d'.file == Complete(SnapshotOf(st).value))
            && (!ok ==> d'.file == d.file)
            && (Writes(World(d, Saving(st)), World(d', Idle(st))) ||
                exists mid :: Writes(World(d, Saving(st)), World(mid, Saved(st))) &&
                              Renames(World(mid, Saved(st)), World(d', Idle(st))))
  {
    if SnapshotOf(st).Some? && !io.WriteFails? {
      var mid := d.(temp := Complete(SnapshotOf(st).value));
      assert Writes(World(d, Saving(st)), World(mid, Saved(st)));
      assert Renames(World(mid, Saved(st)), World(Persist(st, d, io).0, Idle(st)));
    }
  }
}
