/** Writers and the sweeper at work on one content store: `put`, the catalog row, the reference,
    and on the other side the guarded row deletion followed by the object deletion. Every
    statement is a step of its own. */
module BlobGc {
  import opened Options
  import opened BlobTables

  type Bytes = seq<nat>

  // ----- the content store -----

  datatype Fault = NoFault | WriteFails | RenameFails

  /** `FsBlobStore`: files by digest, and temporary files by number. */
  class FsBlobStore {
    const sha256: Bytes -> Blob
    var files: map<Blob, Bytes>
    var temps: map<nat, Bytes>
    var counter: nat

    constructor (sha256: Bytes -> Blob)
      ensures this.sha256 == sha256 && files == map[] && temps == map[] && Addressed()
    {
      this.sha256 := sha256;
      files, temps, counter := map[], map[], 0;
    }

    /** Content is where its digest says. */
    ghost predicate Addressed()
      reads this
    {
      forall d :: d in files ==> sha256(files[d]) == d
    }

    /** Put-if-absent; `None` is an I/O error, after which no blob has changed. */
    method Put(bytes: Bytes, fault: Fault) returns (id: Option<Blob>)
      requires Addressed()
      modifies this
      ensures Addressed()
      ensures id.Some? ==> id.value == sha256(bytes) && id.value in files
      ensures id.None? ==> fault != NoFault && files == old(files)
      ensures files == (if id.Some? && id.value !in old(files) then old(files)[id.value := bytes] else old(files))
      ensures forall n :: n in old(temps) && n != old(counter) ==> n in temps && temps[n] == old(temps)[n]
    {
      var d := sha256(bytes);
      if d in files { return Some(d); }
      var n := counter;
      counter := counter + 1;
      temps := temps[n := []];
      if fault == WriteFails { return None; }
      temps := temps[n := bytes];
      if fault == RenameFails {
        temps := temps - {n};
        return None;
      }
      files := files[d := temps[n]];
      temps := temps - {n};
      id := Some(d);
    }

    method Get(id: Blob) returns (bytes: Option<Bytes>)
      ensures bytes == if id in files then Some(files[id]) else None
    {
      bytes := if id in files then Some(files[id]) else None;
    }

    /** Idempotent. */
    method Delete(id: Blob)
      modifies this`files
      ensures files == old(files) - {id}
      ensures old(Addressed()) ==> Addressed()
    {
      files := files - {id};
    }
  }

  /** With a collision-free digest the store gives back exactly what was put. */
  lemma PutThenGet(sha256: Bytes -> Blob, files: map<Blob, Bytes>, bytes: Bytes)
    requires forall x, y :: sha256(x) == sha256(y) ==> x == y
    requires (forall d :: d in files ==> sha256(files[d]) == d) && sha256(bytes) in files
    ensures files[sha256(bytes)] == bytes
  {
  }

  // ----- one collection, with others at work -----

  /** The catalog after the collection has gone through `order`: before the `i`-th deletion, made
      at `clock(i)`, others have changed the tables by `others(i, _)`. */
  function SweptTables(t: Tables, order: seq<Blob>, others: (nat, Tables) -> Tables, clock: nat -> int,
                       grace: int): Tables
    decreases |order|
  {
    if order == [] then t
    else
      var found := Found(t, order, others, clock, grace);
      var b := order[|order| - 1];
      if Orphan(found, b, grace, clock(|order|)) then WithoutRow(found, b) else found
  }

  /** What the last deletion of `order` finds. */
  function Found(t: Tables, order: seq<Blob>, others: (nat, Tables) -> Tables, clock: nat -> int, grace: int): Tables
    requires order != []
    decreases |order|, 0
  {
    others(|order|, SweptTables(t, order[..|order| - 1], others, clock, grace))
  }

  /** The blobs whose rows went. */
  function SweptBlobs(t: Tables, order: seq<Blob>, others: (nat, Tables) -> Tables, clock: nat -> int,
                      grace: int): set<Blob>
    decreases |order|
  {
    if order == [] then {}
    else
      SweptBlobs(t, order[..|order| - 1], others, clock, grace)
      + (if Orphan(Found(t, order, others, clock, grace), order[|order| - 1], grace, clock(|order|))
        then {order[|order| - 1]} else {})
  }

  ghost predicate KeepsCounts(others: (nat, Tables) -> Tables) {
    forall i: nat, t: Tables :: Counted(t) ==> Counted(others(i, t))
  }

  /** One run of `gc`: scan, then for each orphan the row under its guard and then the object,
      skipping what was referred to again. Objects in `stuck` cannot be deleted, which is
      reported. */
  method CollectGarbage(store: FsBlobStore, catalog: BlobCatalog, grace: int, clock: nat -> int,
                        others: (nat, Tables) -> Tables, stuck: set<Blob>)
      returns (freed: nat, skipped: nat, order: seq<Blob>)
    requires Counted(catalog.t) && KeepsCounts(others)
    modifies store`files, catalog
    ensures multiset(order) == multiset(Orphans(old(catalog.t), grace, clock(0)))
    ensures catalog.t == SweptTables(old(catalog.t), order, others, clock, grace) && Counted(catalog.t)
    ensures var gone := SweptBlobs(old(catalog.t), order, others, clock, grace);
            store.files == old(store.files) - (gone - stuck) && freed == |gone| && freed + skipped == |order|
  {
    hide *;
    ghost var t0, files0 := catalog.t, store.files;
    var todo := catalog.OrphanBlobs(grace, clock(0));
    ghost var orphans := todo;
    freed, skipped, order := 0, 0, [];
    NothingSwept(t0, others, clock, grace, files0, stuck);
    while todo != {}
      invariant multiset(order) + multiset(todo) == multiset(orphans) && freed + skipped == |order|
      invariant catalog.t == SweptTables(t0, order, others, clock, grace) && Counted(catalog.t)
      invariant store.files == LessFiles(files0, SweptBlobs(t0, order, others, clock, grace), stuck)
      invariant freed == |SweptBlobs(t0, order, others, clock, grace)|
      decreases todo
    {
      var b :| b in todo;
      TakenOnce(orphans, order, todo, b);
      SweptStep(t0, order, b, others, clock, grace);
      FileGone(files0, SweptBlobs(t0, order, others, clock, grace), b, stuck);
      OthersKeep(others, |order| + 1, catalog.t);
      catalog.t := others(|order| + 1, catalog.t);
      var deleted := CollectOne(store, catalog, b, grace, clock(|order| + 1), stuck);
      if deleted { freed := freed + 1; } else { skipped := skipped + 1; }
      order, todo := order + [b], todo - {b};
    }
    LessFilesIs(files0, SweptBlobs(t0, order, others, clock, grace), stuck);
  }

  method CollectOne(store: FsBlobStore, catalog: BlobCatalog, b: Blob, grace: int, now: int, stuck: set<Blob>)
      returns (deleted: bool)
    requires Counted(catalog.t)
    modifies store`files, catalog
    ensures deleted == Orphan(old(catalog.t), b, grace, now) && Counted(catalog.t)
    ensures catalog.t == if deleted then WithoutRow(old(catalog.t), b) else old(catalog.t)
    ensures store.files == if !deleted || b in stuck then old(store.files) else old(store.files) - {b}
  {
    if Orphan(catalog.t, b, grace, now) { OrphanDeletionCounted(catalog.t, b, grace, now); }
    hide *;
    deleted := catalog.DeleteBlobIfOrphan(b, grace, now);
    if !deleted { return; }
    if b !in stuck { store.Delete(b); }
  }

  lemma NothingSwept(t: Tables, others: (nat, Tables) -> Tables, clock: nat -> int, grace: int,
                     files: map<Blob, Bytes>, stuck: set<Blob>)
    ensures SweptTables(t, [], others, clock, grace) == t && SweptBlobs(t, [], others, clock, grace) == {}
    ensures LessFiles(files, {}, stuck) == files
  {
    FileGone(files, {}, 0, stuck);
  }

  lemma OthersKeep(others: (nat, Tables) -> Tables, i: nat, t: Tables)
    requires KeepsCounts(others) && Counted(t)
    ensures Counted(others(i, t))
  {
    hide Counted;
  }

  /** A blob still to come was not among those gone through. */
  lemma TakenOnce(orphans: set<Blob>, order: seq<Blob>, todo: set<Blob>, b: Blob)
    requires multiset(order) + multiset(todo) == multiset(orphans) && b in todo
    ensures b !in order && multiset(order + [b]) + multiset(todo - {b}) == multiset(orphans)
  {
    assert multiset(orphans)[b] <= 1;
    assert b in multiset(todo);
    assert multiset(order)[b] == 0;
    assert multiset(todo) == multiset(todo - {b}) + multiset{b};
  }

  lemma {:induction false} SweptAreGoneThrough(t: Tables, order: seq<Blob>, others: (nat, Tables) -> Tables,
                                               clock: nat -> int, grace: int)
    ensures forall b :: b in SweptBlobs(t, order, others, clock, grace) ==> b in order
    decreases |order|
  {
    if order == [] {
    } else {
      SweptAreGoneThrough(t, order[..|order| - 1], others, clock, grace);
    }
  }

  lemma SweptStep(t: Tables, order: seq<Blob>, b: Blob, others: (nat, Tables) -> Tables, clock: nat -> int, grace: int)
    requires b !in order
    ensures var found := others(|order| + 1, SweptTables(t, order, others, clock, grace));
            var gone := SweptBlobs(t, order, others, clock, grace);
            var goes := Orphan(found, b, grace, clock(|order| + 1));
            && SweptTables(t, order + [b], others, clock, grace) == (if goes then WithoutRow(found, b) else found)
            && SweptBlobs(t, order + [b], others, clock, grace) == (if goes then gone + {b} else gone)
            && |SweptBlobs(t, order + [b], others, clock, grace)| == |gone| + (if goes then 1 else 0)
  {
    SweptAreGoneThrough(t, order, others, clock, grace);
    hide Orphan, WithoutRow;
    assert (order + [b])[..|order|] == order;
  }

  function LessFiles(files: map<Blob, Bytes>, bs: set<Blob>, stuck: set<Blob>): map<Blob, Bytes> {
    files - (bs - stuck)
  }

  lemma LessFilesIs(files: map<Blob, Bytes>, bs: set<Blob>, stuck: set<Blob>)
    ensures LessFiles(files, bs, stuck) == files - (bs - stuck)
  {
  }

  lemma FileGone(files: map<Blob, Bytes>, bs: set<Blob>, b: Blob, stuck: set<Blob>)
    ensures LessFiles(files, {}, stuck) == files
    ensures LessFiles(files, bs + {b}, stuck)
            == if b in stuck then LessFiles(files, bs, stuck) else LessFiles(files, bs, stuck) - {b}
  {
  }

  /** Whatever others do between the deletions, a row goes only when nothing refers to it then. */
  lemma {:induction false} SweepIsSafe(t: Tables, order: seq<Blob>, others: (nat, Tables) -> Tables, clock: nat -> int,
                                       grace: int)
    requires Counted(t) && KeepsCounts(others)
    ensures Counted(SweptTables(t, order, others, clock, grace))
    ensures order != [] && SweptTables(t, order, others, clock, grace) != Found(t, order, others, clock, grace) ==>
              !Referenced(Found(t, order, others, clock, grace), order[|order| - 1])
    decreases |order|
  {
    hide Counted, Referenced, Orphan, WithoutRow, KeepsCounts;
    if order == [] {
    } else {
      SweepIsSafe(t, order[..|order| - 1], others, clock, grace);
      OthersKeep(others, |order|, SweptTables(t, order[..|order| - 1], others, clock, grace));
      var found, b := Found(t, order, others, clock, grace), order[|order| - 1];
      if Orphan(found, b, grace, clock(|order|)) { OrphanDeletionCounted(found, b, grace, clock(|order|)); }
    }
  }

  /** With nobody else at work and the clock not running back, everything the scan found goes. */
  lemma {:induction false} QuietSweep(t: Tables, order: seq<Blob>, clock: nat -> int, grace: int)
    requires forall k: nat :: clock(0) <= clock(k)
    requires forall i :: 0 <= i < |order| ==> Orphan(t, order[i], grace, clock(0))
    requires forall i, j :: 0 <= i < j < |order| ==> order[i] != order[j]
    ensures SweptTables(t, order, (i, s) => s, clock, grace) == t.(rows := t.rows - (set b | b in order))
    ensures SweptBlobs(t, order, (i, s) => s, clock, grace) == (set b | b in order)
    decreases |order|
  {
    if order == [] {
      assert t.rows - (set b: Blob | b in order) == t.rows;
    } else {
      var init, b := order[..|order| - 1], order[|order| - 1];
      QuietSweep(t, init, clock, grace);
      assert (set c | c in order) == (set c | c in init) + {b};
      assert b !in (set c | c in init);
      assert t.rows - (set c | c in init) - {b} == t.rows - (set c | c in order);
    }
  }

  // ----- everything at once -----

  /** A writer of one blob: `put` looks, perhaps writes, then the row is recorded, then referred to;
      once a snapshot refers to it, the "latest" pointer is moved. */
  datatype Phase =
    | Starting
    | Writing
    | Stored
    | Recorded(at: int)
    | Registered(id: nat, variant: Variant)
    | Finished
    | Refused

  datatype Writer = Writer(blob: Blob, phase: Phase)

  /** `doomed` holds the blobs whose row a sweep has deleted and whose object it has not yet, and
      `issued` the snapshot ids ever given: they are random and never come back. */
  datatype World = World(bytes: set<Blob>, t: Tables, doomed: multiset<Blob>, writers: seq<Writer>, issued: set<nat>,
                         now: int)

  datatype Event =
    | Tick(seconds: nat)
    | Start(blob: Blob)
    | Check(writer: nat)
    | Write(writer: nat)
    | Record(writer: nat)
    | ReferFromVersion(writer: nat, version: nat)
    | ReferFromSnapshot(writer: nat, id: nat, snapshot: Snapshot)
    | AdvanceLatest(writer: nat)
    | Prune(variant: Variant, keep: int, gone: set<nat>)
    | DropVersions(versions: set<nat>)
    | DropSnapshots(snapshots: set<nat>)
    | SweepRow(blob: Blob, grace: int)
    | SweepObject(blob: Blob)

  predicate InPhase(s: World, i: nat, p: Phase) { i < |s.writers| && s.writers[i].phase == p }

  predicate HasRecorded(s: World, i: nat) { i < |s.writers| && s.writers[i].phase.Recorded? }

  predicate HasRegistered(s: World, i: nat) { i < |s.writers| && s.writers[i].phase.Registered? }

  ghost predicate Enabled(s: World, e: Event) {
    match e
    case Tick(_) => true
    case Start(_) => true
    case Check(i) => InPhase(s, i, Starting)
    case Write(i) => InPhase(s, i, Writing)
    case Record(i) => InPhase(s, i, Stored)
    case ReferFromVersion(i, _) => HasRecorded(s, i)
    case ReferFromSnapshot(i, x, snap) => HasRecorded(s, i) && x !in s.issued && snap.blob == s.writers[i].blob
    case AdvanceLatest(i) => HasRegistered(s, i)
    case Prune(u, keep, gone) => Pruned(s.t, u, keep, gone)
    case DropVersions(_) => true
    case DropSnapshots(_) => true
    case SweepRow(b, grace) => Orphan(s.t, b, grace, s.now)
    case SweepObject(b) => b in s.doomed
  }

  function Advance(s: World, i: nat, p: Phase): World
    requires i < |s.writers|
  {
    s.(writers := s.writers[i := s.writers[i].(phase := p)])
  }

  function Latest(t: Tables, u: Variant, x: nat): Tables { t.(latest := t.latest[u := x]) }

  function Apply(s: World, e: Event): World
    requires Enabled(s, e)
  {
    match e
    case Tick(n) => s.(now := s.now + n)
    case Start(b) => s.(writers := s.writers + [Writer(b, Starting)])
    case Check(i) => Advance(s, i, if s.writers[i].blob in s.bytes then Stored else Writing)
    case Write(i) => Advance(s, i, Stored).(bytes := s.bytes + {s.writers[i].blob})
    case Record(i) => Advance(s, i, Recorded(s.now)).(t := Upserted(s.t, s.writers[i].blob, s.now))
    case ReferFromVersion(i, v) =>
      var b := s.writers[i].blob;
      if b in s.t.rows then Advance(s, i, Finished).(t := WithVersion(s.t, v, Some(b))) else Advance(s, i, Refused)
    case ReferFromSnapshot(i, x, snap) =>
      if snap.blob in s.t.rows
      then Advance(s, i, Registered(x, snap.variant)).(t := WithSnapshot(s.t, x, snap), issued := s.issued + {x})
      else Advance(s, i, Refused)
    case AdvanceLatest(i) =>
      var x := s.writers[i].phase.id;
      if x in s.t.snapshots then Advance(s, i, Finished).(t := Latest(s.t, s.writers[i].phase.variant, x))
        else Advance(s, i, Refused)
    case Prune(_, _, gone) => s.(t := WithoutSnapshots(s.t, gone))
    case DropVersions(vs) => s.(t := WithoutVersions(s.t, vs))
    case DropSnapshots(xs) => s.(t := WithoutSnapshots(s.t, xs))
    case SweepRow(b, _) => s.(t := WithoutRow(s.t, b), doomed := s.doomed + multiset{b})
    case SweepObject(b) => s.(bytes := s.bytes - {b}, doomed := s.doomed - multiset{b})
  }

  const EMPTY: World := World({}, Tables(map[], map[], map[], map[]), multiset{}, [], {}, 0)

  /** `es` can happen, one after the other, from an empty store on. */
  ghost predicate Happens(es: seq<Event>)
    decreases |es|, 0
  {
    es == [] || (Happens(es[..|es| - 1]) && Enabled(After(es[..|es| - 1]), es[|es| - 1]))
  }

  function After(es: seq<Event>): World
    requires Happens(es)
    decreases |es|, 1
  {
    if es == [] then EMPTY else Apply(After(es[..|es| - 1]), es[|es| - 1])
  }

  // ----- counts, always -----

  /** Ids in use were issued, and a writer's snapshot, while it is there, is of the variant that
      the writer is about to point to it. */
  ghost predicate IdsIssued(s: World) {
    && (forall x :: x in s.t.snapshots ==> x in s.issued)
    && forall i :: 0 <= i < |s.writers| ==> OwnSnapshot(s, s.writers[i])
  }

  predicate OwnSnapshot(s: World, w: Writer) {
    w.phase.Registered? ==>
      w.phase.id in s.issued && (w.phase.id in s.t.snapshots ==> s.t.snapshots[w.phase.id].variant == w.phase.variant)
  }

  lemma LatestCounted(t: Tables, u: Variant, x: nat)
    requires Counted(t)
    ensures Counted(Latest(t, u, x))
  {
    SameCounts(t, Latest(t, u, x));
  }

  lemma SnapshotsChange(s: World, e: Event)
    requires Enabled(s, e)
    ensures var s' := Apply(s, e);
            && s.issued <= s'.issued
            && forall x :: x in s'.t.snapshots ==>
                 (x in s.t.snapshots && s'.t.snapshots[x] == s.t.snapshots[x])
                 || (x !in s.issued && x in s'.issued && e.ReferFromSnapshot? && x == e.id
                   && s'.t.snapshots[x] == e.snapshot)
  {
    hide VersionRefs, SnapshotRefs, Orphan, Pruned, VersionBlob, Bumped, Adjusted;
  }

  lemma RegisteredChange(s: World, e: Event)
    requires Enabled(s, e)
    ensures var s' := Apply(s, e);
            forall i :: 0 <= i < |s'.writers| && s'.writers[i].phase.Registered? ==>
              (i < |s.writers| && s'.writers[i] == s.writers[i])
              || (e.ReferFromSnapshot? && s'.writers[i].phase == Registered(e.id, e.snapshot.variant)
                  && e.id in s'.t.snapshots && s'.t.snapshots[e.id] == e.snapshot && e.id in s'.issued)
  {
    hide Orphan, Pruned, WithVersion, WithoutVersions, WithoutSnapshots, Upserted, WithoutRow, Bumped;
  }

  lemma StepIssued(s: World, e: Event)
    requires IdsIssued(s) && Enabled(s, e)
    ensures IdsIssued(Apply(s, e))
  {
    SnapshotsChange(s, e);
    RegisteredChange(s, e);
    hide Enabled, Apply;
    var s' := Apply(s, e);
    forall i | 0 <= i < |s'.writers| ensures OwnSnapshot(s', s'.writers[i]) {
      if i < |s.writers| && s'.writers[i] == s.writers[i] { assert OwnSnapshot(s, s.writers[i]); }
    }
  }

  lemma StepCounted(s: World, e: Event)
    requires Counted(s.t) && IdsIssued(s) && Enabled(s, e)
    ensures Counted(Apply(s, e).t)
    ensures e.SweepRow? ==> !Referenced(s.t, e.blob)
  {
    hide Counted, Pruned, Latest, Orphan, WithVersion, WithSnapshot, WithoutVersions, WithoutSnapshots, Upserted,
         WithoutRow, Referenced;
    match e
    case Record(i) => UpsertedCounted(s.t, s.writers[i].blob, s.now);
    case ReferFromVersion(i, v) =>
      if s.writers[i].blob in s.t.rows { WithVersionCounted(s.t, v, Some(s.writers[i].blob)); }
    case ReferFromSnapshot(i, x, snap) =>
      if snap.blob in s.t.rows { WithSnapshotCounted(s.t, x, snap); }
    case DropVersions(vs) => WithoutVersionsCounted(s.t, vs);
    case AdvanceLatest(i) => LatestCounted(s.t, s.writers[i].phase.variant, s.writers[i].phase.id);
    case Prune(_, _, gone) => WithoutSnapshotsCounted(s.t, gone);
    case DropSnapshots(xs) => WithoutSnapshotsCounted(s.t, xs);
    case SweepRow(b, grace) => OrphanDeletionCounted(s.t, b, grace, s.now);
    case _ =>
  }

  /** In every interleaving the reference count of a row is the number of versions and snapshots
      referring to it, and what is referred to has a row: no sweep ever deletes a referenced row. */
  lemma {:induction false} AlwaysCounted(es: seq<Event>)
    requires Happens(es)
    ensures Counted(After(es).t) && IdsIssued(After(es))
    ensures es != [] && es[|es| - 1].SweepRow? ==> !Referenced(After(es[..|es| - 1]).t, es[|es| - 1].blob)
    decreases |es|
  {
    hide Counted, IdsIssued, Referenced, Apply, Enabled;
    if es == [] {
      EmptyCounted();
    } else {
      AlwaysCounted(es[..|es| - 1]);
      StepCounted(After(es[..|es| - 1]), es[|es| - 1]);
      StepIssued(After(es[..|es| - 1]), es[|es| - 1]);
    }
  }

  lemma EmptyCounted()
    ensures Counted(EMPTY.t) && IdsIssued(EMPTY) && PointersOwn(EMPTY.t)
  {
  }

  // ----- what uploads and collections do when nobody interferes -----

  /** An upload whose blob is recorded makes a snapshot that counts, and then the pointer leads to it;
      other pointers stay. */
  lemma UploadMovesLatest(s: World, i: nat, x: nat, snap: Snapshot)
    requires HasRecorded(s, i) && snap.blob == s.writers[i].blob && snap.blob in s.t.rows && x !in s.issued
    ensures var e1, e2 := ReferFromSnapshot(i, x, snap), AdvanceLatest(i);
            && Enabled(s, e1) && Enabled(Apply(s, e1), e2)
            && var s' := Apply(Apply(s, e1), e2);
            && s'.t.latest == s.t.latest[snap.variant := x] && s'.t.snapshots == s.t.snapshots[x := snap]
            && s'.t.versions == s.t.versions
            && s'.t.rows == s.t.rows[snap.blob := s.t.rows[snap.blob].(refcount := s.t.rows[snap.blob].refcount + 1)]
            && s'.issued == s.issued + {x} && s'.bytes == s.bytes && s'.writers[i].phase == Finished
  {
  }

  /** The pointer is moved to the snapshot if it is still there, and otherwise the upload fails. */
  lemma AdvanceMeans(s: World, i: nat)
    requires HasRegistered(s, i)
    ensures var x, u, s' := s.writers[i].phase.id, s.writers[i].phase.variant, Apply(s, AdvanceLatest(i));
            && (x in s.t.snapshots ==> s'.t == s.t.(latest := s.t.latest[u := x]) && s'.writers[i].phase == Finished)
            && (x !in s.t.snapshots ==> s'.t == s.t && s'.writers[i].phase == Refused)
  {
  }

  /** Deletions take what they name, pointers to deleted snapshots included. */
  lemma DropsTake(s: World, vs: set<nat>, xs: set<nat>, u: Variant, keep: int, gone: set<nat>)
    ensures Apply(s, DropVersions(vs)).t.versions == s.t.versions - vs
    ensures Apply(s, DropSnapshots(xs)).t.snapshots == s.t.snapshots - xs
    ensures forall y :: y in Apply(s, DropSnapshots(xs)).t.latest <==> y in s.t.latest && s.t.latest[y] !in xs
    ensures Enabled(s, Prune(u, keep, gone)) ==> Apply(s, Prune(u, keep, gone)).t.snapshots == s.t.snapshots - gone
  {
    hide VersionRefs, SnapshotRefs, Pruned;
  }

  /** A collection of an orphan takes its row and its bytes, and nothing else. */
  lemma CollectionTakes(s: World, b: Blob, grace: int)
    requires Orphan(s.t, b, grace, s.now)
    ensures var e1, e2 := SweepRow(b, grace), SweepObject(b);
            && Enabled(s, e1) && Enabled(Apply(s, e1), e2)
            && Apply(Apply(s, e1), e2) == s.(t := s.t.(rows := s.t.rows - {b}), bytes := s.bytes - {b})
  {
  }

  // ----- "latest" always resolves -----

  /** What an event does to the pointers. */
  lemma PointersChange(s: World, e: Event)
    requires Enabled(s, e) && PointersOwn(s.t) && IdsIssued(s)
    ensures PointersOwn(Apply(s, e).t)
    ensures forall u :: u in s.t.latest && !(e.DropSnapshots? && s.t.latest[u] in e.snapshots) ==>
            u in Apply(s, e).t.latest
  {
    SnapshotsChange(s, e);
    match e
    case Prune(u, keep, gone) =>
      PruneKeepsPointers(s.t, u, keep, gone);
      hide Pruned, PointersOwn;
    case ReferFromSnapshot(i, x, snap) =>
      hide Bumped;
      assert x !in s.t.snapshots;
    case AdvanceLatest(i) =>
      assert OwnSnapshot(s, s.writers[i]);
    case _ =>
      hide Bumped, Orphan, VersionRefs, SnapshotRefs, VersionBlob, Adjusted;
  }

  /** In every interleaving of uploads, retention and sweeps each "latest" pointer leads to a
      snapshot of its own variant, and a variant that has one keeps having one until the snapshot
      it leads to is itself deleted. */
  lemma {:induction false} LatestResolves(es: seq<Event>, n: nat, u: Variant)
    requires Happens(es) && n <= |es| && Happens(es[..n]) && u in After(es[..n]).t.latest
    ensures forall k :: 0 <= k <= |es| ==> Happens(es[..k])
    ensures PointersOwn(After(es).t)
    ensures u in After(es).t.latest
            || exists k :: n <= k < |es| && es[k].DropSnapshots?
                           && u in After(es[..k]).t.latest && After(es[..k]).t.latest[u] in es[k].snapshots
    decreases |es|
  {
    hide Apply, Enabled, PointersOwn;
    PrefixesHappen(es);
    PointersAlwaysOwn(es);
    assert es[..|es|] == es;
    if n == |es| {
    } else {
      var init, e := es[..|es| - 1], es[|es| - 1];
      assert init[..n] == es[..n] && forall k :: 0 <= k <= |init| ==> init[..k] == es[..k];
      LatestResolves(init, n, u);
      AlwaysCounted(init);
      PointersChange(After(init), e);
      hide IdsIssued, Counted;
      if u in After(init).t.latest && u !in After(es).t.latest {
        assert es[..|es| - 1] == init;
      } else if u !in After(es).t.latest {
        var k :| n <= k < |init| && init[k].DropSnapshots?
                 && u in After(init[..k]).t.latest && After(init[..k]).t.latest[u] in init[k].snapshots;
        assert es[..k] == init[..k] && es[k] == init[k];
      }
    }
  }

  lemma {:induction false} PointersAlwaysOwn(es: seq<Event>)
    requires Happens(es)
    ensures PointersOwn(After(es).t)
    decreases |es|
  {
    hide Apply, Enabled, PointersOwn;
    if es == [] {
      EmptyCounted();
    } else {
      PointersAlwaysOwn(es[..|es| - 1]);
      AlwaysCounted(es[..|es| - 1]);
      hide IdsIssued, Counted;
      PointersChange(After(es[..|es| - 1]), es[|es| - 1]);
    }
  }

  lemma {:induction false} PrefixesHappen(es: seq<Event>)
    requires Happens(es)
    ensures forall k :: 0 <= k <= |es| ==> Happens(es[..k])
    decreases |es|
  {
    hide Enabled;
    assert es[..|es|] == es;
    if es == [] {
    } else {
      var init := es[..|es| - 1];
      PrefixesHappen(init);
      assert forall k :: 0 <= k <= |init| ==> init[..k] == es[..k];
    }
  }

  // ----- bytes, unless a collection overlaps -----

  /** No writer has stored a blob, and not recorded it yet, while a sweep is between deleting
      that blob's row and deleting its object. */
  ghost predicate NoOverlap(s: World) {
    forall i :: 0 <= i < |s.writers| && s.writers[i].phase.Stored? ==> s.writers[i].blob !in s.doomed
  }

  ghost predicate BytesKept(s: World) {
    && (forall b :: b in s.t.rows ==> b in s.bytes && b !in s.doomed)
    && forall i :: 0 <= i < |s.writers| && s.writers[i].phase.Stored? ==> s.writers[i].blob in s.bytes
  }

  lemma RowsChange(s: World, e: Event)
    requires Enabled(s, e)
    ensures forall b :: b in Apply(s, e).t.rows ==> b in s.t.rows || (e.Record? && b == s.writers[e.writer].blob)
    ensures e.SweepRow? ==> e.blob !in Apply(s, e).t.rows
  {
    hide Orphan, VersionRefs, SnapshotRefs, VersionBlob;
  }

  lemma StepKeepsBytes(s: World, e: Event)
    requires Enabled(s, e) && BytesKept(s) && NoOverlap(s) && NoOverlap(Apply(s, e))
    ensures BytesKept(Apply(s, e))
  {
    RowsChange(s, e);
    hide WithVersion, WithSnapshot, WithoutVersions, WithoutSnapshots, WithoutRow, Upserted, Orphan;
    var s' := Apply(s, e);
    forall b | b in s'.t.rows ensures b in s'.bytes && b !in s'.doomed {
      if e.Record? { assert s.writers[e.writer].phase.Stored?; }
    }
    forall i | 0 <= i < |s'.writers| && s'.writers[i].phase.Stored? ensures s'.writers[i].blob in s'.bytes {
      if i < |s.writers| && s.writers[i].phase.Stored? {
        assert s'.writers[i].blob == s.writers[i].blob;
        assert s.writers[i].blob !in s.doomed;
      }
    }
  }

  /** Whatever is referred to keeps its bytes, over every interleaving in which no collection of
      a blob overlaps a writer's span from storing it to recording it. */
  lemma {:induction false} ReferencedBytesKept(es: seq<Event>, b: Blob)
    requires Happens(es) && forall n :: 0 <= n <= |es| ==> Happens(es[..n]) && NoOverlap(After(es[..n]))
    ensures BytesKept(After(es)) && (Referenced(After(es).t, b) ==> b in After(es).bytes)
    decreases |es|
  {
    hide Apply, Enabled;
    AlwaysCounted(es);
    assert es[..|es|] == es;
    if es == [] {
    } else {
      var init := es[..|es| - 1];
      forall n | 0 <= n <= |init| ensures Happens(init[..n]) && NoOverlap(After(init[..n])) {
        assert init[..n] == es[..n];
      }
      ReferencedBytesKept(init, b);
      hide NoOverlap, BytesKept;
      StepKeepsBytes(After(init), es[|es| - 1]);
    }
    if Referenced(After(es).t, b) { ReferencedHasRow(After(es).t, b); }
  }

  lemma ReferencedHasRow(t: Tables, b: Blob)
    requires Counted(t) && Referenced(t, b)
    ensures b in t.rows
  {
    if VersionRefs(t.versions, b) != {} {
      var v :| v in VersionRefs(t.versions, b);
      assert t.versions[v].value in t.rows;
    } else {
      var x :| x in SnapshotRefs(t.snapshots, b);
    }
  }

  // ----- what the grace is for -----

  /** A writer that recorded its blob less than the grace ago still finds the row. */
  ghost predicate Guarded(s: World, grace: int) {
    && (forall b :: b in s.t.rows ==> s.t.rows[b].lastSeen <= s.now)
    && forall i :: 0 <= i < |s.writers| ==> RecentIsThere(s, s.writers[i], grace)
  }

  predicate RecentIsThere(s: World, w: Writer, grace: int) {
    w.phase.Recorded? ==>
      && w.phase.at <= s.now
      && (s.now <= w.phase.at + grace ==> w.blob in s.t.rows && s.t.rows[w.blob].lastSeen >= w.phase.at)
  }

  /** References come and go without touching when a blob was last seen. */
  ghost predicate SameSeen(t: Tables, t': Tables) {
    t'.rows.Keys == t.rows.Keys && forall b :: b in t.rows ==> t'.rows[b].lastSeen == t.rows[b].lastSeen
  }

  lemma ReferencesKeepSeen(t: Tables, v: nat, b: Option<Blob>, x: nat, snap: Snapshot, xs: set<nat>, u: Variant)
    ensures SameSeen(t, WithVersion(t, v, b)) && SameSeen(t, WithSnapshot(t, x, snap))
    ensures SameSeen(t, WithoutVersions(t, xs)) && SameSeen(t, WithoutSnapshots(t, xs)) && SameSeen(t, Latest(t, u, x))
  {
    hide VersionRefs, SnapshotRefs, VersionBlob;
  }

  lemma TablesChange(s: World, e: Event)
    requires Enabled(s, e)
    ensures Apply(s, e).now >= s.now
    ensures e.Record? || e.SweepRow? || SameSeen(s.t, Apply(s, e).t)
    ensures e.Record? ==> Apply(s, e).t == Upserted(s.t, s.writers[e.writer].blob, s.now)
    ensures e.SweepRow? ==> Apply(s, e).t == WithoutRow(s.t, e.blob)
  {
    var none := Snapshot(Variant(0, "", ""), 0, 0, 0);
    match e
    case ReferFromVersion(i, v) => ReferencesKeepSeen(s.t, v, Some(s.writers[i].blob), 0, none, {}, none.variant);
    case ReferFromSnapshot(_, x, snap) => ReferencesKeepSeen(s.t, 0, None, x, snap, {}, none.variant);
    case AdvanceLatest(i) =>
      ReferencesKeepSeen(s.t, 0, None, s.writers[i].phase.id, none, {}, s.writers[i].phase.variant);
    case Prune(_, _, gone) => ReferencesKeepSeen(s.t, 0, None, 0, none, gone, none.variant);
    case DropVersions(vs) => ReferencesKeepSeen(s.t, 0, None, 0, none, vs, none.variant);
    case DropSnapshots(xs) => ReferencesKeepSeen(s.t, 0, None, 0, none, xs, none.variant);
    case _ =>
    hide WithVersion, WithSnapshot, WithoutVersions, WithoutSnapshots, Upserted, WithoutRow, Latest, Orphan, Pruned;
  }

  lemma SeenChange(s: World, e: Event)
    requires Enabled(s, e) && forall b :: b in s.t.rows ==> s.t.rows[b].lastSeen <= s.now
    ensures var s' := Apply(s, e);
            && s.now <= s'.now
            && (forall b :: b in s'.t.rows ==> s'.t.rows[b].lastSeen <= s'.now)
            && (forall b :: b in s.t.rows && !(e.SweepRow? && e.blob == b) ==>
                  b in s'.t.rows && s.t.rows[b].lastSeen <= s'.t.rows[b].lastSeen)
            && (e.Record?
              ==> s.writers[e.writer].blob in s'.t.rows && s'.t.rows[s.writers[e.writer].blob].lastSeen == s.now)
  {
    TablesChange(s, e);
    assert e.Record? ==> e.writer < |s.writers| by { hide Apply; }
    hide Apply, Enabled;
  }

  lemma RecordedChange(s: World, e: Event)
    requires Enabled(s, e)
    ensures var s' := Apply(s, e);
            forall i :: 0 <= i < |s'.writers| && s'.writers[i].phase.Recorded? ==>
              i < |s.writers| && s'.writers[i].blob == s.writers[i].blob
              && (s'.writers[i] == s.writers[i]
                  || (e.Record? && i == e.writer && s'.writers[i].phase.at == s.now == s'.now))
    ensures e.SweepRow? ==> e.blob in s.t.rows && s.t.rows[e.blob].lastSeen < s.now - e.grace
  {
    hide Pruned, WithVersion, WithSnapshot, WithoutVersions, WithoutSnapshots, Upserted, WithoutRow;
  }

  lemma StepGuarded(s: World, e: Event, grace: int)
    requires Enabled(s, e) && Guarded(s, grace) && (e.SweepRow? ==> e.grace >= grace)
    ensures Guarded(Apply(s, e), grace)
  {
    SeenChange(s, e);
    RecordedChange(s, e);
    hide Apply, Enabled;
    var s' := Apply(s, e);
    forall i | 0 <= i < |s'.writers| ensures RecentIsThere(s', s'.writers[i], grace) {
      if i < |s.writers| && s'.writers[i].phase.Recorded? {
        assert RecentIsThere(s, s.writers[i], grace);
      }
    }
  }

  /** When every sweep leaves at least `grace`, a reference made within `grace` of recording the
      blob is never refused. */
  lemma {:induction false} ReferenceInTimeSucceeds(es: seq<Event>, grace: int, i: nat)
    requires Happens(es) && forall n :: 0 <= n < |es| && es[n].SweepRow? ==> es[n].grace >= grace
    ensures Guarded(After(es), grace)
    ensures i < |After(es).writers| && After(es).writers[i].phase.Recorded?
            && After(es).now <= After(es).writers[i].phase.at + grace
            ==> After(es).writers[i].blob in After(es).t.rows
    decreases |es|
  {
    hide Apply, Enabled, Guarded;
    if es == [] {
      EmptyGuarded(grace);
    } else {
      ReferenceInTimeSucceeds(es[..|es| - 1], grace, i);
      StepGuarded(After(es[..|es| - 1]), es[|es| - 1], grace);
    }
    GuardedAt(After(es), grace, i);
  }

  lemma EmptyGuarded(grace: int)
    ensures Guarded(EMPTY, grace)
  {
  }

  lemma GuardedAt(s: World, grace: int, i: nat)
    requires Guarded(s, grace)
    ensures i < |s.writers| && s.writers[i].phase.Recorded? && s.now <= s.writers[i].phase.at + grace ==>
            s.writers[i].blob in s.t.rows
  {
    if i < |s.writers| { assert RecentIsThere(s, s.writers[i], grace); }
  }

  // ----- why the overlap must not be -----

  /** Wherever a collection does overlap that span, three more steps refer to a blob whose bytes
      are gone: the object is deleted, the row is recorded again, and the reference is made. */
  lemma OverlapLosesBytes(s: World, i: nat, v: nat)
    requires i < |s.writers| && s.writers[i].phase == Stored && s.writers[i].blob in s.doomed
    ensures var b := s.writers[i].blob;
            var e1, e2, e3 := SweepObject(b), Record(i), ReferFromVersion(i, v);
            && Enabled(s, e1) && Enabled(Apply(s, e1), e2) && Enabled(Apply(Apply(s, e1), e2), e3)
            && var lost := Apply(Apply(Apply(s, e1), e2), e3);
            Referenced(lost.t, b) && b !in lost.bytes
  {
    var b := s.writers[i].blob;
    var s1 := Apply(s, SweepObject(b));
    var s2 := Apply(s1, Record(i));
    assert b in s2.t.rows && s2.writers[i].blob == b;
    var s3 := Apply(s2, ReferFromVersion(i, v));
    assert s3.t.versions[v] == Some(b);
    assert v in VersionRefs(s3.t.versions, b);
    hide VersionRefs, SnapshotRefs, WithVersion, Upserted;
  }

  /** And it can come about: any orphan past its grace whose bytes a writer is about to put again
      is put without a write, and the sweep takes row and bytes from under the writer. */
  lemma OverlapHappens(s: World, b: Blob, grace: int)
    requires b in s.bytes && Orphan(s.t, b, grace, s.now)
    ensures var i := |s.writers|;
            var e1, e2, e3 := Start(b), Check(i), SweepRow(b, grace);
            && Enabled(s, e1) && Enabled(Apply(s, e1), e2) && Enabled(Apply(Apply(s, e1), e2), e3)
            && var met := Apply(Apply(Apply(s, e1), e2), e3);
            met.writers[i] == Writer(b, Stored) && b in met.doomed && !NoOverlap(met)
  {
    var i := |s.writers|;
    var s2 := Apply(Apply(s, Start(b)), Check(i));
    var met := Apply(s2, SweepRow(b, grace));
    assert met.writers[i] == Writer(b, Stored);
    hide Orphan;
  }

  lemma Extend(es: seq<Event>, e: Event)
    requires Happens(es)
    ensures Happens(es + [e]) <==> Enabled(After(es), e)
    ensures Happens(es + [e]) ==> After(es + [e]) == Apply(After(es), e)
  {
    hide Apply, Enabled;
    assert (es + [e])[..|es|] == es;
  }

  lemma ExtendThree(es: seq<Event>, a: Event, b: Event, c: Event)
    requires Happens(es) && Enabled(After(es), a) && Enabled(Apply(After(es), a), b)
    requires Enabled(Apply(Apply(After(es), a), b), c)
    ensures Happens(es + [a, b, c]) && After(es + [a, b, c]) == Apply(Apply(Apply(After(es), a), b), c)
  {
    hide Apply, Enabled;
    Extend(es, a);
    Extend(es + [a], b);
    Extend(es + [a] + [b], c);
    assert es + [a] + [b] + [c] == es + [a, b, c];
  }

  /** A blob is uploaded, never referred to, and left for longer than the grace. */
  lemma OrphanHappens(b: Blob, seconds: nat, grace: int)
    requires seconds > grace
    ensures var es := [Start(b), Check(0), Write(0)] + [Record(0), Tick(seconds), Start(b)];
            && Happens(es) && After(es).writers == [Writer(b, Recorded(0)), Writer(b, Starting)]
            && After(es).bytes == {b} && After(es).doomed == multiset{}
            && Orphan(After(es).t, b, grace, After(es).now)
  {
    var s1 := Apply(EMPTY, Start(b));
    assert s1.writers == [Writer(b, Starting)];
    var s2 := Apply(s1, Check(0));
    assert s2.writers == [Writer(b, Writing)];
    var s3 := Apply(s2, Write(0));
    assert s3.writers == [Writer(b, Stored)] && s3.bytes == {b};
    ExtendThree([], Start(b), Check(0), Write(0));
    assert [] + [Start(b), Check(0), Write(0)] == [Start(b), Check(0), Write(0)];
    var s4 := Apply(s3, Record(0));
    assert s4.writers == [Writer(b, Recorded(0))] && s4.t.rows == map[b := Row(0, 0)];
    ExtendThree([Start(b), Check(0), Write(0)], Record(0), Tick(seconds), Start(b));
  }

  /** So from the empty store on, for every blob, grace and version: a blob left for longer than
      its grace is uploaded again while a sweep collects it, and a version comes to refer to bytes
      that are gone. */
  lemma LossHappens(b: Blob, seconds: nat, grace: int, v: nat)
    requires seconds > grace
    ensures var es := [Start(b), Check(0), Write(0)] + [Record(0), Tick(seconds), Start(b)]
                      + [Check(1), SweepRow(b, grace), SweepObject(b)] + [Record(1), ReferFromVersion(1, v), Tick(0)];
            Happens(es) && Referenced(After(es).t, b) && b !in After(es).bytes
  {
    OrphanHappens(b, seconds, grace);
    hide Orphan, Happens, After;
    var es := [Start(b), Check(0), Write(0)] + [Record(0), Tick(seconds), Start(b)];
    var s := After(es);
    var met := Apply(Apply(s, Check(1)), SweepRow(b, grace));
    assert met.writers[1] == Writer(b, Stored) && b in met.doomed;
    OverlapLosesBytes(met, 1, v);
    ExtendThree(es, Check(1), SweepRow(b, grace), SweepObject(b));
    var es' := es + [Check(1), SweepRow(b, grace), SweepObject(b)];
    ExtendThree(es', Record(1), ReferFromVersion(1, v), Tick(0));
  }
}
