/** The catalog's side of blob storage: one row per blob with a reference count that database
    triggers keep, versions and snapshots referring to blobs, and snapshot retention. */
module BlobTables {
  import opened Options

  type Blob = nat

  datatype Row = Row(refcount: int, lastSeen: int)

  datatype Variant = Variant(repo: nat, environment: string, profile: string)

  datatype Snapshot = Snapshot(variant: Variant, blob: Blob, created: int, serial: nat)

  /** Versions may have no dist, hence no blob. */
  datatype Tables = Tables(rows: map<Blob, Row>, versions: map<nat, Option<Blob>>, snapshots: map<nat, Snapshot>,
                           latest: map<Variant, nat>)

  /** Registering a snapshot is refused for want of the blob's row or of the snapshot. */
  datatype RegisterError = NoBlob | NoSnapshot

  // ----- references -----

  function VersionRefs(versions: map<nat, Option<Blob>>, b: Blob): set<nat> {
    set v | v in versions && versions[v] == Some(b)
  }

  function SnapshotRefs(snapshots: map<nat, Snapshot>, b: Blob): set<nat> {
    set x | x in snapshots && snapshots[x].blob == b
  }

  predicate Referenced(t: Tables, b: Blob) { VersionRefs(t.versions, b) != {} || SnapshotRefs(t.snapshots, b) != {} }

  /** Counts are exact, and (the foreign keys) whatever is referenced has a row. */
  ghost predicate Counted(t: Tables) {
    && (forall b :: b in t.rows ==> t.rows[b].refcount == |VersionRefs(t.versions, b)| + |SnapshotRefs(t.snapshots, b)|)
    && (forall v :: v in t.versions && t.versions[v].Some? ==> t.versions[v].value in t.rows)
    && forall x :: x in t.snapshots ==> t.snapshots[x].blob in t.rows
  }

  /** Every "latest" pointer leads to a snapshot of its own variant. */
  ghost predicate PointersOwn(t: Tables) {
    forall u :: u in t.latest ==> t.latest[u] in t.snapshots && t.snapshots[t.latest[u]].variant == u
  }

  ghost predicate Sound(t: Tables) { Counted(t) && PointersOwn(t) }

  lemma CountZeroIffUnreferenced(t: Tables, b: Blob)
    requires Counted(t) && b in t.rows
    ensures t.rows[b].refcount == 0 <==> !Referenced(t, b)
    ensures t.rows[b].refcount >= 0
  {
  }

  // ----- the triggers -----

  function Bumped(rows: map<Blob, Row>, b: Option<Blob>, delta: int): map<Blob, Row> {
    if b.Some? && b.value in rows then rows[b.value := rows[b.value].(refcount := rows[b.value].refcount + delta)]
      else rows
  }

  /** What the row trigger does when a reference changes. */
  function Adjusted(rows: map<Blob, Row>, was: Option<Blob>, becomes: Option<Blob>): map<Blob, Row> {
    if was == becomes then rows else Bumped(Bumped(rows, was, -1), becomes, 1)
  }

  function VersionBlob(t: Tables, v: nat): Option<Blob> { if v in t.versions then t.versions[v] else None }

  /** Insert or repoint a version. */
  function WithVersion(t: Tables, v: nat, b: Option<Blob>): Tables {
    t.(versions := t.versions[v := b], rows := Adjusted(t.rows, VersionBlob(t, v), b))
  }

  /** Delete versions, alone or by cascade. */
  function WithoutVersions(t: Tables, vs: set<nat>): Tables {
    t.(versions := t.versions - vs,
       rows := map b | b in t.rows :: t.rows[b].(refcount := t.rows[b].refcount - |VersionRefs(t.versions, b) * vs|))
  }

  function WithSnapshot(t: Tables, x: nat, s: Snapshot): Tables {
    t.(snapshots := t.snapshots[x := s], rows := Bumped(t.rows, Some(s.blob), 1))
  }

  /** Delete snapshots; pointers to them go with them. */
  function WithoutSnapshots(t: Tables, xs: set<nat>): Tables {
    t.(snapshots := t.snapshots - xs,
       latest := map u | u in t.latest && t.latest[u] !in xs :: t.latest[u],
       rows := map b | b in t.rows :: t.rows[b].(refcount := t.rows[b].refcount - |SnapshotRefs(t.snapshots, b) * xs|))
  }

  function Upserted(t: Tables, b: Blob, now: int): Tables {
    t.(rows := t.rows[b := if b in t.rows then t.rows[b].(lastSeen := now) else Row(0, now)])
  }

  predicate Orphan(t: Tables, b: Blob, grace: int, now: int) {
    b in t.rows && t.rows[b].refcount == 0 && t.rows[b].lastSeen < now - grace
  }

  function Orphans(t: Tables, grace: int, now: int): set<Blob> { set b | b in t.rows && Orphan(t, b, grace, now) }

  function WithoutRow(t: Tables, b: Blob): Tables { t.(rows := t.rows - {b}) }

  // ----- every operation keeps the counts exact -----

  lemma VersionRefsChange(versions: map<nat, Option<Blob>>, v: nat, c: Option<Blob>, b: Blob)
    ensures VersionRefs(versions[v := c], b)
            == if c == Some(b) then VersionRefs(versions, b) + {v} else VersionRefs(versions, b) - {v}
    ensures v in VersionRefs(versions, b) <==> v in versions && versions[v] == Some(b)
  {
  }

  lemma ElementCounts<T>(s: set<T>, x: T)
    ensures |s + {x}| == |s| + (if x in s then 0 else 1)
    ensures |s - {x}| == |s| - (if x in s then 1 else 0)
  {
    if x in s { assert s + {x} == s; } else { assert s - {x} == s; }
  }

  lemma VersionRefsUpdate(versions: map<nat, Option<Blob>>, v: nat, c: Option<Blob>, b: Blob)
    ensures var had := v in versions && versions[v] == Some(b);
            |VersionRefs(versions[v := c], b)|
              == |VersionRefs(versions, b)| - (if had then 1 else 0) + (if c == Some(b) then 1 else 0)
  {
    hide VersionRefs;
    VersionRefsChange(versions, v, c, b);
    ElementCounts(VersionRefs(versions, b), v);
  }

  lemma WithVersionCounted(t: Tables, v: nat, b: Option<Blob>)
    requires Counted(t) && (b.Some? ==> b.value in t.rows)
    ensures Counted(WithVersion(t, v, b))
  {
    var t' := WithVersion(t, v, b);
    forall c | c in t'.rows
      ensures t'.rows[c].refcount == |VersionRefs(t'.versions, c)| + |SnapshotRefs(t'.snapshots, c)|
    {
      VersionRefsUpdate(t.versions, v, b, c);
    }
    hide VersionRefs, SnapshotRefs;
  }

  lemma SplitCount<T>(s: set<T>, d: set<T>)
    ensures |s - d| == |s| - |s * d|
  {
    assert s == (s - d) + (s * d);
  }

  lemma WithoutVersionsCounted(t: Tables, vs: set<nat>)
    requires Counted(t)
    ensures Counted(WithoutVersions(t, vs))
  {
    var t' := WithoutVersions(t, vs);
    forall c | c in t'.rows
      ensures t'.rows[c].refcount == |VersionRefs(t'.versions, c)| + |SnapshotRefs(t'.snapshots, c)|
    {
      assert VersionRefs(t'.versions, c) == VersionRefs(t.versions, c) - vs;
      SplitCount(VersionRefs(t.versions, c), vs);
    }
    hide VersionRefs, SnapshotRefs;
  }

  lemma SnapshotRefsAdd(snapshots: map<nat, Snapshot>, x: nat, s: Snapshot, b: Blob)
    requires x !in snapshots
    ensures |SnapshotRefs(snapshots[x := s], b)| == |SnapshotRefs(snapshots, b)| + (if s.blob == b then 1 else 0)
  {
    var before, after := SnapshotRefs(snapshots, b), SnapshotRefs(snapshots[x := s], b);
    if s.blob == b { assert after == before + {x}; } else { assert after == before; }
  }

  lemma WithSnapshotCounted(t: Tables, x: nat, s: Snapshot)
    requires Counted(t) && x !in t.snapshots && s.blob in t.rows
    ensures Counted(WithSnapshot(t, x, s))
  {
    var t' := WithSnapshot(t, x, s);
    hide VersionRefs, SnapshotRefs;
    forall c | c in t'.rows
      ensures t'.rows[c].refcount == |VersionRefs(t'.versions, c)| + |SnapshotRefs(t'.snapshots, c)|
    {
      SnapshotRefsAdd(t.snapshots, x, s, c);
    }
  }

  lemma WithoutSnapshotsCounted(t: Tables, xs: set<nat>)
    requires Counted(t)
    ensures Counted(WithoutSnapshots(t, xs))
  {
    var t' := WithoutSnapshots(t, xs);
    hide SnapshotRefs, VersionRefs;
    forall c | c in t'.rows
      ensures t'.rows[c].refcount == |VersionRefs(t'.versions, c)| + |SnapshotRefs(t'.snapshots, c)|
    {
      SnapshotRefsWithout(t.snapshots, xs, c);
      SplitCount(SnapshotRefs(t.snapshots, c), xs);
    }
    hide VersionRefs, SnapshotRefs;
  }

  lemma SnapshotRefsWithout(snapshots: map<nat, Snapshot>, xs: set<nat>, b: Blob)
    ensures SnapshotRefs(snapshots - xs, b) == SnapshotRefs(snapshots, b) - xs
  {
  }

  lemma UpsertedCounted(t: Tables, b: Blob, now: int)
    requires Counted(t)
    ensures Counted(Upserted(t, b, now))
  {
    if b !in t.rows { assert !Referenced(t, b); }
    hide VersionRefs, SnapshotRefs;
  }

  /** The guard is the foreign key's equal: a row it lets go is referenced by nothing. */
  lemma OrphanDeletionCounted(t: Tables, b: Blob, grace: int, now: int)
    requires Counted(t) && Orphan(t, b, grace, now)
    ensures !Referenced(t, b) && Counted(WithoutRow(t, b))
  {
    CountZeroIffUnreferenced(t, b);
    forall v | v in t.versions && t.versions[v].Some? ensures t.versions[v].value != b {
      assert v in VersionRefs(t.versions, t.versions[v].value);
    }
    forall x | x in t.snapshots ensures t.snapshots[x].blob != b {
      assert x in SnapshotRefs(t.snapshots, t.snapshots[x].blob);
    }
    hide VersionRefs, SnapshotRefs;
  }

  // ----- retention -----

  predicate Newer(a: Snapshot, b: Snapshot) { a.created > b.created || (a.created == b.created && a.serial > b.serial) }

  function OfVariant(t: Tables, u: Variant): set<nat> { set x | x in t.snapshots && t.snapshots[x].variant == u }

  /** `seq` is a sequence of the table. */
  ghost predicate SeqsDistinct(t: Tables) {
    forall a, b :: a in t.snapshots && b in t.snapshots && t.snapshots[a].serial == t.snapshots[b].serial ==> a == b
  }

  /** The `limit` newest of `xs`. */
  ghost predicate IsNewest(t: Tables, xs: set<nat>, limit: nat, top: set<nat>)
    requires forall x :: x in xs ==> x in t.snapshots
  {
    && top <= xs && |top| == (if limit < |xs| then limit else |xs|)
    && forall a, b :: a in top && b in xs - top ==> Newer(t.snapshots[a], t.snapshots[b])
  }

  /** There is exactly one such set. */
  lemma NewestUnique(t: Tables, xs: set<nat>, limit: nat, p: set<nat>, q: set<nat>)
    requires forall x :: x in xs ==> x in t.snapshots
    requires IsNewest(t, xs, limit, p) && IsNewest(t, xs, limit, q)
    ensures p == q
  {
    assert p <= xs && q <= xs;
    hide IsNewest, Newer;
    SplitCount(p, q);
    SplitCount(q, p);
    assert p * q == q * p;
    SizesAgree(t, xs, limit, p, q);
    if p - q != {} && q - p != {} {
      var a :| a in p - q;
      var b :| b in q - p;
      NewestAhead(t, xs, limit, p, a, b);
      NewestAhead(t, xs, limit, q, b, a);
      NewerIsStrict(t.snapshots[a], t.snapshots[b]);
    }
    assert p == (p - q) + p * q && q == (q - p) + q * p;
  }

  lemma SizesAgree(t: Tables, xs: set<nat>, limit: nat, p: set<nat>, q: set<nat>)
    requires forall x :: x in xs ==> x in t.snapshots
    requires IsNewest(t, xs, limit, p) && IsNewest(t, xs, limit, q)
    ensures |p| == |q|
  {
  }

  lemma NewestAhead(t: Tables, xs: set<nat>, limit: nat, top: set<nat>, a: nat, b: nat)
    requires forall x :: x in xs ==> x in t.snapshots
    requires IsNewest(t, xs, limit, top) && a in top && b in xs - top
    ensures a in t.snapshots && b in t.snapshots && Newer(t.snapshots[a], t.snapshots[b])
  {
    hide Newer;
  }

  lemma NewerIsStrict(a: Snapshot, b: Snapshot)
    ensures !(Newer(a, b) && Newer(b, a))
  {
  }

  method Newest(t: Tables, xs: set<nat>) returns (m: nat)
    requires xs != {} && SeqsDistinct(t) && forall x :: x in xs ==> x in t.snapshots
    ensures m in xs && forall x :: x in xs - {m} ==> Newer(t.snapshots[m], t.snapshots[x])
  {
    m :| m in xs;
    var rest := xs - {m};
    while rest != {}
      invariant m in xs && rest <= xs && m !in rest
      invariant forall x :: x in xs - rest - {m} ==> Newer(t.snapshots[m], t.snapshots[x])
      decreases rest
    {
      var x :| x in rest;
      rest := rest - {x};
      if Newer(t.snapshots[x], t.snapshots[m]) { m := x; }
    }
  }

  /** `order by created_at desc, seq desc limit k`. */
  method NewestOf(t: Tables, xs: set<nat>, limit: nat) returns (top: set<nat>)
    requires SeqsDistinct(t) && forall x :: x in xs ==> x in t.snapshots
    ensures IsNewest(t, xs, limit, top)
  {
    hide Newer, SeqsDistinct;
    top := {};
    var rest := xs;
    while |top| < limit && rest != {}
      invariant top + rest == xs && top !! rest && |top| <= limit
      invariant forall a, b :: a in top && b in rest ==> Newer(t.snapshots[a], t.snapshots[b])
      decreases rest
    {
      var m := Newest(t, rest);
      top, rest := top + {m}, rest - {m};
    }
    assert xs - top == rest;
    assert |xs| == |top| + |rest|;
  }

  /** What retention removes: all but the newest `keep` and the snapshot "latest" leads to. */
  ghost predicate Pruned(t: Tables, u: Variant, keep: int, gone: set<nat>) {
    exists top :: IsNewest(t, OfVariant(t, u), if keep > 0 then keep else 0, top)
      && gone == OfVariant(t, u) - top - (if u in t.latest then {t.latest[u]} else {})
  }

  lemma WithoutSnapshotsPointers(t: Tables, u: Variant, gone: set<nat>)
    requires PointersOwn(t) && gone <= OfVariant(t, u) && (u in t.latest ==> t.latest[u] !in gone)
    ensures PointersOwn(WithoutSnapshots(t, gone)) && WithoutSnapshots(t, gone).latest == t.latest
  {
  }

  /** Retention keeps every "latest" pointer and its target, and touches no other variant. */
  lemma PruneKeepsPointers(t: Tables, u: Variant, keep: int, gone: set<nat>)
    requires PointersOwn(t) && Pruned(t, u, keep, gone)
    ensures var t' := WithoutSnapshots(t, gone);
            && PointersOwn(t') && t'.latest == t.latest
            && forall x :: x in t.snapshots && t.snapshots[x].variant != u ==> x in t'.snapshots
  {
    WithoutSnapshotsPointers(t, u, gone);
    assert gone <= OfVariant(t, u);
    hide IsNewest, PointersOwn;
  }

  /** Of the variant itself exactly the newest `keep` remain, with the pointer's target. */
  lemma PruneKeepsNewest(t: Tables, u: Variant, keep: int, gone: set<nat>, newest: set<nat>)
    requires Pruned(t, u, keep, gone) && IsNewest(t, OfVariant(t, u), if keep > 0 then keep else 0, newest)
    requires u in t.latest ==> t.latest[u] in OfVariant(t, u)
    ensures OfVariant(WithoutSnapshots(t, gone), u) == newest + (if u in t.latest then {t.latest[u]} else {})
  {
    var all := OfVariant(t, u);
    var limit := if keep > 0 then keep else 0;
    var top :| IsNewest(t, all, limit, top) && gone == all - top - (if u in t.latest then {t.latest[u]} else {});
    NewestUnique(t, all, limit, top, newest);
    assert newest <= all;
    OfVariantLess(t, u, gone);
    hide *;
    TakeBack(all, newest, if u in t.latest then {t.latest[u]} else {});
  }

  lemma TakeBack<T>(all: set<T>, a: set<T>, b: set<T>)
    requires a <= all && b <= all
    ensures all - (all - a - b) == a + b
  {
  }

  lemma OfVariantLess(t: Tables, u: Variant, gone: set<nat>)
    ensures OfVariant(WithoutSnapshots(t, gone), u) == OfVariant(t, u) - gone
  {
  }

  // ----- the catalog's operations -----

  class BlobCatalog {
    var t: Tables

    constructor ()
      ensures t == Tables(map[], map[], map[], map[])
    {
      t := Tables(map[], map[], map[], map[]);
    }

    method UpsertBlob(b: Blob, now: int)
      modifies this
      ensures t == Upserted(old(t), b, now)
    {
      if b in t.rows {
        t := t.(rows := t.rows[b := t.rows[b].(lastSeen := now)]);
      } else {
        t := t.(rows := t.rows[b := Row(0, now)]);
      }
    }

    method OrphanBlobs(grace: int, now: int) returns (orphans: set<Blob>)
      ensures orphans == Orphans(t, grace, now)
    {
      orphans := set b | b in t.rows && t.rows[b].refcount == 0 && t.rows[b].lastSeen < now - grace;
    }

    method DeleteBlobIfOrphan(b: Blob, grace: int, now: int) returns (deleted: bool)
      modifies this
      ensures deleted == Orphan(old(t), b, grace, now)
      ensures t == if deleted then WithoutRow(old(t), b) else old(t)
    {
      deleted := Orphan(t, b, grace, now);
      if deleted { t := t.(rows := t.rows - {b}); }
    }

    /** Insert a version or repoint it; `None` is the foreign key's refusal. */
    method PutVersion(v: nat, b: Option<Blob>) returns (ok: bool)
      modifies this
      ensures ok == (b.Some? ==> b.value in old(t).rows)
      ensures t == if ok then WithVersion(old(t), v, b) else old(t)
    {
      if b.Some? && b.value !in t.rows { return false; }
      var was := VersionBlob(t, v);
      var rows := t.rows;
      if was != b {
        if was.Some? { rows := Bumped(rows, was, -1); }
        if b.Some? { rows := Bumped(rows, b, 1); }
      }
      t := t.(versions := t.versions[v := b], rows := rows);
      ok := true;
    }

    method CreateSnapshot(x: nat, s: Snapshot) returns (ok: bool)
      requires x !in t.snapshots
      modifies this
      ensures ok == (s.blob in old(t).rows)
      ensures t == if ok then WithSnapshot(old(t), x, s) else old(t)
    {
      if s.blob !in t.rows { return false; }
      t := t.(snapshots := t.snapshots[x := s], rows := Bumped(t.rows, Some(s.blob), 1));
      ok := true;
    }

    method AdvanceLatest(u: Variant, x: nat) returns (ok: bool)
      modifies this
      ensures ok == (x in old(t).snapshots)
      ensures t == if ok then old(t).(latest := old(t).latest[u := x]) else old(t)
    {
      ok := x in t.snapshots;
      if ok { t := t.(latest := t.latest[u := x]); }
    }

    /** Record the blob, insert the snapshot, move the pointer: three statements, with others at
        work in between. They keep the invariants, do not use the new id, and never update a
        snapshot. */
    method RegisterSnapshot(u: Variant, x: nat, b: Blob, serial: nat, now: int, others: (nat, Tables) -> Tables)
        returns (error: Option<RegisterError>)
      requires Sound(t) && x !in t.snapshots && forall i: nat, s: Tables :: Sound(s) ==> Sound(others(i, s))
      requires forall i: nat, s: Tables :: x !in s.snapshots ==> x !in others(i, s).snapshots
      requires forall i: nat, s: Tables :: x in s.snapshots && x in others(i, s).snapshots ==>
               others(i, s).snapshots[x] == s.snapshots[x]
      modifies this
      ensures var meanwhile := others(0, Upserted(old(t), b, now));
              var later := others(1, WithSnapshot(meanwhile, x, Snapshot(u, b, now, serial)));
              && Sound(t)
              && error == (if b !in meanwhile.rows then Some(NoBlob)
                           else if x !in later.snapshots then Some(NoSnapshot) else None)
              && t == match error
                      case Some(NoBlob) => meanwhile
                      case Some(NoSnapshot) => later
                      case None => later.(latest := later.latest[u := x])
    {
      hide Sound, Upserted, WithSnapshot;
      RegistrationSteps(t, u, x, b, serial, now);
      UpsertBlob(b, now);
      OnlyRows(old(t), b, now);
      t := others(0, t);
      RegistrationSteps(t, u, x, b, serial, now);
      var inserted := CreateSnapshot(x, Snapshot(u, b, now, serial));
      if !inserted { return Some(NoBlob); }
      SnapshotThere(others(0, Upserted(old(t), b, now)), x, Snapshot(u, b, now, serial));
      t := others(1, t);
      RegistrationSteps(t, u, x, b, serial, now);
      var advanced := AdvanceLatest(u, x);
      error := if advanced then None else Some(NoSnapshot);
    }

    method PruneSnapshots(u: Variant, keep: int) returns (deleted: nat, ghost gone: set<nat>)
      requires SeqsDistinct(t)
      modifies this
      ensures Pruned(old(t), u, keep, gone) && t == WithoutSnapshots(old(t), gone) && deleted == |gone|
    {
      hide *;
      var all := OfVariant(t, u);
      InTable(t, u);
      var top := NewestOf(t, all, if keep > 0 then keep else 0);
      var doomed := all - top - (if u in t.latest then {t.latest[u]} else {});
      PrunedBy(t, u, keep, top);
      t := WithoutSnapshots(t, doomed);
      return |doomed|, doomed;
    }
  }

  lemma OnlyRows(t: Tables, b: Blob, now: int)
    ensures Upserted(t, b, now).snapshots == t.snapshots
  {
  }

  lemma SnapshotThere(t: Tables, x: nat, s: Snapshot)
    ensures x in WithSnapshot(t, x, s).snapshots && WithSnapshot(t, x, s).snapshots[x] == s
  {
  }

  lemma AdvancedSound(t: Tables, u: Variant, x: nat)
    requires Sound(t) && (x in t.snapshots ==> t.snapshots[x].variant == u)
    ensures x in t.snapshots ==> Sound(t.(latest := t.latest[u := x]))
  {
    SameCounts(t, t.(latest := t.latest[u := x]));
    hide Counted;
  }

  /** Each of the three statements keeps the invariants, given the row or snapshot it refers to. */
  lemma RegistrationSteps(t: Tables, u: Variant, x: nat, b: Blob, serial: nat, now: int)
    requires Sound(t)
    ensures Sound(Upserted(t, b, now)) && b in Upserted(t, b, now).rows
    ensures b in t.rows && x !in t.snapshots ==> Sound(WithSnapshot(t, x, Snapshot(u, b, now, serial)))
    ensures x in t.snapshots && t.snapshots[x].variant == u ==> Sound(t.(latest := t.latest[u := x]))
  {
    hide VersionRefs, SnapshotRefs, Counted;
    UpsertedCounted(t, b, now);
    if b in t.rows && x !in t.snapshots { WithSnapshotCounted(t, x, Snapshot(u, b, now, serial)); }
    if x in t.snapshots && t.snapshots[x].variant == u { AdvancedSound(t, u, x); }
  }

  lemma InTable(t: Tables, u: Variant)
    ensures forall x :: x in OfVariant(t, u) ==> x in t.snapshots
  {
  }

  lemma PrunedBy(t: Tables, u: Variant, keep: int, top: set<nat>)
    requires IsNewest(t, OfVariant(t, u), if keep > 0 then keep else 0, top)
    ensures Pruned(t, u, keep, OfVariant(t, u) - top - (if u in t.latest then {t.latest[u]} else {}))
  {
    hide IsNewest, OfVariant;
  }

  lemma SameCounts(a: Tables, b: Tables)
    requires Counted(a) && a.rows == b.rows && a.versions == b.versions && a.snapshots == b.snapshots
    ensures Counted(b)
  {
  }
}
