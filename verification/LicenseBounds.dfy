/** Update bounds of license keys and what they mean. A key and each of its entitlement edges
    may carry a ceiling on two axes, a date and a major version; "no ceiling" is on top. */
module LicenseBounds {
  import opened Options

  // ----- the lattice of bounds -----

  /** One axis; `None` is unbounded. */
  type Ceiling = Option<int>

  datatype Bound = Bound(until: Ceiling, major: Ceiling)

  const UNBOUNDED: Bound := Bound(None, None)

  predicate Below(a: Ceiling, b: Ceiling) { b.None? || (a.Some? && a.value <= b.value) }

  function Higher(a: Ceiling, b: Ceiling): Ceiling {
    if a.None? || b.None? then None else Some(if a.value <= b.value then b.value else a.value)
  }

  predicate Within(a: Bound, b: Bound) { Below(a.until, b.until) && Below(a.major, b.major) }

  /** Per axis, the more permissive. */
  function Join(a: Bound, b: Bound): Bound { Bound(Higher(a.until, b.until), Higher(a.major, b.major)) }

  lemma JoinIsLeast(a: Bound, b: Bound, c: Bound)
    ensures Within(a, Join(a, b)) && Within(b, Join(a, b))
    ensures Within(a, c) && Within(b, c) <==> Within(Join(a, b), c)
    ensures Within(a, c) && Within(c, a) ==> a == c
  {
  }

  lemma JoinAlgebra(a: Bound, b: Bound, c: Bound)
    ensures Join(a, b) == Join(b, a) && Join(a, a) == a && Join(a, Join(b, c)) == Join(Join(a, b), c)
  {
  }

  /** A NULL edge inherits the key's value, axis by axis. */
  function Inherit(edge: Bound, key: Bound): Bound {
    Bound(if edge.until.Some? then edge.until else key.until, if edge.major.Some? then edge.major else key.major)
  }

  /** `None`: not entitled at all. */
  function JoinEntitlements(a: Option<Bound>, b: Option<Bound>): Option<Bound> {
    if a.None? then b else if b.None? then a else Some(Join(a.value, b.value))
  }

  predicate EntitlesWithin(a: Option<Bound>, b: Option<Bound>) {
    a.None? || (b.Some? && Within(a.value, b.value))
  }

  ghost function JoinAll(bs: set<Bound>): (r: Option<Bound>)
    decreases bs
  {
    if bs == {} then None
    else
      var b :| b in bs;
      JoinEntitlements(JoinAll(bs - {b}), Some(b))
  }

  lemma Pick(bs: set<Bound>) returns (b: Bound)
    requires bs != {}
    ensures b in bs && JoinAll(bs) == JoinEntitlements(JoinAll(bs - {b}), Some(b))
  {
    b :| b in bs && JoinAll(bs) == JoinEntitlements(JoinAll(bs - {b}), Some(b));
  }

  /** `JoinAll` is an upper bound, and the least one. */
  lemma {:induction false} JoinAllIsAbove(bs: set<Bound>, b: Bound)
    requires b in bs
    ensures EntitlesWithin(Some(b), JoinAll(bs))
    decreases bs
  {
    var x := Pick(bs);
    if b != x { JoinAllIsAbove(bs - {x}, b); }
  }

  lemma {:induction false} JoinAllIsLeast(bs: set<Bound>, c: Bound)
    requires forall b :: b in bs ==> Within(b, c)
    ensures EntitlesWithin(JoinAll(bs), Some(c)) && (JoinAll(bs).None? <==> bs == {})
    decreases bs
  {
    if bs != {} {
      var x := Pick(bs);
      JoinAllIsLeast(bs - {x}, c);
    }
  }

  /** Axis by axis it is what the query computes: unbounded as soon as one edge is, otherwise
      the greatest value among the edges. */
  lemma {:induction false} JoinAllPerAxis(bs: set<Bound>)
    requires bs != {}
    ensures JoinAll(bs).Some?
    ensures exists b :: b in bs && b.until == JoinAll(bs).value.until
    ensures exists b :: b in bs && b.major == JoinAll(bs).value.major
    ensures forall b :: b in bs ==> Below(b.until, JoinAll(bs).value.until) && Below(b.major, JoinAll(bs).value.major)
    decreases bs
  {
    forall b | b in bs ensures EntitlesWithin(Some(b), JoinAll(bs)) { JoinAllIsAbove(bs, b); }
    var x := Pick(bs);
    var rest := bs - {x};
    if rest != {} {
      JoinAllPerAxis(rest);
      var u :| u in rest && u.until == JoinAll(rest).value.until;
      var m :| m in rest && m.major == JoinAll(rest).value.major;
      assert u in bs && m in bs;
    }
  }

  // ----- the tables -----

  datatype Key = Key(repo: nat, active: bool, bound: Bound, edition: Option<nat>, idempotency: Option<string>)

  /** Keys, and the edges from a key to a package set or to a package. */
  datatype Licenses =
    Licenses(keys: map<nat, Key>, setEdges: map<(nat, nat), Bound>, packageEdges: map<(nat, nat), Bound>)

  /** Which packages a set resolves to, by explicit members or glob rules, is arbitrary here,
      and so are the packages' names. */
  datatype Packages = Packages(resolves: (nat, nat) -> bool, name: nat -> string, ids: set<nat>)

  ghost predicate SetHasName(w: Packages, s: nat, name: string) {
    exists p :: p in w.ids && w.resolves(s, p) && w.name(p) == name
  }

  function KeyBound(db: Licenses, k: nat): Bound { if k in db.keys then db.keys[k].bound else UNBOUNDED }

  /** The bounds of key `k`'s edges to the things that `covers` holds of. */
  ghost function EdgeBounds(edges: map<(nat, nat), Bound>, key: Bound, k: nat, covers: nat -> bool): set<Bound> {
    set e | e in edges && e.0 == k && covers(e.1) :: Inherit(edges[e], key)
  }

  /** The bounds under which key `k` entitles to packages called `name`, one per edge. */
  ghost function CoveringBounds(w: Packages, db: Licenses, k: nat, name: string): set<Bound> {
    EdgeBounds(db.setEdges, KeyBound(db, k), k, (s: nat) => SetHasName(w, s, name))
    + EdgeBounds(db.packageEdges, KeyBound(db, k), k, (p: nat) => p in w.ids && w.name(p) == name)
  }

  /** `entitled_package_bounds`, for one name. */
  ghost function Effective(w: Packages, db: Licenses, k: nat, name: string): Option<Bound> {
    JoinAll(CoveringBounds(w, db, k, name))
  }

  // ----- merging one key into another -----

  datatype MergeOutcome = SameKey | NoSource | NoTarget | TargetBounded | Merged

  predicate Active(db: Licenses, repo: nat, k: nat) { k in db.keys && db.keys[k].repo == repo && db.keys[k].active }

  function Merging(db: Licenses, repo: nat, source: nat, target: nat): MergeOutcome {
    if source == target then SameKey
    else if !Active(db, repo, source) then NoSource
    else if !Active(db, repo, target) then NoTarget
    else if db.keys[target].bound != UNBOUNDED then TargetBounded
    else Merged
  }

  /** Copy the source's edges to the target with their inherited bounds written out; where the
      target has the edge already, keep the more permissive value per axis. */
  function MergedEdges(edges: map<(nat, nat), Bound>, source: nat, key: Bound, target: nat): map<(nat, nat), Bound> {
    map e | e in edges.Keys + (set f | f in edges && f.0 == source :: (target, f.1)) ::
      MergedEdge(edges, source, key, target, e)
  }

  function MergedEdge(edges: map<(nat, nat), Bound>, source: nat, key: Bound, target: nat, e: (nat, nat)): Bound {
    var moved := (source, e.1);
    if e.0 == target && moved in edges then
      (if e in edges then Join(edges[e], Inherit(edges[moved], key)) else Inherit(edges[moved], key))
    else if e in edges then edges[e]
    else UNBOUNDED
  }

  function Revoked(keys: map<nat, Key>, k: nat): map<nat, Key> {
    if k in keys then keys[k := keys[k].(active := false)] else keys
  }

  function AfterMerge(db: Licenses, repo: nat, source: nat, target: nat): Licenses {
    if Merging(db, repo, source, target) != Merged then db
    else
      Licenses(Revoked(db.keys, source),
               MergedEdges(db.setEdges, source, KeyBound(db, source), target),
               MergedEdges(db.packageEdges, source, KeyBound(db, source), target))
  }

  /** Bounds `after` stand for `mine` and `yours` together. */
  ghost predicate Pools(after: set<Bound>, mine: set<Bound>, yours: set<Bound>) {
    && (forall a :: a in after ==>
          a in mine + yours || exists x, y :: x in mine && y in yours && a == Join(x, y))
    && (forall b :: b in mine + yours ==> exists a :: a in after && Within(b, a))
  }

  lemma EdgesPool(edges: map<(nat, nat), Bound>, source: nat, key: Bound, target: nat, covers: nat -> bool)
    requires source != target
    ensures Pools(EdgeBounds(MergedEdges(edges, source, key, target), UNBOUNDED, target, covers),
                  EdgeBounds(edges, UNBOUNDED, target, covers), EdgeBounds(edges, key, source, covers))
  {
    var r := MergedEdges(edges, source, key, target);
    var after := EdgeBounds(r, UNBOUNDED, target, covers);
    var mine, yours := EdgeBounds(edges, UNBOUNDED, target, covers), EdgeBounds(edges, key, source, covers);
    hide Join;
    forall a | a in after
      ensures a in mine + yours || exists x, y :: x in mine && y in yours && a == Join(x, y)
    {
      var e :| e in r && e.0 == target && covers(e.1) && a == Inherit(r[e], UNBOUNDED);
      var moved := (source, e.1);
      if moved in edges {
        assert Inherit(edges[moved], key) in yours;
        if e in edges { assert Inherit(edges[e], UNBOUNDED) in mine; }
      } else {
        assert Inherit(edges[e], UNBOUNDED) in mine;
      }
    }
    forall b | b in mine ensures exists a :: a in after && Within(b, a) {
      var e :| e in edges && e.0 == target && covers(e.1) && b == Inherit(edges[e], UNBOUNDED);
      assert e in r && Inherit(r[e], UNBOUNDED) in after;
      if (source, e.1) in edges { JoinIsLeast(edges[e], Inherit(edges[(source, e.1)], key), r[e]); }
      assert Within(b, Inherit(r[e], UNBOUNDED));
    }
    forall b | b in yours ensures exists a :: a in after && Within(b, a) {
      var f :| f in edges && f.0 == source && covers(f.1) && b == Inherit(edges[f], key);
      var e := (target, f.1);
      assert f == (source, e.1);
      assert e in r && Inherit(r[e], UNBOUNDED) in after;
      if e in edges { JoinIsLeast(edges[e], Inherit(edges[f], key), r[e]); }
      assert Within(b, Inherit(r[e], UNBOUNDED));
    }
  }

  lemma PoolsTogether(a1: set<Bound>, m1: set<Bound>, y1: set<Bound>, a2: set<Bound>, m2: set<Bound>, y2: set<Bound>)
    requires Pools(a1, m1, y1) && Pools(a2, m2, y2)
    ensures Pools(a1 + a2, m1 + m2, y1 + y2)
  {
    hide Join, Within;
  }

  lemma PooledEmpty(after: set<Bound>, mine: set<Bound>, yours: set<Bound>)
    requires Pools(after, mine, yours)
    ensures after == {} <==> mine == {} && yours == {}
  {
    hide Join, Within;
    if after != {} {
      var a :| a in after;
      assert a in mine + yours || exists x, y :: x in mine && y in yours && a == Join(x, y);
    }
    if mine != {} {
      var b :| b in mine;
      assert b in mine + yours;
    }
    if yours != {} {
      var b :| b in yours;
      assert b in mine + yours;
    }
  }

  lemma PooledBelow(after: set<Bound>, mine: set<Bound>, yours: set<Bound>, c: Bound)
    requires Pools(after, mine, yours)
    requires EntitlesWithin(JoinAll(mine), Some(c)) && EntitlesWithin(JoinAll(yours), Some(c))
    ensures EntitlesWithin(JoinAll(after), Some(c))
  {
    hide JoinAll, Join;
    forall b | b in mine ensures Within(b, c) { JoinAllIsAbove(mine, b); }
    forall b | b in yours ensures Within(b, c) { JoinAllIsAbove(yours, b); }
    forall a | a in after ensures Within(a, c) {
      if a !in mine + yours {
        var x, y :| x in mine && y in yours && a == Join(x, y);
        JoinIsLeast(x, y, c);
      }
    }
    JoinAllIsLeast(after, c);
  }

  lemma PooledAbove(after: set<Bound>, some: set<Bound>, c: Bound)
    requires forall b :: b in some ==> exists a :: a in after && Within(b, a)
    requires EntitlesWithin(JoinAll(after), Some(c))
    ensures EntitlesWithin(JoinAll(some), Some(c))
  {
    hide JoinAll, Join;
    forall b | b in some ensures Within(b, c) {
      var a :| a in after && Within(b, a);
      JoinAllIsAbove(after, a);
    }
    JoinAllIsLeast(some, c);
  }

  lemma PooledJoin(after: set<Bound>, mine: set<Bound>, yours: set<Bound>)
    requires Pools(after, mine, yours)
    ensures JoinAll(after) == JoinEntitlements(JoinAll(mine), JoinAll(yours))
  {
    PooledEmpty(after, mine, yours);
    EmptyIffNone(after);
    EmptyIffNone(mine);
    EmptyIffNone(yours);
    hide JoinAll;
    if after != {} {
      var both, all := JoinEntitlements(JoinAll(mine), JoinAll(yours)).value, JoinAll(after).value;
      PooledBelow(after, mine, yours, both);
      PooledAbove(after, mine, all);
      PooledAbove(after, yours, all);
      JoinIsLeast(both, all, all);
      hide Pools;
    }
  }

  lemma EmptyIffNone(bs: set<Bound>)
    ensures JoinAll(bs).None? <==> bs == {}
  {
    JoinAllIsLeast(bs, UNBOUNDED);
  }

  /** Merging is a homomorphism: for every set membership and every package name, the target's
      effective bound becomes the join of the two keys' effective bounds. */
  lemma MergeJoins(w: Packages, db: Licenses, repo: nat, source: nat, target: nat, name: string)
    requires Merging(db, repo, source, target) == Merged
    ensures Effective(w, AfterMerge(db, repo, source, target), target, name)
            == JoinEntitlements(Effective(w, db, target, name), Effective(w, db, source, name))
  {
    hide MergedEdges, EdgeBounds, Pools, JoinAll, SetHasName;
    var bySet, byPackage := (s: nat) => SetHasName(w, s, name), (p: nat) => p in w.ids && w.name(p) == name;
    EdgesPool(db.setEdges, source, KeyBound(db, source), target, bySet);
    EdgesPool(db.packageEdges, source, KeyBound(db, source), target, byPackage);
    var after := AfterMerge(db, repo, source, target);
    var m1 := EdgeBounds(db.setEdges, UNBOUNDED, target, bySet);
    var y1 := EdgeBounds(db.setEdges, KeyBound(db, source), source, bySet);
    var m2 := EdgeBounds(db.packageEdges, UNBOUNDED, target, byPackage);
    var y2 := EdgeBounds(db.packageEdges, KeyBound(db, source), source, byPackage);
    var a1 := EdgeBounds(after.setEdges, UNBOUNDED, target, bySet);
    var a2 := EdgeBounds(after.packageEdges, UNBOUNDED, target, byPackage);
    PoolsTogether(a1, m1, y1, a2, m2, y2);
    PooledJoin(a1 + a2, m1 + m2, y1 + y2);
  }

  /** Every other key keeps its meaning; of the keys only the source changes, which is revoked. */
  lemma MergeLeavesOthers(w: Packages, db: Licenses, repo: nat, source: nat, target: nat, other: nat, name: string)
    requires other != target
    ensures Effective(w, AfterMerge(db, repo, source, target), other, name) == Effective(w, db, other, name)
    ensures var keys := AfterMerge(db, repo, source, target).keys;
            && keys.Keys == db.keys.Keys
            && forall k :: k in keys ==> keys[k] == if Merging(db, repo, source, target) == Merged && k == source
                                                    then db.keys[k].(active := false) else db.keys[k]
  {
    hide JoinAll, SetHasName, Join;
    if Merging(db, repo, source, target) == Merged {
      OthersEdges(db.setEdges, source, KeyBound(db, source), target, other, KeyBound(db, other),
                  (s: nat) => SetHasName(w, s, name));
      OthersEdges(db.packageEdges, source, KeyBound(db, source), target, other, KeyBound(db, other),
                  (p: nat) => p in w.ids && w.name(p) == name);
      hide MergedEdges, EdgeBounds;
    }
  }

  lemma OthersEdges(edges: map<(nat, nat), Bound>, source: nat, key: Bound, target: nat, other: nat, otherKey: Bound,
          covers: nat -> bool)
    requires other != target
    ensures EdgeBounds(MergedEdges(edges, source, key, target), otherKey, other, covers)
            == EdgeBounds(edges, otherKey, other, covers)
  {
    var r := MergedEdges(edges, source, key, target);
    assert forall e: (nat, nat) :: e.0 == other ==> (e in r <==> e in edges);
    assert forall e :: e in edges && e.0 == other ==> r[e] == edges[e];
    hide MergedEdge, Inherit;
  }

  lemma EdgesCommute(edges: map<(nat, nat), Bound>, a: nat, keyA: Bound, b: nat, keyB: Bound, target: nat)
    requires a != target && b != target && a != b
    ensures MergedEdges(MergedEdges(edges, a, keyA, target), b, keyB, target)
            == MergedEdges(MergedEdges(edges, b, keyB, target), a, keyA, target)
  {
    hide Join, Inherit;
    var ra, rb := MergedEdges(edges, a, keyA, target), MergedEdges(edges, b, keyB, target);
    var rab, rba := MergedEdges(ra, b, keyB, target), MergedEdges(rb, a, keyA, target);
    forall e: (nat, nat) ensures (e in rab <==> e in rba) && (e in rab ==> rab[e] == rba[e]) {
      var ea, eb := (a, e.1), (b, e.1);
      assert ea in rb <==> ea in edges;
      assert eb in ra <==> eb in edges;
      if ea in edges && eb in edges {
        var x, y := Inherit(edges[ea], keyA), Inherit(edges[eb], keyB);
        JoinAlgebra(x, y, y);
        if e in edges { JoinAlgebra(edges[e], x, y); JoinAlgebra(edges[e], y, x); }
      }
    }
  }

  /** Two sources can be folded into one target in either order: the tables end up the same. */
  lemma MergesCommute(db: Licenses, repo: nat, a: nat, b: nat, target: nat)
    requires a != b && Merging(db, repo, a, target) == Merged && Merging(db, repo, b, target) == Merged
    ensures Merging(AfterMerge(db, repo, a, target), repo, b, target) == Merged
    ensures AfterMerge(AfterMerge(db, repo, a, target), repo, b, target)
            == AfterMerge(AfterMerge(db, repo, b, target), repo, a, target)
  {
    EdgesCommute(db.setEdges, a, KeyBound(db, a), b, KeyBound(db, b), target);
    EdgesCommute(db.packageEdges, a, KeyBound(db, a), b, KeyBound(db, b), target);
    hide MergedEdges;
  }

  /** A merged source is revoked, so merging it again does nothing. */
  lemma MergeOnlyOnce(db: Licenses, repo: nat, source: nat, target: nat)
    requires Merging(db, repo, source, target) == Merged
    ensures Merging(AfterMerge(db, repo, source, target), repo, source, target) == NoSource
  {
    hide MergedEdges;
  }

  // ----- which versions a bound lets through -----

  /** What serving looks at: the date that counts for the license, less its grace, in seconds,
      if there is one; and the major version. */
  datatype Version = Version(date: Option<int>, grace: nat, major: int)

  predicate InWindow(b: Bound, v: Version) {
    && (b.until.None? || (v.date.Some? && v.date.value - v.grace <= b.until.value))
    && (b.major.None? || v.major <= b.major.value)
  }

  predicate Visible(e: Option<Bound>, v: Version) { e.Some? && InWindow(e.value, v) }

  /** Every version visible under either key is visible under the merged one. */
  lemma MergeKeepsVisible(w: Packages, db: Licenses, repo: nat, source: nat, target: nat, name: string, v: Version)
    requires Merging(db, repo, source, target) == Merged
    ensures Visible(Effective(w, db, source, name), v) || Visible(Effective(w, db, target, name), v)
            ==> Visible(Effective(w, AfterMerge(db, repo, source, target), target, name), v)
  {
    MergeJoins(w, db, repo, source, target, name);
    hide *;
    JoinKeepsVisible(Effective(w, db, target, name), Effective(w, db, source, name), v);
  }

  lemma JoinKeepsVisible(a: Option<Bound>, b: Option<Bound>, v: Version)
    ensures Visible(a, v) || Visible(b, v) ==> Visible(JoinEntitlements(a, b), v)
  {
  }

  predicate Comparable(a: Bound, b: Bound) { Within(a, b) || Within(b, a) }

  /** The converse fails when each key is ahead on one axis: the join then lets through versions
      that neither did. It is the plain union exactly for comparable bounds. */
  lemma JoinIsUnionIffComparable(a: Bound, b: Bound)
    ensures (forall v :: InWindow(Join(a, b), v) <==> InWindow(a, v) || InWindow(b, v)) <==> Comparable(a, b)
  {
    if Within(a, b) {
      assert Join(a, b) == b;
    } else if Within(b, a) {
      assert Join(a, b) == a;
    } else if !Below(a.until, b.until) {
      JoinShowsMore(a, b);
    } else {
      JoinShowsMore(b, a);
      JoinAlgebra(a, b, a);
    }
  }

  lemma JoinShowsMore(a: Bound, b: Bound)
    requires !Below(a.until, b.until) && !Below(b.major, a.major)
    ensures exists v :: InWindow(Join(a, b), v) && !InWindow(a, v) && !InWindow(b, v)
  {
    var v := Version(Some(b.until.value + 1), 0, a.major.value + 1);
    assert InWindow(Join(a, b), v) && !InWindow(a, v) && !InWindow(b, v);
  }

  // ----- the catalog's operation -----

  /** The "insert ... select ... on conflict do update" over one edge table, row by row. */
  method MergeEdges(edges: map<(nat, nat), Bound>, source: nat, key: Bound, target: nat) returns (r: map<(nat, nat),
          Bound>)
    requires source != target
    ensures r == MergedEdges(edges, source, key, target)
  {
    hide Join, Inherit;
    r := edges;
    var rows := set e | e in edges && e.0 == source;
    ghost var done: set<(nat, nat)> := {};
    while rows != {}
      invariant rows + done == (set e | e in edges && e.0 == source) && rows !! done
      invariant forall e :: e in r <==> e in edges || (e.0 == target && (source, e.1) in done)
      invariant forall e :: e in r ==> r[e] == if e.0 == target && (source, e.1) !in done && e in edges then edges[e]
                                               else MergedEdge(edges, source, key, target, e)
      decreases rows
    {
      var e :| e in rows;
      var effective := Inherit(edges[e], key);
      var moved := (target, e.1);
      r := r[moved := if moved in r then Join(r[moved], effective) else effective];
      rows, done := rows - {e}, done + {e};
    }
  }

  class LicenseTables {
    var db: Licenses

    constructor ()
      ensures db == Licenses(map[], map[], map[])
    {
      db := Licenses(map[], map[], map[]);
    }

    /** `merge_license_keys`, one transaction. */
    method MergeKeys(repo: nat, source: nat, target: nat) returns (o: MergeOutcome)
      modifies this
      ensures o == Merging(old(db), repo, source, target)
      ensures db == AfterMerge(old(db), repo, source, target)
    {
      hide MergedEdges;
      if source == target { return SameKey; }
      if source !in db.keys || db.keys[source].repo != repo || !db.keys[source].active { return NoSource; }
      if target !in db.keys || db.keys[target].repo != repo || !db.keys[target].active { return NoTarget; }
      if db.keys[target].bound.until.Some? || db.keys[target].bound.major.Some? { return TargetBounded; }
      var key := db.keys[source].bound;
      var setEdges := MergeEdges(db.setEdges, source, key, target);
      db := db.(setEdges := setEdges);
      var packageEdges := MergeEdges(db.packageEdges, source, key, target);
      db := db.(packageEdges := packageEdges);
      db := db.(keys := db.keys[source := db.keys[source].(active := false)]);
      o := Merged;
    }
  }
}
