/** Issuing license keys against editions, once per order, and attaching further editions to an
    existing key. Calendar months are an abstract function; ids are any id not yet in use. */
module LicenseIssue {
  import opened Options
  import opened LicenseBounds

  datatype Kind = Perpetual | Time(months: nat) | Version(major: int)

  datatype Edition = Edition(repo: nat, setId: nat, kind: Kind, snapshot: bool, active: bool)

  /** `now() + make_interval(months => n)`. */
  type Months = (int, nat) -> int

  /** An edition's bound template, resolved now. */
  function Template(after: Months, kind: Kind, now: int): Bound {
    match kind
    case Perpetual => UNBOUNDED
    case Time(months) => Bound(Some(after(now, months)), None)
    case Version(major) => Bound(None, Some(major))
  }

  // ----- attaching a set -----

  function MembersFrozen(w: Packages, l: nat, setId: nat, edge: Bound): map<(nat, nat), Bound> {
    map p | p in w.ids && w.resolves(setId, p) :: (l, p) := edge
  }

  /** `attach_edition_set`: freeze the members, or refer to the set; what is there already stays. */
  function Attached(w: Packages, db: Licenses, l: nat, setId: nat, snapshot: bool, edge: Bound): Licenses {
    if snapshot then db.(packageEdges := MembersFrozen(w, l, setId, edge) + db.packageEdges)
    else if (l, setId) in db.setEdges then db
    else db.(setEdges := db.setEdges[(l, setId) := edge])
  }

  // ----- issuing -----

  predicate Matches(db: Licenses, k: nat, repo: nat, e: nat, order: string) {
    && k in db.keys && db.keys[k].repo == repo
    && db.keys[k].edition == Some(e) && db.keys[k].idempotency == Some(order)
  }

  /** The order has a key. */
  ghost predicate HasOrder(db: Licenses, repo: nat, e: nat, order: Option<string>) {
    order.Some? && exists k :: Matches(db, k, repo, e, order.value)
  }

  /** The answer is the order's key, not a new one. */
  predicate Replays(db: Licenses, repo: nat, e: nat, order: Option<string>, r: Option<(nat, bool)>) {
    order.Some? && r.Some? && !r.value.1 && Matches(db, r.value.0, repo, e, order.value)
  }

  predicate Sellable(editions: map<nat, Edition>, repo: nat, e: nat) {
    e in editions && editions[e].repo == repo && editions[e].active
  }

  /** The insert of a key with its edges; `onEdge` makes it an account key, whose bound lies on
      the edges instead of the key. */
  function Issued(w: Packages, after: Months, db: Licenses, id: nat, repo: nat, e: nat, ed: Edition,
          order: Option<string>,
                  onEdge: bool, now: int): Licenses {
    var bound := Template(after, ed.kind, now);
    var key := Key(repo, true, if onEdge then UNBOUNDED else bound, Some(e), order);
    Attached(w, db.(keys := db.keys[id := key]), id, ed.setId, ed.snapshot, if onEdge then bound else UNBOUNDED)
  }

  /** No edges of keys that do not exist. */
  ghost predicate EdgesHaveKeys(db: Licenses) {
    (forall x :: x in db.setEdges ==> x.0 in db.keys) && forall x :: x in db.packageEdges ==> x.0 in db.keys
  }

  lemma OneEdge(edges: map<(nat, nat), Bound>, key: Bound, l: nat, x: nat, edge: Bound, covers: nat -> bool)
    requires forall e :: e in edges ==> e.0 != l
    ensures EdgeBounds(edges[(l, x) := edge], key, l, covers) == if covers(x) then {Inherit(edge, key)} else {}
  {
    hide Inherit;
    var r := edges[(l, x) := edge];
    if covers(x) {
      assert (l, x) in r;
      assert Inherit(edge, key) in EdgeBounds(r, key, l, covers);
    }
  }

  lemma NoEdges(edges: map<(nat, nat), Bound>, key: Bound, l: nat, covers: nat -> bool)
    requires forall e :: e in edges ==> e.0 != l
    ensures EdgeBounds(edges, key, l, covers) == {}
  {
    hide Inherit;
  }

  /** A package called `name` was in the set when the key was issued. */
  ghost predicate FrozenHasName(issued: Packages, w: Packages, setId: nat, name: string) {
    exists p :: p in issued.ids && issued.resolves(setId, p) && p in w.ids && w.name(p) == name
  }

  lemma FrozenEdges(issued: Packages, w: Packages, edges: map<(nat, nat), Bound>, key: Bound, l: nat, setId: nat,
                    edge: Bound, name: string)
    requires forall e :: e in edges ==> e.0 != l
    ensures EdgeBounds(MembersFrozen(issued, l, setId, edge) + edges, key, l, (p: nat) => p in w.ids
            && w.name(p) == name)
            == if FrozenHasName(issued, w, setId, name) then {Inherit(edge, key)} else {}
  {
    var frozen := MembersFrozen(issued, l, setId, edge);
    var covers := (p: nat) => p in w.ids && w.name(p) == name;
    var bs := EdgeBounds(frozen + edges, key, l, covers);
    forall b | b in bs ensures b == Inherit(edge, key) && FrozenHasName(issued, w, setId, name) {
      var e :| e in frozen + edges && e.0 == l && covers(e.1) && b == Inherit((frozen + edges)[e], key);
      assert e in frozen;
    }
    if FrozenHasName(issued, w, setId, name) {
      var p :| p in issued.ids && issued.resolves(setId, p) && p in w.ids && w.name(p) == name;
      assert (l, p) in frozen;
      assert Inherit(edge, key) in bs;
    }
  }

  lemma JoinOne(b: Bound)
    ensures JoinAll({b}) == Some(b) && JoinAll({}) == None
  {
    JoinAllPerAxis({b});
  }

  /** What an attached set covers later, when packages and sets are those of `w`. */
  ghost predicate StillCovers(issued: Packages, w: Packages, setId: nat, snapshot: bool, name: string) {
    if snapshot then FrozenHasName(issued, w, setId, name) else SetHasName(w, setId, name)
  }

  lemma AttachedCovers(issued: Packages, w: Packages, db: Licenses, l: nat, setId: nat, snapshot: bool, edge: Bound,
                       name: string)
    requires (forall e :: e in db.setEdges ==> e.0 != l) && (forall e :: e in db.packageEdges ==> e.0 != l)
    ensures CoveringBounds(w, Attached(issued, db, l, setId, snapshot, edge), l, name)
            == if StillCovers(issued, w, setId, snapshot, name) then {Inherit(edge, KeyBound(db, l))} else {}
  {
    var key := KeyBound(db, l);
    var bySet, byPackage := (s: nat) => SetHasName(w, s, name), (p: nat) => p in w.ids && w.name(p) == name;
    hide SetHasName, FrozenHasName, EdgeBounds, MembersFrozen, Inherit;
    if snapshot {
      FrozenEdges(issued, w, db.packageEdges, key, l, setId, edge, name);
      NoEdges(db.setEdges, key, l, bySet);
    } else {
      OneEdge(db.setEdges, key, l, setId, edge, bySet);
      NoEdges(db.packageEdges, key, l, byPackage);
    }
  }

  /** Issued by reference, a key entitles to what the set holds by then; frozen, to what the set held
      when it was issued. Either way, and with the bound on the key or on the edges, it is under
      exactly the edition's bound. */
  lemma IssuedMeans(issued: Packages, w: Packages, after: Months, db: Licenses, id: nat, repo: nat, e: nat, ed: Edition,
                    order: Option<string>, onEdge: bool, now: int, name: string)
    requires EdgesHaveKeys(db) && id !in db.keys
    ensures Effective(w, Issued(issued, after, db, id, repo, e, ed, order, onEdge, now), id, name)
            == if StillCovers(issued, w, ed.setId, ed.snapshot, name) then Some(Template(after, ed.kind, now)) else None
  {
    var bound := Template(after, ed.kind, now);
    var key, edge := if onEdge then UNBOUNDED else bound, if onEdge then bound else UNBOUNDED;
    assert Inherit(edge, key) == bound;
    JoinOne(bound);
    hide Template, StillCovers, JoinAll, Attached, Inherit, CoveringBounds;
    var db2 := db.(keys := db.keys[id := Key(repo, true, key, Some(e), order)]);
    AttachedCovers(issued, w, db2, id, ed.setId, ed.snapshot, edge, name);
  }

  /** At the time of issuing the two are the same. */
  lemma NothingChangedYet(w: Packages, setId: nat, snapshot: bool, name: string)
    ensures StillCovers(w, w, setId, snapshot, name) <==> SetHasName(w, setId, name)
  {
    if SetHasName(w, setId, name) {
      var p :| p in w.ids && w.resolves(setId, p) && w.name(p) == name;
      assert FrozenHasName(w, w, setId, name);
    }
  }

  /** What an edition of a kind lets its buyer have, bought at `now`: everything; what was released,
      grace deducted, within its months; or everything up to its major version. */
  predicate KindShows(after: Months, kind: Kind, now: int, v: LicenseBounds.Version) {
    match kind
    case Perpetual => true
    case Time(months) => v.date.Some? && v.date.value - v.grace <= after(now, months)
    case Version(major) => v.major <= major
  }

  lemma TemplateShows(after: Months, kind: Kind, now: int, v: LicenseBounds.Version)
    ensures InWindow(Template(after, kind, now), v) <==> KindShows(after, kind, now, v)
    ensures Template(after, kind, now) == match kind
                                          case Perpetual => Bound(None, None)
                                          case Time(months) => Bound(Some(after(now, months)), None)
                                          case Version(major) => Bound(None, Some(major))
  {
  }

  /** In versions: whatever way the key was issued, its buyer sees a version of a package exactly when
      the package is in the edition's set (a frozen one's as it was), and the version is one that
      editions of its kind let through. */
  lemma IssuedShows(issued: Packages, w: Packages, after: Months, db: Licenses, id: nat, repo: nat, e: nat, ed: Edition,
                    order: Option<string>, onEdge: bool, now: int, name: string, v: LicenseBounds.Version)
    requires EdgesHaveKeys(db) && id !in db.keys
    ensures Visible(Effective(w, Issued(issued, after, db, id, repo, e, ed, order, onEdge, now), id, name), v)
            <==> StillCovers(issued, w, ed.setId, ed.snapshot, name) && KindShows(after, ed.kind, now, v)
  {
    IssuedMeans(issued, w, after, db, id, repo, e, ed, order, onEdge, now, name);
    TemplateShows(after, ed.kind, now, v);
    hide Issued, Effective, Template, KindShows, InWindow, StillCovers;
  }

  // ----- attaching an edition to an existing key -----

  datatype Adding = Added | Standalone | NoKey | NoEdition

  function AddOutcome(db: Licenses, editions: map<nat, Edition>, repo: nat, l: nat, e: nat): Adding {
    if !Active(db, repo, l) then NoKey
    else if !Sellable(editions, repo, e) then NoEdition
    else if db.keys[l].bound != UNBOUNDED || editions[e].snapshot then Standalone
    else Added
  }

  /** The four outcomes, by what they depend on: an active key of the repository, an edition of it that
      is on sale, and a key without a bound of its own that is given no frozen members. */
  lemma AddOutcomes(db: Licenses, editions: map<nat, Edition>, repo: nat, l: nat, e: nat)
    ensures var o := AddOutcome(db, editions, repo, l, e);
            var key := l in db.keys && db.keys[l].repo == repo && db.keys[l].active;
            var onSale := e in editions && editions[e].repo == repo && editions[e].active;
            && (o == NoKey <==> !key)
            && (o == NoEdition <==> key && !onSale)
            && (o == Added <==> key && onSale && !editions[e].snapshot
                                && db.keys[l].bound.until.None? && db.keys[l].bound.major.None?)
  {
  }

  function AfterAdd(w: Packages, after: Months, db: Licenses, editions: map<nat, Edition>, repo: nat, l: nat, e: nat,
          now: int): Licenses {
    if AddOutcome(db, editions, repo, l, e) != Added then db
    else Attached(w, db, l, editions[e].setId, false, Template(after, editions[e].kind, now))
  }

  /** A first purchase of a set joins the edition's bound into what the key entitles to, and
      other keys are untouched. */
  lemma AddJoins(w: Packages, after: Months, db: Licenses, editions: map<nat, Edition>, repo: nat, l: nat, e: nat,
          now: int, k: nat, name: string)
    requires AddOutcome(db, editions, repo, l, e) == Added && (l, editions[e].setId) !in db.setEdges
    ensures var ed := editions[e];
            var gained := if k == l && SetHasName(w, ed.setId, name) then Some(Template(after, ed.kind, now)) else None;
            Effective(w, AfterAdd(w, after, db, editions, repo, l, e, now), k, name)
              == JoinEntitlements(Effective(w, db, k, name), gained)
  {
    var ed := editions[e];
    var bound := Template(after, ed.kind, now);
    hide Template, SetHasName, JoinAll, EdgeBounds, Pools, Join, CoveringBounds;
    var db' := AfterAdd(w, after, db, editions, repo, l, e, now);
    assert db' == db.(setEdges := db.setEdges[(l, ed.setId) := bound]);
    CoveringMore(w, db, l, ed.setId, bound, k, name);
    var before, gain := CoveringBounds(w, db, k, name), if k == l && SetHasName(w, ed.setId, name) then {bound} else {};
    PoolsDisjointly(before, gain);
    PooledJoin(before + gain, before, gain);
    JoinOne(bound);
  }

  /** In versions: after a first purchase of a set the buyer sees what the key showed before and, of
      the set's packages, what editions of the kind let through; and nothing else, where the key
      entitled to nothing before. */
  lemma AddedShows(w: Packages, after: Months, db: Licenses, editions: map<nat, Edition>, repo: nat, l: nat, e: nat,
                   now: int, name: string, v: LicenseBounds.Version)
    requires AddOutcome(db, editions, repo, l, e) == Added && (l, editions[e].setId) !in db.setEdges
    ensures var ed := editions[e]; var before := Effective(w, db, l, name);
            var shows := Visible(Effective(w, AfterAdd(w, after, db, editions, repo, l, e, now), l, name), v);
            var gained := SetHasName(w, ed.setId, name) && KindShows(after, ed.kind, now, v);
            && (Visible(before, v) || gained ==> shows)
            && (before.None? ==> (shows <==> gained))
            && (!SetHasName(w, ed.setId, name) ==> (shows <==> Visible(before, v)))
  {
    AddJoins(w, after, db, editions, repo, l, e, now, l, name);
    TemplateShows(after, editions[e].kind, now, v);
    var bound := Template(after, editions[e].kind, now);
    JoinKeepsVisible(Effective(w, db, l, name), Some(bound), v);
    hide AfterAdd, Effective, Template, KindShows, InWindow, SetHasName, AddOutcome, Join;
  }

  lemma CoveringMore(w: Packages, db: Licenses, l: nat, x: nat, bound: Bound, k: nat, name: string)
    requires (l, x) !in db.setEdges && l in db.keys && db.keys[l].bound == UNBOUNDED
    ensures CoveringBounds(w, db.(setEdges := db.setEdges[(l, x) := bound]), k, name)
            == CoveringBounds(w, db, k, name) + (if k == l && SetHasName(w, x, name) then {bound} else {})
  {
    var bySet := (s: nat) => SetHasName(w, s, name);
    AddEdge(db.setEdges, KeyBound(db, k), k, l, x, bound, bySet);
    assert Inherit(bound, UNBOUNDED) == bound;
    hide SetHasName, EdgeBounds, Inherit;
  }

  lemma PoolsDisjointly(a: set<Bound>, b: set<Bound>)
    ensures Pools(a + b, a, b)
  {
    hide Join;
    forall x | x in a + b ensures exists y :: y in a + b && Within(x, y) { assert Within(x, x); }
  }

  lemma AddEdge(edges: map<(nat, nat), Bound>, key: Bound, k: nat, l: nat, x: nat, edge: Bound, covers: nat -> bool)
    requires (l, x) !in edges
    ensures EdgeBounds(edges[(l, x) := edge], key, k, covers)
            == EdgeBounds(edges, key, k, covers) + (if k == l && covers(x) then {Inherit(edge, key)} else {})
  {
    hide Inherit;
    var r := edges[(l, x) := edge];
    forall b | b in EdgeBounds(edges, key, k, covers) ensures b in EdgeBounds(r, key, k, covers) {
      var e :| e in edges && e.0 == k && covers(e.1) && b == Inherit(edges[e], key);
      assert e in r && r[e] == edges[e];
    }
    if k == l && covers(x) {
      assert (l, x) in r;
      assert Inherit(edge, key) in EdgeBounds(r, key, k, covers);
    }
  }

  /** But a second edition over the same set is reported as added and ignored. So for each
      package of the set the buyer is entitled to the added edition's bound exactly when the
      set had no edge yet, or the key entitled to that bound before. */
  lemma AddReachesBoundIff(w: Packages, after: Months, db: Licenses, editions: map<nat, Edition>, repo: nat, l: nat,
                           e: nat, now: int, name: string)
    requires AddOutcome(db, editions, repo, l, e) == Added && SetHasName(w, editions[e].setId, name)
    ensures var bound := Template(after, editions[e].kind, now);
            EntitlesWithin(Some(bound), Effective(w, AfterAdd(w, after, db, editions, repo, l, e, now), l, name))
            <==> (l, editions[e].setId) !in db.setEdges || EntitlesWithin(Some(bound), Effective(w, db, l, name))
  {
    if (l, editions[e].setId) !in db.setEdges {
      AddJoins(w, after, db, editions, repo, l, e, now, l, name);
      hide *;
      GainIsWithin(Effective(w, db, l, name), Template(after, editions[e].kind, now));
    } else {
      assert AfterAdd(w, after, db, editions, repo, l, e, now) == db;
      hide *;
    }
  }

  lemma GainIsWithin(a: Option<Bound>, b: Bound)
    ensures EntitlesWithin(Some(b), JoinEntitlements(a, Some(b)))
  {
    if a.Some? { JoinIsLeast(a.value, b, b); }
  }

  /** So buying a perpetual edition after an annual one on the same set gains nothing. */
  lemma PerpetualAfterAnnualIsIgnored(w: Packages, after: Months, db: Licenses, editions: map<nat, Edition>,
          repo: nat, l: nat,
                                      annual: nat, perpetual: nat, now: int, later: int)
    requires AddOutcome(db, editions, repo, l, annual) == Added && AddOutcome(db, editions, repo, l, perpetual) == Added
    requires editions[annual].setId == editions[perpetual].setId && (l, editions[annual].setId) !in db.setEdges
    requires editions[annual].kind.Time? && editions[perpetual].kind.Perpetual?
    ensures var first := AfterAdd(w, after, db, editions, repo, l, annual, now);
            && AddOutcome(first, editions, repo, l, perpetual) == Added
            && AfterAdd(w, after, first, editions, repo, l, perpetual, later) == first
            && first.setEdges[(l, editions[perpetual].setId)].until.Some?
  {
  }

  // ----- concurrent calls for one order -----

  /** How far a call of `issue_from_edition` has come. Each arrow is one statement or
      transaction: the fast-path lookup, the insert, the lookup after losing the race. */
  datatype Phase = Arrived | NotFound | Lost | Done(result: Option<(nat, bool)>)

  datatype Call = Call(repo: nat, edition: nat, order: Option<string>, onEdge: bool, phase: Phase)

  /** The order a call is for. */
  datatype Order = Order(repo: nat, edition: nat, id: string)

  function OrderOf(c: Call): Option<Order> {
    match c.order
    case Some(x) => Some(Order(c.repo, c.edition, x))
    case None => None
  }

  /** The tables, the editions ever deleted, the calls in flight, and a history of which license
      each order created. */
  datatype Shop = Shop(db: Licenses, editions: map<nat, Edition>, deleted: set<nat>, calls: seq<Call>,
                       created: map<Order, nat>)

  ghost predicate Found(db: Licenses, c: Call, k: nat) { c.order.Some? && Matches(db, k, c.repo, c.edition,
          c.order.value) }

  function Advance(s: Shop, i: nat, phase: Phase): Shop
    requires i < |s.calls|
  {
    s.(calls := s.calls[i := s.calls[i].(phase := phase)])
  }

  /** The fast path: a prior issue for the order is a replay. */
  ghost predicate Lookup(s: Shop, t: Shop, i: nat)
    requires i < |s.calls|
  {
    var c := s.calls[i];
    c.phase == Arrived
    && ((exists k :: Found(s.db, c, k) && t == Advance(s, i, Done(Some((k, false)))))
        || ((forall k :: !Found(s.db, c, k)) && t == Advance(s, i, NotFound)))
  }

  /** The insert: nothing for an edition that is not on sale; the unique index turns away a
      second key for the order; otherwise a new key. */
  ghost predicate Insert(w: Packages, after: Months, s: Shop, t: Shop, i: nat)
    requires i < |s.calls|
  {
    var c := s.calls[i];
    c.phase == NotFound
    && (if !Sellable(s.editions, c.repo, c.edition) then t == Advance(s, i, Done(None))
        else if exists k :: Found(s.db, c, k) then t == Advance(s, i, Lost)
        else exists id: nat, now: int :: id !in s.db.keys && t == Inserted(w, after, s, i, id, now))
  }

  function Inserted(w: Packages, after: Months, s: Shop, i: nat, id: nat, now: int): Shop
    requires i < |s.calls| && s.calls[i].edition in s.editions
  {
    var c := s.calls[i];
    Advance(s, i, Done(Some((id, true)))).(
      db := Issued(w, after, s.db, id, c.repo, c.edition, s.editions[c.edition], c.order, c.onEdge, now),
      created := match OrderOf(c) case Some(o) => s.created[o := id] case None => s.created)
  }

  /** The loser of the race answers with the winner's key. */
  ghost predicate Resolve(s: Shop, t: Shop, i: nat)
    requires i < |s.calls|
  {
    var c := s.calls[i];
    c.phase == Lost
    && ((exists k :: Found(s.db, c, k) && t == Advance(s, i, Done(Some((k, false)))))
        || ((forall k :: !Found(s.db, c, k)) && t == Advance(s, i, Done(None))))
  }

  /** Everything else may change keys and edges at will (revoke, renew, merge, new keys), but
      not which order a key was issued for. */
  ghost predicate OrdersKept(db: Licenses, db': Licenses) {
    && (forall k :: k in db.keys ==>
          k in db'.keys && db'.keys[k].repo == db.keys[k].repo && db'.keys[k].edition == db.keys[k].edition
          && db'.keys[k].idempotency == db.keys[k].idempotency)
    && forall k :: k in db'.keys && k !in db.keys ==> db'.keys[k].idempotency.None?
  }

  /** Deleting an edition clears it from its keys; it does not come back. */
  function WithoutEdition(db: Licenses, e: nat): Licenses {
    db.(keys := map k | k in db.keys ::
                  if db.keys[k].edition == Some(e) then db.keys[k].(edition := None) else db.keys[k])
  }

  predicate Deletes(s: Shop, t: Shop, e: nat) {
    t == s.(db := WithoutEdition(s.db, e), editions := s.editions - {e}, deleted := s.deleted + {e})
  }

  predicate Edits(s: Shop, t: Shop, e: nat, ed: Edition) {
    e !in s.deleted && t == s.(editions := s.editions[e := ed])
  }

  predicate Calls(s: Shop, t: Shop, c: Call) {
    c.phase == Arrived && t == s.(calls := s.calls + [c])
  }

  ghost predicate Others(s: Shop, t: Shop) {
    || (OrdersKept(s.db, t.db) && t == s.(db := t.db))
    || (exists e :: Deletes(s, t, e))
    || (exists e, ed :: Edits(s, t, e, ed))
    || (exists c :: Calls(s, t, c))
  }

  ghost predicate Step(w: Packages, after: Months, s: Shop, t: Shop) {
    || Others(s, t)
    || exists i :: 0 <= i < |s.calls| && (Lookup(s, t, i) || Insert(w, after, s, t, i) || Resolve(s, t, i))
  }

  ghost predicate Opening(s: Shop) {
    && s.calls == [] && s.created == map[] && s.deleted == {}
    && forall k :: k in s.db.keys ==> s.db.keys[k].idempotency.None?
  }

  ghost predicate Run(w: Packages, after: Months, trace: seq<Shop>) {
    trace != [] && Opening(trace[0]) && forall i :: 0 <= i < |trace| - 1 ==> Step(w, after, trace[i], trace[i + 1])
  }

  // ----- the invariant -----

  ghost predicate KeysRecorded(s: Shop) {
    forall k, repo, e, x :: Matches(s.db, k, repo, e, x)
      ==> Order(repo, e, x) in s.created && s.created[Order(repo, e, x)] == k
  }

  ghost predicate RecordedKept(s: Shop) {
    forall o :: o in s.created ==> Matches(s.db, s.created[o], o.repo, o.edition, o.id) || o.edition in s.deleted
  }

  ghost predicate Answered(s: Shop, c: Call) {
    && (c.phase.Done? && c.phase.result.Some? && OrderOf(c).Some? ==>
          OrderOf(c).value in s.created && s.created[OrderOf(c).value] == c.phase.result.value.0)
    && (c.phase.Lost? ==> OrderOf(c).Some? && OrderOf(c).value in s.created)
  }

  predicate Creator(c: Call) { c.phase.Done? && c.phase.result.Some? && c.phase.result.value.1 }

  ghost predicate OneCreator(s: Shop) {
    forall i, j :: 0 <= i < |s.calls| && 0 <= j < |s.calls| && BothCreated(s.calls[i], s.calls[j]) ==> i == j
  }

  predicate BothCreated(c: Call, d: Call) {
    OrderOf(c).Some? && OrderOf(c) == OrderOf(d) && Creator(c) && Creator(d)
  }

  /** Each recorded order was created by a call that says so. */
  ghost predicate CreatorsKnown(s: Shop) {
    forall o :: o in s.created ==> exists i :: CreatedBy(s, o, i)
  }

  ghost predicate CreatedBy(s: Shop, o: Order, i: int) {
    && 0 <= i < |s.calls| && Creator(s.calls[i]) && OrderOf(s.calls[i]) == Some(o)
    && o in s.created && s.calls[i].phase.result.value.0 == s.created[o]
  }

  ghost predicate Consistent(s: Shop) {
    && KeysRecorded(s) && RecordedKept(s) && OneCreator(s)
    && (forall i :: 0 <= i < |s.calls| ==> Answered(s, s.calls[i]))
    && forall e :: e in s.deleted ==> e !in s.editions
  }

  /** Advancing one call keeps what is known about the others. */
  lemma AdvanceConsistent(s: Shop, i: nat, phase: Phase)
    requires i < |s.calls| && Consistent(s) && Answered(s, s.calls[i].(phase := phase))
             && !Creator(s.calls[i].(phase := phase))
    ensures Consistent(Advance(s, i, phase))
  {
    var t := Advance(s, i, phase);
    forall j | 0 <= j < |t.calls| ensures Answered(t, t.calls[j]) {
      assert Answered(s, if j == i then s.calls[i].(phase := phase) else s.calls[j]);
    }
    hide Matches;
  }

  lemma FoundIsRecorded(s: Shop, c: Call, k: nat)
    requires KeysRecorded(s) && Found(s.db, c, k)
    ensures OrderOf(c).Some? && OrderOf(c).value in s.created && s.created[OrderOf(c).value] == k
  {
    hide Matches;
  }

  lemma CallConsistent(s: Shop, t: Shop, i: nat)
    requires i < |s.calls| && Consistent(s) && (Lookup(s, t, i) || Resolve(s, t, i))
    ensures Consistent(t)
  {
    hide Matches, Consistent, KeysRecorded;
    assert KeysRecorded(s) by { ConsistentParts(s); }
    var c := s.calls[i];
    if exists k :: Found(s.db, c, k) && t == Advance(s, i, Done(Some((k, false)))) {
      var k :| Found(s.db, c, k) && t == Advance(s, i, Done(Some((k, false))));
      FoundIsRecorded(s, c, k);
      AdvanceConsistent(s, i, Done(Some((k, false))));
    } else if c.phase == Arrived {
      AdvanceConsistent(s, i, NotFound);
    } else {
      AdvanceConsistent(s, i, Done(None));
    }
  }

  lemma ConsistentParts(s: Shop)
    requires Consistent(s)
    ensures KeysRecorded(s) && RecordedKept(s) && OneCreator(s)
    ensures forall e :: e in s.deleted ==> e !in s.editions
    ensures forall i :: 0 <= i < |s.calls| ==> Answered(s, s.calls[i])
  {
    hide KeysRecorded, RecordedKept, OneCreator, Answered;
  }

  lemma IssuedKeys(w: Packages, after: Months, db: Licenses, id: nat, repo: nat, e: nat, ed: Edition,
          order: Option<string>,
                   onEdge: bool, now: int)
    requires id !in db.keys
    ensures forall k, r, f, x :: Matches(Issued(w, after, db, id, repo, e, ed, order, onEdge, now), k, r, f, x) <==>
              Matches(db, k, r, f, x) || (k == id && r == repo && f == e && order == Some(x))
  {
    hide Template, MembersFrozen;
  }

  lemma OrderIsNew(s: Shop, c: Call)
    requires Consistent(s) && OrderOf(c).Some? && c.edition in s.editions && forall k :: !Found(s.db, c, k)
    ensures OrderOf(c).value !in s.created
  {
    hide KeysRecorded, OneCreator, Answered;
    var o := OrderOf(c).value;
    assert !Found(s.db, c, if o in s.created then s.created[o] else 0);
  }

  lemma InsertedConsistent(w: Packages, after: Months, s: Shop, i: nat, id: nat, now: int)
    requires Consistent(s) && i < |s.calls| && s.calls[i].phase == NotFound && s.calls[i].edition in s.editions
    requires id !in s.db.keys && forall k :: !Found(s.db, s.calls[i], k)
    ensures Consistent(Inserted(w, after, s, i, id, now))
  {
    var t, c := Inserted(w, after, s, i, id, now), s.calls[i];
    IssuedKeys(w, after, s.db, id, c.repo, c.edition, s.editions[c.edition], c.order, c.onEdge, now);
    if c.order.Some? { OrderIsNew(s, c); }
    ConsistentParts(s);
    hide Matches, Issued, Found;
    assert KeysRecorded(t) by { hide RecordedKept, OneCreator, Answered; }
    assert RecordedKept(t) by { hide KeysRecorded, OneCreator, Answered; }
    InsertedAnswered(w, after, s, i, id, now);
    hide KeysRecorded, RecordedKept, Answered, OneCreator;
  }

  lemma InsertedAnswered(w: Packages, after: Months, s: Shop, i: nat, id: nat, now: int)
    requires i < |s.calls| && s.calls[i].phase == NotFound && s.calls[i].edition in s.editions
    requires OneCreator(s) && forall j :: 0 <= j < |s.calls| ==> Answered(s, s.calls[j])
    requires OrderOf(s.calls[i]).Some? ==> OrderOf(s.calls[i]).value !in s.created
    ensures var t := Inserted(w, after, s, i, id, now);
            OneCreator(t) && forall j :: 0 <= j < |t.calls| ==> Answered(t, t.calls[j])
  {
    hide Issued;
    var t, c := Inserted(w, after, s, i, id, now), s.calls[i];
    forall j | 0 <= j < |t.calls| ensures Answered(t, t.calls[j]) {
      if j != i { assert Answered(s, s.calls[j]); }
    }
    forall j | 0 <= j < |s.calls| && Creator(s.calls[j]) && OrderOf(s.calls[j]).Some?
      ensures OrderOf(s.calls[j]).value in s.created
    {
      assert Answered(s, s.calls[j]);
    }
    forall j, k | 0 <= j < |t.calls| && 0 <= k < |t.calls| && BothCreated(t.calls[j], t.calls[k]) ensures j == k {
      if j != i && k != i { assert BothCreated(s.calls[j], s.calls[k]); }
    }
  }

  lemma InsertConsistent(w: Packages, after: Months, s: Shop, t: Shop, i: nat)
    requires i < |s.calls| && Consistent(s) && Insert(w, after, s, t, i)
    ensures Consistent(t)
  {
    hide Matches, Consistent, KeysRecorded, Inserted;
    ConsistentParts(s);
    var c := s.calls[i];
    if !Sellable(s.editions, c.repo, c.edition) {
      AdvanceConsistent(s, i, Done(None));
    } else if exists k :: Found(s.db, c, k) {
      var k :| Found(s.db, c, k);
      FoundIsRecorded(s, c, k);
      AdvanceConsistent(s, i, Lost);
    } else {
      var id: nat, now: int :| id !in s.db.keys && t == Inserted(w, after, s, i, id, now);
      InsertedConsistent(w, after, s, i, id, now);
    }
  }

  lemma OthersConsistent(s: Shop, t: Shop)
    requires Consistent(s) && Others(s, t)
    ensures Consistent(t)
  {
    ConsistentParts(s);
    hide Consistent, Answered, OneCreator, KeysRecorded, RecordedKept, OrdersKept;
    if exists c :: Calls(s, t, c) {
      var c :| Calls(s, t, c);
      ArrivalConsistent(s, c);
    } else if exists e :: Deletes(s, t, e) {
      var e :| Deletes(s, t, e);
      DeletionRecorded(s, t, e);
      SameCallsConsistent(s, t);
    } else {
      if t.db == s.db { SameOrders(s.db); }
      OthersRecorded(s, t);
      SameCallsConsistent(s, t);
    }
  }

  lemma DeletionRecorded(s: Shop, t: Shop, e: nat)
    requires KeysRecorded(s) && RecordedKept(s) && Deletes(s, t, e)
    ensures KeysRecorded(t) && RecordedKept(t)
  {
    assert forall k, r, f, x :: Matches(t.db, k, r, f, x) <==> Matches(s.db, k, r, f, x) && f != e;
    hide Matches;
  }

  lemma SameOrders(db: Licenses)
    ensures OrdersKept(db, db)
  {
  }

  lemma OthersRecorded(s: Shop, t: Shop)
    requires KeysRecorded(s) && RecordedKept(s) && OrdersKept(s.db, t.db) && t.created == s.created
             && t.deleted == s.deleted
    ensures KeysRecorded(t) && RecordedKept(t)
  {
    assert forall k, r, f, x :: Matches(t.db, k, r, f, x) <==> Matches(s.db, k, r, f, x);
    hide Matches;
  }

  lemma SameCallsConsistent(s: Shop, t: Shop)
    requires Consistent(s) && t.calls == s.calls && t.created == s.created && KeysRecorded(t) && RecordedKept(t)
    requires forall e :: e in t.deleted ==> e !in t.editions
    ensures Consistent(t)
  {
    ConsistentParts(s);
    forall i | 0 <= i < |t.calls| ensures Answered(t, t.calls[i]) { assert Answered(s, s.calls[i]); }
    hide KeysRecorded, RecordedKept, Answered;
  }

  lemma ArrivalConsistent(s: Shop, c: Call)
    requires Consistent(s) && c.phase == Arrived
    ensures Consistent(s.(calls := s.calls + [c]))
  {
    ConsistentParts(s);
    var t := s.(calls := s.calls + [c]);
    forall i | 0 <= i < |t.calls| ensures Answered(t, t.calls[i]) {
      if i < |s.calls| { assert Answered(s, s.calls[i]); }
    }
    forall i, j | 0 <= i < |t.calls| && 0 <= j < |t.calls| && BothCreated(t.calls[i], t.calls[j]) ensures i == j {
      assert i < |s.calls| && j < |s.calls|;
      assert BothCreated(s.calls[i], s.calls[j]);
    }
    hide Answered, Matches;
    assert KeysRecorded(t) && RecordedKept(t);
    hide KeysRecorded, RecordedKept, OneCreator;
  }

  lemma {:induction false} RunConsistent(w: Packages, after: Months, trace: seq<Shop>, n: nat)
    requires Run(w, after, trace) && n < |trace|
    ensures Consistent(trace[n])
    decreases n
  {
    hide Consistent, Opening, Others, Lookup, Insert, Resolve;
    if n == 0 {
      OpeningConsistent(trace[0]);
    } else {
      RunConsistent(w, after, trace, n - 1);
      var s, t := trace[n - 1], trace[n];
      assert Step(w, after, s, t);
      if Others(s, t) {
        OthersConsistent(s, t);
      } else {
        var i :| 0 <= i < |s.calls| && (Lookup(s, t, i) || Insert(w, after, s, t, i) || Resolve(s, t, i));
        if Insert(w, after, s, t, i) { InsertConsistent(w, after, s, t, i); } else { CallConsistent(s, t, i); }
      }
    }
  }

  lemma OpeningConsistent(s: Shop)
    requires Opening(s)
    ensures Consistent(s)
  {
  }

  lemma InsertKeepsCreators(w: Packages, after: Months, s: Shop, t: Shop, j: nat)
    requires CreatorsKnown(s) && Consistent(s) && j < |s.calls| && Insert(w, after, s, t, j)
    ensures CreatorsKnown(t)
  {
    hide Matches, Issued, CreatorsKnown, Consistent;
    var c := s.calls[j];
    if !Sellable(s.editions, c.repo, c.edition) || exists k :: Found(s.db, c, k) {
      AdvanceKeepsCreators(s, t, j);
    } else {
      var id: nat, now: int :| id !in s.db.keys && t == Inserted(w, after, s, j, id, now);
      if c.order.Some? { OrderIsNew(s, c); }
      InsertedCreators(w, after, s, j, id, now);
    }
  }

  lemma InsertedCreators(w: Packages, after: Months, s: Shop, j: nat, id: nat, now: int)
    requires CreatorsKnown(s) && j < |s.calls| && s.calls[j].phase == NotFound && s.calls[j].edition in s.editions
    requires OrderOf(s.calls[j]).Some? ==> OrderOf(s.calls[j]).value !in s.created
    ensures CreatorsKnown(Inserted(w, after, s, j, id, now))
  {
    hide Issued;
    var t := Inserted(w, after, s, j, id, now);
    forall o | o in t.created ensures exists i :: CreatedBy(t, o, i) {
      if o in s.created {
        var i :| CreatedBy(s, o, i);
        assert CreatedBy(t, o, i);
      } else {
        assert CreatedBy(t, o, j);
      }
    }
  }

  /** A call in flight moves on, or others act: no answer given is changed. */
  lemma AdvanceKeepsCreators(s: Shop, t: Shop, j: nat)
    requires CreatorsKnown(s) && t.created == s.created && |t.calls| >= |s.calls|
    requires forall i :: 0 <= i < |s.calls| && i != j ==> t.calls[i] == s.calls[i]
    requires j < |s.calls| ==> !s.calls[j].phase.Done?
    ensures CreatorsKnown(t)
  {
    forall o | o in t.created ensures exists i :: CreatedBy(t, o, i) {
      var i :| CreatedBy(s, o, i);
      assert CreatedBy(t, o, i);
    }
  }

  lemma StepCreatorsKnown(w: Packages, after: Months, s: Shop, t: Shop)
    requires CreatorsKnown(s) && Consistent(s) && Step(w, after, s, t)
    ensures CreatorsKnown(t)
  {
    hide CreatorsKnown, Consistent, Insert, Found, OrdersKept;
    if Others(s, t) {
      AdvanceKeepsCreators(s, t, |s.calls|);
    } else {
      var j :| 0 <= j < |s.calls| && (Lookup(s, t, j) || Insert(w, after, s, t, j) || Resolve(s, t, j));
      if Insert(w, after, s, t, j) { InsertKeepsCreators(w, after, s, t, j); } else { AdvanceKeepsCreators(s, t, j); }
    }
  }

  /** Every order a key was issued for has one call, and only one, that was told it created the key,
      and that call has the key. */
  lemma {:induction false} OneCreatorPerOrder(w: Packages, after: Months, trace: seq<Shop>, n: nat)
    requires Run(w, after, trace) && n < |trace|
    ensures CreatorsKnown(trace[n])
    ensures forall o, i, j :: CreatedBy(trace[n], o, i) && CreatedBy(trace[n], o, j) ==> i == j
    decreases n
  {
    RunConsistent(w, after, trace, n);
    ConsistentParts(trace[n]);
    forall o, i, j | CreatedBy(trace[n], o, i) && CreatedBy(trace[n], o, j) ensures i == j {
      assert BothCreated(trace[n].calls[i], trace[n].calls[j]);
    }
    hide Consistent, KeysRecorded, RecordedKept, OneCreator, Answered;
    if n == 0 {
      assert Opening(trace[0]);
    } else {
      hide CreatorsKnown, CreatedBy;
      OneCreatorPerOrder(w, after, trace, n - 1);
      RunConsistent(w, after, trace, n - 1);
      assert Step(w, after, trace[n - 1], trace[n]);
      StepCreatorsKnown(w, after, trace[n - 1], trace[n]);
    }
  }

  /** At-least-once webhooks are safe: in every interleaving of calls with each other and with
      everything else, the calls for one order that return a license return the same one, and
      at most one of them created it. */
  lemma OneLicensePerOrder(w: Packages, after: Months, trace: seq<Shop>, n: nat, i: nat, j: nat)
    requires Run(w, after, trace) && n < |trace| && i < |trace[n].calls| && j < |trace[n].calls|
    requires var c, d := trace[n].calls[i], trace[n].calls[j];
             OrderOf(c).Some? && OrderOf(c) == OrderOf(d) && c.phase.Done? && d.phase.Done?
             && c.phase.result.Some? && d.phase.result.Some?
    ensures var r, q := trace[n].calls[i].phase.result.value, trace[n].calls[j].phase.result.value;
            r.0 == q.0 && (r.1 && q.1 ==> i == j)
  {
    RunConsistent(w, after, trace, n);
    ConsistentParts(trace[n]);
    hide Run, Consistent, KeysRecorded, RecordedKept;
    assert Answered(trace[n], trace[n].calls[i]) && Answered(trace[n], trace[n].calls[j]);
    assert BothCreated(trace[n].calls[i], trace[n].calls[j]) ==> i == j;
  }

  /** There is never a second key for an order, and a call that lost the race finds the
      winner's key unless the edition was deleted meanwhile. */
  lemma OrdersAreUnique(w: Packages, after: Months, trace: seq<Shop>, n: nat, a: nat, b: nat, o: Order)
    requires Run(w, after, trace) && n < |trace|
    ensures Matches(trace[n].db, a, o.repo, o.edition, o.id) && Matches(trace[n].db, b, o.repo, o.edition, o.id) ==>
            a == b
    ensures forall i :: 0 <= i < |trace[n].calls| && trace[n].calls[i].phase.Lost? ==>
              (exists k :: Found(trace[n].db, trace[n].calls[i], k)) || trace[n].calls[i].edition in trace[n].deleted
  {
    RunConsistent(w, after, trace, n);
    hide Run;
    var s := trace[n];
    ConsistentParts(s);
    forall i | 0 <= i < |s.calls| && s.calls[i].phase.Lost?
      ensures (exists k :: Found(s.db, s.calls[i], k)) || s.calls[i].edition in s.deleted
    {
      assert Answered(s, s.calls[i]);
      var o := OrderOf(s.calls[i]).value;
      assert Matches(s.db, s.created[o], o.repo, o.edition, o.id) || o.edition in s.deleted;
      assert Matches(s.db, s.created[o], o.repo, o.edition, o.id) ==> Found(s.db, s.calls[i], s.created[o]);
    }
    hide Answered, OneCreator, Matches;
  }

  // ----- a race -----

  /** The states of a race: two calls for one order arrive, neither finds a key, one inserts it, the
      other loses the insert and then finds it. */
  function Race(w: Packages, after: Months, editions: map<nat, Edition>, c: Call, id: nat, now: int): seq<Shop>
    requires c.edition in editions
  {
    var none := Licenses(map[], map[], map[]);
    var s0 := Shop(none, editions, {}, [], map[]);
    var s1 := s0.(calls := [c]);
    var s2 := s0.(calls := [c, c]);
    var s3 := Advance(s2, 0, NotFound);
    var s4 := Advance(s3, 1, NotFound);
    var s5 := Inserted(w, after, s4, 0, id, now);
    var s6 := Advance(s5, 1, Lost);
    [s0, s1, s2, s3, s4, s5, s6, Advance(s6, 1, Done(Some((id, false))))]
  }

  lemma RaceStarts(w: Packages, after: Months, editions: map<nat, Edition>, c: Call, id: nat, now: int)
    requires c.phase == Arrived && c.order.Some? && Sellable(editions, c.repo, c.edition)
    ensures var trace := Race(w, after, editions, c, id, now);
            && Opening(trace[0]) && Calls(trace[0], trace[1], c) && Calls(trace[1], trace[2], c)
            && Lookup(trace[2], trace[3], 0) && Lookup(trace[3], trace[4], 1)
  {
    hide Issued;
    var trace := Race(w, after, editions, c, id, now);
    assert [] + [c] == [c] && [c] + [c] == [c, c];
    assert trace[0].calls == [] && trace[1].calls == [c] && trace[2].calls == [c, c];
    assert forall k :: !Found(trace[2].db, c, k);
  }

  lemma RaceEnds(w: Packages, after: Months, editions: map<nat, Edition>, c: Call, id: nat, now: int)
    requires c.phase == Arrived && c.order.Some? && Sellable(editions, c.repo, c.edition)
    ensures var trace := Race(w, after, editions, c, id, now);
            && Insert(w, after, trace[4], trace[5], 0) && Insert(w, after, trace[5], trace[6], 1)
            && Resolve(trace[6], trace[7], 1)
  {
    var trace := Race(w, after, editions, c, id, now);
    var none := Licenses(map[], map[], map[]);
    IssuedKeys(w, after, none, id, c.repo, c.edition, editions[c.edition], c.order, c.onEdge, now);
    hide Issued, Matches;
    assert forall k :: !Found(none, c, k) by { NothingFound(c); }
    assert trace[4].calls == [c.(phase := NotFound), c.(phase := NotFound)];
    assert Found(trace[5].db, c, id);
    assert Found(trace[5].db, trace[5].calls[1], id) && Found(trace[6].db, trace[6].calls[1], id);
  }

  lemma NothingFound(c: Call)
    ensures forall k :: !Found(Licenses(map[], map[], map[]), c, k)
  {
  }

  /** It happens for every order of an edition on sale: the one is told it created the key, the other
      is given the same key and told it did not. */
  lemma RaceHappens(w: Packages, after: Months, editions: map<nat, Edition>, c: Call, id: nat, now: int)
    requires c.phase == Arrived && c.order.Some? && Sellable(editions, c.repo, c.edition)
    ensures var trace := Race(w, after, editions, c, id, now);
            && Run(w, after, trace) && |trace[7].calls| == 2
            && trace[7].calls[0].phase == Done(Some((id, true))) && trace[7].calls[1].phase == Done(Some((id, false)))
  {
    var trace := Race(w, after, editions, c, id, now);
    RaceStarts(w, after, editions, c, id, now);
    RaceEnds(w, after, editions, c, id, now);
    hide Opening, Calls, Lookup, Insert, Resolve, Issued, OrdersKept;
    forall i | 0 <= i < |trace| - 1 ensures Step(w, after, trace[i], trace[i + 1]) {
      if i < 2 { assert Others(trace[i], trace[i + 1]); }
    }
    hide Step;
  }

  // ----- the catalog's operations -----

  class LicenseDesk {
    var db: Licenses
    var editions: map<nat, Edition>

    constructor (editions: map<nat, Edition>)
      ensures db == Licenses(map[], map[], map[]) && this.editions == editions
    {
      db := Licenses(map[], map[], map[]);
      this.editions := editions;
    }

    /** `license_id_for_idempotency`. */
    method Find(repo: nat, e: nat, order: string) returns (k: Option<nat>)
      ensures k.Some? ==> Matches(db, k.value, repo, e, order)
      ensures k.None? ==> forall i :: !Matches(db, i, repo, e, order)
    {
      if exists i :: i in db.keys && Matches(db, i, repo, e, order) {
        var i :| i in db.keys && Matches(db, i, repo, e, order);
        return Some(i);
      }
      k := None;
    }

    /** `attach_edition_set`. */
    method Attach(w: Packages, l: nat, setId: nat, snapshot: bool, edge: Bound)
      modifies this`db
      ensures db == Attached(w, old(db), l, setId, snapshot, edge)
    {
      if snapshot {
        var frozen := map p | p in w.ids && w.resolves(setId, p) && (l, p) !in db.packageEdges :: (l, p) := edge;
        FrozenAgain(w, db.packageEdges, l, setId, edge);
        db := db.(packageEdges := db.packageEdges + frozen);
      } else if (l, setId) !in db.setEdges {
        db := db.(setEdges := db.setEdges[(l, setId) := edge]);
      }
    }

    /** `issue_from_edition_inner`: `id` is the new key's random id. Between the fast path and
        the insert other requests may have changed the tables to `meanwhile`, and when the insert
        lost the race, before the second lookup to `later`. */
    method Issue(w: Packages, after: Months, repo: nat, e: nat, order: Option<string>, onEdge: bool, now: int,
                 id: nat, meanwhile: Licenses, later: Licenses) returns (r: Option<(nat, bool)>)
      requires id !in meanwhile.keys
      modifies this`db
      ensures var replayed := HasOrder(old(db), repo, e, order);
              var onSale := e in editions && editions[e].repo == repo && editions[e].active;
              var lost := !replayed && onSale && HasOrder(meanwhile, repo, e, order);
              && (replayed ==> db == old(db) && Replays(db, repo, e, order, r))
              && (!replayed && !onSale ==> r == None && db == meanwhile)
              && (lost ==> db == later && (r == None <==> !HasOrder(later, repo, e, order))
                           && (r.Some? ==> Replays(db, repo, e, order, r)))
              && (!replayed && !lost && onSale ==>
                    r == Some((id, true))
                      && db == Issued(w, after, meanwhile, id, repo, e, editions[e], order, onEdge, now))
    {
      hide Attached, Template, Matches;
      if order.Some? {
        var k := Find(repo, e, order.value);
        if k.Some? { return Some((k.value, false)); }
      }
      db := meanwhile;
      if !Sellable(editions, repo, e) { return None; }
      if order.Some? {
        // The unique index turns a second key for the order away.
        var winner := Find(repo, e, order.value);
        if winner.Some? {
          db := later;
          var k := Find(repo, e, order.value);
          return match k case Some(x) => Some((x, false)) case None => None;
        }
      }
      var ed := editions[e];
      var bound := Template(after, ed.kind, now);
      db := db.(keys := db.keys[id := Key(repo, true, if onEdge then UNBOUNDED else bound, Some(e), order)]);
      Attach(w, id, ed.setId, ed.snapshot, if onEdge then bound else UNBOUNDED);
      r := Some((id, true));
    }

    /** `add_edition_to_license`. */
    method AddEdition(w: Packages, after: Months, repo: nat, l: nat, e: nat, now: int) returns (o: Adding)
      modifies this`db
      ensures o == AddOutcome(old(db), editions, repo, l, e)
      ensures db == AfterAdd(w, after, old(db), editions, repo, l, e, now)
    {
      hide Attached, Template;
      if !Active(db, repo, l) { return NoKey; }
      if !Sellable(editions, repo, e) { return NoEdition; }
      var perpetual := db.keys[l].bound.until.None? && db.keys[l].bound.major.None?;
      if !perpetual || editions[e].snapshot { return Standalone; }
      Attach(w, l, editions[e].setId, false, Template(after, editions[e].kind, now));
      o := Added;
    }
  }

  lemma FrozenAgain(w: Packages, edges: map<(nat, nat), Bound>, l: nat, setId: nat, edge: Bound)
    ensures edges + (map p | p in w.ids && w.resolves(setId, p) && (l, p) !in edges :: (l, p) := edge)
            == MembersFrozen(w, l, setId, edge) + edges
  {
  }
}
