/** Renewing time bounds, on a key or on one edition's edge, with a ledger that makes repeated
    webhooks harmless. */
module LicenseRenewal {
  import opened Options
  import opened LicenseBounds
  import opened LicenseIssue

  datatype Books = Books(db: Licenses, ledger: set<(nat, string)>)

  /** A request to renew a key, or one edition's edge on it. */
  datatype Renewal =
    | OfKey(repo: nat, license: nat, order: Option<string>, now: int)
    | OfEdition(repo: nat, license: nat, order: Option<string>, now: int, edition: nat)

  /** `greatest(update_until, now()) + period`; SQL's `greatest` skips NULL. */
  function Extended(after: Months, until: Ceiling, now: int, months: nat): int {
    after(if until.Some? && until.value > now then until.value else now, months)
  }

  predicate TimeEdition(editions: map<nat, Edition>, e: nat) { e in editions && editions[e].kind.Time? }

  predicate KeyRenewable(db: Licenses, editions: map<nat, Edition>, repo: nat, l: nat) {
    && Active(db, repo, l) && db.keys[l].edition.Some?
    && TimeEdition(editions, db.keys[l].edition.value)
  }

  predicate EdgeRenewable(db: Licenses, editions: map<nat, Edition>, repo: nat, l: nat, e: nat) {
    && Active(db, repo, l) && TimeEdition(editions, e) && editions[e].repo == repo
    && (l, editions[e].setId) in db.setEdges && db.setEdges[(l, editions[e].setId)].until.Some?
  }

  /** The update statement of a renewal finds its row. */
  predicate Renewable(db: Licenses, editions: map<nat, Edition>, r: Renewal) {
    match r
    case OfKey(repo, l, _, _) => KeyRenewable(db, editions, repo, l)
    case OfEdition(repo, l, _, _, e) => EdgeRenewable(db, editions, repo, l, e)
  }

  function RenewedKey(after: Months, key: Key, now: int, months: nat): Key {
    key.(bound := key.bound.(until := Some(Extended(after, key.bound.until, now, months))))
  }

  function Applied(after: Months, db: Licenses, editions: map<nat, Edition>, r: Renewal): Licenses {
    if !Renewable(db, editions, r) then db
    else match r
      case OfKey(repo, l, _, now) =>
        db.(keys := db.keys[l := RenewedKey(after, db.keys[l], now, editions[db.keys[l].edition.value].kind.months)])
      case OfEdition(repo, l, _, now, e) =>
        var x := (l, editions[e].setId);
        var until := Some(Extended(after, db.setEdges[x].until, now, editions[e].kind.months));
        db.(setEdges := db.setEdges[x := db.setEdges[x].(until := until)])
  }

  /** A renewal may take effect: it carries no order, or one the ledger does not hold yet. */
  predicate Fresh(b: Books, r: Renewal) {
    r.order.None? || (InRepo(b.db, r) && (r.license, r.order.value) !in b.ledger)
  }

  predicate InRepo(db: Licenses, r: Renewal) { r.license in db.keys && db.keys[r.license].repo == r.repo }

  function AfterRenewal(after: Months, b: Books, editions: map<nat, Edition>, r: Renewal): Books {
    Books(if Fresh(b, r) then Applied(after, b.db, editions, r) else b.db,
          if r.order.Some? && InRepo(b.db, r) then b.ledger + {(r.license, r.order.value)} else b.ledger)
  }

  /** The bound a renewal reports, if its row is renewable. */
  function Reported(db: Licenses, editions: map<nat, Edition>, r: Renewal): Option<Ceiling> {
    if !Renewable(db, editions, r) then None
    else match r
      case OfKey(_, l, _, _) => Some(db.keys[l].bound.until)
      case OfEdition(_, l, _, _, e) => Some(db.setEdges[(l, editions[e].setId)].until)
  }

  class RenewalDesk {
    var db: Licenses
    var ledger: set<(nat, string)>

    constructor (db: Licenses)
      ensures this.db == db && ledger == {}
    {
      this.db, ledger := db, {};
    }

    /** `RENEW_SQL` and `RENEW_EDGE_SQL`. */
    method Extend(after: Months, editions: map<nat, Edition>, r: Renewal) returns (bound: Option<Ceiling>)
      modifies this`db
      ensures db == Applied(after, old(db), editions, r)
      ensures bound == Reported(db, editions, r)
    {
      bound := None;
      match r {
        case OfKey(repo, l, _, now) =>
          if Active(db, repo, l) && db.keys[l].edition.Some? && TimeEdition(editions, db.keys[l].edition.value) {
            var key := db.keys[l];
            var until := Extended(after, key.bound.until, now, editions[key.edition.value].kind.months);
            db := db.(keys := db.keys[l := key.(bound := key.bound.(until := Some(until)))]);
            bound := Some(Some(until));
          }
        case OfEdition(repo, l, _, now, e) =>
          if EdgeRenewable(db, editions, repo, l, e) {
            var x := (l, editions[e].setId);
            var until := Extended(after, db.setEdges[x].until, now, editions[e].kind.months);
            db := db.(setEdges := db.setEdges[x := db.setEdges[x].(until := Some(until))]);
            bound := Some(Some(until));
          }
      }
    }

    /** `renew_license` and `renew_license_edition`, one transaction. */
    method Renew(after: Months, editions: map<nat, Edition>, r: Renewal) returns (bound: Option<Ceiling>)
      modifies this
      ensures Books(db, ledger) == AfterRenewal(after, Books(old(db), old(ledger)), editions, r)
      ensures bound == Reported(db, editions, r)
    {
      hide Applied, Reported;
      if r.order.None? {
        bound := Extend(after, editions, r);
        return;
      }
      var known := r.license in db.keys && db.keys[r.license].repo == r.repo;
      var first := known && (r.license, r.order.value) !in ledger;
      if first { ledger := ledger + {(r.license, r.order.value)}; }
      if first {
        bound := Extend(after, editions, r);
      } else {
        bound := Reported(db, editions, r);
      }
    }
  }

  // ----- at most once -----

  /** Renewals, between which everything else may change tables and editions at will. */
  datatype Event = Renews(r: Renewal) | Changes(db: Licenses, editions: map<nat, Edition>)

  datatype World = World(books: Books, editions: map<nat, Edition>)

  function Next(after: Months, s: World, e: Event): World {
    match e
    case Renews(r) => s.(books := AfterRenewal(after, s.books, s.editions, r))
    case Changes(db, editions) => World(s.books.(db := db), editions)
  }

  function Later(after: Months, s: World, es: seq<Event>): World
    decreases |es|
  {
    if es == [] then s else Next(after, Later(after, s, es[..|es| - 1]), es[|es| - 1])
  }

  lemma {:induction false} LedgerGrows(after: Months, s: World, es: seq<Event>, m: nat)
    requires m <= |es|
    ensures Later(after, s, es[..m]).books.ledger <= Later(after, s, es).books.ledger
    decreases |es|
  {
    hide Applied, Fresh;
    if m == |es| {
      assert es[..m] == es;
    } else {
      LedgerGrows(after, s, es[..|es| - 1], m);
      assert es[..|es| - 1][..m] == es[..m];
    }
  }

  /** Each license and order takes effect at most once over any history, whichever of the
      license's bounds the renewals are for, and even if the first one found nothing to extend. */
  lemma OrderTakesEffectOnce(after: Months, s: World, es: seq<Event>, m: nat, n: nat)
    requires m < n < |es| && es[m].Renews? && es[n].Renews?
    requires es[m].r.order.Some? && es[m].r.order == es[n].r.order && es[m].r.license == es[n].r.license
    requires Fresh(Later(after, s, es[..m]).books, es[m].r)
    ensures !Fresh(Later(after, s, es[..n]).books, es[n].r)
    ensures Later(after, s, es[..n + 1]).books.db == Later(after, s, es[..n]).books.db
  {
    hide Applied;
    assert es[..m + 1][..m] == es[..m] && es[..n][..m + 1] == es[..m + 1] && es[..n + 1][..n] == es[..n];
    LedgerGrows(after, s, es[..n], m + 1);
    hide Later;
    assert (es[m].r.license, es[m].r.order.value) in Later(after, s, es[..m + 1]).books.ledger by {
      OrderRecorded(after, s, es, m);
    }
    EventLast(after, s, es, n);
  }

  lemma EventLast(after: Months, s: World, es: seq<Event>, n: nat)
    requires n < |es|
    ensures Later(after, s, es[..n + 1]) == Next(after, Later(after, s, es[..n]), es[n])
  {
    assert es[..n + 1][..n] == es[..n];
    hide Next;
  }

  lemma OrderRecorded(after: Months, s: World, es: seq<Event>, m: nat)
    requires m < |es| && es[m].Renews? && es[m].r.order.Some? && Fresh(Later(after, s, es[..m]).books, es[m].r)
    ensures (es[m].r.license, es[m].r.order.value) in Later(after, s, es[..m + 1]).books.ledger
  {
    EventLast(after, s, es, m);
    hide Later, Applied;
  }

  // ----- bounds do not go down -----

  ghost predicate NeverBack(after: Months) { forall t, m :: after(t, m) >= t }

  ghost predicate EdgesRise(a: map<(nat, nat), Bound>, b: map<(nat, nat), Bound>) {
    forall x :: x in a ==> x in b && Within(a[x], b[x])
  }

  ghost predicate KeysRise(a: map<nat, Key>, b: map<nat, Key>) {
    forall k :: k in a ==> k in b && Within(a[k].bound, b[k].bound)
  }

  /** No bound went down, neither of a key nor of an edge. */
  ghost predicate Rises(a: Licenses, b: Licenses) {
    KeysRise(a.keys, b.keys) && EdgesRise(a.setEdges, b.setEdges) && EdgesRise(a.packageEdges, b.packageEdges)
  }

  /** The key-level update has no guard against an unbounded key: it then writes a bound where
      there was none. */
  predicate BoundsUnbounded(b: Books, editions: map<nat, Edition>, r: Renewal) {
    r.OfKey? && Fresh(b, r) && Renewable(b.db, editions, r) && b.db.keys[r.license].bound.until.None?
  }

  /** A renewal lowers no bound, exactly when it does not hit an unbounded key. */
  lemma RenewalRisesIff(after: Months, b: Books, editions: map<nat, Edition>, r: Renewal)
    requires NeverBack(after)
    ensures Rises(b.db, AfterRenewal(after, b, editions, r).db) <==> !BoundsUnbounded(b, editions, r)
  {
    var db' := AfterRenewal(after, b, editions, r).db;
    if BoundsUnbounded(b, editions, r) {
      assert r.license in db'.keys && !Within(b.db.keys[r.license].bound, db'.keys[r.license].bound);
    }
  }

  lemma InheritRises(e: Bound, e': Bound, key: Bound, key': Bound)
    requires Within(e, e') && Within(key, key') && (e'.until.None? ==> e.until.None?)
             && (e'.major.None? ==> e.major.None?)
    ensures Within(Inherit(e, key), Inherit(e', key'))
  {
  }

  ghost predicate EdgesExtend(a: map<(nat, nat), Bound>, b: map<(nat, nat), Bound>) {
    forall x :: x in a
      ==> x in b && Within(a[x], b[x]) && (a[x].until.None? <==> b[x].until.None?) && a[x].major == b[x].major
  }

  lemma CoveringRises(a: map<(nat, nat), Bound>, b: map<(nat, nat), Bound>, key: Bound, key': Bound, k: nat,
          covers: nat -> bool, x: Bound)
    requires EdgesExtend(a, b) && Within(key, key') && x in EdgeBounds(a, key, k, covers)
    ensures exists y :: y in EdgeBounds(b, key', k, covers) && Within(x, y)
  {
    hide Inherit, Within;
    var e :| e in a && e.0 == k && covers(e.1) && x == Inherit(a[e], key);
    InheritRises(a[e], b[e], key, key');
    assert Inherit(b[e], key') in EdgeBounds(b, key', k, covers);
  }

  lemma BoundAbove(w: Packages, a: Licenses, b: Licenses, k: nat, name: string, x: Bound)
    requires EdgesExtend(a.setEdges, b.setEdges) && EdgesExtend(a.packageEdges, b.packageEdges)
    requires Within(KeyBound(a, k), KeyBound(b, k)) && x in CoveringBounds(w, a, k, name)
    ensures exists y :: y in CoveringBounds(w, b, k, name) && Within(x, y)
  {
    var bySet, byPackage := (s: nat) => SetHasName(w, s, name), (p: nat) => p in w.ids && w.name(p) == name;
    hide Within, KeyBound, EdgesExtend, EdgeBounds, SetHasName;
    if x in EdgeBounds(a.setEdges, KeyBound(a, k), k, bySet) {
      CoveringRises(a.setEdges, b.setEdges, KeyBound(a, k), KeyBound(b, k), k, bySet, x);
    } else {
      CoveringRises(a.packageEdges, b.packageEdges, KeyBound(a, k), KeyBound(b, k), k, byPackage, x);
    }
  }

  lemma JoinRises(before: set<Bound>, now: set<Bound>)
    requires forall x :: x in before ==> exists y :: y in now && Within(x, y)
    ensures EntitlesWithin(JoinAll(before), JoinAll(now))
  {
    EmptyIffNone(before);
    EmptyIffNone(now);
    hide JoinAll, Within;
    if before != {} {
      var x :| x in before;
      var y :| y in now && Within(x, y);
      var c := JoinAll(now).value;
      assert EntitlesWithin(JoinAll(now), Some(c)) by { JoinIsLeast(c, c, c); }
      PooledAbove(now, before, c);
    }
  }

  lemma ExtendsEntitlement(w: Packages, a: Licenses, b: Licenses, k: nat, name: string)
    requires EdgesExtend(a.setEdges, b.setEdges) && EdgesExtend(a.packageEdges, b.packageEdges)
    requires Within(KeyBound(a, k), KeyBound(b, k))
    ensures EntitlesWithin(Effective(w, a, k, name), Effective(w, b, k, name))
  {
    hide CoveringBounds, JoinAll, EntitlesWithin, EdgesExtend, KeyBound, Within;
    forall x | x in CoveringBounds(w, a, k, name)
      ensures exists y :: y in CoveringBounds(w, b, k, name) && Within(x, y)
    {
      BoundAbove(w, a, b, k, name, x);
    }
    JoinRises(CoveringBounds(w, a, k, name), CoveringBounds(w, b, k, name));
  }

  /** A renewal that does not hit an unbounded key takes no version of any package away. */
  lemma GuardedRenewalKeeps(w: Packages, after: Months, b: Books, editions: map<nat, Edition>, r: Renewal, k: nat,
                            name: string)
    requires NeverBack(after) && !BoundsUnbounded(b, editions, r)
    ensures EntitlesWithin(Effective(w, b.db, k, name), Effective(w, AfterRenewal(after, b, editions, r).db, k, name))
  {
    var db' := AfterRenewal(after, b, editions, r).db;
    assert EdgesExtend(b.db.setEdges, db'.setEdges) && EdgesExtend(b.db.packageEdges, db'.packageEdges);
    assert Within(KeyBound(b.db, k), KeyBound(db', k));
    hide AfterRenewal, EdgesExtend, Effective, KeyBound, BoundsUnbounded;
    ExtendsEntitlement(w, b.db, db', k, name);
  }

  // ----- renewing an unbounded key -----

  /** An edge without a date entitles key `k` to packages called `name`. */
  ghost predicate Undated(w: Packages, db: Licenses, k: nat, name: string) {
    exists x :: x in CoveringBounds(w, db, k, name) && x.until.None?
  }

  /** What changes when an unbounded key is renewed: its own date, and nothing else. */
  lemma OnlyTheKey(after: Months, b: Books, editions: map<nat, Edition>, r: Renewal)
    requires BoundsUnbounded(b, editions, r)
    ensures var db' := AfterRenewal(after, b, editions, r).db;
            var months := editions[b.db.keys[r.license].edition.value].kind.months;
            && db'.setEdges == b.db.setEdges && db'.packageEdges == b.db.packageEdges
            && KeyBound(b.db, r.license).until == None && KeyBound(db', r.license).until == Some(after(r.now, months))
            && KeyBound(db', r.license).major == KeyBound(b.db, r.license).major
            && forall k :: k != r.license ==> KeyBound(db', k) == KeyBound(b.db, k)
  {
  }

  lemma DatedEdgesStay(edges: map<(nat, nat), Bound>, key: Bound, key': Bound, k: nat, covers: nat -> bool)
    requires key.until == None && key'.major == key.major
    requires forall x :: x in EdgeBounds(edges, key, k, covers) ==> x.until.Some?
    ensures EdgeBounds(edges, key', k, covers) == EdgeBounds(edges, key, k, covers)
  {
    forall e | e in edges && e.0 == k && covers(e.1) ensures Inherit(edges[e], key') == Inherit(edges[e], key) {
      assert Inherit(edges[e], key) in EdgeBounds(edges, key, k, covers);
    }
    hide Inherit;
  }

  lemma DatedStays(w: Packages, a: Licenses, b: Licenses, k: nat, name: string)
    requires a.setEdges == b.setEdges && a.packageEdges == b.packageEdges && !Undated(w, a, k, name)
    requires KeyBound(a, k).until == None && KeyBound(b, k).major == KeyBound(a, k).major
    ensures Effective(w, b, k, name) == Effective(w, a, k, name)
  {
    var bySet, byPackage := (s: nat) => SetHasName(w, s, name), (p: nat) => p in w.ids && w.name(p) == name;
    hide EdgeBounds, SetHasName, KeyBound, JoinAll;
    DatedEdgesStay(a.setEdges, KeyBound(a, k), KeyBound(b, k), k, bySet);
    DatedEdgesStay(a.packageEdges, KeyBound(a, k), KeyBound(b, k), k, byPackage);
  }

  lemma SameKeySameMeaning(w: Packages, a: Licenses, b: Licenses, k: nat, name: string)
    requires a.setEdges == b.setEdges && a.packageEdges == b.packageEdges && KeyBound(a, k) == KeyBound(b, k)
    ensures Effective(w, b, k, name) == Effective(w, a, k, name)
  {
    hide EdgeBounds, KeyBound, JoinAll;
  }

  lemma DatedKeyDates(edges: map<(nat, nat), Bound>, key: Bound, k: nat, covers: nat -> bool)
    requires key.until.Some?
    ensures forall x :: x in EdgeBounds(edges, key, k, covers) ==> x.until.Some?
  {
  }

  lemma SomeEdgeStays(edges: map<(nat, nat), Bound>, key: Bound, key': Bound, k: nat, covers: nat -> bool)
    requires EdgeBounds(edges, key, k, covers) != {}
    ensures EdgeBounds(edges, key', k, covers) != {}
  {
    hide Inherit;
    var x :| x in EdgeBounds(edges, key, k, covers);
    var e :| e in edges && e.0 == k && covers(e.1) && x == Inherit(edges[e], key);
    assert Inherit(edges[e], key') in EdgeBounds(edges, key', k, covers);
  }

  lemma CoveredByDates(w: Packages, a: Licenses, b: Licenses, k: nat, name: string)
    requires a.setEdges == b.setEdges && a.packageEdges == b.packageEdges && KeyBound(b, k).until.Some?
    requires CoveringBounds(w, a, k, name) != {}
    ensures CoveringBounds(w, b, k, name) != {} && forall x :: x in CoveringBounds(w, b, k, name) ==> x.until.Some?
  {
    var bySet, byPackage := (s: nat) => SetHasName(w, s, name), (p: nat) => p in w.ids && w.name(p) == name;
    hide EdgeBounds, SetHasName, KeyBound;
    DatedKeyDates(b.setEdges, KeyBound(b, k), k, bySet);
    DatedKeyDates(b.packageEdges, KeyBound(b, k), k, byPackage);
    if EdgeBounds(a.setEdges, KeyBound(a, k), k, bySet) != {} {
      SomeEdgeStays(a.setEdges, KeyBound(a, k), KeyBound(b, k), k, bySet);
    } else {
      SomeEdgeStays(a.packageEdges, KeyBound(a, k), KeyBound(b, k), k, byPackage);
    }
  }

  /** Renewing an unbounded key cuts off every package that an undated edge of it entitles to,
      whatever dated edges the key has besides. */
  lemma UnboundedKeyIsCut(w: Packages, after: Months, b: Books, editions: map<nat, Edition>, r: Renewal, name: string)
    requires BoundsUnbounded(b, editions, r) && Undated(w, b.db, r.license, name)
    ensures var was := Effective(w, b.db, r.license, name);
            var now := Effective(w, AfterRenewal(after, b, editions, r).db, r.license, name);
            was.Some? && was.value.until == None && now.Some? && now.value.until.Some?
  {
    var db' := AfterRenewal(after, b, editions, r).db;
    OnlyTheKey(after, b, editions, r);
    hide AfterRenewal, BoundsUnbounded, KeyBound, CoveringBounds;
    CoveredByDates(w, b.db, db', r.license, name);
    JoinAllPerAxis(CoveringBounds(w, b.db, r.license, name));
    JoinAllPerAxis(CoveringBounds(w, db', r.license, name));
    hide JoinAll;
  }

  /** Nothing is taken away: no version of any package from any buyer. */
  ghost predicate KeepsAll(w: Packages, a: Licenses, b: Licenses) {
    forall k, name, v :: Visible(Effective(w, a, k, name), v) ==> Visible(Effective(w, b, k, name), v)
  }

  /** The renewal finds a date on the key already, or on each of the key's edges. */
  ghost predicate Harmless(w: Packages, b: Books, editions: map<nat, Edition>, r: Renewal) {
    !BoundsUnbounded(b, editions, r) || forall name :: !Undated(w, b.db, r.license, name)
  }

  lemma WithinShowsMore(a: Option<Bound>, b: Option<Bound>, v: Version)
    requires EntitlesWithin(a, b)
    ensures Visible(a, v) ==> Visible(b, v)
  {
  }

  lemma HarmlessKeeps(w: Packages, after: Months, b: Books, editions: map<nat, Edition>, r: Renewal, k: nat,
                      name: string, v: Version)
    requires NeverBack(after) && Harmless(w, b, editions, r)
    ensures Visible(Effective(w, b.db, k, name), v) ==>
            Visible(Effective(w, AfterRenewal(after, b, editions, r).db, k, name), v)
  {
    var db' := AfterRenewal(after, b, editions, r).db;
    hide AfterRenewal, BoundsUnbounded, Effective, Visible, NeverBack, Undated, KeyBound;
    if !BoundsUnbounded(b, editions, r) {
      GuardedRenewalKeeps(w, after, b, editions, r, k, name);
      WithinShowsMore(Effective(w, b.db, k, name), Effective(w, db', k, name), v);
    } else {
      OnlyTheKey(after, b, editions, r);
      if k == r.license {
        DatedStays(w, b.db, db', k, name);
      } else {
        SameKeySameMeaning(w, b.db, db', k, name);
      }
    }
  }

  /** A renewal takes no version of any package from any buyer, if and only if it does not hit
      an unbounded key, or all the edges that key entitles with carry a date of their own. */
  lemma RenewalKeepsEntitlements(w: Packages, after: Months, b: Books, editions: map<nat, Edition>, r: Renewal)
    requires NeverBack(after)
    ensures KeepsAll(w, b.db, AfterRenewal(after, b, editions, r).db) <==> Harmless(w, b, editions, r)
  {
    var db' := AfterRenewal(after, b, editions, r).db;
    hide AfterRenewal, BoundsUnbounded, Effective, Undated, NeverBack;
    if Harmless(w, b, editions, r) {
      hide Harmless, Visible;
      forall k, name, v ensures Visible(Effective(w, b.db, k, name), v) ==> Visible(Effective(w, db', k, name), v) {
        HarmlessKeeps(w, after, b, editions, r, k, name, v);
      }
    } else {
      var name :| Undated(w, b.db, r.license, name);
      UnboundedKeyIsCut(w, after, b, editions, r, name);
      var was, now := Effective(w, b.db, r.license, name).value, Effective(w, db', r.license, name).value;
      var v := Version.Version(Some(now.until.value + 1), 0, if was.major.Some? then was.major.value else 0);
      assert Visible(Effective(w, b.db, r.license, name), v) && !Visible(Effective(w, db', r.license, name), v);
    }
  }

  /** How a shop gets there: an account key is issued for an annual edition, which dates its
      edge; a perpetual edition on another set is added to it; then the key is renewed. The
      perpetual purchase now ends. */
  lemma AccountKeyLosesPerpetual(w: Packages, after: Months, db: Licenses, editions: map<nat, Edition>,
                                 ledger: set<(nat, string)>, repo: nat, id: nat, annual: nat, perpetual: nat,
                                 order: Option<string>, bought: int, added: int, r: Renewal, name: string)
    requires EdgesHaveKeys(db) && id !in db.keys
    requires Sellable(editions, repo, annual) && editions[annual].kind.Time? && !editions[annual].snapshot
    requires Sellable(editions, repo, perpetual) && editions[perpetual].kind.Perpetual? && !editions[perpetual].snapshot
    requires editions[annual].setId != editions[perpetual].setId && SetHasName(w, editions[perpetual].setId, name)
    requires r.OfKey? && r.repo == repo && r.license == id && (r.order.Some? ==> (id, r.order.value) !in ledger)
    ensures var first := Issued(w, after, db, id, repo, annual, editions[annual], order, true, bought);
            var second := AfterAdd(w, after, first, editions, repo, id, perpetual, added);
            var third := AfterRenewal(after, Books(second, ledger), editions, r).db;
            && AddOutcome(first, editions, repo, id, perpetual) == Added
            && first.setEdges[(id, editions[annual].setId)].until.Some?
            && Effective(w, second, id, name).Some? && Effective(w, second, id, name).value.until == None
            && Effective(w, third, id, name).Some? && Effective(w, third, id, name).value.until.Some?
  {
    var first := Issued(w, after, db, id, repo, annual, editions[annual], order, true, bought);
    var second := AfterAdd(w, after, first, editions, repo, id, perpetual, added);
    var x := (id, editions[perpetual].setId);
    assert first.keys[id] == Key(repo, true, UNBOUNDED, Some(annual), order);
    assert x in second.setEdges && second.setEdges[x] == UNBOUNDED && second.keys == first.keys;
    assert BoundsUnbounded(Books(second, ledger), editions, r);
    EdgeShows(w, second, id, editions[perpetual].setId, name);
    hide Issued, AfterAdd, AfterRenewal, BoundsUnbounded, Effective, SetHasName;
    UnboundedKeyIsCut(w, after, Books(second, ledger), editions, r, name);
  }

  lemma EdgeShows(w: Packages, db: Licenses, k: nat, setId: nat, name: string)
    requires (k, setId) in db.setEdges && db.setEdges[(k, setId)] == UNBOUNDED && KeyBound(db, k) == UNBOUNDED
    requires SetHasName(w, setId, name)
    ensures Undated(w, db, k, name)
  {
    hide SetHasName, KeyBound;
    var bySet := (s: nat) => SetHasName(w, s, name);
    assert Inherit(UNBOUNDED, UNBOUNDED) == UNBOUNDED;
    assert bySet((k, setId).1);
    assert UNBOUNDED in EdgeBounds(db.setEdges, UNBOUNDED, k, bySet);
  }

  // ----- runs of renewals -----

  function AfterRenewals(after: Months, b: Books, editions: map<nat, Edition>, rs: seq<Renewal>): Books
    decreases |rs|
  {
    if rs == [] then b
    else AfterRenewal(after, AfterRenewals(after, b, editions, rs[..|rs| - 1]), editions, rs[|rs| - 1])
  }

  /** Over any run of such renewals no buyer loses a version. */
  lemma {:induction false} RunKeepsEntitlements(w: Packages, after: Months, b: Books, editions: map<nat, Edition>,
          rs: seq<Renewal>, k: nat, name: string, v: Version)
    requires NeverBack(after)
    requires forall i :: 0 <= i < |rs| ==> Harmless(w, AfterRenewals(after, b, editions, rs[..i]), editions, rs[i])
    ensures Visible(Effective(w, b.db, k, name), v) ==>
            Visible(Effective(w, AfterRenewals(after, b, editions, rs).db, k, name), v)
    decreases |rs|
  {
    hide AfterRenewal, Harmless, Effective, Visible;
    if rs == [] {
    } else {
      var init := rs[..|rs| - 1];
      forall i | 0 <= i < |init| ensures Harmless(w, AfterRenewals(after, b, editions, init[..i]), editions, init[i]) {
        assert init[..i] == rs[..i] && init[i] == rs[i];
      }
      RunKeepsEntitlements(w, after, b, editions, init, k, name, v);
      assert rs[..|rs| - 1] == init;
      HarmlessKeeps(w, after, AfterRenewals(after, b, editions, init), editions, rs[|rs| - 1], k, name, v);
    }
  }

  predicate BoundedTo(db: Licenses, editions: map<nat, Edition>, repo: nat, l: nat, months: nat, until: int) {
    && KeyRenewable(db, editions, repo, l) && editions[db.keys[l].edition.value].kind.months == months
    && db.keys[l].bound.until == Some(until)
  }

  // ----- what a renewal gives -----

  function Max(a: int, b: int): int { if a > b then a else b }

  /** The key is the repository's and active, and this renewal was not made before. */
  predicate MayRenew(b: Books, r: Renewal) {
    && r.license in b.db.keys && b.db.keys[r.license].repo == r.repo && b.db.keys[r.license].active
    && (r.order.Some? ==> (r.license, r.order.value) !in b.ledger)
  }

  /** A key renewal takes effect when the key was issued from a time edition: it moves the key's date to
      one period after the later of that date and now, or after now if it had none, and leaves
      everything else as it was. Otherwise it changes no table. */
  lemma KeyRenewalMeans(after: Months, b: Books, editions: map<nat, Edition>, r: Renewal)
    requires r.OfKey?
    ensures var db' := AfterRenewal(after, b, editions, r).db;
            if MayRenew(b, r) && b.db.keys[r.license].edition.Some?
               && b.db.keys[r.license].edition.value in editions
                 && editions[b.db.keys[r.license].edition.value].kind.Time?
            then var was := b.db.keys[r.license];
              var months, u := editions[was.edition.value].kind.months, was.bound.until;
                 var until := if u.Some? && u.value > r.now then after(u.value, months) else after(r.now, months);
                 && db' == b.db.(keys := b.db.keys[r.license := was.(bound := Bound(Some(until), was.bound.major))])
                 && Reported(db', editions, r) == Some(Some(until))
            else db' == b.db
  {
  }

  /** The same for the edge of a time edition of the repository, if the edge is dated; the key is not
      touched. */
  lemma EdgeRenewalMeans(after: Months, b: Books, editions: map<nat, Edition>, r: Renewal)
    requires r.OfEdition?
    ensures var db' := AfterRenewal(after, b, editions, r).db;
            if MayRenew(b, r) && r.edition in editions && editions[r.edition].repo == r.repo
              && editions[r.edition].kind.Time?
               && (r.license, editions[r.edition].setId) in b.db.setEdges
               && b.db.setEdges[(r.license, editions[r.edition].setId)].until.Some?
            then var x := (r.license, editions[r.edition].setId); var was := b.db.setEdges[x];
                 var months, u := editions[r.edition].kind.months, was.until.value;
                 var until := if u > r.now then after(u, months) else after(r.now, months);
                 && db' == b.db.(setEdges := b.db.setEdges[x := Bound(Some(until), was.major)])
                 && Reported(db', editions, r) == Some(Some(until))
            else db' == b.db
  {
  }

  /** An order is recorded whenever its key is the repository's, whether or not there was a date to
      extend, and nothing else is. */
  lemma LedgerRecords(after: Months, b: Books, editions: map<nat, Edition>, r: Renewal)
    ensures var b' := AfterRenewal(after, b, editions, r);
            forall x :: x in b'.ledger <==>
              x in b.ledger || (r.order.Some? && r.license in b.db.keys && b.db.keys[r.license].repo == r.repo
                                && x == (r.license, r.order.value))
  {
  }

  /** Renewals of one key, or of one edition's edge on it, under different orders. */
  ghost predicate OneRow(rs: seq<Renewal>, repo: nat, l: nat, edition: Option<nat>) {
    && (forall i :: 0 <= i < |rs| ==>
          && rs[i].repo == repo && rs[i].license == l && rs[i].order.Some?
          && (if edition.Some? then rs[i].OfEdition? && rs[i].edition == edition.value else rs[i].OfKey?))
    && forall i, j :: 0 <= i < |rs| && 0 <= j < |rs| && rs[i].order == rs[j].order ==> i == j
  }

  /** The row such renewals are for has the date `until` and is extended by `months`. */
  predicate DatedTo(db: Licenses, editions: map<nat, Edition>, repo: nat, l: nat, edition: Option<nat>, months: nat,
                    until: int) {
    match edition
    case None => BoundedTo(db, editions, repo, l, months, until)
    case Some(e) =>
      && EdgeRenewable(db, editions, repo, l, e) && editions[e].kind.months == months
      && db.setEdges[(l, editions[e].setId)].until == Some(until)
  }

  /** Each renewal restarts from the later of the date so far and its own time. */
  function Carried(after: Months, until: int, months: nat, rs: seq<Renewal>): int
    decreases |rs|
  {
    if rs == [] then until
    else after(Max(Carried(after, until, months, rs[..|rs| - 1]), rs[|rs| - 1].now), months)
  }

  /** Any number of renewals of a key or an edge, early or late: the date is carried forward once per
      order, and the ledger afterwards holds exactly those orders besides what it held. */
  lemma {:induction false} RenewalsCarry(after: Months, b: Books, editions: map<nat, Edition>, rs: seq<Renewal>,
                                         repo: nat, l: nat, edition: Option<nat>, months: nat, until: int)
    requires DatedTo(b.db, editions, repo, l, edition, months, until) && OneRow(rs, repo, l, edition)
    requires forall i :: 0 <= i < |rs| ==> (l, rs[i].order.value) !in b.ledger
    ensures var b' := AfterRenewals(after, b, editions, rs);
            && DatedTo(b'.db, editions, repo, l, edition, months, Carried(after, until, months, rs))
            && forall x :: x in b'.ledger <==>
                 x in b.ledger || exists i :: 0 <= i < |rs| && x == (l, rs[i].order.value)
    decreases |rs|
  {
    if rs == [] {
    } else {
      var init, r := rs[..|rs| - 1], rs[|rs| - 1];
      assert forall i :: 0 <= i < |init| ==> init[i] == rs[i];
      assert OneRow(init, repo, l, edition);
      RenewalsCarry(after, b, editions, init, repo, l, edition, months, until);
      var b1 := AfterRenewals(after, b, editions, init);
      assert (l, r.order.value) !in b1.ledger;
      hide AfterRenewals, DatedTo;
      OneMoreCarried(after, b1, editions, r, repo, l, edition, months, Carried(after, until, months, init));
    }
  }

  lemma OneMoreCarried(after: Months, b: Books, editions: map<nat, Edition>, r: Renewal, repo: nat, l: nat,
                       edition: Option<nat>, months: nat, until: int)
    requires DatedTo(b.db, editions, repo, l, edition, months, until) && r.repo == repo && r.license == l
    requires r.order.Some? && (l, r.order.value) !in b.ledger
    requires if edition.Some? then r.OfEdition? && r.edition == edition.value else r.OfKey?
    ensures var b' := AfterRenewal(after, b, editions, r);
            && DatedTo(b'.db, editions, repo, l, edition, months, after(Max(until, r.now), months))
            && b'.ledger == b.ledger + {(l, r.order.value)}
  {
    if edition.Some? { EdgeRenewalMeans(after, b, editions, r); } else { KeyRenewalMeans(after, b, editions, r); }
  }

  /** `n` periods after `until`. */
  function Periods(after: Months, until: int, months: nat, n: nat): int
    decreases n
  {
    if n == 0 then until else after(Periods(after, until, months, n - 1), months)
  }

  /** Renewing before expiry stacks: when none of the renewals is late, each order adds one period. */
  lemma {:induction false} RenewalsStack(after: Months, until: int, months: nat, rs: seq<Renewal>)
    requires NeverBack(after) && forall i :: 0 <= i < |rs| ==> rs[i].now <= until
    ensures Carried(after, until, months, rs) == Periods(after, until, months, |rs|) >= until
    decreases |rs|
  {
    if rs == [] {
    } else {
      RenewalsStack(after, until, months, rs[..|rs| - 1]);
    }
  }

  /** And after expiry it restarts: what came before a late renewal no longer matters. */
  lemma LateRestarts(after: Months, until: int, months: nat, rs: seq<Renewal>)
    requires rs != [] && Carried(after, until, months, rs[..|rs| - 1]) <= rs[|rs| - 1].now
    ensures Carried(after, until, months, rs) == after(rs[|rs| - 1].now, months)
  {
  }
}
