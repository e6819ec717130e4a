/** Dependency closure of a repository: a worklist over a graph that is only discovered by
    fetching metadata, cut off at `MAX_CLOSURE` entries. Upstream metadata is a fixed function
    of upstream and name; `None` covers "not in this registry" and every fetch failure. */
module Closure {
  import opened Options

  const MAX_CLOSURE: nat := 2000

  type Name = string

  datatype Upstream = Upstream(id: nat, composer: bool, isPrivate: bool)

  /** The names a version requires. */
  type Version = seq<Name>

  datatype World = World(
    present: set<Name>,
    upstreams: seq<Upstream>,
    direct: seq<(Name, Name)>,
    fetch: (nat, Name) -> Option<seq<Version>>)

  datatype Status = Present | ResolvablePrivate | ResolvablePublic | Missing

  datatype Entry = Entry(name: Name, status: Status, upstream: Option<nat>, requiredBy: Name)

  datatype Request = Request(dep: Name, parent: Name)

  datatype Hit = Hit(upstream: Upstream, versions: seq<Version>)

  predicate IsPackage(n: Name) { '/' in n }

  function Packages(ns: seq<Name>): (r: seq<Name>)
    ensures forall n :: n in r <==> n in ns && IsPackage(n)
    decreases |ns|
  {
    if ns == [] then []
    else Packages(ns[..|ns| - 1]) + (if IsPackage(ns[|ns| - 1]) then [ns[|ns| - 1]] else [])
  }

  function LatestRequires(vs: seq<Version>): seq<Name> { if vs == [] then [] else vs[|vs| - 1] }

  // ----- resolving one name -----

  function Composer(ups: seq<Upstream>, isPrivate: bool): (r: seq<Upstream>)
    ensures forall u :: u in r <==> u in ups && u.composer && u.isPrivate == isPrivate
    decreases |ups|
  {
    if ups == [] then []
    else
      var u := ups[|ups| - 1];
      Composer(ups[..|ups| - 1], isPrivate) + (if u.composer && u.isPrivate == isPrivate then [u] else [])
  }

  /** Composer upstreams in listing order, the private ones first. */
  function PrivateFirst(ups: seq<Upstream>): seq<Upstream> { Composer(ups, true) + Composer(ups, false) }

  function FirstHit(w: World, ups: seq<Upstream>, dep: Name): Option<Hit>
    decreases |ups|
  {
    if ups == [] then None
    else match w.fetch(ups[0].id, dep)
      case Some(vs) => Some(Hit(ups[0], vs))
      case None => FirstHit(w, ups[1..], dep)
  }

  function Resolved(w: World, dep: Name): Option<Hit> { FirstHit(w, PrivateFirst(w.upstreams), dep) }

  method Probe(w: World, ups: seq<Upstream>, dep: Name) returns (r: Option<Hit>)
    ensures r == FirstHit(w, ups, dep)
  {
    for i := 0 to |ups|
      invariant FirstHit(w, ups, dep) == FirstHit(w, ups[i..], dep)
    {
      var vs := w.fetch(ups[i].id, dep);
      assert ups[i..][1..] == ups[i + 1..];
      if vs.Some? { return Some(Hit(ups[i], vs.value)); }
    }
    r := None;
  }

  lemma {:induction false} FirstHitFinds(w: World, ups: seq<Upstream>, dep: Name)
    ensures FirstHit(w, ups, dep).None? <==> forall u :: u in ups ==> w.fetch(u.id, dep).None?
    ensures FirstHit(w, ups, dep).Some? ==>
            var h := FirstHit(w, ups, dep).value; h.upstream in ups && w.fetch(h.upstream.id, dep) == Some(h.versions)
    decreases |ups|
  {
    if ups == [] {
    } else {
      FirstHitFinds(w, ups[1..], dep);
      assert ups == [ups[0]] + ups[1..];
    }
  }

  lemma {:induction false} FirstHitConcat(w: World, a: seq<Upstream>, b: seq<Upstream>, dep: Name)
    ensures FirstHit(w, a + b, dep) == if FirstHit(w, a, dep).Some? then FirstHit(w, a, dep) else FirstHit(w, b, dep)
    decreases |a|
  {
    if a == [] {
      assert a + b == b;
    } else {
      assert (a + b)[1..] == a[1..] + b;
      FirstHitConcat(w, a[1..], b, dep);
    }
  }

  ghost predicate Serves(w: World, dep: Name, isPrivate: bool) {
    exists u :: u in w.upstreams && u.composer && u.isPrivate == isPrivate && w.fetch(u.id, dep).Some?
  }

  function StatusOf(w: World, dep: Name): Status {
    if dep in w.present then Present
    else match Resolved(w, dep)
      case None => Missing
      case Some(h) => if h.upstream.isPrivate then ResolvablePrivate else ResolvablePublic
  }

  /** Private upstreams win: what the four statuses mean. */
  lemma StatusMeaning(w: World, dep: Name)
    requires dep !in w.present
    ensures StatusOf(w, dep).ResolvablePrivate? <==> Serves(w, dep, true)
    ensures StatusOf(w, dep).ResolvablePublic? <==> !Serves(w, dep, true) && Serves(w, dep, false)
    ensures StatusOf(w, dep).Missing? <==> !Serves(w, dep, true) && !Serves(w, dep, false)
  {
    var a, b := Composer(w.upstreams, true), Composer(w.upstreams, false);
    FirstHitConcat(w, a, b, dep);
    FirstHitFinds(w, a, dep);
    FirstHitFinds(w, b, dep);
    hide FirstHit, Composer;
  }

  // ----- the graph -----

  /** The packages an entry is expanded into. */
  function Requires(w: World, dep: Name): seq<Name> {
    if dep in w.present then []
    else match Resolved(w, dep)
      case None => []
      case Some(h) => Packages(LatestRequires(h.versions))
  }

  // ----- which upstream, which version -----

  ghost predicate Offers(w: World, dep: Name, i: nat) {
    i < |w.upstreams| && w.upstreams[i].composer && w.fetch(w.upstreams[i].id, dep).Some?
  }

  /** The upstream at `i` is the first in listing order that has `dep`, among the private ones if
      any of them has it. */
  ghost predicate FirstOffer(w: World, dep: Name, i: nat) {
    && Offers(w, dep, i)
    && (w.upstreams[i].isPrivate || forall j: nat :: Offers(w, dep, j) ==> !w.upstreams[j].isPrivate)
    && forall j: nat :: j < i && Offers(w, dep, j) ==> w.upstreams[j].isPrivate != w.upstreams[i].isPrivate
  }

  lemma {:induction false} ComposerConcat(a: seq<Upstream>, b: seq<Upstream>, isPrivate: bool)
    ensures Composer(a + b, isPrivate) == Composer(a, isPrivate) + Composer(b, isPrivate)
    decreases |b|
  {
    if b == [] {
      assert a + b == a;
    } else {
      assert (a + b)[..|a + b| - 1] == a + b[..|b| - 1];
      ComposerConcat(a, b[..|b| - 1], isPrivate);
    }
  }

  lemma NoneBefore(w: World, dep: Name, n: nat, isPrivate: bool)
    requires n <= |w.upstreams|
    requires forall j: nat :: j < n && Offers(w, dep, j) ==> w.upstreams[j].isPrivate != isPrivate
    ensures FirstHit(w, Composer(w.upstreams[..n], isPrivate), dep) == None
  {
    var a := Composer(w.upstreams[..n], isPrivate);
    FirstHitFinds(w, a, dep);
    forall x | x in a ensures w.fetch(x.id, dep).None? {
      var j :| 0 <= j < n && w.upstreams[..n][j] == x;
      assert Offers(w, dep, j) <==> w.fetch(x.id, dep).Some?;
    }
    hide FirstHit, Composer;
  }

  lemma ComposerOfOne(u: Upstream)
    requires u.composer
    ensures Composer([u], u.isPrivate) == [u] && Composer([u], !u.isPrivate) == []
  {
    assert [u][..0] == [];
    assert Composer([], true) == [] && Composer([], false) == [];
  }

  lemma ComposerAround(ups: seq<Upstream>, i: nat)
    requires i < |ups| && ups[i].composer
    ensures var u := ups[i];
            Composer(ups, u.isPrivate)
            == Composer(ups[..i], u.isPrivate) + ([u] + Composer(ups[i + 1..], u.isPrivate))
  {
    hide Composer;
    var u := ups[i];
    ComposerOfOne(u);
    assert ups == ups[..i] + ([u] + ups[i + 1..]);
    ComposerConcat(ups[..i], [u] + ups[i + 1..], u.isPrivate);
    ComposerConcat([u], ups[i + 1..], u.isPrivate);
  }

  lemma HitHead(w: World, dep: Name, u: Upstream, rest: seq<Upstream>)
    requires w.fetch(u.id, dep).Some?
    ensures FirstHit(w, [u] + rest, dep) == Some(Hit(u, w.fetch(u.id, dep).value))
  {
  }

  /** The first of its kind that has the name is hit. */
  lemma FirstOfKind(w: World, dep: Name, i: nat)
    requires Offers(w, dep, i)
    requires forall j: nat :: j < i && Offers(w, dep, j) ==> w.upstreams[j].isPrivate != w.upstreams[i].isPrivate
    ensures var u := w.upstreams[i];
            FirstHit(w, Composer(w.upstreams, u.isPrivate), dep) == Some(Hit(u, w.fetch(u.id, dep).value))
  {
    var u := w.upstreams[i];
    NoneBefore(w, dep, i, u.isPrivate);
    ComposerAround(w.upstreams, i);
    hide FirstHit, Composer;
    HitHead(w, dep, u, Composer(w.upstreams[i + 1..], u.isPrivate));
    FirstHitConcat(w, Composer(w.upstreams[..i], u.isPrivate), [u] + Composer(w.upstreams[i + 1..], u.isPrivate), dep);
  }

  lemma FirstOfferIsHit(w: World, dep: Name, i: nat)
    requires FirstOffer(w, dep, i)
    ensures var u := w.upstreams[i]; Resolved(w, dep) == Some(Hit(u, w.fetch(u.id, dep).value))
  {
    hide FirstHit, Composer;
    FirstOfKind(w, dep, i);
    assert w.upstreams[..|w.upstreams|] == w.upstreams;
    if !w.upstreams[i].isPrivate { NoneBefore(w, dep, |w.upstreams|, true); }
    FirstHitConcat(w, Composer(w.upstreams, true), Composer(w.upstreams, false), dep);
  }

  lemma PackagesOfOne(n: Name)
    ensures Packages([n]) == if '/' in n then [n] else []
  {
    assert [n][..0] == [];
    assert Packages([]) == [];
  }

  /** Filtering keeps order and multiplicity. */
  lemma {:induction false} PackagesConcat(a: seq<Name>, b: seq<Name>)
    ensures Packages(a + b) == Packages(a) + Packages(b)
    decreases |b|
  {
    if b == [] {
      assert a + b == a;
    } else {
      assert (a + b)[..|a + b| - 1] == a + b[..|b| - 1];
      PackagesConcat(a, b[..|b| - 1]);
    }
  }

  /** A name that is not present is resolved by the first upstream in listing order that has it,
      private ones before public ones, and expanded into the packages that the last listed version
      there requires, in their order. */
  lemma ExpandsLastVersion(w: World, dep: Name, parent: Name, i: nat)
    requires dep !in w.present && FirstOffer(w, dep, i)
    ensures var u := w.upstreams[i]; var vs := w.fetch(u.id, dep).value;
            && Classified(w, dep, parent)
               == Entry(dep, if u.isPrivate then ResolvablePrivate else ResolvablePublic, Some(u.id), parent)
            && Requires(w, dep) == (if vs == [] then [] else Packages(vs[|vs| - 1]))
            && forall n :: n in Requires(w, dep) <==> vs != [] && '/' in n && n in vs[|vs| - 1]
  {
    FirstOfferIsHit(w, dep, i);
    hide FirstOffer, Resolved;
  }

  lemma FirstOfferUnique(w: World, dep: Name, i: nat, j: nat)
    requires FirstOffer(w, dep, i) && FirstOffer(w, dep, j)
    ensures i == j
  {
    hide Offers;
  }

  /** There is such an upstream, and only one, exactly when one has the name. */
  lemma FirstOfferExists(w: World, dep: Name)
    ensures (exists i: nat :: FirstOffer(w, dep, i)) <==> Serves(w, dep, true) || Serves(w, dep, false)
    ensures forall i: nat, j: nat :: FirstOffer(w, dep, i) && FirstOffer(w, dep, j) ==> i == j
  {
    forall i: nat, j: nat | FirstOffer(w, dep, i) && FirstOffer(w, dep, j) ensures i == j {
      FirstOfferUnique(w, dep, i, j);
    }
    if Serves(w, dep, true) {
      var i := FirstOffering(w, dep, true);
      assert FirstOffer(w, dep, i);
    } else if Serves(w, dep, false) {
      var i := FirstOffering(w, dep, false);
      forall j: nat | Offers(w, dep, j) ensures !w.upstreams[j].isPrivate {
        assert w.upstreams[j] in w.upstreams;
      }
      assert FirstOffer(w, dep, i);
    }
    if exists i: nat :: FirstOffer(w, dep, i) {
      var i: nat :| FirstOffer(w, dep, i);
      assert w.upstreams[i] in w.upstreams;
    }
  }

  lemma FirstOffering(w: World, dep: Name, isPrivate: bool) returns (i: nat)
    requires Serves(w, dep, isPrivate)
    ensures Offers(w, dep, i) && w.upstreams[i].isPrivate == isPrivate
    ensures forall j: nat :: j < i && Offers(w, dep, j) ==> w.upstreams[j].isPrivate != isPrivate
  {
    var u :| u in w.upstreams && u.composer && u.isPrivate == isPrivate && w.fetch(u.id, dep).Some?;
    var last: nat :| last < |w.upstreams| && w.upstreams[last] == u;
    assert Offers(w, dep, last);
    i := 0;
    while !(Offers(w, dep, i) && w.upstreams[i].isPrivate == isPrivate)
      invariant i <= last
      invariant forall j: nat :: j < i && Offers(w, dep, j) ==> w.upstreams[j].isPrivate != isPrivate
      decreases last - i
    {
      i := i + 1;
    }
  }

  ghost predicate Direct(w: World, parent: Name, dep: Name) { IsPackage(dep) && (parent, dep) in w.direct }

  /** `dep` is needed over a chain of `n` further packages. */
  ghost predicate ReachedIn(w: World, dep: Name, n: nat)
    decreases n
  {
    if n == 0 then exists parent :: Direct(w, parent, dep)
    else exists q :: ReachedIn(w, q, n - 1) && dep in Requires(w, q)
  }

  ghost predicate Reachable(w: World, dep: Name) { exists n :: ReachedIn(w, dep, n) }

  ghost predicate Distance(w: World, dep: Name, n: nat) {
    ReachedIn(w, dep, n) && forall m :: 0 <= m < n ==> !ReachedIn(w, dep, m)
  }

  // ----- the worklist -----

  ghost predicate Lists(plan: seq<Entry>, dep: Name) { exists j :: 0 <= j < |plan| && plan[j].name == dep }

  ghost predicate Waits(queue: seq<Request>, due: seq<nat>, dep: Name, n: nat)
    requires |due| == |queue|
  {
    exists k :: 0 <= k < |queue| && queue[k].dep == dep && due[k] <= n
  }

  function Classified(w: World, dep: Name, parent: Name): Entry {
    var status := StatusOf(w, dep);
    Entry(dep, status, if status.ResolvablePrivate? || status.ResolvablePublic?
      then Some(Resolved(w, dep).value.upstream.id) else None, parent)
  }

  /** `parent` needs `dep`: a package of the repository, or an entry before position `limit`, one
      step nearer. */
  ghost predicate Needs(w: World, plan: seq<Entry>, dist: seq<nat>, limit: nat, parent: Name, dep: Name, n: nat)
    requires limit <= |plan| == |dist|
  {
    if n == 0 then Direct(w, parent, dep)
    else exists j :: 0 <= j < limit && plan[j].name == parent && dist[j] == n - 1 && dep in Requires(w, parent)
  }

  ghost predicate Distinct(plan: seq<Entry>) {
    forall i, j :: 0 <= i < |plan| && 0 <= j < |plan| && plan[i].name == plan[j].name ==> i == j
  }

  /** The entries are right: classified, each name once, at its distance, with its reason. */
  ghost predicate Sound(w: World, plan: seq<Entry>, dist: seq<nat>) {
    && |dist| == |plan|
    && Distinct(plan)
    && (forall i :: 0 <= i < |plan| ==> plan[i] == Classified(w, plan[i].name, plan[i].requiredBy))
    && (forall i :: 0 <= i < |plan| ==> Distance(w, plan[i].name, dist[i]))
    && (forall i :: 0 <= i < |plan| ==> Needs(w, plan, dist, i, plan[i].requiredBy, plan[i].name, dist[i]))
  }

  ghost predicate Sorted(s: seq<nat>) { forall i, j :: 0 <= i <= j < |s| ==> s[i] <= s[j] }

  /** Distances ascend along plan and queue, and span at most one level in the queue. */
  ghost predicate InOrder(dist: seq<nat>, due: seq<nat>) {
    Sorted(dist + due) && (due != [] ==> due[|due| - 1] <= due[0] + 1)
    && (dist != [] && due != [] ==> due[|due| - 1] <= dist[|dist| - 1] + 1)
  }

  ghost predicate QueueSound(w: World, plan: seq<Entry>, dist: seq<nat>, queue: seq<Request>, due: seq<nat>)
    requires |dist| == |plan|
  {
    |due| == |queue|
    && forall k :: 0 <= k < |queue| ==> Needs(w, plan, dist, |plan|, queue[k].parent, queue[k].dep, due[k])
  }

  /** Nothing is forgotten. */
  ghost predicate Covers(w: World, plan: seq<Entry>, dist: seq<nat>, queue: seq<Request>, due: seq<nat>)
    requires |dist| == |plan| && |due| == |queue|
  {
    && (forall parent, dep :: Direct(w, parent, dep) ==> Lists(plan, dep) || Waits(queue, due, dep, 0))
    && (forall j, dep :: 0 <= j < |plan| && dep in Requires(w, plan[j].name) ==>
          Lists(plan, dep) || Waits(queue, due, dep, dist[j] + 1))
  }

  ghost predicate Invariant(w: World, plan: seq<Entry>, dist: seq<nat>, queue: seq<Request>, due: seq<nat>) {
    Sound(w, plan, dist) && InOrder(dist, due) && QueueSound(w, plan, dist, queue, due)
      && Covers(w, plan, dist, queue, due)
  }

  lemma {:induction false} NearIsListed(w: World, plan: seq<Entry>, dist: seq<nat>, queue: seq<Request>,
          due: seq<nat>, dep: Name, m: nat)
    requires Sound(w, plan, dist) && |due| == |queue| && Covers(w, plan, dist, queue, due)
    requires ReachedIn(w, dep, m) && forall k :: 0 <= k < |due| ==> m < due[k]
    ensures Lists(plan, dep)
    decreases m
  {
    hide Classified, Requires, Needs, Direct;
    if m == 0 {
      var parent :| Direct(w, parent, dep);
    } else {
      var q :| ReachedIn(w, q, m - 1) && dep in Requires(w, q);
      NearIsListed(w, plan, dist, queue, due, q, m - 1);
      var j :| 0 <= j < |plan| && plan[j].name == q;
      assert Distance(w, q, dist[j]) && dist[j] <= m - 1;
    }
  }

  lemma NeedsReached(w: World, plan: seq<Entry>, dist: seq<nat>, limit: nat, parent: Name, dep: Name, n: nat)
    requires Sound(w, plan, dist) && limit <= |plan| == |dist| && Needs(w, plan, dist, limit, parent, dep, n)
    ensures ReachedIn(w, dep, n)
  {
    hide Sound, Requires, Direct;
    if n > 0 {
      var j :| 0 <= j < limit && plan[j].name == parent && dist[j] == n - 1 && dep in Requires(w, parent);
      SoundDistance(w, plan, dist, j);
      assert ReachedIn(w, parent, n - 1);
    }
  }

  lemma SoundDistance(w: World, plan: seq<Entry>, dist: seq<nat>, j: nat)
    requires Sound(w, plan, dist) && j < |plan|
    ensures Distance(w, plan[j].name, dist[j])
  {
    hide Distance, Classified, Needs;
  }

  /** The head of the queue, when new, is at its distance. */
  lemma HeadDistance(w: World, plan: seq<Entry>, dist: seq<nat>, queue: seq<Request>, due: seq<nat>)
    requires Invariant(w, plan, dist, queue, due) && queue != [] && !Lists(plan, queue[0].dep)
    ensures Distance(w, queue[0].dep, due[0])
  {
    Lengths(w, plan, dist, queue, due);
    hide Sound, Covers, Needs, ReachedIn, Lists;
    NeedsReached(w, plan, dist, |plan|, queue[0].parent, queue[0].dep, due[0]);
    DueAscends(dist, due);
    forall m: nat | m < due[0] ensures !ReachedIn(w, queue[0].dep, m) {
      if ReachedIn(w, queue[0].dep, m) { NearIsListed(w, plan, dist, queue, due, queue[0].dep, m); }
    }
  }

  lemma DueAscends(dist: seq<nat>, due: seq<nat>)
    requires InOrder(dist, due) && due != []
    ensures forall k :: 0 <= k < |due| ==> due[0] <= due[k] <= due[0] + 1
    ensures forall j :: 0 <= j < |dist| ==> dist[j] <= due[0]
  {
    var all := dist + due;
    forall k | 0 <= k < |due| ensures due[0] <= due[k] <= due[|due| - 1] {
      assert all[|dist|] == due[0] && all[|dist| + k] == due[k] && all[|dist| + |due| - 1] == due[|due| - 1];
    }
    forall j | 0 <= j < |dist| ensures dist[j] <= due[0] { assert all[j] == dist[j] && all[|dist|] == due[0]; }
  }

  lemma OrderSkip(dist: seq<nat>, due: seq<nat>)
    requires InOrder(dist, due) && due != []
    ensures InOrder(dist, due[1..])
  {
    DueAscends(dist, due);
    var all, left := dist + due, dist + due[1..];
    forall i, j | 0 <= i <= j < |left| ensures left[i] <= left[j] {
      assert left[i] == all[if i < |dist| then i else i + 1] && left[j] == all[if j < |dist| then j else j + 1];
    }
    if |due| > 1 { assert due[1..][|due| - 2] == due[|due| - 1]; }
  }

  lemma OrderVisit(dist: seq<nat>, due: seq<nat>, k: nat)
    requires InOrder(dist, due) && due != []
    ensures InOrder(dist + [due[0]], due[1..] + seq(k, _ => due[0] + 1))
  {
    DueAscends(dist, due);
    var all, more := dist + due, (dist + [due[0]]) + (due[1..] + seq(k, _ => due[0] + 1));
    forall i, j | 0 <= i <= j < |more| ensures more[i] <= more[j] {
      assert i < |all| ==> more[i] == all[i];
      assert j < |all| ==> more[j] == all[j];
      assert i < |all| ==> more[i] <= due[0] + 1 by {
        if |dist| <= i < |all| { assert all[i] == due[i - |dist|]; }
      }
    }
  }

  function Requests(ns: seq<Name>, parent: Name): seq<Request> {
    seq(|ns|, i requires 0 <= i < |ns| => Request(ns[i], parent))
  }

  function Levels(k: nat, d: nat): seq<nat> { seq(k, _ => d) }

  lemma CoversSkip(w: World, plan: seq<Entry>, dist: seq<nat>, queue: seq<Request>, due: seq<nat>)
    requires |dist| == |plan| && |due| == |queue| && Covers(w, plan, dist, queue, due)
    requires queue != [] && Lists(plan, queue[0].dep)
    ensures Covers(w, plan, dist, queue[1..], due[1..])
  {
    hide Requires, Direct, Lists;
    forall dep, n | Waits(queue, due, dep, n) ensures Lists(plan, dep) || Waits(queue[1..], due[1..], dep, n) {
      WaitsSkip(queue, due, dep, n);
    }
    hide Waits;
  }

  lemma WaitsSkip(queue: seq<Request>, due: seq<nat>, dep: Name, n: nat)
    requires queue != [] && |due| == |queue| && Waits(queue, due, dep, n)
    ensures dep == queue[0].dep || Waits(queue[1..], due[1..], dep, n)
  {
    var k :| 0 <= k < |queue| && queue[k].dep == dep && due[k] <= n;
    if k > 0 { assert queue[1..][k - 1] == queue[k] && due[1..][k - 1] == due[k]; }
  }

  lemma WaitsMore(queue: seq<Request>, due: seq<nat>, q2: seq<Request>, d2: seq<nat>, dep: Name, n: nat)
    requires |due| == |queue| && |d2| == |q2|
    ensures Waits(queue, due, dep, n) || Waits(q2, d2, dep, n) ==> Waits(queue + q2, due + d2, dep, n)
  {
    if Waits(queue, due, dep, n) {
      var k :| 0 <= k < |queue| && queue[k].dep == dep && due[k] <= n;
      assert (queue + q2)[k] == queue[k] && (due + d2)[k] == due[k];
    }
    if Waits(q2, d2, dep, n) {
      var k :| 0 <= k < |q2| && q2[k].dep == dep && d2[k] <= n;
      assert (queue + q2)[|queue| + k] == q2[k] && (due + d2)[|queue| + k] == d2[k];
    }
  }

  lemma RequestsWait(ns: seq<Name>, parent: Name, d: nat, dep: Name)
    requires dep in ns
    ensures Waits(Requests(ns, parent), Levels(|ns|, d), dep, d)
  {
    var k :| 0 <= k < |ns| && ns[k] == dep;
    assert Requests(ns, parent)[k].dep == dep && Levels(|ns|, d)[k] <= d;
  }

  lemma ListsMore(plan: seq<Entry>, e: Entry, dep: Name)
    ensures Lists(plan + [e], dep) <==> Lists(plan, dep) || dep == e.name
  {
    if Lists(plan, dep) {
      var j :| 0 <= j < |plan| && plan[j].name == dep;
      assert (plan + [e])[j].name == dep;
    }
    assert (plan + [e])[|plan|] == e;
  }

  lemma CoversVisit(w: World, plan: seq<Entry>, dist: seq<nat>, queue: seq<Request>, due: seq<nat>, e: Entry)
    requires |dist| == |plan| && |due| == |queue| && Covers(w, plan, dist, queue, due)
    requires queue != [] && e.name == queue[0].dep
    ensures var ns := Requires(w, e.name);
            Covers(w, plan + [e], dist + [due[0]], queue[1..] + Requests(ns, e.name),
                   due[1..] + Levels(|ns|, due[0] + 1))
  {
    hide Requires, Direct, Lists, Waits;
    var ns := Requires(w, e.name);
    var plan', dist' := plan + [e], dist + [due[0]];
    var queue', due' := queue[1..] + Requests(ns, e.name), due[1..] + Levels(|ns|, due[0] + 1);
    forall dep, n: nat | Lists(plan, dep) || Waits(queue, due, dep, n)
      ensures Lists(plan', dep) || Waits(queue', due', dep, n)
    {
      ListsMore(plan, e, dep);
      if Waits(queue, due, dep, n) { WaitsSkip(queue, due, dep, n); }
      WaitsMore(queue[1..], due[1..], Requests(ns, e.name), Levels(|ns|, due[0] + 1), dep, n);
    }
    forall j, dep | 0 <= j < |plan'| && dep in Requires(w, plan'[j].name)
      ensures Lists(plan', dep) || Waits(queue', due', dep, dist'[j] + 1)
    {
      if j < |plan| {
        assert plan'[j] == plan[j] && dist'[j] == dist[j];
        assert Lists(plan, dep) || Waits(queue, due, dep, dist[j] + 1);
      } else {
        RequestsWait(ns, e.name, due[0] + 1, dep);
        WaitsMore(queue[1..], due[1..], Requests(ns, e.name), Levels(|ns|, due[0] + 1), dep, due[0] + 1);
      }
    }
  }

  lemma NeedsMore(w: World, plan: seq<Entry>, dist: seq<nat>, limit: nat, e: Entry, d: nat, parent: Name, dep: Name,
          n: nat)
    requires limit <= |plan| == |dist| && Needs(w, plan, dist, limit, parent, dep, n)
    ensures Needs(w, plan + [e], dist + [d], limit, parent, dep, n)
            && Needs(w, plan + [e], dist + [d], |plan| + 1, parent, dep, n)
  {
    hide Requires, Direct;
    if n > 0 {
      var j :| 0 <= j < limit && plan[j].name == parent && dist[j] == n - 1 && dep in Requires(w, parent);
      assert (plan + [e])[j] == plan[j] && (dist + [d])[j] == dist[j];
    }
  }

  lemma SoundVisit(w: World, plan: seq<Entry>, dist: seq<nat>, e: Entry, d: nat)
    requires Sound(w, plan, dist) && !Lists(plan, e.name) && e == Classified(w, e.name, e.requiredBy)
    requires Distance(w, e.name, d) && Needs(w, plan, dist, |plan|, e.requiredBy, e.name, d)
    ensures Sound(w, plan + [e], dist + [d])
  {
    hide Classified, Distance, Requires, Distinct, Lists;
    var plan', dist' := plan + [e], dist + [d];
    forall i | 0 <= i < |plan'|
      ensures Needs(w, plan', dist', i, plan'[i].requiredBy, plan'[i].name, dist'[i])
      ensures plan'[i] == Classified(w, plan'[i].name, plan'[i].requiredBy) && Distance(w, plan'[i].name, dist'[i])
    {
      if i < |plan| {
        NeedsMore(w, plan, dist, i, e, d, plan[i].requiredBy, plan[i].name, dist[i]);
      } else {
        NeedsMore(w, plan, dist, i, e, d, e.requiredBy, e.name, d);
      }
    }
    DistinctVisit(plan, e);
    hide Needs, Distinct, Lists;
  }

  lemma DistinctVisit(plan: seq<Entry>, e: Entry)
    requires Distinct(plan) && !Lists(plan, e.name)
    ensures Distinct(plan + [e])
  {
  }

  lemma QueueVisit(w: World, plan: seq<Entry>, dist: seq<nat>, queue: seq<Request>, due: seq<nat>, e: Entry)
    requires |dist| == |plan| && QueueSound(w, plan, dist, queue, due) && queue != [] && e.name == queue[0].dep
    ensures var ns := Requires(w, e.name);
            QueueSound(w, plan + [e], dist + [due[0]], queue[1..] + Requests(ns, e.name),
                       due[1..] + Levels(|ns|, due[0] + 1))
  {
    hide Requires;
    var ns := Requires(w, e.name);
    var plan', dist' := plan + [e], dist + [due[0]];
    var queue', due' := queue[1..] + Requests(ns, e.name), due[1..] + Levels(|ns|, due[0] + 1);
    forall k | 0 <= k < |queue'| ensures Needs(w, plan', dist', |plan'|, queue'[k].parent, queue'[k].dep, due'[k]) {
      if k < |queue| - 1 {
        assert queue'[k] == queue[k + 1] && due'[k] == due[k + 1];
        NeedsMore(w, plan, dist, |plan|, e, due[0], queue[k + 1].parent, queue[k + 1].dep, due[k + 1]);
      } else {
        assert queue'[k] == Request(ns[k + 1 - |queue|], e.name) && due'[k] == due[0] + 1;
        assert plan'[|plan|] == e && dist'[|plan|] == due[0];
      }
    }
  }

  lemma Skip(w: World, plan: seq<Entry>, dist: seq<nat>, queue: seq<Request>, due: seq<nat>)
    requires Invariant(w, plan, dist, queue, due) && queue != [] && Lists(plan, queue[0].dep)
    ensures Invariant(w, plan, dist, queue[1..], due[1..])
  {
    CoversSkip(w, plan, dist, queue, due);
    OrderSkip(dist, due);
    hide Sound, InOrder, Covers, Needs;
  }

  lemma Visit(w: World, plan: seq<Entry>, dist: seq<nat>, queue: seq<Request>, due: seq<nat>, e: Entry)
    requires Invariant(w, plan, dist, queue, due) && queue != [] && !Lists(plan, queue[0].dep)
    requires e == Classified(w, queue[0].dep, queue[0].parent)
    ensures var ns := Requires(w, e.name);
            Invariant(w, plan + [e], dist + [due[0]], queue[1..] + Requests(ns, e.name),
                      due[1..] + Levels(|ns|, due[0] + 1))
  {
    HeadDistance(w, plan, dist, queue, due);
    assert e.name == queue[0].dep && e.requiredBy == queue[0].parent;
    hide Sound, InOrder, Covers, Needs, Distance, Classified, Requires, Lists;
    SoundVisit(w, plan, dist, e, due[0]);
    QueueVisit(w, plan, dist, queue, due, e);
    CoversVisit(w, plan, dist, queue, due, e);
    OrderVisit(dist, due, |Requires(w, e.name)|);
  }

  /** What the plan promises. A name it leaves out is no nearer than any it lists, and names
      are left out only when the cap is reached. */
  ghost predicate BreadthFirst(w: World, plan: seq<Entry>, dist: seq<nat>) {
    && Sound(w, plan, dist) && Sorted(dist) && |plan| <= MAX_CLOSURE
    && forall dep, n :: Distance(w, dep, n) && !Lists(plan, dep) ==>
         |plan| == MAX_CLOSURE && forall j :: 0 <= j < |dist| ==> dist[j] <= n
  }

  lemma Lengths(w: World, plan: seq<Entry>, dist: seq<nat>, queue: seq<Request>, due: seq<nat>)
    requires Invariant(w, plan, dist, queue, due)
    ensures |dist| == |plan| && |due| == |queue| && QueueSound(w, plan, dist, queue, due)
  {
    hide InOrder, Needs, Covers;
  }

  lemma Finished(w: World, plan: seq<Entry>, dist: seq<nat>, queue: seq<Request>, due: seq<nat>)
    requires Invariant(w, plan, dist, queue, due) && |plan| <= MAX_CLOSURE
    requires queue != [] ==> |plan| == MAX_CLOSURE
    ensures BreadthFirst(w, plan, dist)
  {
    Lengths(w, plan, dist, queue, due);
    hide Sound, Covers, Needs, Lists, ReachedIn, QueueSound;
    assert Sorted(dist) by {
      assert forall i :: 0 <= i < |dist| ==> dist[i] == (dist + due)[i];
    }
    if due != [] { DueAscends(dist, due); }
    hide InOrder, Sorted;
    forall dep, n: nat | Distance(w, dep, n) && !Lists(plan, dep)
      ensures queue != [] && due[0] <= n
    {
      if queue == [] || n < due[0] { NearIsListed(w, plan, dist, queue, due, dep, n); }
    }
  }

  lemma Started(w: World, queue: seq<Request>)
    requires forall k :: 0 <= k < |queue| ==> Direct(w, queue[k].parent, queue[k].dep)
    requires forall i :: 0 <= i < |w.direct| && IsPackage(w.direct[i].1) ==>
              exists k :: 0 <= k < |queue| && queue[k].dep == w.direct[i].1
    ensures Invariant(w, [], [], queue, Levels(|queue|, 0))
  {
    hide *;
    StartCovers(w, queue);
    StartSound(w, queue);
    StartsAs(w, queue, Levels(|queue|, 0));
  }

  lemma StartsAs(w: World, queue: seq<Request>, due: seq<nat>)
    requires |due| == |queue| && Sound(w, [], []) && InOrder([], due)
    requires QueueSound(w, [], [], queue, due) && Covers(w, [], [], queue, due)
    ensures Invariant(w, [], [], queue, due)
  {
    hide Sound, InOrder, QueueSound, Covers;
  }

  lemma StartSound(w: World, queue: seq<Request>)
    requires forall k :: 0 <= k < |queue| ==> Direct(w, queue[k].parent, queue[k].dep)
    ensures Sound(w, [], []) && InOrder([], Levels(|queue|, 0)) && QueueSound(w, [], [], queue, Levels(|queue|, 0))
    ensures |Levels(|queue|, 0)| == |queue|
  {
    hide Direct, Requires, Classified, Distance;
  }

  lemma StartCovers(w: World, queue: seq<Request>)
    requires forall i :: 0 <= i < |w.direct| && IsPackage(w.direct[i].1) ==>
              exists k :: 0 <= k < |queue| && queue[k].dep == w.direct[i].1
    ensures |Levels(|queue|, 0)| == |queue| && Covers(w, [], [], queue, Levels(|queue|, 0))
  {
    var due := Levels(|queue|, 0);
    hide Requires;
    forall parent, dep | Direct(w, parent, dep) ensures Waits(queue, due, dep, 0) {
      var i :| 0 <= i < |w.direct| && w.direct[i] == (parent, dep);
      var k :| 0 <= k < |queue| && queue[k].dep == w.direct[i].1;
      assert due[k] <= 0;
    }
    hide Direct, Waits;
  }

  lemma HeadIsPackage(w: World, plan: seq<Entry>, dist: seq<nat>, queue: seq<Request>, due: seq<nat>)
    requires Invariant(w, plan, dist, queue, due) && queue != []
    ensures IsPackage(queue[0].dep) && |dist| == |plan| && |due| == |queue|
  {
    Lengths(w, plan, dist, queue, due);
    hide Resolved, Sound, InOrder, Covers;
    assert Needs(w, plan, dist, |plan|, queue[0].parent, queue[0].dep, due[0]);
  }

  lemma NoRequests(parent: Name)
    ensures Requests(Packages([]), parent) == []
  {
  }

  lemma RequestsStep(ns: seq<Name>, i: nat, parent: Name)
    requires i < |ns|
    ensures Requests(Packages(ns[..i + 1]), parent)
            == Requests(Packages(ns[..i]), parent) + (if IsPackage(ns[i]) then [Request(ns[i], parent)] else [])
  {
    assert ns[..i + 1][..i] == ns[..i];
  }

  method Enqueue(queue: seq<Request>, ns: seq<Name>, parent: Name) returns (r: seq<Request>)
    ensures r == queue + Requests(Packages(ns), parent)
  {
    hide Packages, Requests, IsPackage;
    assert Requests(Packages([]), parent) == [] by { NoRequests(parent); }
    r := queue;
    for i := 0 to |ns|
      invariant r == queue + Requests(Packages(ns[..i]), parent)
    {
      RequestsStep(ns, i, parent);
      if IsPackage(ns[i]) { r := r + [Request(ns[i], parent)]; }
    }
    assert ns[..|ns|] == ns;
  }

  method Seed(w: World) returns (queue: seq<Request>)
    ensures Invariant(w, [], [], queue, Levels(|queue|, 0))
  {
    queue := [];
    for i := 0 to |w.direct|
      invariant forall k :: 0 <= k < |queue| ==> Direct(w, queue[k].parent, queue[k].dep)
      invariant forall j :: 0 <= j < i && IsPackage(w.direct[j].1) ==>
                exists k :: 0 <= k < |queue| && queue[k].dep == w.direct[j].1
    {
      var (pkg, dep) := w.direct[i];
      ghost var before := queue;
      if IsPackage(dep) {
        queue := queue + [Request(dep, pkg)];
        assert queue[|before|].dep == dep;
        assert forall k :: 0 <= k < |before| ==> queue[k] == before[k];
      }
    }
    Started(w, queue);
  }

  /** One new name: classify it and enqueue what it requires. */
  method Expand(w: World, ups: seq<Upstream>, request: Request, queue: seq<Request>) returns (entry: Entry,
          more: seq<Request>)
    requires ups == PrivateFirst(w.upstreams)
    ensures entry == Classified(w, request.dep, request.parent)
    ensures more == queue + Requests(Requires(w, request.dep), request.dep)
  {
    var dep, requiredBy := request.dep, request.parent;
    EntryIs(w, dep, requiredBy);
    hide Requires, Classified, FirstHit, PrivateFirst, Packages;
    more := queue;
    if dep in w.present {
      entry := Entry(dep, Present, None, requiredBy);
      assert Requests(Requires(w, dep), dep) == [];
    } else {
      var hit := Probe(w, ups, dep);
      match hit {
        case Some(h) =>
          entry := Entry(dep, if h.upstream.isPrivate then ResolvablePrivate else ResolvablePublic,
                         Some(h.upstream.id), requiredBy);
          more := Enqueue(queue, LatestRequires(h.versions), dep);
        case None =>
          entry := Entry(dep, Missing, None, requiredBy);
          assert Requests(Requires(w, dep), dep) == [];
      }
    }
  }

  /** `resolve_closure`, with the distance of each entry as a ghost result. */
  method ResolveClosure(w: World) returns (plan: seq<Entry>, ghost dist: seq<nat>)
    ensures BreadthFirst(w, plan, dist)
    ensures |plan| <= 2000 && Distinct(plan)
    ensures forall i :: 0 <= i < |plan| ==> plan[i] == Classified(w, plan[i].name, plan[i].requiredBy)
    ensures |plan| < 2000 ==> forall dep :: Lists(plan, dep) <==> Reachable(w, dep)
  {
    var ups := PrivateFirst(w.upstreams);
    var queue := Seed(w);
    ghost var due := Levels(|queue|, 0);
    var seen: set<Name> := {};
    plan, dist := [], [];
    NothingListed();
    hide *;
    while queue != []
      invariant Invariant(w, plan, dist, queue, due) && |plan| <= MAX_CLOSURE
      invariant forall x :: x in seen <==> Lists(plan, x)
      decreases MAX_CLOSURE - |plan|, |queue|
    {
      var head, rest := queue[0], queue[1..];
      HeadIsPackage(w, plan, dist, queue, due);
      if !IsPackage(head.dep) || head.dep in seen {
        Skip(w, plan, dist, queue, due);
        queue, due := rest, due[1..];
        continue;
      }
      seen := seen + {head.dep};
      if |plan| >= MAX_CLOSURE {
        Finished(w, plan, dist, queue, due);
        PlanMeaning(w, plan, dist);
        return;
      }
      var entry, more := Expand(w, ups, head, rest);
      Visit(w, plan, dist, queue, due, entry);
      forall x ensures x in seen <==> Lists(plan + [entry], x) { ListsMore(plan, entry, x); }
      plan, dist := plan + [entry], dist + [due[0]];
      queue, due := more, due[1..] + Levels(|Requires(w, entry.name)|, due[0] + 1);
    }
    Finished(w, plan, dist, queue, due);
    PlanMeaning(w, plan, dist);
  }

  lemma PlanMeaning(w: World, plan: seq<Entry>, dist: seq<nat>)
    requires BreadthFirst(w, plan, dist)
    ensures |plan| <= 2000 && Distinct(plan)
    ensures forall i :: 0 <= i < |plan| ==> plan[i] == Classified(w, plan[i].name, plan[i].requiredBy)
    ensures |plan| < 2000 ==> forall dep :: Lists(plan, dep) <==> Reachable(w, dep)
  {
    hide Classified, Distinct, Lists, Reachable, Distance, Needs;
    if |plan| < MAX_CLOSURE {
      forall dep ensures Lists(plan, dep) <==> Reachable(w, dep) { CompleteBelowCap(w, plan, dist, dep); }
    }
  }

  lemma NothingListed()
    ensures forall x :: !Lists([], x)
  {
  }

  lemma EntryIs(w: World, dep: Name, parent: Name)
    ensures dep in w.present
            ==> Classified(w, dep, parent) == Entry(dep, Present, None, parent) && Requires(w, dep) == []
    ensures dep !in w.present ==>
            match FirstHit(w, PrivateFirst(w.upstreams), dep)
            case None => Classified(w, dep, parent) == Entry(dep, Missing, None, parent) && Requires(w, dep) == []
            case Some(h) =>
              && Classified(w, dep, parent)
                 == Entry(dep, if h.upstream.isPrivate then ResolvablePrivate else ResolvablePublic,
                          Some(h.upstream.id), parent)
              && Requires(w, dep) == Packages(LatestRequires(h.versions))
  {
    hide FirstHit, PrivateFirst, Packages;
  }

  // ----- what an operator can rely on -----

  /** Below the cap the plan lists exactly the reachable names. */
  lemma CompleteBelowCap(w: World, plan: seq<Entry>, dist: seq<nat>, dep: Name)
    requires BreadthFirst(w, plan, dist) && |plan| < 2000
    ensures Lists(plan, dep) <==> Reachable(w, dep)
  {
    hide Classified, Needs, ReachedIn;
    if Reachable(w, dep) {
      var n :| ReachedIn(w, dep, n);
      var m := Shortest(w, dep, n);
    }
    if Lists(plan, dep) {
      var j :| 0 <= j < |plan| && plan[j].name == dep;
      assert Distance(w, dep, dist[j]);
    }
  }

  lemma {:induction false} Shortest(w: World, dep: Name, n: nat) returns (m: nat)
    requires ReachedIn(w, dep, n)
    ensures Distance(w, dep, m)
    decreases n
  {
    hide ReachedIn;
    if exists k: nat :: k < n && ReachedIn(w, dep, k) {
      var k: nat :| k < n && ReachedIn(w, dep, k);
      m := Shortest(w, dep, k);
    } else {
      m := n;
    }
  }
}
