/** Repositories made of member repositories: one level deep, without packages of their own, and
    each package name served from one place. Transactions are taken as serialized; what a pair
    of interleaved ones can do is stated at the end. */
module CompositeRepo {
  import opened Options

  datatype Visibility = Private | Public

  datatype Repo = Repo(org: nat, allowsPrivate: bool)

  datatype Package = Package(repo: nat, name: string, visibility: Visibility, declared: bool)

  /** Members in order of position. */
  datatype Tables = Tables(repos: map<nat, Repo>, members: map<nat, seq<nat>>, packages: map<nat, Package>)

  function MembersOf(t: Tables, r: nat): seq<nat> { if r in t.members then t.members[r] else [] }

  predicate Owns(t: Tables, r: nat, p: nat) { p in t.packages && t.packages[p].repo == r }

  ghost predicate OwnsAny(t: Tables, r: nat) { exists p :: Owns(t, r, p) }

  ghost predicate MemberOfAny(t: Tables, r: nat) { exists q :: q in t.members && r in t.members[q] }

  predicate Distinct(s: seq<nat>) { forall i, j :: 0 <= i < j < |s| ==> s[i] != s[j] }

  // ----- the invariant -----

  /** What a repository with members looks like. */
  ghost predicate Composed(t: Tables, r: nat) {
    && r in t.repos && Distinct(MembersOf(t, r)) && !OwnsAny(t, r) && !MemberOfAny(t, r)
    && forall m :: m in MembersOf(t, r) ==>
         m != r && m in t.repos && t.repos[m].org == t.repos[r].org && MembersOf(t, m) == []
  }

  ghost predicate OneLevel(t: Tables) {
    forall r :: MembersOf(t, r) != [] ==> Composed(t, r)
  }

  predicate SameName(a: Package, b: Package) { a.repo == b.repo && a.name == b.name }

  /** Package names are unique per repository. */
  ghost predicate NamesUnique(t: Tables) {
    forall p, q :: p in t.packages && q in t.packages && SameName(t.packages[p], t.packages[q]) ==> p == q
  }

  // ----- setting members -----

  datatype MembersError = OwnMember | ListedTwice | OtherOrg | Nested | OwnsPackages | NoSuchRepo

  /** The checks of `set_repo_members`, in order. */
  ghost function SetMembersError(t: Tables, r: nat, ms: seq<nat>): Option<MembersError> {
    if ms == [] then None
    else if exists i :: 0 <= i < |ms| && ms[i] == r && Distinct(ms[..i]) then Some(OwnMember)
    else if !Distinct(ms) then Some(ListedTwice)
    else if exists m :: m in ms && !SameOrg(t, r, m) then Some(OtherOrg)
    else if (exists m :: m in ms && MembersOf(t, m) != []) || MemberOfAny(t, r) then Some(Nested)
    else if OwnsAny(t, r) then Some(OwnsPackages)
    else if r !in t.repos then Some(NoSuchRepo)
    else None
  }

  /** The query compares with the repository's organization only when it exists. */
  predicate SameOrg(t: Tables, r: nat, m: nat) { m in t.repos && (r in t.repos ==> t.repos[m].org == t.repos[r].org) }

  ghost function AfterSetMembers(t: Tables, r: nat, ms: seq<nat>): Tables {
    if SetMembersError(t, r, ms).Some? then t else t.(members := t.members[r := ms])
  }

  // ----- packages -----

  datatype PackageError = NotAllowed | HasMembers | NoRepo

  ghost predicate Exists(t: Tables, r: nat, name: string, p: nat) { Owns(t, r, p) && t.packages[p].name == name }

  /** A declared visibility outlives the one passed in. */
  ghost predicate EffectivelyPrivate(t: Tables, r: nat, name: string, v: Visibility) {
    if exists p :: Exists(t, r, name, p) && t.packages[p].declared
    then exists p :: Exists(t, r, name, p) && t.packages[p].declared && t.packages[p].visibility.Private?
    else v.Private?
  }

  /** The four statements of `upsert_package`, each looking at the tables as it finds them: the
      visibility on record, the repository's policy, its members, and the insert. */
  ghost function UpsertError(seen: Tables, policed: Tables, composed: Tables, written: Tables, r: nat, name: string,
                             v: Visibility):
        Option<PackageError>
  {
    var isPrivate := EffectivelyPrivate(seen, r, name, v);
    if isPrivate && r !in policed.repos then Some(NoRepo)
    else if isPrivate && !policed.repos[r].allowsPrivate then Some(NotAllowed)
    else if MembersOf(composed, r) != [] then Some(HasMembers)
    else if r !in written.repos then Some(NoRepo)
    else None
  }

  /** The tables a refused call has last looked at. */
  ghost function StoppedAt(seen: Tables, policed: Tables, composed: Tables, r: nat, name: string,
                           v: Visibility): (i: nat)
    ensures i < 3
  {
    if EffectivelyPrivate(seen, r, name, v) && (r !in policed.repos || !policed.repos[r].allowsPrivate) then 0
    else if MembersOf(composed, r) != [] then 1
    else 2
  }

  /** The insert: a new package, or an existing one's visibility refreshed unless declared. */
  ghost predicate Inserts(t: Tables, t': Tables, r: nat, name: string, v: Visibility) {
    if exists p :: Exists(t, r, name, p) then exists p :: Exists(t, r, name, p) && t' == Refreshed(t, p, v)
    else exists p: nat :: p !in t.packages && t' == t.(packages := t.packages[p := Package(r, name, v, false)])
  }

  function Refreshed(t: Tables, p: nat, v: Visibility): Tables
    requires p in t.packages
  {
    var row := t.packages[p];
    t.(packages := t.packages[p := row.(visibility := if row.declared then row.visibility else v)])
  }

  /** All four with nobody in between. */
  ghost predicate Upserts(t: Tables, t': Tables, r: nat, name: string, v: Visibility) {
    if UpsertError(t, t, t, t, r, name, v).Some? then t' == t else Inserts(t, t', r, name, v)
  }

  /** Whom `upsert_package` turns away: a package that is private, by declaration or else by the
      caller's word, from a repository for public ones; any package from a repository that has
      members, or that is not there. The first of these decides. */
  lemma UpsertErrorMeans(seen: Tables, policed: Tables, composed: Tables, written: Tables, r: nat, name: string,
                         v: Visibility, p: nat)
    requires NamesUnique(seen) && Exists(seen, r, name, p)
    ensures var isPrivate := (if seen.packages[p].declared then seen.packages[p].visibility else v) == Private;
            UpsertError(seen, policed, composed, written, r, name, v)
            == if isPrivate && r !in policed.repos then Some(NoRepo)
               else if isPrivate && !policed.repos[r].allowsPrivate then Some(NotAllowed)
               else if r in composed.members && composed.members[r] != [] then Some(HasMembers)
               else if r !in written.repos then Some(NoRepo) else None
  {
    assert forall q :: Exists(seen, r, name, q) ==> SameName(seen.packages[p], seen.packages[q]);
  }

  lemma NewPackageErrorMeans(seen: Tables, policed: Tables, composed: Tables, written: Tables, r: nat, name: string,
                             v: Visibility)
    requires forall p :: !Exists(seen, r, name, p)
    ensures UpsertError(seen, policed, composed, written, r, name, v)
            == if v == Private && r !in policed.repos then Some(NoRepo)
               else if v == Private && !policed.repos[r].allowsPrivate then Some(NotAllowed)
               else if r in composed.members && composed.members[r] != [] then Some(HasMembers)
               else if r !in written.repos then Some(NoRepo) else None
  {
  }

  /** What the insert leaves: row `p` of that name, with the caller's visibility unless another one was
      declared, and every other package as it was. */
  ghost predicate Leaves(t: Tables, t': Tables, r: nat, name: string, v: Visibility, p: nat) {
    && t'.repos == t.repos && t'.members == t.members
    && t'.packages.Keys == t.packages.Keys + {p}
      && (forall q :: q in t.packages && q != p ==> t'.packages[q] == t.packages[q])
    && t'.packages[p] == if p in t.packages && t.packages[p].declared then t.packages[p] else Package(r, name, v, false)
  }

  lemma InsertsMeans(t: Tables, t': Tables, r: nat, name: string, v: Visibility)
    requires NamesUnique(t) && Inserts(t, t', r, name, v)
    ensures exists p :: Exists(t', r, name, p) && Leaves(t, t', r, name, v, p)
                        && (p in t.packages <==> exists q :: Exists(t, r, name, q))
  {
    if exists p :: Exists(t, r, name, p) {
      var p :| Exists(t, r, name, p) && t' == Refreshed(t, p, v);
      RefreshLeaves(t, r, name, v, p);
    } else {
      var p: nat :| p !in t.packages && t' == t.(packages := t.packages[p := Package(r, name, v, false)]);
      assert Exists(t', r, name, p) && Leaves(t, t', r, name, v, p);
    }
  }

  lemma RefreshLeaves(t: Tables, r: nat, name: string, v: Visibility, p: nat)
    requires Exists(t, r, name, p)
    ensures Exists(Refreshed(t, p, v), r, name, p) && Leaves(t, Refreshed(t, p, v), r, name, v, p)
  {
    assert t.packages.Keys + {p} == t.packages.Keys;
  }

  // ----- every operation keeps the invariant -----

  function Without(s: seq<nat>, x: nat): (r: seq<nat>)
    ensures forall y :: y in r <==> y in s && y != x
    decreases |s|
  {
    if s == [] then [] else Without(s[..|s| - 1], x) + (if s[|s| - 1] == x then [] else [s[|s| - 1]])
  }

  lemma {:induction false} WithoutDistinct(s: seq<nat>, x: nat)
    requires Distinct(s)
    ensures Distinct(Without(s, x))
    decreases |s|
  {
    if s == [] {
    } else {
      var init := s[..|s| - 1];
      WithoutDistinct(init, x);
      var w := Without(init, x);
      assert forall i :: 0 <= i < |w| ==> w[i] in init;
      assert forall i :: 0 <= i < |init| ==> init[i] != s[|s| - 1];
    }
  }

  /** Deleting a repository takes its packages and its rows on both sides of membership. */
  function AfterDelete(t: Tables, r: nat): Tables {
    Tables(t.repos - {r}, map q | q in t.members && q != r :: Without(t.members[q], r),
           map p | p in t.packages && t.packages[p].repo != r :: t.packages[p])
  }

  /** Exactly the repository goes, with its packages and its own member list, and it goes out of every
      list it is a member in, the others keeping their order. */
  lemma DeletedExactly(t: Tables, r: nat)
    ensures var t' := AfterDelete(t, r);
            && (forall q :: q in t'.repos <==> q in t.repos && q != r)
            && (forall q :: q in t'.repos ==> t'.repos[q] == t.repos[q])
            && (forall p :: p in t'.packages <==> p in t.packages && t.packages[p].repo != r)
            && (forall p :: p in t'.packages ==> t'.packages[p] == t.packages[p])
            && (forall q :: q in t'.members <==> q in t.members && q != r)
            && (forall q, a, b :: q in t'.members && t.members[q] == a + [r] + b && r !in a && r !in b ==>
              t'.members[q] == a + b)
            && (forall q :: q in t'.members && r !in t.members[q] ==> t'.members[q] == t.members[q])
  {
    hide Without;
    forall q, a, b | q in AfterDelete(t, r).members && t.members[q] == a + [r] + b && r !in a && r !in b
      ensures AfterDelete(t, r).members[q] == a + b
    {
      WithoutOne(a, r, b);
    }
    forall q | q in AfterDelete(t, r).members && r !in t.members[q] ensures AfterDelete(t, r).members[q] == t.members[q] {
      WithoutNone(t.members[q], r);
    }
  }

  lemma WithoutOne(a: seq<nat>, x: nat, b: seq<nat>)
    requires x !in a && x !in b
    ensures Without(a + [x] + b, x) == a + b
  {
    hide Without;
    WithoutItself(x);
    WithoutNone(a, x);
    WithoutNone(b, x);
    WithoutConcat(a, [x], x);
    WithoutConcat(a + [x], b, x);
  }

  lemma WithoutItself(x: nat)
    ensures Without([x], x) == []
  {
    assert [x][..0] == [];
    assert Without([], x) == [];
  }

  lemma {:induction false} WithoutConcat(a: seq<nat>, b: seq<nat>, x: nat)
    ensures Without(a + b, x) == Without(a, x) + Without(b, x)
    decreases |b|
  {
    if b == [] {
      assert a + b == a;
    } else {
      assert (a + b)[..|a + b| - 1] == a + b[..|b| - 1];
      WithoutConcat(a, b[..|b| - 1], x);
    }
  }

  lemma {:induction false} WithoutNone(s: seq<nat>, x: nat)
    requires x !in s
    ensures Without(s, x) == s
    decreases |s|
  {
    if s == [] {
    } else {
      WithoutNone(s[..|s| - 1], x);
      assert s == s[..|s| - 1] + [s[|s| - 1]];
    }
  }

  lemma SetMembersKeeps(t: Tables, r: nat, ms: seq<nat>)
    requires OneLevel(t) && NamesUnique(t)
    ensures OneLevel(AfterSetMembers(t, r, ms)) && NamesUnique(AfterSetMembers(t, r, ms))
  {
    var t' := AfterSetMembers(t, r, ms);
    if SetMembersError(t, r, ms).None? {
      forall q | MembersOf(t', q) != [] ensures Composed(t', q) {
        if q == r { SetComposed(t, r, ms); } else { OthersComposed(t, r, ms, q); }
      }
    }
  }

  lemma SetComposed(t: Tables, r: nat, ms: seq<nat>)
    requires ms != [] && SetMembersError(t, r, ms).None?
    ensures Composed(t.(members := t.members[r := ms]), r)
  {
    var t' := t.(members := t.members[r := ms]);
    forall m | m in ms ensures m != r && m in t.repos && t.repos[m].org == t.repos[r].org && MembersOf(t', m) == [] {
      var i :| 0 <= i < |ms| && ms[i] == m;
      assert Distinct(ms[..i]);
      assert SameOrg(t, r, m) && MembersOf(t, m) == [];
    }
    OwnsSame(t, r, ms, r);
    MemberAfter(t, r, ms, r);
  }

  lemma OwnsSame(t: Tables, r: nat, ms: seq<nat>, x: nat)
    ensures OwnsAny(t.(members := t.members[r := ms]), x) <==> OwnsAny(t, x)
  {
    var t' := t.(members := t.members[r := ms]);
    assert forall p :: Owns(t', x, p) <==> Owns(t, x, p);
  }

  lemma MemberAfter(t: Tables, r: nat, ms: seq<nat>, x: nat)
    ensures MemberOfAny(t.(members := t.members[r := ms]), x) ==> x in ms || MemberOfAny(t, x)
  {
  }

  lemma OthersComposed(t: Tables, r: nat, ms: seq<nat>, q: nat)
    requires OneLevel(t) && SetMembersError(t, r, ms).None? && q != r && MembersOf(t, q) != []
    ensures Composed(t.(members := t.members[r := ms]), q)
  {
    var t' := t.(members := t.members[r := ms]);
    assert Composed(t, q);
    OwnsSame(t, r, ms, q);
    assert q !in ms;
    MemberAfter(t, r, ms, q);
    forall m | m in MembersOf(t, q) ensures MembersOf(t', m) == [] {
      assert m == r ==> MemberOfAny(t, r);
    }
  }

  lemma UpsertKeeps(t: Tables, t': Tables, r: nat, name: string, v: Visibility)
    requires OneLevel(t) && NamesUnique(t) && Upserts(t, t', r, name, v)
    ensures OneLevel(t') && NamesUnique(t')
  {
    hide EffectivelyPrivate, OneLevel, NamesUnique, Inserts;
    if UpsertError(t, t, t, t, r, name, v).None? { BlindInsertKeepsIff(t, t', r, name, v); }
  }

  /** The insert knows nothing of the checks before it. It keeps composition one level deep
      exactly when the repository has no members as it happens. */
  lemma BlindInsertKeepsIff(t: Tables, t': Tables, r: nat, name: string, v: Visibility)
    requires OneLevel(t) && NamesUnique(t) && Inserts(t, t', r, name, v)
    ensures OneLevel(t') <==> MembersOf(t, r) == []
    ensures NamesUnique(t')
  {
    hide OneLevel, NamesUnique;
    if exists p :: Exists(t, r, name, p) {
      var p :| Exists(t, r, name, p) && t' == Refreshed(t, p, v);
      assert OwnsAny(t, r);
      OwnersHaveNoMembers(t, r);
      RefreshKeeps(t, t', r, name, p);
    } else {
      var p: nat :| p !in t.packages && t' == t.(packages := t.packages[p := Package(r, name, v, false)]);
      InsertKeepsNames(t, r, name, v, p);
      if MembersOf(t, r) == [] {
        PackagesChange(t, t', r);
      } else {
        assert Owns(t', r, p);
        if OneLevel(t') { OwnersHaveNoMembers(t', r); }
      }
    }
  }

  lemma OwnersHaveNoMembers(t: Tables, r: nat)
    requires OneLevel(t) && OwnsAny(t, r)
    ensures MembersOf(t, r) == []
  {
    assert MembersOf(t, r) != [] ==> Composed(t, r);
  }

  lemma RefreshKeeps(t: Tables, t': Tables, r: nat, name: string, p: nat)
    requires OneLevel(t) && NamesUnique(t) && MembersOf(t, r) == [] && Exists(t, r, name, p)
    requires exists v :: t' == Refreshed(t, p, v)
    ensures OneLevel(t') && NamesUnique(t')
  {
    PackagesChange(t, t', r);
    hide OneLevel;
  }

  lemma InsertKeepsNames(t: Tables, r: nat, name: string, v: Visibility, p: nat)
    requires NamesUnique(t) && p !in t.packages && !exists q :: Exists(t, r, name, q)
    ensures NamesUnique(t.(packages := t.packages[p := Package(r, name, v, false)]))
  {
    assert forall q :: q in t.packages && t.packages[q].repo == r && t.packages[q].name == name ==>
      Exists(t, r, name, q);
  }

  /** Packages of one repository without members change. */
  lemma PackagesChange(t: Tables, t': Tables, r: nat)
    requires OneLevel(t) && MembersOf(t, r) == [] && t'.repos == t.repos && t'.members == t.members
    requires forall p :: p in t'.packages && t'.packages[p].repo != r ==>
               p in t.packages && t.packages[p].repo == t'.packages[p].repo
    ensures OneLevel(t')
  {
    forall q | MembersOf(t', q) != [] ensures Composed(t', q) {
      assert Composed(t, q);
      assert forall p :: Owns(t', q, p) ==> Owns(t, q, p);
      assert OwnsAny(t', q) ==> OwnsAny(t, q);
      assert MemberOfAny(t', q) ==> MemberOfAny(t, q);
    }
  }

  lemma DeleteKeeps(t: Tables, r: nat)
    requires OneLevel(t) && NamesUnique(t)
    ensures OneLevel(AfterDelete(t, r)) && NamesUnique(AfterDelete(t, r))
  {
    var t' := AfterDelete(t, r);
    forall q | MembersOf(t', q) != [] ensures Composed(t', q) {
      assert Composed(t, q);
      WithoutDistinct(MembersOf(t, q), r);
      assert MembersOf(t', q) == Without(MembersOf(t, q), r);
      assert forall p :: Owns(t', q, p) ==> Owns(t, q, p);
      assert OwnsAny(t', q) ==> OwnsAny(t, q);
      assert MemberOfAny(t', q) ==> MemberOfAny(t, q);
      assert r in MembersOf(t, q) ==> r != q;
      forall m | m in MembersOf(t', q)
        ensures m != q && m in t'.repos && t'.repos[m].org == t'.repos[q].org && MembersOf(t', m) == []
      {
        assert m in MembersOf(t, q) && m != r;
      }
    }
  }

  lemma CreateKeeps(t: Tables, r: nat, repo: Repo)
    requires OneLevel(t) && NamesUnique(t) && r !in t.repos
    ensures OneLevel(t.(repos := t.repos[r := repo])) && NamesUnique(t.(repos := t.repos[r := repo]))
  {
    var t' := t.(repos := t.repos[r := repo]);
    forall q | MembersOf(t', q) != [] ensures Composed(t', q) {
      assert Composed(t, q);
      assert OwnsAny(t', q) ==> OwnsAny(t, q) by { assert forall p :: Owns(t', q, p) <==> Owns(t, q, p); }
      assert MemberOfAny(t', q) ==> MemberOfAny(t, q);
    }
  }

  datatype Op =
    | CreateRepo(id: nat, repo: Repo)
    | DeleteRepo(id: nat)
    | SetMembers(id: nat, members: seq<nat>)
    | UpsertPackage(id: nat, name: string, visibility: Visibility)

  ghost predicate Step(t: Tables, t': Tables, op: Op) {
    match op
    case CreateRepo(r, repo) => r !in t.repos && t' == t.(repos := t.repos[r := repo])
    case DeleteRepo(r) => t' == AfterDelete(t, r)
    case SetMembers(r, ms) => t' == AfterSetMembers(t, r, ms)
    case UpsertPackage(r, name, v) => Upserts(t, t', r, name, v)
  }

  ghost predicate Run(states: seq<Tables>, ops: seq<Op>) {
    && |states| == |ops| + 1 && states[0] == Tables(map[], map[], map[])
    && forall i :: 0 <= i < |ops| ==> Step(states[i], states[i + 1], ops[i])
  }

  /** Over every serialized run composition stays one level deep: a repository with members owns
      no packages and is nobody's member, and its members are distinct and of its organization. */
  lemma {:induction false} AlwaysOneLevel(states: seq<Tables>, ops: seq<Op>, n: nat)
    requires Run(states, ops) && n < |states|
    ensures OneLevel(states[n]) && NamesUnique(states[n])
    decreases n
  {
    hide OneLevel, NamesUnique, AfterDelete, AfterSetMembers, Upserts;
    if n == 0 {
      EmptyIsOneLevel();
    } else {
      AlwaysOneLevel(states, ops, n - 1);
      var t, t' := states[n - 1], states[n];
      assert Step(t, t', ops[n - 1]);
      match ops[n - 1]
      case CreateRepo(r, repo) => CreateKeeps(t, r, repo);
      case DeleteRepo(r) => DeleteKeeps(t, r);
      case SetMembers(r, ms) => SetMembersKeeps(t, r, ms);
      case UpsertPackage(r, name, v) => UpsertKeeps(t, t', r, name, v);
    }
  }

  lemma EmptyIsOneLevel()
    ensures OneLevel(Tables(map[], map[], map[])) && NamesUnique(Tables(map[], map[], map[]))
  {
  }

  // ----- transactions that overlap -----

  /** Whatever was checked before: writing the member list keeps composition one level deep
      exactly when the checks would pass at the write. */
  lemma WriteMembersKeepsIff(t: Tables, r: nat, ms: seq<nat>)
    requires OneLevel(t) && NamesUnique(t) && ms != []
    ensures OneLevel(t.(members := t.members[r := ms])) <==> SetMembersError(t, r, ms).None?
  {
    var t' := t.(members := t.members[r := ms]);
    hide OneLevel, NamesUnique;
    if SetMembersError(t, r, ms).None? {
      SetMembersKeeps(t, r, ms);
    } else if OneLevel(t') {
      ComposedNow(t', r);
      PassesAsComposed(t, r, ms);
    }
  }

  lemma ComposedNow(t: Tables, r: nat)
    requires OneLevel(t) && MembersOf(t, r) != []
    ensures Composed(t, r)
  {
  }

  lemma PassesAsComposed(t: Tables, r: nat, ms: seq<nat>)
    requires OneLevel(t) && ms != [] && Composed(t.(members := t.members[r := ms]), r)
    ensures SetMembersError(t, r, ms).None?
  {
    var t' := t.(members := t.members[r := ms]);
    assert MembersOf(t', r) == ms;
    OwnsSame(t, r, ms, r);
    NotOwnMember(t, r);
    MemberBefore(t, r, ms);
    assert forall m :: m in ms ==> m != r && SameOrg(t, r, m) && MembersOf(t', m) == MembersOf(t, m) == [];
    hide Distinct, OwnsAny, MemberOfAny, OneLevel;
  }

  lemma NotOwnMember(t: Tables, r: nat)
    requires OneLevel(t)
    ensures r !in MembersOf(t, r)
  {
    assert MembersOf(t, r) != [] ==> Composed(t, r);
  }

  lemma MemberBefore(t: Tables, r: nat, ms: seq<nat>)
    requires MemberOfAny(t, r) ==> r !in MembersOf(t, r)
    ensures MemberOfAny(t, r) ==> MemberOfAny(t.(members := t.members[r := ms]), r)
  {
    var t' := t.(members := t.members[r := ms]);
    if MemberOfAny(t, r) {
      var q :| q in t.members && r in t.members[q];
      assert q in t'.members && r in t'.members[q];
    }
  }

  /** Two transactions on different repositories that both made their checks before either wrote:
      together they keep composition one level deep exactly when neither makes the other's
      repository a member. */
  lemma OverlappingTransactionsKeepIff(t: Tables, a: nat, x: seq<nat>, b: nat, y: seq<nat>)
    requires OneLevel(t) && NamesUnique(t) && a != b
    requires SetMembersError(t, a, x).None? && SetMembersError(t, b, y).None?
    ensures OneLevel(t.(members := t.members[a := x][b := y])) <==> (x != [] ==> a !in y) && (y != [] ==> b !in x)
  {
    var t1 := t.(members := t.members[a := x]);
    SetMembersKeeps(t, a, x);
    assert t1.members[b := y] == t.members[a := x][b := y];
    hide OneLevel, NamesUnique;
    if y == [] {
      SetMembersKeeps(t1, b, y);
    } else {
      WriteMembersKeepsIff(t1, b, y);
      ChecksAfterOther(t, a, x, b, y);
    }
  }

  /** It happens to any two new repositories of an organization that are each made a member of the
      other at once. */
  lemma OverlapHappens(a: nat, b: nat, first: Repo, second: Repo)
    requires a != b && first.org == second.org
    ensures var t := Tables(map[a := first, b := second], map[], map[]);
            && Run([Tables(map[], map[], map[]), Tables(map[a := first], map[], map[]), t],
                   [CreateRepo(a, first), CreateRepo(b, second)])
            && SetMembersError(t, a, [b]).None? && SetMembersError(t, b, [a]).None?
            && !OneLevel(t.(members := map[a := [b], b := [a]]))
  {
    var t := Tables(map[a := first, b := second], map[], map[]);
    EmptyIsOneLevel();
    assert t.repos == map[a := first][b := second];
    NothingComposed(t);
    assert [b][..0] == [] && [a][..0] == [];
    assert map[a := [b]][b := [a]] == map[a := [b], b := [a]];
    hide OneLevel;
    OverlappingTransactionsKeepIff(t, a, [b], b, [a]);
  }

  lemma NothingComposed(t: Tables)
    requires t.members == map[] && t.packages == map[]
    ensures OneLevel(t) && NamesUnique(t)
  {
  }

  lemma ChecksAfterOther(t: Tables, a: nat, x: seq<nat>, b: nat, y: seq<nat>)
    requires a != b && y != [] && SetMembersError(t, b, y).None?
    ensures SetMembersError(t.(members := t.members[a := x]), b, y).None? <==> (x != [] ==> a !in y) && b !in x
  {
    var t1 := t.(members := t.members[a := x]);
    OwnsSame(t, a, x, b);
    MemberAfter(t, a, x, b);
    assert MembersOf(t1, a) == x;
    assert b in x ==> MemberOfAny(t1, b);
    assert forall m :: m in y ==> SameOrg(t1, b, m) && MembersOf(t, m) == [] && (m != a ==> MembersOf(t1, m) == []);
    hide Distinct, OwnsAny, MemberOfAny;
  }

  // ----- serving -----

  /** Package `p` reaches `r` through a member and no earlier member owns its name. */
  ghost predicate MemberServes(t: Tables, r: nat, p: nat) {
    p in t.packages
    && exists i :: 0 <= i < |MembersOf(t, r)| && MembersOf(t, r)[i] == t.packages[p].repo
         && forall j :: 0 <= j < i ==> !OwnsName(t, MembersOf(t, r)[j], t.packages[p].name)
  }

  ghost predicate OwnsName(t: Tables, r: nat, name: string) { exists p :: Exists(t, r, name, p) }

  /** What `r` serves when nothing is granted to it. */
  ghost predicate Serves(t: Tables, r: nat, p: nat) {
    && p in t.packages && (Owns(t, r, p) || MemberServes(t, r, p))
    && r in t.repos && (t.repos[r].allowsPrivate || t.packages[p].visibility.Public?)
  }

  /** The members before position `i` do not own the name, the one at `i` does. */
  ghost predicate FirstOwner(t: Tables, r: nat, name: string, i: nat) {
    && i < |MembersOf(t, r)| && OwnsName(t, MembersOf(t, r)[i], name)
    && forall j :: 0 <= j < i ==> !OwnsName(t, MembersOf(t, r)[j], name)
  }

  /** Versions of one name never mix two sources: a repository serves at most one package under a
      name, namely its own, or, with members, the one of the earliest member that owns the name. */
  lemma ServedFromOnePlace(t: Tables, r: nat, p: nat, q: nat)
    requires OneLevel(t) && NamesUnique(t) && Serves(t, r, p) && Serves(t, r, q)
             && t.packages[p].name == t.packages[q].name
    ensures p == q
    ensures MembersOf(t, r) == [] ==> Owns(t, r, p)
    ensures MembersOf(t, r) != [] ==>
            exists i: nat :: FirstOwner(t, r, t.packages[p].name, i) && Owns(t, MembersOf(t, r)[i], p)
  {
    if MembersOf(t, r) == [] {
      assert SameName(t.packages[p], t.packages[q]);
    } else {
      assert Composed(t, r);
      var i := ServedByFirst(t, r, p);
      var j := ServedByFirst(t, r, q);
      assert i == j;
      assert SameName(t.packages[p], t.packages[q]);
    }
  }

  lemma ServedByFirst(t: Tables, r: nat, p: nat) returns (i: nat)
    requires Serves(t, r, p) && !OwnsAny(t, r)
    ensures FirstOwner(t, r, t.packages[p].name, i) && Owns(t, MembersOf(t, r)[i], p)
  {
    assert !Owns(t, r, p);
    i :| 0 <= i < |MembersOf(t, r)| && MembersOf(t, r)[i] == t.packages[p].repo
         && forall j :: 0 <= j < i ==> !OwnsName(t, MembersOf(t, r)[j], t.packages[p].name);
    assert Exists(t, MembersOf(t, r)[i], t.packages[p].name, p);
  }

  /** Conversely the earliest owner's package is served, unless it is private in a public-only
      repository; a later member's package never takes its place. */
  lemma FirstOwnerIsServed(t: Tables, r: nat, i: nat, p: nat)
    requires OneLevel(t) && r in t.repos && p in t.packages && FirstOwner(t, r, t.packages[p].name, i)
             && Owns(t, MembersOf(t, r)[i], p)
    ensures Serves(t, r, p) <==> t.repos[r].allowsPrivate || t.packages[p].visibility.Public?
  {
  }

  // ----- the catalog's operations -----

  class RepoTables {
    var t: Tables

    constructor ()
      ensures t == Tables(map[], map[], map[])
    {
      t := Tables(map[], map[], map[]);
    }

    /** `set_repo_members`. */
    method SetMembers(r: nat, ms: seq<nat>) returns (error: Option<MembersError>)
      modifies this
      ensures error == SetMembersError(old(t), r, ms) && t == AfterSetMembers(old(t), r, ms)
    {
      if |ms| > 0 {
        var seen: set<nat> := {};
        for i := 0 to |ms|
          invariant forall x :: x in seen <==> x in ms[..i]
          invariant Distinct(ms[..i]) && r !in ms[..i]
        {
          assert ms[..i + 1] == ms[..i] + [ms[i]];
          if ms[i] == r { return Some(OwnMember); }
          if ms[i] in seen {
            var j :| 0 <= j < i && ms[j] == ms[i];
            return Some(ListedTwice);
          }
          seen := seen + {ms[i]};
        }
        assert ms[..|ms|] == ms;
        hide Distinct;
        if exists m :: m in ms && !SameOrg(t, r, m) { return Some(OtherOrg); }
        if (exists m :: m in ms && MembersOf(t, m) != []) || (exists q :: q in t.members && r in t.members[q]) {
          return Some(Nested);
        }
        if exists p :: p in t.packages && t.packages[p].repo == r {
          ghost var p :| p in t.packages && t.packages[p].repo == r;
          assert Owns(t, r, p);
          return Some(OwnsPackages);
        }
        if r !in t.repos { return Some(NoSuchRepo); }
      }
      t := t.(members := t.members[r := []]);
      t := t.(members := t.members[r := ms]);
      error := None;
    }

    /** `upsert_package`; `id` is the new row's random id. Its four statements run on the pool:
        before the second, third and fourth, others leave the tables as `others` says. */
    method UpsertPackage(r: nat, name: string, v: Visibility, id: nat, others: seq<Tables>)
          returns (error: Option<PackageError>)
      requires |others| == 3 && id !in others[2].packages && NamesUnique(t) && NamesUnique(others[2])
      modifies this
      ensures error == UpsertError(old(t), others[0], others[1], others[2], r, name, v)
      ensures error.None? ==> Inserts(others[2], t, r, name, v)
      ensures error.Some? ==> t == others[StoppedAt(old(t), others[0], others[1], r, name, v)]
    {
      var declared := RowOf(r, name);
      var effective := if declared.Some? && t.packages[declared.value].declared
        then t.packages[declared.value].visibility else v;
      assert effective.Private? <==> EffectivelyPrivate(t, r, name, v);
      hide EffectivelyPrivate, NamesUnique, Exists;
      t := others[0];
      if effective.Private? {
        if r !in t.repos { return Some(NoRepo); }
        if !t.repos[r].allowsPrivate { return Some(NotAllowed); }
      }
      t := others[1];
      if MembersOf(t, r) != [] { return Some(HasMembers); }
      t := others[2];
      if r !in t.repos { return Some(NoRepo); }
      error := None;
      Insert(r, name, v, id);
    }

    method RowOf(r: nat, name: string) returns (p: Option<nat>)
      requires NamesUnique(t)
      ensures p.Some? ==> Exists(t, r, name, p.value) && forall q :: Exists(t, r, name, q) ==> q == p.value
      ensures p.None? ==> forall q :: !Exists(t, r, name, q)
    {
      if exists q :: q in t.packages && t.packages[q].repo == r && t.packages[q].name == name {
        var q :| q in t.packages && t.packages[q].repo == r && t.packages[q].name == name;
        assert forall x :: Exists(t, r, name, x) ==> SameName(t.packages[q], t.packages[x]);
        return Some(q);
      }
      assert forall q :: !Exists(t, r, name, q);
      p := None;
    }

    /** The insert with its conflict clause. */
    method Insert(r: nat, name: string, v: Visibility, id: nat)
      requires id !in t.packages && NamesUnique(t)
      modifies this
      ensures Inserts(old(t), t, r, name, v)
    {
      var row := RowOf(r, name);
      match row {
        case Some(p) => t := Refreshed(t, p, v);
        case None => t := t.(packages := t.packages[id := Package(r, name, v, false)]);
      }
    }
  }
}
