/** Organization and repository slugs with their history: a renamed slug keeps leading to what
    it named, and a retired one is never given to anything else. Creation consults the history
    in its callers; a guarded operation is taken as one step, and what the guard is worth when
    it is not is stated at the end. */
module SlugHistory {
  import opened Options
  import Text

  datatype Repo = Repo(org: nat, slug: string)

  /** Live rows by id, retired slugs with the entity they lead to, and the repositories ever
      deleted (ids are random and never come back). */
  datatype Slugs = Slugs(orgs: map<nat, string>, repos: map<nat, Repo>, orgHistory: map<string, nat>,
                         repoHistory: map<Repo, nat>, deleted: set<nat>)

  datatype RenameError = Invalid | Taken | Retired

  datatype Location = Location(repo: nat, orgSlug: string, repoSlug: string, moved: bool)

  // ----- queries -----

  ghost predicate OrgLive(s: Slugs, slug: string) { exists id :: id in s.orgs && s.orgs[id] == slug }

  ghost predicate RepoLive(s: Slugs, r: Repo) { exists id :: id in s.repos && s.repos[id] == r }

  /** What an org slug leads to, live or retired. */
  ghost predicate OrgBound(s: Slugs, slug: string, id: nat) {
    (id in s.orgs && s.orgs[id] == slug) || (slug in s.orgHistory && s.orgHistory[slug] == id)
  }

  /** The same for a repository slug within an organization. */
  ghost predicate RepoBound(s: Slugs, r: Repo, id: nat) {
    (id in s.repos && s.repos[id] == r) || (r in s.repoHistory && s.repoHistory[r] == id)
  }

  // ----- the invariant -----

  ghost predicate OrgsValid(orgs: map<nat, string>, history: map<string, nat>) {
    && (forall a, b :: a in orgs && b in orgs && orgs[a] == orgs[b] ==> a == b)
    && (forall id :: id in orgs ==> orgs[id] !in history)
    && forall o :: o in history ==> history[o] in orgs
  }

  ghost predicate ReposValid(repos: map<nat, Repo>, history: map<Repo, nat>, deleted: set<nat>) {
    && (forall a, b :: a in repos && b in repos && repos[a] == repos[b] ==> a == b)
    && (forall id :: id in repos ==> repos[id] !in history && id !in deleted)
    && forall r :: r in history ==>
         history[r] in deleted || (history[r] in repos && repos[history[r]].org == r.org)
  }

  /** Live slugs are distinct, no slug is both live and retired, and references are sound. */
  ghost predicate Valid(s: Slugs) {
    && OrgsValid(s.orgs, s.orgHistory) && ReposValid(s.repos, s.repoHistory, s.deleted)
    && forall r :: r in s.repos ==> s.repos[r].org in s.orgs
  }

  /** The part of it that URLs depend on. */
  ghost predicate Disjoint(s: Slugs) {
    && (forall id :: id in s.orgs ==> s.orgs[id] !in s.orgHistory)
    && forall id :: id in s.repos ==> s.repos[id] !in s.repoHistory
  }

  lemma BoundToOne(s: Slugs, slug: string, a: nat, b: nat)
    requires Valid(s) && OrgBound(s, slug, a) && OrgBound(s, slug, b)
    ensures a == b && a in s.orgs
  {
  }

  lemma RepoBoundToOne(s: Slugs, r: Repo, a: nat, b: nat)
    requires Valid(s) && RepoBound(s, r, a) && RepoBound(s, r, b)
    ensures a == b && (a in s.repos ==> s.repos[a].org == r.org) && (a in s.repos || a in s.deleted)
  {
  }

  // ----- operations -----

  function RenamedOrg(s: Slugs, id: nat, slug: string): Slugs
    requires id in s.orgs
  {
    s.(orgs := s.orgs[id := slug], orgHistory := s.orgHistory[s.orgs[id] := id])
  }

  function RenamedRepo(s: Slugs, id: nat, slug: string): Slugs
    requires id in s.repos
  {
    s.(repos := s.repos[id := s.repos[id].(slug := slug)], repoHistory := s.repoHistory[s.repos[id] := id])
  }

  function DeletedRepo(s: Slugs, id: nat): Slugs
    requires id in s.repos
  {
    s.(repos := s.repos - {id}, repoHistory := s.repoHistory[s.repos[id] := id], deleted := s.deleted + {id})
  }

  function OrgAdded(s: Slugs, slug: string, id: nat): Slugs { s.(orgs := s.orgs[id := slug]) }

  function RepoAdded(s: Slugs, r: Repo, id: nat): Slugs { s.(repos := s.repos[id := r]) }

  /** `create_org` as it stands, without a look at the history. */
  ghost predicate CreatesOrg(s: Slugs, t: Slugs, slug: string) {
    if OrgLive(s, slug) then t == s
    else exists id :: id !in s.orgs && t == OrgAdded(s, slug, id)
  }

  /** `create_repo` likewise. */
  ghost predicate CreatesRepo(s: Slugs, t: Slugs, orgSlug: string, slug: string) {
    exists org :: org in s.orgs && s.orgs[org] == orgSlug
      && (if RepoLive(s, Repo(org, slug)) then t == s
          else exists id :: id !in s.repos && id !in s.deleted && t == RepoAdded(s, Repo(org, slug), id))
  }

  datatype Op =
    | CreateOrg(slug: string)
    | CreateRepo(orgSlug: string, slug: string)
    | RenameOrg(org: nat, slug: string)
    | RenameRepo(repo: nat, slug: string)
    | DeleteRepo(repo: nat)

  /** One guarded operation, successful or not. */
  ghost predicate Step(s: Slugs, t: Slugs, op: Op) {
    match op
    case CreateOrg(slug) => if slug in s.orgHistory then t == s else CreatesOrg(s, t, slug)
    case CreateRepo(orgSlug, slug) =>
      if (exists org :: org in s.orgs && s.orgs[org] == orgSlug && Repo(org, slug) in s.repoHistory)
         || !OrgLive(s, orgSlug) then t == s
      else CreatesRepo(s, t, orgSlug, slug)
    case RenameOrg(org, slug) => t == AfterRenameOrg(s, org, slug)
    case RenameRepo(repo, slug) => t == AfterRenameRepo(s, repo, slug)
    case DeleteRepo(repo) => t == AfterDelete(s, repo)
  }

  ghost function RenameOrgError(s: Slugs, org: nat, slug: string): Option<RenameError> {
    var newSlug := Text.Trim(slug);
    if newSlug == "" || org !in s.orgs then Some(Invalid)
    else if s.orgs[org] == newSlug then None
    else if OrgLive(s, newSlug) then Some(Taken)
    else if newSlug in s.orgHistory then Some(Retired)
    else None
  }

  ghost function AfterRenameOrg(s: Slugs, org: nat, slug: string): Slugs {
    if RenameOrgError(s, org, slug).Some? || s.orgs[org] == Text.Trim(slug) then s
      else RenamedOrg(s, org, Text.Trim(slug))
  }

  ghost function RenameRepoError(s: Slugs, repo: nat, slug: string): Option<RenameError> {
    var newSlug := Text.Trim(slug);
    if newSlug == "" || repo !in s.repos then Some(Invalid)
    else if s.repos[repo].slug == newSlug then None
    else if RepoLive(s, Repo(s.repos[repo].org, newSlug)) then Some(Taken)
    else if Repo(s.repos[repo].org, newSlug) in s.repoHistory then Some(Retired)
    else None
  }

  ghost function AfterRenameRepo(s: Slugs, repo: nat, slug: string): Slugs {
    if RenameRepoError(s, repo, slug).Some? || s.repos[repo].slug == Text.Trim(slug) then s
    else RenamedRepo(s, repo, Text.Trim(slug))
  }

  function AfterDelete(s: Slugs, repo: nat): Slugs { if repo in s.repos then DeletedRepo(s, repo) else s }

  // ----- every step keeps the invariant and every binding -----

  /** Nothing that a slug led to is forgotten or changed, and nothing deleted comes back. */
  ghost predicate BindingsKept(s: Slugs, t: Slugs) {
    && (forall slug, id :: OrgBound(s, slug, id) ==> OrgBound(t, slug, id))
    && (forall r, id :: RepoBound(s, r, id) ==> RepoBound(t, r, id))
    && s.deleted <= t.deleted
  }

  lemma StepValid(s: Slugs, t: Slugs, op: Op)
    requires Valid(s) && Step(s, t, op)
    ensures Valid(t) && BindingsKept(s, t)
  {
    hide Text.Trim, Valid, BindingsKept;
    LiveIsNotRetired(s);
    assert t == s ==> BindingsKept(s, t) by { SameBindings(s); }
    match op
    case CreateOrg(slug) =>
      if t != s {
        var id :| id !in s.orgs && t == OrgAdded(s, slug, id);
        OrgAddedValid(s, slug, id);
        OrgAddedKeeps(s, slug, id);
      }
    case CreateRepo(orgSlug, slug) =>
      if t != s {
        var org :| org in s.orgs && s.orgs[org] == orgSlug && !RepoLive(s, Repo(org, slug))
                   && exists id :: id !in s.repos && id !in s.deleted && t == RepoAdded(s, Repo(org, slug), id);
        var id :| id !in s.repos && id !in s.deleted && t == RepoAdded(s, Repo(org, slug), id);
        RepoAddedValid(s, Repo(org, slug), id);
        RepoAddedKeeps(s, Repo(org, slug), id);
      }
    case RenameOrg(org, slug) =>
      if t != s {
        RenamedOrgValid(s, org, Text.Trim(slug));
        RenamedOrgKeeps(s, org, Text.Trim(slug));
      }
    case RenameRepo(repo, slug) =>
      if t != s {
        RenamedRepoValid(s, repo, Text.Trim(slug));
        RenamedRepoKeeps(s, repo, Text.Trim(slug));
      }
    case DeleteRepo(repo) =>
      if repo in s.repos {
        DeletedValid(s, repo);
        DeletedKeeps(s, repo);
      }
  }

  lemma SameBindings(s: Slugs)
    ensures BindingsKept(s, s)
  {
  }

  lemma OrgAddedValid(s: Slugs, slug: string, id: nat)
    requires Valid(s) && !OrgLive(s, slug) && slug !in s.orgHistory && id !in s.orgs
    ensures Valid(OrgAdded(s, slug, id))
  {
    assert forall o :: o in s.orgs ==> s.orgs[o] != slug;
    hide ReposValid, OrgLive;
  }

  lemma RepoAddedValid(s: Slugs, r: Repo, id: nat)
    requires Valid(s) && r.org in s.orgs && !RepoLive(s, r) && r !in s.repoHistory && id !in s.repos && id !in s.deleted
    ensures Valid(RepoAdded(s, r, id))
  {
    assert forall o :: o in s.repos ==> s.repos[o] != r;
    hide OrgsValid, RepoLive;
  }

  lemma RenamedOrgValid(s: Slugs, id: nat, slug: string)
    requires Valid(s) && id in s.orgs && !OrgLive(s, slug) && slug !in s.orgHistory
    ensures Valid(RenamedOrg(s, id, slug))
  {
    assert forall o :: o in s.orgs ==> s.orgs[o] != slug;
    hide ReposValid, OrgLive;
  }

  lemma RenamedRepoValid(s: Slugs, id: nat, slug: string)
    requires Valid(s) && id in s.repos && !RepoLive(s, s.repos[id].(slug := slug))
             && s.repos[id].(slug := slug) !in s.repoHistory
    ensures Valid(RenamedRepo(s, id, slug))
  {
    var renamed := s.repos[id].(slug := slug);
    assert forall o :: o in s.repos ==> s.repos[o] != renamed;
    hide OrgsValid, RepoLive;
    ReposRenamed(s.repos, s.repoHistory, s.deleted, id, renamed);
    hide ReposValid;
  }

  lemma ReposRenamed(repos: map<nat, Repo>, history: map<Repo, nat>, deleted: set<nat>, id: nat, renamed: Repo)
    requires ReposValid(repos, history, deleted) && id in repos && renamed.org == repos[id].org && renamed !in history
    requires forall o :: o in repos ==> repos[o] != renamed
    ensures ReposValid(repos[id := renamed], history[repos[id] := id], deleted)
  {
    var after := repos[id := renamed];
    forall a, b | a in after && b in after && after[a] == after[b] ensures a == b {
      assert a in repos && b in repos;
    }
  }

  lemma DeletedValid(s: Slugs, id: nat)
    requires Valid(s) && id in s.repos
    ensures Valid(DeletedRepo(s, id))
  {
    hide OrgsValid;
  }

  // A retired slug is never overwritten, and a live one goes into the history when it ends.

  lemma OrgAddedKeeps(s: Slugs, slug: string, id: nat)
    requires id !in s.orgs
    ensures BindingsKept(s, OrgAdded(s, slug, id))
  {
  }

  lemma RepoAddedKeeps(s: Slugs, r: Repo, id: nat)
    requires id !in s.repos
    ensures BindingsKept(s, RepoAdded(s, r, id))
  {
  }

  lemma RenamedOrgKeeps(s: Slugs, id: nat, slug: string)
    requires id in s.orgs && s.orgs[id] !in s.orgHistory
    ensures BindingsKept(s, RenamedOrg(s, id, slug))
  {
    forall o, e | OrgBound(s, o, e) ensures OrgBound(RenamedOrg(s, id, slug), o, e) {}
    hide OrgBound;
  }

  lemma RenamedRepoKeeps(s: Slugs, id: nat, slug: string)
    requires id in s.repos && s.repos[id] !in s.repoHistory
    ensures BindingsKept(s, RenamedRepo(s, id, slug))
  {
    forall r, e | RepoBound(s, r, e) ensures RepoBound(RenamedRepo(s, id, slug), r, e) {}
    hide RepoBound;
  }

  lemma DeletedKeeps(s: Slugs, id: nat)
    requires id in s.repos && s.repos[id] !in s.repoHistory
    ensures BindingsKept(s, DeletedRepo(s, id))
  {
    forall r, e | RepoBound(s, r, e) ensures RepoBound(DeletedRepo(s, id), r, e) {}
    hide RepoBound;
  }

  lemma LiveIsNotRetired(s: Slugs)
    requires Valid(s)
    ensures Disjoint(s)
  {
  }

  // ----- resolving -----

  ghost function OrgOf(s: Slugs, slug: string): Option<nat> {
    if OrgLive(s, slug) then
      var id :| id in s.orgs && s.orgs[id] == slug;
      Some(id)
    else if slug in s.orgHistory && s.orgHistory[slug] in s.orgs then Some(s.orgHistory[slug])
    else None
  }

  ghost function RepoOf(s: Slugs, r: Repo): Option<nat> {
    if RepoLive(s, r) then
      var id :| id in s.repos && s.repos[id] == r;
      Some(id)
    else if r in s.repoHistory && s.repoHistory[r] in s.repos then Some(s.repoHistory[r])
    else None
  }

  /** `resolve_repo_canonical`: each slug live first, else through the history. */
  ghost function Resolve(s: Slugs, org: string, repo: string): Option<Location> {
    match OrgOf(s, org)
    case None => None
    case Some(o) =>
      match RepoOf(s, Repo(o, repo))
      case None => None
      case Some(r) => Some(Location(r, s.orgs[o], s.repos[r].slug, s.orgs[o] != org || s.repos[r].slug != repo))
  }

  lemma OrgOfIs(s: Slugs, slug: string, id: nat)
    requires Valid(s) && OrgBound(s, slug, id)
    ensures OrgOf(s, slug) == Some(id)
  {
    BoundToOne(s, slug, id, id);
    if OrgOf(s, slug).Some? { BoundToOne(s, slug, id, OrgOf(s, slug).value); }
  }

  lemma RepoOfIs(s: Slugs, r: Repo, id: nat)
    requires Valid(s) && RepoBound(s, r, id)
    ensures RepoOf(s, r) == if id in s.repos then Some(id) else None
  {
    if RepoOf(s, r).Some? { RepoBoundToOne(s, r, id, RepoOf(s, r).value); }
  }

  /** The pair of slugs was given to a repository at some time. */
  ghost predicate PairBound(s: Slugs, org: string, repo: string, id: nat) {
    exists o :: OrgBound(s, org, o) && RepoBound(s, Repo(o, repo), id)
  }

  lemma PairResolves(s: Slugs, org: string, repo: string, id: nat)
    requires Valid(s) && PairBound(s, org, repo, id)
    ensures id in s.repos ==> Resolve(s, org, repo).Some? && Resolve(s, org, repo).value.repo == id
    ensures id !in s.repos ==> Resolve(s, org, repo).None? && id in s.deleted
  {
    var o :| OrgBound(s, org, o) && RepoBound(s, Repo(o, repo), id);
    OrgOfIs(s, org, o);
    RepoOfIs(s, Repo(o, repo), id);
    RepoBoundToOne(s, Repo(o, repo), id, id);
    hide OrgOf, RepoOf, Valid, OrgBound, RepoBound;
  }

  lemma ResolvedIsBound(s: Slugs, org: string, repo: string)
    requires Resolve(s, org, repo).Some?
    ensures PairBound(s, org, repo, Resolve(s, org, repo).value.repo) && Resolve(s, org, repo).value.repo in s.repos
  {
    var o := OrgOf(s, org).value;
    assert OrgBound(s, org, o);
    var r := RepoOf(s, Repo(o, repo)).value;
    assert RepoBound(s, Repo(o, repo), r);
  }

  /** The pair a redirect answers with is canonical: it leads to the same repository, directly,
      and is the requested pair exactly when nothing moved. */
  lemma CanonicalPairIsDirect(s: Slugs, org: string, repo: string)
    requires Valid(s) && Resolve(s, org, repo).Some?
    ensures var l := Resolve(s, org, repo).value;
            && Resolve(s, l.orgSlug, l.repoSlug) == Some(l.(moved := false))
            && (l.moved <==> (l.orgSlug, l.repoSlug) != (org, repo))
  {
    var l := Resolve(s, org, repo).value;
    var o := OrgOf(s, org).value;
    assert OrgBound(s, org, o) && o in s.orgs;
    var r := RepoOf(s, Repo(o, repo)).value;
    assert RepoBound(s, Repo(o, repo), r) && r in s.repos;
    RepoBoundToOne(s, Repo(o, repo), r, r);
    assert OrgBound(s, l.orgSlug, o) && RepoBound(s, Repo(o, l.repoSlug), r);
    OrgOfIs(s, l.orgSlug, o);
    RepoOfIs(s, Repo(o, l.repoSlug), r);
    hide OrgOf, RepoOf, Valid, OrgBound, RepoBound;
  }

  // ----- runs -----

  ghost predicate Run(states: seq<Slugs>, ops: seq<Op>) {
    && |states| == |ops| + 1 && states[0] == Slugs(map[], map[], map[], map[], {})
    && forall i :: 0 <= i < |ops| ==> Step(states[i], states[i + 1], ops[i])
  }

  lemma {:induction false} RunValid(states: seq<Slugs>, ops: seq<Op>, i: nat, j: nat)
    requires Run(states, ops) && i <= j < |states|
    ensures Valid(states[j]) && Disjoint(states[j]) && BindingsKept(states[i], states[j])
    decreases j
  {
    hide Step, BindingsKept;
    SameBindings(states[j]);
    if j == 0 {
    } else {
      RunValid(states, ops, if i < j then i else j - 1, j - 1);
      hide Valid;
      assert Step(states[j - 1], states[j], ops[j - 1]);
      StepValid(states[j - 1], states[j], ops[j - 1]);
      if i < j { KeptTwice(states[i], states[j - 1], states[j]); }
    }
    LiveIsNotRetired(states[j]);
  }

  lemma KeptTwice(a: Slugs, b: Slugs, c: Slugs)
    requires BindingsKept(a, b) && BindingsKept(b, c)
    ensures BindingsKept(a, c)
  {
    hide OrgBound, RepoBound;
  }

  /** URLs never change meaning. Over every run of creates, renames and deletes, a slug pair
      that resolved to a repository resolves to it for as long as it exists, and from its
      deletion on to nothing. */
  lemma UrlsKeepTheirMeaning(states: seq<Slugs>, ops: seq<Op>, i: nat, j: nat, org: string, repo: string)
    requires Run(states, ops) && i <= j < |states| && Resolve(states[i], org, repo).Some?
    ensures var id := Resolve(states[i], org, repo).value.repo;
            && (id in states[j].repos
              ==> Resolve(states[j], org, repo).Some? && Resolve(states[j], org, repo).value.repo == id)
            && (id !in states[j].repos ==> Resolve(states[j], org, repo).None? && id in states[j].deleted)
  {
    RunValid(states, ops, i, j);
    hide Run, Resolve, Valid, BindingsKept;
    KeptUrl(states[i], states[j], org, repo);
  }

  lemma KeptUrl(s: Slugs, t: Slugs, org: string, repo: string)
    requires BindingsKept(s, t) && Valid(t) && Resolve(s, org, repo).Some?
    ensures var id := Resolve(s, org, repo).value.repo;
            && (id in t.repos ==> Resolve(t, org, repo).Some? && Resolve(t, org, repo).value.repo == id)
            && (id !in t.repos ==> Resolve(t, org, repo).None? && id in t.deleted)
  {
    hide Resolve, RepoBound, OrgBound, OrgsValid;
    ResolvedIsBound(s, org, repo);
    var id := Resolve(s, org, repo).value.repo;
    assert PairBound(t, org, repo, id);
    PairResolves(t, org, repo, id);
  }

  /** Once deleted, never back. */
  lemma DeletedForever(states: seq<Slugs>, ops: seq<Op>, i: nat, j: nat, id: nat)
    requires Run(states, ops) && i <= j < |states| && id in states[i].deleted
    ensures id !in states[j].repos
  {
    RunValid(states, ops, i, j);
    hide Run, OrgBound, RepoBound, OrgsValid;
  }

  // ----- the catalog's operations -----

  class SlugTables {
    var s: Slugs

    constructor ()
      ensures s == Slugs(map[], map[], map[], map[], {})
    {
      s := Slugs(map[], map[], map[], map[], {});
    }

    /** `create_org` behind its guard; `id` is the new row's random id. */
    method CreateOrg(slug: string, id: nat) returns (ok: bool)
      requires id !in s.orgs
      modifies this
      ensures Step(old(s), s, Op.CreateOrg(slug)) && ok == (slug !in old(s).orgHistory)
      ensures ok ==> OrgLive(s, slug)
    {
      if slug in s.orgHistory { return false; }
      if !exists o :: o in s.orgs && s.orgs[o] == slug {
        s := s.(orgs := s.orgs[id := slug]);
        assert s.orgs[id] == slug;
      }
      ok := true;
    }

    /** `create_repo` behind its guard. */
    method CreateRepo(orgSlug: string, slug: string, id: nat) returns (ok: bool)
      requires Valid(s) && id !in s.repos && id !in s.deleted
      modifies this
      ensures Step(old(s), s, Op.CreateRepo(orgSlug, slug))
      ensures !ok ==> s == old(s)
    {
      if !exists o :: o in s.orgs && s.orgs[o] == orgSlug { return false; }
      var org :| org in s.orgs && s.orgs[org] == orgSlug;
      var r := Repo(org, slug);
      if r in s.repoHistory { return false; }
      if !exists o :: o in s.repos && s.repos[o] == r {
        s := s.(repos := s.repos[id := r]);
        assert s == RepoAdded(old(s), r, id);
      }
      ok := true;
    }

    method RenameOrg(org: nat, slug: string) returns (error: Option<RenameError>)
      modifies this
      ensures s == AfterRenameOrg(old(s), org, slug) && error == RenameOrgError(old(s), org, slug)
    {
      hide Text.Trim;
      var newSlug := Text.Trim(slug);
      if newSlug == "" { return Some(Invalid); }
      if org !in s.orgs { return Some(Invalid); }
      var current := s.orgs[org];
      if current == newSlug { return None; }
      if exists o :: o in s.orgs && s.orgs[o] == newSlug { return Some(Taken); }
      if newSlug in s.orgHistory { return Some(Retired); }
      s := s.(orgHistory := s.orgHistory[current := org]);
      s := s.(orgs := s.orgs[org := newSlug]);
      error := None;
    }

    method RenameRepo(repo: nat, slug: string) returns (error: Option<RenameError>)
      modifies this
      ensures s == AfterRenameRepo(old(s), repo, slug) && error == RenameRepoError(old(s), repo, slug)
    {
      hide Text.Trim;
      var newSlug := Text.Trim(slug);
      if newSlug == "" { return Some(Invalid); }
      if repo !in s.repos { return Some(Invalid); }
      var current := s.repos[repo];
      if current.slug == newSlug { return None; }
      var target := Repo(current.org, newSlug);
      if exists o :: o in s.repos && s.repos[o] == target { return Some(Taken); }
      if target in s.repoHistory { return Some(Retired); }
      s := s.(repoHistory := s.repoHistory[current := repo]);
      s := s.(repos := s.repos[repo := target]);
      error := None;
    }

    method DeleteRepo(repo: nat) returns (found: bool)
      modifies this
      ensures s == AfterDelete(old(s), repo) && found == (repo in old(s).repos)
    {
      if repo !in s.repos { return false; }
      s := s.(repoHistory := s.repoHistory[s.repos[repo] := repo]);
      s := s.(repos := s.repos - {repo}, deleted := s.deleted + {repo});
      found := true;
    }

    /** `resolve_repo_canonical`, query by query. */
    method ResolveCanonical(org: string, repo: string) returns (l: Option<Location>)
      requires Valid(s)
      ensures l == Resolve(s, org, repo)
    {
      var orgId: nat;
      var moved := false;
      if exists o :: o in s.orgs && s.orgs[o] == org {
        orgId :| orgId in s.orgs && s.orgs[orgId] == org;
      } else {
        if org !in s.orgHistory || s.orgHistory[org] !in s.orgs { return None; }
        orgId, moved := s.orgHistory[org], true;
      }
      assert OrgBound(s, org, orgId);
      OrgOfIs(s, org, orgId);
      var r := Repo(orgId, repo);
      var repoId: nat;
      if exists o :: o in s.repos && s.repos[o] == r {
        repoId :| repoId in s.repos && s.repos[repoId] == r;
      } else {
        if r !in s.repoHistory || s.repoHistory[r] !in s.repos { return None; }
        repoId, moved := s.repoHistory[r], true;
      }
      assert RepoBound(s, r, repoId);
      RepoOfIs(s, r, repoId);
      RepoBoundToOne(s, r, repoId, repoId);
      l := Some(Location(repoId, s.orgs[orgId], s.repos[repoId].slug, moved));
    }
  }

  // ----- what the guards are worth -----

  /** `create_org` itself does not look: whatever was checked before, the invariant survives
      exactly when the slug is not retired at the insert. */
  lemma CreateOrgValidIff(s: Slugs, t: Slugs, slug: string)
    requires Valid(s) && CreatesOrg(s, t, slug)
    ensures Valid(t) <==> slug !in s.orgHistory
  {
    if OrgLive(s, slug) {
      var id :| id in s.orgs && s.orgs[id] == slug;
    } else {
      var id :| id !in s.orgs && t == OrgAdded(s, slug, id);
      if slug !in s.orgHistory { OrgAddedValid(s, slug, id); } else { assert t.orgs[id] in t.orgHistory; }
    }
  }

  lemma CreateRepoValidIff(s: Slugs, t: Slugs, org: nat, slug: string)
    requires Valid(s) && org in s.orgs && CreatesRepo(s, t, s.orgs[org], slug)
    ensures Valid(t) <==> Repo(org, slug) !in s.repoHistory
  {
    var r := Repo(org, slug);
    if RepoLive(s, r) {
      var id :| id in s.repos && s.repos[id] == r;
    } else {
      var id :| id !in s.repos && id !in s.deleted && t == RepoAdded(s, r, id);
      if r !in s.repoHistory { RepoAddedValid(s, r, id); } else { assert t.repos[id] in t.repoHistory; }
    }
  }

  /** The web form checks the trimmed slug and creates the raw one. */
  ghost predicate FormCreatesOrg(s: Slugs, t: Slugs, raw: string) {
    if Text.Trim(raw) in s.orgHistory then t == s else CreatesOrg(s, t, raw)
  }

  /** That is safe for every slug without white space at its ends, and otherwise exactly when
      the raw slug is not retired, which the form does not check. */
  lemma FormGuardValidIff(s: Slugs, t: Slugs, raw: string)
    requires Valid(s) && FormCreatesOrg(s, t, raw)
    ensures Valid(t) <==> Text.Trim(raw) in s.orgHistory || raw !in s.orgHistory
    ensures Text.Trimmed(raw) ==> Valid(t)
  {
    hide Text.Trim, Valid;
    Text.TrimKeepsIffTrimmed(raw);
    if Text.Trim(raw) !in s.orgHistory { CreateOrgValidIff(s, t, raw); }
  }

  /** A retired slug with, say, a leading space passes the form's check: it is registered again,
      and the links through it stop leading to their repositories. */
  lemma FormGuardMisses(s: Slugs, t: Slugs, raw: string, repo: string)
    requires Valid(s) && FormCreatesOrg(s, t, raw) && raw in s.orgHistory && Text.Trim(raw) !in s.orgHistory
    requires Resolve(s, raw, repo).Some?
    ensures Resolve(t, raw, repo).None? && !Text.Trimmed(raw)
  {
    Text.TrimKeepsIffTrimmed(raw);
    hide Text.Trim, ReposValid;
    assert !OrgLive(s, raw);
    var id :| id !in s.orgs && t == OrgAdded(s, raw, id);
    assert t.orgs[id] == raw;
    var o := OrgOf(t, raw).value;
    assert o == id;
    NoRepoOf(s, Repo(id, repo));
  }

  // The states of the runs that show it happening.

  function Nothing(): Slugs { Slugs(map[], map[], map[], map[], {}) }

  function OneOrg(org: string): Slugs { Slugs(map[1 := org], map[], map[], map[], {}) }

  function OneRepo(org: string, repo: string): Slugs {
    Slugs(map[1 := org], map[2 := Repo(1, repo)], map[], map[], {})
  }

  function OrgRetired(org: string, now: string, repo: string): Slugs {
    Slugs(map[1 := now], map[2 := Repo(1, repo)], map[org := 1], map[], {})
  }

  function RepoRetired(org: string, repo: string, now: string): Slugs {
    Slugs(map[1 := org], map[2 := Repo(1, now)], map[], map[Repo(1, repo) := 2], {})
  }

  lemma FirstOrg(slug: string)
    ensures FormCreatesOrg(Nothing(), OneOrg(slug), slug) && Step(Nothing(), OneOrg(slug), Op.CreateOrg(slug))
  {
    hide Text.Trim;
    assert OneOrg(slug) == OrgAdded(Nothing(), slug, 1);
    assert CreatesOrg(Nothing(), OneOrg(slug), slug);
  }

  lemma FirstRepo(org: string, slug: string)
    ensures FormCreatesRepo(OneOrg(org), OneRepo(org, slug), org, slug)
    ensures Step(OneOrg(org), OneRepo(org, slug), Op.CreateRepo(org, slug))
  {
    hide Text.Trim;
    assert OneOrg(org).orgs[1] == org;
    assert OneRepo(org, slug) == RepoAdded(OneOrg(org), Repo(1, slug), 2);
    assert CreatesRepo(OneOrg(org), OneRepo(org, slug), org, slug);
  }

  lemma OrgRetires(org: string, repo: string, to: string)
    requires Text.Trim(to) != "" && Text.Trim(to) != org
    ensures Step(OneRepo(org, repo), OrgRetired(org, Text.Trim(to), repo), Op.RenameOrg(1, to))
  {
    hide Text.Trim;
    var now := Text.Trim(to);
    assert !OrgLive(OneRepo(org, repo), now);
    assert OrgRetired(org, now, repo) == RenamedOrg(OneRepo(org, repo), 1, now);
  }

  lemma RepoRetires(org: string, repo: string, to: string)
    requires Text.Trim(to) != "" && Text.Trim(to) != repo
    ensures Step(OneRepo(org, repo), RepoRetired(org, repo, Text.Trim(to)), Op.RenameRepo(2, to))
  {
    hide Text.Trim;
    var now := Text.Trim(to);
    assert !RepoLive(OneRepo(org, repo), Repo(1, now));
    assert RepoRetired(org, repo, now) == RenamedRepo(OneRepo(org, repo), 2, now);
  }

  lemma RunOfThree(a: Slugs, b: Slugs, c: Slugs, ops: seq<Op>)
    requires |ops| == 3 && Step(Nothing(), a, ops[0]) && Step(a, b, ops[1]) && Step(b, c, ops[2])
    ensures Run([Nothing(), a, b, c], ops)
  {
    hide Step;
  }

  lemma LastValid(a: Slugs, b: Slugs, c: Slugs, ops: seq<Op>)
    requires Run([Nothing(), a, b, c], ops)
    ensures Valid(c)
  {
    hide Run, Valid;
    RunValid([Nothing(), a, b, c], ops, 3, 3);
  }

  lemma RetiredOrgResolves(org: string, now: string, repo: string)
    requires Valid(OrgRetired(org, now, repo))
    ensures Resolve(OrgRetired(org, now, repo), org, repo).Some?
    ensures org in OrgRetired(org, now, repo).orgHistory
  {
    var s := OrgRetired(org, now, repo);
    assert OrgBound(s, org, 1) && RepoBound(s, Repo(1, repo), 2);
    hide Valid, Resolve;
    assert PairBound(s, org, repo, 2);
    PairResolves(s, org, repo, 2);
  }

  lemma RetiredRepoResolves(org: string, repo: string, now: string)
    requires Valid(RepoRetired(org, repo, now))
    ensures var l := Resolve(RepoRetired(org, repo, now), org, repo); l.Some? && l.value.repo == 2
  {
    var s := RepoRetired(org, repo, now);
    assert OrgBound(s, org, 1) && RepoBound(s, Repo(1, repo), 2);
    hide Valid, Resolve;
    assert PairBound(s, org, repo, 2);
    PairResolves(s, org, repo, 2);
  }

  lemma RetiredOrgCreated(org: string, now: string, repo: string)
    requires Text.Trim(org) != org && now != org
    ensures var s := OrgRetired(org, now, repo); FormCreatesOrg(s, OrgAdded(s, org, 3), org)
  {
    hide Text.Trim;
    var s := OrgRetired(org, now, repo);
    assert !OrgLive(s, org);
    assert CreatesOrg(s, OrgAdded(s, org, 3), org);
  }

  lemma RetiredRepoCreated(org: string, repo: string, now: string)
    requires Text.Trim(repo) != repo && now != repo
    ensures var s := RepoRetired(org, repo, now); FormCreatesRepo(s, RepoAdded(s, Repo(1, repo), 3), org, repo)
  {
    hide Text.Trim;
    var s := RepoRetired(org, repo, now);
    assert s.orgs[1] == org && !RepoLive(s, Repo(1, repo));
    assert CreatesRepo(s, RepoAdded(s, Repo(1, repo), 3), org, repo);
  }

  lemma RetiredParts(org: string, repo: string, now: string)
    ensures OrgRetired(org, now, repo).orgHistory == map[org := 1]
    ensures var s := RepoRetired(org, repo, now);
            1 in s.orgs && s.orgs[1] == org && s.repoHistory == map[Repo(1, repo) := 2] && 2 in s.repos
  {
  }

  /** The state it takes is reachable through the form: for any slug with outer white space,
      create it, add a repository, rename the organization, and create the slug once more. */
  lemma FormGuardMissHappens(raw: string, repo: string, to: string)
    requires !Text.Trimmed(raw) && Text.Trim(to) != ""
    ensures var s := OrgRetired(raw, Text.Trim(to), repo); var t := OrgAdded(s, raw, 3);
            && Run([Nothing(), OneOrg(raw), OneRepo(raw, repo), s],
                   [Op.CreateOrg(raw), Op.CreateRepo(raw, repo), Op.RenameOrg(1, to)])
            && FormCreatesOrg(Nothing(), OneOrg(raw), raw) && FormCreatesOrg(s, t, raw)
            && Resolve(s, raw, repo).Some? && Resolve(t, raw, repo).None?
  {
    hide *;
    Text.TrimKeepsIffTrimmed(raw);
    Text.TrimIsTrimmed(to);
    var ops := [Op.CreateOrg(raw), Op.CreateRepo(raw, repo), Op.RenameOrg(1, to)];
    var s := OrgRetired(raw, Text.Trim(to), repo);
    FirstOrg(raw);
    FirstRepo(raw, repo);
    OrgRetires(raw, repo, to);
    RunOfThree(OneOrg(raw), OneRepo(raw, repo), s, ops);
    LastValid(OneOrg(raw), OneRepo(raw, repo), s, ops);
    RetiredOrgResolves(raw, Text.Trim(to), repo);
    RetiredOrgCreated(raw, Text.Trim(to), repo);
    RetiredParts(raw, repo, Text.Trim(to));
    FormGuardMisses(s, OrgAdded(s, raw, 3), raw, repo);
  }

  /** The form that creates repositories does the same within an organization. */
  ghost predicate FormCreatesRepo(s: Slugs, t: Slugs, orgSlug: string, raw: string) {
    if (exists org :: org in s.orgs && s.orgs[org] == orgSlug && Repo(org, Text.Trim(raw)) in s.repoHistory)
       || !OrgLive(s, orgSlug) then t == s
    else CreatesRepo(s, t, orgSlug, raw)
  }

  lemma FormRepoGuardValidIff(s: Slugs, t: Slugs, org: nat, raw: string)
    requires Valid(s) && org in s.orgs && FormCreatesRepo(s, t, s.orgs[org], raw)
    ensures Valid(t) <==> Repo(org, Text.Trim(raw)) in s.repoHistory || Repo(org, raw) !in s.repoHistory
    ensures Text.Trimmed(raw) ==> Valid(t)
  {
    Text.TrimKeepsIffTrimmed(raw);
    OrgsDistinct(s);
    hide Text.Trim, Valid;
    if Repo(org, Text.Trim(raw)) !in s.repoHistory { CreateRepoValidIff(s, t, org, raw); }
  }

  lemma OrgsDistinct(s: Slugs)
    requires Valid(s)
    ensures forall a, b :: a in s.orgs && b in s.orgs && s.orgs[a] == s.orgs[b] ==> a == b
  {
  }

  /** Here the links of the retired slug come to lead to the new, empty repository. */
  lemma FormRepoGuardMisses(s: Slugs, t: Slugs, org: nat, raw: string)
    requires Valid(s) && org in s.orgs && FormCreatesRepo(s, t, s.orgs[org], raw)
    requires Repo(org, raw) in s.repoHistory && Repo(org, Text.Trim(raw)) !in s.repoHistory
    requires Resolve(s, s.orgs[org], raw).Some?
    ensures Resolve(t, s.orgs[org], raw).Some? && Resolve(t, s.orgs[org], raw).value.repo !in s.repos
    ensures !Text.Trimmed(raw)
  {
    Text.TrimKeepsIffTrimmed(raw);
    OrgsDistinct(s);
    RepoRetiredNotLive(s, Repo(org, raw));
    hide Text.Trim, Valid, Resolve, Text.Trimmed;
    var id :| id !in s.repos && id !in s.deleted && t == RepoAdded(s, Repo(org, raw), id);
    NewRepoResolves(s, org, raw, id);
  }

  lemma NewRepoResolves(s: Slugs, org: nat, slug: string, id: nat)
    requires org in s.orgs && forall a, b :: a in s.orgs && b in s.orgs && s.orgs[a] == s.orgs[b] ==> a == b
    requires !RepoLive(s, Repo(org, slug))
    ensures var l := Resolve(RepoAdded(s, Repo(org, slug), id), s.orgs[org], slug); l.Some? && l.value.repo == id
  {
    var r := Repo(org, slug);
    var t := RepoAdded(s, r, id);
    assert t.repos[id] == r && t.orgs == s.orgs;
    assert OrgLive(t, s.orgs[org]) && OrgOf(t, s.orgs[org]).value == org;
    assert RepoOf(t, r).value == id;
  }

  lemma RepoRetiredNotLive(s: Slugs, r: Repo)
    requires Valid(s) && r in s.repoHistory
    ensures !RepoLive(s, r)
  {
  }

  /** Again for any slug with outer white space: create the repository, rename it, and create
      the slug once more. */
  lemma FormRepoGuardMissHappens(org: string, raw: string, to: string)
    requires !Text.Trimmed(raw) && Text.Trim(to) != ""
    ensures var s := RepoRetired(org, raw, Text.Trim(to)); var t := RepoAdded(s, Repo(1, raw), 3);
            && Run([Nothing(), OneOrg(org), OneRepo(org, raw), s],
                   [Op.CreateOrg(org), Op.CreateRepo(org, raw), Op.RenameRepo(2, to)])
            && FormCreatesRepo(OneOrg(org), OneRepo(org, raw), org, raw) && FormCreatesRepo(s, t, org, raw)
            && Resolve(s, org, raw).Some? && Resolve(s, org, raw).value.repo == 2
            && Resolve(t, org, raw).Some? && Resolve(t, org, raw).value.repo != 2
  {
    hide *;
    Text.TrimKeepsIffTrimmed(raw);
    Text.TrimIsTrimmed(to);
    var ops := [Op.CreateOrg(org), Op.CreateRepo(org, raw), Op.RenameRepo(2, to)];
    var s := RepoRetired(org, raw, Text.Trim(to));
    FirstOrg(org);
    FirstRepo(org, raw);
    RepoRetires(org, raw, to);
    RunOfThree(OneOrg(org), OneRepo(org, raw), s, ops);
    LastValid(OneOrg(org), OneRepo(org, raw), s, ops);
    RetiredRepoResolves(org, raw, Text.Trim(to));
    RetiredRepoCreated(org, raw, Text.Trim(to));
    RetiredParts(org, raw, Text.Trim(to));
    FormRepoGuardMisses(s, RepoAdded(s, Repo(1, raw), 3), 1, raw);
  }

  lemma NoRepoOf(s: Slugs, r: Repo)
    requires Valid(s) && r.org !in s.orgs
    ensures RepoOf(s, r).None?
  {
  }

  // ----- guards and transactions apart -----

  /** The transactions, whatever their guards saw: unique indexes on history and live slugs, and
      nothing else. `current` is the slug read before. */
  ghost function CommitRename(s: Slugs, org: nat, current: string, newSlug: string): Option<Slugs> {
    if current in s.orgHistory then None
    else if org !in s.orgs then Some(s.(orgHistory := s.orgHistory[current := org]))
    else if exists o :: o in s.orgs && o != org && s.orgs[o] == newSlug then None
    else Some(s.(orgHistory := s.orgHistory[current := org], orgs := s.orgs[org := newSlug]))
  }

  ghost function CommitRenameRepo(s: Slugs, repo: nat, current: Repo, newSlug: string): Option<Slugs> {
    if current in s.repoHistory then None
    else if repo !in s.repos then Some(s.(repoHistory := s.repoHistory[current := repo]))
    else if exists o :: o in s.repos && o != repo && s.repos[o] == s.repos[repo].(slug := newSlug) then None
    else Some(s.(repoHistory := s.repoHistory[current := repo],
                 repos := s.repos[repo := s.repos[repo].(slug := newSlug)]))
  }

  function CommitDelete(s: Slugs, repo: nat, current: Repo): Option<Slugs> {
    if current in s.repoHistory then None
    else Some(s.(repoHistory := s.repoHistory[current := repo], repos := s.repos - {repo},
                 deleted := s.deleted + {repo}))
  }

  /** A slug read too early makes the transaction fail, so what can go wrong is only that the
      new slug was retired in between. */
  lemma CommitRenameValidIff(s: Slugs, org: nat, current: string, newSlug: string)
    requires Valid(s) && OrgBound(s, current, org) && current != newSlug
    ensures current !in s.orgHistory ==> org in s.orgs && s.orgs[org] == current
    ensures CommitRename(s, org, current, newSlug).Some? ==>
              var t := CommitRename(s, org, current, newSlug).value;
              && (Valid(t) <==> newSlug !in s.orgHistory)
              && BindingsKept(s, t)
  {
    if CommitRename(s, org, current, newSlug).Some? {
      var t := CommitRename(s, org, current, newSlug).value;
      assert t == RenamedOrg(s, org, newSlug);
      RenamedOrgKeeps(s, org, newSlug);
      hide BindingsKept;
      if newSlug !in s.orgHistory {
        RenamedOrgValid(s, org, newSlug);
      } else {
        assert t.orgs[org] in t.orgHistory;
      }
    }
  }

  lemma CommitRenameRepoValidIff(s: Slugs, repo: nat, current: Repo, newSlug: string)
    requires Valid(s) && RepoBound(s, current, repo) && current.slug != newSlug
    ensures current !in s.repoHistory ==> repo in s.repos && s.repos[repo] == current
    ensures CommitRenameRepo(s, repo, current, newSlug).Some? ==>
              var t := CommitRenameRepo(s, repo, current, newSlug).value;
              && (Valid(t) <==> current.(slug := newSlug) !in s.repoHistory)
              && BindingsKept(s, t)
  {
    if CommitRenameRepo(s, repo, current, newSlug).Some? {
      var t := CommitRenameRepo(s, repo, current, newSlug).value;
      assert t == RenamedRepo(s, repo, newSlug);
      RenamedRepoKeeps(s, repo, newSlug);
      hide BindingsKept;
      if current.(slug := newSlug) !in s.repoHistory {
        RenamedRepoValid(s, repo, newSlug);
      } else {
        assert t.repos[repo] in t.repoHistory;
      }
    }
  }

  /** A delete that commits is the delete of the repository as it is now. */
  lemma CommitDeleteKeeps(s: Slugs, repo: nat, current: Repo)
    requires Valid(s) && RepoBound(s, current, repo)
    ensures CommitDelete(s, repo, current).Some? ==>
              var t := CommitDelete(s, repo, current).value;
              t == AfterDelete(s, repo) && Valid(t) && BindingsKept(s, t)
  {
    if CommitDelete(s, repo, current).Some? {
      assert s.repos[repo] == current;
      DeletedValid(s, repo);
      DeletedKeeps(s, repo);
      hide BindingsKept, Valid;
    }
  }

  // ----- runs of such transactions -----

  datatype Commit =
    | InsertOrg(slug: string)
    | InsertRepo(orgSlug: string, slug: string)
    | MoveOrg(org: nat, from: string, to: string)
    | MoveRepo(repo: nat, place: Repo, to: string)
    | DropRepo(repo: nat, place: Repo)

  /** A transaction, or its failure. */
  ghost predicate Commits(s: Slugs, t: Slugs, c: Commit) {
    match c
    case InsertOrg(slug) => CreatesOrg(s, t, slug)
    case InsertRepo(orgSlug, slug) => if OrgLive(s, orgSlug) then CreatesRepo(s, t, orgSlug, slug) else t == s
    case MoveOrg(org, current, to) => t == (match CommitRename(s, org, current, to) case Some(x) => x case None => s)
    case MoveRepo(repo, current, to) =>
      t == (match CommitRenameRepo(s, repo, current, to) case Some(x) => x case None => s)
    case DropRepo(repo, current) => t == (match CommitDelete(s, repo, current) case Some(x) => x case None => s)
  }

  /** What a guard reads of the entity that is to be renamed or deleted. */
  ghost predicate Reads(s: Slugs, c: Commit) {
    match c
    case InsertOrg(_) => true
    case InsertRepo(_, _) => true
    case MoveOrg(org, current, to) => org in s.orgs && s.orgs[org] == current && current != to
    case MoveRepo(repo, current, to) => repo in s.repos && s.repos[repo] == current && current.slug != to
    case DropRepo(repo, current) => repo in s.repos && s.repos[repo] == current
  }

  /** The transaction makes a slug live that is retired by then. */
  ghost predicate TakesRetired(s: Slugs, c: Commit) {
    match c
    case InsertOrg(slug) => slug in s.orgHistory
    case InsertRepo(orgSlug, slug) =>
      exists org :: org in s.orgs && s.orgs[org] == orgSlug && Repo(org, slug) in s.repoHistory
    case MoveOrg(org, current, to) => CommitRename(s, org, current, to).Some? && to in s.orgHistory
    case MoveRepo(repo, current, to) =>
      CommitRenameRepo(s, repo, current, to).Some? && current.(slug := to) in s.repoHistory
    case DropRepo(_, _) => false
  }

  ghost predicate StillBound(s: Slugs, c: Commit) {
    match c
    case InsertOrg(_) => true
    case InsertRepo(_, _) => true
    case MoveOrg(org, current, to) => OrgBound(s, current, org) && current != to
    case MoveRepo(repo, current, to) => RepoBound(s, current, repo) && current.slug != to
    case DropRepo(repo, current) => RepoBound(s, current, repo)
  }

  lemma ReadStaysBound(s: Slugs, t: Slugs, c: Commit)
    requires Reads(s, c) && BindingsKept(s, t)
    ensures StillBound(t, c)
  {
    match c
    case InsertOrg(_) =>
    case InsertRepo(_, _) =>
    case MoveOrg(org, current, to) => assert OrgBound(s, current, org);
    case MoveRepo(repo, current, to) => assert RepoBound(s, current, repo);
    case DropRepo(repo, current) => assert RepoBound(s, current, repo);
  }

  lemma InsertOrgKeeps(s: Slugs, t: Slugs, slug: string)
    requires CreatesOrg(s, t, slug)
    ensures BindingsKept(s, t)
  {
    hide BindingsKept;
    SameBindings(s);
    if t != s {
      var id :| id !in s.orgs && t == OrgAdded(s, slug, id);
      OrgAddedKeeps(s, slug, id);
    }
  }

  lemma InsertRepoValidIff(s: Slugs, t: Slugs, orgSlug: string, slug: string)
    requires Valid(s) && Commits(s, t, InsertRepo(orgSlug, slug))
    ensures Valid(t) <==> !TakesRetired(s, InsertRepo(orgSlug, slug))
    ensures BindingsKept(s, t)
  {
    OrgsDistinct(s);
    hide Valid, BindingsKept;
    SameBindings(s);
    if OrgLive(s, orgSlug) {
      var org :| org in s.orgs && s.orgs[org] == orgSlug;
      CreateRepoValidIff(s, t, org, slug);
      if t != s {
        var o :| o in s.orgs && s.orgs[o] == orgSlug && !RepoLive(s, Repo(o, slug))
                 && exists id :: id !in s.repos && id !in s.deleted && t == RepoAdded(s, Repo(o, slug), id);
        var id :| id !in s.repos && id !in s.deleted && t == RepoAdded(s, Repo(o, slug), id);
        RepoAddedKeeps(s, Repo(o, slug), id);
      }
    }
  }

  /** One transaction keeps the invariant exactly when it does not take a retired slug. */
  lemma CommitValidIff(s: Slugs, t: Slugs, c: Commit)
    requires Valid(s) && Commits(s, t, c) && StillBound(s, c)
    ensures Valid(t) <==> !TakesRetired(s, c)
    ensures BindingsKept(s, t)
  {
    hide Valid, BindingsKept, CreatesOrg, CreatesRepo, CommitRename, CommitRenameRepo, CommitDelete,
         OrgBound, RepoBound;
    SameBindings(s);
    match c
    case InsertOrg(slug) =>
      CreateOrgValidIff(s, t, slug);
      InsertOrgKeeps(s, t, slug);
    case InsertRepo(orgSlug, slug) => InsertRepoValidIff(s, t, orgSlug, slug);
    case MoveOrg(org, current, to) => CommitRenameValidIff(s, org, current, to);
    case MoveRepo(repo, current, to) => CommitRenameRepoValidIff(s, repo, current, to);
    case DropRepo(repo, current) => CommitDeleteKeeps(s, repo, current);
  }

  /** Any number of requests at once: each transaction goes by what it read at some earlier time,
      and every other check it made may be out of date. */
  ghost predicate InterleavedRun(states: seq<Slugs>, commits: seq<Commit>) {
    && |states| == |commits| + 1 && states[0] == Nothing()
    && forall i :: 0 <= i < |commits| ==>
         Commits(states[i], states[i + 1], commits[i]) && exists j :: 0 <= j <= i && Reads(states[j], commits[i])
  }

  /** No transaction among the first `n` takes a slug that is retired when it commits. */
  ghost predicate NoneTakesRetired(states: seq<Slugs>, commits: seq<Commit>, n: nat)
    requires n <= |commits| < |states|
  {
    forall i :: 0 <= i < n ==> !TakesRetired(states[i], commits[i])
  }

  lemma {:induction false} InterleavedValid(states: seq<Slugs>, commits: seq<Commit>, i: nat, n: nat)
    requires InterleavedRun(states, commits) && i <= n <= |commits| && NoneTakesRetired(states, commits, n)
    ensures Valid(states[n]) && BindingsKept(states[i], states[n])
    decreases n
  {
    hide Commits, Reads, TakesRetired, BindingsKept;
    SameBindings(states[n]);
    if n == 0 {
      assert Valid(Nothing());
    } else {
      hide Valid;
      InterleavedValid(states, commits, n - 1, n - 1);
      CommitAfterRead(states, commits, n - 1);
      if i < n {
        InterleavedValid(states, commits, i, n - 1);
        KeptTwice(states[i], states[n - 1], states[n]);
      }
    }
  }

  lemma CommitAfterRead(states: seq<Slugs>, commits: seq<Commit>, n: nat)
    requires InterleavedRun(states, commits) && n < |commits| && NoneTakesRetired(states, commits, n)
    requires Valid(states[n])
    ensures Valid(states[n + 1]) <==> !TakesRetired(states[n], commits[n])
    ensures BindingsKept(states[n], states[n + 1])
    decreases n, 0
  {
    hide Commits, Reads, TakesRetired, BindingsKept, Valid;
    var j :| 0 <= j <= n && Reads(states[j], commits[n]);
    SameBindings(states[n]);
    if j < n {
      InterleavedValid(states, commits, n - 1, n - 1);
      InterleavedValid(states, commits, j, n - 1);
      CommitAfterRead(states, commits, n - 1);
      KeptTwice(states[j], states[n - 1], states[n]);
    }
    ReadStaysBound(states[j], states[n], commits[n]);
    CommitValidIff(states[n], states[n + 1], commits[n]);
  }

  /** However checks and transactions of different requests interleave, the invariant holds at
      every moment if and only if no transaction takes a slug that was retired by then. */
  lemma InterleavedValidIff(states: seq<Slugs>, commits: seq<Commit>)
    requires InterleavedRun(states, commits)
    ensures (forall k :: 0 <= k < |states| ==> Valid(states[k])) <==> NoneTakesRetired(states, commits, |commits|)
  {
    hide Valid, TakesRetired, Commits, Reads;
    if NoneTakesRetired(states, commits, |commits|) {
      forall k | 0 <= k < |states| ensures Valid(states[k]) { InterleavedValid(states, commits, k, k); }
    }
    if forall k :: 0 <= k < |states| ==> Valid(states[k]) { ValidMeansNone(states, commits, |commits|); }
  }

  lemma {:induction false} ValidMeansNone(states: seq<Slugs>, commits: seq<Commit>, n: nat)
    requires InterleavedRun(states, commits) && n <= |commits| && forall k :: 0 <= k < |states| ==> Valid(states[k])
    ensures NoneTakesRetired(states, commits, n)
    decreases n
  {
    hide Valid, TakesRetired, Commits, Reads;
    if n == 0 {
    } else {
      ValidMeansNone(states, commits, n - 1);
      assert Valid(states[n - 1]) && Valid(states[n]);
      CommitAfterRead(states, commits, n - 1);
    }
  }

  /** And in such a run URLs keep their meaning, as they do when guards and transactions are one. */
  lemma InterleavedUrlsKeepTheirMeaning(states: seq<Slugs>, commits: seq<Commit>, i: nat, j: nat, org: string,
                                        repo: string)
    requires InterleavedRun(states, commits) && NoneTakesRetired(states, commits, |commits|)
    requires i <= j < |states| && Resolve(states[i], org, repo).Some?
    ensures var id := Resolve(states[i], org, repo).value.repo;
            && (id in states[j].repos
              ==> Resolve(states[j], org, repo).Some? && Resolve(states[j], org, repo).value.repo == id)
            && (id !in states[j].repos ==> Resolve(states[j], org, repo).None? && id in states[j].deleted)
  {
    assert NoneTakesRetired(states, commits, j);
    hide Commits, Reads, TakesRetired, BindingsKept, Valid, Resolve;
    InterleavedValid(states, commits, i, j);
    KeptUrl(states[i], states[j], org, repo);
  }
}
