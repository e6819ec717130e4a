/** The background job queue: enqueueing deduplicates against pending jobs through a partial
    unique index, workers claim with row locks (a claim is one transaction), and a failed job is
    rescheduled or given up. */
module JobQueue {
  import opened Options

  datatype Kind = MirrorUpstream | MirrorPackage | ResolveClosure

  datatype Key = Key(kind: Kind, upstream: Option<nat>, package: Option<string>, repo: Option<nat>)

  datatype Status = Pending | Running | Ready | Failed

  datatype Job = Job(key: Key, status: Status, attempts: nat, runAfter: int)

  /** The rows, and which running job each worker is busy with. */
  datatype Queue = Queue(jobs: map<nat, Job>, held: map<nat, nat>, now: int)

  /** The expressions of the unique index: an absent package and an empty one collide. */
  datatype Slot = Slot(kind: Kind, upstream: Option<nat>, package: string, repo: Option<nat>)

  function SlotOf(k: Key): Slot {
    Slot(k.kind, k.upstream, match k.package case Some(p) => p case None => "", k.repo)
  }

  predicate IsPending(q: Queue, id: nat,
          s: Slot) { id in q.jobs && q.jobs[id].status.Pending? && SlotOf(q.jobs[id].key) == s }

  ghost predicate Waits(q: Queue, s: Slot) { exists id :: IsPending(q, id, s) }

  /** The row is there, and another pending job occupies its slot. */
  ghost predicate TwinWaits(q: Queue, id: nat) {
    id in q.jobs && exists other :: other != id && IsPending(q, other, SlotOf(q.jobs[id].key))
  }

  predicate Eligible(q: Queue, id: nat) { id in q.jobs && q.jobs[id].status.Pending? && q.jobs[id].runAfter <= q.now }

  /** `order by run_after limit 1`. */
  ghost predicate Next(q: Queue, id: nat) {
    Eligible(q, id) && forall other :: Eligible(q, other) ==> q.jobs[id].runAfter <= q.jobs[other].runAfter
  }

  // ----- the statements -----

  function Enqueued(q: Queue, key: Key, id: nat): Queue { q.(jobs := q.jobs[id := Job(key, Pending, 0, q.now)]) }

  function Claimed(q: Queue, worker: nat, id: nat): Queue
    requires id in q.jobs
  {
    q.(jobs := q.jobs[id := q.jobs[id].(status := Running, attempts := q.jobs[id].attempts + 1)],
       held := q.held[worker := id])
  }

  function WithStatus(q: Queue, id: nat, status: Status): Queue {
    if id in q.jobs then q.(jobs := q.jobs[id := q.jobs[id].(status := status)]) else q
  }

  function Rescheduled(q: Queue, id: nat, backoff: int): Queue {
    if id in q.jobs then q.(jobs := q.jobs[id := q.jobs[id].(status := Pending, runAfter := q.now + backoff)]) else q
  }

  function Released(q: Queue, worker: nat): Queue { q.(held := q.held - {worker}) }

  predicate Cancels(j: Job, package: string, upstreams: set<nat>) {
    && j.status.Pending? && j.key.kind.MirrorPackage? && j.key.package == Some(package)
    && j.key.upstream.Some? && j.key.upstream.value in upstreams
  }

  function Archived(q: Queue, package: string, upstreams: set<nat>): Queue {
    q.(jobs := map id | id in q.jobs && !Cancels(q.jobs[id], package, upstreams) :: q.jobs[id])
  }

  /** The rows that go when upstreams and repositories are deleted. */
  predicate BelongsTo(j: Job, upstreams: set<nat>, repos: set<nat>) {
    (j.key.upstream.Some? && j.key.upstream.value in upstreams) || (j.key.repo.Some? && j.key.repo.value in repos)
  }

  function Cascaded(q: Queue, upstreams: set<nat>, repos: set<nat>): Queue {
    q.(jobs := map id | id in q.jobs && !BelongsTo(q.jobs[id], upstreams, repos) :: q.jobs[id])
  }

  // ----- what the statements do -----

  /** Two keys are the same job to the index when kind, upstream and repository agree, and the packages
      do or are both blank. */
  lemma SameSlotIff(a: Key, b: Key)
    ensures SlotOf(a) == SlotOf(b) <==>
            && a.kind == b.kind && a.upstream == b.upstream && a.repo == b.repo
            && (a.package == b.package || (a.package in {None, Some("")} && b.package in {None, Some("")}))
  {
  }

  /** A retried job keeps its key and its count of attempts, and becomes eligible when the backoff has
      passed and not before; no other job changes. */
  lemma BackoffHolds(q: Queue, id: nat, backoff: int, seconds: nat)
    requires id in q.jobs
    ensures var q' := Rescheduled(q, id, backoff);
            && (Eligible(q'.(now := q.now + seconds), id) <==> seconds >= backoff)
            && q'.jobs.Keys == q.jobs.Keys && q'.jobs[id].key == q.jobs[id].key
              && q'.jobs[id].attempts == q.jobs[id].attempts
            && (forall x :: x in q.jobs && x != id ==> q'.jobs[x] == q.jobs[x])
  {
  }

  /** A finished job has that status and is never eligible again, and no other job changes. */
  lemma FinishedIsFinal(q: Queue, id: nat, status: Status, now: int)
    requires id in q.jobs && (status.Ready? || status.Failed?)
    ensures var q' := WithStatus(q, id, status);
            && q'.jobs == q.jobs[id := Job(q.jobs[id].key, status, q.jobs[id].attempts, q.jobs[id].runAfter)]
            && !Eligible(q'.(now := now), id)
  {
  }

  /** Archiving a package takes its pending mirror jobs at the given upstreams, and nothing else. */
  lemma ArchivedExactly(q: Queue, package: string, upstreams: set<nat>, id: nat)
    ensures var q' := Archived(q, package, upstreams);
            && (id in q'.jobs ==> id in q.jobs && q'.jobs[id] == q.jobs[id])
            && (id in q.jobs && id !in q'.jobs <==>
                  && id in q.jobs && q.jobs[id].status == Pending && q.jobs[id].key.kind == MirrorPackage
                  && q.jobs[id].key.package == Some(package)
                  && exists u :: u in upstreams && q.jobs[id].key.upstream == Some(u))
  {
    if id in q.jobs && q.jobs[id].key.upstream.Some? { var u := q.jobs[id].key.upstream.value; }
  }

  /** Deleting upstreams and repositories takes the jobs that name one of them, whatever their status. */
  lemma CascadedExactly(q: Queue, upstreams: set<nat>, repos: set<nat>, id: nat)
    ensures var q' := Cascaded(q, upstreams, repos);
            && (id in q'.jobs ==> id in q.jobs && q'.jobs[id] == q.jobs[id])
            && (id in q.jobs && id !in q'.jobs <==>
                  && id in q.jobs
                  && ((exists u :: u in upstreams && q.jobs[id].key.upstream == Some(u))
                      || exists r :: r in repos && q.jobs[id].key.repo == Some(r)))
  {
  }

  // ----- the catalog's operations -----

  class JobTable {
    var q: Queue

    constructor ()
      ensures q == Queue(map[], map[], 0)
    {
      q := Queue(map[], map[], 0);
    }

    /** `enqueue_job`; `id` is the new row's random id. When it returns, the slot has a pending
        job: a new one, or the one that was waiting. */
    method Enqueue(key: Key, id: nat) returns (created: bool)
      requires id !in q.jobs
      modifies this
      ensures created == !Waits(old(q), SlotOf(key))
      ensures q == if created then Enqueued(old(q), key, id) else old(q)
      ensures Waits(q, SlotOf(key))
    {
      hide SlotOf;
      if exists other :: other in q.jobs && q.jobs[other].status.Pending? && SlotOf(q.jobs[other].key) == SlotOf(key) {
        ghost var other :| other in q.jobs && q.jobs[other].status.Pending? && SlotOf(q.jobs[other].key) == SlotOf(key);
        assert IsPending(q, other, SlotOf(key));
        return false;
      }
      q := q.(jobs := q.jobs[id := Job(key, Pending, 0, q.now)]);
      assert IsPending(q, id, SlotOf(key));
      created := true;
    }

    /** `claim_mirror_job`. */
    method Claim(worker: nat) returns (job: Option<nat>)
      modifies this
      ensures job.None? ==> q == old(q) && forall id :: !Eligible(old(q), id)
      ensures job.Some? ==> Next(old(q), job.value) && q == Claimed(old(q), worker, job.value)
    {
      var candidates := set id | id in q.jobs && Eligible(q, id);
      if candidates == {} {
        assert forall id :: Eligible(q, id) ==> id in candidates;
        return None;
      }
      var best :| best in candidates;
      var rest := candidates - {best};
      while rest != {}
        invariant best in candidates && rest <= candidates
        invariant forall id :: id in candidates - rest ==> q.jobs[best].runAfter <= q.jobs[id].runAfter
        decreases rest
      {
        var id :| id in rest;
        rest := rest - {id};
        if q.jobs[id].runAfter < q.jobs[best].runAfter { best := id; }
      }
      assert forall id :: Eligible(q, id) ==> id in candidates;
      q := q.(jobs := q.jobs[best := q.jobs[best].(status := Running, attempts := q.jobs[best].attempts + 1)],
              held := q.held[worker := best]);
      job := Some(best);
    }

    /** `retry_mirror_job`: refused by the unique index when a twin is waiting; a row that is
        gone is no error. */
    method Retry(id: nat, backoff: int) returns (ok: bool)
      modifies this
      ensures ok == !TwinWaits(old(q), id)
      ensures q == if ok then Rescheduled(old(q), id, backoff) else old(q)
    {
      hide SlotOf;
      if id !in q.jobs { return true; }
      var slot := SlotOf(q.jobs[id].key);
      if exists other ::
           other in q.jobs && other != id && q.jobs[other].status.Pending? && SlotOf(q.jobs[other].key) == slot {
        ghost var other :| other in q.jobs && other != id && q.jobs[other].status.Pending?
          && SlotOf(q.jobs[other].key) == slot;
        assert IsPending(q, other, slot);
        return false;
      }
      q := q.(jobs := q.jobs[id := q.jobs[id].(status := Pending, runAfter := q.now + backoff)]);
      ok := true;
    }

    /** `complete_mirror_job` and `fail_mirror_job`. */
    method Finish(id: nat, status: Status)
      requires status.Ready? || status.Failed?
      modifies this
      ensures q == WithStatus(old(q), id, status)
    {
      if id in q.jobs { q := q.(jobs := q.jobs[id := q.jobs[id].(status := status)]); }
    }

    /** The job side of `archive_package`. */
    method CancelPending(package: string, upstreams: set<nat>)
      modifies this
      ensures q == Archived(old(q), package, upstreams)
    {
      var doomed := set id | id in q.jobs && Cancels(q.jobs[id], package, upstreams);
      q := q.(jobs := q.jobs - doomed);
    }

    /** Deleting an upstream, or a repository with its upstreams, takes their jobs along,
        whatever their status. */
    method Cascade(upstreams: set<nat>, repos: set<nat>)
      modifies this
      ensures q == Cascaded(old(q), upstreams, repos)
    {
      var doomed := set id | id in q.jobs && BelongsTo(q.jobs[id], upstreams, repos);
      q := q.(jobs := q.jobs - doomed);
    }
  }

  // ----- everyone at once -----

  datatype Event =
    | Enqueue(key: Key, id: nat)
    | Claim(worker: nat, id: nat)
    | Complete(worker: nat)
    | GiveUp(worker: nat)
    | Retry(worker: nat, backoff: int)
    | Crash(worker: nat)
    | Archive(package: string, upstreams: set<nat>)
    | Drop(upstreams: set<nat>, repos: set<nat>)
    | Tick(seconds: nat)

  ghost predicate Enabled(q: Queue, used: set<nat>, e: Event) {
    match e
    case Enqueue(_, id) => id !in used
    case Claim(w, id) => w !in q.held && Next(q, id)
    case Complete(w) => w in q.held
    case GiveUp(w) => w in q.held
    case Retry(w, _) => w in q.held
    case Crash(w) => w in q.held
    case Archive(_, _) => true
    case Drop(_, _) => true
    case Tick(_) => true
  }

  ghost function Apply(q: Queue, used: set<nat>, e: Event): Queue
    requires Enabled(q, used, e)
  {
    match e
    case Enqueue(key, id) => if Waits(q, SlotOf(key)) then q else Enqueued(q, key, id)
    case Claim(w, id) => Claimed(q, w, id)
    case Complete(w) => Released(WithStatus(q, q.held[w], Ready), w)
    case GiveUp(w) => Released(WithStatus(q, q.held[w], Failed), w)
    // A refused retry ends the worker's loop with an error.
    case Retry(w, backoff) =>
      if TwinWaits(q, q.held[w]) then Released(q, w)
      else Released(Rescheduled(q, q.held[w], backoff), w)
    case Crash(w) => Released(q, w)
    case Archive(package, upstreams) => Archived(q, package, upstreams)
    case Drop(upstreams, repos) => Cascaded(q, upstreams, repos)
    case Tick(n) => q.(now := q.now + n)
  }

  function Used(es: seq<Event>): set<nat>
    decreases |es|
  {
    if es == [] then {}
    else Used(es[..|es| - 1]) + (if es[|es| - 1].Enqueue? then {es[|es| - 1].id} else {})
  }

  ghost predicate Happens(es: seq<Event>)
    decreases |es|, 0
  {
    es == [] || (Happens(es[..|es| - 1]) && Enabled(After(es[..|es| - 1]), Used(es[..|es| - 1]), es[|es| - 1]))
  }

  ghost function After(es: seq<Event>): Queue
    requires Happens(es)
    decreases |es|, 1
  {
    if es == [] then Queue(map[], map[], 0) else Apply(After(es[..|es| - 1]), Used(es[..|es| - 1]), es[|es| - 1])
  }

  // ----- invariants -----

  ghost predicate OnePerSlot(q: Queue) {
    forall a, b, s :: IsPending(q, a, s) && IsPending(q, b, s) ==> a == b
  }

  /** A held job is running, unless its row is gone, and is held once. */
  ghost predicate HeldOnce(q: Queue) {
    && (forall w :: w in q.held && q.held[w] in q.jobs ==> q.jobs[q.held[w]].status.Running?)
    && forall v, w :: v in q.held && w in q.held && q.held[v] == q.held[w] ==> v == w
  }

  lemma StepOnePerSlot(q: Queue, used: set<nat>, e: Event)
    requires OnePerSlot(q) && HeldOnce(q) && Enabled(q, used, e)
    ensures OnePerSlot(Apply(q, used, e))
  {
    hide SlotOf, Eligible, Cancels;
    var q' := Apply(q, used, e);
    forall a, b, s | IsPending(q', a, s) && IsPending(q', b, s) ensures a == b {
      var moved := if e.Enqueue? then e.id else if e.Retry? then q.held[e.worker] else 0;
      if a != moved || !(e.Enqueue? || e.Retry?) { assert IsPending(q, a, s); }
      if b != moved || !(e.Enqueue? || e.Retry?) { assert IsPending(q, b, s); }
    }
  }

  lemma StepHeldOnce(q: Queue, used: set<nat>, e: Event)
    requires HeldOnce(q) && Enabled(q, used, e)
    requires (forall id :: id in q.jobs ==> id in used) && forall w :: w in q.held ==> q.held[w] in used
    ensures HeldOnce(Apply(q, used, e))
  {
    hide SlotOf, IsPending;
  }

  /** How often a job was claimed. */
  function Claims(es: seq<Event>, id: nat): nat
    decreases |es|
  {
    if es == [] then 0
    else Claims(es[..|es| - 1], id) + (if es[|es| - 1].Claim? && es[|es| - 1].id == id then 1 else 0)
  }

  ghost predicate Accounted(q: Queue, es: seq<Event>) {
    && (forall id :: id in q.jobs ==> id in Used(es) && q.jobs[id].attempts == Claims(es, id))
    && (forall w :: w in q.held ==> q.held[w] in Used(es))
    && forall id :: id !in Used(es) ==> Claims(es, id) == 0
  }

  lemma AttemptsChange(q: Queue, used: set<nat>, e: Event, id: nat)
    requires HeldOnce(q) && Enabled(q, used, e) && id in Apply(q, used, e).jobs
    requires e.Enqueue? ==> e.id !in q.jobs
    ensures var attempts := Apply(q, used, e).jobs[id].attempts;
            if id in q.jobs then attempts == q.jobs[id].attempts + (if e.Claim? && e.id == id then 1 else 0)
            else e.Enqueue? && e.id == id && attempts == 0
  {
    hide SlotOf, IsPending, Cancels;
  }

  lemma StepAccounted(es: seq<Event>)
    requires es != [] && Happens(es) && HeldOnce(After(es[..|es| - 1]))
             && Accounted(After(es[..|es| - 1]), es[..|es| - 1])
    ensures Accounted(After(es), es)
  {
    hide Apply, HeldOnce;
    var init, e := es[..|es| - 1], es[|es| - 1];
    var q := After(init);
    if e.Claim? { ClaimedExists(q, Used(init), e); }
    forall id | id in After(es).jobs ensures id in Used(es) && After(es).jobs[id].attempts == Claims(es, id) {
      AttemptsChange(q, Used(init), e, id);
    }
    HeldChange(q, Used(init), e);
    hide Enabled;
    assert forall id :: id !in Used(es) ==> id !in Used(init);
  }

  lemma HeldChange(q: Queue, used: set<nat>, e: Event)
    requires Enabled(q, used, e)
    ensures forall w :: w in Apply(q, used, e).held ==> (w in q.held && Apply(q, used, e).held[w] == q.held[w])
                                                        || (e.Claim? && Apply(q, used, e).held[w] == e.id)
  {
    hide SlotOf, IsPending, Cancels, BelongsTo;
  }

  lemma ClaimedExists(q: Queue, used: set<nat>, e: Event)
    requires Enabled(q, used, e) && e.Claim?
    ensures e.id in q.jobs
  {
  }

  /** Over every interleaving of enqueuers and workers: at most one pending job per key, no two
      workers on one job, and `attempts` counts the claims. */
  lemma {:induction false} AlwaysSound(es: seq<Event>)
    requires Happens(es)
    ensures OnePerSlot(After(es)) && HeldOnce(After(es)) && Accounted(After(es), es)
    decreases |es|
  {
    hide Apply, Enabled;
    if es == [] {
    } else {
      var init := es[..|es| - 1];
      AlwaysSound(init);
      hide OnePerSlot, HeldOnce;
      StepAccounted(es);
      StepHeldOnce(After(init), Used(init), es[|es| - 1]);
      StepOnePerSlot(After(init), Used(init), es[|es| - 1]);
    }
  }

  // ----- no request is lost -----

  /** The event claims a job of the slot, an archived package cancels it, or it goes with its
      upstream or repository. */
  ghost predicate Takes(q: Queue, e: Event, s: Slot) {
    || (e.Claim? && IsPending(q, e.id, s))
    || (e.Drop? && exists id :: IsPending(q, id, s) && BelongsTo(q.jobs[id], e.upstreams, e.repos))
    || (e.Archive? && exists id :: IsPending(q, id, s) && Cancels(q.jobs[id], e.package, e.upstreams))
  }

  /** A waiting slot goes on waiting until its job is claimed or cancelled. */
  lemma StepKeepsWaiting(q: Queue, used: set<nat>, e: Event, s: Slot)
    requires HeldOnce(q) && Enabled(q, used, e) && Waits(q, s) && !Takes(q, e, s)
    requires forall id :: id in q.jobs ==> id in used
    ensures Waits(Apply(q, used, e), s)
  {
    hide SlotOf, Eligible;
    var id :| IsPending(q, id, s);
    var q' := Apply(q, used, e);
    assert IsPending(q', id, s);
  }

  lemma EnqueueWaits(q: Queue, used: set<nat>, key: Key, id: nat)
    requires Enabled(q, used, Event.Enqueue(key, id))
    ensures Waits(Apply(q, used, Event.Enqueue(key, id)), SlotOf(key))
  {
    hide SlotOf;
    if !Waits(q, SlotOf(key)) { assert IsPending(Enqueued(q, key, id), id, SlotOf(key)); }
  }

  lemma {:induction false} PrefixHappens(es: seq<Event>, k: nat)
    requires Happens(es) && k <= |es|
    ensures Happens(es[..k])
    decreases |es|
  {
    hide Enabled;
    if k == |es| {
      assert es[..k] == es;
    } else {
      PrefixHappens(es[..|es| - 1], k);
      assert es[..|es| - 1][..k] == es[..k];
    }
  }

  /** Whoever enqueues finds the request pending when the call is done, and from then on it is
      either still pending or was claimed by a worker or cancelled by archiving in between. */
  lemma {:induction false} RequestIsNotLost(es: seq<Event>, n: nat, m: nat)
    requires Happens(es) && n < m <= |es| && es[n].Enqueue?
    ensures forall k :: 0 <= k <= |es| ==> Happens(es[..k])
    ensures Waits(After(es[..m]), SlotOf(es[n].key))
            || exists k :: n < k < m && Takes(After(es[..k]), es[k], SlotOf(es[n].key))
    decreases m
  {
    forall k | 0 <= k <= |es| ensures Happens(es[..k]) { PrefixHappens(es, k); }
    hide Takes, Waits, SlotOf, Apply, Enabled;
    var slot := SlotOf(es[n].key);
    assert es[..m][..m - 1] == es[..m - 1] && es[..m][m - 1] == es[m - 1];
    var q, used := After(es[..m - 1]), Used(es[..m - 1]);
    assert After(es[..m]) == Apply(q, used, es[m - 1]);
    if m == n + 1 {
      EnqueueWaits(q, used, es[n].key, es[n].id);
    } else {
      RequestIsNotLost(es, n, m - 1);
      if Waits(q, slot) && !Takes(q, es[m - 1], slot) {
        AlwaysSound(es[..m - 1]);
        StepKeepsWaiting(q, used, es[m - 1], slot);
      }
    }
  }

  /** A retry is refused exactly when someone asked for the same while the job ran; the request
      is then not lost, since that one is pending, but the job stays `running` with no worker.
      A row that went with its upstream is no error. */
  lemma RefusedRetry(q: Queue, used: set<nat>, worker: nat, backoff: int)
    requires HeldOnce(q) && worker in q.held
    ensures var id := q.held[worker]; var q' := Apply(q, used, Event.Retry(worker, backoff));
            && worker !in q'.held
            && (id !in q.jobs ==> q'.jobs == q.jobs)
            && (id in q.jobs ==> id in q'.jobs && Waits(q', SlotOf(q.jobs[id].key)))
            && (id in q.jobs ==> (q'.jobs[id].status.Pending? <==> !TwinWaits(q, id)))
            && (TwinWaits(q, id) ==> q'.jobs == q.jobs)
  {
    hide SlotOf;
    var id := q.held[worker];
    var q' := Apply(q, used, Event.Retry(worker, backoff));
    if TwinWaits(q, id) {
      var other :| other != id && IsPending(q, other, SlotOf(q.jobs[id].key));
      assert IsPending(q', other, SlotOf(q.jobs[id].key));
    } else if id in q.jobs {
      assert IsPending(q', id, SlotOf(q.jobs[id].key));
    }
  }

  /** From the empty queue: a worker claims a job and the same key is requested again. Whatever
      backoff the worker then asks for, its retry is refused and the job is abandoned. */
  lemma RefusedRetryHappens(key: Key, a: nat, b: nat, worker: nat, backoff: int)
    requires a != b
    ensures var es := [Event.Enqueue(key, a), Event.Claim(worker, a), Event.Enqueue(key, b)];
            && Happens(es) && worker in After(es).held && After(es).held[worker] == a && TwinWaits(After(es), a)
            && Happens(es + [Event.Retry(worker, backoff)])
            && Unattended(After(es + [Event.Retry(worker, backoff)]), a)
            && After(es + [Event.Retry(worker, backoff)]).jobs[a].status == Running
  {
    hide SlotOf;
    var e0, e1, e2 := Event.Enqueue(key, a), Event.Claim(worker, a), Event.Enqueue(key, b);
    var e3 := Event.Retry(worker, backoff);
    Extend([], e0);
    Extend([e0], e1);
    Extend([e0, e1], e2);
    assert [e0, e1] + [e2] == [e0, e1, e2];
    var q := After([e0, e1, e2]);
    assert IsPending(q, b, SlotOf(key));
    Extend([e0, e1, e2], e3);
  }

  lemma Extend(es: seq<Event>, e: Event)
    requires Happens(es)
    ensures Used(es + [e]) == Used(es) + (if e.Enqueue? then {e.id} else {})
    ensures Happens(es + [e]) <==> Enabled(After(es), Used(es), e)
    ensures Happens(es + [e]) ==> After(es + [e]) == Apply(After(es), Used(es), e)
  {
    hide Apply, Enabled;
    assert (es + [e])[..|es|] == es;
  }

  // ----- jobs that no worker has -----

  /** Neither pending nor with a worker: finished, or marked as running and abandoned. */
  ghost predicate Unattended(q: Queue, id: nat) {
    id in q.jobs && !q.jobs[id].status.Pending? && forall w :: w in q.held ==> q.held[w] != id
  }

  /** How a worker's job ends: done, given up, put back for later unless a twin is waiting, or, when the
      worker crashes, not at all. The worker is free then, and nothing else changes. */
  lemma WorkerEnds(q: Queue, used: set<nat>, w: nat, backoff: int)
    requires HeldOnce(q) && w in q.held && q.held[w] in q.jobs
    ensures var id := q.held[w]; var job := q.jobs[id];
            var done, failed := Apply(q, used, Complete(w)), Apply(q, used, GiveUp(w));
            var retried, crashed := Apply(q, used, Event.Retry(w, backoff)), Apply(q, used, Crash(w));
            && done == q.(jobs := q.jobs[id := job.(status := Ready)], held := q.held - {w})
            && failed == q.(jobs := q.jobs[id := job.(status := Failed)], held := q.held - {w})
            && crashed == q.(held := q.held - {w})
            && (!TwinWaits(q, id) ==>
                  retried == q.(jobs := q.jobs[id := job.(status := Pending, runAfter := q.now + backoff)],
                                held := q.held - {w}))
            && Unattended(done, id) && Unattended(failed, id) && Unattended(crashed, id)
  {
    hide TwinWaits;
  }

  lemma TimePasses(q: Queue, used: set<nat>, seconds: nat)
    ensures Apply(q, used, Tick(seconds)) == q.(now := q.now + seconds)
  {
  }

  lemma StepKeepsUnattended(q: Queue, used: set<nat>, e: Event, id: nat)
    requires Enabled(q, used, e) && Unattended(q, id) && id in used
    requires !(e.Drop? && BelongsTo(q.jobs[id], e.upstreams, e.repos))
    ensures Unattended(Apply(q, used, e), id) && Apply(q, used, e).jobs[id] == q.jobs[id]
  {
    hide SlotOf;
  }

  /** Over any run such a job stays exactly as it is, finished or abandoned: no claim, retry or finish
      ever reaches it, and it only goes when its upstream or repository does. */
  lemma {:induction false} UnattendedStays(es: seq<Event>, n: nat, m: nat, id: nat)
    requires Happens(es) && n <= m <= |es| && Happens(es[..n]) && Unattended(After(es[..n]), id)
    ensures forall k :: 0 <= k <= |es| ==> Happens(es[..k])
    ensures (Unattended(After(es[..m]), id) && After(es[..m]).jobs[id] == After(es[..n]).jobs[id])
            || exists k :: n <= k < m && es[k].Drop? && Unattended(After(es[..k]), id)
                           && BelongsTo(After(es[..k]).jobs[id], es[k].upstreams, es[k].repos)
    decreases m
  {
    forall k | 0 <= k <= |es| ensures Happens(es[..k]) { PrefixHappens(es, k); }
    hide Apply, Enabled, BelongsTo;
    if n == m {
    } else {
      UnattendedStays(es, n, m - 1, id);
      assert es[..m][..m - 1] == es[..m - 1] && es[..m][m - 1] == es[m - 1];
      var q, used, e := After(es[..m - 1]), Used(es[..m - 1]), es[m - 1];
      assert After(es[..m]) == Apply(q, used, e);
      if Unattended(q, id) && !(e.Drop? && BelongsTo(q.jobs[id], e.upstreams, e.repos)) {
        AlwaysSound(es[..m - 1]);
        StepKeepsUnattended(q, used, e, id);
      }
    }
  }
}
