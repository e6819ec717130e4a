/** The sliding-window limiter of the admin UI's credential endpoints: attempt times per key,
    pruned on use, capped at 64 per key, and swept when there are many keys. The clock is a
    parameter; every method runs under the mutex, so calls are atomic. */
module RateLimiter {
  import opened Options
  import Text

  const SWEEP_THRESHOLD: nat := 4096
  const MAX_WINDOW: nat := 3600
  const MAX_KEY_CHARS: nat := 256
  const MAX_ATTEMPTS_KEPT: nat := 64

  type Windows = map<string, seq<nat>>

  datatype Limit = Limit(max: nat, window: nat)

  function BoundedKey(key: string): (r: string)
    ensures |r| <= MAX_KEY_CHARS && r <= key
  {
    if |key| <= MAX_KEY_CHARS then key else key[..MAX_KEY_CHARS]
  }

  /** How long ago `t` was; zero for a `t` in the future. */
  function Since(now: nat, t: nat): nat { if t <= now then now - t else 0 }

  predicate Expired(t: nat, window: nat, now: nat) { Since(now, t) >= window }

  /** An attempt leaves the window when it is as old as the window is long; one that lies in the future
      counts as made now. */
  lemma ExpiredIff(t: nat, window: nat, now: nat)
    ensures Expired(t, window, now) <==> if t > now then window == 0 else t + window <= now
  {
  }

  function Pruned(w: seq<nat>, window: nat, now: nat): (r: seq<nat>)
    ensures |r| <= |w|
    decreases |w|
  {
    if w != [] && Expired(w[0], window, now) then Pruned(w[1..], window, now) else w
  }

  predicate Live(w: seq<nat>, now: nat) { w != [] && Since(now, w[|w| - 1]) < MAX_WINDOW }

  function Swept(ws: Windows, now: nat): Windows {
    if |ws| >= SWEEP_THRESHOLD then map k | k in ws && Live(ws[k], now) :: ws[k] else ws
  }

  function At(ws: Windows, k: string): seq<nat> { if k in ws then ws[k] else [] }

  /** The attempts of a key once pruned for a call. */
  function Considered(ws: Windows, key: string, limit: Option<Limit>, now: nat): seq<nat> {
    Pruned(At(Swept(ws, now), BoundedKey(key)), match limit case Some(l) => l.window case None => MAX_WINDOW, now)
  }

  predicate Admits(ws: Windows, key: string, limit: Option<Limit>, now: nat) {
    limit.Some? ==> |Considered(ws, key, limit, now)| < limit.value.max
  }

  function Pushed(w: seq<nat>, now: nat): seq<nat> {
    (if |w| == MAX_ATTEMPTS_KEPT then w[1..] else w) + [now]
  }

  function AfterHit(ws: Windows, key: string, limit: Option<Limit>, now: nat): Windows {
    var w := Considered(ws, key, limit, now);
    Swept(ws, now)[BoundedKey(key) := if Admits(ws, key, limit, now) then Pushed(w, now) else w]
  }

  predicate Limited(ws: Windows, key: string, limit: Limit, now: nat) {
    BoundedKey(key) in ws && |Pruned(ws[BoundedKey(key)], limit.window, now)| >= limit.max
  }

  function AfterLook(ws: Windows, key: string, limit: Limit, now: nat): Windows {
    var k := BoundedKey(key);
    if k in ws then ws[k := Pruned(ws[k], limit.window, now)] else ws
  }

  predicate Off(value: Option<string>) {
    value.Some? && Text.Lower(Text.Trim(value.value)) in ["off", "false", "0", "disabled", "no"]
  }

  method Prune(w: seq<nat>, window: nat, now: nat) returns (r: seq<nat>)
    ensures r == Pruned(w, window, now)
  {
    r := w;
    while r != [] && Since(now, r[0]) >= window
      invariant Pruned(w, window, now) == Pruned(r, window, now)
      decreases |r|
    {
      r := r[1..];
    }
  }

  class RateLimiter {
    const enabled: bool
    var windows: Windows

    constructor FromSetting(value: Option<string>)
      ensures enabled <==> value.None? || Text.Lower(Text.Trim(value.value)) !in {"off", "false", "0", "disabled", "no"}
      ensures windows == map[]
    {
      enabled := !Off(value);
      windows := map[];
    }

    method Allow(key: string, max: nat, window: nat, now: nat) returns (admitted: bool)
      modifies this
      ensures windows == if enabled then AfterHit(old(windows), key, Some(Limit(max, window)), now) else old(windows)
      ensures admitted == (enabled ==> Admits(old(windows), key, Some(Limit(max, window)), now))
    {
      admitted := Hit(key, Some(Limit(max, window)), now);
    }

    method Record(key: string, now: nat)
      modifies this
      ensures windows == if enabled then AfterHit(old(windows), key, None, now) else old(windows)
    {
      var _ := Hit(key, None, now);
    }

    method AtLimit(key: string, max: nat, window: nat, now: nat) returns (limited: bool)
      modifies this
      ensures windows == if enabled then AfterLook(old(windows), key, Limit(max, window), now) else old(windows)
      ensures limited == (enabled && Limited(old(windows), key, Limit(max, window), now))
    {
      if !enabled { return false; }
      var k := BoundedKey(key);
      if k !in windows { return false; }
      var w := Prune(windows[k], window, now);
      windows := windows[k := w];
      limited := |w| >= max;
    }

    /** `retain` the keys with a recent attempt, once there are many. */
    method Sweep(now: nat)
      modifies this
      ensures windows == Swept(old(windows), now)
    {
      if |windows| >= SWEEP_THRESHOLD {
        windows := map k | k in windows && Live(windows[k], now) :: windows[k];
      }
    }

    method Hit(key: string, limit: Option<Limit>, now: nat) returns (admitted: bool)
      modifies this
      ensures windows == if enabled then AfterHit(old(windows), key, limit, now) else old(windows)
      ensures admitted == (enabled ==> Admits(old(windows), key, limit, now))
    {
      if !enabled { return true; }
      hide *;
      Sweep(now);
      var k := BoundedKey(key);
      var w := At(windows, k);
      w := Prune(w, match limit case Some(l) => l.window case None => MAX_WINDOW, now);
      if limit.Some? && |w| >= limit.value.max {
        windows := windows[k := w];
        return false;
      }
      if |w| == MAX_ATTEMPTS_KEPT { w := w[1..]; }
      windows := windows[k := w + [now]];
      admitted := true;
    }
  }

  // ----- the plain log the limiter stands for -----

  datatype Call =
    | CallAllow(key: string, limit: Limit, now: nat)
    | CallAtLimit(key: string, limit: Limit, now: nat)
    | CallRecord(key: string, now: nat)

  /** Every recorded attempt of every key, forever. */
  type Log = map<string, seq<nat>>

  /** From 4096 keys on, a sweep keeps exactly those whose last attempt is less than an hour old, with
      all their attempts; below, it does nothing. */
  lemma SweptMeans(ws: Windows, now: nat)
    ensures |ws| < 4096 ==> Swept(ws, now) == ws
    ensures |ws| >= 4096 ==>
              forall k :: k in Swept(ws, now) <==> k in ws && ws[k] != [] && now < ws[k][|ws[k]| - 1] + 3600
    ensures forall k :: k in Swept(ws, now) ==> k in ws && Swept(ws, now)[k] == ws[k]
  {
  }

  /** How many attempts lie within `window` before `now`. */
  function Recent(all: seq<nat>, window: nat, now: nat): (c: nat)
    ensures c <= |all|
    decreases |all|
  {
    if all == [] then 0
    else Recent(all[..|all| - 1], window, now) + (if Expired(all[|all| - 1], window, now) then 0 else 1)
  }

  function LogAnswer(log: Log, c: Call): bool {
    match c
    case CallAllow(key, l, now) => Recent(At(log, key), l.window, now) < l.max
    case CallAtLimit(key, l, now) => Recent(At(log, key), l.window, now) >= l.max
    case CallRecord(_, _) => true
  }

  predicate Records(log: Log, c: Call) { c.CallRecord? || (c.CallAllow? && LogAnswer(log, c)) }

  function LogNext(log: Log, c: Call): Log {
    if Records(log, c) then log[c.key := At(log, c.key) + [c.now]] else log
  }

  function LogAfter(calls: seq<Call>): Log
    decreases |calls|
  {
    if calls == [] then map[] else LogNext(LogAfter(calls[..|calls| - 1]), calls[|calls| - 1])
  }

  // ----- the same with keys cut to their bounded form, an intermediate step -----

  function KeyedAnswer(log: Log, c: Call): bool {
    match c
    case CallAllow(key, l, now) => Recent(At(log, BoundedKey(key)), l.window, now) < l.max
    case CallAtLimit(key, l, now) => Recent(At(log, BoundedKey(key)), l.window, now) >= l.max
    case CallRecord(_, _) => true
  }

  predicate KeyedRecords(log: Log, c: Call) { c.CallRecord? || (c.CallAllow? && KeyedAnswer(log, c)) }

  function KeyedNext(log: Log, c: Call): Log {
    var k := BoundedKey(c.key);
    if KeyedRecords(log, c) then log[k := At(log, k) + [c.now]] else log
  }

  function KeyedAfter(calls: seq<Call>): Log
    decreases |calls|
  {
    if calls == [] then map[] else KeyedNext(KeyedAfter(calls[..|calls| - 1]), calls[|calls| - 1])
  }

  // ----- the limiter run on the same calls -----

  function Answer(ws: Windows, c: Call): bool {
    match c
    case CallAllow(key, l, now) => Admits(ws, key, Some(l), now)
    case CallAtLimit(key, l, now) => Limited(ws, key, l, now)
    case CallRecord(key, now) => Admits(ws, key, None, now)
  }

  function Next(ws: Windows, c: Call): Windows {
    match c
    case CallAllow(key, l, now) => AfterHit(ws, key, Some(l), now)
    case CallAtLimit(key, l, now) => AfterLook(ws, key, l, now)
    case CallRecord(key, now) => AfterHit(ws, key, None, now)
  }

  function After(calls: seq<Call>): Windows
    decreases |calls|
  {
    if calls == [] then map[] else Next(After(calls[..|calls| - 1]), calls[|calls| - 1])
  }

  // ----- refinement -----

  predicate Ascending(w: seq<nat>) { forall i, j :: 0 <= i < j < |w| ==> w[i] <= w[j] }

  predicate Tail(w: seq<nat>, all: seq<nat>) {
    |w| <= |all| && forall i :: 0 <= i < |w| ==> w[i] == all[|all| - |w| + i]
  }

  /** The attempts kept for a key stand for all of them: a dropped one is either too old for
      the key's window or has 64 kept ones after it. */
  predicate StandsFor(w: seq<nat>, all: seq<nat>, window: nat, now: nat) {
    && Tail(w, all) && |w| <= MAX_ATTEMPTS_KEPT
    && Ascending(all) && (forall i :: 0 <= i < |all| ==> all[i] <= now)
    && (|w| == |all| || |w| >= MAX_ATTEMPTS_KEPT || Expired(all[|all| - |w| - 1], window, now))
  }

  ghost predicate Simulates(ws: Windows, log: Log, windowOf: string -> nat, now: nat) {
    forall k :: StandsFor(At(ws, k), At(log, k), windowOf(k), now)
  }

  /** In an ascending log the recent attempts are the last ones. */
  lemma {:induction false} RecentAreLast(all: seq<nat>, window: nat, now: nat)
    requires Ascending(all) && forall i :: 0 <= i < |all| ==> all[i] <= now
    ensures forall i :: 0 <= i < |all| ==> (Expired(all[i], window, now) <==> i < |all| - Recent(all, window, now))
    decreases |all|
  {
    if all == [] {
    } else {
      var init := all[..|all| - 1];
      RecentAreLast(init, window, now);
      assert forall i :: 0 <= i < |init| ==> all[i] == init[i];
    }
  }

  lemma Fades(w: seq<nat>, all: seq<nat>, window: nat, now: nat, later: nat)
    requires StandsFor(w, all, window, now) && now <= later
    ensures StandsFor(w, all, window, later)
  {
  }

  /** Pruning stops at the first attempt that is not expired. */
  lemma {:induction false} PrunedTail(w: seq<nat>, all: seq<nat>, window: nat, now: nat)
    requires Tail(w, all)
    ensures var r := Pruned(w, window, now);
            && Tail(r, all)
            && (|r| < |w| ==> Expired(all[|all| - |r| - 1], window, now))
            && (r != [] ==> !Expired(all[|all| - |r|], window, now))
    decreases |w|
  {
    hide Expired;
    if w != [] && Expired(w[0], window, now) { PrunedTail(w[1..], all, window, now); }
  }

  lemma PrunedStandsFor(w: seq<nat>, all: seq<nat>, window: nat, longer: nat, now: nat)
    requires StandsFor(w, all, window, now) && window <= longer
    ensures StandsFor(Pruned(w, longer, now), all, window, now)
  {
    PrunedTail(w, all, longer, now);
    hide Pruned;
    TailStandsFor(Pruned(w, longer, now), w, all, window, longer, now);
  }

  lemma TailStandsFor(r: seq<nat>, w: seq<nat>, all: seq<nat>, window: nat, longer: nat, now: nat)
    requires StandsFor(w, all, window, now) && window <= longer && |r| <= |w| && Tail(r, all)
    requires |r| < |w| ==> Expired(all[|all| - |r| - 1], longer, now)
    ensures StandsFor(r, all, window, now)
  {
    hide Ascending, Since;
  }

  lemma SweptStandsFor(w: seq<nat>, all: seq<nat>, window: nat, now: nat)
    requires StandsFor(w, all, window, now) && window <= MAX_WINDOW && !Live(w, now)
    ensures StandsFor([], all, window, now)
  {
    if w != [] { assert w[|w| - 1] == all[|all| - 1]; }
  }

  lemma PushedStandsFor(w: seq<nat>, all: seq<nat>, window: nat, now: nat)
    requires StandsFor(w, all, window, now)
    ensures StandsFor(Pushed(w, now), all + [now], window, now)
  {
    var p := Pushed(w, now);
    assert Tail(p, all + [now]);
    assert |w| < MAX_ATTEMPTS_KEPT && |w| < |all| ==> (all + [now])[|all| - |w| - 1] == all[|all| - |w| - 1];
  }

  lemma RecentFrom(all: seq<nat>, window: nat, now: nat, m: nat)
    requires Ascending(all) && (forall i :: 0 <= i < |all| ==> all[i] <= now)
    requires m <= |all| && (m < |all| ==> !Expired(all[m], window, now))
    ensures Recent(all, window, now) >= |all| - m
    ensures m == 0 || Expired(all[m - 1], window, now) ==> Recent(all, window, now) == |all| - m
  {
    RecentAreLast(all, window, now);
    hide Expired, Recent, Ascending;
  }

  /** Pruning leaves enough to decide any limit up to 64. */
  lemma PrunedDecides(w: seq<nat>, all: seq<nat>, window: nat, now: nat, max: nat)
    requires StandsFor(w, all, window, now) && max <= MAX_ATTEMPTS_KEPT
    ensures |Pruned(w, window, now)| >= max <==> Recent(all, window, now) >= max
  {
    assert Tail(w, all);
    hide *;
    PrunedTail(w, all, window, now);
    RecentOfTail(Pruned(w, window, now), w, all, window, now);
  }

  lemma RecentOfTail(r: seq<nat>, w: seq<nat>, all: seq<nat>, window: nat, now: nat)
    requires StandsFor(w, all, window, now) && |r| <= |w|
    requires |r| < |w| ==> Expired(all[|all| - |r| - 1], window, now)
    requires r != [] ==> !Expired(all[|all| - |r|], window, now)
    ensures Recent(all, window, now) == |r| || (|r| >= MAX_ATTEMPTS_KEPT && Recent(all, window, now) >= |r|)
  {
    hide Expired, Recent;
    RecentFrom(all, window, now, |all| - |r|);
  }

  /** The times and limits a deployment uses: a clock that does not run backwards, one window
      per key, none longer than an hour, and limits that fit the 64 attempts kept. */
  ghost predicate Admissible(calls: seq<Call>, windowOf: string -> nat) {
    && (forall i, j :: 0 <= i < j < |calls| ==> calls[i].now <= calls[j].now)
    && (forall k :: windowOf(k) <= 3600)
    && forall i :: 0 <= i < |calls| ==> LimitFits(calls[i], windowOf)
  }

  predicate LimitFits(c: Call, windowOf: string -> nat) {
    match c
    case CallAllow(key, l, _) => l.window == windowOf(BoundedKey(key)) && l.max <= 64
    case CallAtLimit(key, l, _) => l.window == windowOf(BoundedKey(key)) && 1 <= l.max <= 64
    case CallRecord(_, _) => true
  }

  lemma SweptSimulates(ws: Windows, log: Log, windowOf: string -> nat, now: nat)
    requires Simulates(ws, log, windowOf, now) && forall k :: windowOf(k) <= MAX_WINDOW
    ensures Simulates(Swept(ws, now), log, windowOf, now)
  {
    hide StandsFor, Live;
    forall k ensures StandsFor(At(Swept(ws, now), k), At(log, k), windowOf(k), now) {
      assert StandsFor(At(ws, k), At(log, k), windowOf(k), now);
      if k in ws && !Live(ws[k], now) { SweptStandsFor(ws[k], At(log, k), windowOf(k), now); }
    }
  }

  lemma UpdateSimulates(ws: Windows, log: Log, windowOf: string -> nat, now: nat, k: string, w: seq<nat>, all: seq<nat>)
    requires Simulates(ws, log, windowOf, now) && StandsFor(w, all, windowOf(k), now)
    ensures Simulates(ws[k := w], log[k := all], windowOf, now)
    ensures all == At(log, k) ==> Simulates(ws[k := w], log, windowOf, now)
  {
    hide StandsFor;
    forall j
      ensures StandsFor(At(ws[k := w], j), At(log[k := all], j), windowOf(j), now)
      ensures all == At(log, k) ==> StandsFor(At(ws[k := w], j), At(log, j), windowOf(j), now)
    {
      assert StandsFor(At(ws, j), At(log, j), windowOf(j), now);
    }
  }

  /** One key, pruned for a limit and perhaps recorded. */
  lemma KeyHit(w: seq<nat>, all: seq<nat>, window: nat, longer: nat, now: nat, max: nat)
    requires StandsFor(w, all, window, now) && window <= longer
    ensures var r := Pruned(w, longer, now);
            && StandsFor(r, all, window, now)
            && StandsFor(Pushed(r, now), all + [now], window, now)
            && (longer == window && max <= MAX_ATTEMPTS_KEPT ==> (|r| >= max <==> Recent(all, window, now) >= max))
  {
    hide Pruned, Pushed, StandsFor, Recent;
    PrunedStandsFor(w, all, window, longer, now);
    PushedStandsFor(Pruned(w, longer, now), all, window, now);
    if longer == window && max <= MAX_ATTEMPTS_KEPT { PrunedDecides(w, all, window, now, max); }
  }

  lemma SimulatesAt(ws: Windows, log: Log, windowOf: string -> nat, now: nat, k: string)
    requires Simulates(ws, log, windowOf, now)
    ensures StandsFor(At(ws, k), At(log, k), windowOf(k), now)
  {
    hide StandsFor;
  }

  lemma HitSimulates(ws: Windows, log: Log, windowOf: string -> nat, key: string, limit: Option<Limit>, now: nat)
    requires Simulates(ws, log, windowOf, now) && forall k :: windowOf(k) <= MAX_WINDOW
    requires limit.Some? ==> limit.value.window == windowOf(BoundedKey(key)) && limit.value.max <= MAX_ATTEMPTS_KEPT
    ensures var k := BoundedKey(key);
            var admitted := limit.Some? ==> Recent(At(log, k), limit.value.window, now) < limit.value.max;
            && Admits(ws, key, limit, now) == admitted
            && Simulates(AfterHit(ws, key, limit, now), if admitted then log[k := At(log, k) + [now]] else log,
                         windowOf, now)
  {
    hide Pruned, Swept, BoundedKey, Pushed, StandsFor, Recent, Simulates, At;
    var k := BoundedKey(key);
    SweptSimulates(ws, log, windowOf, now);
    SimulatesAt(Swept(ws, now), log, windowOf, now, k);
    var w, all := At(Swept(ws, now), k), At(log, k);
    var window := match limit case Some(l) => l.window case None => MAX_WINDOW;
    KeyHit(w, all, windowOf(k), window, now, match limit case Some(l) => l.max case None => 0);
    var r := Pruned(w, window, now);
    if Admits(ws, key, limit, now) {
      UpdateSimulates(Swept(ws, now), log, windowOf, now, k, Pushed(r, now), all + [now]);
    } else {
      UpdateSimulates(Swept(ws, now), log, windowOf, now, k, r, all);
    }
  }

  lemma LookSimulates(ws: Windows, log: Log, windowOf: string -> nat, key: string, limit: Limit, now: nat)
    requires Simulates(ws, log, windowOf, now)
    requires limit.window == windowOf(BoundedKey(key)) && 1 <= limit.max <= MAX_ATTEMPTS_KEPT
    ensures Limited(ws, key, limit, now) <==> Recent(At(log, BoundedKey(key)), limit.window, now) >= limit.max
    ensures Simulates(AfterLook(ws, key, limit, now), log, windowOf, now)
  {
    hide BoundedKey, StandsFor, Recent, Pushed, Simulates;
    var k := BoundedKey(key);
    var w, all := At(ws, k), At(log, k);
    SimulatesAt(ws, log, windowOf, now, k);
    KeyHit(w, all, windowOf(k), limit.window, now, limit.max);
    assert |Pruned(w, limit.window, now)| >= limit.max <==> Recent(all, limit.window, now) >= limit.max;
    if k in ws { UpdateSimulates(ws, log, windowOf, now, k, Pruned(w, limit.window, now), all); }
  }

  lemma SimulatesLater(ws: Windows, log: Log, windowOf: string -> nat, now: nat, later: nat)
    requires Simulates(ws, log, windowOf, now) && now <= later
    ensures Simulates(ws, log, windowOf, later)
  {
    hide StandsFor;
    forall k ensures StandsFor(At(ws, k), At(log, k), windowOf(k), later) {
      assert StandsFor(At(ws, k), At(log, k), windowOf(k), now);
      Fades(At(ws, k), At(log, k), windowOf(k), now, later);
    }
  }

  /** One call: the limiter answers as the log of cut keys does, and goes on standing for it. */
  lemma CallSimulates(ws: Windows, log: Log, windowOf: string -> nat, c: Call)
    requires Simulates(ws, log, windowOf, c.now) && LimitFits(c, windowOf) && forall k :: windowOf(k) <= MAX_WINDOW
    ensures Answer(ws, c) == KeyedAnswer(log, c)
    ensures Simulates(Next(ws, c), KeyedNext(log, c), windowOf, c.now)
  {
    hide Simulates, Admits, AfterHit, AfterLook, Recent, Limited, BoundedKey, At;
    match c
    case CallAllow(key, l, now) => HitSimulates(ws, log, windowOf, key, Some(l), now);
    case CallAtLimit(key, l, now) => LookSimulates(ws, log, windowOf, key, l, now);
    case CallRecord(key, now) => HitSimulates(ws, log, windowOf, key, None, now);
  }

  lemma {:induction false} RunSimulates(calls: seq<Call>, windowOf: string -> nat)
    requires Admissible(calls, windowOf)
    ensures Simulates(After(calls), KeyedAfter(calls), windowOf, if calls == [] then 0 else calls[|calls| - 1].now)
    decreases |calls|
  {
    hide Simulates, Next, KeyedNext, LimitFits;
    if calls == [] {
      FreshSimulates(windowOf);
    } else {
      var init, c := calls[..|calls| - 1], calls[|calls| - 1];
      RunSimulates(init, windowOf);
      SimulatesLater(After(init), KeyedAfter(init), windowOf, if init == [] then 0 else init[|init| - 1].now, c.now);
      CallSimulates(After(init), KeyedAfter(init), windowOf, c);
    }
  }

  lemma FreshSimulates(windowOf: string -> nat)
    ensures Simulates(map[], map[], windowOf, 0)
  {
  }

  lemma RefinesKeyed(calls: seq<Call>, windowOf: string -> nat, i: nat)
    requires Admissible(calls, windowOf) && i < |calls|
    ensures Answer(After(calls[..i]), calls[i]) == KeyedAnswer(KeyedAfter(calls[..i]), calls[i])
  {
    hide Simulates, Answer, KeyedAnswer, LimitFits;
    var init, c := calls[..i], calls[i];
    RunSimulates(init, windowOf);
    SimulatesLater(After(init), KeyedAfter(init), windowOf, if init == [] then 0 else init[|init| - 1].now, c.now);
    CallSimulates(After(init), KeyedAfter(init), windowOf, c);
  }

  // ----- cut keys -----

  function First256(key: string): string { if |key| <= 256 then key else key[..256] }

  lemma CutTo256(key: string)
    ensures BoundedKey(key) == First256(key)
  {
  }

  /** No two different keys among these have their first 256 characters in common. */
  ghost predicate Apart(keys: iset<string>) {
    forall a, b :: a in keys && b in keys && First256(a) == First256(b) ==> a == b
  }

  ghost predicate Uses(calls: seq<Call>, keys: iset<string>) {
    forall i :: 0 <= i < |calls| ==> calls[i].key in keys
  }

  ghost predicate Agree(log: Log, keyed: Log, keys: iset<string>) {
    forall k :: k in keys ==> At(log, k) == At(keyed, BoundedKey(k))
  }

  lemma StepAgrees(log: Log, keyed: Log, keys: iset<string>, c: Call)
    requires Agree(log, keyed, keys) && Apart(keys) && c.key in keys
    ensures LogAnswer(log, c) == KeyedAnswer(keyed, c)
    ensures Agree(LogNext(log, c), KeyedNext(keyed, c), keys)
  {
    forall k ensures BoundedKey(k) == First256(k) { CutTo256(k); }
    hide BoundedKey, First256, Recent;
    assert At(log, c.key) == At(keyed, BoundedKey(c.key));
  }

  lemma {:induction false} RunAgrees(calls: seq<Call>, keys: iset<string>)
    requires Uses(calls, keys) && Apart(keys)
    ensures Agree(LogAfter(calls), KeyedAfter(calls), keys)
    decreases |calls|
  {
    hide LogNext, KeyedNext, Apart;
    if calls == [] {
    } else {
      var init, c := calls[..|calls| - 1], calls[|calls| - 1];
      RunAgrees(init, keys);
      StepAgrees(LogAfter(init), KeyedAfter(init), keys, c);
    }
  }

  /** The refinement: over every admissible run whose keys differ in their first 256 characters
      each answer is the plain log's, despite pruning, the cap, sweeping and cutting keys. */
  lemma RefinesLog(calls: seq<Call>, windowOf: string -> nat, keys: iset<string>, i: nat)
    requires Admissible(calls, windowOf) && Uses(calls, keys) && Apart(keys) && i < |calls|
    ensures Answer(After(calls[..i]), calls[i]) == LogAnswer(LogAfter(calls[..i]), calls[i])
  {
    RefinesKeyed(calls, windowOf, i);
    assert Uses(calls[..i], keys);
    RunAgrees(calls[..i], keys);
    hide Answer, LogAnswer, Admissible, Apart, Agree;
    StepAgrees(LogAfter(calls[..i]), KeyedAfter(calls[..i]), keys, calls[i]);
  }

  /** Every admissible run over these keys answers as the plain log. */
  ghost predicate LogRefined(keys: iset<string>) {
    forall calls, windowOf, i :: Admissible(calls, windowOf) && Uses(calls, keys) && 0 <= i < |calls| ==>
      Answer(After(calls[..i]), calls[i]) == LogAnswer(LogAfter(calls[..i]), calls[i])
  }

  /** Two keys that are cut to the same form: an attempt of one is reported for the other, which
      never made any. */
  lemma CutKeysDiffer(a: string, b: string, window: nat)
    requires a != b && First256(a) == First256(b) && 1 <= window <= 3600
    ensures var calls := [CallRecord(a, 0), CallAtLimit(b, Limit(1, window), 0)];
            && Admissible(calls, _ => window)
            && Answer(After(calls[..1]), calls[1]) && !LogAnswer(LogAfter(calls[..1]), calls[1])
  {
    CutTo256(a);
    CutTo256(b);
    var c := CallRecord(a, 0);
    var calls := [c, CallAtLimit(b, Limit(1, window), 0)];
    assert Admissible(calls, _ => window);
    assert calls[..1] == [c];
    OneCall(c);
    FirstRecord(a);
    hide BoundedKey, After, LogAfter, Next, Admissible;
    assert Pruned([0], window, 0) == [0];
    assert LogNext(map[], c) == map[a := [0]];
  }

  /** So the limiter refines the plain log over exactly those sets of keys that stay apart. */
  lemma RefinesLogIff(keys: iset<string>)
    ensures LogRefined(keys) <==> Apart(keys)
  {
    hide Admissible, Answer, After, LogAnswer, LogAfter;
    if Apart(keys) {
      forall calls: seq<Call>, windowOf, i | Admissible(calls, windowOf) && Uses(calls, keys) && 0 <= i < |calls|
        ensures Answer(After(calls[..i]), calls[i]) == LogAnswer(LogAfter(calls[..i]), calls[i])
      {
        RefinesLog(calls, windowOf, keys, i);
      }
    } else {
      hide First256;
      var a, b :| a in keys && b in keys && First256(a) == First256(b) && a != b;
      CutKeysDiffer(a, b, 1);
      var calls := [CallRecord(a, 0), CallAtLimit(b, Limit(1, 1), 0)];
      assert Uses(calls, keys);
    }
  }

  // ----- what the limit means -----

  /** When attempts under `k` were admitted, by the limiter's own answers. */
  function Admitted(calls: seq<Call>, k: string): seq<nat>
    decreases |calls|
  {
    if calls == [] then []
    else
      var init, c := calls[..|calls| - 1], calls[|calls| - 1];
      Admitted(init, k)
      + (if !c.CallAtLimit? && BoundedKey(c.key) == k && Answer(After(init), c) then [c.now] else [])
  }

  lemma {:induction false} AdmittedIsLogged(calls: seq<Call>, windowOf: string -> nat, k: string)
    requires Admissible(calls, windowOf)
    ensures Admitted(calls, k) == At(KeyedAfter(calls), k)
    decreases |calls|
  {
    hide Answer, KeyedAnswer, LimitFits, BoundedKey, After;
    if calls == [] {
    } else {
      var init, c := calls[..|calls| - 1], calls[|calls| - 1];
      AdmittedIsLogged(init, windowOf, k);
      RefinesKeyed(calls, windowOf, |init|);
      if c.CallRecord? { RecordAnswers(After(init), c); }
      assert calls == init + [c];
      AdmittedStep(init, c, k);
      hide Admitted, Admissible;
    }
  }

  lemma RecordAnswers(ws: Windows, c: Call)
    requires c.CallRecord?
    ensures Answer(ws, c)
  {
  }

  /** Every use of `k` is limited to at most `max` attempts. */
  ghost predicate OnlyLimited(calls: seq<Call>, k: string, max: nat) {
    forall i :: 0 <= i < |calls| && BoundedKey(calls[i].key) == k && !calls[i].CallAtLimit? ==>
      calls[i].CallAllow? && calls[i].limit.max <= max
  }

  predicate Spaced(times: seq<nat>, max: nat, window: nat) {
    forall i, j :: 0 <= i && i + max <= j < |times| ==> times[i] + window <= times[j]
  }

  lemma SpacedStep(all: seq<nat>, max: nat, window: nat, now: nat)
    requires Spaced(all, max, window) && Ascending(all) && forall i :: 0 <= i < |all| ==> all[i] <= now
    requires Recent(all, window, now) < max
    ensures Spaced(all + [now], max, window)
  {
    RecentAreLast(all, window, now);
    hide Recent;
    var n := |all|;
    forall i | 0 <= i && i + max <= n ensures all[i] + window <= now {
      assert Expired(all[i], window, now);
    }
  }

  lemma AdmittedBefore(calls: seq<Call>, windowOf: string -> nat, k: string, now: nat)
    requires Admissible(calls, windowOf) && (calls != [] ==> calls[|calls| - 1].now <= now)
    ensures Ascending(Admitted(calls, k)) && forall i :: 0 <= i < |Admitted(calls, k)| ==> Admitted(calls, k)[i] <= now
  {
    AdmittedIsLogged(calls, windowOf, k);
    RunSimulates(calls, windowOf);
    hide Simulates, StandsFor, Admissible;
    SimulatesLater(After(calls), KeyedAfter(calls), windowOf, if calls == [] then 0 else calls[|calls| - 1].now, now);
    SimulatesAt(After(calls), KeyedAfter(calls), windowOf, now, k);
    LoggedTimes(After(calls), KeyedAfter(calls), windowOf, now, k);
  }

  /** An admitted attempt of a limited key found fewer than the limit in its window. */
  lemma AdmittedHasRoom(calls: seq<Call>, windowOf: string -> nat, c: Call)
    requires Admissible(calls + [c], windowOf) && c.CallAllow? && Answer(After(calls), c)
    ensures c.limit.window == windowOf(BoundedKey(c.key))
    ensures Recent(Admitted(calls, BoundedKey(c.key)), c.limit.window, c.now) < c.limit.max
  {
    var all := calls + [c];
    assert all[..|calls|] == calls && all[|calls|] == c;
    RefinesKeyed(all, windowOf, |calls|);
    assert Admissible(calls, windowOf) by { assert forall i :: 0 <= i < |calls| ==> all[i] == calls[i]; }
    AdmittedIsLogged(calls, windowOf, BoundedKey(c.key));
    assert LimitFits(all[|calls|], windowOf);
    hide Answer, Recent, Admissible;
  }

  /** However the attempts fall, any `max + 1` of them span at least the window: no window
      holds more than `max` admitted attempts. */
  lemma {:induction false} NoWindowOverfull(calls: seq<Call>, windowOf: string -> nat, k: string, max: nat)
    requires Admissible(calls, windowOf) && OnlyLimited(calls, k, max)
    ensures Spaced(Admitted(calls, k), max, windowOf(k))
    decreases |calls|
  {
    hide Recent, Spaced, Answer, BoundedKey, LimitFits, Admitted, Ascending;
    if calls == [] {
      AdmittedStep([], CallRecord("", 0), k);
      SpacedEmpty(max, windowOf(k));
    } else {
      var init, c := calls[..|calls| - 1], calls[|calls| - 1];
      assert calls == init + [c];
      NoWindowOverfull(init, windowOf, k, max);
      AdmittedStep(init, c, k);
      if c.CallAllow? && BoundedKey(c.key) == k && Answer(After(init), c) {
        AdmittedBefore(init, windowOf, k, c.now);
        AdmittedHasRoom(init, windowOf, c);
        SpacedStep(Admitted(init, k), max, windowOf(k), c.now);
      }
    }
  }

  lemma AdmittedStep(init: seq<Call>, c: Call, k: string)
    ensures Admitted([], k) == []
    ensures Admitted(init + [c], k) ==
            if !c.CallAtLimit? && BoundedKey(c.key) == k && Answer(After(init), c) then Admitted(init, k) + [c.now]
            else Admitted(init, k)
  {
    hide Answer, BoundedKey;
    assert (init + [c])[..|init|] == init;
    assert Admitted(init, k) + [] == Admitted(init, k);
  }

  lemma SpacedEmpty(max: nat, window: nat)
    ensures Spaced([], max, window)
  {
  }

  lemma LoggedTimes(ws: Windows, log: Log, windowOf: string -> nat, now: nat, k: string)
    requires StandsFor(At(ws, k), At(log, k), windowOf(k), now)
    ensures Ascending(At(log, k)) && forall i :: 0 <= i < |At(log, k)| ==> At(log, k)[i] <= now
  {
  }

  // ----- memory, and where the refinement ends -----

  ghost predicate Bounded(ws: Windows) {
    forall k :: k in ws ==> |k| <= 256 && |ws[k]| <= 64
  }

  /** Whatever the callers do, keys and attempt lists stay within their bounds. */
  lemma {:induction false} MemoryPerKeyBounded(calls: seq<Call>)
    ensures Bounded(After(calls))
    decreases |calls|
  {
    if calls == [] {
    } else {
      MemoryPerKeyBounded(calls[..|calls| - 1]);
      hide Bounded, Next;
      CallBounded(After(calls[..|calls| - 1]), calls[|calls| - 1]);
    }
  }

  lemma CallBounded(ws: Windows, c: Call)
    requires Bounded(ws)
    ensures Bounded(Next(ws, c))
  {
    hide Live, Expired, After;
    if c.CallAtLimit? {
      hide AfterHit;
    } else {
      hide AfterLook, Pruned, BoundedKey;
    }
  }

  /** A limit above 64 never denies anything. */
  lemma OverCapNeverDenies(calls: seq<Call>, c: Call)
    requires c.CallAllow? && c.limit.max > 64
    ensures Answer(After(calls), c)
  {
    MemoryPerKeyBounded(calls);
    hide After, Live, BoundedKey;
  }

  function Burst(key: string, max: nat, n: nat): seq<Call> { seq(n, _ => CallAllow(key, Limit(max, 1), 0)) }

  lemma {:induction false} BurstLogged(key: string, max: nat, n: nat)
    requires n <= max
    ensures At(LogAfter(Burst(key, max, n)), key) == seq(n, _ => 0)
    decreases n
  {
    if n == 0 {
    } else {
      BurstLogged(key, max, n - 1);
      assert Burst(key, max, n)[..n - 1] == Burst(key, max, n - 1);
      assert seq(n, _ => 0) == seq(n - 1, _ => 0) + [0];
    }
  }

  /** So the refinement needs the bound of 64: for every larger limit the log denies the
      attempt after `max` simultaneous ones, and the limiter lets it through. */
  lemma CapIsExact(key: string, max: nat)
    requires max > 64
    ensures var c := CallAllow(key, Limit(max, 1), 0); var calls := Burst(key, max, max);
            Answer(After(calls), c) && !LogAnswer(LogAfter(calls), c)
  {
    hide BoundedKey, Recent, Answer, LogAfter, Burst;
    var c := CallAllow(key, Limit(max, 1), 0);
    OverCapNeverDenies(Burst(key, max, max), c);
    BurstLogged(key, max, max);
    RecentZeros(max);
  }

  lemma {:induction false} RecentZeros(n: nat)
    ensures Recent(seq(n, _ => 0), 1, 0) == n
    decreases n
  {
    if n == 0 {
    } else {
      RecentZeros(n - 1);
      assert seq(n, _ => 0)[..n - 1] == seq(n - 1, _ => 0);
    }
  }

  /** Some call under `k` was an attempt, admitted or not. */
  ghost predicate Attempted(calls: seq<Call>, k: string) {
    exists i :: 0 <= i < |calls| && !calls[i].CallAtLimit? && BoundedKey(calls[i].key) == k
  }

  lemma CallEntries(ws: Windows, c: Call, k: string)
    requires |ws| < SWEEP_THRESHOLD
    ensures |Next(ws, c)| <= |ws| + 1
    ensures k in Next(ws, c) <==> k in ws || (!c.CallAtLimit? && BoundedKey(c.key) == k)
  {
    hide BoundedKey, Pruned, Live, Pushed, Expired;
  }

  lemma {:induction false} EntriesAreAttempts(calls: seq<Call>, k: string)
    requires |calls| <= 4096
    ensures |After(calls)| <= |calls| && (k in After(calls) <==> Attempted(calls, k))
    decreases |calls|
  {
    hide Next, BoundedKey;
    if calls == [] {
      assert After(calls) == map[];
    } else {
      EntriesAreAttempts(calls[..|calls| - 1], k);
      CallEntries(After(calls[..|calls| - 1]), calls[|calls| - 1], k);
      hide After;
      AttemptedStep(calls, k);
    }
  }

  lemma AttemptedStep(calls: seq<Call>, k: string)
    requires calls != []
    ensures var c := calls[|calls| - 1];
            Attempted(calls, k) <==> Attempted(calls[..|calls| - 1], k) || (!c.CallAtLimit? && BoundedKey(c.key) == k)
  {
    hide BoundedKey;
    var init := calls[..|calls| - 1];
    assert forall i :: 0 <= i < |init| ==> init[i] == calls[i];
    if Attempted(init, k) {
      var i :| 0 <= i < |init| && !init[i].CallAtLimit? && BoundedKey(init[i].key) == k;
      assert !calls[i].CallAtLimit? && BoundedKey(calls[i].key) == k;
    }
  }

  /** A limit of zero is reached by every key in the log's view. Until there is anything to sweep,
      `at_limit` reports it exactly for the keys that were attempted before. */
  lemma ZeroLimit(calls: seq<Call>, key: string, window: nat, now: nat)
    requires |calls| <= 4096
    ensures var c := CallAtLimit(key, Limit(0, window), now);
            LogAnswer(LogAfter(calls), c) && (Answer(After(calls), c) <==> Attempted(calls, BoundedKey(key)))
  {
    EntriesAreAttempts(calls, BoundedKey(key));
    hide After, LogAfter, BoundedKey, Attempted;
  }

  /** Nor may one key be used with two windows, however close: looking with the shorter one
      forgets an attempt that the longer one still counts. */
  lemma MixedWindowsDiffer(key: string, short: nat, long: nat)
    requires short < long
    ensures var calls := [CallRecord(key, 0), CallAtLimit(key, Limit(1, short), short)];
            var c := CallAllow(key, Limit(1, long), short);
            Answer(After(calls), c) && !LogAnswer(LogAfter(calls), c)
  {
    var first, second := CallRecord(key, 0), CallAtLimit(key, Limit(1, short), short);
    TwoCalls(first, second);
    FirstRecord(key);
    var ws, log := Next(map[], first), LogNext(map[], first);
    ForgetByLooking(ws, log, key, short);
    ForgottenIsAdmitted(Next(ws, second), LogNext(log, second), key, long, short);
    hide *;
  }

  /** Nor a window of more than an hour, whatever the key: recording prunes to the hour. */
  lemma LongWindowsDiffer(key: string, window: nat)
    requires window > 3600
    ensures var calls := [CallRecord(key, 0), CallRecord(key, 3600)];
            var c := CallAllow(key, Limit(2, window), 3600);
            Answer(After(calls), c) && !LogAnswer(LogAfter(calls), c)
  {
    var first, second := CallRecord(key, 0), CallRecord(key, 3600);
    TwoCalls(first, second);
    FirstRecord(key);
    SecondRecord(key);
    ForgottenByHour(Next(Next(map[], first), second), LogNext(LogNext(map[], first), second), key, window);
    hide *;
  }

  /** And calls must reach the mutex in the order of their clock readings, which are taken before:
      when the later of two attempts comes first, the limiter goes on counting the earlier one. */
  lemma ClockBackwardsDiffers(key: string, earlier: nat, later: nat, window: nat)
    requires earlier < later && 1 <= window <= later - earlier
    ensures var calls := [CallRecord(key, later), CallRecord(key, earlier)];
            var c := CallAtLimit(key, Limit(2, window), later);
            Answer(After(calls), c) && !LogAnswer(LogAfter(calls), c)
  {
    var first, second := CallRecord(key, later), CallRecord(key, earlier);
    TwoCalls(first, second);
    LaterFirst(key, earlier, later);
    hide BoundedKey, Next, LogNext, After, LogAfter;
    var all := [later, earlier];
    assert all[..1] == [later] && [later][..0] == [];
    assert Pruned(all, window, later) == all;
    assert Recent([], window, later) == 0 && Recent([later], window, later) == 1 && Recent(all, window, later) == 1;
  }

  lemma LaterFirst(key: string, earlier: nat, later: nat)
    requires earlier < later
    ensures var ws := Next(Next(map[], CallRecord(key, later)), CallRecord(key, earlier));
            BoundedKey(key) in ws && ws[BoundedKey(key)] == [later, earlier]
    ensures At(LogNext(LogNext(map[], CallRecord(key, later)), CallRecord(key, earlier)), key) == [later, earlier]
  {
    hide BoundedKey, Live;
    assert Considered(map[], key, None, later) == [];
    assert [] + [later] == [later];
    var ws := Next(map[], CallRecord(key, later));
    assert ws == map[BoundedKey(key) := [later]] && |ws| == 1;
    assert Pruned([later], MAX_WINDOW, earlier) == [later];
    assert Considered(ws, key, None, earlier) == [later];
    assert [later] + [earlier] == [later, earlier];
  }

  lemma OneCall(a: Call)
    ensures After([a]) == Next(map[], a) && LogAfter([a]) == LogNext(map[], a)
  {
    hide Next, LogNext;
    assert [a][..0] == [];
    assert After([]) == map[] && LogAfter([]) == map[];
  }

  lemma TwoCalls(a: Call, b: Call)
    ensures After([a, b]) == Next(Next(map[], a), b) && LogAfter([a, b]) == LogNext(LogNext(map[], a), b)
  {
    hide Next, LogNext;
    assert [a, b][..1] == [a];
    OneCall(a);
  }

  lemma FirstRecord(key: string)
    ensures Next(map[], CallRecord(key, 0)) == map[BoundedKey(key) := [0]]
    ensures LogNext(map[], CallRecord(key, 0)) == map[key := [0]]
  {
    assert Considered(map[], key, None, 0) == [];
    assert [] + [0] == [0];
  }

  lemma SecondRecord(key: string)
    ensures Next(map[BoundedKey(key) := [0]], CallRecord(key, MAX_WINDOW)) == map[BoundedKey(key) := [MAX_WINDOW]]
    ensures LogNext(map[key := [0]], CallRecord(key, MAX_WINDOW)) == map[key := [0, MAX_WINDOW]]
  {
    hide BoundedKey, Live;
    var ws: Windows := map[BoundedKey(key) := [0]];
    assert |ws| == 1;
    assert [0][1..] == [] && Pruned([0], MAX_WINDOW, MAX_WINDOW) == Pruned([], MAX_WINDOW, MAX_WINDOW) == [];
    assert Considered(ws, key, None, MAX_WINDOW) == [];
    assert [] + [MAX_WINDOW] == [MAX_WINDOW] && [0] + [MAX_WINDOW] == [0, MAX_WINDOW];
  }

  lemma ForgetByLooking(ws: Windows, log: Log, key: string, short: nat)
    requires ws == map[BoundedKey(key) := [0]] && At(log, key) == [0]
    ensures At(Next(ws, CallAtLimit(key, Limit(1, short), short)), BoundedKey(key)) == []
    ensures At(LogNext(log, CallAtLimit(key, Limit(1, short), short)), key) == [0]
  {
    hide BoundedKey;
    assert [0][1..] == [] && Pruned([0], short, short) == Pruned([], short, short) == [];
  }

  lemma ForgottenIsAdmitted(ws: Windows, log: Log, key: string, long: nat, now: nat)
    requires At(ws, BoundedKey(key)) == [] && At(log, key) == [0] && now < long
    ensures Answer(ws, CallAllow(key, Limit(1, long), now))
    ensures !LogAnswer(log, CallAllow(key, Limit(1, long), now))
  {
    assert Recent([0], long, now) == 1 by { assert [0][..0] == []; }
    hide Live, BoundedKey;
    assert Considered(ws, key, Some(Limit(1, long)), now) == [];
  }

  lemma ForgottenByHour(ws: Windows, log: Log, key: string, window: nat)
    requires ws == map[BoundedKey(key) := [MAX_WINDOW]] && At(log, key) == [0, MAX_WINDOW] && window > MAX_WINDOW
    ensures Answer(ws, CallAllow(key, Limit(2, window), MAX_WINDOW))
    ensures !LogAnswer(log, CallAllow(key, Limit(2, window), MAX_WINDOW))
  {
    assert [0, MAX_WINDOW][..1] == [0] && [0][..0] == [];
    assert Recent([0], window, MAX_WINDOW) == 1 && Recent([0, MAX_WINDOW], window, MAX_WINDOW) == 2;
    hide Live, BoundedKey;
    assert |ws| == 1;
    assert |Considered(ws, key, Some(Limit(2, window)), MAX_WINDOW)| <= 1;
  }
}
