/** Supply-chain update policy: a repository's mode and cooldown, the credential overrides that
    tighten it, and the gate and approval queue they govern. Times are seconds; a day has 86400. */
module UpdatePolicy {
  import opened Multisets
  import opened Options

  /** `update_mode`, `cooldown_days`. Modes are text. */
  datatype Policy = Policy(mode: string, cooldown: int)

  datatype Override = Override(mode: Option<string>, cooldown: Option<int>)

  predicate ValidMode(m: string) { m == "auto" || m == "delayed" || m == "manual" }

  function Rank(m: string): nat { if m == "manual" then 2 else if m == "delayed" then 1 else 0 }

  /** `PolicyOverride::effective`. A bare cooldown implies a delay. */
  function Effective(o: Override, p: Policy): Policy {
    var cooldown := match o.cooldown case Some(c) => c case None => 0;
    var mode := if o.mode.Some? then o.mode else if cooldown > 0 then Some("delayed") else None;
    Policy(if mode.Some? && Rank(mode.value) > Rank(p.mode) then mode.value else p.mode,
           if cooldown > p.cooldown then cooldown else p.cooldown)
  }

  /** What an override does: the stricter of the two modes, a bare cooldown counting as a delay, and the
      longer of the two cooldowns. */
  lemma EffectiveMeans(o: Override, p: Policy)
    requires p.mode in {"auto", "delayed", "manual"} && (o.mode.Some? ==> o.mode.value in {"auto", "delayed", "manual"})
    ensures var q := Effective(o, p);
            var delays := o.mode == Some("delayed") || (o.mode.None? && o.cooldown.Some? && o.cooldown.value > 0);
            && (q.mode == "manual" <==> p.mode == "manual" || o.mode == Some("manual"))
            && (q.mode == "delayed" <==>
                  p.mode != "manual" && o.mode != Some("manual") && (p.mode == "delayed" || delays))
            && (q.mode == "auto" <==> p.mode == "auto" && o.mode != Some("manual") && !delays)
            && q.cooldown >= p.cooldown && (o.cooldown.Some? ==> q.cooldown >= o.cooldown.value)
            && (q.cooldown == p.cooldown || o.cooldown == Some(q.cooldown) || (o.cooldown.None? && q.cooldown == 0))
  {
  }

  /** Several overrides, one after the other. */
  function EffectiveAll(os: seq<Override>, p: Policy): Policy
    decreases |os|
  {
    if os == [] then p else Effective(os[|os| - 1], EffectiveAll(os[..|os| - 1], p))
  }

  // ----- the order does not matter -----

  lemma EffectiveCommutes(a: Override, b: Override, p: Policy)
    ensures Effective(a, Effective(b, p)) == Effective(b, Effective(a, p))
    ensures Effective(a, Effective(a, p)) == Effective(a, p)
  {
  }

  /** An override in the middle may as well come last. */
  lemma {:induction false} MoveToEnd(u: seq<Override>, x: Override, v: seq<Override>, p: Policy)
    ensures EffectiveAll(u + [x] + v, p) == Effective(x, EffectiveAll(u + v, p))
    decreases |v|
  {
    hide Effective;
    if v == [] {
      assert u + [x] + v == u + [x] && u + v == u;
      assert (u + [x])[..|u|] == u;
    } else {
      var init, last := v[..|v| - 1], v[|v| - 1];
      MoveToEnd(u, x, init, p);
      assert (u + [x] + v)[..|u + [x] + v| - 1] == u + [x] + init;
      assert (u + v)[..|u + v| - 1] == u + init;
      EffectiveCommutes(x, last, EffectiveAll(u + init, p));
    }
  }

  /** Any rearrangement of a list of overrides gives the same policy. */
  lemma {:induction false} OrderDoesNotMatter(a: seq<Override>, b: seq<Override>, p: Policy)
    requires multiset(a) == multiset(b)
    ensures EffectiveAll(a, p) == EffectiveAll(b, p)
    decreases |a|
  {
    hide Effective;
    SameElements(a, b);
    if a == [] {
    } else {
      var init, x := a[..|a| - 1], a[|a| - 1];
      DropLast(a);
      var u, v := TakeOut(b, x);
      OrderDoesNotMatter(init, u + v, p);
      assert b == u + [x] + v;
      MoveToEnd(u, x, v, p);
    }
  }

  // ----- the gate and the queue -----

  datatype Version = Version(yanked: bool, held: bool, approved: bool, released: Option<int>)

  predicate PastCooldown(v: Version, cooldown: int, now: int) {
    v.released.Some? && v.released.value + 86400 * cooldown <= now
  }

  /** `policy_gate`. */
  predicate Served(p: Policy, v: Version, now: int) {
    && !v.yanked && !v.held
    && (p.mode == "auto" || v.approved || (p.mode == "delayed" && PastCooldown(v, p.cooldown, now)))
  }

  /** The operator's queue: `VERSION_FILTER` for the state "pending", under the repository policy. */
  predicate Pending(p: Policy, v: Version, now: int) {
    && !v.held && !v.yanked && !v.approved
    && (p.mode == "manual" || (p.mode == "delayed" && !PastCooldown(v, p.cooldown, now)))
  }

  predicate Withdrawn(v: Version) { v.held || v.yanked }

  /** Whatever `a` serves, `b` serves. */
  ghost predicate Tighter(a: Policy, b: Policy) { forall v, now :: Served(a, v, now) ==> Served(b, v, now) }

  lemma OneTightens(o: Override, p: Policy)
    requires ValidMode(p.mode)
    ensures Tighter(Effective(o, p), p)
    ensures ValidMode(Effective(o, p).mode)
  {
    var q := Effective(o, p);
    forall v, now | Served(q, v, now) ensures Served(p, v, now) {
      CooldownOnlyDelays(v, p.cooldown, q.cooldown, now);
    }
  }

  lemma CooldownOnlyDelays(v: Version, short: int, long: int, now: int)
    requires short <= long
    ensures PastCooldown(v, long, now) ==> PastCooldown(v, short, now)
  {
  }

  lemma {:induction false} AllTighten(os: seq<Override>, p: Policy)
    requires ValidMode(p.mode)
    ensures Tighter(EffectiveAll(os, p), p) && ValidMode(EffectiveAll(os, p).mode)
    decreases |os|
  {
    hide Effective, Served;
    if os == [] {
    } else {
      AllTighten(os[..|os| - 1], p);
      OneTightens(os[|os| - 1], EffectiveAll(os[..|os| - 1], p));
    }
  }

  /** Overrides only ever tighten, exactly for the three modes the database admits; a repository
      with any other mode would be loosened by an override to "delayed". */
  lemma TightenOnlyIff(p: Policy)
    ensures (forall os :: Tighter(EffectiveAll(os, p), p)) <==> ValidMode(p.mode)
  {
    hide EffectiveAll, Tighter, ValidMode;
    if ValidMode(p.mode) {
      forall os ensures Tighter(EffectiveAll(os, p), p) { AllTighten(os, p); }
    } else {
      DelayLoosens(p);
      assert !Tighter(EffectiveAll([Override(Some("delayed"), None)], p), p);
    }
  }

  lemma DelayLoosens(p: Policy)
    requires !ValidMode(p.mode)
    ensures !Tighter(EffectiveAll([Override(Some("delayed"), None)], p), p)
  {
    var o := Override(Some("delayed"), None);
    assert [o][..0] == [];
    var q := EffectiveAll([o], p);
    assert q == Effective(o, p) by { assert EffectiveAll([], p) == p; }
    hide EffectiveAll;
    var v := Version(false, false, false, Some(-86400 * q.cooldown));
    assert Served(q, v, 0) && !Served(p, v, 0);
  }

  /** Exactly one of withdrawn, served and pending. */
  predicate ExactlyOne(p: Policy, v: Version, now: int) {
    && (Withdrawn(v) || Served(p, v, now) || Pending(p, v, now))
    && !(Withdrawn(v) && Served(p, v, now)) && !(Withdrawn(v) && Pending(p, v, now))
      && !(Served(p, v, now) && Pending(p, v, now))
  }

  /** The gate and the approval queue partition what is not withdrawn, again exactly for the
      modes the database admits: an unapproved version under any other mode is nowhere. */
  lemma PartitionIff(p: Policy)
    ensures (forall v, now :: ExactlyOne(p, v, now)) <==> ValidMode(p.mode)
  {
    if !ValidMode(p.mode) {
      assert !ExactlyOne(p, Version(false, false, false, None), 0);
    }
  }
}
