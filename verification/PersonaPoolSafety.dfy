/**
 What the session pool promises over whole runs: a session in use keeps its persona, a
 bound domain keeps its session, the concurrency cap holds, and no two sessions share a
 seed. Where a promise fails, the exact condition is stated.
 */
module PersonaPoolSafety {
  import opened Wrappers
  import opened PersonaPoolSpec

  // ------------------------------------------------------------------ personas in use

  /** The only step that gives a live session another persona. */
  predicate Rotates(p: Pool, e: Event, id: nat)
    requires id in p.sessions
  {
    e.Rotate? && e.id == id && p.sessions[id].inFlight == 0
  }

  /** No step removes a session, and only a rotation of an idle session replaces its
      persona; in particular a session in use is never rotated or overwritten. */
  lemma StepKeepsPersonas(p: Pool, e: Event, id: nat)
    requires Inv(p) && id in p.sessions
    ensures id in Step(p, e).sessions
    ensures !Rotates(p, e, id) ==>
              && Step(p, e).sessions[id].seed == p.sessions[id].seed
              && Step(p, e).sessions[id].identity == p.sessions[id].identity
              && (p.sessions[id].burned ==> Step(p, e).sessions[id].burned)
    ensures Rotates(p, e, id) ==> Step(p, e).sessions[id] == Build(p.config, id, Draw(p.nextSeed))
  {
    hide Draw, Chosen, FirstFree, PickOk;
    if e.Acquire? {
      hide Build;
      AcquireKeepsPersonas(p, e.domain, e.pick, e.newId, id);
    } else if e.Restore? {
      hide Build;
      FirstFreeIsWord(p, e.newId);
    }
  }

  lemma AcquireKeepsPersonas(p: Pool, domain: string, pick: Option<nat>, newId: nat, id: nat)
    requires id in p.sessions
    ensures var q := Step(p, Acquire(domain, pick, newId));
            && id in q.sessions && q.sessions[id].burned == p.sessions[id].burned
            && q.sessions[id].seed == p.sessions[id].seed && q.sessions[id].identity == p.sessions[id].identity
  {
    hide Draw, Chosen, FirstFree, PickOk, Build, ShouldRotate;
    FirstFreeIsWord(p, newId);
  }

  /** The session is in use in every state of the run but possibly the last. */
  ghost predicate BusyThroughout(p: Pool, es: seq<Event>, id: nat)
    decreases |es|
  {
    es == [] ||
    (BusyThroughout(p, es[..|es| - 1], id) &&
     id in Run(p, es[..|es| - 1]).sessions && Run(p, es[..|es| - 1]).sessions[id].inFlight > 0)
  }

  lemma {:induction false} BusySessionKeepsPersona(p: Pool, es: seq<Event>, id: nat)
    requires Inv(p) && id in p.sessions && BusyThroughout(p, es, id)
    ensures id in Run(p, es).sessions
    ensures Run(p, es).sessions[id].seed == p.sessions[id].seed
    ensures Run(p, es).sessions[id].identity == p.sessions[id].identity
    decreases |es|
  {
    hide Inv, Step;
    if es == [] {
    } else {
      var n := |es| - 1;
      RunKeepsInv(p, es[..n]);
      BusySessionKeepsPersona(p, es[..n], id);
      StepKeepsPersonas(Run(p, es[..n]), es[n], id);
    }
  }

  // ------------------------------------------------------------------ acquisition

  /** A granted acquisition hands out a live, unburned session and counts the request on it. */
  lemma AcquiredIsUnburned(p: Pool, domain: string, pick: Option<nat>, newId: nat)
    requires Inv(p)
    requires Enabled(p, Acquire(domain, pick, newId)) && Outcome(p, Acquire(domain, pick, newId)).Ok?
    ensures var id, q := Outcome(p, Acquire(domain, pick, newId)).value, Step(p, Acquire(domain, pick, newId));
            && id in q.sessions && !q.sessions[id].burned
            && (id in p.sessions ==> q.sessions[id].inFlight == (p.sessions[id].inFlight + 1) % 0x1_0000_0000)
            && (id !in p.sessions ==> q.sessions[id].inFlight == 1)
  {
    hide Draw, Chosen, FirstFree;
    ReusedIsLive(p, domain, pick);
    FirstFreeIsWord(p, newId);
  }

  /** The in-flight count of a session; a session not in the pool is idle. */
  function InFlight(p: Pool, id: nat): nat {
    if id in p.sessions then p.sessions[id].inFlight else 0
  }

  /** Releasing what was acquired gives the in-flight count back, exactly when counting the
      request did not wrap it; other sessions, bindings and quarantine stay as acquired. */
  lemma ReleaseUndoesAcquire(p: Pool, domain: string, pick: Option<nat>, newId: nat)
    requires Inv(p)
    requires Enabled(p, Acquire(domain, pick, newId)) && Outcome(p, Acquire(domain, pick, newId)).Ok?
    ensures var id, q := Outcome(p, Acquire(domain, pick, newId)).value, Step(p, Acquire(domain, pick, newId));
            var r := Step(q, Release(id));
            && (InFlight(r, id) == InFlight(p, id) <==> InFlight(p, id) + 1 != 0x1_0000_0000)
            && r == q.(sessions := q.sessions[id := q.sessions[id].(inFlight := InFlight(r, id))])
  {
    hide Draw, Chosen, FirstFree, Inv, Reused;
    AcquiredIsUnburned(p, domain, pick, newId);
    InFlightFits(p, Outcome(p, Acquire(domain, pick, newId)).value);
  }

  lemma InFlightFits(p: Pool, id: nat)
    requires Inv(p)
    ensures InFlight(p, id) < HALF_WORD
  {
  }

  lemma ChosenSettles(config: Config, sessions: map<nat, Session>, counter: nat)
    ensures var chosen := Chosen(config, sessions, counter);
            && counter <= chosen <= counter + RETRIES
            && (chosen < counter + RETRIES ==> !Clashes(config, sessions, chosen))
            && (forall c | counter <= c < chosen :: Clashes(config, sessions, c))
  {
    hide Clashes;
    var clashes := (c: nat) => Clashes(config, sessions, c);
    var chosen := Chosen(config, sessions, counter);
    assert chosen == Settled(clashes, counter, RETRIES);
    forall c: nat | counter <= c < chosen
      ensures Clashes(config, sessions, c)
    {
      assert clashes(c);
    }
  }

  // ------------------------------------------------------------------ sticky domains

  predicate Fresh(p: Pool) {
    p.rotation.requestCount == 0 && p.rotation.previousTarget.None?
  }

  /** Once the pool has served a request, a step moves a domain's binding only by burning
      its session or by rotating another session onto the domain. */
  predicate Rebinds(p: Pool, e: Event, domain: string)
    requires domain in p.bindings
  {
    || (e.Burn? && e.id == p.bindings[domain])
    || (e.Rotate? && e.domain == domain && e.id != p.bindings[domain]
        && e.id in p.sessions && p.sessions[e.id].inFlight == 0)
  }

  lemma StepKeepsBinding(p: Pool, e: Event, domain: string)
    requires Inv(p) && p.config.policy.PerSession? && !Fresh(p) && p.rotation.previousTarget.Some?
    requires domain in p.bindings
    ensures (domain in Step(p, e).bindings && Step(p, e).bindings[domain] == p.bindings[domain])
            <==> !Rebinds(p, e, domain)
    ensures Step(p, e).rotation.previousTarget.Some? && Step(p, e).config == p.config
  {
    hide Draw, Chosen, FirstFree, PickOk;
  }

  /** Acquiring a bound domain returns its session exactly when the pool is not fresh. */
  lemma BoundDomainIsReused(p: Pool, domain: string, pick: Option<nat>, newId: nat)
    requires Inv(p) && p.config.policy.PerSession? && domain in p.bindings
    requires Enabled(p, Acquire(domain, pick, newId))
    ensures Outcome(p, Acquire(domain, pick, newId)) == Ok(p.bindings[domain]) <==> !Fresh(p)
  {
    hide Draw, Chosen, FirstFree, PickOk;
    FirstFreeIsWord(p, newId);
  }

  ghost predicate NeverRebinds(p: Pool, es: seq<Event>, domain: string, id: nat)
    decreases |es|
  {
    es == [] ||
    (NeverRebinds(p, es[..|es| - 1], domain, id) &&
     (var e := es[|es| - 1];
      !(e.Burn? && e.id == id) && !(e.Rotate? && e.domain == domain && e.id != id)))
  }

  /** Sticky identity: until its session is burned or the domain is rotated onto another
      one, every acquisition of the domain returns the same session. */
  lemma {:induction false} DomainSticks(p: Pool, es: seq<Event>, domain: string, pick: Option<nat>, newId: nat)
    requires Inv(p) && p.config.policy.PerSession? && p.rotation.previousTarget.Some?
    requires domain in p.bindings && NeverRebinds(p, es, domain, p.bindings[domain])
    requires Enabled(Run(p, es), Acquire(domain, pick, newId))
    ensures Outcome(Run(p, es), Acquire(domain, pick, newId)) == Ok(p.bindings[domain])
  {
    BindingSticks(p, es, domain);
    RunKeepsInv(p, es);
    BoundDomainIsReused(Run(p, es), domain, pick, newId);
  }

  lemma {:induction false} BindingSticks(p: Pool, es: seq<Event>, domain: string)
    requires Inv(p) && p.config.policy.PerSession? && p.rotation.previousTarget.Some?
    requires domain in p.bindings && NeverRebinds(p, es, domain, p.bindings[domain])
    ensures var q := Run(p, es);
            && domain in q.bindings && q.bindings[domain] == p.bindings[domain]
            && q.rotation.previousTarget.Some? && q.config == p.config
    decreases |es|
  {
    hide Inv, Step;
    if es == [] {
    } else {
      var n := |es| - 1;
      RunKeepsInv(p, es[..n]);
      BindingSticks(p, es[..n], domain);
      StepKeepsBinding(Run(p, es[..n]), es[n], domain);
    }
  }

  // ------------------------------------------------------------------ the cap

  /** At the cap, an acquisition adds a session exactly when its domain is bound and the
      policy rotates: the cap check looks only at unbound domains. */
  lemma CapIsExceededExactly(p: Pool, domain: string, pick: Option<nat>, newId: nat)
    requires Inv(p) && p.config.maxSessions > 0 && |p.sessions| >= p.config.maxSessions
    requires Enabled(p, Acquire(domain, pick, newId))
    ensures |Step(p, Acquire(domain, pick, newId)).sessions| > |p.sessions|
            <==> domain in p.bindings && ShouldRotate(p.config.policy, p.rotation, domain)
  {
    FirstFreeIsWord(p, newId);
    ReusedIsLive(p, domain, pick);
    if Outcome(p, Acquire(domain, pick, newId)).Ok? {
      hide Step, Use, Create, FirstFree;
      AcquireEffect(p, domain, pick, newId);
      assert |p.sessions.Keys| == |p.sessions|;
    }
  }

  /** A restore adds a session exactly when its seed is not quarantined, whatever the cap. */
  lemma RestoreIgnoresCap(p: Pool, snap: Snapshot, newId: nat)
    requires Inv(p) && Enabled(p, Restore(snap, newId))
    ensures |Step(p, Restore(snap, newId)).sessions| == |p.sessions| + (if snap.seed in p.quarantine then 0 else 1)
  {
    hide FirstFree;
    FirstFreeIsWord(p, newId);
    var q := Step(p, Restore(snap, newId));
    if snap.seed !in p.quarantine {
      var at := Outcome(p, Restore(snap, newId)).value;
      assert at !in p.sessions && q.sessions.Keys == p.sessions.Keys + {at};
      assert |q.sessions| == |q.sessions.Keys| && |p.sessions| == |p.sessions.Keys|;
    }
  }

  /** The steps that add a session to a full pool. */
  predicate PassesCap(p: Pool, e: Event) {
    match e
    case Acquire(domain, _, _) => domain in p.bindings && ShouldRotate(p.config.policy, p.rotation, domain)
    case Restore(snap, _) => snap.seed !in p.quarantine
    case _ => false
  }

  predicate WithinLimit(p: Pool) {
    p.config.maxSessions > 0 ==> |p.sessions| <= p.config.maxSessions
  }

  /** A step takes a pool over its cap exactly when the pool is full and the step is an
      acquisition for a bound domain under a rotating policy, or a restore. */
  lemma StepKeepsLimitExactly(p: Pool, e: Event)
    requires Inv(p) && WithinLimit(p) && Enabled(p, e)
    ensures Step(p, e).config == p.config
    ensures WithinLimit(Step(p, e))
        <==> !(p.config.maxSessions > 0 && |p.sessions| == p.config.maxSessions && PassesCap(p, e))
  {
    hide Inv, Step, Enabled, ShouldRotate;
    match e
    case Acquire(domain, pick, newId) =>
      AcquireGrowsByOne(p, e);
      if p.config.maxSessions > 0 && |p.sessions| == p.config.maxSessions {
        CapIsExceededExactly(p, domain, pick, newId);
      }
    case Restore(snap, newId) =>
      RestoreIgnoresCap(p, snap, newId);
      OtherStepsAddNone(p, e);
    case _ =>
      OtherStepsAddNone(p, e);
  }

  lemma OtherStepsAddNone(p: Pool, e: Event)
    requires !e.Acquire?
    ensures Step(p, e).config == p.config
    ensures !e.Restore? ==> |Step(p, e).sessions| == |p.sessions|
  {
    hide Draw, PickOk, FirstFree;
    if !e.Restore? {
      assert Step(p, e).sessions.Keys == p.sessions.Keys;
      assert |Step(p, e).sessions| == |Step(p, e).sessions.Keys| && |p.sessions| == |p.sessions.Keys|;
    }
  }

  /** Every event of the run can happen where it happens. */
  ghost predicate AllEnabled(p: Pool, es: seq<Event>)
    decreases |es|
  {
    es == [] || (AllEnabled(p, es[..|es| - 1]) && Enabled(Run(p, es[..|es| - 1]), es[|es| - 1]))
  }

  /** The cap holds in every state of the run. */
  ghost predicate WithinAlong(p: Pool, es: seq<Event>)
    decreases |es|
  {
    WithinLimit(Run(p, es)) && (es != [] ==> WithinAlong(p, es[..|es| - 1]))
  }

  /** No step of the run finds a full pool and passes its cap. */
  ghost predicate NeverPasses(p: Pool, es: seq<Event>)
    decreases |es|
  {
    es == [] ||
    var q := Run(p, es[..|es| - 1]);
    && NeverPasses(p, es[..|es| - 1])
    && !(p.config.maxSessions > 0 && |q.sessions| == p.config.maxSessions && PassesCap(q, es[|es| - 1]))
  }

  /** Over any run, restores included, the cap holds in every state exactly when no step
      passes it from a full pool. */
  lemma {:induction false} CapHoldsExactly(p: Pool, es: seq<Event>)
    requires Inv(p) && WithinLimit(p) && AllEnabled(p, es)
    ensures WithinAlong(p, es) <==> NeverPasses(p, es)
    ensures Run(p, es).config == p.config
    decreases |es|
  {
    hide Inv, Step, Enabled, PassesCap, WithinLimit;
    if es == [] {
    } else {
      var m := |es| - 1;
      var q := Run(p, es[..m]);
      CapHoldsExactly(p, es[..m]);
      RunKeepsInv(p, es[..m]);
      ConfigStays(q, es[m]);
      if WithinLimit(q) {
        StepKeepsLimitExactly(q, es[m]);
      }
    }
  }

  lemma ConfigStays(p: Pool, e: Event)
    ensures Step(p, e).config == p.config
  {
    hide Draw, PickOk, FirstFree, Enabled;
  }

  predicate SteadyPolicy(policy: RotationPolicy) {
    policy.Never? || policy.PerSession? || policy == PerRequests(0)
  }

  ghost predicate NoRestore(es: seq<Event>) {
    forall i | 0 <= i < |es| :: !es[i].Restore?
  }

  /** Within the cap, and empty until something was acquired. */
  ghost predicate WithinCap(p: Pool) {
    && (p.config.maxSessions > 0 ==> |p.sessions| <= p.config.maxSessions)
    && (p.rotation.previousTarget.None? ==> p.sessions == map[])
  }

  /** A steady policy rotates a bound domain in no state that has served a request. */
  lemma SteadyKeepsBound(p: Pool, domain: string)
    requires Inv(p) && WithinCap(p) && SteadyPolicy(p.config.policy) && domain in p.bindings
    ensures !ShouldRotate(p.config.policy, p.rotation, domain)
  {
  }

  lemma AcquireEffect(p: Pool, domain: string, pick: Option<nat>, newId: nat)
    requires Enabled(p, Acquire(domain, pick, newId)) && Outcome(p, Acquire(domain, pick, newId)).Ok?
    ensures var q := Step(p, Acquire(domain, pick, newId));
            && q.sessions.Keys == (if Reused(p, domain, pick).Some? then p.sessions.Keys else p.sessions.Keys + {newId})
            && q.rotation.previousTarget == Some(domain) && q.config == p.config
  {
    hide Draw, Chosen, FirstFree, ShouldRotate;
    ReusedIsLive(p, domain, pick);
  }

  lemma AcquireGrowsByOne(p: Pool, e: Event)
    requires e.Acquire?
    ensures |Step(p, e).sessions| <= |p.sessions| + 1
    ensures Step(p, e) == p || Step(p, e).rotation.previousTarget.Some?
    ensures Step(p, e).config == p.config
  {
    if Enabled(p, e) && Outcome(p, e).Ok? {
      hide Step, Enabled, Outcome, Reused;
      AcquireEffect(p, e.domain, e.pick, e.newId);
      assert |Step(p, e).sessions| == |Step(p, e).sessions.Keys|;
    }
  }

  lemma AcquireStaysWithinCap(p: Pool, e: Event)
    requires Inv(p) && WithinCap(p) && SteadyPolicy(p.config.policy) && e.Acquire?
    ensures WithinCap(Step(p, e)) && Step(p, e).config == p.config
  {
    hide Inv, Enabled, ShouldRotate, Step;
    AcquireGrowsByOne(p, e);
    if !Enabled(p, e) {
      DisabledDoesNothing(p, e);
    } else if p.config.maxSessions > 0 && |p.sessions| >= p.config.maxSessions {
      CapIsExceededExactly(p, e.domain, e.pick, e.newId);
      if e.domain in p.bindings {
        SteadyKeepsBound(p, e.domain);
      }
    }
  }

  lemma DisabledDoesNothing(p: Pool, e: Event)
    requires !Enabled(p, e)
    ensures Step(p, e) == p
  {
  }

  lemma StepStaysWithinCap(p: Pool, e: Event)
    requires Inv(p) && WithinCap(p) && SteadyPolicy(p.config.policy) && !e.Restore?
    ensures WithinCap(Step(p, e)) && Step(p, e).config == p.config
  {
    if e.Acquire? {
      hide *;
      AcquireStaysWithinCap(p, e);
    } else {
      hide Draw, Inv, PickOk, Enabled;
      assert Step(p, e).sessions.Keys == p.sessions.Keys;
    }
  }

  /** Without restores, a policy that never rotates a bound domain keeps the cap. */
  lemma {:induction false} CapHolds(config: Config, es: seq<Event>)
    requires SteadyPolicy(config.policy) && NoRestore(es)
    ensures WithinCap(Run(New(config), es)) && Run(New(config), es).config == config
    decreases |es|
  {
    hide Inv, Step;
    if es == [] {
    } else {
      var n := |es| - 1;
      NewKeepsInv(config);
      RunKeepsInv(New(config), es[..n]);
      CapHolds(config, es[..n]);
      StepStaysWithinCap(Run(New(config), es[..n]), es[n]);
    }
  }
}
