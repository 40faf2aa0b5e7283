/**
 When an acquisition opens a session, for each rotation policy, in terms of the requests
 made: what the policy and the pool's own counters say is left out of the statements.
 */
module PersonaPoolRotation {
  import opened Wrappers
  import opened PersonaPoolSpec
  import opened PersonaPoolSafety

  /** The acquisition is granted the session with that id. */
  ghost predicate Grants(p: Pool, e: Event, id: nat) {
    Enabled(p, e) && Outcome(p, e) == Ok(id)
  }

  /** It is granted a session that was not there before. */
  ghost predicate OpensNew(p: Pool, e: Event) {
    Enabled(p, e) && Outcome(p, e).Ok? && Outcome(p, e).value !in p.sessions
  }

  /** An acquisition is refused exactly at a positive cap, for a domain without a session. */
  lemma RefusedExactly(p: Pool, domain: string, pick: Option<nat>, newId: nat)
    requires Enabled(p, Acquire(domain, pick, newId))
    ensures var max, outcome := p.config.maxSessions, Outcome(p, Acquire(domain, pick, newId));
            && (outcome.Err? <==> max > 0 && |p.sessions| >= max && domain !in p.bindings)
            && (outcome.Err? ==> outcome.error == AtCapacity(max))
  {
    hide Reused, PickOk, FirstFree;
  }

  /** Which session a granted acquisition gets, by policy: a new one, the domain's, or
      under Never any unburned one. */
  lemma GrantedExactly(p: Pool, domain: string, pick: Option<nat>, newId: nat)
    requires Inv(p) && Enabled(p, Acquire(domain, pick, newId)) && Outcome(p, Acquire(domain, pick, newId)).Ok?
    ensures var e, count, last := Acquire(domain, pick, newId), p.rotation.requestCount, p.rotation.previousTarget;
            && (p.config.policy.Never? ==> (OpensNew(p, e) <==> forall id | id in p.sessions :: p.sessions[id].burned))
            && (p.config.policy.PerSession? ==>
                  (OpensNew(p, e) <==> domain !in p.bindings || (count == 0 && last.None?)))
            && (p.config.policy.PerTarget? ==> (OpensNew(p, e) <==> domain !in p.bindings || last != Some(domain)))
            && (p.config.policy.PerRequests? ==>
                  var n := p.config.policy.n;
                  (OpensNew(p, e) <==> domain !in p.bindings || (n > 0 && count % n == 0)))
            && (!p.config.policy.Never? && !OpensNew(p, e) ==>
                  domain in p.bindings && Grants(p, e, p.bindings[domain]))
  {
    hide Draw, Chosen, FirstFree;
    FirstFreeIsWord(p, newId);
  }

  // ------------------------------------------------------------------ what an acquisition leaves behind

  /** The domain is the last one served, and has the session. */
  ghost predicate Serving(p: Pool, domain: string, id: nat) {
    && p.rotation.previousTarget == Some(domain)
    && domain in p.bindings && p.bindings[domain] == id
  }

  lemma GrantLeaves(p: Pool, domain: string, pick: Option<nat>, newId: nat, id: nat)
    requires Inv(p) && Grants(p, Acquire(domain, pick, newId), id)
    ensures var q := Step(p, Acquire(domain, pick, newId));
            && q.config == p.config && id in q.sessions
            && q.rotation.previousTarget == Some(domain)
            && q.rotation.requestCount == (p.rotation.requestCount + 1) % 0x1_0000_0000_0000_0000
            && (!p.config.policy.Never? ==> domain in q.bindings && q.bindings[domain] == id)
            && (forall d | d in p.bindings && d != domain :: d in q.bindings && q.bindings[d] == p.bindings[d])
            && (forall d | d in q.bindings && d != domain :: d in p.bindings)
  {
    hide Draw, Chosen, FirstFree, PickOk, ShouldRotate;
    ReusedIsLive(p, domain, pick);
  }

  // ------------------------------------------------------------------ PerTarget

  /** Nothing burns the session, moves the domain to another, or serves another domain. */
  predicate KeepsServing(e: Event, domain: string, id: nat) {
    && !(e.Burn? && e.id == id)
    && !(e.Rotate? && e.domain == domain && e.id != id)
    && !(e.Acquire? && e.domain != domain)
  }

  lemma ServingStep(p: Pool, e: Event, domain: string, id: nat)
    requires Inv(p) && p.config.policy.PerTarget? && Serving(p, domain, id) && KeepsServing(e, domain, id)
    ensures Serving(Step(p, e), domain, id) && Step(p, e).config == p.config
  {
    hide Draw, Chosen, FirstFree, Inv;
    if e.Acquire? {
      if Enabled(p, e) && Outcome(p, e).Ok? {
        hide Step, Enabled, Outcome;
        SameTargetIsReused(p, domain, e.pick, e.newId);
        GrantLeaves(p, domain, e.pick, e.newId, Outcome(p, e).value);
      }
    } else {
      hide PickOk;
    }
  }

  lemma SameTargetIsReused(p: Pool, domain: string, pick: Option<nat>, newId: nat)
    requires Inv(p) && p.config.policy.PerTarget? && p.rotation.previousTarget == Some(domain) && domain in p.bindings
    requires Enabled(p, Acquire(domain, pick, newId))
    ensures Outcome(p, Acquire(domain, pick, newId)) == Ok(p.bindings[domain])
  {
    hide Draw, FirstFree, PickOk;
  }

  lemma {:induction false} ServingRun(p: Pool, es: seq<Event>, domain: string, id: nat)
    requires Inv(p) && p.config.policy.PerTarget? && Serving(p, domain, id)
    requires forall i | 0 <= i < |es| :: KeepsServing(es[i], domain, id)
    ensures Serving(Run(p, es), domain, id) && Run(p, es).config == p.config && Inv(Run(p, es))
    decreases |es|
  {
    hide Inv, Step, Serving, KeepsServing;
    if es == [] {
    } else {
      var m := |es| - 1;
      ServingRun(p, es[..m], domain, id);
      ServingStep(Run(p, es[..m]), es[m], domain, id);
      StepKeepsInv(Run(p, es[..m]), es[m]);
    }
  }

  /** Under PerTarget a domain keeps the session it was granted, whatever happens but a burn
      of it, a rotation of another session onto the domain, or a request for another. */
  lemma SameTargetSameSession(p: Pool, domain: string, pick: Option<nat>, newId: nat, id: nat, es: seq<Event>,
                              pick': Option<nat>, newId': nat)
    requires Inv(p) && p.config.policy.PerTarget? && Grants(p, Acquire(domain, pick, newId), id)
    requires forall i | 0 <= i < |es| :: KeepsServing(es[i], domain, id)
    requires Enabled(Run(Step(p, Acquire(domain, pick, newId)), es), Acquire(domain, pick', newId'))
    ensures Outcome(Run(Step(p, Acquire(domain, pick, newId)), es), Acquire(domain, pick', newId')) == Ok(id)
  {
    hide Inv, Step, Run, Enabled, Outcome, KeepsServing;
    var q := Step(p, Acquire(domain, pick, newId));
    GrantLeaves(p, domain, pick, newId, id);
    StepKeepsInv(p, Acquire(domain, pick, newId));
    ServingRun(q, es, domain, id);
    SameTargetIsReused(Run(q, es), domain, pick', newId');
  }

  /** The run serves no domain. */
  predicate ServesNobody(es: seq<Event>) {
    forall i | 0 <= i < |es| :: !es[i].Acquire?
  }

  lemma {:induction false} TargetStays(p: Pool, es: seq<Event>)
    requires Inv(p) && ServesNobody(es)
    ensures Run(p, es).rotation.previousTarget == p.rotation.previousTarget && Run(p, es).config == p.config
    ensures Inv(Run(p, es))
    decreases |es|
  {
    hide Inv, Step;
    if es == [] {
    } else {
      var m := |es| - 1;
      TargetStays(p, es[..m]);
      OthersKeepTarget(Run(p, es[..m]), es[m]);
      StepKeepsInv(Run(p, es[..m]), es[m]);
    }
  }

  lemma OthersKeepTarget(p: Pool, e: Event)
    requires !e.Acquire?
    ensures Step(p, e).rotation.previousTarget == p.rotation.previousTarget && Step(p, e).config == p.config
  {
    hide Draw, FirstFree, PickOk;
  }

  /** Under PerTarget a granted request for a domain other than the last one served opens a
      session, whether or not the domain had one. */
  lemma OtherTargetOpens(p: Pool, domain: string, pick: Option<nat>, newId: nat, id: nat, es: seq<Event>,
                         other: string, pick': Option<nat>, newId': nat)
    requires Inv(p) && p.config.policy.PerTarget? && Grants(p, Acquire(domain, pick, newId), id)
    requires ServesNobody(es) && other != domain
    requires Enabled(Run(Step(p, Acquire(domain, pick, newId)), es), Acquire(other, pick', newId'))
    requires Outcome(Run(Step(p, Acquire(domain, pick, newId)), es), Acquire(other, pick', newId')).Ok?
    ensures OpensNew(Run(Step(p, Acquire(domain, pick, newId)), es), Acquire(other, pick', newId'))
  {
    hide Inv, Step, Run, Enabled, Outcome, OpensNew;
    GrantLeaves(p, domain, pick, newId, id);
    StepKeepsInv(p, Acquire(domain, pick, newId));
    TargetStays(Step(p, Acquire(domain, pick, newId)), es);
    GrantedExactly(Run(Step(p, Acquire(domain, pick, newId)), es), other, pick', newId');
  }

  // ------------------------------------------------------------------ PerRequests

  /** Requests and releases only. */
  predicate Using(es: seq<Event>) {
    forall i | 0 <= i < |es| :: es[i].Acquire? || es[i].Release?
  }

  /** How many requests of the run are granted. */
  ghost function Served(p: Pool, es: seq<Event>): nat
    decreases |es|
  {
    if es == [] then 0
    else
      var m := |es| - 1;
      var q := Run(p, es[..m]);
      Served(p, es[..m]) + if es[m].Acquire? && Enabled(q, es[m]) && Outcome(q, es[m]).Ok? then 1 else 0
  }

  /** Some granted request of the run is for the domain. */
  ghost predicate WasServed(p: Pool, es: seq<Event>, domain: string)
    decreases |es|
  {
    es != [] &&
    var m := |es| - 1;
    var q := Run(p, es[..m]);
    || WasServed(p, es[..m], domain)
    || (es[m].Acquire? && es[m].domain == domain && Enabled(q, es[m]) && Outcome(q, es[m]).Ok?)
  }

  /** The counter counts the granted requests, and the bound domains are those served. */
  ghost predicate Counts(p: Pool, es: seq<Event>) {
    && Run(p, es).config == p.config && Inv(Run(p, es))
    && Run(p, es).rotation.requestCount == Served(p, es) % 0x1_0000_0000_0000_0000
    && forall d :: d in Run(p, es).bindings <==> WasServed(p, es, d)
  }

  lemma {:induction false} RequestsAreCounted(config: Config, es: seq<Event>)
    requires Using(es) && !config.policy.Never?
    ensures Counts(New(config), es)
    decreases |es|
  {
    hide Inv, Step, Enabled, Outcome;
    var start := New(config);
    if es == [] {
      NewKeepsInv(config);
    } else {
      var m := |es| - 1;
      RequestsAreCounted(config, es[..m]);
      var q, e := Run(start, es[..m]), es[m];
      StepKeepsInv(q, e);
      if e.Acquire? && Enabled(q, e) && Outcome(q, e).Ok? {
        GrantLeaves(q, e.domain, e.pick, e.newId, Outcome(q, e).value);
        NextCount(Served(start, es[..m]));
      } else {
        NothingServed(q, e);
      }
    }
  }

  lemma NextCount(n: nat)
    ensures (n % 0x1_0000_0000_0000_0000 + 1) % 0x1_0000_0000_0000_0000 == (n + 1) % 0x1_0000_0000_0000_0000
  {
  }

  lemma NothingServed(p: Pool, e: Event)
    requires e.Acquire? || e.Release?
    requires !(e.Acquire? && Enabled(p, e) && Outcome(p, e).Ok?)
    ensures var q := Step(p, e);
            q.config == p.config && q.rotation == p.rotation && q.bindings == p.bindings
  {
    hide Draw, FirstFree, PickOk;
  }

  /** Under PerRequests(n), after any requests and releases from an empty pool, a granted
      request opens a session exactly when its domain is new or the number of requests
      granted so far, as a 64-bit word, is a multiple of n (of a positive n). */
  lemma EveryNthOpens(config: Config, es: seq<Event>, domain: string, pick: Option<nat>, newId: nat)
    requires config.policy.PerRequests? && Using(es)
    requires Enabled(Run(New(config), es), Acquire(domain, pick, newId))
    requires Outcome(Run(New(config), es), Acquire(domain, pick, newId)).Ok?
    ensures var n, k := config.policy.n, Served(New(config), es) % 0x1_0000_0000_0000_0000;
            OpensNew(Run(New(config), es), Acquire(domain, pick, newId))
            <==> !WasServed(New(config), es, domain) || (n > 0 && k % n == 0)
  {
    hide Inv, Run, Enabled, Outcome, OpensNew, Served, WasServed;
    RequestsAreCounted(config, es);
    GrantedExactly(Run(New(config), es), domain, pick, newId);
  }

  /** Under PerSession, after any requests and releases from an empty pool, a granted request
      opens a session exactly when its domain is new. */
  lemma NewDomainOpens(config: Config, es: seq<Event>, domain: string, pick: Option<nat>, newId: nat)
    requires config.policy.PerSession? && Using(es)
    requires Enabled(Run(New(config), es), Acquire(domain, pick, newId))
    requires Outcome(Run(New(config), es), Acquire(domain, pick, newId)).Ok?
    ensures OpensNew(Run(New(config), es), Acquire(domain, pick, newId)) <==> !WasServed(New(config), es, domain)
  {
    hide Inv, Run, Enabled, Outcome, OpensNew, Served, WasServed;
    RequestsAreCounted(config, es);
    LastIsServed(config, es);
    GrantedExactly(Run(New(config), es), domain, pick, newId);
  }

  /** Once something was served there is a last target. */
  lemma {:induction false} LastIsServed(config: Config, es: seq<Event>)
    requires Using(es) && !config.policy.Never?
    ensures Run(New(config), es).rotation.previousTarget.None? ==> forall d :: !WasServed(New(config), es, d)
    decreases |es|
  {
    hide Inv, Step, Enabled, Outcome;
    if es == [] {
    } else {
      var m := |es| - 1;
      var q, e := Run(New(config), es[..m]), es[m];
      LastIsServed(config, es[..m]);
      RequestsAreCounted(config, es[..m]);
      if e.Acquire? && Enabled(q, e) && Outcome(q, e).Ok? {
        GrantLeaves(q, e.domain, e.pick, e.newId, Outcome(q, e).value);
      } else {
        NothingServed(q, e);
      }
    }
  }

  // ------------------------------------------------------------------ what makes two identities one

  /** A session's identity is repeated exactly by one with its profile, hardware and time
      zone: each of the three tells identities apart, and nothing else does. */
  lemma ThreeFieldsTell(s: Session, other: Identity)
    ensures ActiveIdentity(map[s.id := s], other)
        <==> s.identity.profile == other.profile && s.identity.hardware == other.hardware
             && s.identity.timezone == other.timezone
  {
    var sessions := map[s.id := s];
    assert s.id in sessions && sessions[s.id] == s;
  }
}
