/**
 Runs of the session pool, from an empty one, that break a promise: the cap is passed, two
 sessions come to share an identity, a burned seed is back, and under a policy that never
 rotates two sessions may serve.
 */
module PersonaPoolExamples {
  import opened Wrappers
  import opened PersonaPoolSpec
  import opened PersonaPoolSafety
  import opened PersonaPoolIdentities
  import opened PersonaPoolSeeds
  import opened PersonaPoolReuse

  lemma NothingDone(p: Pool)
    ensures Run(p, []) == p && AllEnabled(p, [])
  {
  }

  lemma OneMore(p: Pool, es: seq<Event>, e: Event)
    ensures Run(p, es + [e]) == Step(Run(p, es), e)
    ensures AllEnabled(p, es + [e]) <==> AllEnabled(p, es) && Enabled(Run(p, es), e)
  {
    assert (es + [e])[..|es|] == es;
  }

  /** With the next id free, an acquisition that reuses nothing opens a session under it. */
  lemma Opens(p: Pool, domain: string, pick: Option<nat>)
    requires PickOk(p, pick) && !AtLimit(p, domain) && Reused(p, domain, pick).None?
    requires p.nextId < WORD && p.nextId !in p.sessions
    ensures var e := Acquire(domain, pick, p.nextId);
            && Enabled(p, e) && Outcome(p, e) == Ok(p.nextId)
            && Step(p, e) == Use(Create(p, domain, p.nextId), p.nextId, domain)
            && IsOpened(p, domain, Step(p, e))
  {
    hide Draw, Chosen, PickOk, AtLimit, Reused;
    assert p.nextId == IdAt(p.nextId, 0) && AllLive(p.sessions.Keys, p.nextId, 0);
  }

  /** What opening a session does, whichever seed it settles on. */
  ghost predicate IsOpened(p: Pool, domain: string, q: Pool) {
    && q.config == p.config && q.quarantine == p.quarantine && q.bindings == p.bindings[domain := p.nextId]
    && (p.nextId + 1 < WORD ==> q.nextId == p.nextId + 1)
    && q.rotation.previousTarget == Some(domain)
    && (p.rotation.requestCount + 1 < WORD ==> q.rotation.requestCount == p.rotation.requestCount + 1)
    && q.sessions.Keys == p.sessions.Keys + {p.nextId}
    && (forall id | id in p.sessions && id != p.nextId :: q.sessions[id] == p.sessions[id])
    && !q.sessions[p.nextId].burned && q.sessions[p.nextId].inFlight == 1
  }

  /** The first candidate serves where it does not clash. */
  lemma OpensAtOnce(p: Pool, domain: string, pick: Option<nat>)
    requires PickOk(p, pick) && !AtLimit(p, domain) && Reused(p, domain, pick).None?
    requires p.nextId < WORD && p.nextId !in p.sessions && p.nextSeed + 1 < WORD
    requires !Clashes(p.config, p.sessions, p.nextSeed)
    ensures var e, seed := Acquire(domain, pick, p.nextId), Draw(p.nextSeed);
            && Enabled(p, e) && IsOpened(p, domain, Step(p, e)) && Step(p, e).nextSeed == p.nextSeed + 1
            && Step(p, e).sessions ==
                 p.sessions[p.nextId := Session(p.nextId, seed, p.config.identify(seed), 1, 1, false)]
  {
    hide Draw, Chosen, PickOk, AtLimit, Reused, Clashes, Step, Enabled, IsOpened;
    Opens(p, domain, pick);
    ChosenAtOnce(p.config, p.sessions, p.nextSeed);
  }

  lemma ChosenAtOnce(config: Config, sessions: map<nat, Session>, counter: nat)
    requires !Clashes(config, sessions, counter)
    ensures Chosen(config, sessions, counter) == counter
  {
    hide Clashes;
    ChosenSettles(config, sessions, counter);
  }

  // ------------------------------------------------------------------ the cap

  /** Room for one session and a rotation at every request: the second acquisition of the
      same domain opens a second session. */
  lemma CapIsPassed(identify: Seed -> Identity)
    ensures var start := New(Config(PerRequests(1), 1, identify));
            var es := [Acquire("d", None, 1), Acquire("d", Some(1), 2)];
            && AllEnabled(start, es)
            && Run(start, es).sessions.Keys == {1, 2} && !WithinLimit(Run(start, es))
  {
    hide Draw, Run, AllEnabled, FirstFree, Step, Use, Create, ShouldRotate;
    var start := New(Config(PerRequests(1), 1, identify));
    var first, second := Acquire("d", None, 1), Acquire("d", Some(1), 2);
    NothingDone(start);
    OneMore(start, [], first);
    OneMore(start, [first], second);
    assert [] + [first] == [first] && [first] + [second] == [first, second];
    EveryRequestRotates(start.rotation, "d");
    Opens(start, "d", None);
    var p := Step(start, first);
    assert p.sessions.Keys == {1} && p.nextId == 2;
    EveryRequestRotates(p.rotation, "d");
    Opens(p, "d", Some(1));
    var q := Step(p, second);
    assert q.sessions.Keys == {1, 2};
    assert |q.sessions| == |q.sessions.Keys| == 2;
  }

  lemma EveryRequestRotates(state: RotationState, target: string)
    ensures ShouldRotate(PerRequests(1), state, target)
  {
  }

  // ------------------------------------------------------------------ identities

  const ONE := Identity("one", 1, "UTC", "")
  const TWO := Identity("two", 2, "UTC", "")
  const THREE := Identity("three", 3, "UTC", "")

  /** The first seed and the third generate one identity. */
  function Alternate(s: Seed): Identity {
    if s == Draw(1) || s == Draw(3) then ONE else if s == Draw(2) then TWO else THREE
  }

  lemma AlternateDraws()
    ensures Alternate(Draw(1)) == ONE == Alternate(Draw(3))
    ensures Alternate(Draw(2)) == TWO && Alternate(Draw(4)) == THREE
  {
    hide Draw;
    forall i, j | 1 <= i < j <= 4
      ensures Draw(i) != Draw(j)
    {
      if Draw(i) == Draw(j) {
        DrawIsInjective(i, j);
      }
    }
  }

  ghost function Alternating(): Pool {
    New(Config(PerTarget, 0, Alternate))
  }

  lemma FirstPersona(p: Pool)
    requires p == Alternating()
    ensures var e, q := Acquire("a", None, 1), Step(p, Acquire("a", None, 1));
            && Enabled(p, e) && q.config == p.config && q.rotation == RotationState(Some("a"), 1)
            && q.sessions == map[1 := Session(1, Draw(1), ONE, 1, 1, false)] && q.nextId == 2 && q.nextSeed == 2
  {
    hide Draw, Alternate, Clashes, Step, Enabled;
    NobodyClashes(p.config, 1);
    OpensAtOnce(p, "a", None);
    AlternateDraws();
  }

  lemma NobodyClashes(config: Config, counter: nat)
    ensures !Clashes(config, map[], counter)
  {
  }

  /** A seed clashes with the one or two identities there are. */
  lemma FewClash(config: Config, sessions: map<nat, Session>, counter: nat, identity: Identity)
    requires identity == config.identify(Draw(counter)) && sessions.Keys <= {1, 2}
    ensures Clashes(config, sessions, counter)
            <==> || (1 in sessions && SameIdentity(sessions[1].identity, identity))
                 || (2 in sessions && SameIdentity(sessions[2].identity, identity))
  {
    hide Draw, SameIdentity;
  }

  lemma SecondPersona(p: Pool)
    requires p.config == Alternating().config && p.rotation == RotationState(Some("a"), 1)
    requires p.sessions == map[1 := Session(1, Draw(1), ONE, 1, 1, false)] && p.nextId == 2 && p.nextSeed == 2
    ensures var e, q := Acquire("b", Some(1), 2), Step(p, Acquire("b", Some(1), 2));
            && Enabled(p, e) && q.config == p.config && q.nextSeed == 3
            && q.sessions == p.sessions[2 := Session(2, Draw(2), TWO, 1, 1, false)]
  {
    hide Draw, Alternate, Clashes, Step, Enabled;
    AlternateDraws();
    FewClash(p.config, p.sessions, 2, TWO);
    OpensAtOnce(p, "b", Some(1));
  }

  /** Two domains, two sessions with different identities; rotating the idle second one
      gives it the first one's identity, where opening a session would not have. */
  lemma RotationRepeatsIdentity()
    ensures var es := [Acquire("a", None, 1), Acquire("b", Some(1), 2), Release(2)];
            var p := Run(Alternating(), es);
            && AllEnabled(Alternating(), es) && DistinctIdentities(p)
            && Outcome(p, Rotate(2, "b")) == Ok(2) && !DistinctIdentities(Step(p, Rotate(2, "b")))
            && !ActiveIdentity(p.sessions, Create(p, "b", 3).sessions[3].identity)
  {
    hide Draw, Chosen, Run, AllEnabled, FirstFree, Step, ActiveIdentity, Clashes, Create;
    var start := Alternating();
    var first, second, third := Acquire("a", None, 1), Acquire("b", Some(1), 2), Release(2);
    NothingDone(start);
    OneMore(start, [], first);
    OneMore(start, [first], second);
    OneMore(start, [first, second], third);
    assert [] + [first] == [first] && [first] + [second] == [first, second];
    assert [first, second] + [third] == [first, second, third];
    FirstPersona(start);
    SecondPersona(Step(start, first));
    NewKeepsInv(start.config);
    RunKeepsInv(start, [first, second, third]);
    ThirdClashes(Step(Step(start, first), second));
  }

  lemma ThirdClashes(p: Pool)
    requires p.config == Alternating().config && p.nextSeed == 3
    requires p.sessions == map[1 := Session(1, Draw(1), ONE, 1, 1, false), 2 := Session(2, Draw(2), TWO, 1, 1, false)]
    requires Inv(Step(p, Release(2)))
    ensures var q := Step(p, Release(2));
            && DistinctIdentities(q)
            && Outcome(q, Rotate(2, "b")) == Ok(2) && !DistinctIdentities(Step(q, Rotate(2, "b")))
            && !ActiveIdentity(q.sessions, Create(q, "b", 3).sessions[3].identity)
  {
    hide Draw, Chosen, Inv, Alternate, Clashes, ActiveIdentity, Create;
    var q := Step(p, Release(2));
    assert q.sessions == p.sessions[2 := Session(2, Draw(2), TWO, 1, 0, false)];
    assert q.config == p.config && q.nextSeed == 3;
    AlternateDraws();
    FewClash(q.config, q.sessions, 4, THREE);
    assert OtherHas(q, 2, ONE);
    hide Step;
    RotationTakesWhatCreationSkips(q, 2, "b", 3);
  }

  // ------------------------------------------------------------------ burned seeds

  /** A restored session with the first seed is burned; another session, rotated, draws that
      seed and carries it unburned. */
  lemma BurnedSeedIsBack(config: Config)
    ensures var es := [Restore(Snapshot(5, Draw(1), 0), 0), Burn(5), Restore(Snapshot(6, Draw(2), 0), 0),
                       Rotate(6, "d")];
            var p := Run(New(config), es);
            && AllEnabled(New(config), es)
            && 6 in p.sessions && !p.sessions[6].burned && p.sessions[6].seed in p.quarantine
            && !QuarantineHolds(p)
  {
    hide Draw, Chosen, Run, AllEnabled, FirstFree, Step;
    var start := New(config);
    var first, second := Restore(Snapshot(5, Draw(1), 0), 0), Burn(5);
    var third, fourth := Restore(Snapshot(6, Draw(2), 0), 0), Rotate(6, "d");
    NothingDone(start);
    OneMore(start, [], first);
    OneMore(start, [first], second);
    OneMore(start, [first, second], third);
    OneMore(start, [first, second, third], fourth);
    assert [] + [first] == [first] && [first] + [second] == [first, second];
    assert [first, second] + [third] == [first, second, third];
    assert [first, second, third] + [fourth] == [first, second, third, fourth];
    DrawsAreSeeds();
    RestoresAndBurns(start, 5, Draw(1));
    var p := Step(Step(start, first), second);
    RestoresAndRotates(p, 6, Draw(2), "d");
  }

  lemma DrawsAreSeeds()
    ensures |Draw(1)| == 32 && |Draw(2)| == 32 && Draw(1) != Draw(2)
  {
    if Draw(1) == Draw(2) {
      DrawIsInjective(1, 2);
    }
  }

  lemma RestoresAndBurns(p: Pool, id: nat, seed: Seed)
    requires id !in p.sessions && id < WORD && |seed| == 32 && seed !in p.quarantine
    ensures var e := Restore(Snapshot(id, seed, 0), 0);
            var q := Step(Step(p, e), Burn(id));
            && Enabled(p, e) && q.config == p.config && q.nextSeed == p.nextSeed
            && q.quarantine == p.quarantine + {seed} && q.sessions.Keys == p.sessions.Keys + {id}
  {
    hide FirstFree;
  }

  lemma RestoresAndRotates(p: Pool, id: nat, seed: Seed, domain: string)
    requires id !in p.sessions && id < WORD && |seed| == 32 && seed !in p.quarantine
    ensures var e := Restore(Snapshot(id, seed, 0), 0);
            var q := Step(Step(p, e), Rotate(id, domain));
            && Enabled(p, e) && q.quarantine == p.quarantine
            && id in q.sessions && !q.sessions[id].burned && q.sessions[id].seed == Draw(p.nextSeed)
  {
    hide FirstFree, Draw;
  }

  // ------------------------------------------------------------------ a policy that never rotates

  /** Without any restore: the only session is burned, another takes its place, and the burned
      one is rotated. Both are unburned now, and either may serve the next request. */
  lemma TwoMayServe(identify: Seed -> Identity, domain: string)
    ensures var start := New(Config(Never, 0, identify));
            var es := [Acquire("d", None, 1), Burn(1), Acquire("d", None, 2), Release(1), Rotate(1, "d")];
            && AllEnabled(start, es) && !AtMostOne(Run(start, es))
            && Serves(Run(start, es), domain, 1) && Serves(Run(start, es), domain, 2)
  {
    hide Draw, Chosen, Run, AllEnabled, FirstFree, Step;
    var start := New(Config(Never, 0, identify));
    var first, second, third := Acquire("d", None, 1), Burn(1), Acquire("d", None, 2);
    var fourth, fifth := Release(1), Rotate(1, "d");
    NothingDone(start);
    OneMore(start, [], first);
    OneMore(start, [first], second);
    OneMore(start, [first, second], third);
    OneMore(start, [first, second, third], fourth);
    OneMore(start, [first, second, third, fourth], fifth);
    assert [] + [first] == [first] && [first] + [second] == [first, second];
    assert [first, second] + [third] == [first, second, third];
    assert [first, second, third] + [fourth] == [first, second, third, fourth];
    assert [first, second, third, fourth] + [fifth] == [first, second, third, fourth, fifth];
    BurnedAndReplaced(start);
    var p := Step(Step(Step(start, first), second), third);
    RotatedBack(p, 1, "d");
    var q := Step(Step(p, fourth), fifth);
    assert Unburned(q, 1) && Unburned(q, 2);
    assert Granted(q, Acquire(domain, Some(1), 0), 1) && Granted(q, Acquire(domain, Some(2), 0), 2);
  }

  lemma BurnedAndReplaced(p: Pool)
    requires p == New(p.config) && p.config.policy.Never? && p.config.maxSessions == 0
    ensures var q := Step(Step(p, Acquire("d", None, 1)), Burn(1));
            var r := Step(q, Acquire("d", None, 2));
            && Enabled(p, Acquire("d", None, 1)) && Enabled(q, Acquire("d", None, 2)) && r.config == p.config
            && r.sessions.Keys == {1, 2} && r.sessions[1].burned && r.sessions[1].inFlight == 1
            && !r.sessions[2].burned
  {
    hide Draw, FirstFree, Step, Use, Create, Enabled;
    Opens(p, "d", None);
    var q := Step(p, Acquire("d", None, 1));
    assert q.sessions.Keys == {1} && q.nextId == 2;
    Burns(q, 1);
    Opens(Step(q, Burn(1)), "d", None);
  }

  lemma Burns(p: Pool, id: nat)
    requires id in p.sessions
    ensures var q := Step(p, Burn(id));
            && q.sessions == p.sessions[id := p.sessions[id].(burned := true)]
            && q.nextId == p.nextId && q.config == p.config
  {
  }

  lemma RotatedBack(p: Pool, id: nat, domain: string)
    requires id in p.sessions && p.sessions[id].inFlight == 1
    ensures var q := Step(Step(p, Release(id)), Rotate(id, domain));
            && q.sessions.Keys == p.sessions.Keys && q.config == p.config && !q.sessions[id].burned
            && forall other | other in p.sessions && other != id :: q.sessions[other] == p.sessions[other]
  {
    hide Draw;
  }
}
