/**
 The session pool as it is kept: tables updated in place, a wrapping id counter and a
 seed counter. Every operation performs one step of `PersonaPoolSpec`.
 */
module PersonaPool {
  import opened Wrappers
  import opened PersonaPoolSpec
  import SeedExpansion
  import opened PersonaPoolSafety

  /** The first `k` ids from `start` on. */
  function IdsFrom(start: nat, k: nat): set<nat> {
    if k == 0 then {} else IdsFrom(start, k - 1) + {IdAt(start, k - 1)}
  }

  lemma {:induction false} IdsFromAreDistinct(start: nat, k: nat)
    requires k <= WORD
    ensures |IdsFrom(start, k)| == k
    ensures forall x | x in IdsFrom(start, k) :: exists j | 0 <= j < k :: x == IdAt(start, j)
  {
    hide IdAt;
    if k == 0 {
    } else {
      IdsFromAreDistinct(start, k - 1);
      forall j | 0 <= j < k - 1
        ensures IdAt(start, j) != IdAt(start, k - 1)
      {
        NoEarlyWrap(start, j, k - 1);
      }
      assert IdAt(start, k - 1) !in IdsFrom(start, k - 1);
    }
  }

  /** Fewer than 2^64 live ids cannot fill the whole circle of ids. */
  lemma SearchEnds(live: set<nat>, start: nat, k: nat)
    requires |live| < WORD && k <= WORD && AllLive(live, start, k)
    ensures k < WORD
  {
    hide IdAt;
    IdsFromAreDistinct(start, k);
    var rest := live - IdsFrom(start, k);
    assert live == IdsFrom(start, k) + rest;
  }

  class Manager {
    const config: Config
    var rotation: RotationState
    var sessions: map<nat, Session>
    var bindings: map<string, nat>
    var quarantine: set<Seed>
    var nextId: nat
    var nextSeed: nat

    ghost function View(): Pool
      reads this
    {
      Pool(config, rotation, sessions, bindings, quarantine, nextId, nextSeed)
    }

    constructor (config: Config)
      ensures View() == New(config) && Inv(View())
    {
      this.config := config;
      rotation := RotationState(None, 0);
      sessions, bindings, quarantine := map[], map[], {};
      nextId, nextSeed := 1, 1;
    }

    /** Terminates because the ids passed over are distinct and fewer than 2^64 are live. */
    method FreshId() returns (id: nat)
      requires |sessions| < WORD && nextId < WORD
      modifies this`nextId
      ensures FirstFree(sessions.Keys, old(nextId), id)
      ensures nextId == (id + 1) % WORD
    {
      id := nextId;
      ghost var k: nat := 0;
      while id in sessions
        invariant nextId == old(nextId)
        invariant id == IdAt(nextId, k) && k < WORD && AllLive(sessions.Keys, nextId, k)
        decreases WORD - k
      {
        id := (id + 1) % WORD;
        k := k + 1;
        SearchEnds(sessions.Keys, nextId, k);
      }
      assert FirstFree(sessions.Keys, nextId, id);
      nextId := (id + 1) % WORD;
    }

    method FreshSeed() returns (seed: Seed)
      modifies this`nextSeed
      ensures seed == Draw(old(nextSeed)) && nextSeed == (old(nextSeed) + 1) % WORD
    {
      seed := Draw(nextSeed);
      nextSeed := (nextSeed + 1) % WORD;
    }

    /** Draws seeds until one gives an identity no session has, at most 65 in all. */
    method SettleSession(id: nat) returns (session: Session)
      requires nextSeed < WORD
      modifies this`nextSeed
      ensures var c := Chosen(config, sessions, old(nextSeed));
              session == Build(config, id, Draw(c)) && nextSeed == (c + 1) % WORD
    {
      hide Draw, ActiveIdentity, Chosen;
      ghost var first := nextSeed;
      ghost var c := first;
      var seed := FreshSeed();
      session := Build(config, id, seed);
      ChosenStops(config, sessions, first, c);
      for tries := 0 to RETRIES
        invariant c == first + tries <= Chosen(config, sessions, first)
        invariant session == Build(config, id, Draw(c)) && nextSeed == (c + 1) % WORD
      {
        ChosenStops(config, sessions, first, c);
        if !ActiveIdentity(sessions, session.identity) {
          return;
        }
        seed := FreshSeed();
        NextCounter(c + 1);
        c := c + 1;
        DrawWraps(c);
        session := Build(config, id, seed);
      }
      ChosenStops(config, sessions, first, c);
    }

    method CreateSession(domain: string) returns (id: nat)
      requires |sessions| < WORD && nextId < WORD && nextSeed < WORD
      modifies this`nextId, this`nextSeed, this`sessions, this`rotation
      ensures FirstFree(old(sessions).Keys, old(nextId), id)
      ensures View().(bindings := bindings[domain := id]) == Create(old(View()), domain, id)
    {
      hide FirstFree, Draw, Chosen;
      id := FreshId();
      var session := SettleSession(id);
      sessions := sessions[id := session];
      rotation := rotation.(previousTarget := Some(domain));
    }

    method AnyActive() returns (id: Option<nat>)
      ensures PickOk(View(), id)
    {
      hide Build, Draw;
      var rest := sessions.Keys;
      while rest != {}
        invariant rest <= sessions.Keys
        invariant forall k | k in sessions && k !in rest :: sessions[k].burned
        decreases |rest|
      {
        var k :| k in rest;
        if !sessions[k].burned {
          return Some(k);
        }
        rest := rest - {k};
      }
      return None;
    }

    method Acquire(domain: string) returns (r: Result<nat, PoolError>)
      requires Inv(View()) && |sessions| < WORD
      modifies this
      ensures Inv(View())
      ensures exists pick, newId :: Enabled(old(View()), Event.Acquire(domain, pick, newId))
                && r == Outcome(old(View()), Event.Acquire(domain, pick, newId))
                && View() == Step(old(View()), Event.Acquire(domain, pick, newId))
    {
      hide FirstFree, Draw, Chosen, PickOk, ShouldRotate, Inv;
      ghost var before := View();
      CountersAreWords(before);
      ghost var pick := AnyActivePick(before);
      if config.maxSessions > 0 && |sessions| >= config.maxSessions && domain !in bindings {
        r := Err(AtCapacity(config.maxSessions));
        assert AtLimit(before, domain);
        ghost var e := Event.Acquire(domain, pick, 0);
        assert Enabled(before, e) && r == Outcome(before, e) && View() == Step(before, e);
        return;
      }
      var reuse: Option<nat> := None;
      if ShouldRotate(config.policy, rotation, domain) {
      } else if config.policy.Never? {
        reuse := AnyActive();
        pick := reuse;
      } else if domain in bindings && bindings[domain] in sessions && !sessions[bindings[domain]].burned {
        reuse := Some(bindings[domain]);
      }
      assert reuse == Reused(before, domain, pick);
      ReusedIsLive(before, domain, pick);
      var id;
      if reuse.Some? {
        id := reuse.value;
      } else {
        id := CreateSession(domain);
        bindings := bindings[domain := id];
        assert View() == Create(before, domain, id);
      }
      UseSession(id, domain);
      r := Ok(id);
      ghost var e := Event.Acquire(domain, pick, id);
      assert Enabled(before, e);
      assert r == Outcome(before, e) by { hide Use, Create; }
      assert View() == Step(before, e) by { hide Use, Create, Enabled, Outcome; StepUses(before, domain, pick, id); }
      StepKeepsInv(before, e);
    }

    method UseSession(id: nat, domain: string)
      requires id in sessions
      modifies this`sessions, this`rotation
      ensures View() == Use(old(View()), id, domain)
    {
      var s := sessions[id];
      sessions := sessions[id := s.(inFlight := (s.inFlight + 1) % HALF_WORD,
                                    requestCount := (s.requestCount + 1) % WORD)];
      rotation := RecordRequest(rotation, domain);
    }

    method Release(id: nat) returns (r: Result<nat, PoolError>)
      requires Inv(View())
      modifies this
      ensures Inv(View())
      ensures r == Outcome(old(View()), Event.Release(id)) && View() == Step(old(View()), Event.Release(id))
    {
      hide Inv;
      StepKeepsInv(View(), Event.Release(id));
      if id !in sessions {
        return Err(SessionNotFound(id));
      }
      var s := sessions[id];
      sessions := sessions[id := s.(inFlight := if s.inFlight > 0 then s.inFlight - 1 else 0)];
      r := Ok(id);
    }

    method Rotate(id: nat, domain: string) returns (r: Result<nat, PoolError>)
      requires Inv(View())
      modifies this
      ensures Inv(View())
      ensures r == Outcome(old(View()), Event.Rotate(id, domain))
          && View() == Step(old(View()), Event.Rotate(id, domain))
    {
      hide Inv, Draw;
      StepKeepsInv(View(), Event.Rotate(id, domain));
      if id !in sessions {
        return Err(SessionNotFound(id));
      }
      if sessions[id].inFlight > 0 {
        return Err(RotationInProgress(id, sessions[id].inFlight));
      }
      var seed := FreshSeed();
      sessions := sessions[id := Build(config, id, seed)];
      bindings := bindings[domain := id];
      rotation := rotation.(requestCount := 0);
      r := Ok(id);
    }

    method MarkBurned(id: nat) returns (r: Result<nat, PoolError>)
      requires Inv(View())
      modifies this
      ensures Inv(View())
      ensures r == Outcome(old(View()), Burn(id)) && View() == Step(old(View()), Burn(id))
    {
      hide Inv;
      StepKeepsInv(View(), Burn(id));
      if id !in sessions {
        return Err(SessionNotFound(id));
      }
      sessions := sessions[id := sessions[id].(burned := true)];
      quarantine := quarantine + {sessions[id].seed};
      bindings := map d | d in bindings && bindings[d] != id :: bindings[d];
      r := Ok(id);
    }

    method TakeSnapshot(id: nat) returns (r: Result<Snapshot, PoolError>)
      ensures r == if id in sessions then Ok(SnapshotOf(View(), id)) else Err(SessionNotFound(id))
    {
      if id !in sessions {
        return Err(SessionNotFound(id));
      }
      r := Ok(Snapshot(id, sessions[id].seed, sessions[id].requestCount));
    }

    method RestoreSnapshot(snap: Snapshot) returns (r: Result<nat, PoolError>)
      requires Inv(View()) && |sessions| < WORD
      requires snap.id < WORD && |snap.seed| == 32
      modifies this
      ensures Inv(View())
      ensures exists newId :: Enabled(old(View()), Restore(snap, newId))
                && r == Outcome(old(View()), Restore(snap, newId))
                && View() == Step(old(View()), Restore(snap, newId))
    {
      hide FirstFree, Inv;
      ghost var before := View();
      CountersAreWords(before);
      var id := snap.id;
      if snap.seed in quarantine {
        r := Err(PoolError.Burned(snap.id));
        assert Enabled(before, Restore(snap, 0)) && View() == Step(before, Restore(snap, 0));
        return;
      }
      if snap.id in sessions {
        id := FreshId();
      }
      nextId := Max(nextId, if id + 1 < WORD then id + 1 else WORD - 1);
      sessions := sessions[id := Build(config, id, snap.seed).(requestCount := snap.requestCount)];
      r := Ok(id);
      assert Enabled(before, Restore(snap, id)) && r == Outcome(before, Restore(snap, id));
      assert View() == Step(before, Restore(snap, id));
      StepKeepsInv(before, Restore(snap, id));
    }
  }

  lemma StepUses(p: Pool, domain: string, pick: Option<nat>, newId: nat)
    requires Enabled(p, Event.Acquire(domain, pick, newId)) && Outcome(p, Event.Acquire(domain, pick, newId)).Ok?
    ensures var id := Outcome(p, Event.Acquire(domain, pick, newId)).value;
            var q := if Reused(p, domain, pick).Some? then p else Create(p, domain, id);
            id in q.sessions && Step(p, Event.Acquire(domain, pick, newId)) == Use(q, id, domain)
  {
    hide Draw, Chosen, FirstFree, ShouldRotate, Use;
    ReusedIsLive(p, domain, pick);
  }

  lemma CountersAreWords(p: Pool)
    requires Inv(p)
    ensures p.nextId < WORD && p.nextSeed < WORD
  {
  }

  ghost function AnyActivePick(p: Pool): (pick: Option<nat>)
    ensures PickOk(p, pick)
  {
    if exists id :: id in p.sessions && !p.sessions[id].burned then
      var id :| id in p.sessions && !p.sessions[id].burned;
      Some(id)
    else None
  }

  /** The choice of seed goes past a counter exactly when that one clashes and tries remain. */
  lemma ChosenStops(config: Config, sessions: map<nat, Session>, first: nat, c: nat)
    requires first <= c <= Chosen(config, sessions, first) || c == first
    ensures Chosen(config, sessions, first) == c <==> c == first + RETRIES || !Clashes(config, sessions, c)
    ensures first <= Chosen(config, sessions, first) <= first + RETRIES
    ensures Clashes(config, sessions, c) == ActiveIdentity(sessions, config.identify(Draw(c)))
  {
    hide ActiveIdentity, Draw, Chosen;
    ChosenSettles(config, sessions, first);
  }

  lemma NextCounter(c: nat)
    ensures (c % WORD + 1) % WORD == (c + 1) % WORD
  {
  }

  lemma DrawWraps(c: nat)
    ensures Draw(c % WORD) == Draw(c)
  {
    hide SeedExpansion.SeedOf;
  }
}
