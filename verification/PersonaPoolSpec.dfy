/**
 The session pool as a state machine over values: what acquiring, releasing, rotating,
 burning and restoring do to the sessions, the sticky domain bindings and the quarantine.
 Machine words wrap where the source's do: ids, counters and the seed counter at 2^64,
 in-flight counts at 2^32.
 */
module PersonaPoolSpec {
  import opened Wrappers
  import SeedExpansion

  const WORD := SeedExpansion.WORD_LIMIT
  const HALF_WORD: nat := 0x1_0000_0000
  const RETRIES: nat := 64

  type Seed = seq<bv8>

  /** `rest` stands for the identity's other fields, which the pool never compares. */
  datatype Identity = Identity(profile: string, hardware: nat, timezone: string, rest: string)

  datatype RotationPolicy = Never | PerSession | PerTarget | PerRequests(n: nat)

  datatype RotationState = RotationState(previousTarget: Option<string>, requestCount: nat)

  /** `identify` is the identity a seed generates; the generator itself is not modelled. */
  datatype Config = Config(policy: RotationPolicy, maxSessions: nat, identify: Seed -> Identity)

  datatype Session = Session(id: nat, seed: Seed, identity: Identity, requestCount: nat, inFlight: nat, burned: bool)

  datatype Snapshot = Snapshot(id: nat, seed: Seed, requestCount: nat)

  datatype PoolError = SessionNotFound(id: nat) | RotationInProgress(id: nat, inFlight: nat) | Burned(id: nat)
    | AtCapacity(limit: nat)

  datatype Pool = Pool(
    config: Config, rotation: RotationState, sessions: map<nat, Session>, bindings: map<string, nat>,
    quarantine: set<Seed>, nextId: nat, nextSeed: nat)

  /** `pick` is the unburned session that the hash table's iteration order offers first;
      `newId` is the id a new session gets. */
  datatype Event =
    | Acquire(domain: string, pick: Option<nat>, newId: nat)
    | Release(id: nat)
    | Rotate(id: nat, domain: string)
    | Burn(id: nat)
    | Restore(snapshot: Snapshot, newId: nat)

  function New(config: Config): Pool {
    Pool(config, RotationState(None, 0), map[], map[], {}, 1, 1)
  }

  // ------------------------------------------------------------------ rotation policy

  predicate ShouldRotate(policy: RotationPolicy, state: RotationState, target: string) {
    match policy
    case Never => false
    case PerSession => state.requestCount == 0 && state.previousTarget.None?
    case PerTarget => state.previousTarget != Some(target)
    case PerRequests(n) => n != 0 && state.requestCount % n == 0
  }

  function RecordRequest(state: RotationState, target: string): RotationState {
    RotationState(Some(target), (state.requestCount + 1) % WORD)
  }

  // ------------------------------------------------------------------ ids and seeds

  function Draw(counter: nat): Seed {
    SeedExpansion.SeedOf(counter % WORD)
  }

  function IdAt(start: nat, k: nat): nat {
    (start + k) % WORD
  }

  /** `id` is the first one from `start` on, wrapping, that no live session has. */
  ghost predicate FirstFree(live: set<nat>, start: nat, id: nat) {
    id !in live && exists k | 0 <= k < WORD :: id == IdAt(start, k) && AllLive(live, start, k)
  }

  ghost predicate AllLive(live: set<nat>, start: nat, k: nat) {
    forall j | 0 <= j < k :: IdAt(start, j) in live
  }

  /** The free id is determined by the live ids and the counter. */
  lemma FirstFreeIsUnique(live: set<nat>, start: nat, a: nat, b: nat)
    requires FirstFree(live, start, a) && FirstFree(live, start, b)
    ensures a == b
  {
    var j :| 0 <= j < WORD && a == IdAt(start, j) && AllLive(live, start, j);
    var k :| 0 <= k < WORD && b == IdAt(start, k) && AllLive(live, start, k);
  }

  /** It is the least free id from the counter on, or past the largest id the least of all. */
  lemma FirstFreeIsLeast(live: set<nat>, start: nat, id: nat)
    requires start < 0x1_0000_0000_0000_0000 && FirstFree(live, start, id)
    ensures id < 0x1_0000_0000_0000_0000 && id !in live
    ensures id >= start ==> forall x | start <= x < id :: x in live
    ensures id < start ==> forall x | start <= x < 0x1_0000_0000_0000_0000 || 0 <= x < id :: x in live
  {
    hide AllLive;
    var k :| 0 <= k < WORD && id == IdAt(start, k) && AllLive(live, start, k);
    var end := if id >= start then id else WORD;
    forall x | start <= x < end
      ensures x in live
    {
      LiveAt(live, start, k, x - start);
    }
    forall x | id < start && 0 <= x < id
      ensures x in live
    {
      LiveAt(live, start, k, WORD - start + x);
    }
  }

  lemma LiveAt(live: set<nat>, start: nat, k: nat, j: nat)
    requires AllLive(live, start, k) && j < k
    ensures IdAt(start, j) in live
  {
  }

  /** Fewer than 2^64 consecutive ids never repeat. */
  lemma NoEarlyWrap(start: nat, j: nat, k: nat)
    requires j < k < j + WORD
    ensures IdAt(start, j) != IdAt(start, k)
  {
  }

  /** The identity this counter's seed generates is already active. */
  predicate Clashes(config: Config, sessions: map<nat, Session>, counter: nat) {
    ActiveIdentity(sessions, config.identify(Draw(counter)))
  }

  predicate ActiveIdentity(sessions: map<nat, Session>, identity: Identity) {
    exists id | id in sessions :: SameIdentity(sessions[id].identity, identity)
  }

  predicate SameIdentity(a: Identity, b: Identity) {
    a.profile == b.profile && a.hardware == b.hardware && a.timezone == b.timezone
  }

  /** The first counter that does not clash, or the last one tried. */
  function Settled(clashes: nat -> bool, counter: nat, tries: nat): (c: nat)
    ensures counter <= c <= counter + tries
    ensures c < counter + tries ==> !clashes(c)
    ensures forall k | counter <= k < c :: clashes(k)
    decreases tries
  {
    if tries == 0 || !clashes(counter) then counter else Settled(clashes, counter + 1, tries - 1)
  }

  /** The counter whose seed a new session gets. */
  function Chosen(config: Config, sessions: map<nat, Session>, counter: nat): nat {
    Settled((c: nat) => Clashes(config, sessions, c), counter, RETRIES)
  }

  // ------------------------------------------------------------------ steps

  function Build(config: Config, id: nat, seed: Seed): Session {
    Session(id, seed, config.identify(seed), 0, 0, false)
  }

  function Create(p: Pool, domain: string, id: nat): Pool {
    var c := Chosen(p.config, p.sessions, p.nextSeed);
    p.(sessions := p.sessions[id := Build(p.config, id, Draw(c))],
       rotation := p.rotation.(previousTarget := Some(domain)),
       bindings := p.bindings[domain := id],
       nextId := (id + 1) % WORD,
       nextSeed := (c + 1) % WORD)
  }

  predicate AtLimit(p: Pool, domain: string) {
    p.config.maxSessions > 0 && |p.sessions| >= p.config.maxSessions && domain !in p.bindings
  }

  /** The session an acquisition reuses, if any. */
  function Reused(p: Pool, domain: string, pick: Option<nat>): Option<nat> {
    if ShouldRotate(p.config.policy, p.rotation, domain) then None
    else if p.config.policy.Never? then pick
    else if domain in p.bindings && p.bindings[domain] in p.sessions && !p.sessions[p.bindings[domain]].burned
    then Some(p.bindings[domain])
    else None
  }

  function Use(p: Pool, id: nat, domain: string): Pool
    requires id in p.sessions
  {
    var s := p.sessions[id];
    p.(sessions := p.sessions[id := s.(inFlight := (s.inFlight + 1) % HALF_WORD,
                                       requestCount := (s.requestCount + 1) % WORD)],
       rotation := RecordRequest(p.rotation, domain))
  }

  predicate PickOk(p: Pool, pick: Option<nat>) {
    if pick.Some? then pick.value in p.sessions && !p.sessions[pick.value].burned
    else forall id | id in p.sessions :: p.sessions[id].burned
  }

  ghost predicate Enabled(p: Pool, e: Event) {
    match e
    case Acquire(domain, pick, newId) =>
      && PickOk(p, pick)
      && (!AtLimit(p, domain) && Reused(p, domain, pick).None? ==> FirstFree(p.sessions.Keys, p.nextId, newId))
    case Restore(snap, newId) =>
      && snap.id < WORD && |snap.seed| == 32
      && (snap.seed !in p.quarantine && snap.id in p.sessions ==> FirstFree(p.sessions.Keys, p.nextId, newId))
    case _ => true
  }

  /** What the operation returns: the id it is about, or the error. */
  ghost function Outcome(p: Pool, e: Event): Result<nat, PoolError> {
    match e
    case Acquire(domain, pick, newId) =>
      if AtLimit(p, domain) then Err(AtCapacity(p.config.maxSessions))
      else if Reused(p, domain, pick).Some? then Ok(Reused(p, domain, pick).value) else Ok(newId)
    case Release(id) => if id in p.sessions then Ok(id) else Err(SessionNotFound(id))
    case Rotate(id, domain) =>
      if id !in p.sessions then Err(SessionNotFound(id))
      else if p.sessions[id].inFlight > 0 then Err(RotationInProgress(id, p.sessions[id].inFlight))
      else Ok(id)
    case Burn(id) => if id in p.sessions then Ok(id) else Err(SessionNotFound(id))
    case Restore(snap, newId) =>
      if snap.seed in p.quarantine then Err(PoolError.Burned(snap.id))
      else Ok(if snap.id in p.sessions then newId else snap.id)
  }

  function Max(a: nat, b: nat): nat {
    if a < b then b else a
  }

  /** A failed operation changes nothing. */
  ghost function Step(p: Pool, e: Event): Pool {
    if !Enabled(p, e) || Outcome(p, e).Err? then p else
    var id := Outcome(p, e).value;
    match e
    case Acquire(domain, pick, newId) =>
      var q := if Reused(p, domain, pick).Some? then p else Create(p, domain, id);
      if id in q.sessions then Use(q, id, domain) else q
    case Release(_) =>
      var n := p.sessions[id].inFlight;
      p.(sessions := p.sessions[id := p.sessions[id].(inFlight := if n > 0 then n - 1 else 0)])
    case Rotate(_, domain) =>
      p.(sessions := p.sessions[id := Build(p.config, id, Draw(p.nextSeed))],
         bindings := p.bindings[domain := id],
         rotation := p.rotation.(requestCount := 0),
         nextSeed := (p.nextSeed + 1) % WORD)
    case Burn(_) =>
      p.(sessions := p.sessions[id := p.sessions[id].(burned := true)],
         quarantine := p.quarantine + {p.sessions[id].seed},
         bindings := map d | d in p.bindings && p.bindings[d] != id :: p.bindings[d])
    case Restore(snap, _) =>
      var next := if snap.id in p.sessions then (id + 1) % WORD else p.nextId;
      p.(sessions := p.sessions[id := Build(p.config, id, snap.seed).(requestCount := snap.requestCount)],
         nextId := Max(next, if id + 1 < WORD then id + 1 else WORD - 1))
  }

  function SnapshotOf(p: Pool, id: nat): Snapshot
    requires id in p.sessions
  {
    Snapshot(id, p.sessions[id].seed, p.sessions[id].requestCount)
  }

  ghost function Run(p: Pool, es: seq<Event>): Pool
    decreases |es|
  {
    if es == [] then p else Step(Run(p, es[..|es| - 1]), es[|es| - 1])
  }

  // ------------------------------------------------------------------ invariant

  /** Sessions sit under their own ids, counts are machine words, and every binding points
      at a live, unburned session. */
  ghost predicate Inv(p: Pool) {
    && (forall id | id in p.sessions :: id < WORD && p.sessions[id].id == id && p.sessions[id].inFlight < HALF_WORD)
    && (forall id | id in p.sessions :: p.sessions[id].identity == p.config.identify(p.sessions[id].seed))
    && (forall id | id in p.sessions && p.sessions[id].burned :: p.sessions[id].seed in p.quarantine)
    && (forall d | d in p.bindings :: p.bindings[d] in p.sessions && !p.sessions[p.bindings[d]].burned)
    && p.nextId < WORD && p.nextSeed < WORD
  }

  lemma StepKeepsInv(p: Pool, e: Event)
    requires Inv(p)
    ensures Inv(Step(p, e))
  {
    hide Draw, Clashes, ActiveIdentity, Chosen, FirstFree;
    match e
    case Acquire(domain, pick, newId) => AcquireKeepsInv(p, domain, pick, newId);
    case Restore(snap, newId) => RestoreKeepsInv(p, snap, newId);
    case _ =>
  }

  lemma RestoreKeepsInv(p: Pool, snap: Snapshot, newId: nat)
    requires Inv(p)
    ensures Inv(Step(p, Restore(snap, newId)))
  {
    hide Draw, Clashes, ActiveIdentity, Chosen, FirstFree;
    FirstFreeIsWord(p, newId);
  }

  lemma FirstFreeIsWord(p: Pool, newId: nat)
    ensures FirstFree(p.sessions.Keys, p.nextId, newId) ==> newId < WORD && newId !in p.sessions
  {
  }

  lemma AcquireKeepsInv(p: Pool, domain: string, pick: Option<nat>, newId: nat)
    requires Inv(p)
    ensures Inv(Step(p, Acquire(domain, pick, newId)))
  {
    hide Inv, FirstFree, Create, Use;
    var e := Acquire(domain, pick, newId);
    if Enabled(p, e) && Outcome(p, e).Ok? {
      ReusedIsLive(p, domain, pick);
      if Reused(p, domain, pick).Some? {
        UseKeepsInv(p, Reused(p, domain, pick).value, domain);
      } else {
        FirstFreeIsWord(p, newId);
        CreateKeepsInv(p, domain, newId);
        UseKeepsInv(Create(p, domain, newId), newId, domain);
      }
    }
  }

  lemma ReusedIsLive(p: Pool, domain: string, pick: Option<nat>)
    requires PickOk(p, pick)
    ensures Reused(p, domain, pick).Some? ==>
              Reused(p, domain, pick).value in p.sessions && !p.sessions[Reused(p, domain, pick).value].burned
  {
  }

  lemma CreateKeepsInv(p: Pool, domain: string, id: nat)
    requires Inv(p) && id !in p.sessions && id < WORD
    ensures Inv(Create(p, domain, id)) && id in Create(p, domain, id).sessions
  {
    hide Draw, Chosen;
  }

  lemma UseKeepsInv(p: Pool, id: nat, domain: string)
    requires Inv(p) && id in p.sessions
    ensures Inv(Use(p, id, domain))
  {
  }

  /** Every reachable state satisfies the invariant, restores included. */
  lemma {:induction false} RunKeepsInv(p: Pool, es: seq<Event>)
    requires Inv(p)
    ensures Inv(Run(p, es))
    decreases |es|
  {
    hide Inv, Step;
    if es == [] {
    } else {
      RunKeepsInv(p, es[..|es| - 1]);
      StepKeepsInv(Run(p, es[..|es| - 1]), es[|es| - 1]);
    }
  }

  lemma NewKeepsInv(config: Config)
    ensures Inv(New(config))
  {
  }
}
