/**
 The in-memory `SessionStore` with a time to live: what it does to its map, and a reference
 model that never evicts anything.
 */
module ExpiringSessions {

  datatype Session = Session(token: string, userId: string, role: string, expiresAt: int, createdAt: int,
                             lastSeenAt: int)

  type Sessions = map<string, Session>

  datatype Store = Store(sessions: Sessions, expiredCleaned: nat, totalCreated: nat)

  const EMPTY := Store(map[], 0, 0)

  /** `token` in `Create` is the random token drawn. */
  datatype Op =
    | Create(token: string, userId: string, role: string)
    | Get(token: string)
    | Touch(token: string)
    | Delete(token: string)
    | Sweep
    | Stats
    | Stop

  datatype Call = Call(op: Op, now: int)

  /** What the caller sees; how many sessions a sweep evicted is not part of it. */
  datatype Reply = Found(session: Session) | NotFound | Touched(ok: bool) | Active(count: nat) | Done

  predicate IsExpired(session: Session, now: int) {
    now >= session.expiresAt
  }

  function NewSession(token: string, userId: string, role: string, ttlMs: int, now: int): Session {
    Session(token, userId, role, now + ttlMs, now, now)
  }

  function Renewed(session: Session, ttlMs: int, now: int): Session {
    session.(expiresAt := now + ttlMs, lastSeenAt := now)
  }

  function Live(sessions: Sessions, now: int): set<string> {
    set token | token in sessions && !IsExpired(sessions[token], now)
  }

  // ------------------------------------------------------------------ the store

  function Evict(store: Store, token: string): Store {
    store.(sessions := store.sessions - {token}, expiredCleaned := store.expiredCleaned + 1)
  }

  function Swept(store: Store, now: int): Store {
    var live := Live(store.sessions, now);
    var gone := store.sessions.Keys - live;
    store.(sessions := store.sessions - gone, expiredCleaned := store.expiredCleaned + |gone|)
  }

  function Step(ttlMs: int, store: Store, c: Call): (Store, Reply) {
    match c.op
    case Create(token, userId, role) =>
      var session := NewSession(token, userId, role, ttlMs, c.now);
      (Store(store.sessions[token := session], store.expiredCleaned, store.totalCreated + 1), Found(session))
    case Get(token) =>
      if token !in store.sessions then (store, NotFound)
      else if IsExpired(store.sessions[token], c.now) then (Evict(store, token), NotFound)
      else (store, Found(store.sessions[token]))
    case Touch(token) =>
      if token !in store.sessions then (store, Touched(false))
      else if IsExpired(store.sessions[token], c.now) then (Evict(store, token), Touched(false))
      else (store.(sessions := store.sessions[token := Renewed(store.sessions[token], ttlMs, c.now)]), Touched(true))
    case Delete(token) => (store.(sessions := store.sessions - {token}), Done)
    case Sweep => (Swept(store, c.now), Done)
    case Stats => (store, Active(|Live(store.sessions, c.now)|))
    case Stop => (store.(sessions := map[]), Done)
  }

  // ------------------------------------------------------------------ the reference

  /** A plain map: it never evicts, ignores sweeps, and only compares expiry times. */
  function Reference(ttlMs: int, sessions: Sessions, c: Call): (Sessions, Reply) {
    match c.op
    case Create(token, userId, role) =>
      var session := NewSession(token, userId, role, ttlMs, c.now);
      (sessions[token := session], Found(session))
    case Get(token) =>
      (sessions, if token in Live(sessions, c.now) then Found(sessions[token]) else NotFound)
    case Touch(token) =>
      if token in Live(sessions, c.now) then (sessions[token := Renewed(sessions[token], ttlMs, c.now)], Touched(true))
      else (sessions, Touched(false))
    case Delete(token) => (sessions - {token}, Done)
    case Sweep => (sessions, Done)
    case Stats => (sessions, Active(|Live(sessions, c.now)|))
    case Stop => (map[], Done)
  }

  // ------------------------------------------------------------------ traces

  function After(ttlMs: int, trace: seq<Call>): Store {
    if trace == [] then EMPTY else Step(ttlMs, After(ttlMs, trace[..|trace| - 1]), trace[|trace| - 1]).0
  }

  function ReferenceAfter(ttlMs: int, trace: seq<Call>): Sessions {
    if trace == [] then map[] else Reference(ttlMs, ReferenceAfter(ttlMs, trace[..|trace| - 1]), trace[|trace| - 1]).0
  }

  ghost predicate Monotone(trace: seq<Call>) {
    forall i, j :: 0 <= i <= j < |trace| ==> trace[i].now <= trace[j].now
  }

  /** The store is the reference without some sessions that have expired by `now`. */
  ghost predicate Agree(sessions: Sessions, reference: Sessions, now: int) {
    && (forall token :: token in sessions ==> token in reference && reference[token] == sessions[token])
    && (forall token :: token in reference && token !in sessions ==> IsExpired(reference[token], now))
  }

  lemma AgreeLater(sessions: Sessions, reference: Sessions, now: int, later: int)
    requires Agree(sessions, reference, now) && now <= later
    ensures Agree(sessions, reference, later)
  {
  }

  lemma AgreeSameLive(sessions: Sessions, reference: Sessions, now: int)
    requires Agree(sessions, reference, now)
    ensures Live(sessions, now) == Live(reference, now)
  {
  }

  /** Whatever the call, stores that agree give the same reply and still agree. */
  lemma StepAgrees(ttlMs: int, store: Store, reference: Sessions, c: Call)
    requires Agree(store.sessions, reference, c.now)
    ensures Step(ttlMs, store, c).1 == Reference(ttlMs, reference, c).1
    ensures Agree(Step(ttlMs, store, c).0.sessions, Reference(ttlMs, reference, c).0, c.now)
  {
    AgreeSameLive(store.sessions, reference, c.now);
  }

  lemma {:induction false} TraceAgrees(ttlMs: int, trace: seq<Call>, now: int)
    requires Monotone(trace) && (forall i :: 0 <= i < |trace| ==> trace[i].now <= now)
    ensures Agree(After(ttlMs, trace).sessions, ReferenceAfter(ttlMs, trace), now)
  {
    if trace != [] {
      var n := |trace| - 1;
      TraceAgrees(ttlMs, trace[..n], trace[n].now);
      StepAgrees(ttlMs, After(ttlMs, trace[..n]), ReferenceAfter(ttlMs, trace[..n]), trace[n]);
      AgreeLater(After(ttlMs, trace).sessions, ReferenceAfter(ttlMs, trace), trace[n].now, now);
    }
  }

  /**
   On every trace with a monotone clock, with sweeps wherever they happen to fall, every reply, including
   the number of active sessions, is the reference's.
   */
  lemma ObservationallyEqual(ttlMs: int, trace: seq<Call>, i: nat)
    requires Monotone(trace) && i < |trace|
    ensures Step(ttlMs, After(ttlMs, trace[..i]), trace[i]).1
         == Reference(ttlMs, ReferenceAfter(ttlMs, trace[..i]), trace[i]).1
  {
    TraceAgrees(ttlMs, trace[..i], trace[i].now);
    StepAgrees(ttlMs, After(ttlMs, trace[..i]), ReferenceAfter(ttlMs, trace[..i]), trace[i]);
  }

  /** Every session held expires one time to live after it was last seen, and was seen since its creation, by now. */
  lemma {:induction false} ExpiryFollowsLastSeen(ttlMs: int, trace: seq<Call>, now: int, token: string)
    requires Monotone(trace) && (forall i :: 0 <= i < |trace| ==> trace[i].now <= now)
    requires token in After(ttlMs, trace).sessions
    ensures var session := After(ttlMs, trace).sessions[token];
            && session.token == token
            && session.expiresAt == session.lastSeenAt + ttlMs
            && session.createdAt <= session.lastSeenAt <= now
  {
    var n := |trace| - 1;
    if token in After(ttlMs, trace[..n]).sessions {
      ExpiryFollowsLastSeen(ttlMs, trace[..n], trace[n].now, token);
    }
  }

  // ------------------------------------------------------------------ bookkeeping

  /** How many sessions the call removes other than by expiry. */
  function Dropped(store: Store, c: Call): nat {
    match c.op
    case Delete(token) => if token in store.sessions then 1 else 0
    case Stop => |store.sessions|
    case _ => 0
  }

  function DroppedSoFar(ttlMs: int, trace: seq<Call>): nat {
    if trace == [] then 0
    else
      var n := |trace| - 1;
      DroppedSoFar(ttlMs, trace[..n]) + Dropped(After(ttlMs, trace[..n]), trace[n])
  }

  ghost predicate FreshTokens(ttlMs: int, trace: seq<Call>) {
    forall i :: 0 <= i < |trace| && trace[i].op.Create? ==> trace[i].op.token !in After(ttlMs, trace[..i]).sessions
  }

  lemma SizeWithout<K, V>(m: map<K, V>, keys: set<K>)
    requires keys <= m.Keys
    ensures |m - keys| == |m| - |keys|
  {
    assert (m - keys).Keys == m.Keys - keys;
    assert |(m - keys).Keys| == |m - keys| && |m.Keys| == |m|;
  }

  lemma SizeWith<K, V>(m: map<K, V>, k: K, v: V)
    ensures |m[k := v]| == |m| + if k in m then 0 else 1
  {
    assert m[k := v].Keys == m.Keys + {k};
    assert |m[k := v].Keys| == |m[k := v]| && |m.Keys| == |m|;
  }

  /** Created sessions that are neither held nor counted as expired. */
  function Missing(store: Store): int {
    store.totalCreated - store.expiredCleaned - |store.sessions|
  }

  lemma SweepBalances(store: Store, now: int)
    ensures Missing(Swept(store, now)) == Missing(store)
  {
    SizeWithout(store.sessions, store.sessions.Keys - Live(store.sessions, now));
  }

  lemma EvictBalances(store: Store, token: string)
    ensures token in store.sessions ==> Missing(Evict(store, token)) == Missing(store)
  {
    if token in store.sessions {
      SizeWithout(store.sessions, {token});
    }
  }

  lemma RenewBalances(ttlMs: int, store: Store, token: string, now: int)
    ensures token in store.sessions ==>
              |store.sessions[token := Renewed(store.sessions[token], ttlMs, now)]| == |store.sessions|
  {
    if token in store.sessions {
      SizeWith(store.sessions, token, Renewed(store.sessions[token], ttlMs, now));
    }
  }

  lemma DeleteBalances(store: Store, token: string)
    ensures |store.sessions - {token}| == |store.sessions| - if token in store.sessions then 1 else 0
  {
    if token in store.sessions {
      SizeWithout(store.sessions, {token});
    } else {
      assert store.sessions - {token} == store.sessions;
    }
  }

  lemma StepBalances(ttlMs: int, store: Store, c: Call)
    requires c.op.Create? ==> c.op.token !in store.sessions
    ensures Missing(Step(ttlMs, store, c).0) == Missing(store) + Dropped(store, c)
  {
    hide IsExpired, Evict, NewSession, Renewed, Swept;
    match c.op
    case Create(token, userId, role) => SizeWith(store.sessions, token, NewSession(token, userId, role, ttlMs, c.now));
    case Get(token) => EvictBalances(store, token);
    case Touch(token) =>
      EvictBalances(store, token);
      RenewBalances(ttlMs, store, token, c.now);
    case Delete(token) => DeleteBalances(store, token);
    case Sweep => SweepBalances(store, c.now);
    case _ =>
  }

  /** Every session ever created is still held, was counted once as expired, or was deleted. */
  lemma {:induction false} SessionsAreAccountedFor(ttlMs: int, trace: seq<Call>)
    requires FreshTokens(ttlMs, trace)
    ensures var store := After(ttlMs, trace);
            store.totalCreated == |store.sessions| + store.expiredCleaned + DroppedSoFar(ttlMs, trace)
  {
    if trace != [] {
      var n := |trace| - 1;
      assert forall i :: 0 <= i < n ==> trace[..n][..i] == trace[..i];
      SessionsAreAccountedFor(ttlMs, trace[..n]);
      StepBalances(ttlMs, After(ttlMs, trace[..n]), trace[n]);
    }
  }
}
