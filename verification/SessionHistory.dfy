/**
 What the session store answers, told from the calls so far: who logged in with a token, and when it was last seen.
 */
module SessionHistory {
  import opened Wrappers
  import opened ExpiringSessions

  /** Whose session it is, and when it was created and last seen. */
  datatype Seen = Seen(userId: string, role: string, createdAt: int, seenAt: int)

  /** The last creation under the token and the touches in time since, unless it was deleted or the store stopped. */
  function Recorded(ttlMs: int, trace: seq<Call>, token: string): Option<Seen> {
    if trace == [] then None
    else
      var c := trace[|trace| - 1];
      var before := Recorded(ttlMs, trace[..|trace| - 1], token);
      match c.op
      case Create(t, userId, role) => if t == token then Some(Seen(userId, role, c.now, c.now)) else before
      case Touch(t) =>
        if t == token && before.Some? && c.now < before.value.seenAt + ttlMs then Some(before.value.(seenAt := c.now))
        else before
      case Delete(t) => if t == token then None else before
      case Stop => None
      case _ => before
  }

  /** The session is recorded, and its time to live since it was last seen is not over. */
  predicate IsLive(ttlMs: int, trace: seq<Call>, token: string, now: int) {
    Recorded(ttlMs, trace, token).Some? && now < Recorded(ttlMs, trace, token).value.seenAt + ttlMs
  }

  /** `live` are the tokens of the live sessions. */
  ghost predicate AreLive(ttlMs: int, trace: seq<Call>, live: set<string>, now: int) {
    forall token :: token in live <==> IsLive(ttlMs, trace, token, now)
  }

  /** What is recorded, as a session. */
  function SessionOf(ttlMs: int, token: string, seen: Seen): Session {
    Session(token, seen.userId, seen.role, seen.seenAt + ttlMs, seen.createdAt, seen.seenAt)
  }

  /** The right reply to a call, after the calls before it. */
  ghost predicate IsAnswer(ttlMs: int, before: seq<Call>, c: Call, reply: Reply) {
    match c.op
    case Create(token, userId, role) => reply == Found(Session(token, userId, role, c.now + ttlMs, c.now, c.now))
    case Get(token) =>
      reply == if IsLive(ttlMs, before, token, c.now)
               then Found(SessionOf(ttlMs, token, Recorded(ttlMs, before, token).value)) else NotFound
    case Touch(token) => reply == Touched(IsLive(ttlMs, before, token, c.now))
    case Stats => exists live :: AreLive(ttlMs, before, live, c.now) && reply == Active(|live|)
    case _ => reply == Done
  }

  /** The reference holds a session for each recorded token, with these values. */
  ghost predicate HoldsRecorded(ttlMs: int, sessions: Sessions, recorded: Option<Seen>, token: string) {
    && (token in sessions <==> recorded.Some?)
    && (recorded.Some? ==> sessions[token] == SessionOf(ttlMs, token, recorded.value))
  }

  lemma {:induction false} ReferenceFromHistory(ttlMs: int, trace: seq<Call>, token: string)
    ensures HoldsRecorded(ttlMs, ReferenceAfter(ttlMs, trace), Recorded(ttlMs, trace, token), token)
  {
    if trace != [] {
      ReferenceFromHistory(ttlMs, trace[..|trace| - 1], token);
    }
  }

  lemma ReplyFromHistory(ttlMs: int, trace: seq<Call>, i: nat, token: string)
    requires Monotone(trace) && i < |trace|
    ensures HoldsRecorded(ttlMs, ReferenceAfter(ttlMs, trace[..i]), Recorded(ttlMs, trace[..i], token), token)
    ensures Step(ttlMs, After(ttlMs, trace[..i]), trace[i]).1
         == Reference(ttlMs, ReferenceAfter(ttlMs, trace[..i]), trace[i]).1
  {
    ReferenceFromHistory(ttlMs, trace[..i], token);
    ObservationallyEqual(ttlMs, trace, i);
  }

  /**
   On every trace with a monotone clock, with sweeps wherever they fall: a live session is found with the user and
   role it was created for, and touched; any other is not.
   */
  lemma AnswersExactly(ttlMs: int, trace: seq<Call>, i: nat)
    requires Monotone(trace) && i < |trace|
    ensures IsAnswer(ttlMs, trace[..i], trace[i], Step(ttlMs, After(ttlMs, trace[..i]), trace[i]).1)
  {
    hide Step, After, ReferenceAfter, Recorded;
    var sessions := ReferenceAfter(ttlMs, trace[..i]);
    match trace[i].op {
      case Create(token, userId, role) => ReplyFromHistory(ttlMs, trace, i, token);
      case Get(token) => ReplyFromHistory(ttlMs, trace, i, token);
      case Touch(token) => ReplyFromHistory(ttlMs, trace, i, token);
      case Stats =>
        forall token
          ensures token in Live(sessions, trace[i].now) <==> IsLive(ttlMs, trace[..i], token, trace[i].now)
        {
          ReferenceFromHistory(ttlMs, trace[..i], token);
        }
        ReplyFromHistory(ttlMs, trace, i, "");
        assert AreLive(ttlMs, trace[..i], Live(sessions, trace[i].now), trace[i].now);
      case _ => ReplyFromHistory(ttlMs, trace, i, "");
    }
  }

  // ------------------------------------------------------------------ evictions

  /** The sessions that a call has removed. */
  function Gone(before: Store, after: Store): set<string> {
    before.sessions.Keys - after.sessions.Keys
  }

  /** The call notices whether the session under `token` has expired. */
  predicate LooksAt(op: Op, token: string) {
    op.Sweep? || op == Get(token) || op == Touch(token)
  }

  /**
   A session goes exactly if it is looked at and its time is over, if it is deleted, or when the store stops; those that
   go because their time is over are counted, and so is a session created.
   */
  ghost predicate EvictsExactly(before: Store, after: Store, c: Call) {
    && (forall token :: token in before.sessions ==>
          (token in Gone(before, after) <==>
             || (LooksAt(c.op, token) && c.now >= before.sessions[token].expiresAt)
             || c.op == Delete(token) || c.op.Stop?))
    && after.totalCreated == before.totalCreated + (if c.op.Create? then 1 else 0)
    && after.expiredCleaned
       == before.expiredCleaned + if c.op.Delete? || c.op.Stop? then 0 else |Gone(before, after)|
  }

  /** Looking a session up removes that one, if its time is over, or none. */
  lemma LookupEvicts(ttlMs: int, store: Store, c: Call, token: string)
    requires c.op == Get(token) || c.op == Touch(token)
    ensures EvictsExactly(store, Step(ttlMs, store, c).0, c)
  {
    var after := Step(ttlMs, store, c).0;
    var expired := token in store.sessions && IsExpired(store.sessions[token], c.now);
    assert Gone(store, after) == if expired then {token} else {};
  }

  lemma SweepEvicts(ttlMs: int, store: Store, c: Call)
    requires c.op.Sweep?
    ensures EvictsExactly(store, Step(ttlMs, store, c).0, c)
  {
    var after := Step(ttlMs, store, c).0;
    assert Gone(store, after) == store.sessions.Keys - Live(store.sessions, c.now);
  }

  lemma EvictionsExactly(ttlMs: int, store: Store, c: Call)
    ensures EvictsExactly(store, Step(ttlMs, store, c).0, c)
  {
    match c.op
    case Get(token) => LookupEvicts(ttlMs, store, c, token);
    case Touch(token) => LookupEvicts(ttlMs, store, c, token);
    case Sweep => SweepEvicts(ttlMs, store, c);
    case Create(_, _, _) => assert Gone(store, Step(ttlMs, store, c).0) == {};
    case _ =>
  }
}
