/** `SessionStore` over session objects changed in place, tied to the specification in `ExpiringSessions`. */
module SessionStoreService {
  import opened ExpiringSessions

  class SessionObject {
    const token: string
    const userId: string
    const role: string
    const createdAt: int
    var expiresAt: int
    var lastSeenAt: int

    constructor (token: string, userId: string, role: string, expiresAt: int, createdAt: int, lastSeenAt: int)
      ensures Value() == Session(token, userId, role, expiresAt, createdAt, lastSeenAt)
    {
      this.token, this.userId, this.role, this.createdAt := token, userId, role, createdAt;
      this.expiresAt, this.lastSeenAt := expiresAt, lastSeenAt;
    }

    function Value(): Session
      reads this
    {
      Session(token, userId, role, expiresAt, createdAt, lastSeenAt)
    }
  }

  class SessionStore {
    const ttlMs: int
    var sessions: map<string, SessionObject>
    var expiredCleaned: nat
    var totalCreated: nat

    constructor (ttlMs: int := 3_600_000)
      ensures this.ttlMs == ttlMs && Valid() && View() == EMPTY
    {
      this.ttlMs, sessions, expiredCleaned, totalCreated := ttlMs, map[], 0, 0;
    }

    ghost predicate Valid()
      reads this
    {
      forall k, l :: k in sessions && l in sessions && k != l ==> sessions[k] != sessions[l]
    }

    function View(): Store
      reads this, sessions.Values
    {
      Store(map token | token in sessions :: sessions[token].Value(), expiredCleaned, totalCreated)
    }

    method Create(token: string, userId: string, role: string, now: int) returns (session: SessionObject)
      requires Valid()
      modifies this
      ensures Valid() && fresh(session) && sessions.Values <= old(sessions.Values) + {session}
      ensures (View(), Found(session.Value())) == Step(ttlMs, old(View()), Call(Op.Create(token, userId, role), now))
    {
      session := new SessionObject(token, userId, role, now + ttlMs, now, now);
      sessions := sessions[token := session];
      totalCreated := totalCreated + 1;
      assert View().sessions == old(View()).sessions[token := session.Value()];
    }

    method Evict(token: string)
      requires Valid()
      modifies this
      ensures Valid() && sessions == old(sessions) - {token}
      ensures expiredCleaned == old(expiredCleaned) + 1 && totalCreated == old(totalCreated)
    {
      sessions := sessions - {token};
      expiredCleaned := expiredCleaned + 1;
    }

    method Get(token: string, now: int) returns (session: SessionObject?)
      requires Valid()
      modifies this
      ensures Valid()
      ensures session != null ==> token in sessions && session == sessions[token]
      ensures (View(), if session == null then NotFound else Found(session.Value()))
           == Step(ttlMs, old(View()), Call(Op.Get(token), now))
    {
      if token !in sessions {
        return null;
      }
      session := sessions[token];
      if now >= session.expiresAt {
        Evict(token);
        assert View().sessions == old(View()).sessions - {token};
        return null;
      }
    }

    method Touch(token: string, now: int) returns (ok: bool)
      requires Valid()
      modifies this, sessions.Values
      ensures Valid() && sessions.Values <= old(sessions.Values)
      ensures (View(), Touched(ok)) == Step(ttlMs, old(View()), Call(Op.Touch(token), now))
    {
      if token !in sessions || now >= sessions[token].expiresAt {
        if token in sessions {
          Evict(token);
          assert View().sessions == old(View()).sessions - {token};
        }
        return false;
      }
      var session := sessions[token];
      session.expiresAt := now + ttlMs;
      session.lastSeenAt := now;
      assert View().sessions == old(View()).sessions[token := Renewed(old(View()).sessions[token], ttlMs, now)];
      return true;
    }

    method Delete(token: string)
      requires Valid()
      modifies this
      ensures Valid()
      ensures View() == Step(ttlMs, old(View()), Call(Op.Delete(token), 0)).0
    {
      sessions := sessions - {token};
    }

    static lemma WithoutBoth<K, V>(m: map<K, V>, gone: set<K>, k: K)
      ensures m - gone - {k} == m - (gone + {k})
    {
    }

    /** The loop of the sweep; `gone` names the sessions it evicted. */
    method EvictExpired(now: int) returns (evicted: nat, ghost gone: set<string>)
      requires Valid()
      modifies this
      ensures Valid()
      ensures gone == set token | token in old(sessions) && old(sessions)[token].expiresAt <= now
      ensures sessions == old(sessions) - gone
      ensures evicted == |gone| && expiredCleaned == old(expiredCleaned) + |gone| && totalCreated == old(totalCreated)
    {
      evicted := 0;
      ghost var before := sessions;
      var pending := sessions.Keys;
      gone := {};
      while pending != {}
        invariant Valid() && pending <= before.Keys && pending !! gone
        invariant gone == set token | token in before && token !in pending && before[token].expiresAt <= now
        invariant sessions == before - gone
        invariant evicted == |gone| && expiredCleaned == old(expiredCleaned) + |gone|
        invariant totalCreated == old(totalCreated)
        decreases pending
      {
        var token :| token in pending;
        pending := pending - {token};
        if now >= sessions[token].expiresAt {
          Evict(token);
          WithoutBoth(before, gone, token);
          evicted := evicted + 1;
          gone := gone + {token};
        }
      }
    }

    lemma SweptView(before: Store, after: Store, gone: set<string>, now: int)
      requires gone == set token | token in before.sessions && IsExpired(before.sessions[token], now)
      requires after == Store(before.sessions - gone, before.expiredCleaned + |gone|, before.totalCreated)
      ensures after == Step(ttlMs, before, Call(Op.Sweep, now)).0
    {
      assert gone == before.sessions.Keys - Live(before.sessions, now);
    }

    /** Visits every session and evicts those that have expired. */
    method Sweep(now: int) returns (evicted: nat)
      requires Valid()
      modifies this
      ensures Valid()
      ensures View() == Step(ttlMs, old(View()), Call(Op.Sweep, now)).0
      ensures evicted == expiredCleaned - old(expiredCleaned)
    {
      ghost var gone;
      evicted, gone := EvictExpired(now);
      hide Step;
      assert View().sessions == old(View()).sessions - gone;
      SweptView(old(View()), View(), gone, now);
    }

    /** Counts the sessions that have not expired. */
    method Stats(now: int) returns (active: nat)
      requires Valid()
      ensures Active(active) == Step(ttlMs, View(), Call(Op.Stats, now)).1
    {
      active := 0;
      var pending := sessions.Keys;
      ghost var seen: set<string> := {};
      while pending != {}
        invariant pending <= sessions.Keys
        invariant seen == set token | token in sessions && token !in pending && !IsExpired(sessions[token].Value(), now)
        invariant active == |seen|
        decreases pending
      {
        var token :| token in pending;
        pending := pending - {token};
        if sessions[token].expiresAt > now {
          assert token !in seen;
          seen := seen + {token};
          active := active + 1;
        }
      }
      assert seen == Live(View().sessions, now);
    }

    method Stop()
      requires Valid()
      modifies this
      ensures Valid()
      ensures View() == Step(ttlMs, old(View()), Call(Op.Stop, 0)).0
    {
      sessions := map[];
    }
  }
}
