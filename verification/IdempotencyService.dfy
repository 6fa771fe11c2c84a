/** `InMemoryIdempotencyStore` and the middleware over mutable fields, tied to the specification in `Idempotency`. */
module IdempotencyService {
  import opened Wrappers
  import opened Idempotency
  import Spec = Idempotency

  class InMemoryIdempotencyStore {
    const ttlMs: int
    var records: map<string, Entry>
    var inFlight: set<string>

    constructor (ttlMs: int)
      ensures this.ttlMs == ttlMs && View() == EMPTY.store
    {
      this.ttlMs, records, inFlight := ttlMs, map[], {};
    }

    function View(): Store
      reads this
    {
      Store(records, inFlight)
    }

    method Prune(key: string, now: int)
      modifies this
      ensures View() == PruneExpired(old(View()), key, now)
    {
      if key !in records || records[key].expiresAt.None? || records[key].expiresAt.value == 0 {
        return;
      }
      if now >= records[key].expiresAt.value {
        records := records - {key};
      }
    }

    method CheckAndReserve(key: string, now: int) returns (check: Check)
      modifies this
      ensures (View(), check) == Spec.CheckAndReserve(old(View()), key, now)
    {
      Prune(key, now);
      if key in records {
        return Cached(records[key].record);
      }
      if key in inFlight {
        return InFlight;
      }
      inFlight := inFlight + {key};
      return New;
    }

    method Save(key: string, record: Record, now: int)
      modifies this
      ensures View() == Spec.Save(old(View()), ttlMs, key, record, now)
    {
      inFlight := inFlight - {key};
      var expiresAt := if ttlMs != 0 then Some(now + ttlMs) else None;
      records := records[key := Entry(record, expiresAt)];
    }

    method Release(key: string)
      modifies this
      ensures View() == Spec.Release(old(View()), key)
    {
      inFlight := inFlight - {key};
    }
  }

  /** The middleware, with the flags its closures keep for each request. */
  class IdempotencyMiddleware {
    const store: InMemoryIdempotencyStore
    const shouldStore: int -> bool
    var exchanges: map<nat, Exchange>

    constructor (store: InMemoryIdempotencyStore, shouldStore: int -> bool)
      ensures this.store == store && this.shouldStore == shouldStore && exchanges == map[]
    {
      this.store, this.shouldStore, exchanges := store, shouldStore, map[];
    }

    function View(): System
      reads this, store
    {
      System(store.View(), exchanges)
    }

    function Rules(): Policy {
      Policy(store.ttlMs, shouldStore)
    }

    method OnRequest(request: nat, key: Option<string>, now: int) returns (reply: Reply)
      modifies this, store
      ensures (View(), reply) == Step(Rules(), old(View()), Arrive(request, key, now))
    {
      if key.None? {
        return Passed;
      }
      var check := store.CheckAndReserve(key.value, now);
      if check.Cached? {
        return Replayed(check.record);
      }
      if check.InFlight? {
        return Conflict;
      }
      exchanges := exchanges[request := Exchange(key.value, false, false)];
      return Started;
    }

    method OnFinish(request: nat, record: Record, now: int)
      requires request in exchanges
      modifies this, store
      ensures View() == Step(Rules(), old(View()), Finish(request, record, now)).0
    {
      var x := exchanges[request];
      exchanges := exchanges[request := x.(completed := true)];
      if !shouldStore(record.status) {
        store.Release(x.key);
        return;
      }
      store.Save(x.key, record, now);
    }

    method OnClose(request: nat)
      requires request in exchanges
      modifies this, store
      ensures View() == Step(Rules(), old(View()), Close(request)).0
    {
      var x := exchanges[request];
      if !x.completed {
        store.Release(x.key);
      }
      exchanges := exchanges[request := x.(closed := true)];
    }
  }
}
