/**
 Idempotency keys: `InMemoryIdempotencyStore` and the reserve / finish / close protocol of the middleware.
 The events of many requests interleave; each event is one synchronous piece of the program.
 */
module Idempotency {
  import opened Wrappers

  datatype Record = Record(status: int, body: string, contentType: Option<string>, createdAt: int)

  datatype Entry = Entry(record: Record, expiresAt: Option<int>)

  datatype Store = Store(records: map<string, Entry>, inFlight: set<string>)

  datatype Check = New | InFlight | Cached(record: Record)

  /** An expiry of zero reads as none, as the program's truthiness test does. */
  predicate Expired(entry: Entry, now: int) {
    entry.expiresAt.Some? && entry.expiresAt.value != 0 && now >= entry.expiresAt.value
  }

  function PruneExpired(store: Store, key: string, now: int): Store {
    if key in store.records && Expired(store.records[key], now) then store.(records := store.records - {key}) else store
  }

  function CheckAndReserve(store: Store, key: string, now: int): (Store, Check) {
    var pruned := PruneExpired(store, key, now);
    if key in pruned.records then (pruned, Cached(pruned.records[key].record))
    else if key in pruned.inFlight then (pruned, InFlight)
    else (pruned.(inFlight := pruned.inFlight + {key}), New)
  }

  /** A time to live of zero means none. */
  function EntryFor(ttlMs: int, record: Record, now: int): Entry {
    Entry(record, if ttlMs != 0 then Some(now + ttlMs) else None)
  }

  function Save(store: Store, ttlMs: int, key: string, record: Record, now: int): Store {
    Store(store.records[key := EntryFor(ttlMs, record, now)], store.inFlight - {key})
  }

  function Release(store: Store, key: string): Store {
    store.(inFlight := store.inFlight - {key})
  }

  // ------------------------------------------------------------------ what the store answers

  /**
   A record saved at `at` still answers at `now`: there is no time to live, or it is not over.  An expiry that comes
   out as zero reads as none.
   */
  predicate Lasts(ttlMs: int, at: int, now: int) {
    ttlMs == 0 || at + ttlMs == 0 || now < at + ttlMs
  }

  lemma ExpiryExactly(ttlMs: int, record: Record, at: int, now: int)
    ensures EntryFor(ttlMs, record, at).record == record
    ensures Expired(EntryFor(ttlMs, record, at), now) <==> !Lasts(ttlMs, at, now)
  {
  }

  /**
   After a save the key is answered with that record up to the end of its time to live, and is free from then on; a key
   that is answered is not reserved, one that was free is.
   */
  lemma SaveThenCheck(store: Store, ttlMs: int, key: string, record: Record, at: int, now: int)
    ensures var (after, check) := CheckAndReserve(Save(store, ttlMs, key, record, at), key, now);
            if ttlMs == 0 || at + ttlMs == 0 || now < at + ttlMs
            then check == Cached(record) && key !in after.inFlight
            else check == New && key in after.inFlight && key !in after.records
  {
    ExpiryExactly(ttlMs, record, at, now);
  }

  /** A key without a record is free once, is in flight from then on, and is free again after its release. */
  lemma ReserveThenCheck(store: Store, key: string, now: int, later: int)
    requires key !in store.records && key !in store.inFlight
    ensures var (reserved, check) := CheckAndReserve(store, key, now);
            && check == New
            && CheckAndReserve(reserved, key, later).1 == InFlight
            && CheckAndReserve(Release(reserved, key), key, later).1 == New
  {
  }

  /** Whatever happens to one key leaves the records and reservations of the others. */
  lemma OtherKeysKept(store: Store, ttlMs: int, key: string, record: Record, now: int, other: string)
    requires other != key
    ensures forall after :: after == CheckAndReserve(store, key, now).0 || after == Release(store, key)
                            || after == Save(store, ttlMs, key, record, now) ==>
              && (other in after.inFlight <==> other in store.inFlight)
              && (other in after.records <==> other in store.records)
              && (other in store.records ==> after.records[other] == store.records[other])
  {
  }

  // ------------------------------------------------------------------ the protocol

  /** A request whose handler was started: `completed` is the flag that 'finish' sets. */
  datatype Exchange = Exchange(key: string, completed: bool, closed: bool) {
    predicate Open() {
      !completed && !closed
    }
  }

  datatype System = System(store: Store, exchanges: map<nat, Exchange>)

  datatype Event =
    | Arrive(request: nat, key: Option<string>, now: int)
    | Finish(request: nat, record: Record, now: int)
    | Close(request: nat)

  datatype Reply = Passed | Started | Replayed(record: Record) | Conflict | Nothing

  datatype Policy = Policy(ttlMs: int, shouldStore: int -> bool)

  const EMPTY := System(Store(map[], {}), map[])

  /** The key is absent when the method is not covered or the header is blank. */
  function Step(p: Policy, s: System, e: Event): (System, Reply) {
    match e
    case Arrive(request, key, now) =>
      if key.None? then (s, Passed)
      else
        var (store, check) := CheckAndReserve(s.store, key.value, now);
        (match check
         case Cached(record) => (System(store, s.exchanges), Replayed(record))
         case InFlight => (System(store, s.exchanges), Conflict)
         case New => (System(store, s.exchanges[request := Exchange(key.value, false, false)]), Started))
    case Finish(request, record, now) =>
      if request !in s.exchanges then (s, Nothing)
      else
        var x := s.exchanges[request];
        var store := if p.shouldStore(record.status) then Save(s.store, p.ttlMs, x.key, record, now)
                     else Release(s.store, x.key);
        (System(store, s.exchanges[request := x.(completed := true)]), Nothing)
    case Close(request) =>
      if request !in s.exchanges then (s, Nothing)
      else
        var x := s.exchanges[request];
        var store := if x.completed then s.store else Release(s.store, x.key);
        (System(store, s.exchanges[request := x.(closed := true)]), Nothing)
  }

  /** Each event fires once, and 'finish' never after 'close'. */
  predicate Legal(s: System, e: Event) {
    match e
    case Arrive(request, _, _) => request !in s.exchanges
    case Finish(request, _, _) => request in s.exchanges && s.exchanges[request].Open()
    case Close(request) => request in s.exchanges && !s.exchanges[request].closed
  }

  function After(p: Policy, s: System, events: seq<Event>): System {
    if events == [] then s
    else Step(p, After(p, s, events[..|events| - 1]), events[|events| - 1]).0
  }

  ghost predicate LegalRun(p: Policy, s: System, events: seq<Event>) {
    forall i :: 0 <= i < |events| ==> Legal(After(p, s, events[..i]), events[i])
  }

  predicate Owns(s: System, request: nat, key: string) {
    request in s.exchanges && s.exchanges[request].Open() && s.exchanges[request].key == key
  }

  /** Reserved and stored keys are disjoint, and a key is reserved exactly while one open request owns it. */
  ghost predicate Sound(s: System) {
    && s.store.inFlight !! s.store.records.Keys
    && (forall key :: key in s.store.inFlight <==> exists r :: Owns(s, r, key))
    && (forall key, q, r :: Owns(s, q, key) && Owns(s, r, key) ==> q == r)
  }

  // ------------------------------------------------------------------ what every run keeps

  lemma ArriveKeepsSound(p: Policy, s: System, request: nat, key: string, now: int)
    requires Sound(s) && request !in s.exchanges
    ensures Sound(Step(p, s, Arrive(request, Some(key), now)).0)
  {
    var (s', reply) := Step(p, s, Arrive(request, Some(key), now));
    forall k, r
      ensures Owns(s', r, k) <==> Owns(s, r, k) || (reply.Started? && r == request && k == key)
    {
    }
    forall k
      ensures k in s'.store.inFlight <==> exists r :: Owns(s', r, k)
    {
      if k in s'.store.inFlight {
        if k in s.store.inFlight {
          var r :| Owns(s, r, k);
          assert Owns(s', r, k);
        } else {
          assert Owns(s', request, k);
        }
      }
    }
  }

  /** Ending the open request `r` gives its key back. */
  lemma EndKeepsSound(s: System, s': System, request: nat)
    requires Sound(s) && request in s.exchanges && s.exchanges[request].Open()
    requires var key := s.exchanges[request].key;
             && s'.store.inFlight == s.store.inFlight - {key}
             && s'.store.records.Keys <= s.store.records.Keys + {key}
             && request in s'.exchanges && !s'.exchanges[request].Open()
             && s'.exchanges == s.exchanges[request := s'.exchanges[request]]
    ensures Sound(s')
  {
    var key := s.exchanges[request].key;
    assert Owns(s, request, key);
    forall k, r
      ensures Owns(s', r, k) <==> Owns(s, r, k) && r != request
    {
    }
    forall k
      ensures k in s'.store.inFlight <==> exists r :: Owns(s', r, k)
    {
      if k in s'.store.inFlight {
        var r :| Owns(s, r, k);
        assert Owns(s', r, k);
      }
    }
  }

  /** Closing a request that has finished changes nothing that matters. */
  lemma CloseAfterFinish(p: Policy, s: System, request: nat)
    requires Sound(s) && request in s.exchanges && s.exchanges[request].completed
    ensures Sound(Step(p, s, Close(request)).0)
  {
    var s' := Step(p, s, Close(request)).0;
    assert forall k, r :: Owns(s', r, k) <==> Owns(s, r, k);
  }

  lemma StepKeepsSound(p: Policy, s: System, e: Event)
    requires Sound(s) && Legal(s, e)
    ensures Sound(Step(p, s, e).0)
  {
    match e
    case Arrive(request, key, now) =>
      if key.Some? {
        ArriveKeepsSound(p, s, request, key.value, now);
      }
    case Finish(request, _, _) => EndKeepsSound(s, Step(p, s, e).0, request);
    case Close(request) =>
      if s.exchanges[request].completed {
        CloseAfterFinish(p, s, request);
      } else {
        EndKeepsSound(s, Step(p, s, e).0, request);
      }
  }

  lemma {:induction false} RunKeepsSound(p: Policy, s: System, events: seq<Event>)
    requires Sound(s) && LegalRun(p, s, events)
    ensures Sound(After(p, s, events))
  {
    hide Step, Sound, Legal;
    if events != [] {
      var n := |events| - 1;
      assert forall i :: 0 <= i < n ==> events[..n][..i] == events[..i];
      RunKeepsSound(p, s, events[..n]);
      StepKeepsSound(p, After(p, s, events[..n]), events[n]);
    }
  }

  /**
   In every reachable state, reservations and records are disjoint and every reservation has exactly one
   open owner.
   */
  lemma ReachableStatesSound(p: Policy, events: seq<Event>)
    requires LegalRun(p, EMPTY, events)
    ensures Sound(After(p, EMPTY, events))
  {
    hide After, LegalRun;
    RunKeepsSound(p, EMPTY, events);
  }

  // ------------------------------------------------------------------ replies, from the history of one key

  /** What has become of a key: nothing, reserved by a request, or answered with a record that was saved at `at`. */
  datatype Standing = Free | Busy(request: nat) | Answered(record: Record, at: int)

  /** The key is not being answered any more, or never was, and nobody has it. */
  predicate IsVacant(ttlMs: int, k: Standing, now: int) {
    match k
    case Free => true
    case Busy(_) => false
    case Answered(_, at) => !Lasts(ttlMs, at, now)
  }

  /** What an event makes of one key; events of other keys, and of requests that do not have it, are nothing to it. */
  function NextStanding(p: Policy, k: Standing, e: Event, key: string): Standing {
    match e
    case Arrive(request, asked, now) => if asked == Some(key) && IsVacant(p.ttlMs, k, now) then Busy(request) else k
    case Finish(request, record, now) =>
      if k != Busy(request) then k
      else if p.shouldStore(record.status) then Answered(record, now)
      else Free
    case Close(request) => if k == Busy(request) then Free else k
  }

  function StandingOf(p: Policy, events: seq<Event>, key: string): Standing {
    if events == [] then Free
    else
      var n := |events| - 1;
      NextStanding(p, StandingOf(p, events[..n], key), events[n], key)
  }

  /** The store and the open requests say the same. */
  ghost predicate Shows(p: Policy, s: System, k: Standing, key: string) {
    match k
    case Free => key !in s.store.records && key !in s.store.inFlight
    case Busy(request) => Owns(s, request, key)
    case Answered(record, at) => key in s.store.records && s.store.records[key] == EntryFor(p.ttlMs, record, at)
  }

  lemma StepShows(p: Policy, s: System, e: Event, k: Standing, key: string)
    requires Sound(s) && Legal(s, e) && Shows(p, s, k, key)
    ensures Shows(p, Step(p, s, e).0, NextStanding(p, k, e, key), key)
  {
    match e
    case Arrive(request, asked, now) =>
      if k.Answered? {
        ExpiryExactly(p.ttlMs, k.record, k.at, now);
      }
    case Finish(request, _, _) => assert Owns(s, request, s.exchanges[request].key);
    case Close(request) =>
      if !s.exchanges[request].completed {
        assert Owns(s, request, s.exchanges[request].key);
      }
  }

  lemma NothingShows(p: Policy, key: string)
    ensures Shows(p, EMPTY, Free, key)
  {
  }

  lemma {:induction false} RunShows(p: Policy, events: seq<Event>, key: string)
    requires LegalRun(p, EMPTY, events)
    ensures Shows(p, After(p, EMPTY, events), StandingOf(p, events, key), key)
  {
    hide Sound, Step, Shows, NextStanding, Legal;
    if events != [] {
      var n := |events| - 1;
      assert forall i :: 0 <= i < n ==> events[..n][..i] == events[..i];
      RunShows(p, events[..n], key);
      ReachableStatesSound(p, events[..n]);
      StepShows(p, After(p, EMPTY, events[..n]), events[n], StandingOf(p, events[..n], key), key);
    } else {
      NothingShows(p, key);
    }
  }

  /**
   What a request is told after any run, from the history of its key alone: the record that was saved while its time to
   live is not over, a conflict while the request that reserved the key is neither finished nor closed, and else
   its handler is started.
   */
  lemma ReplyExactly(p: Policy, events: seq<Event>, request: nat, key: string, now: int)
    requires LegalRun(p, EMPTY, events)
    ensures Step(p, After(p, EMPTY, events), Arrive(request, Some(key), now)).1
         == match StandingOf(p, events, key)
            case Free => Started
            case Busy(_) => Conflict
            case Answered(record, at) => if Lasts(p.ttlMs, at, now) then Replayed(record) else Started
    ensures Step(p, After(p, EMPTY, events), Arrive(request, None, now)) == (After(p, EMPTY, events), Passed)
  {
    hide After, LegalRun, StandingOf;
    ReachableStatesSound(p, events);
    RunShows(p, events, key);
    var k := StandingOf(p, events, key);
    if k.Answered? {
      ExpiryExactly(p.ttlMs, k.record, k.at, now);
    }
  }

  // ------------------------------------------------------------------ replay

  ghost predicate Stored(s: System, key: string, entry: Entry) {
    key in s.store.records && s.store.records[key] == entry
  }

  /** The event asks for the key after the time to live of a record saved at `at`. */
  predicate TooLate(p: Policy, e: Event, key: string, at: int) {
    e.Arrive? && e.key == Some(key) && !Lasts(p.ttlMs, at, e.now)
  }

  lemma StoredStays(p: Policy, s: System, e: Event, key: string, record: Record, at: int)
    requires Sound(s) && Legal(s, e) && Stored(s, key, EntryFor(p.ttlMs, record, at)) && !TooLate(p, e, key, at)
    ensures Stored(Step(p, s, e).0, key, EntryFor(p.ttlMs, record, at))
  {
    if e.Arrive? {
      ExpiryExactly(p.ttlMs, record, at, e.now);
    }
    if e.Finish? {
      assert Owns(s, e.request, s.exchanges[e.request].key);
    }
  }

  lemma {:induction false} StoredUntilExpiry(p: Policy, s: System, events: seq<Event>,
                                             key: string, record: Record, at: int)
    requires Sound(s) && LegalRun(p, s, events) && Stored(s, key, EntryFor(p.ttlMs, record, at))
    requires forall i :: 0 <= i < |events| ==> !TooLate(p, events[i], key, at)
    ensures Sound(After(p, s, events)) && Stored(After(p, s, events), key, EntryFor(p.ttlMs, record, at))
  {
    hide Step, Sound, Legal, Stored, TooLate, EntryFor;
    RunKeepsSound(p, s, events);
    if events != [] {
      var n := |events| - 1;
      assert forall i :: 0 <= i < n ==> events[..n][..i] == events[..i];
      StoredUntilExpiry(p, s, events[..n], key, record, at);
      StoredStays(p, After(p, s, events[..n]), events[n], key, record, at);
    }
  }

  /**
   Once the owner of a key has finished with a response worth storing, every request with that key that
   arrives before the time to live is over (ever, without one) is answered with that owner's record, and no
   handler is started for it, whatever else happens in between.
   */
  lemma ReplayedUntilExpiry(p: Policy, s: System, owner: nat, record: Record, saved: int, events: seq<Event>, i: nat,
                            key: string)
    requires Sound(s) && Owns(s, owner, key) && p.shouldStore(record.status)
    requires var s' := Step(p, s, Finish(owner, record, saved)).0; LegalRun(p, s', events)
    requires i < |events| && events[i].Arrive? && events[i].key == Some(key)
    requires forall j :: 0 <= j <= i && events[j].Arrive? && events[j].key == Some(key) ==>
               p.ttlMs == 0 || saved + p.ttlMs == 0 || events[j].now < saved + p.ttlMs
    ensures var s' := Step(p, s, Finish(owner, record, saved)).0;
            Step(p, After(p, s', events[..i]), events[i]).1 == Replayed(record)
  {
    var s' := Step(p, s, Finish(owner, record, saved)).0;
    StepKeepsSound(p, s, Finish(owner, record, saved));
    assert forall j :: 0 <= j < i ==> events[..i][..j] == events[..j];
    StoredUntilExpiry(p, s', events[..i], key, record, saved);
    ExpiryExactly(p.ttlMs, record, saved, events[i].now);
  }

  // ------------------------------------------------------------------ why the order of events matters

  /**
   A response that finishes after it was closed would break the protocol exactly when its key has meanwhile
   been reserved by another request.
   */
  lemma LateFinish(p: Policy, s: System, request: nat, record: Record, now: int)
    requires Sound(s) && request in s.exchanges && s.exchanges[request].closed && !s.exchanges[request].completed
    ensures Sound(Step(p, s, Finish(request, record, now)).0) <==> s.exchanges[request].key !in s.store.inFlight
  {
    var key := s.exchanges[request].key;
    var s' := Step(p, s, Finish(request, record, now)).0;
    assert forall k, r :: Owns(s', r, k) <==> Owns(s, r, k);
    if key in s.store.inFlight {
      var r :| Owns(s, r, key);
      assert Owns(s', r, key);
    }
  }
}
