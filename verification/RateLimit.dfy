/**
 The fixed-window rate limiter: `InMemoryRateLimitStore.increment` and the decision of the middleware.
 Time is in milliseconds; a trace is the requests that reach one store under one policy.
 */
module RateLimit {
  import opened Wrappers

  datatype Window = Window(count: int, resetAt: int)

  type Windows = map<string, Window>

  datatype Policy = Policy(limit: int, windowMs: int)

  datatype Request = Request(key: string, time: int)

  /** The entry for a key after one more request at `now`. */
  function Hit(entry: Option<Window>, windowMs: int, now: int): Window {
    if entry.None? || now >= entry.value.resetAt then Window(1, now + windowMs)
    else entry.value.(count := entry.value.count + 1)
  }

  function Lookup(windows: Windows, key: string): Option<Window> {
    if key in windows then Some(windows[key]) else None
  }

  // ------------------------------------------------------------------ the store

  /** A map entry, counted up in place. */
  class WindowEntry {
    var count: int
    var resetAt: int

    constructor (count: int, resetAt: int)
      ensures this.count == count && this.resetAt == resetAt
    {
      this.count, this.resetAt := count, resetAt;
    }
  }

  class InMemoryRateLimitStore {
    var windows: map<string, WindowEntry>

    constructor ()
      ensures Valid() && View() == map[]
    {
      windows := map[];
    }

    ghost predicate Valid()
      reads this
    {
      forall k, l :: k in windows && l in windows && k != l ==> windows[k] != windows[l]
    }

    function View(): Windows
      reads this, windows.Values
    {
      map k | k in windows :: Window(windows[k].count, windows[k].resetAt)
    }

    method Increment(key: string, windowMs: int, now: int) returns (count: int, resetAt: int)
      requires Valid()
      modifies this, windows.Values
      ensures Valid() && fresh(windows.Values - old(windows.Values))
      ensures Window(count, resetAt) == Hit(Lookup(old(View()), key), windowMs, now)
      ensures View() == old(View())[key := Window(count, resetAt)]
    {
      if key !in windows || now >= windows[key].resetAt {
        var entry := new WindowEntry(1, now + windowMs);
        windows := windows[key := entry];
        return 1, entry.resetAt;
      }
      var existing := windows[key];
      existing.count := existing.count + 1;
      return existing.count, existing.resetAt;
    }

    method Reset(key: string)
      requires Valid()
      modifies this
      ensures Valid() && windows.Values <= old(windows.Values)
      ensures View() == old(View()) - {key}
    {
      windows := windows - {key};
    }
  }

  class RateLimitMiddleware {
    const store: InMemoryRateLimitStore
    const policy: Policy

    constructor (store: InMemoryRateLimitStore, policy: Policy)
      ensures this.store == store && this.policy == policy
    {
      this.store, this.policy := store, policy;
    }

    /** The key is absent on a per-user route without a user: the request passes uncounted. */
    method Handle(key: Option<string>, now: int) returns (allowed: bool)
      requires store.Valid()
      modifies store, store.windows.Values
      ensures store.Valid()
      ensures key.None? ==> allowed && store.View() == old(store.View())
      ensures key.Some? ==>
                var entry := Hit(Lookup(old(store.View()), key.value), policy.windowMs, now);
                store.View() == old(store.View())[key.value := entry] && allowed == (entry.count <= policy.limit)
    {
      if key.None? {
        return true;
      }
      var count, resetAt := store.Increment(key.value, policy.windowMs, now);
      allowed := count <= policy.limit;
    }
  }

  // ------------------------------------------------------------------ traces

  /** The store after the first `n` requests. */
  function After(p: Policy, trace: seq<Request>, n: nat): Windows
    requires n <= |trace|
  {
    if n == 0 then map[]
    else
      var before := After(p, trace, n - 1);
      var r := trace[n - 1];
      before[r.key := Hit(Lookup(before, r.key), p.windowMs, r.time)]
  }

  /** The entry of the request's key once the request has been counted. */
  function EntryOf(p: Policy, trace: seq<Request>, i: nat): Window
    requires i < |trace|
  {
    Hit(Lookup(After(p, trace, i), trace[i].key), p.windowMs, trace[i].time)
  }

  predicate Admitted(p: Policy, trace: seq<Request>, i: nat)
    requires i < |trace|
  {
    EntryOf(p, trace, i).count <= p.limit
  }

  ghost predicate Monotone(trace: seq<Request>) {
    forall i, j :: 0 <= i <= j < |trace| ==> trace[i].time <= trace[j].time
  }

  /**
   How many of the requests numbered from `lo` below `hi`, with this key and a time in [earliest, latest],
   are admitted.
   */
  function AdmittedCount(p: Policy, trace: seq<Request>, key: string, lo: nat, hi: nat, earliest: int,
                         latest: int): (n: nat)
    requires lo <= hi <= |trace|
    decreases hi - lo
  {
    if lo == hi then 0
    else
      (if trace[lo].key == key && earliest <= trace[lo].time <= latest && Admitted(p, trace, lo) then 1 else 0)
      + AdmittedCount(p, trace, key, lo + 1, hi, earliest, latest)
  }

  lemma {:induction false} NoneLater(p: Policy, trace: seq<Request>, key: string, lo: nat, hi: nat, earliest: int,
                                     latest: int)
    requires Monotone(trace) && lo <= hi <= |trace|
    requires lo < hi ==> trace[lo].time > latest
    ensures AdmittedCount(p, trace, key, lo, hi, earliest, latest) == 0
    decreases hi - lo
  {
    if lo < hi {
      NoneLater(p, trace, key, lo + 1, hi, earliest, latest);
    }
  }

  function Remaining(p: Policy, entry: Window): nat {
    if p.limit <= entry.count then 0 else p.limit - entry.count
  }

  lemma Multiples(m: nat, x: int)
    requires x >= 0
    ensures m * x >= 0
    ensures m > 0 ==> m * x == (m - 1) * x + x
    ensures m == 0 ==> m * x == 0
  {
  }

  /**
   From a state with an open window, requests before the end of the m-th window after it can be admitted
   at most `Remaining` plus `m * limit` times.
   */
  lemma {:induction false} FromOpenWindow(p: Policy, trace: seq<Request>, key: string, i: nat, entry: Window, m: nat,
                                          earliest: int, latest: int)
    requires Monotone(trace) && i <= |trace| && p.windowMs > 0 && p.limit >= 0
    requires Lookup(After(p, trace, i), key) == Some(entry) && entry.count >= 1
    requires latest < entry.resetAt + m * p.windowMs
    ensures AdmittedCount(p, trace, key, i, |trace|, earliest, latest) <= Remaining(p, entry) + m * p.limit
    decreases |trace| - i
  {
    if i < |trace| {
      var r := trace[i];
      var next := After(p, trace, i + 1);
      if r.key != key {
        FromOpenWindow(p, trace, key, i + 1, entry, m, earliest, latest);
      } else if r.time > latest {
        NoneLater(p, trace, key, i, |trace|, earliest, latest);
        assert m * p.limit >= 0;
      } else if r.time < entry.resetAt {
        FromOpenWindow(p, trace, key, i + 1, entry.(count := entry.count + 1), m, earliest, latest);
      } else {
        Multiples(m, p.windowMs);
        Multiples(m, p.limit);
        FromOpenWindow(p, trace, key, i + 1, Window(1, r.time + p.windowMs), m - 1, earliest, latest);
      }
    }
  }

  /** In every reachable store a window has counted at least one request. */
  lemma {:induction false} CountsArePositive(p: Policy, trace: seq<Request>, n: nat, key: string)
    requires n <= |trace|
    ensures key in After(p, trace, n) ==> After(p, trace, n)[key].count >= 1
  {
    if n > 0 {
      CountsArePositive(p, trace, n - 1, key);
    }
  }

  /**
   Any interval of length k windows, both ends included, admits at most (k+1) * limit requests of a key,
   wherever it starts.
   */
  lemma {:induction false} IntervalBound(p: Policy, trace: seq<Request>, key: string, i: nat, start: int, k: nat)
    requires Monotone(trace) && i <= |trace| && p.windowMs > 0 && p.limit >= 0
    ensures AdmittedCount(p, trace, key, i, |trace|, start, start + k * p.windowMs) <= (k + 1) * p.limit
    decreases |trace| - i
  {
    var latest := start + k * p.windowMs;
    Multiples(k + 1, p.limit);
    if i < |trace| {
      var r := trace[i];
      if r.key != key || r.time < start {
        IntervalBound(p, trace, key, i + 1, start, k);
      } else if r.time > latest {
        NoneLater(p, trace, key, i, |trace|, start, latest);
      } else {
        var entry := EntryOf(p, trace, i);
        CountsArePositive(p, trace, i, key);
        FromOpenWindow(p, trace, key, i + 1, entry, k, start, latest);
      }
    }
  }

  // ------------------------------------------------------------------ the bound is attained

  function Burst(p: Policy, key: string, time: int): seq<Request>
    requires p.limit >= 0
  {
    seq(p.limit, _ => Request(key, time))
  }

  /** k+1 full bursts, one window apart. */
  function Bursts(p: Policy, key: string, start: int, k: nat): (trace: seq<Request>)
    requires p.limit >= 0
  {
    if k == 0 then Burst(p, key, start) else Bursts(p, key, start, k - 1) + Burst(p, key, start + k * p.windowMs)
  }

  lemma {:induction false} BurstTimes(p: Policy, key: string, start: int, k: nat)
    requires p.limit >= 0 && p.windowMs > 0
    ensures |Bursts(p, key, start, k)| == (k + 1) * p.limit
    ensures Monotone(Bursts(p, key, start, k))
    ensures forall i :: 0 <= i < |Bursts(p, key, start, k)| ==>
              && Bursts(p, key, start, k)[i].key == key
              && start <= Bursts(p, key, start, k)[i].time <= start + k * p.windowMs
  {
    Multiples(k, p.windowMs);
    Multiples(k + 1, p.limit);
    if k > 0 {
      BurstTimes(p, key, start, k - 1);
    }
  }

  /** In a burst that finds the window closed, every request is admitted. */
  lemma {:induction false} BurstIsAdmitted(p: Policy, trace: seq<Request>, key: string, n: nat, i: nat, time: int)
    requires p.limit >= i && n + i <= |trace| && p.windowMs > 0
    requires forall j :: n <= j < n + i ==> trace[j] == Request(key, time)
    requires key in After(p, trace, n) ==> After(p, trace, n)[key].resetAt <= time
    ensures forall j :: n <= j < n + i ==> Admitted(p, trace, j)
    ensures i > 0 ==> Lookup(After(p, trace, n + i), key) == Some(Window(i, time + p.windowMs))
    decreases i
  {
    if i > 0 {
      BurstIsAdmitted(p, trace, key, n, i - 1, time);
      assert trace[n + i - 1] == Request(key, time);
    }
  }

  lemma {:induction false} AfterPrefix(p: Policy, trace: seq<Request>, more: seq<Request>, n: nat)
    requires n <= |trace|
    ensures After(p, trace + more, n) == After(p, trace, n)
  {
    if n > 0 {
      AfterPrefix(p, trace, more, n - 1);
    }
  }

  lemma AdmittedPrefix(p: Policy, trace: seq<Request>, more: seq<Request>, j: nat)
    requires j < |trace|
    ensures Admitted(p, trace + more, j) == Admitted(p, trace, j)
  {
    AfterPrefix(p, trace, more, j);
  }

  lemma NothingBefore(p: Policy, trace: seq<Request>)
    ensures After(p, trace, 0) == map[]
  {}

  lemma {:induction false} BurstsAreAdmitted(p: Policy, key: string, start: int, k: nat)
    requires p.limit >= 1 && p.windowMs > 0
    ensures var trace := Bursts(p, key, start, k);
            && (forall j :: 0 <= j < |trace| ==> Admitted(p, trace, j))
            && Lookup(After(p, trace, |trace|), key) == Some(Window(p.limit, start + k * p.windowMs + p.windowMs))
  {
    hide Admitted, After;
    var trace := Bursts(p, key, start, k);
    Multiples(k, p.windowMs);
    if k == 0 {
      NothingBefore(p, trace);
      BurstIsAdmitted(p, trace, key, 0, p.limit, start);
    } else {
      var before := Bursts(p, key, start, k - 1);
      var burst := Burst(p, key, start + k * p.windowMs);
      BurstsAreAdmitted(p, key, start, k - 1);
      AfterPrefix(p, before, burst, |before|);
      BurstIsAdmitted(p, trace, key, |before|, p.limit, start + k * p.windowMs);
      forall j | 0 <= j < |before|
        ensures Admitted(p, trace, j)
      {
        AdmittedPrefix(p, before, burst, j);
      }
    }
  }

  lemma {:induction false} AllCounted(p: Policy, trace: seq<Request>, key: string, lo: nat, earliest: int, latest: int)
    requires lo <= |trace|
    requires forall j :: lo <= j < |trace| ==>
               trace[j].key == key && earliest <= trace[j].time <= latest && Admitted(p, trace, j)
    ensures AdmittedCount(p, trace, key, lo, |trace|, earliest, latest) == |trace| - lo
    decreases |trace| - lo
  {
    if lo < |trace| {
      AllCounted(p, trace, key, lo + 1, earliest, latest);
    }
  }

  /** For every limit, window, start and k there is a trace for which the bound is an equality. */
  lemma IntervalBoundAttained(p: Policy, key: string, start: int, k: nat)
    requires p.limit >= 1 && p.windowMs > 0
    ensures var trace := Bursts(p, key, start, k);
            && Monotone(trace)
            && AdmittedCount(p, trace, key, 0, |trace|, start, start + k * p.windowMs) == (k + 1) * p.limit
  {
    hide Admitted, After, Bursts, Burst, AdmittedCount;
    BurstTimes(p, key, start, k);
    BurstsAreAdmitted(p, key, start, k);
    AllCounted(p, Bursts(p, key, start, k), key, 0, start, start + k * p.windowMs);
  }

  // ------------------------------------------------------------------ refusals

  /** The part of the trace an entry stands for: the window [resetAt - windowMs, resetAt). */
  function AdmittedInWindow(p: Policy, trace: seq<Request>, key: string, n: nat, entry: Window): nat
    requires n <= |trace|
  {
    AdmittedCount(p, trace, key, 0, n, entry.resetAt - p.windowMs, entry.resetAt - 1)
  }

  lemma {:induction false} CountOneMore(p: Policy, trace: seq<Request>, key: string, lo: nat, hi: nat, earliest: int,
                                        latest: int)
    requires lo <= hi < |trace|
    ensures AdmittedCount(p, trace, key, lo, hi + 1, earliest, latest)
         == AdmittedCount(p, trace, key, lo, hi, earliest, latest)
            + if trace[hi].key == key && earliest <= trace[hi].time <= latest && Admitted(p, trace, hi) then 1 else 0
    decreases hi - lo
  {
    if lo < hi {
      CountOneMore(p, trace, key, lo + 1, hi, earliest, latest);
    }
  }

  lemma {:induction false} NoneBefore(p: Policy, trace: seq<Request>, key: string, lo: nat, hi: nat, earliest: int,
                                      latest: int)
    requires lo <= hi <= |trace|
    requires forall i :: lo <= i < hi && trace[i].key == key ==> trace[i].time < earliest
    ensures AdmittedCount(p, trace, key, lo, hi, earliest, latest) == 0
    decreases hi - lo
  {
    if lo < hi {
      NoneBefore(p, trace, key, lo + 1, hi, earliest, latest);
    }
  }

  ghost predicate Witnessed(p: Policy, trace: seq<Request>, key: string, n: nat)
    requires n <= |trace|
  {
    match Lookup(After(p, trace, n), key)
    case None => forall i :: 0 <= i < n ==> trace[i].key != key
    case Some(entry) =>
      && entry.count >= 1
      && (forall i :: 0 <= i < n && trace[i].key == key ==> trace[i].time < entry.resetAt)
      && AdmittedInWindow(p, trace, key, n, entry) == if entry.count <= p.limit then entry.count else p.limit
  }

  /** A window starts at a request that is not later than the present. */
  lemma {:induction false} OpenSince(p: Policy, trace: seq<Request>, key: string, n: nat)
    requires Monotone(trace) && n < |trace|
    ensures key in After(p, trace, n) ==> After(p, trace, n)[key].resetAt - p.windowMs <= trace[n].time
  {
    if n > 0 {
      OpenSince(p, trace, key, n - 1);
      assert trace[n - 1].time <= trace[n].time;
    }
  }

  lemma OtherKeyKeepsWitness(p: Policy, trace: seq<Request>, key: string, n: nat)
    requires n < |trace| && trace[n].key != key && Witnessed(p, trace, key, n)
    ensures Witnessed(p, trace, key, n + 1)
  {
    hide AdmittedCount;
    var entry := Lookup(After(p, trace, n), key);
    assert Lookup(After(p, trace, n + 1), key) == entry;
    if entry.Some? {
      CountOneMore(p, trace, key, 0, n, entry.value.resetAt - p.windowMs, entry.value.resetAt - 1);
    }
  }

  lemma RequestKeepsWitness(p: Policy, trace: seq<Request>, n: nat)
    requires Monotone(trace) && n < |trace| && p.windowMs > 0 && p.limit >= 0
    requires Witnessed(p, trace, trace[n].key, n)
    ensures Witnessed(p, trace, trace[n].key, n + 1)
  {
    hide AdmittedCount;
    var key, now := trace[n].key, trace[n].time;
    var before, entry := Lookup(After(p, trace, n), key), EntryOf(p, trace, n);
    assert Lookup(After(p, trace, n + 1), key) == Some(entry);
    CountOneMore(p, trace, key, 0, n, entry.resetAt - p.windowMs, entry.resetAt - 1);
    if before.None? || now >= before.value.resetAt {
      NoneBefore(p, trace, key, 0, n, now, now + p.windowMs - 1);
    } else {
      OpenSince(p, trace, key, n);
    }
  }

  /** In every reachable store, an entry's count tells how many requests of its window were admitted. */
  lemma {:induction false} CountsAreWitnessed(p: Policy, trace: seq<Request>, key: string, n: nat)
    requires Monotone(trace) && n <= |trace| && p.windowMs > 0 && p.limit >= 0
    ensures Witnessed(p, trace, key, n)
  {
    if n > 0 {
      CountsAreWitnessed(p, trace, key, n - 1);
      if trace[n - 1].key == key {
        RequestKeepsWitness(p, trace, n - 1);
      } else {
        OtherKeyKeepsWitness(p, trace, key, n - 1);
      }
    }
  }

  /** A limit of zero admits nothing. */
  lemma {:induction false} NothingAdmitted(p: Policy, trace: seq<Request>, key: string, lo: nat, hi: nat,
                                           earliest: int, latest: int)
    requires lo <= hi <= |trace| && p.limit == 0
    ensures AdmittedCount(p, trace, key, lo, hi, earliest, latest) == 0
    decreases hi - lo
  {
    if lo < hi {
      NothingAdmitted(p, trace, key, lo + 1, hi, earliest, latest);
      CountsArePositive(p, trace, lo, trace[lo].key);
    }
  }

  /** A request is refused only if exactly `limit` earlier requests of its key were admitted in its window. */
  lemma RefusalIsWitnessed(p: Policy, trace: seq<Request>, i: nat)
    requires Monotone(trace) && i < |trace| && p.windowMs > 0 && p.limit >= 0
    requires !Admitted(p, trace, i)
    ensures var entry := EntryOf(p, trace, i);
            && entry.resetAt - p.windowMs <= trace[i].time < entry.resetAt
            && AdmittedInWindow(p, trace, trace[i].key, i, entry) == p.limit
  {
    CountsAreWitnessed(p, trace, trace[i].key, i);
    OpenSince(p, trace, trace[i].key, i);
    if p.limit == 0 {
      var entry := EntryOf(p, trace, i);
      NothingAdmitted(p, trace, trace[i].key, 0, i, entry.resetAt - p.windowMs, entry.resetAt - 1);
    }
  }

  // ------------------------------------------------------------------ decisions, from the requests alone

  /** The last of the first `n` requests with the key. */
  function LastOf(trace: seq<Request>, key: string, n: nat): (last: Option<nat>)
    requires n <= |trace|
    ensures last.Some? ==> last.value < n && trace[last.value].key == key
  {
    if n == 0 then None
    else if trace[n - 1].key == key then Some(n - 1)
    else LastOf(trace, key, n - 1)
  }

  /** The request that opened the window the i-th is counted in: itself, if the window of the one before is over. */
  function Opener(p: Policy, trace: seq<Request>, i: nat): (opener: nat)
    requires i < |trace|
    ensures opener <= i && trace[opener].key == trace[i].key
  {
    match LastOf(trace, trace[i].key, i)
    case None => i
    case Some(j) =>
      var opener := Opener(p, trace, j);
      if trace[i].time >= trace[opener].time + p.windowMs then i else opener
  }

  /** The requests with the key among those from `lo` up to but not including `hi`. */
  function Requests(trace: seq<Request>, key: string, lo: nat, hi: nat): nat
    requires lo <= hi <= |trace|
    decreases hi
  {
    if lo == hi then 0 else Requests(trace, key, lo, hi - 1) + if trace[hi - 1].key == key then 1 else 0
  }

  /** What the store holds for a key: the requests since its window was opened, and the window's end. */
  lemma {:induction false} StoreExactly(p: Policy, trace: seq<Request>, key: string, n: nat)
    requires n <= |trace|
    ensures Lookup(After(p, trace, n), key)
         == match LastOf(trace, key, n)
            case None => None
            case Some(j) =>
              Some(Window(Requests(trace, key, Opener(p, trace, j), n), trace[Opener(p, trace, j)].time + p.windowMs))
  {
    if n > 0 {
      StoreExactly(p, trace, key, n - 1);
    }
  }

  /**
   On every trace, whatever the clock does: a request passes exactly if, with it, at most `limit` requests of its key
   have come since the one that opened the window.
   */
  lemma AdmittedExactly(p: Policy, trace: seq<Request>, i: nat)
    requires i < |trace|
    ensures var opener := Opener(p, trace, i);
            && EntryOf(p, trace, i).resetAt == trace[opener].time + p.windowMs
            && (Admitted(p, trace, i) <==> Requests(trace, trace[i].key, opener, i + 1) <= p.limit)
  {
    StoreExactly(p, trace, trace[i].key, i + 1);
  }
}
