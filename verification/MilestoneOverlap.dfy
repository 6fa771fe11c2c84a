/**
 "Milestone already validated": the handler tests for it, but awaits between the test and the mark.  A
 milestone is announced once as long as no two handlers are past the test for it at the same time, and
 any two that are can announce it twice.
 */
module MilestoneOverlap {
  import opened Wrappers
  import opened Milestones
  import opened MilestoneRuns

  /** Two handlers are past the test for the milestone. */
  ghost predicate Overlap(s: System, g: nat, h: nat, key: string) {
    g != h && g in s.handlers && h in s.handlers && PastTest(s.handlers[g], key) && PastTest(s.handlers[h], key)
  }

  ghost predicate Alone(s: System, key: string) {
    forall g, h :: !Overlap(s, g, h, key)
  }

  ghost predicate AnnouncedTwice(s: System, key: string) {
    exists i, j :: 0 <= i < j < |s.published| && KeyOf(s.published[i]) == key && KeyOf(s.published[j]) == key
  }

  predicate Announced(s: System, key: string) {
    exists i :: 0 <= i < |s.published| && KeyOf(s.published[i]) == key
  }

  // ------------------------------------------------------------------ alone, a milestone is announced once

  /** What a handler that is alone past the test for the milestone can rely on. */
  ghost predicate Undisturbed(s: System, phase: Phase, key: string) {
    PastTest(phase, key) ==> if phase.AwaitPublish? then !Announced(s, key) else !IsValidated(s, key)
  }

  ghost predicate Exclusive(s: System, key: string) {
    && !AnnouncedTwice(s, key)
    && forall h :: h in s.handlers ==> Undisturbed(s, s.handlers[h], key)
  }

  /** Nothing is announced before it is validated. */
  lemma AnnouncedIsValidated(start: Register, s: System, key: string)
    requires Sound(start, s) && Announced(s, key)
    ensures IsValidated(s, key)
  {
    var i :| 0 <= i < |s.published| && KeyOf(s.published[i]) == key;
    assert s.published[i] in s.published;
    assert MessageSound(s, s.published[i]);
  }

  lemma StaysUnannounced(s: System, phase: Phase, fault: Fault, now: int, key: string)
    requires !Announced(s, key) && !PastTest(phase, key)
    ensures !Announced(Continue(s, phase, fault, now).0, key)
  {
    var s' := Continue(s, phase, fault, now).0;
    forall i | 0 <= i < |s'.published|
      ensures KeyOf(s'.published[i]) != key
    {
      if i == |s.published| {
        assert phase.AwaitPublish? && KeyOf(s'.published[i]) == phase.request.Key();
      }
    }
  }

  /** A call of a handler that is not past the test for the milestone leaves it alone. */
  lemma OthersUndisturbed(s: System, phase: Phase, fault: Fault, now: int, other: Phase, key: string)
    requires Undisturbed(s, other, key) && !(PastTest(phase, key) && PastTest(other, key))
    ensures Undisturbed(Continue(s, phase, fault, now).0, other, key)
  {
    if PastTest(other, key) {
      if other.AwaitPublish? {
        StaysUnannounced(s, phase, fault, now, key);
      }
    }
  }

  lemma NextUndisturbed(start: Register, s: System, phase: Phase, fault: Fault, now: int, key: string)
    requires Sound(start, s) && Undisturbed(s, phase, key)
    ensures Undisturbed(Continue(s, phase, fault, now).0, Continue(s, phase, fault, now).1, key)
  {
    if phase.AwaitMark? && PastTest(phase, key) {
      var s' := Continue(s, phase, fault, now).0;
      assert s'.published == s.published;
      if Announced(s, key) {
        AnnouncedIsValidated(start, s, key);
      }
      assert !Announced(s', key);
    }
  }

  lemma AnnouncesOnce(s: System, phase: Phase, fault: Fault, now: int, key: string)
    requires !AnnouncedTwice(s, key) && Undisturbed(s, phase, key)
    ensures !AnnouncedTwice(Continue(s, phase, fault, now).0, key)
  {
    var s' := Continue(s, phase, fault, now).0;
    forall i, j | 0 <= i < j < |s'.published|
      ensures KeyOf(s'.published[i]) != key || KeyOf(s'.published[j]) != key
    {
      if j == |s.published| {
        assert KeyOf(s'.published[j]) == phase.request.Key();
      }
    }
  }

  lemma HandlersKept(s: System, phase: Phase, fault: Fault, now: int)
    ensures Continue(s, phase, fault, now).0.handlers == s.handlers
  {
  }

  lemma SameRecords(s: System, s': System, phase: Phase, key: string)
    requires s.published == s'.published && s.milestones == s'.milestones
    ensures Undisturbed(s, phase, key) ==> Undisturbed(s', phase, key)
  {
  }

  lemma StepKeepsExclusive(start: Register, s: System, step: Step, key: string)
    requires Sound(start, s) && Legal(s, step) && Alone(s, key) && Exclusive(s, key)
    ensures Exclusive(Take(s, step), key)
  {
    hide Sound, Continue, MilestoneKey, IsValidated;
    var s' := Take(s, step);
    match step {
      case Receive(h, r) =>
        forall g | g in s'.handlers
          ensures Undisturbed(s', s'.handlers[g], key)
        {
          if g != h {
            assert Undisturbed(s, s.handlers[g], key);
            SameRecords(s, s', s.handlers[g], key);
          }
        }
      case Resume(h, fault, now) =>
        if h in s.handlers {
          var phase := s.handlers[h];
          var (t, phase') := Continue(s, phase, fault, now);
          AnnouncesOnce(s, phase, fault, now, key);
          NextUndisturbed(start, s, phase, fault, now, key);
          SameRecords(t, s', phase', key);
          HandlersKept(s, phase, fault, now);
          forall g | g in s'.handlers && g != h
            ensures Undisturbed(s', s'.handlers[g], key)
          {
            assert !Overlap(s, g, h, key);
            OthersUndisturbed(s, phase, fault, now, s.handlers[g], key);
            SameRecords(t, s', s.handlers[g], key);
          }
        }
    }
  }

  lemma {:induction false} ExclusiveWhileAlone(start: Register, assignments: Assignments, steps: seq<Step>, key: string)
    requires LegalRun(Initial(start, assignments), steps)
    requires forall n :: 0 <= n < |steps| ==> Alone(After(Initial(start, assignments), steps[..n]), key)
    ensures Exclusive(After(Initial(start, assignments), steps), key)
  {
    hide Sound, Take, Legal, Alone;
    if steps != [] {
      var n := |steps| - 1;
      assert forall i :: 0 <= i < n ==> steps[..n][..i] == steps[..i];
      ExclusiveWhileAlone(start, assignments, steps[..n], key);
      ReachableStatesSound(start, assignments, steps[..n]);
      StepKeepsExclusive(start, After(Initial(start, assignments), steps[..n]), steps[n], key);
    }
  }

  // ------------------------------------------------------------------ two past the test announce twice

  lemma PastTestIsKnown(start: Register, s: System, h: nat, key: string)
    requires Sound(start, s) && h in s.handlers && PastTest(s.handlers[h], key)
    ensures key in s.milestones
  {
    assert PhaseSound(start, s, s.handlers[h]);
  }

  /** Wherever a run leaves two handlers past the test for a milestone, it can go on to announce it twice. */
  lemma OverlapAnnouncesTwice(start: Register, assignments: Assignments, steps: seq<Step>,
                              g: nat, h: nat, key: string, now: int)
    requires LegalRun(Initial(start, assignments), steps)
    requires Overlap(After(Initial(start, assignments), steps), g, h, key)
    ensures var more := steps + Works3(g, now) + Works3(h, now);
            LegalRun(Initial(start, assignments), more) && AnnouncedTwice(After(Initial(start, assignments), more), key)
  {
    var s := After(Initial(start, assignments), steps);
    ReachableStatesSound(start, assignments, steps);
    PastTestIsKnown(start, s, h, key);
    hide After, LegalRun, Sound, Take3, Take;
    RunsToTheEnd(s, g, now, key);
    RunsToTheEnd(Take3(s, g, now), h, now, key);
    AfterThreeMore(Initial(start, assignments), steps, g, now);
    AfterThreeMore(Initial(start, assignments), steps + Works3(g, now), h, now);
    var s1 := Take3(s, g, now);
    var s2 := Take3(s1, h, now);
    assert s2.published[|s.published|] == s2.published[..|s1.published|][|s.published|];
    assert KeyOf(s2.published[|s.published|]) == key && KeyOf(s2.published[|s1.published|]) == key;
  }

  /**
   In a run that announces a milestone twice, some earlier state has two handlers past the test for that
   milestone.
   */
  lemma AnnouncedTwiceNeedsOverlap(start: Register, assignments: Assignments, steps: seq<Step>, key: string)
    requires LegalRun(Initial(start, assignments), steps)
    requires AnnouncedTwice(After(Initial(start, assignments), steps), key)
    ensures exists n :: 0 <= n < |steps| && LegalRun(Initial(start, assignments), steps[..n])
                        && !Alone(After(Initial(start, assignments), steps[..n]), key)
  {
    hide Alone, After, AnnouncedTwice;
    if forall n :: 0 <= n < |steps| ==> Alone(After(Initial(start, assignments), steps[..n]), key) {
      ExclusiveWhileAlone(start, assignments, steps, key);
    } else {
      var n :| 0 <= n < |steps| && !Alone(After(Initial(start, assignments), steps[..n]), key);
      assert forall i :: 0 <= i < n ==> steps[..n][..i] == steps[..i];
    }
  }

  // ------------------------------------------------------------------ exactly when

  /** Two requests for one milestone, each tested before either is recorded. */
  function Overlapping(g: nat, r: Request, h: nat, q: Request, now: int): seq<Step> {
    [Receive(g, r)] + [Receive(h, q)]
    + [Resume(g, Works, now)] + [Resume(h, Works, now)] + [Resume(g, Works, now)] + [Resume(h, Works, now)]
  }

  /** Any two requests that pass every check for one milestone can announce it twice. */
  lemma OverlapIsReachable(start: Register, assignments: Assignments,
                           g: nat, r: Request, h: nat, q: Request, now: int)
    requires g != h && r.Key() == q.Key()
    requires Cleared(start, assignments, r) && Cleared(start, assignments, q)
    ensures var all := Overlapping(g, r, h, q, now) + Works3(g, now) + Works3(h, now);
            && LegalRun(Initial(start, assignments), all)
            && AnnouncedTwice(After(Initial(start, assignments), all), r.Key())
  {
    hide Begin, AnnouncedTwice, Take, After, LegalRun, Continue, WasPending, MilestoneKey;
    var initial := Initial(start, assignments);
    EmptyRun(initial);
    Received(initial, [], g, r);
    assert [] + [Receive(g, r)] == [Receive(g, r)];
    var s1 := [Receive(g, r)];
    Received(initial, s1, h, q);
    var s2 := s1 + [Receive(h, q)];
    Assigned(initial, s2, g, r, now);
    var s3 := s2 + [Resume(g, Works, now)];
    Assigned(initial, s3, h, q, now);
    var s4 := s3 + [Resume(h, Works, now)];
    Tested(initial, s4, g, r, now);
    var s5 := s4 + [Resume(g, Works, now)];
    Tested(initial, s5, h, q, now);
    OverlapAnnouncesTwice(start, assignments, Overlapping(g, r, h, q, now), g, h, r.Key(), now);
  }

  lemma PastTestIsCleared(start: Register, s: System, h: nat, key: string)
    requires Sound(start, s) && h in s.handlers && PastTest(s.handlers[h], key)
    ensures Cleared(start, s.assignments, s.handlers[h].request)
  {
    assert PhaseSound(start, s, s.handlers[h]);
  }

  /** The request a handler is working on. */
  function RequestIn(phase: Phase): Option<Request> {
    if phase.Responded? || phase.Failed? then None else Some(phase.request)
  }

  /** The handler is working on a request for the milestone that passes every check. */
  ghost predicate HasCleared(start: Register, assignments: Assignments, s: System, h: nat, key: string) {
    && h in s.handlers && RequestIn(s.handlers[h]).Some?
    && RequestIn(s.handlers[h]).value.Key() == key && Cleared(start, assignments, RequestIn(s.handlers[h]).value)
  }

  /** In a run that announces a milestone twice, two handlers had requests for it that pass every check. */
  lemma TwiceNeedsTwoRequests(start: Register, assignments: Assignments, steps: seq<Step>, key: string)
    returns (n: nat, g: nat, h: nat)
    requires LegalRun(Initial(start, assignments), steps)
    requires AnnouncedTwice(After(Initial(start, assignments), steps), key)
    ensures n <= |steps| && g != h
    ensures var s := After(Initial(start, assignments), steps[..n]);
            HasCleared(start, assignments, s, g, key) && HasCleared(start, assignments, s, h, key)
  {
    hide After, AnnouncedTwice, Sound, Cleared, MilestoneKey, Initial;
    AnnouncedTwiceNeedsOverlap(start, assignments, steps, key);
    n :| 0 <= n < |steps| && LegalRun(Initial(start, assignments), steps[..n])
         && !Alone(After(Initial(start, assignments), steps[..n]), key);
    var s := After(Initial(start, assignments), steps[..n]);
    g, h :| Overlap(s, g, h, key);
    ReachableStatesSound(start, assignments, steps[..n]);
    AssignmentsAreFixed(start, assignments, steps[..n]);
    PastTestIsCleared(start, s, g, key);
    PastTestIsCleared(start, s, h, key);
  }

  /**
   For every milestone: no run announces it twice exactly if no request at all could get it validated.
   */
  lemma AnnouncedOnceExactlyWhenNothingPending(start: Register, assignments: Assignments, key: string)
    ensures (forall steps :: LegalRun(Initial(start, assignments), steps)
                             ==> !AnnouncedTwice(After(Initial(start, assignments), steps), key))
       <==> !exists r :: Cleared(start, assignments, r) && r.Key() == key
  {
    hide After, LegalRun, AnnouncedTwice, Initial, Cleared, Overlapping, MilestoneKey;
    forall r | Cleared(start, assignments, r) && r.Key() == key
      ensures exists steps :: LegalRun(Initial(start, assignments), steps)
                              && AnnouncedTwice(After(Initial(start, assignments), steps), key)
    {
      OverlapIsReachable(start, assignments, 0, r, 1, r, 0);
    }
    forall steps | LegalRun(Initial(start, assignments), steps)
                   && AnnouncedTwice(After(Initial(start, assignments), steps), key)
      ensures exists r :: Cleared(start, assignments, r) && r.Key() == key
    {
      var n, g, h := TwiceNeedsTwoRequests(start, assignments, steps, key);
    }
  }

  predicate Given(step: Step, requests: seq<Request>) {
    step.Receive? ==> step.handler < |requests| && step.request == requests[step.handler]
  }

  /** Only the given requests arrive in the run, the i-th at handler i, in any order and not necessarily all of them. */
  ghost predicate Serves(steps: seq<Step>, requests: seq<Request>) {
    forall i :: 0 <= i < |steps| ==> Given(steps[i], requests)
  }

  predicate HasRequest(phase: Phase, h: nat, requests: seq<Request>) {
    h < |requests| && (RequestIn(phase).Some? ==> RequestIn(phase).value == requests[h])
  }

  ghost predicate WorksOn(s: System, requests: seq<Request>) {
    forall h :: h in s.handlers ==> HasRequest(s.handlers[h], h, requests)
  }

  lemma ContinueKeepsRequest(s: System, phase: Phase, fault: Fault, now: int, h: nat, requests: seq<Request>)
    requires HasRequest(phase, h, requests)
    ensures HasRequest(Continue(s, phase, fault, now).1, h, requests)
  {
  }

  lemma StepKeepsRequests(s: System, step: Step, requests: seq<Request>)
    requires WorksOn(s, requests) && Given(step, requests)
    ensures WorksOn(Take(s, step), requests)
  {
    match step
    case Receive(h, r) => assert HasRequest(Begin(r), h, requests);
    case Resume(h, fault, now) =>
      if h in s.handlers {
        HandlersKept(s, s.handlers[h], fault, now);
        ContinueKeepsRequest(s, s.handlers[h], fault, now, h, requests);
      }
  }

  lemma {:induction false} RunKeepsRequests(start: Register, assignments: Assignments, steps: seq<Step>,
                                            requests: seq<Request>)
    requires Serves(steps, requests)
    ensures WorksOn(After(Initial(start, assignments), steps), requests)
  {
    hide Take, HasRequest, Given;
    if steps != [] {
      var n := |steps| - 1;
      RunKeepsRequests(start, assignments, steps[..n], requests);
      StepKeepsRequests(After(Initial(start, assignments), steps[..n]), steps[n], requests);
    }
  }

  lemma OverlapServes(requests: seq<Request>, g: nat, h: nat, now: int)
    requires g < |requests| && h < |requests|
    ensures Serves(Overlapping(g, requests[g], h, requests[h], now) + Works3(g, now) + Works3(h, now), requests)
  {
  }

  predicate ForKey(start: Register, assignments: Assignments, r: Request, key: string) {
    Cleared(start, assignments, r) && r.Key() == key
  }

  /** Two of the requests are for the milestone and pass every check. */
  ghost predicate Shared(start: Register, assignments: Assignments, requests: seq<Request>, key: string) {
    exists i, j :: && 0 <= i < j < |requests|
                   && ForKey(start, assignments, requests[i], key) && ForKey(start, assignments, requests[j], key)
  }

  lemma TwiceIsShared(start: Register, assignments: Assignments, steps: seq<Step>, requests: seq<Request>, key: string)
    requires LegalRun(Initial(start, assignments), steps) && Serves(steps, requests)
    requires AnnouncedTwice(After(Initial(start, assignments), steps), key)
    ensures Shared(start, assignments, requests, key)
  {
    hide After, LegalRun, AnnouncedTwice, Initial, Cleared, MilestoneKey, Given;
    var n, g, h := TwiceNeedsTwoRequests(start, assignments, steps, key);
    assert Serves(steps[..n], requests);
    RunKeepsRequests(start, assignments, steps[..n], requests);
    var s := After(Initial(start, assignments), steps[..n]);
    assert HasRequest(s.handlers[g], g, requests) && HasRequest(s.handlers[h], h, requests);
    var i, j := if g < h then g else h, if g < h then h else g;
    assert ForKey(start, assignments, requests[i], key) && ForKey(start, assignments, requests[j], key);
  }

  /**
   What a caller controls.  If only the given requests arrive, a milestone is announced at most once, under every
   interleaving and every pattern of failures, exactly if no two of those that pass every check are for it; what
   the others are for does not matter.
   */
  lemma AnnouncedOnceExactlyWhenNotShared(start: Register, assignments: Assignments, requests: seq<Request>,
                                          key: string)
    ensures (forall steps :: LegalRun(Initial(start, assignments), steps) && Serves(steps, requests)
                             ==> !AnnouncedTwice(After(Initial(start, assignments), steps), key))
       <==> !Shared(start, assignments, requests, key)
  {
    hide After, LegalRun, AnnouncedTwice, Initial, Cleared, Serves, Overlapping, MilestoneKey;
    if Shared(start, assignments, requests, key) {
      var i, j :| 0 <= i < j < |requests| && ForKey(start, assignments, requests[i], key)
                  && ForKey(start, assignments, requests[j], key);
      OverlapIsReachable(start, assignments, i, requests[i], j, requests[j], 0);
      OverlapServes(requests, i, j, 0);
    }
    forall steps | LegalRun(Initial(start, assignments), steps) && Serves(steps, requests)
                   && AnnouncedTwice(After(Initial(start, assignments), steps), key)
      ensures Shared(start, assignments, requests, key)
    {
      TwiceIsShared(start, assignments, steps, requests, key);
    }
  }
}
