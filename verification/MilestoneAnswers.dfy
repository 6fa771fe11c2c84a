/**
 What the handler answers, told from the request, the assignments and the milestones: with which status it
 responds, and what a request that is served to the end leaves behind.
 */
module MilestoneAnswers {
  import opened Wrappers
  import opened Milestones
  import opened MilestoneRuns
  import opened MilestoneOverlap

  /** The request of a verifier that names a vault and a milestone. */
  predicate IsProper(r: Request) {
    r.verifierId != "" && r.role == "verifier" && r.vaultId != "" && r.milestoneId != ""
  }

  /** Before the first await: who is let through, and with which status each of the others is turned away. */
  lemma BeginExactly(r: Request)
    ensures Begin(r).AwaitAssigned? <==>
              r.verifierId != "" && r.role == "verifier" && r.vaultId != "" && r.milestoneId != ""
    ensures Begin(r).AwaitAssigned? ==> Begin(r) == AwaitAssigned(r)
    ensures Begin(r) == Responded(401) <==> r.verifierId == "" || r.role == ""
    ensures Begin(r) == Responded(403) <==> r.verifierId != "" && r.role != "" && r.role != "verifier"
    ensures Begin(r) == Responded(400) <==>
              r.verifierId != "" && r.role == "verifier" && (r.vaultId == "" || r.milestoneId == "")
    ensures Begin(r).AwaitAssigned? || Begin(r) in {Responded(401), Responded(403), Responded(400)}
  {
  }

  predicate IsAssigned(s: System, r: Request) {
    (r.vaultId, r.verifierId) in s.assignments
  }

  /** A message for the request has been published. */
  ghost predicate IsAnnounced(s: System, r: Request) {
    exists m :: && m in s.published && m.vaultId == r.vaultId && m.milestoneId == r.milestoneId
                && m.verifierId == r.verifierId
  }

  /**
   The statuses 401, 403, 400 and 404 are given exactly when the request, the assignments and the keys call for them;
   409 only for a milestone that is validated, and 200 only for one that was pending, is validated and announced. A
   handler that got further, or failed, works on the request of an assigned verifier.
   */
  ghost predicate IsJustified(start: Register, s: System, phase: Phase, r: Request) {
    var named := r.vaultId != "" && r.milestoneId != "";
    match phase
    case Responded(status) =>
      && (status == 401 <==> r.verifierId == "" || r.role == "")
      && (status == 403 <==>
            r.verifierId != "" && r.role != "" && (r.role != "verifier" || (named && !IsAssigned(s, r))))
      && (status == 400 <==> r.verifierId != "" && r.role == "verifier" && !named)
      && (status == 404 <==> IsProper(r) && IsAssigned(s, r) && r.Key() !in start)
      && (status == 409 ==> IsProper(r) && IsAssigned(s, r) && IsValidated(s, r.Key()))
      && (status == 200 ==> && IsProper(r) && IsAssigned(s, r) && WasPending(start, r.Key())
                            && IsValidated(s, r.Key()) && IsAnnounced(s, r))
      && status in {200, 400, 401, 403, 404, 409}
    case Failed => IsProper(r)
    case AwaitAssigned(_) => IsProper(r)
    case AwaitMilestone(_) => IsProper(r) && IsAssigned(s, r)
    case _ => IsProper(r) && IsAssigned(s, r) && WasPending(start, r.Key())
  }

  lemma JustifiedAtFirst(start: Register, s: System, r: Request)
    ensures IsJustified(start, s, Begin(r), r)
  {
    BeginExactly(r);
    hide Begin;
  }

  /** What is justified stays so. */
  lemma JustifiedLater(start: Register, s: System, s': System, phase: Phase, r: Request)
    requires IsJustified(start, s, phase, r) && Grows(s, s')
    ensures IsJustified(start, s', phase, r)
  {
    hide MilestoneKey;
    if IsAnnounced(s, r) {
      var m :| m in s.published && m.vaultId == r.vaultId && m.milestoneId == r.milestoneId
               && m.verifierId == r.verifierId;
      assert m in s'.published;
    }
  }

  lemma NextJustified(start: Register, s: System, phase: Phase, fault: Fault, now: int, r: Request)
    requires Sound(start, s) && PhaseSound(start, s, phase) && IsJustified(start, s, phase, r)
    requires RequestIn(phase).Some? ==> RequestIn(phase).value == r
    ensures IsJustified(start, Continue(s, phase, fault, now).0, Continue(s, phase, fault, now).1, r)
  {
    hide Begin, MilestoneKey, MessageSound, Backed;
    var (s', phase') := Continue(s, phase, fault, now);
    if phase.AwaitPublish? && fault == Works {
      var m := MessageFor(r, phase.now, phase.event);
      assert s'.published[|s.published|] == m;
      assert m in s'.published;
    }
    if phase.AwaitMilestone? && r.Key() in start {
      assert s.milestones[r.Key()].status == Pending ==> MilestoneSound(start, s, r.Key());
    }
    if phase.Responded? || phase.Failed? {
      ContinueGrows(s, phase, fault, now);
      JustifiedLater(start, s, s', phase, r);
    }
  }

  ghost predicate AllJustified(start: Register, s: System, requests: seq<Request>) {
    forall h :: h in s.handlers ==> h < |requests| && IsJustified(start, s, s.handlers[h], requests[h])
  }

  lemma HandlerIsSound(start: Register, s: System, h: nat)
    requires Sound(start, s) && h in s.handlers
    ensures PhaseSound(start, s, s.handlers[h])
  {
  }

  /** Between the call and the state with the new phase nothing else happens. */
  lemma SameButHandlers(s: System, s': System)
    requires s'.assignments == s.assignments && s'.events == s.events && s'.published == s.published
    requires s'.milestones == s.milestones
    ensures Grows(s, s')
  {
  }

  lemma ResumeKeepsJustified(start: Register, s: System, h: nat, fault: Fault, now: int, requests: seq<Request>)
    requires Sound(start, s) && h in s.handlers && WorksOn(s, requests)
    requires AllJustified(start, s, requests)
    ensures AllJustified(start, Take(s, Resume(h, fault, now)), requests)
  {
    hide Sound, IsJustified, Begin, Continue, Grows, PhaseSound;
    var phase := s.handlers[h];
    var (t, phase') := Continue(s, phase, fault, now);
    var s' := Take(s, Resume(h, fault, now));
    HandlersKept(s, phase, fault, now);
    HandlerIsSound(start, s, h);
    ContinueGrows(s, phase, fault, now);
    SameButHandlers(t, s');
    assert HasRequest(phase, h, requests);
    NextJustified(start, s, phase, fault, now, requests[h]);
    JustifiedLater(start, t, s', phase', requests[h]);
    forall g | g in s'.handlers && g != h
      ensures g < |requests| && IsJustified(start, s', s'.handlers[g], requests[g])
    {
      JustifiedLater(start, s, t, s.handlers[g], requests[g]);
      JustifiedLater(start, t, s', s.handlers[g], requests[g]);
    }
  }

  lemma StepKeepsJustified(start: Register, s: System, step: Step, requests: seq<Request>)
    requires Sound(start, s) && Legal(s, step) && WorksOn(s, requests) && Given(step, requests)
    requires AllJustified(start, s, requests)
    ensures AllJustified(start, Take(s, step), requests)
  {
    hide Sound, IsJustified, Begin, Continue, Grows, PhaseSound;
    StepKeepsSound(start, s, step);
    var s' := Take(s, step);
    match step {
      case Receive(h, r) =>
        JustifiedAtFirst(start, s', r);
        forall g | g in s'.handlers && g != h
          ensures g < |requests| && IsJustified(start, s', s'.handlers[g], requests[g])
        {
          JustifiedLater(start, s, s', s.handlers[g], requests[g]);
        }
      case Resume(h, fault, now) =>
        if h in s.handlers {
          ResumeKeepsJustified(start, s, h, fault, now, requests);
        }
    }
  }

  /** In every run, under any interleaving and any failures, every handler is where its request and the past put it. */
  lemma {:induction false} AnswersAreJustified(start: Register, assignments: Assignments, steps: seq<Step>,
                                               requests: seq<Request>)
    requires LegalRun(Initial(start, assignments), steps) && Serves(steps, requests)
    ensures AllJustified(start, After(Initial(start, assignments), steps), requests)
  {
    hide Sound, Take, Legal, IsJustified, Given, HasRequest;
    if steps != [] {
      var n := |steps| - 1;
      assert forall i :: 0 <= i < n ==> steps[..n][..i] == steps[..i];
      assert Serves(steps[..n], requests);
      AnswersAreJustified(start, assignments, steps[..n], requests);
      ReachableStatesSound(start, assignments, steps[..n]);
      RunKeepsRequests(start, assignments, steps[..n], requests);
      StepKeepsJustified(start, After(Initial(start, assignments), steps[..n]), steps[n], requests);
    }
  }

  // ------------------------------------------------------------------ failures

  /** The i-th step is an awaited call of the handler that fails. */
  ghost predicate CallFails(start: System, steps: seq<Step>, h: nat, i: nat) {
    && i < |steps| && steps[i].Resume? && steps[i].handler == h && steps[i].fault != Works
    && h in After(start, steps[..i]).handlers
    && !After(start, steps[..i]).handlers[h].Responded? && !After(start, steps[..i]).handlers[h].Failed?
  }

  ghost predicate SomeCallFails(start: System, steps: seq<Step>, h: nat) {
    exists i: nat :: CallFails(start, steps, h, i)
  }

  lemma NoCallFails(start: System, h: nat)
    ensures !SomeCallFails(start, [], h)
  {
  }

  lemma FailsEarlierOrLast(start: System, steps: seq<Step>, h: nat)
    requires steps != []
    ensures var n := |steps| - 1;
            SomeCallFails(start, steps, h) <==> SomeCallFails(start, steps[..n], h) || CallFails(start, steps, h, n)
  {
    hide After;
    var n := |steps| - 1;
    forall i: nat | i < n
      ensures CallFails(start, steps, h, i) <==> CallFails(start, steps[..n], h, i)
    {
      assert steps[..n][..i] == steps[..i] && steps[..n][i] == steps[i];
    }
  }

  /** One step makes a handler fail exactly if it is a call of its that fails. */
  lemma FailsInOneStep(start: Register, s: System, step: Step, h: nat)
    requires Sound(start, s) && Legal(s, step)
    ensures var s' := Take(s, step);
            h in s'.handlers && s'.handlers[h].Failed? <==>
              h in s.handlers && (s.handlers[h].Failed? || (step.Resume? && step.handler == h && step.fault != Works
                                                            && !s.handlers[h].Responded?))
  {
    if step.Resume? && step.handler == h && h in s.handlers {
      HandlerIsSound(start, s, h);
    }
  }

  /** In every run a handler has failed exactly if one of its awaited calls has. */
  lemma {:induction false} FailedExactly(start: Register, assignments: Assignments, steps: seq<Step>, h: nat)
    requires LegalRun(Initial(start, assignments), steps)
    ensures var s := After(Initial(start, assignments), steps);
            h in s.handlers && s.handlers[h].Failed? <==> SomeCallFails(Initial(start, assignments), steps, h)
  {
    hide Sound, Take, Legal, SomeCallFails;
    var initial := Initial(start, assignments);
    if steps != [] {
      var n := |steps| - 1;
      assert forall i :: 0 <= i < n ==> steps[..n][..i] == steps[..i];
      FailedExactly(start, assignments, steps[..n], h);
      ReachableStatesSound(start, assignments, steps[..n]);
      FailsInOneStep(start, After(initial, steps[..n]), steps[n], h);
      FailsEarlierOrLast(initial, steps, h);
    } else {
      NoCallFails(initial, h);
    }
  }

  // ------------------------------------------------------------------ a request served to the end

  /** Its five awaited calls, each at its own time. */
  function Served(r: Request, t: seq<int>): seq<Step>
    requires |t| == 5
  {
    [Receive(0, r)] + [Resume(0, Works, t[0])] + [Resume(0, Works, t[1])]
    + [Resume(0, Works, t[2])] + [Resume(0, Works, t[3])] + [Resume(0, Works, t[4])]
  }

  lemma OneStep(start: System, steps: seq<Step>, s: System, step: Step)
    requires LegalRun(start, steps) && After(start, steps) == s && Legal(s, step)
    ensures LegalRun(start, steps + [step]) && After(start, steps + [step]) == Take(s, step)
  {
    AfterOneMore(start, steps, step);
  }

  lemma ServedHalf(start: Register, assignments: Assignments, r: Request, t: seq<int>, s2: System,
                   event: ValidationEvent)
    requires |t| == 5 && r.Key() in start
    requires s2 == Initial(start, assignments).(handlers := map[0 := AwaitEvent(r, t[1])])
    requires event == ValidationEvent(1, r.vaultId, r.milestoneId, r.verifierId, t[1])
    requires var steps := [Receive(0, r)] + [Resume(0, Works, t[0])] + [Resume(0, Works, t[1])];
             LegalRun(Initial(start, assignments), steps) && After(Initial(start, assignments), steps) == s2
    ensures LegalRun(Initial(start, assignments), Served(r, t))
    ensures var marked := start[r.Key()].(
                            status := Validated, validatedBy := Some(r.verifierId), validatedAt := Some(t[1]));
            After(Initial(start, assignments), Served(r, t))
            == System(assignments, start[r.Key() := marked], [event], 1,
                      [Message(1, r.vaultId, r.milestoneId, r.verifierId, t[1])], map[0 := Responded(200)])
  {
    hide After, LegalRun, MilestoneKey;
    var initial := Initial(start, assignments);
    var steps := [Receive(0, r)] + [Resume(0, Works, t[0])] + [Resume(0, Works, t[1])];
    var s3 := System(assignments, start, [event], 1, [], map[0 := AwaitMark(r, t[1], event)]);
    OneStep(initial, steps, s2, Resume(0, Works, t[2]));
    assert Take(s2, Resume(0, Works, t[2])) == s3;
    var marked := start[r.Key()].(
                    status := Validated, validatedBy := Some(r.verifierId), validatedAt := Some(t[1]));
    var s4 := System(assignments, start[r.Key() := marked], [event], 1, [], map[0 := AwaitPublish(r, t[1], event)]);
    OneStep(initial, steps + [Resume(0, Works, t[2])], s3, Resume(0, Works, t[3]));
    assert Take(s3, Resume(0, Works, t[3])) == s4;
    OneStep(initial, steps + [Resume(0, Works, t[2])] + [Resume(0, Works, t[3])], s4, Resume(0, Works, t[4]));
    assert Take(s4, Resume(0, Works, t[4])).handlers == map[0 := Responded(200)];
  }

  /**
   A request of an assigned verifier for a pending milestone, alone and without failures: it is answered with 200, and
   leaves one event, the milestone marked and one message, all of the time when the milestone was found pending.
   */
  lemma ServedExactly(start: Register, assignments: Assignments, r: Request, t: seq<int>)
    requires |t| == 5 && IsProper(r) && (r.vaultId, r.verifierId) in assignments
    requires r.Key() in start && start[r.Key()].status == Pending
    ensures LegalRun(Initial(start, assignments), Served(r, t))
    ensures var marked := start[r.Key()].(
                            status := Validated, validatedBy := Some(r.verifierId), validatedAt := Some(t[1]));
            After(Initial(start, assignments), Served(r, t))
            == System(assignments, start[r.Key() := marked],
                      [ValidationEvent(1, r.vaultId, r.milestoneId, r.verifierId, t[1])], 1,
                      [Message(1, r.vaultId, r.milestoneId, r.verifierId, t[1])], map[0 := Responded(200)])
  {
    hide After, LegalRun, MilestoneKey;
    BeginExactly(r);
    var initial := Initial(start, assignments);
    EmptyRun(initial);
    var event := ValidationEvent(1, r.vaultId, r.milestoneId, r.verifierId, t[1]);
    var s0 := initial.(handlers := map[0 := AwaitAssigned(r)]);
    OneStep(initial, [], initial, Receive(0, r));
    assert [] + [Receive(0, r)] == [Receive(0, r)] && Take(initial, Receive(0, r)) == s0;
    var steps := [Receive(0, r)];
    var s1 := s0.(handlers := map[0 := AwaitMilestone(r)]);
    OneStep(initial, steps, s0, Resume(0, Works, t[0]));
    assert Take(s0, Resume(0, Works, t[0])) == s1;
    var s2 := s0.(handlers := map[0 := AwaitEvent(r, t[1])]);
    OneStep(initial, steps + [Resume(0, Works, t[0])], s1, Resume(0, Works, t[1]));
    assert Take(s1, Resume(0, Works, t[1])) == s2;
    ServedHalf(start, assignments, r, t, s2, event);
  }
}
