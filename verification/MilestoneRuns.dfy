/** Building runs of milestone handlers step by step. */
module MilestoneRuns {
  import opened Wrappers
  import opened Milestones

  /** The handler has found the milestone pending and has not answered yet. */
  predicate PastTest(phase: Phase, key: string) {
    (phase.AwaitEvent? || phase.AwaitMark? || phase.AwaitPublish?) && phase.request.Key() == key
  }

  function KeyOf(m: Message): string {
    MilestoneKey(m.vaultId, m.milestoneId)
  }

  /** The handler's next three calls, all of which work. */
  function Works3(h: nat, now: int): seq<Step> {
    [Resume(h, Works, now), Resume(h, Works, now), Resume(h, Works, now)]
  }

  function Take3(s: System, h: nat, now: int): System {
    Take(Take(Take(s, Resume(h, Works, now)), Resume(h, Works, now)), Resume(h, Works, now))
  }

  /** From past the test, three calls are enough to announce the milestone, and touch no other handler. */
  lemma RunsToTheEnd(s: System, h: nat, now: int, key: string)
    requires h in s.handlers && PastTest(s.handlers[h], key) && key in s.milestones
    ensures var s' := Take3(s, h, now);
            && key in s'.milestones
            && |s'.published| == |s.published| + 1 && KeyOf(s'.published[|s.published|]) == key
            && s'.published[..|s.published|] == s.published
            && s'.handlers == s.handlers[h := Responded(200)]
            && s'.assignments == s.assignments
            && (s.handlers[h].AwaitEvent? ==>
                  s'.milestones[key] == Marked(s.milestones[key], s.handlers[h].request, s.handlers[h].now))
  {
    hide MilestoneKey;
    match s.handlers[h] {
      case AwaitEvent(r, at) =>
        var s1 := Take(s, Resume(h, Works, now));
        assert s1.handlers[h] == AwaitMark(r, at, NewEvent(s, r, at));
        var s2 := Take(s1, Resume(h, Works, now));
        assert s2.handlers[h] == AwaitPublish(r, at, NewEvent(s, r, at));
      case AwaitMark(r, at, event) =>
        var s1 := Take(s, Resume(h, Works, now));
        assert s1.handlers[h] == AwaitPublish(r, at, event);
      case AwaitPublish(r, at, event) =>
        var s1 := Take(s, Resume(h, Works, now));
        assert s1.handlers[h] == Responded(200);
    }
  }

  lemma AfterOneMore(start: System, steps: seq<Step>, step: Step)
    requires LegalRun(start, steps) && Legal(After(start, steps), step)
    ensures LegalRun(start, steps + [step])
    ensures After(start, steps + [step]) == Take(After(start, steps), step)
  {
    hide Legal, Take;
    var all := steps + [step];
    assert all[..|steps|] == steps;
    forall i | 0 <= i < |all|
      ensures Legal(After(start, all[..i]), all[i])
    {
      if i < |steps| {
        assert all[..i] == steps[..i];
      }
    }
  }

  lemma AfterThreeMore(start: System, steps: seq<Step>, h: nat, now: int)
    requires LegalRun(start, steps)
    ensures LegalRun(start, steps + Works3(h, now))
    ensures After(start, steps + Works3(h, now)) == Take3(After(start, steps), h, now)
  {
    hide Take, After, LegalRun;
    var step := Resume(h, Works, now);
    AfterOneMore(start, steps, step);
    AfterOneMore(start, steps + [step], step);
    AfterOneMore(start, steps + [step] + [step], step);
    assert steps + [step] + [step] + [step] == steps + Works3(h, now);
  }

  lemma EmptyRun(start: System)
    ensures LegalRun(start, []) && After(start, []) == start
  {
  }

  lemma Received(start: System, steps: seq<Step>, h: nat, r: Request)
    requires LegalRun(start, steps) && h !in After(start, steps).handlers && Begin(r) == AwaitAssigned(r)
    ensures var s, all := After(start, steps), steps + [Receive(h, r)];
            LegalRun(start, all) && After(start, all) == s.(handlers := s.handlers[h := AwaitAssigned(r)])
  {
    AfterOneMore(start, steps, Receive(h, r));
  }

  lemma Assigned(start: System, steps: seq<Step>, h: nat, r: Request, now: int)
    requires LegalRun(start, steps) && h in After(start, steps).handlers
    requires After(start, steps).handlers[h] == AwaitAssigned(r)
    requires (r.vaultId, r.verifierId) in After(start, steps).assignments
    ensures var s, all := After(start, steps), steps + [Resume(h, Works, now)];
            LegalRun(start, all) && After(start, all) == s.(handlers := s.handlers[h := AwaitMilestone(r)])
  {
    AfterOneMore(start, steps, Resume(h, Works, now));
  }

  lemma Tested(start: System, steps: seq<Step>, h: nat, r: Request, now: int)
    requires LegalRun(start, steps) && h in After(start, steps).handlers
    requires var s := After(start, steps); s.handlers[h] == AwaitMilestone(r) && WasPending(s.milestones, r.Key())
    ensures var s, all := After(start, steps), steps + [Resume(h, Works, now)];
            LegalRun(start, all) && After(start, all) == s.(handlers := s.handlers[h := AwaitEvent(r, now)])
  {
    AfterOneMore(start, steps, Resume(h, Works, now));
  }
}
