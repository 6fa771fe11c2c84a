/**
 Milestone validation: the handler as interleaved steps, one for each awaited call, any of which may fail
 with or without having taken effect; and the in-memory repositories it works on.
 */
module Milestones {
  import opened Wrappers

  datatype Status = Pending | Validated

  datatype Milestone = Milestone(id: string, vaultId: string, status: Status, validatedAt: Option<int>,
                                 validatedBy: Option<string>)

  /** `id` is the number in the event's id string. */
  datatype ValidationEvent = ValidationEvent(id: nat, vaultId: string, milestoneId: string, verifierId: string,
                                             createdAt: int)

  datatype Message = Message(eventId: nat, vaultId: string, milestoneId: string, verifierId: string, validatedAt: int)

  function MilestoneKey(vaultId: string, milestoneId: string): string {
    vaultId + ":" + milestoneId
  }

  /** Missing values read as empty strings, which the handler treats alike. */
  datatype Request = Request(verifierId: string, role: string, vaultId: string, milestoneId: string) {
    function Key(): string {
      MilestoneKey(vaultId, milestoneId)
    }
  }

  /** One of the ids begins with the other and a colon. */
  predicate Collide(v: string, w: string) {
    v + ":" <= w || w + ":" <= v
  }

  lemma EqualKeysCollide(v: string, m: string, w: string, n: string)
    requires v != w && MilestoneKey(v, m) == MilestoneKey(w, n) && |v| <= |w|
    ensures v + ":" <= w
  {
    var k := MilestoneKey(v, m);
    assert k[..|v|] == v && k[..|w|] == w;
    if |v| < |w| {
      assert k[|v|] == ':';
      assert k[..|v| + 1] == v + ":";
    }
  }

  /** The milestone ids with which the two vaults share a key. */
  lemma CollidingKeys(v: string, w: string)
    requires v + ":" <= w
    ensures MilestoneKey(v, w[|v| + 1..] + ":x") == MilestoneKey(w, "x")
  {
    var rest := w[|v| + 1..];
    assert w == v + ":" + rest;
    assert v + ":" + (rest + ":x") == v + ":" + rest + ":" + "x";
  }

  /** Within a vault keys are unambiguous; two vaults can share one exactly if their ids collide. */
  lemma KeysCollideExactly(v: string, w: string)
    ensures forall m, n :: MilestoneKey(v, m) == MilestoneKey(v, n) ==> m == n
    ensures v != w ==> ((exists m, n :: MilestoneKey(v, m) == MilestoneKey(w, n)) <==> Collide(v, w))
  {
    forall m, n | MilestoneKey(v, m) == MilestoneKey(v, n)
      ensures m == n
    {
      assert MilestoneKey(v, m)[|v| + 1..] == m && MilestoneKey(v, n)[|v| + 1..] == n;
    }
    forall m, n | v != w && MilestoneKey(v, m) == MilestoneKey(w, n)
      ensures Collide(v, w)
    {
      if |v| <= |w| {
        EqualKeysCollide(v, m, w, n);
      } else {
        EqualKeysCollide(w, n, v, m);
      }
    }
    if v + ":" <= w {
      CollidingKeys(v, w);
    } else if w + ":" <= v {
      CollidingKeys(w, v);
      assert MilestoneKey(v, "x") == MilestoneKey(w, v[|w| + 1..] + ":x");
    }
  }

  /** Where a handler is: the call it awaits next, with what it has in hand, or its outcome. */
  datatype Phase =
    | AwaitAssigned(request: Request)
    | AwaitMilestone(request: Request)
    | AwaitEvent(request: Request, now: int)
    | AwaitMark(request: Request, now: int, event: ValidationEvent)
    | AwaitPublish(request: Request, now: int, event: ValidationEvent)
    | Responded(status: int)
    | Failed

  /** The milestones by key. */
  type Register = map<string, Milestone>

  /** The pairs of a vault and a verifier assigned to it. */
  type Assignments = set<(string, string)>

  datatype System = System(
    assignments: Assignments,
    milestones: Register,
    events: seq<ValidationEvent>,
    counter: nat,
    published: seq<Message>,
    handlers: map<nat, Phase>)

  datatype Step = Receive(handler: nat, request: Request) | Resume(handler: nat, fault: Fault, now: int)

  function Initial(milestones: Register, assignments: Assignments): System {
    System(assignments, milestones, [], 0, [], map[])
  }

  // ------------------------------------------------------------------ the repositories

  function NewEvent(s: System, r: Request, now: int): ValidationEvent {
    ValidationEvent(s.counter + 1, r.vaultId, r.milestoneId, r.verifierId, now)
  }

  function CreateEvent(s: System, r: Request, now: int): System {
    s.(counter := s.counter + 1, events := s.events + [NewEvent(s, r, now)])
  }

  function Marked(m: Milestone, r: Request, now: int): Milestone {
    m.(status := Validated, validatedBy := Some(r.verifierId), validatedAt := Some(now))
  }

  function MarkValidated(s: System, r: Request, now: int): System {
    if r.Key() !in s.milestones then s
    else s.(milestones := s.milestones[r.Key() := Marked(s.milestones[r.Key()], r, now)])
  }

  function MessageFor(r: Request, now: int, event: ValidationEvent): Message {
    Message(event.id, r.vaultId, r.milestoneId, r.verifierId, now)
  }

  // ------------------------------------------------------------------ the handler

  /** The checks before the first await. */
  function Begin(r: Request): Phase {
    if r.verifierId == "" || r.role == "" then Responded(401)
    else if r.role != "verifier" then Responded(403)
    else if r.vaultId == "" || r.milestoneId == "" then Responded(400)
    else AwaitAssigned(r)
  }

  /** The awaited call, and the code up to the next one. */
  function Continue(s: System, phase: Phase, fault: Fault, now: int): (System, Phase) {
    var takesEffect := fault != FailsBefore;
    match phase
    case AwaitAssigned(r) =>
      (s, if fault != Works then Failed
          else if (r.vaultId, r.verifierId) !in s.assignments then Responded(403)
          else AwaitMilestone(r))
    case AwaitMilestone(r) =>
      (s, if fault != Works then Failed
          else if r.Key() !in s.milestones then Responded(404)
          else if s.milestones[r.Key()].status == Validated then Responded(409)
          else AwaitEvent(r, now))
    case AwaitEvent(r, at) =>
      (if takesEffect then CreateEvent(s, r, at) else s,
       if fault == Works then AwaitMark(r, at, NewEvent(s, r, at)) else Failed)
    case AwaitMark(r, at, event) =>
      (if takesEffect then MarkValidated(s, r, at) else s,
       if fault == Works && r.Key() in s.milestones then AwaitPublish(r, at, event) else Failed)
    case AwaitPublish(r, at, event) =>
      (if takesEffect then s.(published := s.published + [MessageFor(r, at, event)]) else s,
       if fault == Works then Responded(200) else Failed)
    case _ => (s, phase)
  }

  function Take(s: System, step: Step): System {
    match step
    case Receive(h, r) => s.(handlers := s.handlers[h := Begin(r)])
    case Resume(h, fault, now) =>
      if h !in s.handlers then s
      else
        var (s', phase) := Continue(s, s.handlers[h], fault, now);
        s'.(handlers := s.handlers[h := phase])
  }

  predicate Legal(s: System, step: Step) {
    step.Receive? ==> step.handler !in s.handlers
  }

  function After(start: System, steps: seq<Step>): System {
    if steps == [] then start
    else Take(After(start, steps[..|steps| - 1]), steps[|steps| - 1])
  }

  ghost predicate LegalRun(start: System, steps: seq<Step>) {
    forall i :: 0 <= i < |steps| ==> Legal(After(start, steps[..i]), steps[i])
  }

  // ------------------------------------------------------------------ the invariant

  /** The event records this validation. */
  predicate Records(event: ValidationEvent, r: Request, now: int) {
    && event.vaultId == r.vaultId && event.milestoneId == r.milestoneId
    && event.verifierId == r.verifierId && event.createdAt == now
  }

  /** The request that the event records. */
  function RequestOf(event: ValidationEvent): Request {
    Request(event.verifierId, "verifier", event.vaultId, event.milestoneId)
  }

  /** The milestone with the verifier and time of the event. */
  function ValidatedAs(m: Milestone, event: ValidationEvent): Milestone {
    m.(status := Validated, validatedBy := Some(event.verifierId), validatedAt := Some(event.createdAt))
  }

  /**
   Of the milestone as it was at the start, only the status, and the verifier and time of a recorded event
   for its key, are new.
   */
  ghost predicate Backed(m: Milestone, original: Milestone, key: string, events: seq<ValidationEvent>) {
    exists e :: e in events && RequestOf(e).Key() == key
                && m == ValidatedAs(original, e)
  }

  predicate IsValidated(s: System, key: string) {
    key in s.milestones && s.milestones[key].status == Validated
  }

  predicate WasPending(start: Register, key: string) {
    key in start && start[key].status == Pending
  }

  /**
   The request passes every check: well-formed, of a verifier assigned to the vault it names, for a
   milestone pending at the start.
   */
  predicate Cleared(start: Register, assignments: Assignments, r: Request) {
    Begin(r) == AwaitAssigned(r) && (r.vaultId, r.verifierId) in assignments && WasPending(start, r.Key())
  }

  ghost predicate PhaseSound(start: Register, s: System, phase: Phase) {
    match phase
    case AwaitAssigned(r) => Begin(r) == phase
    case AwaitMilestone(r) => Begin(r) == AwaitAssigned(r) && (r.vaultId, r.verifierId) in s.assignments
    case AwaitEvent(r, _) => Cleared(start, s.assignments, r)
    case AwaitMark(r, now, event) => Cleared(start, s.assignments, r) && event in s.events && Records(event, r, now)
    case AwaitPublish(r, now, event) =>
      Cleared(start, s.assignments, r) && event in s.events && Records(event, r, now) && IsValidated(s, r.Key())
    case _ => true
  }

  predicate Announces(m: Message, event: ValidationEvent) {
    && event.id == m.eventId && event.vaultId == m.vaultId && event.milestoneId == m.milestoneId
    && event.verifierId == m.verifierId && event.createdAt == m.validatedAt
  }

  /** The message announces a recorded event, and its milestone is validated. */
  ghost predicate MessageSound(s: System, m: Message) {
    && (exists e :: e in s.events && m == Message(e.id, e.vaultId, e.milestoneId, e.verifierId, e.createdAt))
    && IsValidated(s, MilestoneKey(m.vaultId, m.milestoneId))
  }

  /** The milestone is as it was at the start, or it was pending and has been validated since. */
  ghost predicate MilestoneSound(start: Register, s: System, key: string)
    requires key in start && key in s.milestones
  {
    || s.milestones[key] == start[key]
    || (WasPending(start, key) && Backed(s.milestones[key], start[key], key, s.events))
  }

  ghost predicate Sound(start: Register, s: System) {
    && s.counter == |s.events|
    && (forall i :: 0 <= i < |s.events| ==> s.events[i].id == i + 1)
    && (forall e :: e in s.events ==> Cleared(start, s.assignments, RequestOf(e)))
    && s.milestones.Keys == start.Keys
    && (forall key :: key in start ==> MilestoneSound(start, s, key))
    && (forall h :: h in s.handlers ==> PhaseSound(start, s, s.handlers[h]))
    && (forall m :: m in s.published ==> MessageSound(s, m))
  }

  /** Nothing recorded is lost, and what is validated stays so. */
  ghost predicate Grows(s: System, s': System) {
    && s.assignments == s'.assignments
    && s.events <= s'.events
    && s.published <= s'.published
    && (forall key :: IsValidated(s, key) ==> IsValidated(s', key))
  }

  lemma ContinueGrows(s: System, phase: Phase, fault: Fault, now: int)
    ensures Grows(s, Continue(s, phase, fault, now).0)
  {
  }

  lemma PhaseStays(start: Register, s: System, s': System, phase: Phase)
    requires Grows(s, s') && PhaseSound(start, s, phase)
    ensures PhaseSound(start, s', phase)
  {
  }

  lemma MessageStays(s: System, s': System, m: Message)
    requires Grows(s, s') && MessageSound(s, m)
    ensures MessageSound(s', m)
  {
    var e :| e in s.events && m == Message(e.id, e.vaultId, e.milestoneId, e.verifierId, e.createdAt);
    assert e in s'.events;
  }

  lemma BackedStays(m: Milestone, original: Milestone, key: string, events: seq<ValidationEvent>,
                    more: seq<ValidationEvent>)
    requires events <= more && Backed(m, original, key, events)
    ensures Backed(m, original, key, more)
  {
    var e :| e in events && RequestOf(e).Key() == key
             && m == ValidatedAs(original, e);
    assert e in more;
  }

  /** The new phase is sound after the call. */
  lemma NextPhaseSound(start: Register, s: System, phase: Phase, fault: Fault, now: int)
    requires Sound(start, s) && PhaseSound(start, s, phase)
    ensures var (s', phase') := Continue(s, phase, fault, now); PhaseSound(start, s', phase')
  {
    if phase.AwaitEvent? && fault == Works {
      var s' := CreateEvent(s, phase.request, phase.now);
      assert s'.events[|s.events|] == NewEvent(s, phase.request, phase.now);
    }
  }

  lemma MilestonesStaySound(start: Register, s: System, phase: Phase, fault: Fault, now: int, key: string)
    requires Sound(start, s) && PhaseSound(start, s, phase) && key in start
    ensures var s' := Continue(s, phase, fault, now).0;
            && s'.milestones.Keys == start.Keys
            && MilestoneSound(start, s', key)
  {
    var s' := Continue(s, phase, fault, now).0;
    if s'.milestones[key] == s.milestones[key] {
      if s.milestones[key] != start[key] {
        BackedStays(s.milestones[key], start[key], key, s.events, s'.events);
      }
    } else {
      assert phase.AwaitMark? && key == phase.request.Key();
      assert Records(phase.event, phase.request, phase.now) && phase.event in s'.events;
    }
  }

  lemma MessagesStaySound(start: Register, s: System, phase: Phase, fault: Fault, now: int, m: Message)
    requires Sound(start, s) && PhaseSound(start, s, phase)
    requires m in Continue(s, phase, fault, now).0.published
    ensures MessageSound(Continue(s, phase, fault, now).0, m)
  {
    ContinueGrows(s, phase, fault, now);
    var s' := Continue(s, phase, fault, now).0;
    if m in s.published {
      MessageStays(s, s', m);
    } else {
      assert phase.AwaitPublish? && m == MessageFor(phase.request, phase.now, phase.event);
      assert phase.event in s'.events;
    }
  }

  lemma IdsStaySound(start: Register, s: System, phase: Phase, fault: Fault, now: int)
    requires Sound(start, s) && PhaseSound(start, s, phase)
    ensures var t := Continue(s, phase, fault, now).0;
            && t.counter == |t.events| && (forall i :: 0 <= i < |t.events| ==> t.events[i].id == i + 1)
            && (forall e :: e in t.events ==> Cleared(start, t.assignments, RequestOf(e)))
            && t.milestones.Keys == start.Keys && t.handlers == s.handlers
  {
  }

  lemma ResumeKeepsSound(start: Register, s: System, h: nat, fault: Fault, now: int)
    requires Sound(start, s) && h in s.handlers
    ensures Sound(start, Take(s, Resume(h, fault, now))) && Grows(s, Take(s, Resume(h, fault, now)))
  {
    var phase := s.handlers[h];
    var (t, phase') := Continue(s, phase, fault, now);
    var s' := Take(s, Resume(h, fault, now));
    ContinueGrows(s, phase, fault, now);
    NextPhaseSound(start, s, phase, fault, now);
    IdsStaySound(start, s, phase, fault, now);
    hide PhaseSound, MessageSound, Backed, WasPending, Grows, Continue;
    assert s'.milestones == t.milestones && t.milestones.Keys == start.Keys;
    forall key | key in start
      ensures MilestoneSound(start, s', key)
    {
      MilestonesStaySound(start, s, phase, fault, now, key);
    }
    forall g | g in s'.handlers
      ensures PhaseSound(start, s', s'.handlers[g])
    {
      PhaseStays(start, t, s', phase');
      if g != h {
        PhaseStays(start, s, s', s.handlers[g]);
      }
    }
    forall m | m in s'.published
      ensures MessageSound(s', m)
    {
      MessagesStaySound(start, s, phase, fault, now, m);
      MessageStays(t, s', m);
    }
  }

  lemma StepKeepsSound(start: Register, s: System, step: Step)
    requires Sound(start, s) && Legal(s, step)
    ensures Sound(start, Take(s, step)) && Grows(s, Take(s, step))
  {
    var s' := Take(s, step);
    match step {
      case Receive(h, r) =>
        forall g | g in s'.handlers
          ensures PhaseSound(start, s', s'.handlers[g])
        {
          if g != h {
            PhaseStays(start, s, s', s.handlers[g]);
          }
        }
        forall m | m in s'.published
          ensures MessageSound(s', m)
        {
          MessageStays(s, s', m);
        }
      case Resume(h, fault, now) =>
        if h in s.handlers {
          ResumeKeepsSound(start, s, h, fault, now);
        }
    }
  }

  lemma InitialSound(start: Register, assignments: Assignments)
    ensures Sound(start, Initial(start, assignments))
  {
  }

  /** Under any interleaving and any failures, every reachable state is sound. */
  lemma {:induction false} ReachableStatesSound(start: Register, assignments: Assignments, steps: seq<Step>)
    requires LegalRun(Initial(start, assignments), steps)
    ensures Sound(start, After(Initial(start, assignments), steps))
  {
    hide Sound, Take, Legal;
    if steps == [] {
      InitialSound(start, assignments);
    } else {
      var n := |steps| - 1;
      assert forall i :: 0 <= i < n ==> steps[..n][..i] == steps[..i];
      ReachableStatesSound(start, assignments, steps[..n]);
      StepKeepsSound(start, After(Initial(start, assignments), steps[..n]), steps[n]);
    }
  }

  lemma {:induction false} AssignmentsAreFixed(start: Register, assignments: Assignments, steps: seq<Step>)
    ensures After(Initial(start, assignments), steps).assignments == assignments
  {
    if steps != [] {
      AssignmentsAreFixed(start, assignments, steps[..|steps| - 1]);
    }
  }

  // ------------------------------------------------------------------ what follows for a run

  /**
   In every run: a published message announces a recorded event for a milestone that is validated;
   a milestone that the run validated carries the verifier and time of a recorded event for its key and is
   otherwise unchanged, one that was validated before is untouched; events record only requests that pass
   every check; and event ids are distinct.
   */
  lemma ValidationIsRecorded(start: Register, assignments: Assignments, steps: seq<Step>)
    requires LegalRun(Initial(start, assignments), steps)
    ensures var s := After(Initial(start, assignments), steps);
            && (forall m :: m in s.published ==>
                  && IsValidated(s, MilestoneKey(m.vaultId, m.milestoneId))
                  && exists e :: e in s.events && Announces(m, e))
            && (forall key :: IsValidated(s, key) ==>
                  key in start && if start[key].status == Validated then s.milestones[key] == start[key]
                                  else Backed(s.milestones[key], start[key], key, s.events))
            && (forall e :: e in s.events ==> Cleared(start, assignments, RequestOf(e)))
            && (forall i, j :: 0 <= i < j < |s.events| ==> s.events[i].id != s.events[j].id)
  {
    ReachableStatesSound(start, assignments, steps);
    AssignmentsAreFixed(start, assignments, steps);
    var s := After(Initial(start, assignments), steps);
    forall m | m in s.published
      ensures exists e :: e in s.events && Announces(m, e)
    {
      var e :| e in s.events && m == Message(e.id, e.vaultId, e.milestoneId, e.verifierId, e.createdAt);
    }
  }

  lemma GrowsReflexive(s: System)
    ensures Grows(s, s)
  {
  }

  lemma GrowsTransitive(a: System, b: System, c: System)
    requires Grows(a, b) && Grows(b, c)
    ensures Grows(a, c)
  {
  }

  /** What is validated stays validated, what is recorded or published stays so, for the rest of the run. */
  lemma {:induction false} NothingIsUndone(start: Register, assignments: Assignments, steps: seq<Step>, i: nat)
    requires LegalRun(Initial(start, assignments), steps) && i <= |steps|
    ensures Grows(After(Initial(start, assignments), steps[..i]), After(Initial(start, assignments), steps))
    decreases |steps|
  {
    hide Take, Legal, Sound, Grows;
    if i == |steps| {
      GrowsReflexive(After(Initial(start, assignments), steps));
      assert steps[..i] == steps;
    } else {
      var n := |steps| - 1;
      assert forall j :: 0 <= j < n ==> steps[..n][..j] == steps[..j];
      assert steps[..n][..i] == steps[..i];
      ReachableStatesSound(start, assignments, steps[..n]);
      NothingIsUndone(start, assignments, steps[..n], i);
      StepKeepsSound(start, After(Initial(start, assignments), steps[..n]), steps[n]);
      var initial := Initial(start, assignments);
      GrowsTransitive(After(initial, steps[..i]), After(initial, steps[..n]), After(initial, steps));
    }
  }
}
