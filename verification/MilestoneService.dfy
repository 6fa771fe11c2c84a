/** The in-memory milestone repositories and the validation handler over mutable state, tied to `Milestones`. */
module MilestoneService {
  import opened Wrappers
  import opened Milestones

  class InMemoryMilestoneRepository {
    var milestones: Register

    constructor (milestones: Register)
      ensures this.milestones == milestones
    {
      this.milestones := milestones;
    }

    method GetByVaultAndId(vaultId: string, milestoneId: string) returns (milestone: Option<Milestone>)
      ensures var key := MilestoneKey(vaultId, milestoneId);
              milestone == if key in milestones then Some(milestones[key]) else None
    {
      var key := MilestoneKey(vaultId, milestoneId);
      milestone := if key in milestones then Some(milestones[key]) else None;
    }

    /** No milestone is returned when there is none to mark: the program throws. */
    method MarkValidated(r: Request, validatedAt: int) returns (updated: Option<Milestone>)
      modifies this
      ensures updated.Some? <==> r.Key() in old(milestones)
      ensures milestones == if updated.Some? then old(milestones)[r.Key() := updated.value] else old(milestones)
      ensures updated.Some? ==> updated.value == Marked(old(milestones)[r.Key()], r, validatedAt)
    {
      var key := r.Key();
      if key !in milestones {
        return None;
      }
      var current := milestones[key];
      var validated := current.(
        status := Validated, validatedBy := Some(r.verifierId), validatedAt := Some(validatedAt));
      milestones := milestones[key := validated];
      return Some(validated);
    }
  }

  class InMemoryMilestoneValidationEventRepository {
    var events: seq<ValidationEvent>
    var counter: nat

    constructor ()
      ensures events == [] && counter == 0
    {
      events, counter := [], 0;
    }

    method Create(r: Request, createdAt: int) returns (event: ValidationEvent)
      modifies this
      ensures counter == old(counter) + 1 && events == old(events) + [event]
      ensures event == ValidationEvent(counter, r.vaultId, r.milestoneId, r.verifierId, createdAt)
    {
      counter := counter + 1;
      event := ValidationEvent(counter, r.vaultId, r.milestoneId, r.verifierId, createdAt);
      events := events + [event];
    }
  }

  /** Every handler in progress, the two repositories it shares with the others, and what was published. */
  class MilestoneValidation {
    const milestoneRepository: InMemoryMilestoneRepository
    const eventRepository: InMemoryMilestoneValidationEventRepository
    const assignments: Assignments
    var published: seq<Message>
    var handlers: map<nat, Phase>

    constructor (milestones: Register, assignments: Assignments)
      ensures State() == Initial(milestones, assignments)
      ensures fresh(milestoneRepository) && fresh(eventRepository)
    {
      milestoneRepository := new InMemoryMilestoneRepository(milestones);
      eventRepository := new InMemoryMilestoneValidationEventRepository();
      this.assignments, published, handlers := assignments, [], map[];
    }

    function State(): System
      reads this, milestoneRepository, eventRepository
    {
      System(assignments, milestoneRepository.milestones,
             eventRepository.events, eventRepository.counter, published, handlers)
    }

    method OnRequest(h: nat, r: Request)
      modifies this
      ensures State() == Take(old(State()), Receive(h, r))
    {
      if r.verifierId == "" || r.role == "" {
        handlers := handlers[h := Responded(401)];
      } else if r.role != "verifier" {
        handlers := handlers[h := Responded(403)];
      } else if r.vaultId == "" || r.milestoneId == "" {
        handlers := handlers[h := Responded(400)];
      } else {
        handlers := handlers[h := AwaitAssigned(r)];
      }
    }

    /** The call handler `h` awaits happens, with the outcome `fault` says, and the handler runs to its next await. */
    method OnResume(h: nat, fault: Fault, now: int)
      requires h in handlers
      modifies this, milestoneRepository, eventRepository
      ensures State() == Take(old(State()), Resume(h, fault, now))
    {
      var next := handlers[h];
      match handlers[h] {
        case AwaitAssigned(r) =>
          next := if fault != Works then Failed
                  else if (r.vaultId, r.verifierId) !in assignments then Responded(403)
                  else AwaitMilestone(r);
        case AwaitMilestone(r) =>
          var milestone := milestoneRepository.GetByVaultAndId(r.vaultId, r.milestoneId);
          if fault != Works {
            next := Failed;
          } else if milestone.None? {
            next := Responded(404);
          } else if milestone.value.status == Validated {
            next := Responded(409);
          } else {
            next := AwaitEvent(r, now);
          }
        case AwaitEvent(r, at) =>
          next := Failed;
          if fault != FailsBefore {
            var event := eventRepository.Create(r, at);
            next := if fault == Works then AwaitMark(r, at, event) else Failed;
          }
        case AwaitMark(r, at, event) =>
          next := Failed;
          if fault != FailsBefore {
            var updated := milestoneRepository.MarkValidated(r, at);
            next := if fault == Works && updated.Some? then AwaitPublish(r, at, event) else Failed;
          }
        case AwaitPublish(r, at, event) =>
          next := Failed;
          if fault != FailsBefore {
            published := published + [Message(event.id, r.vaultId, r.milestoneId, r.verifierId, at)];
            next := if fault == Works then Responded(200) else Failed;
          }
        case _ =>
      }
      handlers := handlers[h := next];
    }
  }
}
