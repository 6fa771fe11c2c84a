/**
 Whose milestones a verifier can validate.  The handler asks whether the verifier is assigned to the vault the request
 names; the milestone it then marks is the one with the joined key, which can be another vault's.
 */
module MilestoneVaults {
  import opened Wrappers
  import opened Milestones
  import opened MilestoneRuns

  /** The milestone's verifier is assigned to the milestone's own vault. */
  ghost predicate ByOwnVerifier(m: Milestone, assignments: Assignments) {
    m.validatedBy.Some? && (m.vaultId, m.validatedBy.value) in assignments
  }

  /** Whatever a run validates, it validates so. */
  ghost predicate OwnVerifiersOnly(start: Register, assignments: Assignments) {
    forall steps, key :: LegalRun(Initial(start, assignments), steps)
                         && WasPending(start, key) && IsValidated(After(Initial(start, assignments), steps), key)
                         ==> ByOwnVerifier(After(Initial(start, assignments), steps).milestones[key], assignments)
  }

  /**
   The key of a pending milestone reads as a milestone of vault `v` too, where verifier `p` is assigned without being
   assigned to the milestone's own vault.
   */
  predicate Exposed(start: Register, assignments: Assignments, key: string, v: string, p: string) {
    && WasPending(start, key) && (v, p) in assignments && v != "" && p != ""
    && v + ":" < key && (start[key].vaultId, p) !in assignments
  }

  /** The request that names the vault `v`. */
  function Misdirected(key: string, v: string, p: string): Request
    requires v + ":" < key
  {
    Request(p, "verifier", v, key[|v| + 1..])
  }

  lemma KeyWithPrefix(key: string, v: string)
    requires v + ":" < key
    ensures MilestoneKey(v, key[|v| + 1..]) == key
  {
    assert key == v + ":" + key[|v| + 1..];
  }

  lemma MisdirectedIsCleared(start: Register, assignments: Assignments, key: string, v: string, p: string)
    requires Exposed(start, assignments, key, v, p)
    ensures Misdirected(key, v, p).Key() == key
    ensures Cleared(start, assignments, Misdirected(key, v, p))
  {
    KeyWithPrefix(key, v);
  }

  /** Received, found assigned, found pending, recorded, marked and announced. */
  function Straight(r: Request, now: int): seq<Step> {
    [Receive(0, r)] + [Resume(0, Works, now)] + [Resume(0, Works, now)] + Works3(0, now)
  }

  /** Every request that passes every check can be served to the end. */
  lemma StraightRun(start: Register, assignments: Assignments, r: Request, now: int)
    requires Cleared(start, assignments, r)
    ensures LegalRun(Initial(start, assignments), Straight(r, now))
    ensures var s := After(Initial(start, assignments), Straight(r, now));
            r.Key() in s.milestones && s.milestones[r.Key()] == Marked(start[r.Key()], r, now)
  {
    hide Begin, Take, After, LegalRun, Continue, MilestoneKey, Take3;
    var initial := Initial(start, assignments);
    EmptyRun(initial);
    Received(initial, [], 0, r);
    assert [] + [Receive(0, r)] == [Receive(0, r)];
    var s1 := [Receive(0, r)];
    Assigned(initial, s1, 0, r, now);
    var s2 := s1 + [Resume(0, Works, now)];
    Tested(initial, s2, 0, r, now);
    var s3 := s2 + [Resume(0, Works, now)];
    AfterThreeMore(initial, s3, 0, now);
    RunsToTheEnd(After(initial, s3), 0, now, r.Key());
  }

  lemma ExposedIsValidated(start: Register, assignments: Assignments, key: string, v: string, p: string)
    requires Exposed(start, assignments, key, v, p)
    ensures !OwnVerifiersOnly(start, assignments)
  {
    var r := Misdirected(key, v, p);
    MisdirectedIsCleared(start, assignments, key, v, p);
    StraightRun(start, assignments, r, 0);
    hide After, LegalRun, Straight, MilestoneKey;
    var s := After(Initial(start, assignments), Straight(r, 0));
    assert IsValidated(s, key) && !ByOwnVerifier(s.milestones[key], assignments);
  }

  lemma ValidatedByOwn(start: Register, assignments: Assignments, steps: seq<Step>, key: string)
    requires !exists v, p :: Exposed(start, assignments, key, v, p)
    requires LegalRun(Initial(start, assignments), steps)
    requires WasPending(start, key) && IsValidated(After(Initial(start, assignments), steps), key)
    ensures ByOwnVerifier(After(Initial(start, assignments), steps).milestones[key], assignments)
  {
    ValidationIsRecorded(start, assignments, steps);
    hide After, LegalRun;
    var s := After(Initial(start, assignments), steps);
    var e :| e in s.events && RequestOf(e).Key() == key
             && s.milestones[key] == ValidatedAs(start[key], e);
    assert Cleared(start, assignments, RequestOf(e));
    assert e.vaultId + ":" < key;
    assert !Exposed(start, assignments, key, e.vaultId, e.verifierId);
  }

  /**
   Every milestone that a run validates is validated by a verifier of its own vault, in all runs, exactly if no
   pending milestone is exposed.
   */
  lemma OwnVerifiersOnlyExactly(start: Register, assignments: Assignments)
    ensures OwnVerifiersOnly(start, assignments) <==> !exists key, v, p :: Exposed(start, assignments, key, v, p)
  {
    hide After, LegalRun, Exposed, ByOwnVerifier, WasPending, Initial;
    if key, v, p :| Exposed(start, assignments, key, v, p) {
      ExposedIsValidated(start, assignments, key, v, p);
    } else {
      forall steps, key | LegalRun(Initial(start, assignments), steps)
                          && WasPending(start, key) && IsValidated(After(Initial(start, assignments), steps), key)
        ensures ByOwnVerifier(After(Initial(start, assignments), steps).milestones[key], assignments)
      {
        ValidatedByOwn(start, assignments, steps, key);
      }
    }
  }

  // ------------------------------------------------------------------ which vault ids are safe

  /**
   Every milestone is filed under its own key and belongs to one of the vaults; every assignment is to a
   staffed one.
   */
  ghost predicate Over(start: Register, assignments: Assignments, vaults: set<string>, staffed: set<string>) {
    && (forall key :: key in start ==>
          key == MilestoneKey(start[key].vaultId, start[key].id) && start[key].vaultId in vaults)
    && (forall a :: a in assignments ==> a.0 in staffed)
  }

  /** No staffed vault shares keys with another vault. */
  predicate Apart(vaults: set<string>, staffed: set<string>) {
    forall v, w :: v in staffed && w in vaults && v != "" && v != w ==> !Collide(v, w)
  }

  lemma SameVault(start: Register, assignments: Assignments, vaults: set<string>, staffed: set<string>,
                  key: string, v: string, p: string)
    requires Over(start, assignments, vaults, staffed) && Apart(vaults, staffed)
    requires key in start && (v, p) in assignments && v != "" && v + ":" < key
    ensures start[key].vaultId == v
  {
    hide Collide, MilestoneKey;
    assert (v, p).0 in staffed;
    KeyWithPrefix(key, v);
    KeysCollideExactly(v, start[key].vaultId);
  }

  lemma ApartIsSafe(start: Register, assignments: Assignments, vaults: set<string>, staffed: set<string>)
    requires Over(start, assignments, vaults, staffed) && Apart(vaults, staffed)
    ensures OwnVerifiersOnly(start, assignments)
  {
    hide OwnVerifiersOnly, Collide, Over, Apart;
    forall key, v, p
      ensures !Exposed(start, assignments, key, v, p)
    {
      if key in start && (v, p) in assignments && v != "" && v + ":" < key {
        SameVault(start, assignments, vaults, staffed, key, v, p);
      }
    }
    OwnVerifiersOnlyExactly(start, assignments);
  }

  /** A milestone of vault `w` that a verifier of the colliding vault `v` can validate. */
  lemma CollisionExposes(v: string, w: string) returns (key: string, start: Register)
    requires v != "" && v != w && Collide(v, w)
    ensures Over(start, {(v, "p")}, {w}, {v}) && !OwnVerifiersOnly(start, {(v, "p")})
  {
    var id := if v + ":" <= w then "x" else v[|w| + 1..] + ":x";
    key := MilestoneKey(w, id);
    if v + ":" <= w {
      assert v + ":" < key;
    } else {
      CollidingKeys(w, v);
      assert key == MilestoneKey(v, "x");
    }
    start := map[key := Milestone(id, w, Pending, None, None)];
    assert Exposed(start, {(v, "p")}, key, v, "p");
    ExposedIsValidated(start, {(v, "p")}, key, v, "p");
  }

  lemma LargerSets(start: Register, assignments: Assignments, v: string, w: string, vaults: set<string>,
                   staffed: set<string>)
    requires Over(start, assignments, {w}, {v}) && w in vaults && v in staffed
    ensures Over(start, assignments, vaults, staffed)
  {
  }

  /**
   For the ids of vaults that have milestones and of vaults that have verifiers: validation is by own verifiers only,
   whatever the milestones and assignments, exactly if no vault with verifiers collides with another vault.
   */
  lemma OwnVerifiersOnlyExactlyWhenApart(vaults: set<string>, staffed: set<string>)
    ensures (forall start, assignments ::
               Over(start, assignments, vaults, staffed) ==> OwnVerifiersOnly(start, assignments))
       <==> Apart(vaults, staffed)
  {
    hide Over, OwnVerifiersOnly, Collide;
    if Apart(vaults, staffed) {
      forall start, assignments | Over(start, assignments, vaults, staffed)
        ensures OwnVerifiersOnly(start, assignments)
      {
        ApartIsSafe(start, assignments, vaults, staffed);
      }
    } else {
      var v, w :| v in staffed && w in vaults && v != "" && v != w && Collide(v, w);
      var key, start := CollisionExposes(v, w);
      LargerSets(start, {(v, "p")}, v, w, vaults, staffed);
    }
  }
}
