/**
 What every run of logins, refreshes and logouts keeps, and what rotation promises over whole runs.
 */
module SessionRuns {
  import opened Wrappers
  import opened Sessions

  // ------------------------------------------------------------------ revocation and deletion

  /** Presenting the session's token now would be accepted. */
  ghost predicate Refreshable(s: State, sessionId: Id) {
    sessionId in s.rows && s.rows[sessionId].revokedAt.None? && !HasChild(s.rows, sessionId)
  }

  lemma RevokeDescends(s: State, a: Id, now: int, x: Id, r: Id)
    ensures Descends(Revoke(s, a, now).rows, x, r) <==> Descends(s.rows, x, r)
  {
    forall k: nat
      ensures Up(Revoke(s, a, now).rows, x, k) == Up(s.rows, x, k)
    {
      UpSameParents(s.rows, Revoke(s, a, now).rows, x, k);
    }
  }

  /** Revoking twice changes nothing the second time, whenever that is. */
  lemma RevokeIdempotent(s: State, a: Id, now: int, later: int)
    ensures Revoke(Revoke(s, a, now), a, later) == Revoke(s, a, now)
  {
    var once := Revoke(s, a, now);
    forall x | x in s.rows
      ensures Descends(once.rows, x, a) <==> Descends(s.rows, x, a)
    {
      RevokeDescends(s, a, now, x, a);
    }
    assert Revoke(once, a, later).rows == once.rows;
  }

  lemma RevokeKeepsForest(s: State, a: Id, now: int)
    requires Forest(s)
    ensures Forest(Revoke(s, a, now))
  {
    var rows := Revoke(s, a, now).rows;
    forall x, p | IsChild(rows, x, p) && p in rows && rows[p].revokedAt.Some?
      ensures rows[x].revokedAt.Some?
    {
      assert IsChild(s.rows, x, p);
      ChildDescends(s.rows, x, p, a);
    }
    assert forall x, p :: IsChild(rows, x, p) ==> IsChild(s.rows, x, p);
  }

  lemma DeleteKeepsForest(s: State, a: Id)
    requires Forest(s)
    ensures Forest(Delete(s, a))
  {
    var rows := Delete(s, a).rows;
    forall x, p | IsChild(rows, x, p)
      ensures IsChild(s.rows, x, p) && p in rows
    {
      ChildDescends(s.rows, x, p, a);
    }
  }

  lemma CreateKeepsForest(s: State, links: bool, id: Id, userId: string, parent: Option<Id>, role: string, now: int)
    requires Forest(s) && id !in s.usedIds
    requires parent.Some? ==> Refreshable(s, parent.value)
    ensures Forest(Create(s, links, id, userId, parent, role, now))
  {
    var rows := Create(s, links, id, userId, parent, role, now).rows;
    forall x, p | IsChild(rows, x, p)
      ensures x != id ==> IsChild(s.rows, x, p) && p != id
    {
      assert x != id ==> IsChild(s.rows, x, p);
    }
  }

  /**
   A refresh whose checks and insert are separated by other requests: the insert keeps the table in order
   exactly if what was checked still holds, the session is unrevoked and has no child.
   */
  lemma LateInsert(s: State, id: Id, p: Id, userId: string, role: string, now: int)
    requires Forest(s) && id !in s.usedIds && p in s.rows
    ensures Forest(Create(s, true, id, userId, Some(p), role, now))
       <==> s.rows[p].revokedAt.None? && !HasChild(s.rows, p)
  {
    var s' := Create(s, true, id, userId, Some(p), role, now);
    assert IsChild(s'.rows, id, p);
    if HasChild(s.rows, p) {
      var c :| c in s.rows && IsChild(s.rows, c, p);
      assert IsChild(s'.rows, c, p);
    } else if s.rows[p].revokedAt.None? {
      CreateKeepsForest(s, true, id, userId, Some(p), role, now);
    }
  }

  /** Logins, refreshes and logouts all keep the forest. */
  lemma StepKeepsForest(s: State, links: bool, e: Event)
    requires Forest(s) && Legal(s, e)
    ensures Forest(Step(s, links, e).0)
  {
    match e
    case Login(newId, userId, role, now) => CreateKeepsForest(s, links, newId, userId, None, role, now);
    case Present(token, newId, now) =>
      if token.Some? && token.value.sessionId in s.rows {
        var t := token.value;
        if s.rows[t.sessionId].revokedAt.Some? || HasChild(s.rows, t.sessionId) {
          RevokeKeepsForest(s, t.sessionId, now);
        } else {
          CreateKeepsForest(s, links, newId, t.userId, Some(t.sessionId), t.role, now);
        }
      }
    case Logout(id) => DeleteKeepsForest(s, id);
  }

  lemma CreateKeepsTokens(s: State, links: bool, id: Id, userId: string, parent: Option<Id>, role: string, now: int)
    requires Forest(s) && TokensMatch(s) && id !in s.usedIds
    requires parent.Some? ==> parent.value in s.rows && s.rows[parent.value].userId == userId
    ensures TokensMatch(Create(s, links, id, userId, parent, role, now))
  {
    var rows := Create(s, links, id, userId, parent, role, now).rows;
    forall x, p | IsChild(rows, x, p) && p in rows
      ensures rows[x].userId == rows[p].userId
    {
      if x != id {
        assert IsChild(s.rows, x, p);
      }
    }
  }

  /** Removing or revoking rows leaves tokens matched. */
  lemma FewerRowsKeepTokens(s: State, s': State)
    requires TokensMatch(s) && s'.tokens == s.tokens && s'.usedIds == s.usedIds && s'.rows.Keys <= s.rows.Keys
    requires forall x :: x in s'.rows ==> s'.rows[x].userId == s.rows[x].userId && s'.rows[x].parent == s.rows[x].parent
    ensures TokensMatch(s')
  {
    assert forall x, p :: IsChild(s'.rows, x, p) ==> IsChild(s.rows, x, p);
  }

  lemma StepKeepsTokens(s: State, links: bool, e: Event)
    requires Forest(s) && TokensMatch(s) && Legal(s, e)
    ensures TokensMatch(Step(s, links, e).0)
  {
    match e {
      case Login(newId, userId, role, now) => CreateKeepsTokens(s, links, newId, userId, None, role, now);
      case Present(token, newId, now) =>
        if token.Some? && token.value.sessionId in s.rows {
          var t := token.value;
          if s.rows[t.sessionId].revokedAt.Some? || HasChild(s.rows, t.sessionId) {
            FewerRowsKeepTokens(s, Revoke(s, t.sessionId, now));
          } else {
            CreateKeepsTokens(s, links, newId, t.userId, Some(t.sessionId), t.role, now);
          }
        }
      case Logout(id) => FewerRowsKeepTokens(s, Delete(s, id));
    }
  }

  /** In every reachable state the table is a forest of chains, and every token matches its row. */
  lemma {:induction false} ReachableStates(links: bool, events: seq<Event>)
    requires LegalRun(links, events)
    ensures Forest(After(links, events)) && TokensMatch(After(links, events))
  {
    if events != [] {
      var n := |events| - 1;
      assert LegalRun(links, events[..n]) by {
        assert forall i :: 0 <= i < n ==> events[..n][..i] == events[..i];
      }
      ReachableStates(links, events[..n]);
      StepKeepsForest(After(links, events[..n]), links, events[n]);
      StepKeepsTokens(After(links, events[..n]), links, events[n]);
    }
  }

  /** All sessions of a family are their root's user's. */
  lemma {:induction false} FamilyHasOneUser(s: State, x: Id, k: nat)
    requires Forest(s) && TokensMatch(s) && Up(s.rows, x, k).Some?
    ensures x in s.rows && Up(s.rows, x, k).value in s.rows
    ensures s.rows[x].userId == s.rows[Up(s.rows, x, k).value].userId
    decreases k
  {
    if k > 0 {
      assert IsChild(s.rows, x, s.rows[x].parent.value);
      FamilyHasOneUser(s, s.rows[x].parent.value, k - 1);
    }
  }

  lemma {:induction false} RevokedDownwards(s: State, x: Id, k: nat, a: Id)
    requires Forest(s) && Up(s.rows, x, k) == Some(a) && a in s.rows && s.rows[a].revokedAt.Some?
    ensures x in s.rows && s.rows[x].revokedAt.Some?
    decreases k
  {
    if k > 0 {
      var p := s.rows[x].parent.value;
      RevokedDownwards(s, p, k - 1, a);
      assert IsChild(s.rows, x, p);
    }
  }

  /** For a session that is already revoked, the revocation the code performs has nothing left to do. */
  lemma RevokedFamilyStays(s: State, a: Id, now: int)
    requires Forest(s) && a in s.rows && s.rows[a].revokedAt.Some?
    ensures Revoke(s, a, now) == s
  {
    forall x | x in s.rows && Descends(s.rows, x, a)
      ensures s.rows[x].revokedAt.Some?
    {
      var k: nat :| Up(s.rows, x, k) == Some(a);
      RevokedDownwards(s, x, k, a);
    }
    assert Revoke(s, a, now).rows == s.rows;
  }

  // ------------------------------------------------------------------ a token is accepted once

  lemma RunStep(links: bool, events: seq<Event>, m: nat)
    requires LegalRun(links, events) && m < |events|
    ensures LegalRun(links, events[..m])
    ensures Forest(After(links, events[..m])) && Legal(After(links, events[..m]), events[m])
    ensures After(links, events[..m + 1]) == Step(After(links, events[..m]), links, events[m]).0
  {
    assert forall i :: 0 <= i < m ==> events[..m][..i] == events[..i];
    ReachableStates(links, events[..m]);
    assert events[..m + 1][..m] == events[..m];
  }

  /** The session has been rotated into `child`, or it is gone for good. */
  ghost predicate Spent(s: State, sessionId: Id, child: Id) {
    sessionId in s.usedIds && (sessionId in s.rows ==> IsChild(s.rows, child, sessionId))
  }

  lemma SpentStays(s: State, links: bool, e: Event, sessionId: Id, child: Id)
    requires Forest(s) && Legal(s, e) && Spent(s, sessionId, child) && e != Logout(child)
    ensures Spent(Step(s, links, e).0, sessionId, child)
  {
    if e.Logout? && sessionId in s.rows {
      ChildDescends(s.rows, child, sessionId, e.id);
    }
  }

  lemma {:induction false} SpentUntilChildLogout(events: seq<Event>, lo: nat, hi: nat, sessionId: Id, child: Id)
    requires lo <= hi <= |events| && LegalRun(true, events)
    requires Spent(After(true, events[..lo]), sessionId, child)
    requires forall l :: lo <= l < hi ==> events[l] != Logout(child)
    ensures Spent(After(true, events[..hi]), sessionId, child)
    decreases hi
  {
    hide Step, Forest, Legal, Descends;
    if lo < hi {
      SpentUntilChildLogout(events, lo, hi - 1, sessionId, child);
      RunStep(true, events, hi - 1);
      SpentStays(After(true, events[..hi - 1]), true, events[hi - 1], sessionId, child);
    }
  }

  /**
   Between two acceptances of one session's token there is a logout of the very session that the first
   one created.
   */
  lemma AcceptedTwiceNeedsLogout(events: seq<Event>, i: nat, j: nat, sessionId: Id)
    requires LegalRun(true, events) && i < j < |events|
    requires Accepted(true, events, i, sessionId) && Accepted(true, events, j, sessionId)
    ensures exists l :: i < l < j && events[l] == Logout(events[i].newId)
  {
    hide After, LegalRun, Forest;
    RunStep(true, events, i);
    var child := events[i].newId;
    assert Spent(After(true, events[..i + 1]), sessionId, child);
    if forall l :: i + 1 <= l < j ==> events[l] != Logout(child) {
      SpentUntilChildLogout(events, i + 1, j, sessionId, child);
    }
  }

  /** And such a logout does reopen the parent. */
  lemma ChildLogoutReopens(s: State, token: Token, child: Id, other: Id, now: int)
    requires Forest(s) && token.sessionId in s.rows && s.rows[token.sessionId].revokedAt.None?
    requires IsChild(s.rows, child, token.sessionId)
    ensures Refresh(Delete(s, child), true, Some(token), other, now).1.Some?
  {
    var p := token.sessionId;
    if Descends(s.rows, p, child) {
      var k: nat :| Up(s.rows, p, k) == Some(child);
      UpIsOlder(s, p, k);
    }
    Reflexive(s.rows, child);
    assert forall x :: IsChild(Delete(s, child).rows, x, p) ==> IsChild(s.rows, x, p);
  }

  lemma RefreshableIsAccepted(s: State, token: Token, newId: Id, now: int)
    ensures Refresh(s, true, Some(token), newId, now).1.Some? <==> Refreshable(s, token.sessionId)
  {
  }

  lemma OtherEventsKeepSpent(s: State, e: Event, sessionId: Id, child: Id)
    requires Forest(s) && Legal(s, e) && e != Logout(child)
    requires sessionId in s.rows && IsChild(s.rows, child, sessionId)
    ensures !Refreshable(Step(s, true, e).0, sessionId)
  {
    hide Legal, Step, Descends;
    SpentStays(s, true, e, sessionId, child);
  }

  /**
   One step at a time: the token of a session that has been rotated works again exactly after the logout
   of its child.
   */
  lemma ReopenedExactlyByChildLogout(s: State, e: Event, sessionId: Id, child: Id)
    requires Forest(s) && Legal(s, e)
    requires sessionId in s.rows && s.rows[sessionId].revokedAt.None? && IsChild(s.rows, child, sessionId)
    ensures Refreshable(Step(s, true, e).0, sessionId) <==> e == Logout(child)
  {
    hide Forest, Legal;
    if e == Logout(child) {
      ChildLogoutReopens(s, Token(sessionId, "", ""), child, "", 0);
      RefreshableIsAccepted(Delete(s, child), Token(sessionId, "", ""), "", 0);
    } else {
      OtherEventsKeepSpent(s, e, sessionId, child);
    }
  }

  // ------------------------------------------------------------------ reuse ends the family

  /** No member of the family of root `r` is refreshable. */
  ghost predicate Dead(s: State, r: Id) {
    && r in s.rows && s.rows[r].parent.None?
    && forall x :: x in s.rows && Descends(s.rows, x, r) ==> s.rows[x].revokedAt.Some? || HasChild(s.rows, x)
  }

  /** A proper ancestor has a child. */
  lemma AncestorHasChild(s: State, x: Id, k: nat, a: Id)
    requires Forest(s) && k > 0 && Up(s.rows, x, k) == Some(a)
    ensures HasChild(s.rows, a)
  {
    OneStep(s.rows, x, k - 1, a);
    assert IsChild(s.rows, Up(s.rows, x, k - 1).value, a);
  }

  /** Refusing the token of a session that exists leaves its whole family dead. */
  lemma RefusalKillsFamily(s: State, token: Token, newId: Id, now: int, r: Id)
    requires Forest(s) && token.sessionId in s.rows
    requires Descends(s.rows, token.sessionId, r) && r in s.rows && s.rows[r].parent.None?
    requires Refresh(s, true, Some(token), newId, now).1.None?
    ensures Dead(Refresh(s, true, Some(token), newId, now).0, r)
  {
    var t := token.sessionId;
    var s' := Revoke(s, t, now);
    var m: nat :| Up(s.rows, t, m) == Some(r);
    forall x | x in s'.rows && Descends(s'.rows, x, r)
      ensures s'.rows[x].revokedAt.Some? || HasChild(s'.rows, x)
    {
      RevokeDescends(s, t, now, x, r);
      var k: nat :| Up(s.rows, x, k) == Some(r);
      if k < m {
        SameChain(s, x, k, t, m, r);
        AncestorHasChild(s, t, m - k, x);
        var c :| c in s.rows && IsChild(s.rows, c, x);
        assert IsChild(s'.rows, c, x);
      } else {
        SameChain(s, t, m, x, k, r);
        assert Descends(s.rows, x, t);
      }
    }
  }

  lemma DeadAfterCreate(s: State, id: Id, userId: string, parent: Option<Id>, role: string, now: int, r: Id)
    requires Forest(s) && Dead(s, r) && id !in s.usedIds
    requires parent.Some? ==> Refreshable(s, parent.value)
    ensures Dead(Create(s, true, id, userId, parent, role, now), r)
  {
    var s' := Create(s, true, id, userId, parent, role, now);
    forall x | x in s'.rows && Descends(s'.rows, x, r)
      ensures s'.rows[x].revokedAt.Some? || HasChild(s'.rows, x)
    {
      var k: nat :| Up(s'.rows, x, k) == Some(r);
      if x == id {
        // The parent would be a member of the family that is not dead.
        UpAfterCreate(s, id, s'.rows[id], parent.value, k - 1);
        assert false;
      } else {
        UpAfterCreate(s, id, s'.rows[id], x, k);
        assert Descends(s.rows, x, r);
        if HasChild(s.rows, x) {
          var c :| c in s.rows && IsChild(s.rows, c, x);
          assert IsChild(s'.rows, c, x);
        }
      }
    }
  }

  lemma DeadAfterRevoke(s: State, a: Id, now: int, r: Id)
    requires Forest(s) && Dead(s, r)
    ensures Dead(Revoke(s, a, now), r)
  {
    var s' := Revoke(s, a, now);
    forall x | x in s'.rows && Descends(s'.rows, x, r)
      ensures s'.rows[x].revokedAt.Some? || HasChild(s'.rows, x)
    {
      RevokeDescends(s, a, now, x, r);
      if HasChild(s.rows, x) {
        var c :| c in s.rows && IsChild(s.rows, c, x);
        assert IsChild(s'.rows, c, x);
      }
    }
  }

  /** The logout would make the parent of a member of the family refreshable. */
  ghost predicate Reopens(s: State, a: Id, r: Id) {
    && a in s.rows && Descends(s.rows, a, r) && s.rows[a].parent.Some?
    && s.rows[a].parent.value in s.rows && s.rows[s.rows[a].parent.value].revokedAt.None?
  }

  lemma RootStays(s: State, a: Id, r: Id)
    requires r in s.rows && s.rows[r].parent.None? && a != r
    ensures r in Delete(s, a).rows
  {
    forall k: nat
      ensures Up(s.rows, r, k) != Some(a)
    {
    }
  }

  lemma DeadWithRevokedParent(s: State, a: Id, r: Id)
    requires Forest(s) && Dead(s, r) && a != r && !Reopens(s, a, r)
    ensures Dead(Delete(s, a), r)
  {
    var s' := Delete(s, a);
    RootStays(s, a, r);
    forall x | x in s'.rows && Descends(s'.rows, x, r)
      ensures s'.rows[x].revokedAt.Some? || HasChild(s'.rows, x)
    {
      var k: nat :| Up(s'.rows, x, k) == Some(r);
      UpAfterDelete(s, a, x, k);
      assert Descends(s.rows, x, r);
      if s.rows[x].revokedAt.None? {
        var c :| c in s.rows && IsChild(s.rows, c, x);
        ChildDescends(s.rows, c, x, r);
        ChildDescends(s.rows, c, x, a);
        assert IsChild(s'.rows, c, x);
      }
    }
  }

  /** Of the logouts in a dead family exactly those under an unrevoked parent revive it. */
  lemma RevivedExactlyByReopening(s: State, a: Id, r: Id)
    requires Forest(s) && Dead(s, r) && a != r
    ensures Dead(Delete(s, a), r) <==> !Reopens(s, a, r)
  {
    if Reopens(s, a, r) {
      var p := s.rows[a].parent.value;
      assert IsChild(s.rows, a, p);
      ChildDescends(s.rows, a, p, r);
      ChildLogoutReopens(s, Token(p, "", ""), a, "", 0);
      RefreshableIsAccepted(Delete(s, a), Token(p, "", ""), "", 0);
      var k: nat :| Up(s.rows, p, k) == Some(r);
      UpAfterDelete(s, a, p, k);
      assert Descends(Delete(s, a).rows, p, r);
    } else {
      DeadWithRevokedParent(s, a, r);
    }
  }

  /** The family is dead, or its root was logged out and all of it is gone. */
  ghost predicate DeadOrGone(s: State, r: Id) {
    r in s.usedIds && (r in s.rows ==> Dead(s, r))
  }

  lemma DeadOrGoneStays(s: State, e: Event, r: Id)
    requires Forest(s) && Legal(s, e) && DeadOrGone(s, r)
    requires e.Logout? ==> !Reopens(s, e.id, r)
    ensures DeadOrGone(Step(s, true, e).0, r)
  {
    if r in s.rows {
      match e
      case Login(newId, userId, role, now) => DeadAfterCreate(s, newId, userId, None, role, now, r);
      case Present(token, newId, now) =>
        if token.Some? && token.value.sessionId in s.rows {
          var t := token.value;
          if s.rows[t.sessionId].revokedAt.Some? || HasChild(s.rows, t.sessionId) {
            DeadAfterRevoke(s, t.sessionId, now, r);
          } else {
            DeadAfterCreate(s, newId, t.userId, Some(t.sessionId), t.role, now, r);
          }
        }
      case Logout(id) =>
        if id == r {
          Reflexive(s.rows, r);
        } else {
          DeadWithRevokedParent(s, id, r);
        }
    }
  }

  /** The session is of the family, or no longer there. */
  ghost predicate Member(s: State, x: Id, r: Id) {
    x in s.usedIds && (x in s.rows ==> Descends(s.rows, x, r))
  }

  lemma CreateKeepsMember(s: State, id: Id, userId: string, parent: Option<Id>, role: string, now: int, x: Id, r: Id)
    requires Forest(s) && id !in s.usedIds && Member(s, x, r)
    ensures Member(Create(s, true, id, userId, parent, role, now), x, r)
  {
    if x in s.rows {
      var k: nat :| Up(s.rows, x, k) == Some(r);
      var s' := Create(s, true, id, userId, parent, role, now);
      UpAfterCreate(s, id, s'.rows[id], x, k);
    }
  }

  lemma MemberStays(s: State, e: Event, x: Id, r: Id)
    requires Forest(s) && Legal(s, e) && Member(s, x, r)
    ensures Member(Step(s, true, e).0, x, r)
  {
    match e
    case Login(newId, userId, role, now) => CreateKeepsMember(s, newId, userId, None, role, now, x, r);
    case Present(token, newId, now) =>
      if token.Some? && token.value.sessionId in s.rows {
        var t := token.value;
        if s.rows[t.sessionId].revokedAt.Some? || HasChild(s.rows, t.sessionId) {
          RevokeDescends(s, t.sessionId, now, x, r);
        } else {
          CreateKeepsMember(s, newId, t.userId, Some(t.sessionId), t.role, now, x, r);
        }
      }
    case Logout(id) =>
      if x in Delete(s, id).rows {
        var k: nat :| Up(s.rows, x, k) == Some(r);
        UpAfterDelete(s, id, x, k);
      }
  }

  lemma {:induction false} DeadUntilReopened(events: seq<Event>, lo: nat, hi: nat, r: Id)
    requires lo <= hi <= |events| && LegalRun(true, events)
    requires DeadOrGone(After(true, events[..lo]), r)
    requires forall l :: lo <= l < hi && events[l].Logout? ==> !Reopens(After(true, events[..l]), events[l].id, r)
    ensures DeadOrGone(After(true, events[..hi]), r)
    decreases hi
  {
    hide Step, Forest, Legal, Reopens, DeadOrGone, After, LegalRun, Descends;
    if lo < hi {
      DeadUntilReopened(events, lo, hi - 1, r);
      RunStep(true, events, hi - 1);
      DeadOrGoneStays(After(true, events[..hi - 1]), events[hi - 1], r);
    }
  }

  lemma {:induction false} MemberForever(events: seq<Event>, lo: nat, hi: nat, x: Id, r: Id)
    requires lo <= hi <= |events| && LegalRun(true, events)
    requires Member(After(true, events[..lo]), x, r)
    ensures Member(After(true, events[..hi]), x, r)
    decreases hi
  {
    hide Step, Forest, Legal, Member, After, LegalRun;
    if lo < hi {
      MemberForever(events, lo, hi - 1, x, r);
      RunStep(true, events, hi - 1);
      MemberStays(After(true, events[..hi - 1]), events[hi - 1], x, r);
    }
  }

  lemma DeadMemberIsRefused(s: State, token: Token, newId: Id, now: int, r: Id)
    requires DeadOrGone(s, r) && Member(s, token.sessionId, r)
    ensures Refresh(s, true, Some(token), newId, now).1.None?
  {
    if token.sessionId in s.rows {
      var k: nat :| Up(s.rows, token.sessionId, k) == Some(r);
      UpExists(s.rows, token.sessionId, k);
    }
  }

  /**
   Once the token of a session of the family of root `r` has been refused, no token of that family is ever
   accepted again, whatever is logged out in it, as long as it is not a session whose parent is unrevoked.
   */
  lemma ReuseEndsFamily(events: seq<Event>, i: nat, j: nat, reused: Id, later: Id, r: Id)
    requires LegalRun(true, events) && i < j < |events|
    requires events[i].Present? && events[i].token.Some? && events[i].token.value.sessionId == reused
    requires var s := After(true, events[..i]);
             && reused in s.rows && (s.rows[reused].revokedAt.Some? || HasChild(s.rows, reused))
             && Descends(s.rows, reused, r) && r in s.rows && s.rows[r].parent.None?
    requires forall l :: i < l < j && events[l].Logout? ==> !Reopens(After(true, events[..l]), events[l].id, r)
    requires || (later in After(true, events[..i]).rows && Descends(After(true, events[..i]).rows, later, r))
             || Member(After(true, events[..j]), later, r)
    ensures !Accepted(true, events, j, later)
  {
    RunStep(true, events, i);
    RunStep(true, events, j);
    RefusalKillsFamily(After(true, events[..i]), events[i].token.value, events[i].newId, events[i].now, r);
    DeadUntilReopened(events, i + 1, j, r);
    if later in After(true, events[..i]).rows && Descends(After(true, events[..i]).rows, later, r) {
      MemberForever(events, i, j, later, r);
    }
    if events[j].Present? && events[j].token.Some? && events[j].token.value.sessionId == later {
      DeadMemberIsRefused(After(true, events[..j]), events[j].token.value, events[j].newId, events[j].now, r);
    }
  }

  // ------------------------------------------------------------------ the explicit-id branch

  /** With the branch that drops the parent, no row ever has one, and none is ever revoked. */
  ghost predicate Unlinked(s: State) {
    forall x :: x in s.rows ==> s.rows[x].parent.None? && s.rows[x].revokedAt.None?
  }

  lemma {:induction false} WithoutLinksNothingIsRevoked(events: seq<Event>)
    ensures Unlinked(After(false, events))
  {
    if events != [] {
      WithoutLinksNothingIsRevoked(events[..|events| - 1]);
    }
  }

  /** There, every presentation of the token of a session that exists is accepted. */
  lemma WithoutLinksAlwaysAccepted(events: seq<Event>, token: Token, newId: Id, now: int)
    requires token.sessionId in After(false, events).rows
    ensures Refresh(After(false, events), false, Some(token), newId, now).1.Some?
  {
    WithoutLinksNothingIsRevoked(events);
    var rows := After(false, events).rows;
    assert forall x :: x in rows ==> !IsChild(rows, x, token.sessionId);
  }

  /** A login, and its refresh token presented twice. */
  function PresentTwice(): seq<Event> {
    [Login("a", "u", "investor", 0),
     Present(Some(Token("a", "u", "investor")), "b", 1),
     Present(Some(Token("a", "u", "investor")), "c", 2)]
  }

  lemma PresentTwiceWithoutLinks()
    ensures LegalRun(false, PresentTwice())
    ensures Accepted(false, PresentTwice(), 1, "a") && Accepted(false, PresentTwice(), 2, "a")
  {
    var events := PresentTwice();
    var s1 := Create(EMPTY, false, "a", "u", None, "investor", 0);
    assert events[..1][..0] == [] && events[..2][..1] == events[..1];
    assert After(false, events[..0]) == EMPTY && After(false, events[..1]) == s1;
    WithoutLinksAlwaysAccepted(events[..1], Token("a", "u", "investor"), "b", 1);
    var s2 := Create(s1, false, "b", "u", Some("a"), "investor", 1);
    assert After(false, events[..2]) == s2;
    WithoutLinksAlwaysAccepted(events[..2], Token("a", "u", "investor"), "c", 2);
  }

  /**
   "Each refresh token is accepted at most once", over all runs without logouts, holds exactly for the
   repository that links a new session to its parent.
   */
  lemma AcceptedOnceExactlyWhenLinked(links: bool)
    ensures (forall events: seq<Event>, i: nat, j: nat, sessionId: Id ::
               LegalRun(links, events) && (forall l :: 0 <= l < |events| ==> !events[l].Logout?) && i < j < |events|
               ==> !(Accepted(links, events, i, sessionId) && Accepted(links, events, j, sessionId)))
       <==> links
  {
    if links {
      forall events: seq<Event>, i: nat, j: nat, sessionId: Id
        | LegalRun(links, events) && (forall l :: 0 <= l < |events| ==> !events[l].Logout?) && i < j < |events|
        ensures !(Accepted(links, events, i, sessionId) && Accepted(links, events, j, sessionId))
      {
        if Accepted(links, events, i, sessionId) && Accepted(links, events, j, sessionId) {
          AcceptedTwiceNeedsLogout(events, i, j, sessionId);
        }
      }
    } else {
      PresentTwiceWithoutLinks();
    }
  }
}
