/**
 `SessionRepository` and `RefreshService` over a mutable table, tied to the specification in `Sessions`.
 */
module SessionService {
  import opened Wrappers
  import opened Sessions
  import S = Sessions

  class SessionRepository {
    /** Whether the insert for an explicit id writes the parent. */
    const links: bool
    var rows: Table
    var created: nat
    ghost var usedIds: set<Id>
    ghost var tokens: set<Token>

    constructor (links: bool)
      ensures this.links == links && State() == EMPTY
    {
      this.links, rows, created := links, map[], 0;
      usedIds, tokens := {}, {};
    }

    ghost function State(): State
      reads this
    {
      S.State(rows, usedIds, tokens, created)
    }

    /**
     `drawn` is the random id for a session that comes without one; only the insert for that case surely
     writes the parent.
     */
    method CreateSession(id: Option<Id>, drawn: Id, userId: string, parent: Option<Id>, now: int, ghost role: string)
      returns (created: Id)
      modifies this
      ensures created == id.GetOr(drawn)
      ensures State() == Create(old(State()), links || id.None?, created, userId, parent, role, now)
    {
      created := id.GetOr(drawn);
      var written := if id.Some? && !links then None else parent;
      rows := rows[created := Session(userId, written, None, now + SEVEN_DAYS_MS, this.created)];
      this.created := this.created + 1;
      usedIds := usedIds + {created};
      tokens := tokens + {Token(created, userId, role)};
    }

    method FindById(id: Id) returns (session: Option<Session>)
      ensures session == if id in rows then Some(rows[id]) else None
    {
      session := if id in rows then Some(rows[id]) else None;
    }

    /** The rows whose parent is in `frontier`: one round of the recursive query. */
    function Children(frontier: set<Id>): (children: set<Id>)
      reads this
      ensures forall x :: x in children <==> exists p :: p in frontier && IsChild(rows, x, p)
    {
      set x | x in rows && rows[x].parent.Some? && rows[x].parent.value in frontier
    }

    method FindByParentId(parentId: Id) returns (session: Option<Session>)
      ensures session.Some? <==> HasChild(rows, parentId)
      ensures session.Some? ==> session.value in rows.Values && session.value.parent == Some(parentId)
    {
      var children := Children({parentId});
      assert forall x :: x in children <==> IsChild(rows, x, parentId);
      if children == {} {
        session := None;
      } else {
        var x :| x in children;
        session := Some(rows[x]);
      }
    }

    /** `ids` are the rows whose k-th ancestor is `a`. */
    ghost predicate IsGeneration(ids: set<Id>, a: Id, k: nat)
      reads this
    {
      forall x :: x in ids <==> Up(rows, x, k) == Some(a)
    }

    /** `a` is at most `k` generations above `x`. */
    ghost predicate Within(x: Id, a: Id, k: nat)
      reads this
    {
      exists j: nat :: j <= k && Up(rows, x, j) == Some(a)
    }

    lemma FirstRound(a: Id, frontier: set<Id>)
      requires frontier == if a in rows then {a} else {}
      ensures IsGeneration(frontier, a, 0)
      ensures forall x :: x in frontier <==> Within(x, a, 0)
    {
      assert forall x :: Within(x, a, 0) <==> Up(rows, x, 0) == Some(a);
    }

    lemma NotDeeperThanCreated(frontier: set<Id>, a: Id, k: nat)
      requires Forest(State()) && IsGeneration(frontier, a, k) && frontier != {}
      ensures k < created
    {
      var x :| x in frontier;
      UpIsOlder(State(), x, k);
    }

    lemma NextRound(frontier: set<Id>, next: set<Id>, a: Id, k: nat)
      requires IsGeneration(frontier, a, k) && next == Children(frontier)
      ensures IsGeneration(next, a, k + 1)
      ensures forall x :: Within(x, a, k + 1) <==> Within(x, a, k) || x in next
    {
      forall x
        ensures x in next <==> Up(rows, x, k + 1) == Some(a)
      {
      }
      forall x
        ensures Within(x, a, k + 1) <==> Within(x, a, k) || x in next
      {
        assert Within(x, a, k + 1) <==> Within(x, a, k) || Up(rows, x, k + 1) == Some(a);
      }
    }

    lemma {:induction false} Shallower(x: Id, j: nat, k: nat, a: Id)
      requires Up(rows, x, j) == Some(a) && k <= j
      ensures exists y :: Up(rows, y, k) == Some(a)
      decreases j
    {
      if k < j {
        Shallower(rows[x].parent.value, j - 1, k, a);
      }
    }

    lemma NoneDeeper(a: Id, k: nat)
      requires IsGeneration({}, a, k)
      ensures forall x :: Within(x, a, k) <==> x in rows && Descends(rows, x, a)
    {
      forall x
        ensures Within(x, a, k) <==> x in rows && Descends(rows, x, a)
      {
        if Descends(rows, x, a) {
          var j: nat :| Up(rows, x, j) == Some(a);
          UpExists(rows, x, j);
          if k < j {
            Shallower(x, j, k, a);
          }
        }
      }
    }

    /**
     The recursive query: each round looks up the children of the rows the previous round produced, until
     a round produces none.  On a forest that happens after at most as many rounds as there were insertions.
     */
    method Descendants(a: Id) returns (found: set<Id>)
      requires Forest(State())
      ensures forall x :: x in found <==> x in rows && Descends(rows, x, a)
    {
      hide Up, Forest, Descends;
      var frontier := if a in rows then {a} else {};
      found := frontier;
      ghost var k: nat := 0;
      FirstRound(a, frontier);
      while frontier != {}
        invariant k <= created + 1
        invariant IsGeneration(frontier, a, k)
        invariant forall x :: x in found <==> Within(x, a, k)
        decreases created + 1 - k
      {
        NotDeeperThanCreated(frontier, a, k);
        var next := Children(frontier);
        NextRound(frontier, next, a, k);
        frontier := next;
        found := found + frontier;
        k := k + 1;
      }
      NoneDeeper(a, k);
    }

    method RevokeSessionAndDescendants(a: Id, now: int)
      requires Forest(State())
      modifies this
      ensures State() == Revoke(old(State()), a, now)
    {
      var ids := Descendants(a);
      rows := map x | x in rows ::
        if x in ids && rows[x].revokedAt.None? then rows[x].(revokedAt := Some(now)) else rows[x];
    }

    method DeleteSessionById(a: Id)
      requires Forest(State())
      modifies this
      ensures State() == Delete(old(State()), a)
    {
      var ids := Descendants(a);
      rows := map x | x in rows && x !in ids :: rows[x];
    }
  }

  class RefreshService {
    const repository: SessionRepository

    constructor (repository: SessionRepository)
      ensures this.repository == repository
    {
      this.repository := repository;
    }

    /** The token is absent if verification failed; `newId` is the random id drawn for the new session. */
    method Refresh(token: Option<Token>, newId: Id, now: int) returns (tokens: Option<Token>)
      requires Forest(repository.State())
      modifies repository
      ensures (repository.State(), tokens) == S.Refresh(old(repository.State()), repository.links, token, newId, now)
    {
      if token.None? {
        return None;
      }
      var sessionId, userId, role := token.value.sessionId, token.value.userId, token.value.role;
      var session := repository.FindById(sessionId);
      if session.None? {
        return None;
      }
      if session.value.revokedAt.Some? {
        repository.RevokeSessionAndDescendants(sessionId, now);
        return None;
      }
      var child := repository.FindByParentId(sessionId);
      if child.Some? {
        repository.RevokeSessionAndDescendants(sessionId, now);
        return None;
      }
      var _ := repository.CreateSession(Some(newId), "", userId, Some(sessionId), now, role);
      return Some(Token(newId, userId, role));
    }
  }
}
