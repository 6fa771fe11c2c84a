/**
 What one login, refresh or logout does, row by row, and what token it hands out.
 */
module SessionSteps {
  import opened Wrappers
  import opened Sessions
  import opened SessionRuns

  /** A row that is new: of this user, unrevoked, good for seven days, with this parent. */
  predicate IsFreshRow(row: Session, userId: string, parent: Option<Id>, now: int) {
    && row.userId == userId && row.parent == parent && row.revokedAt.None?
    && row.expiresAt == now + 604_800_000
  }

  /** All rows there were are unchanged, and exactly `id` has come with its token. */
  predicate AddsOnly(s: State, s': State, id: Id, token: Token) {
    && id in s'.rows && s'.rows - {id} == s.rows
    && s'.tokens == s.tokens + {token} && s'.usedIds == s.usedIds + {id}
  }

  /** Some row has this one as its parent. */
  ghost predicate IsRotated(s: State, id: Id) {
    exists x :: x in s.rows && s.rows[x].parent == Some(id)
  }

  /** When a refresh is accepted: the token verified, its session exists, is not revoked and has not been rotated. */
  lemma AcceptedExactly(s: State, links: bool, token: Option<Token>, newId: Id, now: int)
    ensures Refresh(s, links, token, newId, now).1.Some? <==>
              && token.Some? && token.value.sessionId in s.rows
              && s.rows[token.value.sessionId].revokedAt.None? && !IsRotated(s, token.value.sessionId)
  {
    if token.Some? && IsRotated(s, token.value.sessionId) {
      var x :| x in s.rows && s.rows[x].parent == Some(token.value.sessionId);
      assert IsChild(s.rows, x, token.value.sessionId);
    }
  }

  lemma UnusedIsNew(s: State, id: Id)
    requires Forest(s) && id !in s.usedIds
    ensures id !in s.rows
  {
  }

  lemma NewIsChildless(s: State, id: Id)
    requires Forest(s) && id !in s.usedIds
    ensures !exists x :: x in s.rows && s.rows[x].parent == Some(id)
  {
    assert forall x :: x in s.rows && s.rows[x].parent == Some(id) ==> IsChild(s.rows, x, id);
  }

  lemma TokenOwner(s: State, t: Token)
    requires TokensMatch(s) && t in s.tokens && t.sessionId in s.rows
    ensures s.rows[t.sessionId].userId == t.userId
  {
  }

  /**
   An accepted refresh hands out a token for a new session of the same user and role, a child of the one presented if
   the insert links it; it is one of the tokens issued, and can be presented next.
   */
  lemma RefreshHandsOutNext(s: State, links: bool, t: Token, newId: Id, now: int)
    requires Forest(s) && TokensMatch(s) && t in s.tokens && newId !in s.usedIds
    requires Refresh(s, links, Some(t), newId, now).1.Some?
    ensures var (s', next) := Refresh(s, links, Some(t), newId, now);
            && next == Some(Token(newId, t.userId, t.role)) && newId !in s.rows
            && AddsOnly(s, s', newId, next.value)
            && IsFreshRow(s'.rows[newId], t.userId, if links then Some(t.sessionId) else None, now)
            && s'.rows[newId].userId == s.rows[t.sessionId].userId
            && forall other, later :: Refresh(s', links, next, other, later).1.Some?
  {
    hide Forest, TokensMatch;
    UnusedIsNew(s, newId);
    var s' := Refresh(s, links, Some(t), newId, now).0;
    assert s'.rows - {newId} == s.rows;
    NewIsChildless(s, newId);
    TokenOwner(s, t);
    forall other, later
      ensures Refresh(s', links, Some(Token(newId, t.userId, t.role)), other, later).1.Some?
    {
      AcceptedExactly(s', links, Some(Token(newId, t.userId, t.role)), other, later);
    }
  }

  /** A login hands out a token for a new session without a parent, which can be presented next. */
  lemma LoginHandsOutFirst(s: State, links: bool, newId: Id, userId: string, role: string, now: int)
    requires Forest(s) && newId !in s.usedIds
    ensures var (s', first) := Step(s, links, Login(newId, userId, role, now));
            && first == Some(Token(newId, userId, role)) && newId !in s.rows
            && AddsOnly(s, s', newId, first.value)
            && IsFreshRow(s'.rows[newId], userId, None, now)
            && forall other, later :: Refresh(s', links, first, other, later).1.Some?
  {
    hide Forest;
    UnusedIsNew(s, newId);
    var s' := Step(s, links, Login(newId, userId, role, now)).0;
    assert s'.rows - {newId} == s.rows;
    NewIsChildless(s, newId);
    forall other, later
      ensures Refresh(s', links, Some(Token(newId, userId, role)), other, later).1.Some?
    {
      AcceptedExactly(s', links, Some(Token(newId, userId, role)), other, later);
    }
  }

  /** `x` is `a`, or some child of its is an ancestor: descent, told from the top. */
  lemma DescentExactly(s: State, x: Id, a: Id)
    ensures Descends(s.rows, x, a) <==>
              x in s.rows && (x == a || (s.rows[x].parent.Some? && Descends(s.rows, s.rows[x].parent.value, a)))
  {
    if x in s.rows {
      if x == a {
        Reflexive(s.rows, a);
      }
      if s.rows[x].parent.Some? {
        ChildDescends(s.rows, x, s.rows[x].parent.value, a);
      }
    }
  }

  /** The row as it is, but revoked at `now`. */
  predicate RevokedNow(row: Session, before: Session, now: int) {
    && row.revokedAt == Some(now) && row.userId == before.userId && row.parent == before.parent
    && row.expiresAt == before.expiresAt && row.serial == before.serial
  }

  /** Revocation marks exactly the unrevoked descendants, with the time; nothing else changes. */
  lemma RevokeExactly(s: State, a: Id, now: int)
    ensures var s' := Revoke(s, a, now);
            && s'.rows.Keys == s.rows.Keys && s'.tokens == s.tokens && s'.usedIds == s.usedIds
            && forall x :: x in s.rows ==>
                 if Descends(s.rows, x, a) && s.rows[x].revokedAt.None?
                 then RevokedNow(s'.rows[x], s.rows[x], now) else s'.rows[x] == s.rows[x]
  {
  }

  /** A logout removes exactly the session and its descendants; nothing else changes. */
  lemma LogoutExactly(s: State, links: bool, a: Id)
    ensures var (s', token) := Step(s, links, Logout(a));
            && token.None? && s'.tokens == s.tokens && s'.usedIds == s.usedIds
            && (forall x :: x in s'.rows <==> x in s.rows && !Descends(s.rows, x, a))
            && forall x :: x in s'.rows ==> s'.rows[x] == s.rows[x]
  {
  }

  /**
   A refused refresh leaves everything as it is if the token does not verify or its session is gone; otherwise
   exactly the unrevoked descendants of the session are revoked.
   */
  lemma RefusalExactly(s: State, links: bool, token: Option<Token>, newId: Id, now: int)
    requires Refresh(s, links, token, newId, now).1.None?
    ensures var s' := Refresh(s, links, token, newId, now).0;
            if token.None? || token.value.sessionId !in s.rows then s' == s
            else
              && s'.rows.Keys == s.rows.Keys && s'.tokens == s.tokens && s'.usedIds == s.usedIds
              && forall x :: x in s.rows ==>
                   if Descends(s.rows, x, token.value.sessionId) && s.rows[x].revokedAt.None?
                   then RevokedNow(s'.rows[x], s.rows[x], now) else s'.rows[x] == s.rows[x]
  {
    if token.Some? {
      RevokeExactly(s, token.value.sessionId, now);
    }
  }
}
