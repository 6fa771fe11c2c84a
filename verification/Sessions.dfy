/**
 Refresh-token rotation: the sessions table, `RefreshService.refresh`, login and logout, and the runs
 they make possible.  One refresh is one atomic step.
 */
module Sessions {
  import opened Wrappers

  type Id = string

  const SEVEN_DAYS_MS := 7 * 24 * 60 * 60 * 1000

  /** `serial` is the row's place in the order of insertion. */
  datatype Session = Session(userId: string, parent: Option<Id>, revokedAt: Option<int>, expiresAt: int, serial: nat)

  type Table = map<Id, Session>

  /** What a refresh token carries. */
  datatype Token = Token(sessionId: Id, userId: string, role: string)

  /** The table, the ids ever used, the refresh tokens ever issued, and the number of insertions. */
  datatype State = State(rows: Table, usedIds: set<Id>, tokens: set<Token>, created: nat)

  const EMPTY := State(map[], {}, {}, 0)

  // ------------------------------------------------------------------ ancestry

  /** The k-th ancestor of a row, through rows that exist. */
  function Up(rows: Table, x: Id, k: nat): Option<Id>
    decreases k
  {
    if x !in rows then None
    else if k == 0 then Some(x)
    else if rows[x].parent.None? then None
    else Up(rows, rows[x].parent.value, k - 1)
  }

  /** `x` is `a` or one of its descendants. */
  ghost predicate Descends(rows: Table, x: Id, a: Id) {
    exists k: nat :: Up(rows, x, k) == Some(a)
  }

  predicate IsChild(rows: Table, x: Id, p: Id) {
    x in rows && rows[x].parent == Some(p)
  }

  predicate HasChild(rows: Table, p: Id) {
    exists x :: x in rows && IsChild(rows, x, p)
  }

  /** The table is a forest of chains, and revocation is closed downwards. */
  ghost predicate Forest(s: State) {
    && (forall x :: x in s.rows ==> x in s.usedIds && s.rows[x].serial < s.created)
    && (forall x, p :: IsChild(s.rows, x, p) ==>
          p in s.rows && s.rows[p].serial < s.rows[x].serial)
    && (forall x, y, p :: IsChild(s.rows, x, p) && IsChild(s.rows, y, p) ==> x == y)
    && (forall x, p :: IsChild(s.rows, x, p) && p in s.rows && s.rows[p].revokedAt.Some? ==> s.rows[x].revokedAt.Some?)
  }

  /** Each session has one refresh token, for its own user, and a whole family belongs to one user. */
  ghost predicate TokensMatch(s: State) {
    && (forall t :: t in s.tokens ==> t.sessionId in s.usedIds)
    && (forall t, u :: t in s.tokens && u in s.tokens && t.sessionId == u.sessionId ==> t == u)
    && (forall t :: t in s.tokens && t.sessionId in s.rows ==> s.rows[t.sessionId].userId == t.userId)
    && (forall x, p :: IsChild(s.rows, x, p) && p in s.rows ==> s.rows[x].userId == s.rows[p].userId)
  }

  // ------------------------------------------------------------------ operations

  /**
   `createSession`.  The interface promises a session linked to its parent; the branch that
   `SessionRepository` takes for an explicit id does not write the parent (`links` is false).
   */
  function Create(s: State, links: bool, id: Id, userId: string, parent: Option<Id>, role: string, now: int): State {
    var row := Session(userId, if links then parent else None, None, now + SEVEN_DAYS_MS, s.created);
    State(s.rows[id := row], s.usedIds + {id}, s.tokens + {Token(id, userId, role)}, s.created + 1)
  }

  /** What `revokeSessionAndDescendants` is for. */
  ghost function Revoke(s: State, a: Id, now: int): State {
    s.(rows := map x | x in s.rows ::
      if Descends(s.rows, x, a) && s.rows[x].revokedAt.None? then s.rows[x].(revokedAt := Some(now)) else s.rows[x])
  }

  /** `DELETE`, and what the foreign key's `ON DELETE CASCADE` takes along. */
  ghost function Delete(s: State, a: Id): State {
    s.(rows := map x | x in s.rows && !Descends(s.rows, x, a) :: s.rows[x])
  }

  /** `refresh`: the token is absent if its signature or expiry did not verify. */
  ghost function Refresh(s: State, links: bool, token: Option<Token>, newId: Id, now: int): (State, Option<Token>) {
    if token.None? || token.value.sessionId !in s.rows then (s, None)
    else
      var t := token.value;
      if s.rows[t.sessionId].revokedAt.Some? || HasChild(s.rows, t.sessionId)
      then (Revoke(s, t.sessionId, now), None)
      else (Create(s, links, newId, t.userId, Some(t.sessionId), t.role, now), Some(Token(newId, t.userId, t.role)))
  }

  // ------------------------------------------------------------------ runs

  datatype Event =
    | Login(newId: Id, userId: string, role: string, now: int)
    | Present(token: Option<Token>, newId: Id, now: int)
    | Logout(id: Id)

  ghost function Step(s: State, links: bool, e: Event): (State, Option<Token>) {
    match e
    case Login(newId, userId, role, now) =>
      (Create(s, links, newId, userId, None, role, now), Some(Token(newId, userId, role)))
    case Present(token, newId, now) => Refresh(s, links, token, newId, now)
    case Logout(id) => (Delete(s, id), None)
  }

  /** New ids are fresh, and only tokens that were issued verify. */
  ghost predicate Legal(s: State, e: Event) {
    match e
    case Login(newId, _, _, _) => newId !in s.usedIds
    case Present(token, newId, _) => newId !in s.usedIds && (token.Some? ==> token.value in s.tokens)
    case Logout(_) => true
  }

  ghost function After(links: bool, events: seq<Event>): State {
    if events == [] then EMPTY
    else Step(After(links, events[..|events| - 1]), links, events[|events| - 1]).0
  }

  ghost predicate LegalRun(links: bool, events: seq<Event>) {
    forall i :: 0 <= i < |events| ==> Legal(After(links, events[..i]), events[i])
  }

  /** The i-th event is a presentation of the refresh token of `sessionId`, and new tokens are returned. */
  ghost predicate Accepted(links: bool, events: seq<Event>, i: nat, sessionId: Id)
    requires i < |events|
  {
    && events[i].Present? && events[i].token.Some? && events[i].token.value.sessionId == sessionId
    && Step(After(links, events[..i]), links, events[i]).1.Some?
  }

  // ------------------------------------------------------------------ lemmas on ancestry

  lemma {:induction false} UpExists(rows: Table, x: Id, k: nat)
    ensures Up(rows, x, k).Some? ==> x in rows && Up(rows, x, k).value in rows
    decreases k
  {
    if k > 0 && x in rows && rows[x].parent.Some? {
      UpExists(rows, rows[x].parent.value, k - 1);
    }
  }

  lemma ChildDescends(rows: Table, x: Id, p: Id, a: Id)
    requires IsChild(rows, x, p)
    ensures Descends(rows, p, a) ==> Descends(rows, x, a)
    ensures Descends(rows, x, a) && x != a ==> Descends(rows, p, a)
  {
    if Descends(rows, p, a) {
      var k: nat :| Up(rows, p, k) == Some(a);
      assert Up(rows, x, k + 1) == Some(a);
    }
    if Descends(rows, x, a) && x != a {
      var k: nat :| Up(rows, x, k) == Some(a);
      assert Up(rows, p, k - 1) == Some(a);
    }
  }

  lemma Reflexive(rows: Table, a: Id)
    requires a in rows
    ensures Descends(rows, a, a)
  {
    assert Up(rows, a, 0) == Some(a);
  }

  /** Going up k generations goes back at least k insertions, so no row is its own ancestor. */
  lemma {:induction false} UpIsOlder(s: State, x: Id, k: nat)
    requires Forest(s) && Up(s.rows, x, k).Some?
    ensures x in s.rows && Up(s.rows, x, k).value in s.rows
    ensures s.rows[Up(s.rows, x, k).value].serial + k <= s.rows[x].serial
    decreases k
  {
    if k > 0 {
      assert IsChild(s.rows, x, s.rows[x].parent.value);
      UpIsOlder(s, s.rows[x].parent.value, k - 1);
    }
  }

  lemma {:induction false} OneStep(rows: Table, y: Id, k: nat, p: Id)
    requires Up(rows, y, k + 1) == Some(p)
    ensures Up(rows, y, k).Some? && IsChild(rows, Up(rows, y, k).value, p)
    decreases k
  {
    if k > 0 {
      OneStep(rows, rows[y].parent.value, k - 1, p);
    }
  }

  /** Two rows under the same root lie on one chain. */
  lemma {:induction false} SameChain(s: State, x: Id, k: nat, y: Id, m: nat, r: Id)
    requires Forest(s) && k <= m
    requires Up(s.rows, x, k) == Some(r) && Up(s.rows, y, m) == Some(r)
    ensures Up(s.rows, y, m - k) == Some(x)
    decreases k
  {
    if k > 0 {
      var p := s.rows[x].parent.value;
      SameChain(s, p, k - 1, y, m, r);
      UpExists(s.rows, y, m);
      OneStep(s.rows, y, m - k, p);
      var z := Up(s.rows, y, m - k).value;
      assert IsChild(s.rows, z, p) && IsChild(s.rows, x, p);
    }
  }

  /** Ancestry depends only on which rows there are and on their parents. */
  ghost predicate SameParents(a: Table, b: Table) {
    a.Keys == b.Keys && forall x :: x in a ==> x in b && a[x].parent == b[x].parent
  }

  lemma {:induction false} UpSameParents(a: Table, b: Table, x: Id, k: nat)
    requires SameParents(a, b)
    ensures Up(a, x, k) == Up(b, x, k)
    decreases k
  {
    if k > 0 && x in a && a[x].parent.Some? {
      UpSameParents(a, b, a[x].parent.value, k - 1);
    }
  }

  /** A new row is nobody's ancestor yet. */
  lemma {:induction false} UpAfterCreate(s: State, id: Id, row: Session, x: Id, k: nat)
    requires Forest(s) && id !in s.usedIds && x != id
    ensures Up(s.rows[id := row], x, k) == Up(s.rows, x, k)
    decreases k
  {
    if k > 0 && x in s.rows && s.rows[x].parent.Some? {
      assert IsChild(s.rows, x, s.rows[x].parent.value);
      UpAfterCreate(s, id, row, s.rows[x].parent.value, k - 1);
    }
  }

  /** Rows that survive a deletion keep all their ancestors. */
  lemma {:induction false} UpAfterDelete(s: State, a: Id, x: Id, k: nat)
    requires Forest(s) && x in Delete(s, a).rows
    ensures Up(Delete(s, a).rows, x, k) == Up(s.rows, x, k)
    decreases k
  {
    if k > 0 && s.rows[x].parent.Some? {
      var p := s.rows[x].parent.value;
      assert IsChild(s.rows, x, p);
      ChildDescends(s.rows, x, p, a);
      UpAfterDelete(s, a, p, k - 1);
    }
  }
}
