/** Sessions and users: resolving a session token to its user, looking a
    user up by name, and creating and destroying sessions. */
module SessionStore {
  import opened Wrappers
  import opened SeqUtil
  import opened Schema

  /** The `{username, user_id}` row `getSessionUser` returns. */
  datatype SessionUser = SessionUser(username: string, userId: int)

  datatype SessionCreateData = SessionCreateData(uuid: string, userId: int, userAgent: string, host: string)

  /** `sessions JOIN users ON sessions.user_id = users.id WHERE sessions.uuid = ?`,
      first row of the join. */
  function Resolve(sessions: seq<Session>, users: seq<User>, uuid: string): (r: Option<SessionUser>)
    ensures r.Some? <==> exists s, u :: s in sessions && u in users && s.uuid == uuid && u.id == s.userId
    ensures r.Some? ==> exists s, u :: s in sessions && u in users && s.uuid == uuid && u.id == s.userId
                                      && r.value == SessionUser(u.username, s.userId)
    decreases |sessions|
  {
    if |sessions| == 0 then None
    else
      assert forall s :: s in sessions <==> s == sessions[0] || s in sessions[1..];
      var first := sessions[0];
      if first.uuid == uuid then
        match FindFirst(users, (u: User) => u.id == first.userId)
        case Some(u) => Some(SessionUser(u.username, first.userId))
        case None => Resolve(sessions[1..], users, uuid)
      else Resolve(sessions[1..], users, uuid)
  }

  /** getSessionUser: the user a session token belongs to; absent when no
      session has that token or its user no longer exists. */
  function GetSessionUser(db: Db, uuid: string): (r: Option<SessionUser>)
    ensures r.Some? <==> exists s, u :: s in db.sessions && u in db.users && s.uuid == uuid && u.id == s.userId
    ensures r.Some? ==> exists s, u :: s in db.sessions && u in db.users && s.uuid == uuid && u.id == s.userId
                                      && r.value == SessionUser(u.username, s.userId)
  {
    Resolve(db.sessions, db.users, uuid)
  }

  /** getUser: `SELECT * FROM users WHERE username = ?`. */
  function GetUser(db: Db, username: string): (r: Option<User>)
    ensures r.Some? <==> exists u :: u in db.users && u.username == username
    ensures r.Some? ==> r.value in db.users && r.value.username == username
  {
    FindFirst(db.users, (u: User) => u.username == username)
  }

  /** With usernames unique, `GetUser` finds exactly the user of that name. */
  lemma GetUserFindsUser(db: Db, u: User)
    requires Valid(db)
    requires u in db.users
    ensures GetUser(db, u.username) == Some(u)
  {
    var r := GetUser(db, u.username);
    UniqueKeysMembers(db.users, UserName, r.value, u);
  }

  /** createSession: inserts a session stamped with the current time; a
      token already in use violates `UNIQUE(uuid)` and the statement fails
      without changing anything. */
  function CreateSession(db: Db, data: SessionCreateData, now: string): (r: Step<Result<RunResult, DbError>>)
    ensures r.out.Err? <==> exists s :: s in db.sessions && s.uuid == data.uuid
    ensures r.out.Err? ==> r.db == db
    ensures r.out.Ok? ==>
              && r.out.value == RunResult(1, Some(db.nextSessionId))
              && r.db == db.(sessions := r.db.sessions, nextSessionId := db.nextSessionId + 1)
              && r.db.sessions
                 == db.sessions + [Session(db.nextSessionId, data.uuid, data.userId, data.userAgent, data.host, now)]
    ensures Valid(db) ==> Valid(r.db)
  {
    if exists s :: s in db.sessions && s.uuid == data.uuid then
      Step(db, Err(UniqueViolation("sessions.uuid")))
    else
      var row := Session(db.nextSessionId, data.uuid, data.userId, data.userAgent, data.host, now);
      var sessions := db.sessions + [row];
      var db' := db.(sessions := sessions, nextSessionId := db.nextSessionId + 1);
      var step := Step(db', Ok(RunResult(1, Some(row.id))));
      assert Valid(db) ==> Valid(step.db) by {
        if Valid(db) {
          AppendUniqueKeys(db.sessions, row, SessionId);
          AppendUniqueKeys(db.sessions, row, SessionUuid);
          assert forall s :: s in sessions ==> s in db.sessions || s == row;
          assert SessionsValid(sessions, db.nextSessionId + 1);
        }
      }
      step
  }

  /** destroySession: `DELETE FROM sessions WHERE uuid = ?`. An unknown
      token deletes nothing and is not an error. */
  function DestroySession(db: Db, uuid: string): (r: Step<RunResult>)
    ensures r.db == db.(sessions := r.db.sessions)
    ensures forall s :: s in r.db.sessions <==> s in db.sessions && s.uuid != uuid
    ensures r.out.lastInsertRowid.None?
    ensures r.out.changes == |db.sessions| - |r.db.sessions|
    ensures r.out.changes == 0 <==> forall s :: s in db.sessions ==> s.uuid != uuid
    ensures Valid(db) ==> Valid(r.db) && r.out.changes <= 1
    ensures IsSubseq(r.db.sessions, db.sessions)
    ensures (forall s :: s in db.sessions ==> s.uuid != uuid) ==> r == Step(db, RunResult(0, None))
  {
    var keep := (s: Session) => s.uuid != uuid;
    var gone := (s: Session) => s.uuid == uuid;
    var kept := Filter(db.sessions, keep);
    FilterSplit(db.sessions, gone, keep);
    var step := Step(db.(sessions := kept), RunResult(|db.sessions| - |kept|, None));
    assert Valid(db) ==> Valid(step.db) && step.out.changes <= 1 by {
      if Valid(db) {
        FilterUniqueKeys(db.sessions, keep, SessionId);
        FilterUniqueKeys(db.sessions, keep, SessionUuid);
        FilterAtMostOne(db.sessions, gone);
      }
    }
    FilterSubseq(db.sessions, keep);
    assert (forall s :: s in db.sessions ==> s.uuid != uuid) ==> step == Step(db, RunResult(0, None)) by {
      if forall s :: s in db.sessions ==> s.uuid != uuid {
        FilterKeepsAll(db.sessions, keep);
      }
    }
    step
  }

  /** Logging in: after a session is created for an existing user, its
      token resolves to that user. */
  lemma CreateSessionThenResolve(db: Db, data: SessionCreateData, now: string, u: User)
    requires Valid(db)
    requires u in db.users && u.id == data.userId
    requires forall s :: s in db.sessions ==> s.uuid != data.uuid
    ensures GetSessionUser(CreateSession(db, data, now).db, data.uuid) == Some(SessionUser(u.username, data.userId))
  {
    var db' := CreateSession(db, data, now).db;
    var r := GetSessionUser(db', data.uuid);
    var row := Session(db.nextSessionId, data.uuid, data.userId, data.userAgent, data.host, now);
    assert db'.sessions == db.sessions + [row];
    assert row in db'.sessions;
    var s, u' :| s in db'.sessions && u' in db'.users && s.uuid == data.uuid && u'.id == s.userId
                 && r.value == SessionUser(u'.username, s.userId);
    assert s == row;
    UniqueKeysMembers(db.users, UserId, u, u');
  }

  /** Logging out: once a token's sessions are destroyed it resolves to no one. */
  lemma DestroySessionThenResolve(db: Db, uuid: string)
    ensures GetSessionUser(DestroySession(db, uuid).db, uuid).None?
  {
  }
}
