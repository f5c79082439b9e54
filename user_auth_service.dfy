/**
 * The authentication service of 0x03 (auth.py): registration, login checks,
 * login sessions and password resets, on top of the user table.
 */
module UserAuthService {
  import opened Wrappers
  import opened PyStr
  import opened UserDb
  import Crypto
  import Uuid

  /** The exceptions the service raises. */
  datatype ServiceError =
    | UserAlreadyExists(email: string)  // register_user: ValueError
    | UserNotFound                      // get_reset_password_token: ValueError
    | InvalidResetToken                 // update_password: ValueError
    | Database(error: DbError)          // an exception of the table, propagated

  function ByEmail(email: string): Kwargs { [("email", StrValue(email))] }
  function BySessionId(sessionId: string): Kwargs { [("session_id", StrValue(sessionId))] }
  function ByResetToken(token: string): Kwargs { [("reset_token", StrValue(token))] }

  /** The position of the row `find_user_by(email=...)` returns, if any. */
  function EmailIndex(rows: seq<UserRow>, email: string): (r: Option<nat>)
    ensures r.Some? <==> exists i :: 0 <= i < |rows| && rows[i].email == email
    ensures r.Some? ==> r.value < |rows| && rows[r.value].email == email
  {
    MatchesSingle(rows, ByEmail(email));
    FirstMatch(rows, ByEmail(email))
  }

  /** The position of the row `find_user_by(session_id=...)` returns, if any. */
  function SessionIndex(rows: seq<UserRow>, sessionId: string): (r: Option<nat>)
    ensures r.Some? <==> exists i :: 0 <= i < |rows| && rows[i].sessionId == Some(sessionId)
    ensures r.Some? ==> r.value < |rows| && rows[r.value].sessionId == Some(sessionId)
  {
    MatchesSingle(rows, BySessionId(sessionId));
    FirstMatch(rows, BySessionId(sessionId))
  }

  /** The position of the row `find_user_by(reset_token=...)` returns, if any. */
  function ResetTokenIndex(rows: seq<UserRow>, token: string): (r: Option<nat>)
    ensures r.Some? <==> exists i :: 0 <= i < |rows| && rows[i].resetToken == Some(token)
    ensures r.Some? ==> r.value < |rows| && rows[r.value].resetToken == Some(token)
  {
    MatchesSingle(rows, ByResetToken(token));
    FirstMatch(rows, ByResetToken(token))
  }

  /** Every session id and reset token some row holds. */
  function Tokens(rows: seq<UserRow>): set<string> {
    (set k | 0 <= k < |rows| && rows[k].sessionId.Some? :: rows[k].sessionId.value) +
    (set k | 0 <= k < |rows| && rows[k].resetToken.Some? :: rows[k].resetToken.value)
  }

  /** No two users share an email: register_user refuses a second registration. */
  ghost predicate UniqueEmails(rows: seq<UserRow>) {
    forall i, j :: 0 <= i < j < |rows| ==> rows[i].email != rows[j].email
  }

  /** No two users share a session id or a reset token: both come from uuid4. */
  ghost predicate UniqueTokens(rows: seq<UserRow>) {
    (forall i, j :: 0 <= i < j < |rows| && rows[i].sessionId.Some? ==> rows[i].sessionId != rows[j].sessionId) &&
    (forall i, j :: 0 <= i < j < |rows| && rows[i].resetToken.Some? ==> rows[i].resetToken != rows[j].resetToken)
  }

  /**
   * Replacing a row by one with the same id and email, whose session id and
   * reset token are each unchanged, cleared or fresh, keeps the table's invariants.
   */
  lemma ReplaceKeepsInvariants(rows: seq<UserRow>, i: nat, row: UserRow)
    requires i < |rows| && IdsArePositions(rows) && UniqueEmails(rows) && UniqueTokens(rows)
    requires row.id == rows[i].id && row.email == rows[i].email
    requires row.sessionId.None? || row.sessionId == rows[i].sessionId || row.sessionId.value !in Tokens(rows)
    requires row.resetToken.None? || row.resetToken == rows[i].resetToken || row.resetToken.value !in Tokens(rows)
    ensures IdsArePositions(rows[i := row]) && UniqueEmails(rows[i := row]) && UniqueTokens(rows[i := row])
  {
  }

  /** The update of `update_password` sets the hash and clears the reset token. */
  lemma PasswordResetUpdate(row: UserRow, hashed: string, updates: Kwargs)
    requires updates == [("hashed_password", StrValue(hashed)), ("reset_token", NoneValue)]
    ensures AllAssignable(updates)
    ensures ApplyUpdates(row, updates) == row.(hashedPassword := hashed, resetToken := None)
  {
    var first := Assign(row, "hashed_password", StrValue(hashed));
    assert updates[1..] == [("reset_token", NoneValue)];
    assert ApplyUpdates(row, updates) == ApplyUpdates(first, updates[1..]);
    assert updates[1..][1..] == [];
    assert ApplyUpdates(first, updates[1..]) == Assign(first, "reset_token", NoneValue);
  }

  /** The authentication service. */
  class Auth {
    const db: DB

    ghost predicate Valid()
      reads this, db
    {
      db.Valid() && UniqueEmails(db.users) && UniqueTokens(db.users)
    }

    /** `Auth()`: a service over a fresh, empty table. */
    constructor ()
      ensures Valid() && fresh(db) && db.users == []
    {
      db := new DB();
    }

    /**
     * `register_user(email, password)`: a new row with the hashed password, or
     * ValueError when the email is already registered.
     */
    method RegisterUser(email: string, password: string) returns (r: Result<UserRow, ServiceError>)
      requires Valid()
      modifies db
      ensures Valid()
      ensures EmailIndex(old(db.users), email).Some? ==>
        r == Err(UserAlreadyExists(email)) && db.users == old(db.users)
      ensures EmailIndex(old(db.users), email).None? ==>
        r == Ok(UserRow(|old(db.users)| + 1, email, Crypto.Hash(password), None, None)) &&
        db.users == old(db.users) + [r.value]
    {
      var found := db.FindUserBy(ByEmail(email));
      if found.Err? {
        // find_user_by raises only NoResultFound here
        var hashed := Crypto.Hash(password);
        var user := db.AddUser(email, hashed);
        return Ok(user);
      }
      return Err(UserAlreadyExists(email));
    }

    /** `valid_login(email, password)`: some user has that email and the password checks. */
    method ValidLogin(email: string, password: string) returns (ok: bool)
      requires Valid()
      ensures ok <==> exists i :: 0 <= i < |db.users| && db.users[i].email == email &&
                                  Crypto.Check(password, db.users[i].hashedPassword)
    {
      var found := db.FindUserBy(ByEmail(email));
      ghost var at := EmailIndex(db.users, email);
      // a row is always truthy, so `if user and ...` only checks the password
      if found.Ok? && Crypto.Check(password, found.value.hashedPassword) {
        assert db.users[at.value] == found.value;
        return true;
      }
      if at.Some? {
        // the registered email belongs to exactly one user
        assert forall i :: 0 <= i < |db.users| && db.users[i].email == email ==> i == at.value;
      }
      return false;
    }

    /**
     * `create_session(email)`: None for an unknown email; otherwise a fresh
     * session id, which is stored on that user's row and returned.
     */
    method CreateSession(email: string) returns (r: Option<string>)
      requires Valid()
      modifies db
      ensures Valid()
      ensures var found := EmailIndex(old(db.users), email);
        if found.None? then r.None? && db.users == old(db.users)
        else (r.Some? && |r.value| > 0 && r.value !in Tokens(old(db.users)) &&
          db.users == old(db.users)[found.value := old(db.users)[found.value].(sessionId := r)])
    {
      var found := db.FindUserBy(ByEmail(email));
      if found.Err? {
        return None;
      }
      var user := found.value;
      var sessionId := Uuid.Uuid4(Tokens(db.users));
      ghost var before := db.users;
      ghost var k := user.id - 1;
      var outcome := db.UpdateUser(user.id, [("session_id", StrValue(sessionId))]);
      ReplaceKeepsInvariants(before, k, before[k].(sessionId := Some(sessionId)));
      return Some(sessionId);
    }

    /** `get_user_from_session_id(session_id)`: the user holding that session id, or None. */
    method GetUserFromSessionId(sessionId: Option<string>) returns (r: Option<UserRow>)
      ensures !Truthy(sessionId) ==> r.None?
      ensures Truthy(sessionId) ==>
        (r.Some? <==> exists i :: 0 <= i < |db.users| && db.users[i].sessionId == sessionId)
      ensures r.Some? ==> r.value in db.users && r.value.sessionId == sessionId
    {
      if !Truthy(sessionId) {
        return None;
      }
      var found := db.FindUserBy(BySessionId(sessionId.value));
      ghost var at := SessionIndex(db.users, sessionId.value);
      if found.Err? {
        return None;
      }
      assert found.value == db.users[at.value];
      return Some(found.value);
    }

    /**
     * `destroy_session(user_id)`: nothing for a falsy id; otherwise the session
     * id of the user with that id is cleared, and an unknown id raises NoResultFound.
     */
    method DestroySession(userId: Option<int>) returns (r: Outcome<ServiceError>)
      requires Valid()
      modifies db
      ensures Valid()
      ensures userId.None? || userId == Some(0) ==> r == Pass && db.users == old(db.users)
      ensures userId.Some? && userId.value != 0 && !(1 <= userId.value <= |old(db.users)|) ==>
        r == Fail(Database(NoResultFound)) && db.users == old(db.users)
      ensures userId.Some? && 1 <= userId.value <= |old(db.users)| ==>
        r == Pass &&
        db.users == old(db.users)[userId.value - 1 := old(db.users)[userId.value - 1].(sessionId := None)]
    {
      if userId.None? || userId.value == 0 {
        return Pass;
      }
      ghost var before := db.users;
      var outcome := db.UpdateUser(userId.value, [("session_id", NoneValue)]);
      if outcome.Fail? {
        return Fail(Database(outcome.error));
      }
      ReplaceKeepsInvariants(before, userId.value - 1, before[userId.value - 1].(sessionId := None));
      return Pass;
    }

    /**
     * `get_reset_password_token(email)`: ValueError for an unknown email;
     * otherwise a fresh token, stored on that user's row and returned.
     */
    method GetResetPasswordToken(email: string) returns (r: Result<string, ServiceError>)
      requires Valid()
      modifies db
      ensures Valid()
      ensures var found := EmailIndex(old(db.users), email);
        if found.None? then r == Err(UserNotFound) && db.users == old(db.users)
        else (r.Ok? && |r.value| > 0 && r.value !in Tokens(old(db.users)) &&
          db.users == old(db.users)[found.value := old(db.users)[found.value].(resetToken := Some(r.value))])
    {
      var found := db.FindUserBy(ByEmail(email));
      if found.Err? {
        return Err(UserNotFound);
      }
      var user := found.value;
      var token := Uuid.Uuid4(Tokens(db.users));
      ghost var before := db.users;
      ghost var k := user.id - 1;
      var outcome := db.UpdateUser(user.id, [("reset_token", StrValue(token))]);
      ReplaceKeepsInvariants(before, k, before[k].(resetToken := Some(token)));
      return Ok(token);
    }

    /**
     * `update_password(reset_token, password)`: ValueError for a token no user
     * holds; otherwise that user's password hash is replaced and the token
     * cleared, so it cannot be used again.
     */
    method UpdatePassword(resetToken: string, password: string) returns (r: Outcome<ServiceError>)
      requires Valid()
      modifies db
      ensures Valid()
      ensures var found := ResetTokenIndex(old(db.users), resetToken);
        if found.None? then r == Fail(InvalidResetToken) && db.users == old(db.users)
        else r == Pass && db.users == old(db.users)[found.value :=
          old(db.users)[found.value].(hashedPassword := Crypto.Hash(password), resetToken := None)]
      ensures r == Pass ==> ResetTokenIndex(db.users, resetToken).None?
    {
      var found := db.FindUserBy(ByResetToken(resetToken));
      if found.Err? {
        return Fail(InvalidResetToken);
      }
      var user := found.value;
      var hashed := Crypto.Hash(password);
      ghost var before := db.users;
      ghost var k := user.id - 1;
      var updates := [("hashed_password", StrValue(hashed)), ("reset_token", NoneValue)];
      PasswordResetUpdate(before[k], hashed, updates);
      var outcome := db.UpdateUser(user.id, updates);
      ReplaceKeepsInvariants(before, k, before[k].(hashedPassword := hashed, resetToken := None));
      return Pass;
    }
  }
}
