/**
 * End-to-end sessions of use, each over freshly created objects: what a
 * sequence of calls returns follows from the contracts of the single calls.
 */
module Scenarios {
  import opened Wrappers
  import opened Models
  import Sessions
  import ExpiringSessions
  import PersistedSessions
  import UserDb
  import UserAuthService
  import Crypto

  /** Logging in then out removes the session; a second logout with the same cookie is refused. */
  method LogoutTwice(userId: string, request: Request) returns (first: bool, second: bool)
    requires userId != ""
    ensures first && !second
  {
    var auth := new Sessions.SessionAuth();
    var sessionId := auth.CreateSession(Some(userId));
    first := auth.DestroySession(Some(request), sessionId);
    second := auth.DestroySession(Some(request), sessionId);
  }

  /** A session created at `t` with a positive duration `d` is valid at `t + d` and gone at `t + d + 1`. */
  method SessionLifetime(userId: string, t: int, d: int) returns (atLimit: Option<string>, afterLimit: Option<string>)
    requires d > 0
    ensures atLimit == Some(userId) && afterLimit.None?
  {
    var auth := new ExpiringSessions.SessionExpAuth(ExpiringSessions.Parsed(d));
    var sessionId := auth.CreateSession(Some(userId), t);
    ExpiringSessions.ExpiryBoundary(userId, t, d);
    atLimit := auth.UserIdForSessionId(sessionId, t + d);
    afterLimit := auth.UserIdForSessionId(sessionId, t + d + 1);
  }

  /** An email registers once; registering it again fails, whatever the password. */
  method RegisterTwice(email: string, password: string, otherPassword: string)
    returns (first: Result<UserDb.UserRow, UserAuthService.ServiceError>,
             second: Result<UserDb.UserRow, UserAuthService.ServiceError>)
    ensures first == Ok(UserDb.UserRow(1, email, Crypto.Hash(password), None, None))
    ensures second == Err(UserAuthService.UserAlreadyExists(email))
  {
    var auth := new UserAuthService.Auth();
    first := auth.RegisterUser(email, password);
    second := auth.RegisterUser(email, otherPassword);
  }

  /**
   * Login, session lookup and logout: the session id finds the user until the
   * session is destroyed.
   */
  method LoginLookupLogout(email: string, password: string)
    returns (loggedIn: bool, during: Option<UserDb.UserRow>, after: Option<UserDb.UserRow>)
    ensures loggedIn
    ensures during.Some? && during.value.email == email
    ensures after.None?
  {
    var auth := new UserAuthService.Auth();
    var user := auth.RegisterUser(email, password);
    Crypto.CheckHash(password);
    loggedIn := auth.ValidLogin(email, password);
    var sessionId := auth.CreateSession(email);
    assert auth.db.users[0].sessionId == sessionId;
    during := auth.GetUserFromSessionId(sessionId);
    var _ := auth.DestroySession(Some(during.value.id));
    after := auth.GetUserFromSessionId(sessionId);
  }

  /**
   * A password reset: the token changes the password once, the new password
   * logs in, and the token is then spent.
   */
  method ResetPassword(email: string, oldPassword: string, newPassword: string)
    returns (reset: Outcome<UserAuthService.ServiceError>, replay: Outcome<UserAuthService.ServiceError>,
             newWorks: bool)
    ensures reset == Pass && replay == Fail(UserAuthService.InvalidResetToken)
    ensures newWorks
  {
    var auth := new UserAuthService.Auth();
    var user := auth.RegisterUser(email, oldPassword);
    var token := auth.GetResetPasswordToken(email);
    reset := auth.UpdatePassword(token.value, newPassword);
    replay := auth.UpdatePassword(token.value, newPassword);
    Crypto.CheckHash(newPassword);
    newWorks := auth.ValidLogin(email, newPassword);
  }

  /** Without a configured duration a session never expires, and logging out ends it. */
  method NoExpiryUntilLogout(request: Request, t: int)
    returns (late: Option<string>, loggedOut: bool, afterLogout: Option<string>)
    ensures late == Some("42") && loggedOut && afterLogout.None?
  {
    var auth := new ExpiringSessions.SessionExpAuth(ExpiringSessions.Unset);
    var sessionId := auth.CreateSession(Some("42"), t);
    late := auth.UserIdForSessionId(sessionId, t + 1000000000);
    loggedOut := auth.DestroySession(Some(request), sessionId, t + 1000000000);
    afterLogout := auth.UserIdForSessionId(sessionId, t + 1000000000);
  }

  /** With a duration of 5 seconds, a session created at 0 is valid at 3 and expired at 6. */
  method DurationFive() returns (at3: Option<string>, at6: Option<string>)
    ensures at3 == Some("7") && at6.None?
  {
    var auth := new ExpiringSessions.SessionExpAuth(ExpiringSessions.Parsed(5));
    var sessionId := auth.CreateSession(Some("7"), 0);
    at3 := auth.UserIdForSessionId(sessionId, 3);
    at6 := auth.UserIdForSessionId(sessionId, 6);
  }

  /**
   * A persisted session is found until its record is removed by logging out,
   * whatever rows earlier authenticators left in the record store.
   */
  method PersistedLogout(existing: seq<PersistedSessions.UserSession>, userId: string, t: int, d: int)
    returns (during: Option<string>, loggedOut: bool, after: Option<string>)
    requires PersistedSessions.DistinctSessionIds(existing)
    requires d >= 0
    ensures during == Some(userId) && loggedOut && after.None?
  {
    var auth := new PersistedSessions.SessionDbAuth(ExpiringSessions.Parsed(d), existing);
    var sessionId := auth.CreateSession(Some(userId), t);
    during := auth.UserIdForSessionId(sessionId, t, false);
    loggedOut := auth.DestroySession(sessionId, false);
    after := auth.UserIdForSessionId(sessionId, t, false);
  }
}
