/**
 * Session authentication over an in-memory map (api/v1/auth/session_auth.py):
 * session ids are issued on login, mapped to the user id, looked up on each
 * request and removed on logout.
 */
module Sessions {
  import opened Wrappers
  import opened Models
  import opened PyStr
  import Uuid

  /**
   * The guard of `destroy_session`: there is a request, its cookie gives a
   * session id, and that id resolves to a user id, each of them truthy.
   */
  predicate MayDestroy(request: Option<Request>, sessionId: Option<string>, userId: Option<string>) {
    request.Some? && Truthy(sessionId) && Truthy(userId)
  }

  /**
   * The session store of one authenticator. `cookie` arguments stand for what
   * `session_cookie(request)` returned for the request.
   */
  class SessionAuth {
    var userIdBySessionId: map<string, string>

    constructor ()
      ensures userIdBySessionId == map[]
    {
      userIdBySessionId := map[];
    }

    /** `create_session(user_id)`: a fresh session id for a string user id, nothing otherwise. */
    method CreateSession(userId: Option<string>) returns (sessionId: Option<string>)
      modifies this
      ensures userId.None? ==> sessionId.None? && userIdBySessionId == old(userIdBySessionId)
      ensures userId.Some? ==>
        sessionId.Some? && sessionId.value !in old(userIdBySessionId) &&
        userIdBySessionId == old(userIdBySessionId)[sessionId.value := userId.value]
      ensures sessionId.Some? ==> UserIdForSessionId(sessionId) == userId
      ensures sessionId.Some? ==> |sessionId.value| > 0
    {
      if userId.Some? {
        var id := Uuid.Uuid4(userIdBySessionId.Keys);
        userIdBySessionId := userIdBySessionId[id := userId.value];
        return Some(id);
      }
      return None;
    }

    /** `user_id_for_session_id(session_id)`: the user id stored for a string session id, if any. */
    function UserIdForSessionId(sessionId: Option<string>): (r: Option<string>)
      reads this
      ensures r.Some? <==> sessionId.Some? && sessionId.value in userIdBySessionId
      ensures r.Some? ==> r.value == userIdBySessionId[sessionId.value]
    {
      if sessionId.Some? && sessionId.value in userIdBySessionId then Some(userIdBySessionId[sessionId.value])
      else None
    }

    /** `current_user(request)`: `User.get` of the user id the session cookie resolves to. */
    function CurrentUser(cookie: Option<string>, userById: map<string, User>): (r: Option<User>)
      reads this
      ensures r.Some? <==> UserIdForSessionId(cookie).Some? && UserIdForSessionId(cookie).value in userById
      ensures r.Some? ==> r.value == userById[userIdBySessionId[cookie.value]]
    {
      UserGet(userById, UserIdForSessionId(cookie))
    }

    /**
     * `destroy_session(request)`: removes the session named by the cookie when
     * the request, the id and the user id it resolves to are all truthy.
     */
    method DestroySession(request: Option<Request>, cookie: Option<string>) returns (ok: bool)
      modifies this
      ensures ok == MayDestroy(request, cookie, old(UserIdForSessionId(cookie)))
      ensures ok ==> userIdBySessionId == old(userIdBySessionId) - {cookie.value}
      ensures !ok ==> userIdBySessionId == old(userIdBySessionId)
      ensures ok ==> UserIdForSessionId(cookie).None?
    {
      var sessionId := cookie;
      var userId := UserIdForSessionId(sessionId);
      if !MayDestroy(request, sessionId, userId) {
        return false;
      }
      userIdBySessionId := userIdBySessionId - {sessionId.value};
      return true;
    }
  }
}
