/**
 * Session authentication with expiry (api/v1/auth/session_exp_auth.py): each
 * session remembers when it was created, and a lookup after the configured
 * duration has passed finds nothing. Time is an integer count of seconds.
 */
module ExpiringSessions {
  import opened Wrappers
  import opened Models
  import Sessions
  import Uuid

  /** What the map holds for a session: the `{'user_id', 'created_at'}` dict. */
  datatype SessionRecord = SessionRecord(userId: string, createdAt: Option<int>)

  /**
   * The `SESSION_DURATION` setting as `int()` saw it: absent (read as `'0'`),
   * parsed to a number, or rejected with ValueError.
   */
  datatype DurationSetting = Unset | Parsed(seconds: int) | Unparsable

  /** The duration `__init__` settles on: the parsed number, or 0 when absent or unparsable. */
  function DurationOf(setting: DurationSetting): (d: int)
    ensures setting.Parsed? ==> d == setting.seconds
    ensures setting.Unset? || setting.Unparsable? ==> d == 0
  {
    match setting
    case Parsed(n) => n
    case _ => 0
  }

  /**
   * The expiry policy as a plain rule: with a non-positive duration a session
   * never expires, otherwise it is valid up to and including `createdAt + duration`.
   */
  predicate ValidAt(createdAt: int, duration: int, now: int) {
    duration <= 0 || now <= createdAt + duration
  }

  /**
   * The decision of `user_id_for_session_id` on the entry found for the id (if
   * any). It agrees with the policy: an entry with a creation time yields its
   * user id exactly when the session is valid at `now`; one without yields it
   * only when expiry is disabled.
   */
  function ExpiringLookup(entry: Option<SessionRecord>, duration: int, now: int): (r: Option<string>)
    ensures entry.None? ==> r.None?
    ensures r.Some? ==> entry.Some? && r.value == entry.value.userId
    ensures entry.Some? && entry.value.createdAt.Some? ==>
      (r.Some? <==> ValidAt(entry.value.createdAt.value, duration, now))
    ensures entry.Some? && entry.value.createdAt.None? ==> (r.Some? <==> duration <= 0)
  {
    if entry.None? then None
    else if duration <= 0 then Some(entry.value.userId)
    else if entry.value.createdAt.None? then None
    else if now > entry.value.createdAt.value + duration then None
    else Some(entry.value.userId)
  }

  /** The boundary: with `D > 0` a session created at `c` is still valid at `c + D` and gone at `c + D + 1`. */
  lemma ExpiryBoundary(userId: string, c: int, duration: int)
    requires duration > 0
    ensures ExpiringLookup(Some(SessionRecord(userId, Some(c))), duration, c + duration) == Some(userId)
    ensures ExpiringLookup(Some(SessionRecord(userId, Some(c))), duration, c + duration + 1) == None
  {
  }

  /** Once expired, a session stays expired: validity only ever goes from true to false as time passes. */
  lemma ExpiryIsMonotone(entry: Option<SessionRecord>, duration: int, earlier: int, later: int)
    requires earlier <= later
    ensures ExpiringLookup(entry, duration, later).Some? ==> ExpiringLookup(entry, duration, earlier) == ExpiringLookup(entry, duration, later)
  {
  }

  /** The session store of one expiring authenticator. */
  class SessionExpAuth {
    var userIdBySessionId: map<string, SessionRecord>
    var sessionDuration: int

    /** `__init__`: an empty store and the duration read once from the setting. */
    constructor (setting: DurationSetting)
      ensures userIdBySessionId == map[]
      ensures sessionDuration == DurationOf(setting)
    {
      userIdBySessionId := map[];
      sessionDuration := DurationOf(setting);
    }

    /**
     * `create_session(user_id)` at time `now`: a fresh session id whose entry
     * records the user id and `now` (overwriting the plain user id stored by the
     * parent class's `create_session` under the same id).
     */
    method CreateSession(userId: Option<string>, now: int) returns (sessionId: Option<string>)
      modifies this
      ensures sessionDuration == old(sessionDuration)
      ensures userId.None? ==> sessionId.None? && userIdBySessionId == old(userIdBySessionId)
      ensures userId.Some? ==>
        sessionId.Some? && sessionId.value !in old(userIdBySessionId) &&
        userIdBySessionId == old(userIdBySessionId)[sessionId.value := SessionRecord(userId.value, Some(now))]
      ensures sessionId.Some? ==> |sessionId.value| > 0
    {
      if userId.None? {
        return None;
      }
      var id := Uuid.Uuid4(userIdBySessionId.Keys);
      userIdBySessionId := userIdBySessionId[id := SessionRecord(userId.value, Some(now))];
      return Some(id);
    }

    /** `user_id_for_session_id(session_id)` at time `now`. It reads the map and never changes it. */
    function UserIdForSessionId(sessionId: Option<string>, now: int): (r: Option<string>)
      reads this
      ensures sessionId.None? || sessionId.value !in userIdBySessionId ==> r.None?
      ensures sessionId.Some? && sessionId.value in userIdBySessionId ==>
        r == ExpiringLookup(Some(userIdBySessionId[sessionId.value]), sessionDuration, now)
    {
      var entry := if sessionId.Some? && sessionId.value in userIdBySessionId
                   then Some(userIdBySessionId[sessionId.value]) else None;
      ExpiringLookup(entry, sessionDuration, now)
    }

    /** `current_user(request)` at time `now`, inherited: `User.get` of what the expiring lookup finds. */
    function CurrentUser(cookie: Option<string>, now: int, userById: map<string, User>): (r: Option<User>)
      reads this
      ensures r.Some? <==> UserIdForSessionId(cookie, now).Some? && UserIdForSessionId(cookie, now).value in userById
      ensures r.Some? ==> r.value == userById[UserIdForSessionId(cookie, now).value]
    {
      UserGet(userById, UserIdForSessionId(cookie, now))
    }

    /**
     * `destroy_session(request)` at time `now`, inherited from the base class
     * but resolving the user id through the expiring lookup: an expired session
     * cannot be destroyed and stays in the map.
     */
    method DestroySession(request: Option<Request>, cookie: Option<string>, now: int) returns (ok: bool)
      modifies this
      ensures sessionDuration == old(sessionDuration)
      ensures ok == Sessions.MayDestroy(request, cookie, old(UserIdForSessionId(cookie, now)))
      ensures ok ==> userIdBySessionId == old(userIdBySessionId) - {cookie.value}
      ensures !ok ==> userIdBySessionId == old(userIdBySessionId)
    {
      var sessionId := cookie;
      var userId := UserIdForSessionId(sessionId, now);
      if !Sessions.MayDestroy(request, sessionId, userId) {
        return false;
      }
      userIdBySessionId := userIdBySessionId - {sessionId.value};
      return true;
    }
  }
}
