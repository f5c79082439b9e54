/**
 * Session authentication with expiry and a persisted record store
 * (api/v1/auth/session_db_auth.py): each session is also saved as a
 * `UserSession` row, and lookups and logouts work on those rows. The
 * `UserSession` model's own code is not part of this model; its store is a
 * sequence of rows in insertion order, and a search that raises is the
 * `searchRaises` argument.
 */
module PersistedSessions {
  import opened Wrappers
  import opened Models
  import Sessions
  import PyStr
  import Uuid
  import opened ExpiringSessions

  /** A `UserSession` row; `createdAt` is the time the store gave the row when it was made. */
  datatype UserSession = UserSession(userId: string, sessionId: string, createdAt: int)

  /** The index of the first row with the session id, if any. */
  function FirstIndex(rows: seq<UserSession>, sessionId: Option<string>): (r: Option<nat>)
    ensures r.Some? ==>
      r.value < |rows| && sessionId == Some(rows[r.value].sessionId) &&
      forall j :: 0 <= j < r.value ==> sessionId != Some(rows[j].sessionId)
    ensures r.None? ==> forall j :: 0 <= j < |rows| ==> sessionId != Some(rows[j].sessionId)
  {
    if |rows| == 0 then None
    else if sessionId == Some(rows[0].sessionId) then Some(0)
    else
      var k := FirstIndex(rows[1..], sessionId);
      if k.None? then None else Some(k.value + 1)
  }

  /**
   * `UserSession.search({'session_id': session_id})`: the rows with that session
   * id, in store order; the first of them is the row FirstIndex finds.
   */
  function SearchBySessionId(rows: seq<UserSession>, sessionId: Option<string>): (r: seq<UserSession>)
    ensures forall u :: u in r <==> u in rows && sessionId == Some(u.sessionId)
    ensures |r| == 0 <==> FirstIndex(rows, sessionId).None?
    ensures |r| > 0 ==> r[0] == rows[FirstIndex(rows, sessionId).value]
  {
    if |rows| == 0 then []
    else
      var rest := SearchBySessionId(rows[1..], sessionId);
      assert forall u :: u in rows <==> u == rows[0] || u in rows[1..];
      if sessionId == Some(rows[0].sessionId) then [rows[0]] + rest else rest
  }

  /**
   * The decision of `user_id_for_session_id` on what the search returned
   * (`None` when it raised): the first row's user id while `now` is not past
   * its creation time plus the duration. Unlike the expiring store there is no
   * exception for a duration of zero or less.
   */
  function PersistedLookup(found: Option<seq<UserSession>>, duration: int, now: int): (r: Option<string>)
    ensures found.None? || found == Some([]) ==> r.None?
    ensures found.Some? && |found.value| > 0 ==>
      (r.Some? <==> now <= found.value[0].createdAt + duration) &&
      (r.Some? ==> r.value == found.value[0].userId)
  {
    if found.None? || |found.value| == 0 then None
    else
      var session := found.value[0];
      if now > session.createdAt + duration then None else Some(session.userId)
  }

  /** With a positive duration the persisted lookup applies the expiring store's rule to the first row. */
  lemma PersistedLookupAgreesWhenDurationPositive(first: UserSession, rest: seq<UserSession>, duration: int, now: int)
    requires duration > 0
    ensures PersistedLookup(Some([first] + rest), duration, now) ==
            ExpiringLookup(Some(SessionRecord(first.userId, Some(first.createdAt))), duration, now)
  {
  }

  /**
   * With a duration of zero or less the two stores part ways: a session the
   * expiring store keeps forever is expired for the persisted one as soon as
   * `now` passes its creation time plus the duration.
   */
  lemma NoDurationBypass(first: UserSession, rest: seq<UserSession>, duration: int, now: int)
    requires duration <= 0 && now > first.createdAt + duration
    ensures PersistedLookup(Some([first] + rest), duration, now) == None
    ensures ExpiringLookup(Some(SessionRecord(first.userId, Some(first.createdAt))), duration, now) == Some(first.userId)
  {
  }

  /** Saving a row with an id no other row has: a search for that id finds just that row. */
  lemma {:induction false} SearchAfterFreshSave(rows: seq<UserSession>, row: UserSession)
    requires forall k :: 0 <= k < |rows| ==> rows[k].sessionId != row.sessionId
    ensures SearchBySessionId(rows + [row], Some(row.sessionId)) == [row]
  {
    if |rows| == 0 {
      assert rows + [row] == [row];
    } else {
      assert (rows + [row])[1..] == rows[1..] + [row];
      SearchAfterFreshSave(rows[1..], row);
    }
  }

  /** No session id occurs in two rows. */
  ghost predicate DistinctSessionIds(rows: seq<UserSession>) {
    forall i, j :: 0 <= i < j < |rows| ==> rows[i].sessionId != rows[j].sessionId
  }

  /** Appending a row with a fresh id keeps the ids distinct; before the append no row had it. */
  lemma AppendFreshKeepsDistinct(rows: seq<UserSession>, row: UserSession)
    requires DistinctSessionIds(rows)
    requires forall k :: 0 <= k < |rows| ==> rows[k].sessionId != row.sessionId
    ensures DistinctSessionIds(rows + [row])
    ensures FirstIndex(rows, Some(row.sessionId)).None?
  {
  }

  /** Removing one row keeps the session ids distinct and leaves no row with the removed row's id. */
  lemma RemoveRowKeepsDistinct(rows: seq<UserSession>, i: nat)
    requires DistinctSessionIds(rows) && i < |rows|
    ensures DistinctSessionIds(rows[..i] + rows[i + 1..])
    ensures FirstIndex(rows[..i] + rows[i + 1..], Some(rows[i].sessionId)).None?
  {
  }

  /** The session store of one persisted authenticator. */
  class SessionDbAuth {
    var userIdBySessionId: map<string, SessionRecord>
    var sessionDuration: int
    var userSessions: seq<UserSession>

    /** The rows of the record store have distinct session ids. */
    ghost predicate Valid()
      reads this
    {
      DistinctSessionIds(userSessions)
    }

    /**
     * `__init__`, inherited: an empty map and the duration read once from the
     * setting. The record store is durable and not the authenticator's: a new
     * instance sees the rows `rows` already saved, unchanged.
     */
    constructor (setting: DurationSetting, rows: seq<UserSession>)
      requires DistinctSessionIds(rows)
      ensures Valid()
      ensures userIdBySessionId == map[] && userSessions == rows
      ensures sessionDuration == DurationOf(setting)
    {
      userIdBySessionId := map[];
      userSessions := rows;
      sessionDuration := DurationOf(setting);
    }

    /**
     * `create_session(user_id)` at time `now`: the inherited map entry, plus one
     * saved `UserSession` row with the user id and the fresh session id.
     */
    method CreateSession(userId: Option<string>, now: int) returns (sessionId: Option<string>)
      requires Valid()
      modifies this
      ensures Valid()
      ensures sessionDuration == old(sessionDuration)
      ensures userId.None? ==>
        sessionId.None? && userIdBySessionId == old(userIdBySessionId) && userSessions == old(userSessions)
      ensures userId.Some? ==>
        sessionId.Some? && sessionId.value !in old(userIdBySessionId) &&
        FirstIndex(old(userSessions), sessionId).None? &&
        userIdBySessionId == old(userIdBySessionId)[sessionId.value := SessionRecord(userId.value, Some(now))] &&
        userSessions == old(userSessions) + [UserSession(userId.value, sessionId.value, now)]
      ensures sessionId.Some? ==>
        SearchBySessionId(userSessions, sessionId) == [UserSession(userId.value, sessionId.value, now)]
      ensures sessionId.Some? ==> |sessionId.value| > 0
    {
      if userId.None? {
        return None;
      }
      var used := userIdBySessionId.Keys + set s | s in userSessions :: s.sessionId;
      var id := Uuid.Uuid4(used);
      userIdBySessionId := userIdBySessionId[id := SessionRecord(userId.value, Some(now))];
      ghost var before := userSessions;
      userSessions := userSessions + [UserSession(userId.value, id, now)];
      assert forall k :: 0 <= k < |before| ==> before[k] in before && before[k].sessionId != id;
      AppendFreshKeepsDistinct(before, UserSession(userId.value, id, now));
      SearchAfterFreshSave(before, UserSession(userId.value, id, now));
      return Some(id);
    }

    /**
     * `user_id_for_session_id(session_id)` at time `now`: only the first row with
     * the id is consulted. It reads the record store and never changes it.
     */
    function UserIdForSessionId(sessionId: Option<string>, now: int, searchRaises: bool): (r: Option<string>)
      reads this
      ensures searchRaises || FirstIndex(userSessions, sessionId).None? ==> r.None?
      ensures !searchRaises && FirstIndex(userSessions, sessionId).Some? ==>
        var session := userSessions[FirstIndex(userSessions, sessionId).value];
        (r.Some? <==> now <= session.createdAt + sessionDuration) &&
        (r.Some? ==> r.value == session.userId)
    {
      var found := if searchRaises then None else Some(SearchBySessionId(userSessions, sessionId));
      PersistedLookup(found, sessionDuration, now)
    }

    /** `current_user(request)` at time `now`, inherited: `User.get` of what the persisted lookup finds. */
    function CurrentUser(cookie: Option<string>, now: int, searchRaises: bool, userById: map<string, User>): (r: Option<User>)
      reads this
      ensures r.Some? <==>
        UserIdForSessionId(cookie, now, searchRaises).Some? && UserIdForSessionId(cookie, now, searchRaises).value in userById
      ensures r.Some? ==> r.value == userById[UserIdForSessionId(cookie, now, searchRaises).value]
    {
      UserGet(userById, UserIdForSessionId(cookie, now, searchRaises))
    }

    /**
     * `destroy_session(request)`: removes the first row with the cookie's session
     * id. Only the row's existence is checked, not its expiry nor its user; the
     * in-memory map is left as it is.
     */
    method DestroySession(cookie: Option<string>, searchRaises: bool) returns (ok: bool)
      requires Valid()
      modifies this
      ensures Valid()
      ensures sessionDuration == old(sessionDuration) && userIdBySessionId == old(userIdBySessionId)
      ensures ok == (PyStr.Truthy(cookie) && !searchRaises && FirstIndex(old(userSessions), cookie).Some?)
      ensures ok ==>
        var i := FirstIndex(old(userSessions), cookie).value;
        userSessions == old(userSessions)[..i] + old(userSessions)[i + 1..]
      ensures !ok ==> userSessions == old(userSessions)
      ensures ok ==> FirstIndex(userSessions, cookie).None?
    {
      var sessionId := cookie;
      if !PyStr.Truthy(sessionId) {
        return false;
      }
      if searchRaises {
        return false;
      }
      var sessions := SearchBySessionId(userSessions, sessionId);
      if |sessions| == 0 {
        return false;
      }
      // sessions[0].remove(): the row found first is the one at FirstIndex
      var i := FirstIndex(userSessions, sessionId).value;
      RemoveRowKeepsDistinct(userSessions, i);
      userSessions := userSessions[..i] + userSessions[i + 1..];
      return true;
    }
  }
}
