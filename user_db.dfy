/**
 * The user table of the authentication service (0x03 db.py), as an in-memory
 * table of rows in insertion order. SQLAlchemy, the SQLite engine, sessions and
 * commits are not modelled; row ids are assigned like SQLite's rowids with no
 * deletions, 1, 2, 3, ...
 */
module UserDb {
  import opened Wrappers

  /** A row of the `users` table: the five columns of the `User` model. */
  datatype UserRow = UserRow(
    id: int,
    email: string,
    hashedPassword: string,
    sessionId: Option<string>,
    resetToken: Option<string>)

  /** The value of a keyword argument, as the callers pass it. */
  datatype FieldValue = IntValue(i: int) | StrValue(s: string) | NoneValue

  /** The exceptions the table raises. */
  datatype DbError =
    | InvalidRequestError  // find_user_by: a key that is not a `User` attribute
    | NoResultFound        // find_user_by: no row matches
    | InvalidAttribute     // update_user: ValueError for a key that is not a `User` attribute
    | UnsupportedUpdate    // update_user: a value the column cannot take in this model

  /** Keyword arguments `key=value`, in the order written. */
  type Kwargs = seq<(string, FieldValue)>

  /** `hasattr(User, key)`, restricted to the table's columns. */
  predicate IsUserAttribute(key: string) {
    key == "id" || key == "email" || key == "hashed_password" || key == "session_id" || key == "reset_token"
  }

  /** Every key of the arguments names a column. */
  predicate AllAttributes(kwargs: Kwargs) {
    forall k :: 0 <= k < |kwargs| ==> IsUserAttribute(kwargs[k].0)
  }

  /** A nullable text column's value. */
  function NullableText(v: Option<string>): FieldValue {
    if v.Some? then StrValue(v.value) else NoneValue
  }

  /** The value the row holds in column `key`. */
  function Column(row: UserRow, key: string): FieldValue
    requires IsUserAttribute(key)
  {
    if key == "id" then IntValue(row.id)
    else if key == "email" then StrValue(row.email)
    else if key == "hashed_password" then StrValue(row.hashedPassword)
    else if key == "session_id" then NullableText(row.sessionId)
    else NullableText(row.resetToken)
  }

  /** SQL equality: a NULL on either side compares unknown, so it never matches. */
  predicate SqlEquals(column: FieldValue, value: FieldValue) {
    column != NoneValue && value != NoneValue && column == value
  }

  /** The filter `tuple_(*fields).in_([tuple(values)])` holds of the row. */
  predicate Matches(row: UserRow, criteria: Kwargs)
    requires AllAttributes(criteria)
  {
    forall k :: 0 <= k < |criteria| ==> SqlEquals(Column(row, criteria[k].0), criteria[k].1)
  }

  /** The index of the first row the filter holds of (what `.first()` returns), if any. */
  function FirstMatch(rows: seq<UserRow>, criteria: Kwargs): (r: Option<nat>)
    requires AllAttributes(criteria)
    ensures r.Some? ==>
      r.value < |rows| && Matches(rows[r.value], criteria) &&
      forall j :: 0 <= j < r.value ==> !Matches(rows[j], criteria)
    ensures r.None? ==> forall j :: 0 <= j < |rows| ==> !Matches(rows[j], criteria)
  {
    if |rows| == 0 then None
    else if Matches(rows[0], criteria) then Some(0)
    else
      var k := FirstMatch(rows[1..], criteria);
      if k.None? then None else Some(k.value + 1)
  }

  /** The value `update_user` can give a column in this model. */
  predicate Assignable(key: string, value: FieldValue) {
    ((key == "email" || key == "hashed_password") && value.StrValue?) ||
    ((key == "session_id" || key == "reset_token") && !value.IntValue?)
  }

  predicate AllAssignable(kwargs: Kwargs) {
    forall k :: 0 <= k < |kwargs| ==> Assignable(kwargs[k].0, kwargs[k].1)
  }

  /** The row with column `key` set to `value`; the column then holds exactly `value`. */
  function Assign(row: UserRow, key: string, value: FieldValue): (r: UserRow)
    requires Assignable(key, value)
    ensures r.id == row.id && Column(r, key) == value
    ensures forall other :: IsUserAttribute(other) && other != key ==> Column(r, other) == Column(row, other)
  {
    if key == "email" then row.(email := value.s)
    else if key == "hashed_password" then row.(hashedPassword := value.s)
    else if key == "session_id" then row.(sessionId := if value.StrValue? then Some(value.s) else None)
    else row.(resetToken := if value.StrValue? then Some(value.s) else None)
  }

  /** The row after the `UPDATE ... SET` of every keyword argument, in order. */
  function ApplyUpdates(row: UserRow, kwargs: Kwargs): (r: UserRow)
    requires AllAssignable(kwargs)
    ensures r.id == row.id
    decreases |kwargs|
  {
    if |kwargs| == 0 then row
    else ApplyUpdates(Assign(row, kwargs[0].0, kwargs[0].1), kwargs[1..])
  }

  /** A column no keyword argument names keeps its value through the update. */
  lemma {:induction false} ApplyUpdatesKeepsUnnamed(row: UserRow, kwargs: Kwargs, key: string)
    requires AllAssignable(kwargs) && IsUserAttribute(key)
    requires forall k :: 0 <= k < |kwargs| ==> kwargs[k].0 != key
    ensures Column(ApplyUpdates(row, kwargs), key) == Column(row, key)
    decreases |kwargs|
  {
    if |kwargs| > 0 {
      ApplyUpdatesKeepsUnnamed(Assign(row, kwargs[0].0, kwargs[0].1), kwargs[1..], key);
    }
  }

  /** A named column ends up holding the value of the last argument that names it. */
  lemma {:induction false} ApplyUpdatesSetsLast(row: UserRow, kwargs: Kwargs, k: nat)
    requires AllAssignable(kwargs) && k < |kwargs|
    requires forall j :: k < j < |kwargs| ==> kwargs[j].0 != kwargs[k].0
    ensures Column(ApplyUpdates(row, kwargs), kwargs[k].0) == kwargs[k].1
    decreases k
  {
    var next := Assign(row, kwargs[0].0, kwargs[0].1);
    if k == 0 {
      ApplyUpdatesKeepsUnnamed(next, kwargs[1..], kwargs[0].0);
    } else {
      ApplyUpdatesSetsLast(next, kwargs[1..], k - 1);
    }
  }

  /** Row ids are the positions in the table plus one. */
  ghost predicate IdsArePositions(rows: seq<UserRow>) {
    forall i :: 0 <= i < |rows| ==> rows[i].id == i + 1
  }

  /** A one-argument filter compares one column, on every row of the table. */
  lemma MatchesSingle(rows: seq<UserRow>, criteria: Kwargs)
    requires |criteria| == 1 && IsUserAttribute(criteria[0].0)
    ensures forall j :: 0 <= j < |rows| ==>
      (Matches(rows[j], criteria) <==> SqlEquals(Column(rows[j], criteria[0].0), criteria[0].1))
  {
  }

  /**
   * The filter `id=n` finds the row at position `n - 1`, and nothing when no row has that id.
   * The filter is a parameter fixed by the requires, not a literal in the ensures, which keeps
   * the verifier from reporting the impossible branches as contradictory assumptions.
   */
  lemma FindById(rows: seq<UserRow>, criteria: Kwargs, n: int)
    requires IdsArePositions(rows)
    requires criteria == [("id", IntValue(n))]
    ensures FirstMatch(rows, criteria) == if 1 <= n <= |rows| then Some(n - 1) else None
  {
    MatchesSingle(rows, criteria);
    if 1 <= n <= |rows| {
      assert Matches(rows[n - 1], criteria);
    }
  }

  /** The user table. */
  class DB {
    var users: seq<UserRow>

    ghost predicate Valid()
      reads this
    {
      IdsArePositions(users)
    }

    /** `DB()`: a freshly created, empty table. */
    constructor ()
      ensures Valid() && users == []
    {
      users := [];
    }

    /** `add_user(email, hashed_password)`: appends a row with the next id and no session or reset token. */
    method AddUser(email: string, hashedPassword: string) returns (user: UserRow)
      requires Valid()
      modifies this
      ensures Valid()
      ensures user == UserRow(|old(users)| + 1, email, hashedPassword, None, None)
      ensures users == old(users) + [user]
    {
      user := UserRow(|users| + 1, email, hashedPassword, None, None);
      users := users + [user];
    }

    /**
     * `find_user_by(**kwargs)`: InvalidRequestError for a key that is not an
     * attribute; otherwise the first row every argument matches, or
     * NoResultFound. The table is only read.
     */
    method FindUserBy(kwargs: Kwargs) returns (r: Result<UserRow, DbError>)
      ensures !AllAttributes(kwargs) ==> r == Err(InvalidRequestError)
      ensures AllAttributes(kwargs) && FirstMatch(users, kwargs).None? ==> r == Err(NoResultFound)
      ensures AllAttributes(kwargs) && FirstMatch(users, kwargs).Some? ==>
        r == Ok(users[FirstMatch(users, kwargs).value])
    {
      var criteria: Kwargs := [];  // the source's `fields` and `values`, side by side
      var i := 0;
      while i < |kwargs|
        invariant 0 <= i <= |kwargs|
        invariant criteria == kwargs[..i]
        invariant AllAttributes(criteria)
      {
        var (key, value) := kwargs[i];
        if !IsUserAttribute(key) {
          return Err(InvalidRequestError);
        }
        criteria := criteria + [(key, value)];
        i := i + 1;
      }
      assert criteria == kwargs;
      var first := FirstMatch(users, criteria);
      if first.None? {
        return Err(NoResultFound);
      }
      return Ok(users[first.value]);
    }

    /**
     * `update_user(user_id, **kwargs)`: NoResultFound for an unknown id, then
     * ValueError for a key that is not an attribute, before anything changes;
     * otherwise the row with that id gets the new values and nothing else changes.
     */
    method UpdateUser(userId: int, kwargs: Kwargs) returns (r: Outcome<DbError>)
      requires Valid()
      modifies this
      ensures Valid()
      ensures !(1 <= userId <= |old(users)|) ==> r == Fail(NoResultFound) && users == old(users)
      ensures 1 <= userId <= |old(users)| && !AllAttributes(kwargs) ==>
        r == Fail(InvalidAttribute) && users == old(users)
      ensures 1 <= userId <= |old(users)| && AllAttributes(kwargs) && !AllAssignable(kwargs) ==>
        r == Fail(UnsupportedUpdate) && users == old(users)
      ensures 1 <= userId <= |old(users)| && AllAttributes(kwargs) && AllAssignable(kwargs) ==>
        r == Pass && users == old(users)[userId - 1 := ApplyUpdates(old(users)[userId - 1], kwargs)]
    {
      var byId := [("id", IntValue(userId))];
      FindById(users, byId, userId);
      var found := FindUserBy(byId);
      if found.Err? {
        return Fail(found.error);
      }
      var user := found.value;
      // `if not user: return` never fires: a row is truthy
      var updates: Kwargs := [];
      var i := 0;
      while i < |kwargs|
        invariant 0 <= i <= |kwargs|
        invariant updates == kwargs[..i]
        invariant AllAttributes(updates)
      {
        var (key, value) := kwargs[i];
        if !IsUserAttribute(key) {
          return Fail(InvalidAttribute);
        }
        updates := updates + [(key, value)];
        i := i + 1;
      }
      assert updates == kwargs;
      if !AllAssignable(updates) {
        return Fail(UnsupportedUpdate);
      }
      var index := user.id - 1;
      users := users[index := ApplyUpdates(users[index], updates)];
      return Pass;
    }
  }
}
