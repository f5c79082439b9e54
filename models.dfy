/**
 * Collaborators of the authentication code whose own code is not part of this
 * model: the incoming request and the `User` record of the API's model layer.
 * Only their shapes are kept.
 */
module Models {
  import Crypto
  import opened Wrappers

  /**
   * An incoming HTTP request: its headers and its cookies, by name. Header names
   * are taken as written (no case folding).
   */
  datatype Request = Request(headers: map<string, string>, cookies: map<string, string>)

  /** A user of the API: its id, its email and the stored hash of its password. */
  datatype User = User(id: string, email: string, password: string)

  /** `user.is_valid_password(pwd)`: the password checks against the stored hash. */
  predicate IsValidPassword(user: User, pwd: string) {
    Crypto.Check(pwd, user.password)
  }

  /** `User.get(user_id)` over the user store; `None` finds nothing. */
  function UserGet(userById: map<string, User>, userId: Option<string>): (r: Option<User>)
    ensures r.Some? <==> userId.Some? && userId.value in userById
    ensures r.Some? ==> r.value == userById[userId.value]
  {
    if userId.Some? && userId.value in userById then Some(userById[userId.value]) else None
  }
}
