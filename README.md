# Authentication core of alx-backend-user-data, modelled in Dafny

This project models the authentication logic of the repository's API and its
user authentication service, and proves properties of that model:

- **Path exclusion** (`Auth.require_auth`): which request paths need
  authentication. The rules are trailing-slash stripping, exact entries, and a
  `*` wildcard matched against the path's last segment. The source's `[-1]`
  index on an empty string becomes an explicit `IndexError` result.
- **HTTP Basic credentials** (`BasicAuth`, section 2 of RFC 7617):
  - strip the `"Basic "` prefix;
  - decode the rest with an abstract Base64/UTF-8 decoder;
  - split at the first colon;
  - pick the first user whose password validates.
- **Session stores**, in three layers:
  - `SessionAuth`: a map from session id to user id.
  - `SessionExpAuth`: the map values carry a creation time and expire after
    `session_duration` seconds. A duration `<= 0` disables expiry.
  - `SessionDBAuth`: sessions are also persisted as `UserSession` rows. The
    first row with the session id decides.
- **User authentication service** (0x03):
  - `DB` is a table of user rows with `add_user`, `find_user_by` and
    `update_user`;
  - `Auth` adds registration, login checks, login sessions and a single-use
    password-reset token.

Every class whose fields the source updates is a Dafny `class`. Each method
states its whole new state. The pure decisions are functions. Lemmas state
what they guarantee. The `Scenarios` module states, for whole sequences of
calls made in order on fresh objects, what each sequence returns, and proves it.

A Python argument that may be `None` or not a `str` is an `Option<string>`.
Python truthiness of such a value is `PyStr.Truthy`.

Time is an integer `now`, in seconds, passed to each call. The value
`session_cookie(request)` returns is the `cookie` input. When `User.search`
or `UserSession.search` raises, that is the input `store == None` or
`searchRaises == true`. The `SESSION_DURATION` setting is passed to the
constructor as its parse result (`DurationSetting`).

Two points about expiry, where the model follows the code:

- **Duration bypass.** The expiring store's lookup skips expiry for a duration
  `<= 0` (session_exp_auth.py:67-68). The persisted lookup has no such bypass
  (session_db_auth.py:53-57). `PersistedSessions.NoDurationBypass` shows the
  two stores disagreeing on the same record.
- **Negative durations.** `int()` accepts negative durations, and the model
  keeps them as they are.

## Model

| member | source | states |
|---|---|---|
| PyStr.RFind | 0x02-Session_authentication/0x01-Basic_authentication/api/v1/auth/auth.py:32 | `str.rfind` of one character: -1 exactly when absent, else an index holding it with no later occurrence |
| PyStr.Find | 0x01-Basic_authentication/api/v1/auth/basic_auth.py:73 | `str.find` of one character: -1 exactly when absent, else the first index holding it |
| PyStr.Contains | 0x02-Session_authentication/0x01-Basic_authentication/api/v1/auth/auth.py:38 | substring test `needle in hay`: true exactly when the needle occurs at some position |
| PyStr.EmptyIsSubstring | 0x02-Session_authentication/0x01-Basic_authentication/api/v1/auth/auth.py:38 | the empty string is in every string |
| Crypto.CheckHash | 0x03-user_authentication_service/auth.py:12-15 | a password checks against its own hash (the one bcrypt property used) |
| Uuid.Uuid4 | 0x02-Session_authentication/api/v1/auth/session_auth.py:29 | the new identifier is non-empty and not among the identifiers in use |
| Models.UserGet | 0x02-Session_authentication/api/v1/auth/session_auth.py:58-60 | `User.get(user_id)`: a user exactly when the id is present and known, and then the stored user |
| ApiAuth.StripSlash | 0x02-Session_authentication/0x01-Basic_authentication/api/v1/auth/auth.py:22-23 | exactly one trailing `/` is dropped when present; otherwise the text is unchanged |
| ApiAuth.LastSegment | 0x02-Session_authentication/0x01-Basic_authentication/api/v1/auth/auth.py:35-36 | the result is a slash-free suffix of the path, preceded by a `/` when shorter than the path |
| ApiAuth.WildcardStem | 0x02-Session_authentication/0x01-Basic_authentication/api/v1/auth/auth.py:32-33 | the slash-free text that ends the entry just before its final `*`, reaching back to the last `/` (preceded by a `/` unless it starts the entry) |
| ApiAuth.MatchWildcard | 0x02-Session_authentication/0x01-Basic_authentication/api/v1/auth/auth.py:31-38 | the test for one stripped entry is true exactly when it ends in `*` and its stem occurs in the path's last segment |
| ApiAuth.RequireAuth | 0x02-Session_authentication/0x01-Basic_authentication/api/v1/auth/auth.py:11-49 | the loop with its early returns computes `AuthRequired` (true, false, or IndexError) |
| ApiAuth.ScanWithoutEmptyEntries | 0x02-Session_authentication/0x01-Basic_authentication/api/v1/auth/auth.py:26-39 | with no empty entry the loop never raises, and it stops early exactly when some wildcard entry matches |
| ApiAuth.SomeWildcardExcludesCons | 0x02-Session_authentication/0x01-Basic_authentication/api/v1/auth/auth.py:26-39 | some entry of a list matches exactly when its first entry does or some later one does |
| ApiAuth.AuthRequiredCharacterization | 0x02-Session_authentication/0x01-Basic_authentication/api/v1/auth/auth.py:18-49 | for a non-empty path and entries, no authentication exactly when a wildcard entry matches or the stripped path plus `/` is listed |
| ApiAuth.NothingToMatchRequiresAuth | 0x02-Session_authentication/0x01-Basic_authentication/api/v1/auth/auth.py:18-19 | a None path, a None list or an empty list requires authentication |
| ApiAuth.EmptyPathRaises | 0x02-Session_authentication/0x01-Basic_authentication/api/v1/auth/auth.py:22 | an empty path against a non-empty list raises IndexError |
| ApiAuth.EmptyEntryRaises | 0x02-Session_authentication/0x01-Basic_authentication/api/v1/auth/auth.py:26-27 | an empty entry raises IndexError when no earlier entry matched |
| ApiAuth.ScanReachesEmptyEntry | 0x02-Session_authentication/0x01-Basic_authentication/api/v1/auth/auth.py:26-27 | the loop reaches an empty entry after non-matching, non-empty entries |
| ApiAuth.TrailingSlashIrrelevant | 0x02-Session_authentication/0x01-Basic_authentication/api/v1/auth/auth.py:22-47 | `p` and `p + "/"` get the same answer |
| ApiAuth.ExactEntryExcludes | 0x02-Session_authentication/0x01-Basic_authentication/api/v1/auth/auth.py:44-47 | an entry equal to the stripped path plus `/` lets the path through |
| ApiAuth.WildcardEntryExcludes | 0x02-Session_authentication/0x01-Basic_authentication/api/v1/auth/auth.py:31-39 | a wildcard entry whose stem occurs in the path's last segment lets the path through |
| ApiAuth.StarSegmentExcludesEverything | 0x02-Session_authentication/0x01-Basic_authentication/api/v1/auth/auth.py:32-39 | an entry whose last segment is just `*` lets every non-empty path through |
| ApiAuth.LastSegmentOfJoin | 0x02-Session_authentication/0x01-Basic_authentication/api/v1/auth/auth.py:35-36 | the last segment of `dir + "/" + segment` is `segment` |
| ApiAuth.WildcardStemOfJoin | 0x02-Session_authentication/0x01-Basic_authentication/api/v1/auth/auth.py:32-33 | the stem of `dir + "/" + stem + "*"` is `stem` |
| ApiAuth.WildcardIgnoresDirectories | 0x02-Session_authentication/0x01-Basic_authentication/api/v1/auth/auth.py:35-38 | the wildcard rule gives the same answer whatever directories precede the last segment |
| ApiAuth.ScanSkipsPlainEntry | 0x02-Session_authentication/0x01-Basic_authentication/api/v1/auth/auth.py:26-43 | an entry ending in neither `/` nor `*` does not change how the loop ends |
| ApiAuth.PlainEntryIrrelevant | 0x02-Session_authentication/0x01-Basic_authentication/api/v1/auth/auth.py:27-47 | adding an entry ending in neither `/` nor `*` changes no answer |
| ApiAuth.ExampleTrailingSlash | 0x02-Session_authentication/0x01-Basic_authentication/api/v1/auth/auth.py:22-47 | `/api/v1/status` and `/api/v1/status/` are both excluded by `/api/v1/status/` |
| ApiAuth.ExampleEntryWithoutSlash | 0x02-Session_authentication/0x01-Basic_authentication/api/v1/auth/auth.py:44-49 | the entry `/api/v1/status` (no slash) does not exclude `/api/v1/status` |
| ApiAuth.ExampleWildcardIgnoresDirectories | 0x02-Session_authentication/0x01-Basic_authentication/api/v1/auth/auth.py:31-39 | `/api/v1/stat*` excludes `/other/status` |
| ApiAuth.AuthorizationHeader | 0x02-Session_authentication/0x01-Basic_authentication/api/v1/auth/auth.py:51-60 | None without a request; otherwise the `Authorization` header exactly when present |
| ApiAuth.CurrentUser | 0x02-Session_authentication/0x01-Basic_authentication/api/v1/auth/auth.py:62-69 | the base class never finds a user |
| BasicAuth.ExtractBase64AuthorizationHeader | 0x01-Basic_authentication/api/v1/auth/basic_auth.py:17-34 | a result exactly when the header starts with `"Basic "`, and then the header is the prefix followed by the result |
| BasicAuth.ExtractBase64RoundTrip | 0x01-Basic_authentication/api/v1/auth/basic_auth.py:34 | `"Basic " + s` gives back `s` |
| BasicAuth.DecodeBase64AuthorizationHeader | 0x01-Basic_authentication/api/v1/auth/basic_auth.py:36-55 | None for a missing or empty input; otherwise exactly what the decoder gives, None on a decoding failure |
| BasicAuth.ExtractUserCredentials | 0x01-Basic_authentication/api/v1/auth/basic_auth.py:57-73 | both parts present exactly when the input has a colon; then input is user id, colon, password, and the user id is colon-free |
| BasicAuth.CredentialsRoundTrip | 0x01-Basic_authentication/api/v1/auth/basic_auth.py:73 | a colon-free email and any password come back from `email + ":" + password` |
| BasicAuth.SearchByEmail | 0x01-Basic_authentication/api/v1/auth/basic_auth.py:91 | the found users are exactly the store's users with that email |
| BasicAuth.UserObjectFromCredentials | 0x01-Basic_authentication/api/v1/auth/basic_auth.py:75-99 | None for falsy credentials or a failed search; otherwise the first found user whose password validates, or None when none does |
| BasicAuth.FoundUserIsGenuine | 0x01-Basic_authentication/api/v1/auth/basic_auth.py:91-97 | a found user is in the store and has the email searched for |
| BasicAuth.CurrentUser | 0x01-Basic_authentication/api/v1/auth/basic_auth.py:101-110 | a user only when every stage succeeds, and then the first user of the email search, in store order, whose password validates; None only when no such user exists or a stage failed |
| Sessions.SessionAuth.constructor | 0x02-Session_authentication/api/v1/auth/session_auth.py:16 | the store starts empty |
| Sessions.SessionAuth.CreateSession | 0x02-Session_authentication/api/v1/auth/session_auth.py:18-32 | no string id: None and no change; otherwise a fresh non-empty id mapped to the user, every other entry kept |
| Sessions.SessionAuth.UserIdForSessionId | 0x02-Session_authentication/api/v1/auth/session_auth.py:34-46 | the stored user id exactly when the id is a string present in the map |
| Sessions.SessionAuth.CurrentUser | 0x02-Session_authentication/api/v1/auth/session_auth.py:48-60 | the user that `User.get` finds for the id the cookie resolves to |
| Sessions.SessionAuth.DestroySession | 0x02-Session_authentication/api/v1/auth/session_auth.py:62-77 | true exactly when request, session id and resolved user id are all truthy; then exactly that id is removed, else nothing changes |
| ExpiringSessions.DurationOf | 0x02-Session_authentication/api/v1/auth/session_exp_auth.py:25-28 | the parsed duration, and 0 when the setting is absent or unparsable |
| ExpiringSessions.ExpiringLookup | 0x02-Session_authentication/api/v1/auth/session_exp_auth.py:62-80 | no entry: None; with a creation time: the user id exactly when `duration <= 0` or `now <= created_at + duration`; without one: only when `duration <= 0` |
| ExpiringSessions.ExpiryBoundary | 0x02-Session_authentication/api/v1/auth/session_exp_auth.py:75-80 | with `D > 0` the session is valid at `c + D` and expired at `c + D + 1` |
| ExpiringSessions.ExpiryIsMonotone | 0x02-Session_authentication/api/v1/auth/session_exp_auth.py:75-80 | a session valid at some time was valid, with the same user, at every earlier time |
| ExpiringSessions.SessionExpAuth.constructor | 0x02-Session_authentication/api/v1/auth/session_exp_auth.py:17-28 | an empty store and the duration of the setting |
| ExpiringSessions.SessionExpAuth.CreateSession | 0x02-Session_authentication/api/v1/auth/session_exp_auth.py:30-48 | no string id: None and no change; otherwise a fresh non-empty id mapped to the user and `now` |
| ExpiringSessions.SessionExpAuth.UserIdForSessionId | 0x02-Session_authentication/api/v1/auth/session_exp_auth.py:50-80 | None for a missing or unknown id; otherwise the expiring lookup of its entry |
| ExpiringSessions.SessionExpAuth.CurrentUser | 0x02-Session_authentication/api/v1/auth/session_auth.py:48-60 | the inherited `current_user` through the expiring lookup |
| ExpiringSessions.SessionExpAuth.DestroySession | 0x02-Session_authentication/api/v1/auth/session_auth.py:62-77 | the inherited guard through the expiring lookup: an expired session is not destroyed |
| PersistedSessions.FirstIndex | 0x02-Session_authentication/api/v1/auth/session_db_auth.py:45-52 | the first row holding the session id, or none when no row does |
| PersistedSessions.SearchBySessionId | 0x02-Session_authentication/api/v1/auth/session_db_auth.py:45 | the found rows are exactly those with the id, the first of them the first such row |
| PersistedSessions.PersistedLookup | 0x02-Session_authentication/api/v1/auth/session_db_auth.py:49-59 | None when the search fails or finds nothing; otherwise the first row's user exactly when `now <= created_at + duration` |
| PersistedSessions.PersistedLookupAgreesWhenDurationPositive | 0x02-Session_authentication/api/v1/auth/session_db_auth.py:53-59 | with a positive duration the persisted and the in-memory rules agree |
| PersistedSessions.NoDurationBypass | 0x02-Session_authentication/api/v1/auth/session_db_auth.py:53-57 | with a duration `<= 0` a record past `created_at + duration` is rejected here but accepted by the in-memory store |
| PersistedSessions.SearchAfterFreshSave | 0x02-Session_authentication/api/v1/auth/session_db_auth.py:27-31 | after saving a row with a fresh id, the search by that id finds exactly that row |
| PersistedSessions.AppendFreshKeepsDistinct | 0x02-Session_authentication/api/v1/auth/session_db_auth.py:29-30 | saving a row with a fresh id keeps the ids distinct |
| PersistedSessions.RemoveRowKeepsDistinct | 0x02-Session_authentication/api/v1/auth/session_db_auth.py:83 | removing a row keeps session ids distinct and leaves no row with the removed id |
| PersistedSessions.SessionDbAuth.constructor | 0x02-Session_authentication/api/v1/auth/session_exp_auth.py:17-28 | empty map, the record store's existing rows kept as they are, the duration of the setting |
| PersistedSessions.SessionDbAuth.CreateSession | 0x02-Session_authentication/api/v1/auth/session_db_auth.py:17-32 | no string id: None and nothing saved; otherwise the inherited entry plus exactly one new row with the fresh id |
| PersistedSessions.SessionDbAuth.UserIdForSessionId | 0x02-Session_authentication/api/v1/auth/session_db_auth.py:34-59 | None when the search raises or finds nothing; otherwise the persisted lookup of the first matching row |
| PersistedSessions.SessionDbAuth.CurrentUser | 0x02-Session_authentication/api/v1/auth/session_auth.py:48-60 | the inherited `current_user` through the persisted lookup |
| PersistedSessions.SessionDbAuth.DestroySession | 0x02-Session_authentication/api/v1/auth/session_db_auth.py:61-84 | true exactly when the cookie is truthy, the search works and a row matches; then only the first matching row is removed, with no expiry or user check |
| UserDb.FirstMatch | 0x03-user_authentication_service/db.py:52-54 | the first row every argument matches (NULL matching nothing), or none when no row matches |
| UserDb.Assign | 0x03-user_authentication_service/db.py:69-76 | the named column then holds the value; id and every other column unchanged |
| UserDb.ApplyUpdates | 0x03-user_authentication_service/db.py:66-76 | an update never changes the row id |
| UserDb.ApplyUpdatesKeepsUnnamed | 0x03-user_authentication_service/db.py:73-76 | a column no argument names keeps its value |
| UserDb.ApplyUpdatesSetsLast | 0x03-user_authentication_service/db.py:66-76 | a named column holds the value of the last argument naming it |
| UserDb.MatchesSingle | 0x03-user_authentication_service/db.py:52-54 | on every row, a one-argument filter is the comparison of that one column |
| UserDb.FindById | 0x03-user_authentication_service/db.py:62 | the filter `id=n` finds row `n - 1`, or nothing when no row has that id |
| UserDb.DB.constructor | 0x03-user_authentication_service/db.py:16-21 | the table starts empty |
| UserDb.DB.AddUser | 0x03-user_authentication_service/db.py:31-40 | appends one row with the next id, the email and hash, and no session id or reset token |
| UserDb.DB.FindUserBy | 0x03-user_authentication_service/db.py:42-58 | InvalidRequestError for a non-attribute key, else the first matching row or NoResultFound; the table is unchanged |
| UserDb.DB.UpdateUser | 0x03-user_authentication_service/db.py:60-77 | NoResultFound for an unknown id, else ValueError for a non-attribute key, both with no change; else only that row gets the new values |
| UserAuthService.EmailIndex | 0x03-user_authentication_service/auth.py:34 | `find_user_by(email=...)` finds a row exactly when some user has the email, and that row has it |
| UserAuthService.SessionIndex | 0x03-user_authentication_service/auth.py:71 | `find_user_by(session_id=...)` finds a row exactly when some user holds the session id |
| UserAuthService.ResetTokenIndex | 0x03-user_authentication_service/auth.py:93 | `find_user_by(reset_token=...)` finds a row exactly when some user holds the token |
| UserAuthService.ReplaceKeepsInvariants | 0x03-user_authentication_service/auth.py:60-98 | updating one user's session id or reset token (kept, cleared or fresh) keeps ids, emails and tokens unique |
| UserAuthService.PasswordResetUpdate | 0x03-user_authentication_service/auth.py:98 | the update of `update_password` sets the new hash and clears the reset token, and nothing else |
| UserAuthService.Auth.constructor | 0x03-user_authentication_service/auth.py:26-28 | a service over a fresh, empty table |
| UserAuthService.Auth.RegisterUser | 0x03-user_authentication_service/auth.py:30-40 | a known email: UserAlreadyExists and no change; otherwise exactly one new row with the email and `Hash(password)` |
| UserAuthService.Auth.ValidLogin | 0x03-user_authentication_service/auth.py:42-50 | true exactly when a user has the email and the password checks against its hash |
| UserAuthService.Auth.CreateSession | 0x03-user_authentication_service/auth.py:52-63 | an unknown email: None and no change; otherwise a fresh non-empty id stored as that user's session id, nothing else changed |
| UserAuthService.Auth.GetUserFromSessionId | 0x03-user_authentication_service/auth.py:65-72 | None for a falsy id; otherwise a user exactly when one holds the id, and then that user; the table is unchanged |
| UserAuthService.Auth.DestroySession | 0x03-user_authentication_service/auth.py:74-77 | a falsy id changes nothing; an unknown id raises NoResultFound; otherwise only that user's session id is cleared |
| UserAuthService.Auth.GetResetPasswordToken | 0x03-user_authentication_service/auth.py:79-88 | an unknown email: UserNotFound and no change; otherwise a fresh token stored on that user's row only |
| UserAuthService.Auth.UpdatePassword | 0x03-user_authentication_service/auth.py:90-98 | an unknown token: InvalidResetToken and no change; otherwise that user's hash is replaced and the token cleared, so no user holds it any more |
| Scenarios.LogoutTwice | 0x02-Session_authentication/api/v1/auth/session_auth.py:18-77 | after login, the first logout succeeds and a second one with the same cookie fails |
| Scenarios.SessionLifetime | 0x02-Session_authentication/api/v1/auth/session_exp_auth.py:75-80 | a session created at `t` with duration `d > 0` is valid at `t + d` and expired at `t + d + 1` |
| Scenarios.NoExpiryUntilLogout | 0x02-Session_authentication/api/v1/auth/session_exp_auth.py:67-68 | without a duration, user `"42"` is still found 10^9 seconds later, and not after logout |
| Scenarios.DurationFive | 0x02-Session_authentication/api/v1/auth/session_exp_auth.py:75-80 | duration 5, created at 0 for `"7"`: found at 3, expired at 6 |
| Scenarios.PersistedLogout | 0x02-Session_authentication/api/v1/auth/session_db_auth.py:17-84 | over any record store with distinct ids, a new persisted session is found until logout removes its row |
| Scenarios.RegisterTwice | 0x03-user_authentication_service/main.py:86-91 | the first registration creates user 1; a second one with the same email fails |
| Scenarios.LoginLookupLogout | 0x03-user_authentication_service/auth.py:42-77 | a registered user logs in, the session id finds the user, and after logout it finds nobody |
| Scenarios.ResetPassword | 0x03-user_authentication_service/auth.py:79-98 | a reset token changes the password once, replaying it fails, and the new password logs in |

## Left out

- The Flask application, routes, form parsing, cookies and HTTP status codes are not modelled. `session_cookie(request)` is an input, because its class is not part of this model.
- Base64 and UTF-8 decoding are an abstract partial function (`b64decode`). Only the guard and the None-on-failure behaviour are modelled.
- bcrypt is a transparent stand-in (`Crypto.Hash`, `Crypto.Check`). The model relies only on `CheckHash`. Salting, randomness and bcrypt's 72-byte truncation are not modelled.
- `uuid4` is a fresh-identifier oracle. Randomness and unguessability are not modelled.
- `datetime.now()` is the integer `now` in whole seconds; sub-second times are not modelled. `os.getenv` and `int()` are replaced by the `DurationSetting` parse result.
- ExpiringSessions.ExpiringLookup: the bounded range of `datetime` is not modelled. In the source, a duration that puts `created_at + duration` outside years 1 to 9999, or a `timedelta` beyond 999999999 days, raises OverflowError, and `current_user` raises with it. The model's integer time has no such limit. The expiring store reaches the sum only for a positive duration, so `ExpiryBoundary` and `Scenarios.SessionLifetime` hold of the source only for durations that stay inside that range.
- PersistedSessions.PersistedLookup: the same OverflowError is not modelled. The persisted store has no `<= 0` bypass, so it computes the sum for every duration, including a very negative one that goes below year 1.
- `User.search`, `User.get`, `User.is_valid_password`, `UserSession.save`, `UserSession.search` and `UserSession.remove` are not part of this model. They are modelled as a user sequence or map and as a sequence of `UserSession` rows. `is_valid_password` is `Models.IsValidPassword`, which checks the password against the stored hash with the bcrypt stand-in `Crypto.Check`.
- The SQLAlchemy engine, session, commit and rollback are not modelled. The rollback path of `add_user`, which returns None, is left out because in this model an insert never fails.
- The session map is a field of one object. The source's class-level dict, shared by every instance, is not modelled, and neither is concurrency.
- `hasattr(User, key)` is modelled as membership in the five column names. Other class attributes of the ORM model (such as `metadata`) are not modelled.
- Header names are compared as written. Flask's case-insensitive header lookup is not modelled.
- UserDb.DB.UpdateUser: the model returns `UnsupportedUpdate` where the database itself would fail or behave in a way the model does not represent. Those cases are a change of `id`, None for a NOT NULL column, and a value of the wrong kind. The service never makes such an update.
- UserDb.DB.FindUserBy: with no keyword arguments at all, the filter is taken to hold of every row, so the first row is returned. What SQLAlchemy does with an empty `tuple_()` is not modelled.
- Scenarios.ResetPassword: does not claim that the old password stops working. That depends on bcrypt, which truncates passwords at 72 bytes.
