/**
 * HTTP Basic authentication (api/v1/auth/basic_auth.py), following section 2
 * of RFC 7617: the header is `"Basic " + base64(user-id ":" password)`.
 * An argument that is None or not a string is `None` here.
 */
module BasicAuth {
  import opened Wrappers
  import opened PyStr
  import opened Models
  import ApiAuth

  /** The case-sensitive scheme prefix of the header. */
  const BasicPrefix: string := "Basic "

  /** `extract_base64_authorization_header`: the text after `"Basic "`, if the header starts with it. */
  function ExtractBase64AuthorizationHeader(header: Option<string>): (r: Option<string>)
    ensures r.Some? <==> header.Some? && StartsWith(header.value, BasicPrefix)
    ensures r.Some? ==> header.value == BasicPrefix + r.value
  {
    if header.Some? && |header.value| > 0 && StartsWith(header.value, BasicPrefix) then
      assert header.value == header.value[..6] + header.value[6..];
      Some(header.value[6..])
    else None
  }

  /** Round trip: the extractor gives back whatever followed the prefix. */
  lemma ExtractBase64RoundTrip(s: string)
    ensures ExtractBase64AuthorizationHeader(Some(BasicPrefix + s)) == Some(s)
  {
  }

  /**
   * `decode_base64_authorization_header`. Base64 and UTF-8 decoding are the
   * abstract `b64decode`, which yields `None` where the source's decoding raises;
   * the source turns every such exception into `None`.
   */
  function DecodeBase64AuthorizationHeader(encoded: Option<string>, b64decode: string -> Option<string>): (r: Option<string>)
    ensures encoded.None? || encoded == Some("") ==> r.None?
    ensures encoded.Some? && encoded.value != "" ==> r == b64decode(encoded.value)
  {
    if encoded.Some? && |encoded.value| > 0 then b64decode(encoded.value) else None
  }

  /**
   * `extract_user_credentials`: split at the first colon. The user id cannot
   * contain a colon; the password may.
   */
  function ExtractUserCredentials(decoded: Option<string>): (r: (Option<string>, Option<string>))
    ensures r.0.Some? <==> decoded.Some? && ':' in decoded.value
    ensures r.1.Some? <==> r.0.Some?
    ensures r.0.Some? ==> decoded.value == r.0.value + ":" + r.1.value && ':' !in r.0.value
  {
    if decoded.None? || |decoded.value| == 0 || ':' !in decoded.value then (None, None)
    else
      var s := decoded.value;
      var i := Find(s, ':');
      assert s == s[..i] + ":" + s[i + 1..];
      (Some(s[..i]), Some(s[i + 1..]))
  }

  /** Round trip (RFC 7617 section 2): a colon-free user id and any password come back as they were joined. */
  lemma CredentialsRoundTrip(email: string, password: string)
    requires ':' !in email
    ensures ExtractUserCredentials(Some(email + ":" + password)) == (Some(email), Some(password))
  {
    var s := email + ":" + password;
    assert s[|email|] == ':';
    var r := ExtractUserCredentials(Some(s));
    assert r.0.value == email;
    assert s[|email| + 1..] == password;
  }

  /** `User.search({'email': email})`: the users of the store with that email, in store order. */
  function SearchByEmail(store: seq<User>, email: string): (r: seq<User>)
    ensures forall u :: u in r <==> u in store && u.email == email
    ensures |r| <= |store|
  {
    if |store| == 0 then []
    else
      var rest := SearchByEmail(store[1..], email);
      assert forall u :: u in store <==> u == store[0] || u in store[1..];
      if store[0].email == email then [store[0]] + rest else rest
  }

  /** `found[k]` is the first user in `found` whose password validates. */
  predicate FirstValidAt(found: seq<User>, pwd: string, k: int) {
    0 <= k < |found| && IsValidPassword(found[k], pwd) &&
    forall j :: 0 <= j < k ==> !IsValidPassword(found[j], pwd)
  }

  /**
   * `user_object_from_credentials`: the first user found by email whose password
   * validates. `store` is `None` when the search raises.
   */
  method UserObjectFromCredentials(email: Option<string>, pwd: Option<string>, store: Option<seq<User>>)
    returns (r: Option<User>)
    ensures !Truthy(email) || !Truthy(pwd) || store.None? ==> r.None?
    ensures r.Some? ==>
      var found := SearchByEmail(store.value, email.value);
      exists k :: FirstValidAt(found, pwd.value, k) && found[k] == r.value
    ensures r.None? && Truthy(email) && Truthy(pwd) && store.Some? ==>
      forall u :: u in SearchByEmail(store.value, email.value) ==> !IsValidPassword(u, pwd.value)
  {
    if !(Truthy(email) && Truthy(pwd)) {
      return None;
    }
    if store.None? {
      return None;
    }
    var users := SearchByEmail(store.value, email.value);
    var i := 0;
    while i < |users|
      invariant 0 <= i <= |users|
      invariant forall j :: 0 <= j < i ==> !IsValidPassword(users[j], pwd.value)
    {
      if IsValidPassword(users[i], pwd.value) {
        r := Some(users[i]);
        assert FirstValidAt(users, pwd.value, i);
        assert users == SearchByEmail(store.value, email.value);
        assert exists k :: FirstValidAt(users, pwd.value, k) && users[k] == r.value;
        return;
      }
      i := i + 1;
    }
    return None;
  }

  /** The user the found user stands for has the email asked for, is in the store and has a valid password. */
  lemma FoundUserIsGenuine(email: string, pwd: string, store: seq<User>, k: nat)
    requires k < |SearchByEmail(store, email)|
    ensures SearchByEmail(store, email)[k] in store && SearchByEmail(store, email)[k].email == email
  {
  }

  /**
   * `current_user` of BasicAuth: header, Base64 part, decoding, credentials and
   * user lookup in turn; any stage that gives None makes the result None.
   */
  method CurrentUser(request: Option<Request>, b64decode: string -> Option<string>, store: Option<seq<User>>)
    returns (r: Option<User>)
    ensures
      var encoded := ExtractBase64AuthorizationHeader(ApiAuth.AuthorizationHeader(request));
      var credentials := ExtractUserCredentials(DecodeBase64AuthorizationHeader(encoded, b64decode));
      (r.Some? ==>
        Truthy(credentials.0) && Truthy(credentials.1) && store.Some? &&
        r.value in store.value && r.value.email == credentials.0.value &&
        IsValidPassword(r.value, credentials.1.value) &&
        var found := SearchByEmail(store.value, credentials.0.value);
        exists k :: FirstValidAt(found, credentials.1.value, k) && found[k] == r.value) &&
      (r.None? && Truthy(credentials.0) && Truthy(credentials.1) && store.Some? ==>
        forall u :: u in store.value && u.email == credentials.0.value ==> !IsValidPassword(u, credentials.1.value))
  {
    var authHeader := ApiAuth.AuthorizationHeader(request);
    var encoded := ExtractBase64AuthorizationHeader(authHeader);
    var decoded := DecodeBase64AuthorizationHeader(encoded, b64decode);
    var (email, password) := ExtractUserCredentials(decoded);
    r := UserObjectFromCredentials(email, password, store);
    if r.Some? {
      var found := SearchByEmail(store.value, email.value);
      var k :| FirstValidAt(found, password.value, k) && found[k] == r.value;
      FoundUserIsGenuine(email.value, password.value, store.value, k);
    }
  }
}
