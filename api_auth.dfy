/**
 * The base `Auth` class of the API (api/v1/auth/auth.py): which request paths
 * need authentication, where the `Authorization` header comes from, and the
 * base `current_user`, which never finds anyone.
 */
module ApiAuth {
  import opened Wrappers
  import opened PyStr
  import Models

  /** The one exception `require_auth` can raise: `s[-1]` on an empty string. */
  datatype AuthError = IndexError

  /** `p[:-1]` when `p` ends in `/`, otherwise `p`: at most one trailing slash goes. */
  function StripSlash(p: string): (r: string)
    ensures EndsWith(p, '/') ==> p == r + "/"
    ensures !EndsWith(p, '/') ==> r == p
  {
    if EndsWith(p, '/') then p[..|p| - 1] else p
  }

  /** `p[p.rfind('/') + 1:]`: the text after the last `/` of `p` (all of `p` when it has none). */
  function LastSegment(p: string): (r: string)
    ensures '/' !in r
    ensures |r| <= |p| && p[|p| - |r|..] == r
    ensures |r| < |p| ==> p[|p| - |r| - 1] == '/'
  {
    var i := RFind(p, '/') + 1;
    p[i..]
  }

  /** For an entry ending in `*`, the text between its last `/` and that `*`. */
  function WildcardStem(e: string): (r: string)
    requires EndsWith(e, '*')
    ensures '/' !in r
    ensures |r| < |e| && e[|e| - 1 - |r|..] == r + "*"
    ensures |r| + 1 < |e| ==> e[|e| - 2 - |r|] == '/'
  {
    var i := RFind(e, '/') + 1;
    assert e[i..] == e[i..|e| - 1] + "*";
    e[i..|e| - 1]
  }

  /**
   * The wildcard rule of `require_auth`: once one trailing `/` is dropped, the
   * entry ends in `*`, and its stem occurs in the last segment of the (already
   * stripped) path. The directory parts of both are ignored.
   */
  predicate WildcardExcludes(entry: string, path: string) {
    |entry| > 0 &&
    (var e := StripSlash(entry);
     EndsWith(e, '*') && Contains(LastSegment(path), WildcardStem(e)))
  }

  /** How the loop over the excluded entries ends. */
  datatype Scan =
    | WildcardHit   // an entry excluded the path through the wildcard rule: `return False`
    | Exhausted     // every entry was looked at without a wildcard match
    | EmptyEntry    // an empty entry was reached first: `excluded_path[-1]` raises

  /** The loop of `require_auth` over `entries`, for the stripped path `path`. */
  function ScanEntries(path: string, entries: seq<string>): Scan
    decreases |entries|
  {
    if |entries| == 0 then Exhausted
    else if |entries[0]| == 0 then EmptyEntry
    else if WildcardExcludes(entries[0], path) then WildcardHit
    else ScanEntries(path, entries[1..])
  }

  /**
   * The value of `require_auth(path, excluded_paths)`: Ok(true) when the path
   * needs authentication, Ok(false) when it is excluded, Err when it raises.
   */
  function AuthRequired(path: Option<string>, excludedPaths: Option<seq<string>>): Result<bool, AuthError> {
    if path.None? || excludedPaths.None? || |excludedPaths.value| == 0 then Ok(true)
    else if |path.value| == 0 then Err(IndexError)
    else
      var p := StripSlash(path.value);
      match ScanEntries(p, excludedPaths.value)
      case EmptyEntry => Err(IndexError)
      case WildcardHit => Ok(false)
      case Exhausted => Ok(p + "/" !in excludedPaths.value)
  }

  /**
   * The wildcard test of `require_auth` for one entry whose trailing slash is
   * already dropped: the entry ends in `*` and the text between its last `/`
   * and the `*` occurs in the path's last segment.
   */
  method MatchWildcard(excludedPath: string, path: string) returns (hit: bool)
    ensures hit <==> EndsWith(excludedPath, '*') && Contains(LastSegment(path), WildcardStem(excludedPath))
  {
    if !EndsWith(excludedPath, '*') {
      return false;
    }
    var idxAfterLastSlash := RFind(excludedPath, '/') + 1;
    var excluded := excludedPath[idxAfterLastSlash..|excludedPath| - 1];
    idxAfterLastSlash := RFind(path, '/') + 1;
    var tmpPath := path[idxAfterLastSlash..];
    return Contains(tmpPath, excluded);
  }

  /** `require_auth`: the loop of the source, with its early returns. */
  method RequireAuth(path: Option<string>, excludedPaths: Option<seq<string>>) returns (r: Result<bool, AuthError>)
    ensures r == AuthRequired(path, excludedPaths)
  {
    if path.None? || excludedPaths.None? || |excludedPaths.value| == 0 {
      return Ok(true);
    }
    var p := path.value;
    var excluded := excludedPaths.value;
    if |p| == 0 {
      return Err(IndexError);
    }
    if p[|p| - 1] == '/' {
      p := p[..|p| - 1];
    }
    var hasSlash := false;  // set and cleared by the source, never consulted
    var i := 0;
    while i < |excluded|
      invariant 0 <= i <= |excluded|
      invariant p == StripSlash(path.value)
      invariant ScanEntries(p, excluded[i..]) == ScanEntries(p, excluded)
    {
      var excludedPath := excluded[i];
      assert excluded[i..][1..] == excluded[i + 1..];
      if |excludedPath| == 0 {
        return Err(IndexError);
      }
      if excludedPath[|excludedPath| - 1] == '/' {
        excludedPath := excludedPath[..|excludedPath| - 1];
        hasSlash := true;
      }
      assert excludedPath == StripSlash(excluded[i]);
      var hit := MatchWildcard(excludedPath, p);
      if hit {
        return Ok(false);
      }
      if hasSlash {
        hasSlash := false;
      }
      i := i + 1;
    }
    p := p + "/";
    if p in excluded {
      return Ok(false);
    }
    return Ok(true);
  }

  /** No entry is the empty string. */
  predicate NoEmptyEntry(entries: seq<string>) {
    forall k :: 0 <= k < |entries| ==> |entries[k]| > 0
  }

  /** The path (already stripped) is excluded by one of the entries through the wildcard rule. */
  ghost predicate SomeWildcardExcludes(path: string, entries: seq<string>) {
    exists k :: 0 <= k < |entries| && WildcardExcludes(entries[k], path)
  }

  /** Some entry of a non-empty list matches exactly when its head does or some entry of its tail does. */
  lemma SomeWildcardExcludesCons(path: string, entries: seq<string>)
    requires |entries| > 0
    ensures SomeWildcardExcludes(path, entries) <==>
      WildcardExcludes(entries[0], path) || SomeWildcardExcludes(path, entries[1..])
  {
  }

  /** Without empty entries the loop never raises, and it stops early exactly when some wildcard entry matches. */
  lemma {:induction false} ScanWithoutEmptyEntries(path: string, entries: seq<string>)
    requires NoEmptyEntry(entries)
    ensures ScanEntries(path, entries) != EmptyEntry
    ensures ScanEntries(path, entries) == WildcardHit <==> SomeWildcardExcludes(path, entries)
  {
    if |entries| > 0 {
      SomeWildcardExcludesCons(path, entries);
      if !WildcardExcludes(entries[0], path) {
        ScanWithoutEmptyEntries(path, entries[1..]);
      }
    }
  }

  /**
   * For a non-empty path and entries none of which is empty, the path is let
   * through without authentication exactly when a wildcard entry matches its
   * last segment, or the stripped path plus `/` is one of the entries as written.
   */
  lemma AuthRequiredCharacterization(path: string, excluded: seq<string>)
    requires |path| > 0 && |excluded| > 0 && NoEmptyEntry(excluded)
    ensures AuthRequired(Some(path), Some(excluded)) ==
            Ok(!(SomeWildcardExcludes(StripSlash(path), excluded) || StripSlash(path) + "/" in excluded))
  {
    ScanWithoutEmptyEntries(StripSlash(path), excluded);
  }

  /** A missing path, a missing list of excluded paths or an empty one: authentication is required. */
  lemma NothingToMatchRequiresAuth(path: Option<string>, excludedPaths: Option<seq<string>>)
    requires path.None? || excludedPaths.None? || excludedPaths == Some([])
    ensures AuthRequired(path, excludedPaths) == Ok(true)
  {
  }

  /** An empty path against a non-empty list raises: `path[-1]`. */
  lemma EmptyPathRaises(excluded: seq<string>)
    requires |excluded| > 0
    ensures AuthRequired(Some(""), Some(excluded)) == Err(IndexError)
  {
  }

  /** An empty entry raises once the loop reaches it, that is when no earlier entry matched. */
  lemma {:induction false} EmptyEntryRaises(path: string, before: seq<string>, after: seq<string>)
    requires |path| > 0 && NoEmptyEntry(before) && !SomeWildcardExcludes(StripSlash(path), before)
    ensures AuthRequired(Some(path), Some(before + [""] + after)) == Err(IndexError)
  {
    ScanReachesEmptyEntry(StripSlash(path), before, after);
  }

  lemma {:induction false} ScanReachesEmptyEntry(p: string, before: seq<string>, after: seq<string>)
    requires NoEmptyEntry(before) && !SomeWildcardExcludes(p, before)
    ensures ScanEntries(p, before + [""] + after) == EmptyEntry
  {
    if |before| > 0 {
      assert (before + [""] + after)[1..] == before[1..] + [""] + after;
      assert !WildcardExcludes(before[0], p);
      ScanReachesEmptyEntry(p, before[1..], after);
    }
  }

  /** `p` and `p + "/"` are treated alike, since one trailing slash is stripped first. */
  lemma TrailingSlashIrrelevant(path: string, excludedPaths: Option<seq<string>>)
    requires |path| > 0 && !EndsWith(path, '/')
    ensures AuthRequired(Some(path + "/"), excludedPaths) == AuthRequired(Some(path), excludedPaths)
  {
  }

  /** An entry listed exactly as the stripped path plus `/` excludes it. */
  lemma ExactEntryExcludes(path: string, excluded: seq<string>)
    requires |path| > 0 && NoEmptyEntry(excluded)
    requires StripSlash(path) + "/" in excluded
    ensures AuthRequired(Some(path), Some(excluded)) == Ok(false)
  {
    AuthRequiredCharacterization(path, excluded);
  }

  /** A wildcard entry whose stem occurs in the path's last segment excludes the path. */
  lemma WildcardEntryExcludes(path: string, excluded: seq<string>, k: nat)
    requires |path| > 0 && NoEmptyEntry(excluded)
    requires k < |excluded| && WildcardExcludes(excluded[k], StripSlash(path))
    ensures AuthRequired(Some(path), Some(excluded)) == Ok(false)
  {
    AuthRequiredCharacterization(path, excluded);
  }

  /** An entry whose last segment is just `*` (such as `"/api/v1/" + "*"`) lets every path through. */
  lemma StarSegmentExcludesEverything(path: string, excluded: seq<string>, k: nat)
    requires |path| > 0 && NoEmptyEntry(excluded) && k < |excluded|
    requires EndsWith(StripSlash(excluded[k]), '*') && WildcardStem(StripSlash(excluded[k])) == ""
    ensures AuthRequired(Some(path), Some(excluded)) == Ok(false)
  {
    EmptyIsSubstring(LastSegment(StripSlash(path)));
    WildcardEntryExcludes(path, excluded, k);
  }

  /** The last segment of `dir + "/" + segment` is `segment`, whatever the directory part. */
  lemma LastSegmentOfJoin(dir: string, segment: string)
    requires '/' !in segment
    ensures LastSegment(dir + "/" + segment) == segment
  {
    var p := dir + "/" + segment;
    var r := LastSegment(p);
    assert p[|dir|] == '/';
    assert p[|p| - |segment|..] == segment;
  }

  /** The wildcard rule looks only at the path's last segment: the directories before it play no part. */
  lemma WildcardIgnoresDirectories(entry: string, dir1: string, dir2: string, segment: string)
    requires '/' !in segment
    ensures WildcardExcludes(entry, dir1 + "/" + segment) == WildcardExcludes(entry, dir2 + "/" + segment)
  {
    LastSegmentOfJoin(dir1, segment);
    LastSegmentOfJoin(dir2, segment);
  }

  /** Removing one element from a list keeps the loop's outcome when that element is not wildcard-matching and not empty. */
  lemma {:induction false} ScanSkipsPlainEntry(p: string, before: seq<string>, e: string, after: seq<string>)
    requires |e| > 0 && !EndsWith(e, '/') && !EndsWith(e, '*')
    ensures ScanEntries(p, before + [e] + after) == ScanEntries(p, before + after)
  {
    if |before| == 0 {
      assert before + [e] + after == [e] + after;
      assert ([e] + after)[1..] == after;
      assert before + after == after;
    } else {
      assert (before + [e] + after)[1..] == before[1..] + [e] + after;
      assert (before + after)[1..] == before[1..] + after;
      ScanSkipsPlainEntry(p, before[1..], e, after);
    }
  }

  /** An entry ending in neither `/` nor `*` never excludes anything: adding it changes no answer. */
  lemma PlainEntryIrrelevant(path: string, before: seq<string>, e: string, after: seq<string>)
    requires |e| > 0 && !EndsWith(e, '/') && !EndsWith(e, '*')
    requires |before + after| > 0
    ensures AuthRequired(Some(path), Some(before + [e] + after)) == AuthRequired(Some(path), Some(before + after))
  {
    if |path| > 0 {
      var p := StripSlash(path);
      ScanSkipsPlainEntry(p, before, e, after);
      assert (p + "/")[|p + "/"| - 1] == '/';
      assert p + "/" != e;
      assert (p + "/" in before + [e] + after) == (p + "/" in before + after);
    }
  }

  /** Worked case: the path with or without its trailing slash is excluded by the entry written with one. */
  lemma ExampleTrailingSlash()
    ensures AuthRequired(Some("/api/v1/status"), Some(["/api/v1/status/"])) == Ok(false)
    ensures AuthRequired(Some("/api/v1/status/"), Some(["/api/v1/status/"])) == Ok(false)
  {
    assert !EndsWith("/api/v1/status", '/');
    assert StripSlash("/api/v1/status/") == "/api/v1/status";
    TrailingSlashIrrelevant("/api/v1/status", Some(["/api/v1/status/"]));
    ExactEntryExcludes("/api/v1/status", ["/api/v1/status/"]);
  }

  /** Worked case: an entry written without its trailing slash excludes nothing, not even itself. */
  lemma ExampleEntryWithoutSlash()
    ensures AuthRequired(Some("/api/v1/status"), Some(["/api/v1/status"])) == Ok(true)
  {
    var e := "/api/v1/status";
    assert !EndsWith(e, '/') && !EndsWith(e, '*');
    assert ScanEntries(e, [e]) == Exhausted;
    assert (e + "/")[|e|] == '/';
    assert e + "/" !in [e];
  }

  /** The stem of `dir + "/" + stem + "*"` is `stem`, whatever the directory part. */
  lemma WildcardStemOfJoin(dir: string, stem: string)
    requires '/' !in stem
    ensures WildcardStem(dir + "/" + stem + "*") == stem
  {
    var e := dir + "/" + stem + "*";
    assert e[|dir|] == '/';
    assert e[|e| - 1 - |stem|..] == stem + "*";
  }

  /** Worked case: a wildcard entry matches the last segment whatever the directories. */
  lemma ExampleWildcardIgnoresDirectories()
    ensures AuthRequired(Some("/other/status"), Some(["/api/v1/stat*"])) == Ok(false)
  {
    var e := "/api/v1/stat*";
    assert e == "/api/v1" + "/" + "stat" + "*";
    WildcardStemOfJoin("/api/v1", "stat");
    assert "/other/status" == "/other" + "/" + "status";
    LastSegmentOfJoin("/other", "status");
    assert OccursAt("stat", "status", 0);
    WildcardEntryExcludes("/other/status", [e], 0);
  }

  /** `authorization_header(request)`: the request's `Authorization` header, if any. */
  function AuthorizationHeader(request: Option<Models.Request>): (r: Option<string>)
    ensures request.None? ==> r.None?
    ensures request.Some? ==> (r.Some? <==> "Authorization" in request.value.headers)
    ensures r.Some? ==> r.value == request.value.headers["Authorization"]
  {
    if request.None? then None
    else if "Authorization" in request.value.headers then Some(request.value.headers["Authorization"])
    else None
  }

  /** `current_user(request)` of the base class: no user, whatever the request. */
  function CurrentUser(request: Option<Models.Request>): (r: Option<Models.User>)
    ensures r.None?
  {
    None
  }
}
