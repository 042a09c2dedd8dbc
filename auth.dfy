/** The base authentication class of the session-auth API (0x02 `Auth`):
    the path-exclusion rule and the two request accessors. */
module Auth {
  import opened Values

  /** The parts of an HTTP request the accessors read. Header names are exact keys. */
  datatype Request = Request(headers: map<string, string>, cookies: map<string, string>)

  /** What `require_auth` does: answer, or raise IndexError on `path[-1]`. */
  datatype Decision = Decided(required: bool) | IndexError

  /** The slash-tolerant exclusion the rule implements: the path is listed, or the
      path lacks a trailing slash and the listed form has one. */
  predicate ExcludedBySlashTolerance(path: string, excludedPaths: seq<string>) {
    path in excludedPaths || (path != [] && path[|path| - 1] != '/' && path + "/" in excludedPaths)
  }

  /** Python's `s[-1]`, which raises on the empty string. */
  function LastChar(s: string): (r: Option<char>)
    ensures r.Some? <==> s != []
    ensures r.Some? ==> r.value == s[|s| - 1]
  {
    if s == [] then None else Some(s[|s| - 1])
  }

  /** `require_auth`: `excluded_paths is None or []` is just the None test, since `[]` is falsy. */
  function RequireAuth(path: Option<string>, excludedPaths: Option<seq<string>>): (r: Decision)
    ensures excludedPaths.None? || path.None? ==> r == Decided(true)
    ensures r == IndexError <==> excludedPaths.Some? && path == Some("") && "" !in excludedPaths.value
    ensures r == Decided(false) <==>
              excludedPaths.Some? && path.Some? && ExcludedBySlashTolerance(path.value, excludedPaths.value)
  {
    if excludedPaths.None? then Decided(true)
    else if path.None? then Decided(true)
    else if path.value in excludedPaths.value then Decided(false)
    else match LastChar(path.value)
      case None => IndexError
      case Some(last) =>
        if last != '/' && path.value + "/" in excludedPaths.value then Decided(false)
        else Decided(true)
  }

  /** The tolerance works one way only: listing `p` does not exclude `p + "/"`. */
  lemma TrailingSlashNotTolerated(p: string)
    ensures RequireAuth(Some(p + "/"), Some([p])) == Decided(true)
  {
  }

  /** Listing `p + "/"` excludes `p` when `p` does not itself end in a slash. */
  lemma MissingSlashTolerated(p: string)
    requires p != [] && p[|p| - 1] != '/'
    ensures RequireAuth(Some(p), Some([p + "/"])) == Decided(false)
  {
  }

  /** An empty exclusion list gets no special treatment: every non-empty path needs
      authentication, and the empty path reaches `path[-1]` and raises. */
  lemma EmptyExclusionList(p: string)
    ensures RequireAuth(Some(p), Some([])) == if p == [] then IndexError else Decided(true)
  {
  }

  /** The rule as its documentation states it: True for an absent or empty exclusion
      list and for an absent path, False exactly for a slash-tolerantly excluded path,
      and no exception for the empty path. */
  function RequireAuthIntended(path: Option<string>, excludedPaths: Option<seq<string>>): (r: bool)
    ensures excludedPaths.None? || excludedPaths == Some([]) || path.None? ==> r
    ensures !r <==> excludedPaths.Some? && path.Some? && ExcludedBySlashTolerance(path.value, excludedPaths.value)
  {
    if excludedPaths.None? || |excludedPaths.value| == 0 then true
    else if path.None? then true
    else !ExcludedBySlashTolerance(path.value, excludedPaths.value)
  }

  /** Wherever the rule as written does not raise, it agrees with the documented rule. */
  lemma RequireAuthAgrees(path: Option<string>, excludedPaths: Option<seq<string>>)
    requires RequireAuth(path, excludedPaths) != IndexError
    ensures RequireAuth(path, excludedPaths) == Decided(RequireAuthIntended(path, excludedPaths))
  {
  }

  /** `authorization_header`: the Authorization header's value, or None. */
  function AuthorizationHeader(request: Option<Request>): (r: Value)
    ensures r.NoneValue? <==> request.None? || "Authorization" !in request.value.headers
    ensures r.Str? ==> request.Some? && r.text == request.value.headers["Authorization"]
    ensures r.NoneValue? || r.Str?
  {
    if request.None? then NoneValue
    else if "Authorization" !in request.value.headers then NoneValue
    else Str(request.value.headers["Authorization"])
  }

  /** `session_cookie`, with the cookie name (read from SESSION_NAME) as a parameter. */
  function SessionCookie(request: Option<Request>, cookieName: string): (r: Value)
    ensures r.NoneValue? <==> request.None? || cookieName !in request.value.cookies
    ensures r.Str? ==> request.Some? && r.text == request.value.cookies[cookieName]
    ensures r.NoneValue? || r.Str?
  {
    if request.None? then NoneValue
    else if cookieName !in request.value.cookies then NoneValue
    else Str(request.value.cookies[cookieName])
  }
}
