/**
 The access-gating rule of the login filter. Every request is mapped to one of
 two outcomes: it continues down the filter chain, or it is answered with a
 redirect to the application's login page. A request continues when its servlet
 path begins with one of the exempt prefixes, or when its session holds a
 "user" attribute; otherwise it is redirected to `<context path>/login`.

 The container's side of the exchange (the filter chain call, the redirect
 response, the session that `getSession()` may create) is represented only by
 the `Decision` value.
 */
module LoginFilter {
  import opened Strings

  /** The exempt path prefixes, in the order the filter tries them. */
  const ExclusionList: seq<string> := ["/login", "/register", "/public"]

  /** The page unauthenticated requests are sent to, relative to the context path. */
  const LoginPath: string := "/login"

  /** The session attribute whose presence marks an authenticated client. */
  const UserKey: string := "user"

  /** Specification of exemption: some entry of `list` is a prefix of `path`. */
  ghost predicate Exempt(list: seq<string>, path: string) {
    exists i :: 0 <= i < |list| && HasPrefix(path, list[i])
  }

  /** The exclusion scan read as a function: entries are tried in list order
      and the first prefix that matches settles the answer. */
  function MatchesAny(list: seq<string>, path: string): (r: bool)
    ensures r <==> Exempt(list, path)
  {
    if |list| == 0 then
      false
    else if HasPrefix(path, list[0]) then
      true
    else
      var rest := MatchesAny(list[1..], path);
      assert rest ==> Exempt(list, path) by {
        if rest {
          var i :| 0 <= i < |list[1..]| && HasPrefix(path, list[1..][i]);
          assert list[i + 1] == list[1..][i];
        }
      }
      assert Exempt(list, path) ==> rest by {
        if Exempt(list, path) {
          var i :| 0 <= i < |list| && HasPrefix(path, list[i]);
          assert i != 0;
          assert list[1..][i - 1] == list[i];
        }
      }
      rest
  }

  /** The filter's exclusion check: walks the exclusion list and returns true
      at the first entry that is a prefix of `path`, false when none is. */
  method IsExclusion(path: string) returns (b: bool)
    ensures b <==> Exempt(ExclusionList, path)
    ensures b <==> HasPrefix(path, "/login") || HasPrefix(path, "/register") || HasPrefix(path, "/public")
  {
    var k := 0;
    while k < |ExclusionList|
      invariant 0 <= k <= |ExclusionList|
      invariant forall j :: 0 <= j < k ==> !HasPrefix(path, ExclusionList[j])
    {
      var hit := StartsWith(path, ExclusionList[k]);
      if hit {
        return true;
      }
      k := k + 1;
    }
    assert !HasPrefix(path, ExclusionList[0]) && !HasPrefix(path, ExclusionList[1]) && !HasPrefix(path, ExclusionList[2]);
    return false;
  }

  /** The outcome of one pass through the filter. */
  datatype Decision = Continue | Redirect(location: string)

  /** The filter's decision from the three things it looks at: the servlet path,
      whether the session holds a user, and the context path. */
  function Gate(servletPath: string, userPresent: bool, contextPath: string): (d: Decision)
    ensures Exempt(ExclusionList, servletPath) ==> d == Continue
    ensures !Exempt(ExclusionList, servletPath) && userPresent ==> d == Continue
    ensures !Exempt(ExclusionList, servletPath) && !userPresent ==> d == Redirect(contextPath + LoginPath)
  {
    if MatchesAny(ExclusionList, servletPath) then Continue
    else if userPresent then Continue
    else Redirect(contextPath + LoginPath)
  }

  datatype Option<T> = None | Some(value: T)

  /** Session attribute values are opaque to the filter; only their presence matters. */
  type AttrValue = string

  /** The parts of an HTTP request the filter reads. `session` is None when the
      client has no session yet. A session attribute name is present in the map
      exactly when its value is non-null (the servlet API stores a null value
      by removing the name). */
  datatype Request = Request(
    contextPath: string,
    servletPath: string,
    session: Option<map<string, AttrValue>>)

  /** The filter's `doFilter` on a whole request. A request without a session
      is treated as one with an empty session, which is what `getSession()`
      hands back; the session is only looked at when the path is not exempt. */
  function DoFilter(req: Request): (d: Decision)
    ensures d == Continue <==> Exempt(ExclusionList, req.servletPath) || (req.session.Some? && UserKey in req.session.value)
    ensures d.Redirect? <==> !Exempt(ExclusionList, req.servletPath) && (req.session.None? || UserKey !in req.session.value)
    ensures d.Redirect? ==> d.location == req.contextPath + LoginPath
  {
    var session := match req.session
      case Some(attrs) => attrs
      case None => map[];
    Gate(req.servletPath, UserKey in session, req.contextPath)
  }
}
