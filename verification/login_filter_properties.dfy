/**
 Properties of the login filter's gating rule: how raw prefix matching treats
 particular paths, why the order of the exclusion list does not matter, how
 access behaves as a path grows, when the redirect it issues leads to a page
 the filter lets through, and how the session enters the decision.
 */
module LoginFilterProperties {
  import opened Strings
  import opened LoginFilter

  /** Matching is raw and case-sensitive: a path continuing a prefix without a
      separator still matches, while a different case, a shorter string, an
      unrelated path and the empty path do not. */
  lemma RawPrefixExamples()
    ensures Exempt(ExclusionList, "/public/logo.png")
    ensures Exempt(ExclusionList, "/loginX")
    ensures Exempt(ExclusionList, "/register")
    ensures !Exempt(ExclusionList, "/dashboard")
    ensures !Exempt(ExclusionList, "")
    ensures !Exempt(ExclusionList, "/Login")
    ensures !Exempt(ExclusionList, "/publi")
  {
    assert HasPrefix("/public/logo.png", ExclusionList[2]);
    assert HasPrefix("/loginX", ExclusionList[0]);
    assert HasPrefix("/register", ExclusionList[1]);
    assert "/dashboard"[..|ExclusionList[0]|][1] != ExclusionList[0][1];
    assert "/dashboard"[..|ExclusionList[1]|][1] != ExclusionList[1][1];
    assert "/dashboard"[..|ExclusionList[2]|][1] != ExclusionList[2][1];
    assert !MatchesAny(ExclusionList, "/dashboard");
    assert !MatchesAny(ExclusionList, "");
    assert "/Login"[..|ExclusionList[0]|][1] != ExclusionList[0][1];
    assert !MatchesAny(ExclusionList, "/Login");
    assert !MatchesAny(ExclusionList, "/publi");
  }

  /** The three request scenarios of the filter: a public asset without a
      session passes, an anonymous request for a private page is redirected
      to the login page, and the same request with a user passes. */
  lemma GateScenarios(contextPath: string)
    ensures Gate("/public/logo.png", false, contextPath) == Continue
    ensures Gate("/dashboard", false, contextPath) == Redirect(contextPath + "/login")
    ensures Gate("/dashboard", true, contextPath) == Continue
  {
    RawPrefixExamples();
  }

  /** The answer of the exclusion scan depends only on which prefixes the
      list holds, not on their order or on repetitions: the scan returns
      true on any match. */
  lemma OrderIrrelevant(list1: seq<string>, list2: seq<string>, path: string)
    requires forall e :: e in list1 <==> e in list2
    ensures MatchesAny(list1, path) == MatchesAny(list2, path)
  {
    if Exempt(list1, path) {
      var i :| 0 <= i < |list1| && HasPrefix(path, list1[i]);
      assert list1[i] in list2;
      var j :| 0 <= j < |list2| && list2[j] == list1[i];
    }
    if Exempt(list2, path) {
      var j :| 0 <= j < |list2| && HasPrefix(path, list2[j]);
      assert list2[j] in list1;
      var i :| 0 <= i < |list1| && list1[i] == list2[j];
    }
  }

  /** In particular, any reordering of the exclusion list gates every path
      exactly as the list in source order does. */
  lemma PermutationIrrelevant(reordered: seq<string>, path: string)
    requires multiset(reordered) == multiset(ExclusionList)
    ensures MatchesAny(reordered, path) == MatchesAny(ExclusionList, path)
  {
  }

  /** An exempt path stays exempt whatever is appended to it. */
  lemma ExemptExtends(list: seq<string>, path: string, suffix: string)
    requires Exempt(list, path)
    ensures Exempt(list, path + suffix)
  {
  }

  /** Access only widens as a path grows: if the filter lets a path through,
      it lets through every longer path that begins with it, with the same
      session and context. */
  lemma ContinueExtends(path: string, suffix: string, userPresent: bool, contextPath: string)
    requires Gate(path, userPresent, contextPath) == Continue
    ensures Gate(path + suffix, userPresent, contextPath) == Continue
  {
  }

  /** The redirect target is itself exempt. When a request is redirected,
      the follow-up request for that location continues, whatever its
      session, provided the container splits the location into the same
      context path and a servlet path holding the rest ("/login"), that is,
      provided the login page is mapped by its own path. */
  lemma NoRedirectLoop(req: Request, followUp: Request)
    requires DoFilter(req).Redirect?
    requires followUp.contextPath == req.contextPath
    requires followUp.contextPath + followUp.servletPath == DoFilter(req).location
    ensures DoFilter(followUp) == Continue
  {
    var ctx := followUp.contextPath;
    assert followUp.servletPath == (ctx + followUp.servletPath)[|ctx|..];
    assert followUp.servletPath == LoginPath;
    assert HasPrefix(LoginPath, ExclusionList[0]);
  }

  /** Without that mapping the redirect can repeat: under a servlet mapped to
      every path the servlet path is empty, so an anonymous request for the
      login page itself is sent to the login page again. */
  lemma RootMappingRedirectsLoginPage(contextPath: string)
    ensures DoFilter(Request(contextPath, "", None)) == Redirect(contextPath + LoginPath)
  {
  }

  /** A request that has no session is gated as one whose session is empty:
      `getSession()` creates a fresh session, which holds no "user". */
  lemma MissingSessionIsEmpty(req: Request)
    ensures DoFilter(req.(session := None)) == DoFilter(req.(session := Some(map[])))
    ensures DoFilter(req.(session := None)) == Gate(req.servletPath, false, req.contextPath)
  {
  }

  /** Session attributes other than "user" never change the decision. */
  lemma OtherAttributesIrrelevant(req: Request, attrs: map<string, AttrValue>, key: string, value: AttrValue)
    requires key != UserKey
    ensures DoFilter(req.(session := Some(attrs[key := value]))) == DoFilter(req.(session := Some(attrs)))
  {
  }
}
