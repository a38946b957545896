# Login filter access gate, in Dafny

This project models the request-gating rule of the `LoginFilter` servlet
filter. The filter is mapped to every path. It maps each incoming request to
one of two outcomes:

- the request **continues** down the filter chain, or
- the client gets a **redirect** to the application's login page.

The rule has three branches:

1. If the servlet path begins with one of the fixed prefixes `"/login"`,
   `"/register"` or `"/public"`, the request continues. The session is not
   looked at.
2. Otherwise, if the session holds a non-null `"user"` attribute, the request
   continues.
3. Otherwise the response is a redirect to `contextPath + "/login"`, and the
   chain does not continue.

Prefix matching is raw string matching. It is case-sensitive and does not
respect path segments, so `"/loginX"` is exempt.

Files:

- `strings.dfy` (module `Strings`): `HasPrefix` specifies prefix matching.
  `StartsWith` implements it character by character, in the manner of Java's
  `String.startsWith`.
- `login_filter.dfy` (module `LoginFilter`): the exclusion list; the `Exempt`
  specification ("some entry is a prefix of the path"); `MatchesAny`, the
  exclusion scan as a recursive function; `IsExclusion`, the same scan as a
  loop; the `Decision` datatype; `Gate`, the decision from
  (servlet path, user present, context path); and `DoFilter`, the decision
  from a whole `Request` whose session may be missing.
- `login_filter_properties.dfy` (module `LoginFilterProperties`): lemmas about
  the rule.

Two properties hold by construction and need no lemma:

- `Gate` and `DoFilter` are pure functions of their arguments. The filter has
  no mutable fields, so identical requests always get identical decisions.
- `Decision` has exactly two constructors, so every request gets exactly one
  outcome.

A request without a session is modelled as `session == None`. `getSession()`
creates an empty session for it, so such a request has no user. A session
attribute is present in the map exactly when its value is non-null, because
the servlet API stores a null value by removing the name.

## Model

| member | source | states |
|---|---|---|
| `Strings.StartsWith` | LoginFilter/LoginFilter.java:48 | The char-by-char comparison returns true exactly when `prefix` is no longer than `s` and every one of its characters equals the character of `s` at the same position. It returns false when `prefix` is longer than `s` or when some position differs. |
| `Strings.HasPrefixExtends` | LoginFilter/LoginFilter.java:48 | The test is raw prefix matching: a prefix of a string is still a prefix after anything is appended to that string. |
| `LoginFilter.MatchesAny` | LoginFilter/LoginFilter.java:47-52 | The scan that tries entries in list order and stops at the first match returns true exactly when some entry of the list is a prefix of the path. This holds for any list. |
| `LoginFilter.IsExclusion` | LoginFilter/LoginFilter.java:46-53 | The loop over the exclusion list returns true exactly when some entry is a prefix of the path. Concretely, that means the path begins with "/login", "/register" or "/public". Otherwise it returns false. |
| `LoginFilter.Gate` | LoginFilter/LoginFilter.java:24-38 | An exempt path always continues. A non-exempt path continues when a user is present. A non-exempt path with no user is redirected to exactly the context path followed by "/login". |
| `LoginFilter.DoFilter` | LoginFilter/LoginFilter.java:20-39 | A request continues if and only if its path is exempt or it has a session holding "user". It is redirected if and only if neither holds, and then the location is the context path followed by "/login". A request with no session is redirected unless its path is exempt. |
| `LoginFilterProperties.RawPrefixExamples` | LoginFilter/LoginFilter.java:12 | "/public/logo.png", "/loginX" and "/register" are exempt. "/dashboard", the empty path, "/Login" (different case) and "/publi" (shorter than the entry) are not exempt. |
| `LoginFilterProperties.GateScenarios` | LoginFilter/LoginFilter.java:25-38 | A public asset without a user continues. "/dashboard" without a user is redirected to the context path followed by "/login". "/dashboard" with a user continues. |
| `LoginFilterProperties.OrderIrrelevant` | LoginFilter/LoginFilter.java:47-52 | Two lists that hold the same set of prefixes give the same answer for every path, whatever the order or repetition of the entries. |
| `LoginFilterProperties.PermutationIrrelevant` | LoginFilter/LoginFilter.java:12 | Any reordering of the exclusion list decides every path the same way as the list in source order. |
| `LoginFilterProperties.ExemptExtends` | LoginFilter/LoginFilter.java:48 | If a path is exempt under a list, every path that begins with it is exempt too. |
| `LoginFilterProperties.ContinueExtends` | LoginFilter/LoginFilter.java:24-38 | If the gate lets a path through, it lets through every longer path that begins with it, given the same user presence and context path. |
| `LoginFilterProperties.NoRedirectLoop` | LoginFilter/LoginFilter.java:36-38 | When a request is redirected, a follow-up request for the redirect location continues, whatever its session. This assumes the follow-up keeps the same context path and that its context path followed by its servlet path make up the whole location. Its servlet path is then "/login", so the login page must be mapped by its own path. |
| `LoginFilterProperties.RootMappingRedirectsLoginPage` | LoginFilter/LoginFilter.java:24-38 | A request with an empty servlet path is not exempt. An anonymous request with an empty servlet path is redirected to the context path followed by "/login". An empty servlet path is what a servlet mapped to every path sees, so under that mapping the login page itself redirects again. |
| `LoginFilterProperties.MissingSessionIsEmpty` | LoginFilter/LoginFilter.java:30-32 | A request without a session is decided exactly as one with an empty session, which is what `getSession()` creates. That is the decision for a request with no user present. |
| `LoginFilterProperties.OtherAttributesIrrelevant` | LoginFilter/LoginFilter.java:30-32 | Adding or changing any session attribute other than "user" never changes the decision. |

## Left out

- Servlet container plumbing: the casts to the HTTP request and response types, the call to `FilterChain.doFilter`, and the I/O of `sendRedirect`. These are represented only by the `Decision` value.
- The redirect status: `sendRedirect` sends status 302. The `Decision` value does not record it.
- LoginFilterProperties.NoRedirectLoop: holds only when the login page's servlet path is "/login". The servlet path of a request depends on the application's servlet mappings, which are not part of this model. Under a servlet mapped to every path the servlet path is empty, and the login page redirects to itself (see `LoginFilterProperties.RootMappingRedirectsLoginPage`).
- The side effect of `getSession()`, which creates a session when none exists. The model reads a missing session as an empty one and does not return the new session.
- The empty `init` and `destroy` lifecycle hooks. They contain no logic.
- `RequestListener/MyServletRequestListener.java` is not part of this model. It reads the wall clock, keeps its start time in the container's request attributes, formats its log line with `Date` and `String.format`, and only prints to standard output.
- Concurrency between requests. The container handles it, and the filter has no shared mutable state.
- Session attribute values are opaque strings. The filter only tests whether the `"user"` value is null, so its type does not matter.
