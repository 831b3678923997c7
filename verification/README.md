# express-jwt-scope: the `AuthorizeMiddleware` scope check, in Dafny

`AuthorizeMiddleware(allowedScopes, options)` builds an Express request
handler that runs after authentication. The handler reads the scopes of
`request.currentUser` and decides whether the request may go on to the
next handler. The required scopes are given as a space-separated string
(an array is accepted by the signature). The handler checks either that
ALL required scopes are held (`requireAll`) or that at least ONE is held.
A denial is handled in one of two ways. With `errorToNext`, `next`
receives the descriptor `{statusCode: 403, error: 'Forbidden', message:
'Insufficient scope'}`. Otherwise the handler writes a 403 response itself.
That response carries the challenge
`WWW-Authenticate: Bearer scope="<required scopes>", error="Insufficient scope"`
(the challenge of section 3 of RFC 6750, "The WWW-Authenticate Response
Header Field") and the body `Insufficient scope`.

The project has three modules:

- `JsString` (`js_string.dfy`) defines JavaScript's `split` and `join`
  with a one-character separator. `split` keeps empty pieces:
  `"".split(' ')` is `[""]` and `"a  b".split(' ')` is `["a", "", "b"]`.
  The module proves both round trips between the two functions.
- `Authorize` (`authorize.dfy`) holds the decision as pure functions.
  `AllowScopes` is the normalisation of the argument, `Denial` is what
  `handleError` produces, `DecideOn` is the handler's branches once the
  required list is known, and `Decide` is a whole invocation. The
  module's lemmas state what the handler promises.
- `Middleware` (`middleware.dfy`) holds the handler as it runs. `Response`
  is a class with the header list, status and body that the handler
  writes. `HandleError` and `Handle` reassign the same locals as the
  source. Each is proved to have exactly the effect that `Denial` or
  `Decide` gives: the value passed to `next`, and the new response state.

The model follows the code as written:

- An array argument is never copied into `allowScopes`. The list stays
  `[]`, so every request proceeds. This is listed under Findings.
- A string argument always gives at least one required token. The
  configuration `""` requires the empty token; it does not mean "no
  restriction".
- Splitting is on the single character `' '`, and empty tokens are kept.
- The `scopeKey` option in the doc comment is never read. The handler
  always reads `currentUser.scope`, and the model has no `scopeKey`.
- The `error` value in the challenge is the literal `Insufficient scope`.
  RFC 6750 section 3.1 defines the token `insufficient_scope` instead.
- When scopes are required and the user object has no `scope` property,
  the source throws a TypeError when it calls `split` on `undefined`. The
  model does not treat this as a denial. `Decide` and `Handle` exclude it
  with the precondition `ScopeReadable`.

## Model

| member | source | states |
|---|---|---|
| JsString.Split | index.ts:17 | `s.split(' ')` yields at least one piece, and no piece contains the separator |
| JsString.Join | index.ts:30 | `[].join(' ')` is `""`; a list's join starts with its first element, and a single element joins to itself |
| JsString.SplitNoSeparator | index.ts:17 | a string without the separator splits into itself alone |
| JsString.SplitConcat | index.ts:43 | splitting `a + ' ' + b` gives the pieces of `a` followed by the pieces of `b` |
| JsString.JoinSplit | index.ts:30 | joining the pieces of any string with `' '` gives the string back, so the challenge repeats the configured scope string |
| JsString.SplitJoin | index.ts:17 | splitting the join of a non-empty list without separators gives the list back |
| JsString.SplitEmpty | index.ts:17 | `"".split(' ')` is `[""]`, which has one element |
| JsString.SplitDoubleSpace | index.ts:43 | `"a  b".split(' ')` is `["a", "", "b"]`; a doubled space yields an empty token |
| Authorize.AllowScopes | index.ts:14-18 | an array argument yields `[]`; a string yields a non-empty list with no spaces inside its tokens, whose join is the string |
| Authorize.Denial | index.ts:20-33 | the denial is forwarded exactly when `errorToNext` is set, as 403 `Insufficient scope`; otherwise it is a 403 response with the `WWW-Authenticate` challenge and body `Insufficient scope` |
| Authorize.DecideOn | index.ts:35-51 | the only results are proceeding and the one configured denial; an empty required list always proceeds |
| Authorize.Decide | index.ts:13-52 | an array argument always proceeds; any other result is the denial built from the split string |
| Authorize.EveryMeansIncluded | index.ts:47 | `every(scope => userScopes.includes(scope))` holds if and only if every required token is among the granted ones |
| Authorize.AnyMeansShared | index.ts:49 | `some(scope => userScopes.includes(scope))` holds if and only if some token is both required and granted |
| Authorize.NoUserDenied | index.ts:16-39 | without `currentUser`, a string configuration, even `""`, denies with the denial for its required list |
| Authorize.RequireAllExactly | index.ts:46-51 | with `requireAll`, the request proceeds if and only if every required token is among the user's split tokens; otherwise it gets the configured denial |
| Authorize.RequireAnyExactly | index.ts:48-51 | without `requireAll`, the request proceeds if and only if some required token is among the user's split tokens; otherwise it gets the configured denial |
| Authorize.AllImpliesAny | index.ts:46-50 | whenever the ALL test proceeds, the ANY test proceeds for the same configuration and request |
| Authorize.MoreTokensNeverDeny | index.ts:43-51 | a user holding a superset of another user's tokens proceeds whenever the other user does |
| Authorize.AddingScopeNeverDenies | index.ts:43-51 | appending `' ' + extra` to a user's `scope` never turns a proceed into a denial |
| Authorize.ForwardedDenial | index.ts:22-24 | in `errorToNext` mode, a denial is exactly `Forward(403, "Forbidden", "Insufficient scope")` |
| Authorize.DirectDenial | index.ts:28-32 | in direct mode, a denial is status 403 with body `Insufficient scope` and header `Bearer scope="<configured string>", error="Insufficient scope"` |
| Authorize.SplitReadWrite | index.ts:17 | `"read write"` splits into `["read", "write"]` |
| Authorize.ReadWriteAnyExample | index.ts:48-51 | requiring `"read write"` under ANY, a user holding `"read"` proceeds |
| Authorize.ReadWriteAllDeniedExample | index.ts:46-51 | requiring `"read write"` under ALL, a user holding `"read"` gets the 403 challenge naming `read write` |
| Authorize.SplitReadWriteAdmin | index.ts:43 | `"read write admin"` splits into `["read", "write", "admin"]` |
| Authorize.ReadWriteAllGrantedExample | index.ts:46-51 | requiring `"read write"` under ALL, a user holding `"read write admin"` proceeds |
| Authorize.EmptyStringConfiguration | index.ts:16-51 | configured with `""`, a user proceeds if and only if their split scope contains the empty token |
| Authorize.ArrayArgumentIgnored | index.ts:14-36 | as written, an array argument lets a request without a user through, where the documented reading denies it |
| Authorize.IntendedArrayEnforced | index.ts:2 | under the documented reading, a non-empty array denies a request without a user; with `requireAll`, a user proceeds if and only if they hold every listed scope; without it, if and only if they hold at least one |
| Middleware.HandleError | index.ts:20-33 | `next` gets the 403 descriptor exactly in `errorToNext` mode, and the response is then untouched; otherwise one `WWW-Authenticate` challenge is appended, the status becomes 403 and the body `Insufficient scope` is sent, and `next` is not called |
| Middleware.Handle | index.ts:13-52 | the handler calls `next()`, calls `next(descriptor)`, or writes the denial, exactly as `Decide` says; the response is untouched unless the handler answers |
| Middleware.ArrayConfiguredHandler | index.ts:14-36 | a handler configured with an array calls `next()` and leaves a fresh response unwritten: no header, status 200, no body sent |
| Middleware.StringConfiguredWithoutUser | index.ts:20-39 | with a string configuration and no user: in forwarding mode `next` gets the descriptor and the response is untouched; in direct mode the response gets the challenge that repeats the string, status 403 and the message |

## Left out

- Express itself is not modelled. `response.append`, `status` and `send`
  are fields of `Response`: appended headers in order, the status code,
  and the sent body. Express's merging of repeated header names and the
  content type `send` chooses are not modelled. The `next` continuation
  is the `NextCall` value that the handler methods return.
- The closure shape is not modelled. The handler is a function of the
  configuration and the request, since the configuration is only read.
- The unused first parameter `error` of `handler` (index.ts:13) is not
  modelled.
- `./types` is not part of this model. `Options` is a record of the two
  booleans the code reads. A missing `options` argument is `None`.
- `scopeKey` is left out because the code never reads it.
- Decide: when scopes are required and `currentUser` has no `scope`
  property, the source throws a TypeError at index.ts:43. `ScopeReadable`
  excludes this case instead of modelling the exception. A `scope` value
  that is not a string, and a first argument that is neither a string nor
  an array, are left out for the same reason.
- Handle: the source evaluates `request.currentUser` for truthiness. The
  model treats any present user object as truthy.
- Repeated invocations of the handler always give the same result. This
  holds by construction for functions, so no lemma states it.

## Findings

| source | as written | input that shows it | evidently intended | confidence | as-written member | corrected member |
|---|---|---|---|---|---|---|
| index.ts:14-18 | an array argument is never copied into `allowScopes`; the list stays `[]`, and line 35 calls `next()` for every request | `AuthorizeMiddleware(["admin"])` with a request that has no `currentUser` is let through | the array is the list of required scopes (doc comment, index.ts:2) | high; not executed | Authorize.ArrayArgumentIgnored | Authorize.IntendedArrayEnforced |

The handler model (`Decide`, `Handle`) keeps the code's behaviour, which is
what the module describes. `IntendedAllowScopes` is the corrected
normalisation. It plugs into the same decision, `DecideOn`, and
`IntendedArrayEnforced` proves the intended enforcement for it.
