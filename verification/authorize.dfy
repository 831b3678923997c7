/** The decision made by the `AuthorizeMiddleware` request handler, as pure
    functions of its configuration and of the request: which scopes are
    required, whether the caller's scopes satisfy them, and how a denial is
    shaped (forwarded to `next`, or written as a 403 with an RFC 6750
    `WWW-Authenticate` challenge). */
module Authorize {
  import opened JsString

  datatype Option<T> = None | Some(value: T)

  /** The first argument of `AuthorizeMiddleware`: a space-separated string,
      or an array of scope names. */
  datatype AllowedScopes = ScopeString(text: string) | ScopeArray(items: seq<string>)

  /** The two options the handler reads; the whole `options` argument may be
      absent, which is `None`. */
  datatype Options = Options(requireAll: bool, errorToNext: bool)

  /** The authenticated principal; its `scope` property may be missing. */
  datatype User = User(scope: Option<string>)

  /** What the handler reads from the request: the optional `currentUser`. */
  datatype Request = Request(currentUser: Option<User>)

  /** The object handed to `next` in forwarding mode. */
  datatype ErrorDescriptor = ErrorDescriptor(statusCode: int, error: string, message: string)

  datatype Header = Header(name: string, value: string)

  /** What one invocation of the handler does: call `next()`, call
      `next(descriptor)`, or append a header, set a status and send a body. */
  datatype Outcome =
    | Proceed
    | Forward(descriptor: ErrorDescriptor)
    | Respond(header: Header, statusCode: int, body: string)

  const InsufficientScope: string := "Insufficient scope"
  const Separator: char := ' '

  /** `options && options.requireAll` */
  predicate RequireAll(options: Option<Options>)
  {
    options.Some? && options.value.requireAll
  }

  /** `options && options.errorToNext` */
  predicate ErrorToNext(options: Option<Options>)
  {
    options.Some? && options.value.errorToNext
  }

  /** The handler's `allowScopes`: it starts as `[]` and is replaced only
      when the argument is not an array, so an array argument is dropped. */
  function AllowScopes(allowed: AllowedScopes): (r: seq<string>)
    ensures allowed.ScopeArray? ==> r == []
    ensures allowed.ScopeString? ==> r != [] && Join(r, Separator) == allowed.text
    ensures forall k :: 0 <= k < |r| ==> Separator !in r[k]
  {
    match allowed
    case ScopeArray(_) => []
    case ScopeString(text) =>
      JoinSplit(text, Separator);
      Split(text, Separator)
  }

  /** The caller's granted scopes: `currentUser.scope.split(' ')`. */
  function UserScopes(user: User): (granted: seq<string>)
    requires user.scope.Some?
  {
    Split(user.scope.value, Separator)
  }

  /** `required.every(scope => granted.includes(scope))` */
  predicate Every(required: seq<string>, granted: seq<string>)
  {
    forall k :: 0 <= k < |required| ==> required[k] in granted
  }

  /** `required.some(scope => granted.includes(scope))` */
  predicate Any(required: seq<string>, granted: seq<string>)
  {
    exists k :: 0 <= k < |required| && required[k] in granted
  }

  /** `isAllowed`: the ALL test with `requireAll`, the ANY test otherwise. */
  predicate IsAllowed(allowScopes: seq<string>, userScopes: seq<string>, options: Option<Options>)
  {
    if RequireAll(options) then Every(allowScopes, userScopes) else Any(allowScopes, userScopes)
  }

  /** The `WWW-Authenticate` challenge of the direct denial. */
  function Challenge(allowScopes: seq<string>): (challenge: string)
  {
    "Bearer scope=\"" + Join(allowScopes, Separator) + ChallengeTail
  }

  /** What follows the scope list in the challenge: the quoted error message. */
  const ChallengeTail: string := "\", error=\"" + InsufficientScope + "\""

  /** What `handleError` does: forward a 403 descriptor to `next` when
      `errorToNext` is set, otherwise answer 403 with a challenge. */
  function Denial(allowScopes: seq<string>, options: Option<Options>): (r: Outcome)
    ensures r.Forward? <==> ErrorToNext(options)
    ensures r.Forward? ==> r.descriptor.statusCode == 403 && r.descriptor.message == InsufficientScope
    ensures r.Respond? ==> r.statusCode == 403 && r.body == InsufficientScope
    ensures r.Respond? ==> r.header.name == "WWW-Authenticate" && r.header.value == Challenge(allowScopes)
  {
    if ErrorToNext(options) then Forward(ErrorDescriptor(403, "Forbidden", InsufficientScope))
    else Respond(Header("WWW-Authenticate", Challenge(allowScopes)), 403, InsufficientScope)
  }

  /** The handler reads `currentUser.scope` only when scopes are required
      and a user is present; there the property must exist, or the call to
      `split` throws. */
  predicate ScopeReadable(allowScopes: seq<string>, request: Request)
  {
    allowScopes == [] || request.currentUser.None? || request.currentUser.value.scope.Some?
  }

  /** The decision of the handler once `allowScopes` is known. */
  function DecideOn(allowScopes: seq<string>, options: Option<Options>, request: Request): (r: Outcome)
    requires ScopeReadable(allowScopes, request)
    ensures r == Proceed || r == Denial(allowScopes, options)
    ensures allowScopes == [] ==> r == Proceed
  {
    if |allowScopes| == 0 then Proceed
    else if request.currentUser.None? then Denial(allowScopes, options)
    else if IsAllowed(allowScopes, UserScopes(request.currentUser.value), options) then Proceed
    else Denial(allowScopes, options)
  }

  /** One invocation of the handler built by `AuthorizeMiddleware(allowed, options)`. */
  function Decide(allowed: AllowedScopes, options: Option<Options>, request: Request): (r: Outcome)
    requires ScopeReadable(AllowScopes(allowed), request)
    ensures allowed.ScopeArray? ==> r == Proceed
    ensures r != Proceed ==> allowed.ScopeString? && r == Denial(Split(allowed.text, Separator), options)
  {
    DecideOn(AllowScopes(allowed), options, request)
  }

  /** The request of a user whose `scope` property is `scope`. */
  function WithScope(scope: string): (request: Request)
  {
    Request(Some(User(Some(scope))))
  }

  // ---------------------------------------------------------------------
  // Properties of the decision
  // ---------------------------------------------------------------------

  /** Without a user, a string configuration denies, whatever the options:
      a string argument always yields at least one required token, even the
      empty string (`"".split(' ')` is `[""]`), so it is never "no restriction". */
  lemma NoUserDenied(allowed: AllowedScopes, options: Option<Options>)
    requires allowed.ScopeString?
    ensures Decide(allowed, options, Request(None)) != Proceed
    ensures Decide(allowed, options, Request(None)) == Denial(AllowScopes(allowed), options)
  {
  }

  /** The decision for a user whose `scope` property is present. */
  lemma DecideWithUser(text: string, options: Option<Options>, scope: string)
    ensures Decide(ScopeString(text), options, WithScope(scope)) ==
      if IsAllowed(Split(text, Separator), Split(scope, Separator), options) then Proceed
      else Denial(Split(text, Separator), options)
  {
  }

  /** The `every`/`includes` test is inclusion of the required tokens. */
  lemma EveryMeansIncluded(required: seq<string>, granted: seq<string>)
    ensures Every(required, granted) <==> forall t :: t in required ==> t in granted
  {
    if !Every(required, granted) {
      var k :| 0 <= k < |required| && required[k] !in granted;
      assert required[k] in required;
    }
  }

  /** The `some`/`includes` test is a common token. */
  lemma AnyMeansShared(required: seq<string>, granted: seq<string>)
    ensures Any(required, granted) <==> exists t :: t in required && t in granted
  {
    if Any(required, granted) {
      var k :| 0 <= k < |required| && required[k] in granted;
      assert required[k] in required;
    }
    if exists t :: t in required && t in granted {
      var t :| t in required && t in granted;
      var k :| 0 <= k < |required| && required[k] == t;
    }
  }

  /** With `requireAll`, the request proceeds exactly when every required
      token is among the user's tokens. */
  lemma RequireAllExactly(text: string, options: Option<Options>, scope: string)
    requires RequireAll(options)
    ensures Decide(ScopeString(text), options, WithScope(scope)) == Proceed <==>
      forall t :: t in Split(text, Separator) ==> t in Split(scope, Separator)
    ensures Decide(ScopeString(text), options, WithScope(scope)) in
      {Proceed, Denial(Split(text, Separator), options)}
  {
    DecideWithUser(text, options, scope);
    EveryMeansIncluded(Split(text, Separator), Split(scope, Separator));
  }

  /** Without `requireAll`, the request proceeds exactly when some required
      token is among the user's tokens. */
  lemma RequireAnyExactly(text: string, options: Option<Options>, scope: string)
    requires !RequireAll(options)
    ensures Decide(ScopeString(text), options, WithScope(scope)) == Proceed <==>
      exists t :: t in Split(text, Separator) && t in Split(scope, Separator)
    ensures Decide(ScopeString(text), options, WithScope(scope)) in
      {Proceed, Denial(Split(text, Separator), options)}
  {
    DecideWithUser(text, options, scope);
    AnyMeansShared(Split(text, Separator), Split(scope, Separator));
  }

  /** Whenever the ALL test lets a request through, the ANY test does too:
      the required list of a string argument is never empty. */
  lemma AllImpliesAny(allowed: AllowedScopes, all: Option<Options>, any: Option<Options>, request: Request)
    requires RequireAll(all) && !RequireAll(any)
    requires ScopeReadable(AllowScopes(allowed), request)
    requires Decide(allowed, all, request) == Proceed
    ensures Decide(allowed, any, request) == Proceed
  {
    var required := AllowScopes(allowed);
    if required != [] {
      var granted := UserScopes(request.currentUser.value);
      assert required[0] in granted;
      assert Any(required, granted);
    }
  }

  /** A user holding every token another user holds is let through whenever
      the other one is. */
  lemma MoreTokensNeverDeny(allowed: AllowedScopes, options: Option<Options>, scope: string, scope': string)
    requires forall t :: t in Split(scope, Separator) ==> t in Split(scope', Separator)
    requires Decide(allowed, options, WithScope(scope)) == Proceed
    ensures Decide(allowed, options, WithScope(scope')) == Proceed
  {
    var required := AllowScopes(allowed);
    var granted, granted' := Split(scope, Separator), Split(scope', Separator);
    if required != [] && !RequireAll(options) {
      var k :| 0 <= k < |required| && required[k] in granted;
      assert required[k] in granted';
    }
  }

  /** Appending `" " + extra` to the user's `scope` string never turns a
      Proceed into a denial. */
  lemma {:induction false} AddingScopeNeverDenies(allowed: AllowedScopes, options: Option<Options>, scope: string, extra: string)
    requires Decide(allowed, options, WithScope(scope)) == Proceed
    ensures Decide(allowed, options, WithScope(scope + [Separator] + extra)) == Proceed
  {
    SplitConcat(scope, extra, Separator);
    MoreTokensNeverDeny(allowed, options, scope, scope + [Separator] + extra);
  }

  /** In forwarding mode, a denial is exactly the 403 descriptor and nothing
      is written. */
  lemma ForwardedDenial(allowed: AllowedScopes, options: Option<Options>, request: Request)
    requires ErrorToNext(options)
    requires ScopeReadable(AllowScopes(allowed), request)
    requires Decide(allowed, options, request) != Proceed
    ensures Decide(allowed, options, request) == Forward(ErrorDescriptor(403, "Forbidden", "Insufficient scope"))
  {
  }

  /** In direct mode, a denial is a 403 whose challenge repeats the
      configured scope string verbatim, with body `Insufficient scope`. */
  lemma DirectDenial(text: string, options: Option<Options>, request: Request)
    requires !ErrorToNext(options)
    requires ScopeReadable(AllowScopes(ScopeString(text)), request)
    requires Decide(ScopeString(text), options, request) != Proceed
    ensures Decide(ScopeString(text), options, request) ==
      Respond(Header("WWW-Authenticate", "Bearer scope=\"" + text + "\", error=\"Insufficient scope\""),
              403, "Insufficient scope")
  {
    JoinSplit(text, Separator);
    ChallengeTailLiteral();
  }

  /** The challenge's tail, written out. */
  lemma ChallengeTailLiteral()
    ensures ChallengeTail == "\", error=\"Insufficient scope\""
  {
  }

  /** `"read write"` splits into the two names. */
  lemma SplitReadWrite()
    ensures Split("read write", Separator) == ["read", "write"]
  {
    var required := ["read", "write"];
    assert Join(required, Separator) == "read write";
    SplitJoin(required, Separator);
  }

  /** ANY policy, `"read write"` required, user granted `"read"`: proceeds. */
  lemma ReadWriteAnyExample()
    ensures Decide(ScopeString("read write"), None, WithScope("read")) == Proceed
  {
    SplitReadWrite();
    SplitNoSeparator("read", Separator);
    RequireAnyExactly("read write", None, "read");
    assert "read" in Split("read write", Separator);
  }

  /** ALL policy, `"read write"` required, user granted `"read"`: a 403 whose
      challenge names both scopes. */
  lemma ReadWriteAllDeniedExample()
    ensures Decide(ScopeString("read write"), Some(Options(true, false)), WithScope("read")) ==
      Respond(Header("WWW-Authenticate", "Bearer scope=\"" + "read write" + "\", error=\"Insufficient scope\""),
              403, "Insufficient scope")
  {
    var options := Some(Options(true, false));
    SplitReadWrite();
    SplitNoSeparator("read", Separator);
    RequireAllExactly("read write", options, "read");
    assert "write" in Split("read write", Separator);
    assert "write" !in Split("read", Separator) by {
      assert "write"[0] != "read"[0];
    }
    assert Decide(ScopeString("read write"), options, WithScope("read")) != Proceed;
    DirectDenial("read write", options, WithScope("read"));
  }

  /** `"read write admin"` splits into the three names. */
  lemma SplitReadWriteAdmin()
    ensures Split("read write admin", Separator) == ["read", "write", "admin"]
  {
    var granted := ["read", "write", "admin"];
    assert Join(granted[2..], Separator) == "admin";
    assert Join(granted[1..], Separator) == "write admin";
    assert Join(granted, Separator) == "read write admin";
    SplitJoin(granted, Separator);
  }

  /** ALL policy, `"read write"` required, user granted `"read write admin"`:
      proceeds. */
  lemma ReadWriteAllGrantedExample()
    ensures Decide(ScopeString("read write"), Some(Options(true, true)), WithScope("read write admin")) == Proceed
  {
    SplitReadWrite();
    SplitReadWriteAdmin();
    RequireAllExactly("read write", Some(Options(true, true)), "read write admin");
  }

  /** The configuration `""` is not "no restriction": it requires the empty
      token, which appears among a user's tokens when their `scope` string is
      empty or has a doubled, leading or trailing space (see
      `SplitDoubleSpace`). */
  lemma EmptyStringConfiguration(options: Option<Options>, scope: string)
    ensures Decide(ScopeString(""), options, WithScope(scope)) == Proceed <==> "" in Split(scope, Separator)
  {
    SplitEmpty();
    var granted := Split(scope, Separator);
    DecideWithUser("", options, scope);
    EveryMeansIncluded([""], granted);
    AnyMeansShared([""], granted);
  }

  // ---------------------------------------------------------------------
  // The array argument
  // ---------------------------------------------------------------------

  /** The required list the documentation describes: an array argument is
      used as given. */
  function IntendedAllowScopes(allowed: AllowedScopes): (r: seq<string>)
    ensures allowed.ScopeString? ==> r == AllowScopes(allowed)
    ensures allowed.ScopeArray? ==> r == allowed.items
  {
    match allowed
    case ScopeArray(items) => items
    case ScopeString(_) => AllowScopes(allowed)
  }

  /** As written, an array argument grants every request, even one without
      a user, where the documented reading denies it. */
  lemma ArrayArgumentIgnored()
    ensures Decide(ScopeArray(["admin"]), None, Request(None)) == Proceed
    ensures DecideOn(IntendedAllowScopes(ScopeArray(["admin"])), None, Request(None)) != Proceed
  {
  }

  /** With the documented reading, a non-empty array is enforced like the
      split string: no user is denied, and under `requireAll` a user
      proceeds exactly when they hold every listed scope. */
  lemma IntendedArrayEnforced(items: seq<string>, options: Option<Options>, scope: string)
    requires items != []
    ensures DecideOn(IntendedAllowScopes(ScopeArray(items)), options, Request(None)) == Denial(items, options)
    ensures RequireAll(options) ==>
      (DecideOn(IntendedAllowScopes(ScopeArray(items)), options, WithScope(scope)) == Proceed <==>
       forall t :: t in items ==> t in Split(scope, Separator))
    ensures !RequireAll(options) ==>
      (DecideOn(IntendedAllowScopes(ScopeArray(items)), options, WithScope(scope)) == Proceed <==>
       exists t :: t in items && t in Split(scope, Separator))
  {
    var granted := Split(scope, Separator);
    EveryMeansIncluded(items, granted);
    AnyMeansShared(items, granted);
  }
}
