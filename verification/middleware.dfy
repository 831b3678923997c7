/** The request handler returned by `AuthorizeMiddleware`, step by step as
    it runs: it fills its locals `allowScopes`, `userScopes` and `isAllowed`,
    and on denial its `handleError` closure either calls `next` with an error
    descriptor or writes the challenge, the status and the body to the
    response. Each method is proved to have exactly the effect that
    `Authorize.Decide` describes. */
module Middleware {
  import opened JsString
  import opened Authorize

  /** The part of the Express response the handler touches. A fresh response
      has no appended headers, status 200 and nothing sent. */
  class Response {
    var headers: seq<Header>
    var statusCode: int
    var body: Option<string>

    constructor ()
      ensures headers == [] && statusCode == 200 && body == None
    {
      headers := [];
      statusCode := 200;
      body := None;
    }
  }

  /** A call of the `next` continuation: `next()` or `next(descriptor)`. */
  datatype NextCall = Continue | ContinueWithError(descriptor: ErrorDescriptor)

  /** The call of `next` an outcome stands for; `None` when the handler
      answers the request itself. */
  function NextCallOf(outcome: Outcome): (call: Option<NextCall>)
  {
    match outcome
    case Proceed => Some(Continue)
    case Forward(descriptor) => Some(ContinueWithError(descriptor))
    case Respond(_, _, _) => None
  }

  /** `handleError`: forwards `{statusCode: 403, error: 'Forbidden', message}`
      to `next` when `errorToNext` is set; otherwise appends the
      `WWW-Authenticate` challenge, sets status 403 and sends the message. */
  method HandleError(allowScopes: seq<string>, options: Option<Options>, response: Response)
    returns (call: Option<NextCall>)
    modifies response
    ensures call == NextCallOf(Denial(allowScopes, options))
    ensures ErrorToNext(options) ==> unchanged(response)
    ensures !ErrorToNext(options) ==>
      && response.headers == old(response.headers) + [Header("WWW-Authenticate", Challenge(allowScopes))]
      && response.statusCode == 403
      && response.body == Some(InsufficientScope)
  {
    var errMessage := InsufficientScope;
    if ErrorToNext(options) {
      return Some(ContinueWithError(ErrorDescriptor(403, "Forbidden", errMessage)));
    }
    var challenge := "Bearer scope=\"" + Join(allowScopes, Separator) + ("\", error=\"" + errMessage + "\"");
    response.headers := response.headers + [Header("WWW-Authenticate", challenge)];
    response.statusCode := 403;
    response.body := Some(errMessage);
    call := None;
  }

  /** One invocation of the handler. Exactly one of three things happens:
      `next()` is called, `next(descriptor)` is called, or the response gets
      the header, status and body of the denial; which one is the outcome
      `Decide` gives. */
  method Handle(allowed: AllowedScopes, options: Option<Options>, request: Request, response: Response)
    returns (call: Option<NextCall>)
    requires ScopeReadable(AllowScopes(allowed), request)
    modifies response
    ensures call == NextCallOf(Decide(allowed, options, request))
    ensures !Decide(allowed, options, request).Respond? ==> unchanged(response)
    ensures Decide(allowed, options, request).Respond? ==>
      && response.headers == old(response.headers) + [Decide(allowed, options, request).header]
      && response.statusCode == Decide(allowed, options, request).statusCode
      && response.body == Some(Decide(allowed, options, request).body)
  {
    var allowScopes: seq<string> := [];
    if !allowed.ScopeArray? {
      allowScopes := Split(allowed.text, Separator);
    }

    if |allowScopes| == 0 {
      return Some(Continue);
    }

    if request.currentUser.None? {
      call := HandleError(allowScopes, options, response);
      return;
    }

    var userScopes: seq<string> := [];
    userScopes := Split(request.currentUser.value.scope.value, Separator);

    var isAllowed: bool;
    if RequireAll(options) {
      isAllowed := Every(allowScopes, userScopes);
    } else {
      isAllowed := Any(allowScopes, userScopes);
    }
    if isAllowed {
      call := Some(Continue);
    } else {
      call := HandleError(allowScopes, options, response);
    }
  }

  /** A fresh response given to a handler configured with an array is left
      untouched (no header, status 200, nothing sent) and `next()` is called. */
  method ArrayConfiguredHandler(items: seq<string>, options: Option<Options>, request: Request)
    returns (call: Option<NextCall>, headers: seq<Header>, statusCode: int, body: Option<string>)
    ensures call == Some(Continue) && headers == [] && statusCode == 200 && body == None
  {
    var response := new Response();
    call := Handle(ScopeArray(items), options, request, response);
    headers, statusCode, body := response.headers, response.statusCode, response.body;
  }

  /** A handler configured with a string, given a request without a user and
      a fresh response: in forwarding mode `next` receives the 403 descriptor
      and the response stays untouched; otherwise the response carries the
      challenge echoing the configured string, status 403 and the message,
      and `next` is not called. */
  method StringConfiguredWithoutUser(text: string, options: Option<Options>)
    returns (call: Option<NextCall>, headers: seq<Header>, statusCode: int, body: Option<string>)
    ensures ErrorToNext(options) ==>
      && call == Some(ContinueWithError(ErrorDescriptor(403, "Forbidden", "Insufficient scope")))
      && headers == [] && statusCode == 200 && body == None
    ensures !ErrorToNext(options) ==>
      && call == None
      && headers == [Header("WWW-Authenticate", "Bearer scope=\"" + text + "\", error=\"Insufficient scope\"")]
      && statusCode == 403 && body == Some("Insufficient scope")
  {
    var response := new Response();
    call := Handle(ScopeString(text), options, Request(None), response);
    headers, statusCode, body := response.headers, response.statusCode, response.body;
    if !ErrorToNext(options) {
      NoUserDenied(ScopeString(text), options);
      DirectDenial(text, options, Request(None));
    }
  }
}
