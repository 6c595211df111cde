/** The Express Basic-auth middleware
    (src/interfaces/http/middleware/auth.middleware.ts): the same decision as
    the framework-neutral one, with its own messages, error bodies built by
    `createErrorResponseDto`, a 401 when the authenticator throws, and the
    user name recorded on the request before `next`. */
module AuthMiddleware {
  import opened Common
  import opened Strings
  import opened Http
  import opened BasicCredentials
  import UserDto
  import AbstractAuthMiddleware

  const Prefix := "Basic "
  const RequiredMessage := "Basic authentication required"
  const InvalidFormatMessage := "Invalid authentication credentials"
  const WrongCredentialsMessage := "Invalid username or password"
  const FailedMessage := "Authentication failed"

  datatype AuthResult = Success(credentials: Credentials) | Failure(message: string) | Rejected

  /** `authHeader.slice('Basic '.length)`: the text after the first six
      characters (empty for a shorter header). */
  function SliceScheme(header: string): (r: string)
    ensures |header| >= |Prefix| ==> header == header[..|Prefix|] + r
    ensures |header| < |Prefix| ==> r == ""
  {
    if |header| >= |Prefix| then header[|Prefix|..] else ""
  }

  /** `parseBasicAuthCredentials`, Express variant: slice, decode, destructure.
      Credentials it returns always have a non-empty, colon-free user name
      and password. */
  function ParseBasicAuthCredentials(header: string, decode: string -> string): (r: Option<Credentials>)
    ensures r.Some? ==> r.value.username != "" && r.value.password != ""
    ensures r.Some? ==> ':' !in r.value.username && ':' !in r.value.password
  {
    var credentials := decode(SliceScheme(header));
    FromDecoded(credentials)
  }

  function ValidateAndAuthenticate(header: Option<string>, decode: string -> string,
                                   authenticate: Credentials -> AuthReply): (r: AuthResult)
    ensures !AbstractAuthMiddleware.HasBasicScheme(header) ==> r == Failure(RequiredMessage)
    ensures AbstractAuthMiddleware.HasBasicScheme(header) && ParseBasicAuthCredentials(header.value, decode).None? ==>
      r == Failure(InvalidFormatMessage)
    ensures r.Success? <==> (AbstractAuthMiddleware.HasBasicScheme(header) &&
      ParseBasicAuthCredentials(header.value, decode).Some? &&
      authenticate(ParseBasicAuthCredentials(header.value, decode).value) == Verdict(true))
    ensures (AbstractAuthMiddleware.HasBasicScheme(header) && ParseBasicAuthCredentials(header.value, decode).Some? &&
             authenticate(ParseBasicAuthCredentials(header.value, decode).value) == Verdict(false))
            ==> r == Failure(WrongCredentialsMessage)
    ensures r.Success? ==> r.credentials == ParseBasicAuthCredentials(header.value, decode).value
    ensures r == Rejected <==> (AbstractAuthMiddleware.HasBasicScheme(header) &&
      ParseBasicAuthCredentials(header.value, decode).Some? &&
      authenticate(ParseBasicAuthCredentials(header.value, decode).value) == Threw)
  {
    if header.None? || header.value == "" || !StartsWith(header.value, Prefix) then Failure(RequiredMessage)
    else
      var credentials := ParseBasicAuthCredentials(header.value, decode);
      if credentials.None? then Failure(InvalidFormatMessage)
      else
        match authenticate(credentials.value)
        case Threw => Rejected
        case Verdict(ok) => if !ok then Failure(WrongCredentialsMessage) else Success(credentials.value)
  }

  /** The Express request, with the `user` property the middleware sets. */
  class AuthenticatedRequest {
    const headers: map<string, string>
    var user: Option<string>

    constructor(headers: map<string, string>)
      ensures this.headers == headers && user == None
    {
      this.headers := headers;
      user := None;
    }
  }

  /** What is written in place of `next`: always 401 with an
      `UnauthorizedError` body, "Authentication failed" when the
      authenticator threw. */
  function RejectionReply(result: AuthResult, now: Instant): (reply: Reply)
    requires !result.Success?
    ensures reply.status == 401 && reply.headers == []
    ensures reply.body == ErrorDtoBody(UserDto.ErrorResponse("UnauthorizedError",
      if result.Failure? then result.message else FailedMessage, now))
  {
    var message := if result.Failure? then result.message else FailedMessage;
    Reply(401, [], ErrorDtoBody(UserDto.ErrorResponse("UnauthorizedError", message, now)))
  }

  /** The middleware: on success `req.user` is `{username}` and `next` is
      called with nothing written; otherwise `req.user` is untouched and the
      401 is written. `now` is the instant of the error's timestamp. */
  method Handle(req: AuthenticatedRequest, res: HttpResponse, decode: string -> string,
                authenticate: Credentials -> AuthReply, now: Instant) returns (nextCalled: bool)
    modifies req, res
    ensures var result := ValidateAndAuthenticate(Lookup(req.headers, "authorization"), decode, authenticate);
      && (nextCalled <==> result.Success?)
      && (nextCalled ==> && req.user == Some(result.credentials.username)
                         && res.statusCode == old(res.statusCode) && res.headers == old(res.headers) && res.body == old(res.body))
      && (!nextCalled ==> req.user == old(req.user) && res.Holds(RejectionReply(result, now), old(res.headers)))
  {
    var result := ValidateAndAuthenticate(Lookup(req.headers, "authorization"), decode, authenticate);
    if result.Success? {
      req.user := Some(result.credentials.username);
      nextCalled := true;
    } else {
      var message := if result.Failure? then result.message else FailedMessage;
      res.Status(401);
      res.Json(ErrorDtoBody(UserDto.ErrorResponse("UnauthorizedError", message, now)));
      nextCalled := false;
    }
  }

  /** On every header that passes the scheme test, slicing six characters and
      replacing the first "Basic " hand the decoder the same text. */
  lemma ParsersAgree(header: string, decode: string -> string)
    requires StartsWith(header, Prefix)
    ensures ParseBasicAuthCredentials(header, decode) == AbstractAuthMiddleware.ParseBasicAuthCredentials(header, decode)
  {
    ReplacePrefix(header, Prefix);
  }

  /** The two middlewares let exactly the same requests through, and refuse
      the others at the same step, each with its own message. */
  lemma VariantsAgree(header: Option<string>, decode: string -> string, authenticate: Credentials -> AuthReply)
    ensures var a := AbstractAuthMiddleware.ValidateAndAuthenticate(header, decode, authenticate);
      var e := ValidateAndAuthenticate(header, decode, authenticate);
      && (e.Success? <==> a == AbstractAuthMiddleware.Success)
      && (e.Rejected? <==> a == AbstractAuthMiddleware.Rejected)
      && (e == Failure(RequiredMessage) <==> a == AbstractAuthMiddleware.Failure(AbstractAuthMiddleware.MissingHeaderMessage))
      && (e == Failure(InvalidFormatMessage) <==> a == AbstractAuthMiddleware.Failure(AbstractAuthMiddleware.BadFormatMessage))
      && (e == Failure(WrongCredentialsMessage) <==> a == AbstractAuthMiddleware.Failure(AbstractAuthMiddleware.BadCredentialsMessage))
  {
    if AbstractAuthMiddleware.HasBasicScheme(header) {
      ParsersAgree(header.value, decode);
    }
  }
}
