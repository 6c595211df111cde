/** The framework-neutral Basic-auth middleware
    (src/interfaces/http/middleware/abstract-auth.middleware.ts). The base64
    decoder (`Buffer.from(..., 'base64').toString('ascii')`) is the
    parameter `decode`; the authentication service is the parameter
    `authenticate`, whose reply is what the awaited promise settles to. */
module AbstractAuthMiddleware {
  import opened Common
  import opened Strings
  import opened Http
  import opened BasicCredentials

  const Prefix := "Basic "
  const MissingHeaderMessage := "Missing or invalid authorization header"
  const BadFormatMessage := "Invalid credentials format"
  const BadCredentialsMessage := "Invalid credentials"

  /** `AuthResult`, plus the case where `authenticate` rejected. */
  datatype AuthResult = Success | Failure(message: string) | Rejected

  /** `parseBasicAuthCredentials`: drop the first "Basic " (wherever it is),
      decode, and destructure. Credentials it returns always have a
      non-empty, colon-free user name and password. */
  function ParseBasicAuthCredentials(header: string, decode: string -> string): (r: Option<Credentials>)
    ensures r.Some? ==> r.value.username != "" && r.value.password != ""
    ensures r.Some? ==> ':' !in r.value.username && ':' !in r.value.password
  {
    var credentials := decode(ReplaceFirst(header, Prefix, ""));
    FromDecoded(credentials)
  }

  /** The header test: present, non-empty and starting with the exact,
      case-sensitive "Basic ". */
  predicate HasBasicScheme(header: Option<string>) {
    Truthy(header) && StartsWith(header.value, Prefix)
  }

  /** `validateAndAuthenticate`: the header test, then the format test, and
      only then a call to the authenticator. */
  function ValidateAndAuthenticate(header: Option<string>, decode: string -> string,
                                   authenticate: Credentials -> AuthReply): (r: AuthResult)
    ensures !HasBasicScheme(header) ==> r == Failure(MissingHeaderMessage)
    ensures HasBasicScheme(header) && ParseBasicAuthCredentials(header.value, decode).None? ==>
      r == Failure(BadFormatMessage)
    ensures (HasBasicScheme(header) && ParseBasicAuthCredentials(header.value, decode).Some? &&
             authenticate(ParseBasicAuthCredentials(header.value, decode).value) == Verdict(false))
            ==> r == Failure(BadCredentialsMessage)
    ensures r == Success <==> (HasBasicScheme(header) && ParseBasicAuthCredentials(header.value, decode).Some? &&
      authenticate(ParseBasicAuthCredentials(header.value, decode).value) == Verdict(true))
    ensures r == Rejected <==> (HasBasicScheme(header) && ParseBasicAuthCredentials(header.value, decode).Some? &&
      authenticate(ParseBasicAuthCredentials(header.value, decode).value) == Threw)
  {
    if header.None? || header.value == "" || !StartsWith(header.value, Prefix) then Failure(MissingHeaderMessage)
    else
      var credentials := ParseBasicAuthCredentials(header.value, decode);
      if credentials.None? then Failure(BadFormatMessage)
      else
        match authenticate(credentials.value)
        case Threw => Rejected
        case Verdict(ok) => if !ok then Failure(BadCredentialsMessage) else Success
  }

  /** What the middleware writes in place of calling `next`: 401 with
      `{error: 'Unauthorized', message}`, or 500 when the authenticator threw. */
  function RejectionReply(result: AuthResult): (reply: Reply)
    requires !result.Success?
    ensures result.Failure? ==> reply == Reply(401, [], PlainErrorBody("Unauthorized", result.message))
    ensures result.Rejected? ==> reply == Reply(500, [], PlainErrorBody("InternalServerError", "Authentication failed"))
  {
    if result.Failure? then Reply(401, [], PlainErrorBody("Unauthorized", result.message))
    else Reply(500, [], PlainErrorBody("InternalServerError", "Authentication failed"))
  }

  /** The middleware `createAuthMiddleware` returns: `next` is called exactly
      when the authenticator accepted, and then nothing is written;
      otherwise the rejection is written and `next` is not called. */
  method Handle(headers: map<string, string>, res: HttpResponse, decode: string -> string,
                authenticate: Credentials -> AuthReply) returns (nextCalled: bool)
    modifies res
    ensures var result := ValidateAndAuthenticate(Lookup(headers, "authorization"), decode, authenticate);
      && (nextCalled <==> result == Success)
      && (nextCalled ==> res.statusCode == old(res.statusCode) && res.headers == old(res.headers) && res.body == old(res.body))
      && (!nextCalled ==> res.Holds(RejectionReply(result), old(res.headers)))
  {
    var result := ValidateAndAuthenticate(Lookup(headers, "authorization"), decode, authenticate);
    if result == Success {
      nextCalled := true;
    } else if result.Failure? {
      res.Status(401);
      res.Json(PlainErrorBody("Unauthorized", result.message));
      nextCalled := false;
    } else {
      res.Status(500);
      res.Json(PlainErrorBody("InternalServerError", "Authentication failed"));
      nextCalled := false;
    }
  }

  /** The scheme test is case-sensitive: "basic " (as section 11.1 of
      RFC 9110 would allow) is refused as a missing header, whatever follows. */
  lemma SchemeIsCaseSensitive(payload: string, decode: string -> string, authenticate: Credentials -> AuthReply)
    ensures ValidateAndAuthenticate(Some("basic " + payload), decode, authenticate) == Failure(MissingHeaderMessage)
    ensures ValidateAndAuthenticate(Some("BASIC " + payload), decode, authenticate) == Failure(MissingHeaderMessage)
  {
    assert ("basic " + payload)[0] != Prefix[0];
    assert ("BASIC " + payload)[1] != Prefix[1];
  }

  /** A header that fails the scheme or the format test is refused without
      asking the authenticator: any two authenticators give the same result. */
  lemma EarlyFailureSkipsAuthenticator(header: Option<string>, decode: string -> string,
                                       a: Credentials -> AuthReply, b: Credentials -> AuthReply)
    requires !HasBasicScheme(header) || ParseBasicAuthCredentials(header.value, decode).None?
    ensures ValidateAndAuthenticate(header, decode, a) == ValidateAndAuthenticate(header, decode, b)
    ensures ValidateAndAuthenticate(header, decode, a).Failure?
  {
  }

  /** For a header of the form "Basic " + payload, the scheme prefix is what
      `replace` removes, so the decoder sees exactly the payload. */
  lemma ParseSeesPayload(payload: string, decode: string -> string)
    ensures ParseBasicAuthCredentials(Prefix + payload, decode) == FromDecoded(decode(payload))
  {
    var h := Prefix + payload;
    assert StartsWith(h, Prefix);
    ReplacePrefix(h, Prefix);
    assert h[|Prefix|..] == payload;
  }

  /** A well-formed header whose credentials the authenticator accepts lets
      the request through; under RFC 7617 section 2 this is a user-id and a
      password joined by a colon, both non-empty and (here) colon-free. */
  lemma AcceptsEncodedCredentials(payload: string, username: string, password: string,
                                  decode: string -> string, authenticate: Credentials -> AuthReply)
    requires decode(payload) == username + [':'] + password
    requires username != "" && password != "" && ':' !in username && ':' !in password
    requires authenticate(Credentials(username, password)) == Verdict(true)
    ensures ValidateAndAuthenticate(Some(Prefix + payload), decode, authenticate) == Success
  {
    ParseSeesPayload(payload, decode);
    RoundTrip(username, password);
  }
}
