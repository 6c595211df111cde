/** What both Basic-auth middlewares do with the decoded credentials:
    `const [username, password] = credentials.split(':')` followed by
    `username && password ? {username, password} : null`. Under section 2 of
    RFC 7617 the user-id ends at the first colon and the password is all
    that follows; destructuring `split` keeps only the text up to a second
    colon. */
module BasicCredentials {
  import opened Common
  import opened Strings

  datatype Credentials = Credentials(username: string, password: string)

  /** How an awaited `authenticate` call settles: a boolean, or a rejection. */
  datatype AuthReply = Verdict(ok: bool) | Threw

  /** The destructured fields, with `undefined` for a missing second field,
      and the truthiness test on both. */
  function FromDecoded(decoded: string): (r: Option<Credentials>)
    ensures r.Some? <==> ':' in decoded && Split(decoded, ':')[0] != "" && Split(decoded, ':')[1] != ""
    ensures r.Some? ==> r.value == Credentials(Split(decoded, ':')[0], Split(decoded, ':')[1])
  {
    var fields := Split(decoded, ':');
    var username := fields[0];
    var password := if |fields| > 1 then Some(fields[1]) else None;
    if username != "" && Truthy(password) then Some(Credentials(username, password.value)) else None
  }

  /** A user-id and a password, both non-empty and colon-free, joined with a
      colon as section 2 of RFC 7617 prescribes, are recovered exactly. */
  lemma RoundTrip(username: string, password: string)
    requires username != "" && password != ""
    requires ':' !in username && ':' !in password
    ensures FromDecoded(username + [':'] + password) == Some(Credentials(username, password))
  {
    SplitFirst(username, ':', password);
  }

  /** A password that itself contains a colon comes back cut at that colon
      (RFC 7617 allows colons in the password); a user-id is never cut. */
  lemma PasswordTruncated(username: string, front: string, rest: string)
    requires username != "" && front != ""
    requires ':' !in username && ':' !in front
    ensures FromDecoded(username + [':'] + front + [':'] + rest) == Some(Credentials(username, front))
  {
    SplitFirst(front, ':', rest);
    assert username + [':'] + front + [':'] + rest == username + [':'] + (front + [':'] + rest);
    SplitFirst(username, ':', front + [':'] + rest);
  }

  /** Decoded text without a colon never yields credentials. */
  lemma NoColonRejected(decoded: string)
    requires ':' !in decoded
    ensures FromDecoded(decoded) == None
  {
  }
}
