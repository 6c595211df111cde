/** The credential table behind HTTP Basic authentication
    (src/infrastructure/security/basic-authenticator.ts). */
module BasicAuthenticator {

  /** The built-in accounts, before any constructor argument is merged in. */
  const DefaultCredentials: map<string, string> := map["admin" := "password", "user" := "secret"]

  /** The table `{admin: 'password', user: 'secret', ...credentials}` spells:
      every default and every given username, the given password winning. */
  function Merge(credentials: map<string, string>): (t: map<string, string>)
    ensures t.Keys == {"admin", "user"} + credentials.Keys
    ensures forall u :: u in credentials ==> t[u] == credentials[u]
    ensures "admin" !in credentials ==> t["admin"] == "password"
    ensures "user" !in credentials ==> t["user"] == "secret"
  {
    DefaultCredentials + credentials
  }

  /** With no argument the table is exactly the two defaults. */
  lemma MergeNothing()
    ensures Merge(map[]) == map["admin" := "password", "user" := "secret"]
  {
  }

  class Authenticator {
    /** The `validCredentials` Map; it is filled once and never changed. */
    const validCredentials: map<string, string>

    /** The constructor fills the (initially empty) Map from the merged
        table, one `set` per entry. */
    constructor(credentials: map<string, string>)
      ensures validCredentials == Merge(credentials)
    {
      var table := CopyEntries(DefaultCredentials + credentials);
      validCredentials := table;
    }

    /** The `forEach` over `Object.entries(...)` calling `set`: afterwards
        the Map holds exactly the entries it was given. */
    static method CopyEntries(entries: map<string, string>) returns (table: map<string, string>)
      ensures table == entries
    {
      table := map[];
      var pending := entries.Keys;
      while pending != {}
        invariant pending <= entries.Keys
        invariant table.Keys == entries.Keys - pending
        invariant forall u :: u in table ==> table[u] == entries[u]
        decreases |pending|
      {
        var u :| u in pending;
        table := table[u := entries[u]];
        pending := pending - {u};
      }
    }

    /** `authenticate`: the stored password for the username must exist and
        equal the given one; an unknown username never authenticates. */
    function Authenticate(username: string, password: string): (ok: bool)
      ensures ok <==> username in validCredentials && validCredentials[username] == password
      ensures username !in validCredentials ==> !ok
    {
      username in validCredentials && validCredentials[username] == password
    }

    /** Over a table built by the constructor: a given username authenticates
        with its given password only; a default username not given keeps its
        default password; any other username is refused. */
    lemma AuthenticateMerged(credentials: map<string, string>, username: string, password: string)
      requires validCredentials == Merge(credentials)
      ensures username in credentials ==> (Authenticate(username, password) <==> password == credentials[username])
      ensures username == "admin" && "admin" !in credentials ==> (Authenticate(username, password) <==> password == "password")
      ensures username == "user" && "user" !in credentials ==> (Authenticate(username, password) <==> password == "secret")
      ensures username !in credentials && username != "admin" && username != "user" ==> !Authenticate(username, password)
    {
    }
  }
}
