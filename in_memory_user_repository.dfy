/** The in-memory user store: a JavaScript `Map` from id value to user
    (src/infrastructure/persistence/memory/in-memory-user-repository.ts). */
module UserRepository {
  import opened Common
  import opened Strings
  import opened UserModel

  function IdTakenMessage(id: string): (m: string)
  {
    "User with ID " + id + " already exists"
  }

  function EmailTakenMessage(email: string): (m: string)
  {
    "User with email " + email + " already exists"
  }

  function NotFoundMessage(id: string): (m: string)
  {
    "User with ID " + id + " not found"
  }

  /** Some stored user has exactly this email. */
  predicate EmailTaken(users: map<string, User>, email: string) {
    exists k | k in users :: users[k].email == email
  }

  /** No two stored users share an email. */
  ghost predicate EmailsDistinct(users: map<string, User>) {
    forall a, b :: a in users && b in users && a != b ==> users[a].email != users[b].email
  }

  /** Every user is stored under its own id value. */
  ghost predicate KeysMatchIds(users: map<string, User>) {
    forall k :: k in users ==> users[k].id.value == k
  }

  /** The checks `create` makes before storing: the id first, then the email. */
  function CreateCheck(users: map<string, User>, user: User): (o: Outcome)
    ensures o.Pass? <==> user.id.value !in users && !EmailTaken(users, user.email)
    ensures user.id.value in users ==> o == Fail(IdTakenMessage(user.id.value))
    ensures user.id.value !in users && EmailTaken(users, user.email) ==> o == Fail(EmailTakenMessage(user.email))
  {
    if user.id.value in users then Fail(IdTakenMessage(user.id.value))
    else if EmailTaken(users, user.email) then Fail(EmailTakenMessage(user.email))
    else Pass
  }

  /** A store that meets both invariants keeps meeting them after a `create`
      that passes its checks. */
  lemma CreatePreservesInvariants(users: map<string, User>, user: User)
    requires EmailsDistinct(users) && KeysMatchIds(users)
    requires CreateCheck(users, user).Pass?
    ensures EmailsDistinct(users[user.id.value := user]) && KeysMatchIds(users[user.id.value := user])
  {
    var m := users[user.id.value := user];
    forall a, b | a in m && b in m && a != b
      ensures m[a].email != m[b].email
    {
      if a == user.id.value {
        assert users[b].email != user.email;
      } else if b == user.id.value {
        assert users[a].email != user.email;
      }
    }
  }

  /** `update` does not check emails, so it can give two users the same email. */
  lemma UpdateMayDuplicateEmail()
    ensures exists users: map<string, User>, u: User ::
      EmailsDistinct(users) && KeysMatchIds(users) && u.id.value in users &&
      !EmailsDistinct(users[u.id.value := u])
  {
    var a := User(UserId("a"), "a@x.com", "A");
    var b := User(UserId("b"), "b@x.com", "B");
    var users := map["a" := a, "b" := b];
    var u := User(UserId("b"), "a@x.com", "B");
    var m := users["b" := u];
    assert m["a"].email == m["b"].email;
    assert EmailsDistinct(users) && KeysMatchIds(users) && u.id.value in users && !EmailsDistinct(users[u.id.value := u]);
  }

  /** `s` without the element `k`, order kept. */
  function Without(s: seq<string>, k: string): (r: seq<string>)
    ensures forall x :: x in r <==> x in s && x != k
    ensures Distinct(s) ==> Distinct(r)
  {
    if s == [] then []
    else if s[0] == k then Without(s[1..], k)
    else
      var rest := Without(s[1..], k);
      assert Distinct(s) ==> s[0] !in s[1..];
      [s[0]] + rest
  }

  class InMemoryUserRepository {
    /** The `users` Map. */
    var users: map<string, User>
    /** The Map's keys in insertion order, which is the order in which a
        JavaScript Map yields its values. */
    var order: seq<string>

    ghost predicate Valid()
      reads this
    {
      Distinct(order) && (forall k :: k in order <==> k in users)
    }

    constructor()
      ensures Valid() && users == map[] && order == []
    {
      users := map[];
      order := [];
    }

    /** The first stored user, in Map order, whose email equals `email`
        (`Array.from(this.users.values()).find(...)`). */
    method FirstWithEmail(email: string) returns (r: Option<User>)
      requires Valid()
      ensures r.None? <==> !EmailTaken(users, email)
      ensures r.Some? ==> exists i :: 0 <= i < |order| && r.value == users[order[i]] && r.value.email == email &&
                                      forall j :: 0 <= j < i ==> users[order[j]].email != email
    {
      var i := 0;
      while i < |order|
        invariant 0 <= i <= |order|
        invariant forall j :: 0 <= j < i ==> users[order[j]].email != email
      {
        if users[order[i]].email == email {
          return Some(users[order[i]]);
        }
        i := i + 1;
      }
      forall k | k in users ensures users[k].email != email {
        assert k in order;
      }
      return None;
    }

    /** `create`: the id must be new and then the email must be unused;
        otherwise nothing changes. On success exactly the entry
        `id.value -> user` is added and `user.id` is returned. */
    method Create(user: User) returns (r: Result<UserId>)
      requires Valid()
      modifies this
      ensures Valid()
      ensures r.Err? <==> CreateCheck(old(users), user).Fail?
      ensures r.Err? ==> r.message == CreateCheck(old(users), user).message && users == old(users) && order == old(order)
      ensures r.Ok? ==> r.value == user.id && users == old(users)[user.id.value := user] && order == old(order) + [user.id.value]
      ensures EmailsDistinct(old(users)) && KeysMatchIds(old(users)) ==> EmailsDistinct(users) && KeysMatchIds(users)
    {
      if user.id.value in users {
        return Err(IdTakenMessage(user.id.value));
      }
      var existing := FirstWithEmail(user.email);
      if existing.Some? {
        return Err(EmailTakenMessage(user.email));
      }
      if EmailsDistinct(users) && KeysMatchIds(users) {
        CreatePreservesInvariants(users, user);
      }
      users := users[user.id.value := user];
      order := order + [user.id.value];
      r := Ok(user.id);
    }

    /** `findById`: the stored user, or null. */
    function FindById(id: UserId): (r: Option<User>)
      reads this
      ensures r.Some? <==> id.value in users
      ensures r.Some? ==> r.value == users[id.value]
    {
      if id.value in users then Some(users[id.value]) else None
    }

    /** `findByEmail`: the first stored user whose email equals the
        lower-cased query, so a query differing only in ASCII case from a
        stored lower-case email finds it. */
    method FindByEmail(email: string) returns (r: Option<User>)
      requires Valid()
      ensures r.None? <==> !EmailTaken(users, ToLower(email))
      ensures r.Some? ==> exists i :: 0 <= i < |order| && r.value == users[order[i]] && r.value.email == ToLower(email) &&
                                      forall j :: 0 <= j < i ==> users[order[j]].email != ToLower(email)
    {
      r := FirstWithEmail(ToLower(email));
    }

    /** `exists`: whether the id value is a key. */
    function Exists(id: UserId): (b: bool)
      reads this
      ensures b <==> FindById(id).Some?
    {
      id.value in users
    }

    /** `findAll`: every stored user, each once, in Map order. */
    function FindAll(): (r: seq<User>)
      requires Valid()
      reads this
      ensures |r| == |order|
      ensures forall i :: 0 <= i < |order| ==> r[i] == users[order[i]]
      ensures forall u :: u in r <==> u in users.Values
    {
      var r := ValuesInOrder(order);
      assert forall u :: u in r <==> u in users.Values by {
        forall u ensures u in r <==> u in users.Values {
          if u in users.Values {
            var k :| k in users && users[k] == u;
            var i :| 0 <= i < |order| && order[i] == k;
            assert r[i] == u;
          }
        }
      }
      r
    }

    function ValuesInOrder(keys: seq<string>): (r: seq<User>)
      requires forall k :: k in keys ==> k in users
      reads this
      ensures |r| == |keys| && forall i :: 0 <= i < |keys| ==> r[i] == users[keys[i]]
    {
      if keys == [] then [] else [users[keys[0]]] + ValuesInOrder(keys[1..])
    }

    /** `update`: an unknown id fails with "not found"; otherwise only that
        entry is replaced, with no check of the email. */
    method Update(user: User) returns (o: Outcome)
      requires Valid()
      modifies this
      ensures Valid()
      ensures user.id.value !in old(users) ==> o == Fail(NotFoundMessage(user.id.value)) && users == old(users) && order == old(order)
      ensures user.id.value in old(users) ==> o == Pass && users == old(users)[user.id.value := user] && order == old(order)
    {
      if user.id.value !in users {
        return Fail(NotFoundMessage(user.id.value));
      }
      users := users[user.id.value := user];
      o := Pass;
    }

    /** `delete`: an unknown id fails with "not found"; otherwise only that
        key is removed. */
    method Delete(id: UserId) returns (o: Outcome)
      requires Valid()
      modifies this
      ensures Valid()
      ensures id.value !in old(users) ==> o == Fail(NotFoundMessage(id.value)) && users == old(users) && order == old(order)
      ensures id.value in old(users) ==> o == Pass && users == old(users) - {id.value} && order == Without(old(order), id.value)
    {
      if id.value !in users {
        return Fail(NotFoundMessage(id.value));
      }
      users := users - {id.value};
      order := Without(order, id.value);
      o := Pass;
    }
  }
}
