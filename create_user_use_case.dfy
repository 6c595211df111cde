/** Creating a user: choose the id, refuse a taken id, then a taken email,
    validate, and persist (src/application/use-case/create-user.use-case.ts).
    The container wires the same in-memory repository as both the command
    and the query repository, so one store stands for both. */
module CreateUserUseCase {
  import opened Common
  import opened Strings
  import opened UserModel
  import opened UserRepository

  datatype CreateUserRequest = CreateUserRequest(email: string, name: string, id: Option<string>)

  /** `generateId`: "user_<Date.now()>_<random base-36 digits>", with the
      clock reading and the random digits as parameters. */
  function GeneratedId(clock: nat, random: string): (s: string)
  {
    "user_" + NatToString(clock) + "_" + random
  }

  /** A generated id never fails validation and is kept as generated when
      the random part does not end in whitespace (base-36 digits never do). */
  lemma GeneratedIdIsValid(clock: nat, random: string)
    ensures CreateUserId(GeneratedId(clock, random)).Ok?
    ensures random == [] || !IsWhitespace(random[|random| - 1]) ==>
      CreateUserId(GeneratedId(clock, random)).value.value == GeneratedId(clock, random)
  {
    var front := "user_" + NatToString(clock) + "_";
    var g := front + random;
    assert g == GeneratedId(clock, random);
    assert g[0] == 'u';
    assert !AllWhitespace(g);
    if random == [] || !IsWhitespace(random[|random| - 1]) {
      if random == [] {
        assert g == front;
        assert g[|g| - 1] == '_';
      } else {
        assert g[|g| - 1] == random[|random| - 1];
      }
      TrimUnchanged(g);
    }
  }

  /** The id `execute` validates: the request's when it is truthy (so an
      empty string also falls back to a generated one), else the generated one. */
  function ChosenId(request: CreateUserRequest, generated: string): (r: Result<UserId>)
    ensures Truthy(request.id) ==> r == CreateUserId(request.id.value)
    ensures !Truthy(request.id) ==> r == CreateUserId(generated)
  {
    if request.id.Some? && request.id.value != "" then CreateUserId(request.id.value) else CreateUserId(generated)
  }

  /** What `execute` decides against the store `users`: the error it throws,
      or the user that the repository's `create` accepts and stores. */
  function Decide(users: map<string, User>, request: CreateUserRequest, generated: string): (r: Result<User>)
  {
    var chosen := ChosenId(request, generated);
    if chosen.Err? then Err(chosen.message)
    else if chosen.value.value in users then Err(IdTakenMessage(chosen.value.value))
    else if EmailTaken(users, ToLower(request.email)) then Err(EmailTakenMessage(request.email))
    else
      var user := CreateUser(chosen.value, request.email, request.name);
      if user.Err? then Err(user.message)
      else
        var check := CreateCheck(users, user.value);
        if check.Fail? then Err(check.message) else Ok(user.value)
  }

  /** The order of the checks: id validation first (it needs no lookup),
      then the id lookup whatever the email and name are, then the email
      lookup, which reports the email as the request spelled it. */
  lemma DecideCheckOrder(users: map<string, User>, request: CreateUserRequest, generated: string)
    ensures var chosen := ChosenId(request, generated);
      && (chosen.Err? ==> Decide(users, request, generated) == Err(IdEmptyMessage))
      && (chosen.Ok? && chosen.value.value in users ==>
            Decide(users, request, generated) == Err(IdTakenMessage(chosen.value.value)))
      && (chosen.Ok? && chosen.value.value !in users && EmailTaken(users, ToLower(request.email)) ==>
            Decide(users, request, generated) == Err(EmailTakenMessage(request.email)))
  {
  }

  /** Only a validated user, under the chosen id, with an id and an email no
      stored user has, is ever handed to the repository and stored. */
  lemma DecideStoresOnlyValid(users: map<string, User>, request: CreateUserRequest, generated: string)
    requires Decide(users, request, generated).Ok?
    ensures var u := Decide(users, request, generated).value;
      && u.id == ChosenId(request, generated).value
      && u == CreateUser(u.id, request.email, request.name).value
      && ValidUser(u)
      && u.id.value !in users && !EmailTaken(users, u.email)
  {
    var chosen := ChosenId(request, generated);
    assert chosen.Ok? && chosen.value.value !in users;
    var user := CreateUser(chosen.value, request.email, request.name);
    assert user.Ok? && CreateCheck(users, user.value).Pass?;
    assert Decide(users, request, generated) == Ok(user.value);
    CreatedUserIsValid(chosen.value, request.email, request.name);
  }

  /** A conflict message: an id or an email that is already taken. */
  ghost predicate ConflictMessage(m: string) {
    exists x :: m == IdTakenMessage(x) || m == EmailTakenMessage(x)
  }

  /** Every way `execute` can fail: one of the three validation messages of
      the domain, or a conflict. */
  lemma DecideErrorKinds(users: map<string, User>, request: CreateUserRequest, generated: string)
    requires Decide(users, request, generated).Err?
    ensures var m := Decide(users, request, generated).message;
      m == IdEmptyMessage || m == InvalidEmailMessage || m == NameEmptyMessage || ConflictMessage(m)
  {
    var chosen := ChosenId(request, generated);
    if chosen.Err? {
    } else if chosen.value.value in users {
      DecideIdTaken(users, request, generated);
      assert Decide(users, request, generated).message == IdTakenMessage(chosen.value.value);
    } else if EmailTaken(users, ToLower(request.email)) {
      DecideEmailTaken(users, request, generated);
      assert Decide(users, request, generated).message == EmailTakenMessage(request.email);
    } else {
      var user := CreateUser(chosen.value, request.email, request.name);
      if user.Ok? {
        var check := CreateCheck(users, user.value);
        assert check.message == IdTakenMessage(user.value.id.value) || check.message == EmailTakenMessage(user.value.email);
      }
    }
  }

  /** `execute`, against the in-memory repository: on failure the store is
      unchanged; on success it holds exactly one more entry, and the result
      is the id the repository's `create` returned. */
  method Execute(repo: InMemoryUserRepository, request: CreateUserRequest, clock: nat, random: string)
    returns (r: Result<UserId>)
    requires repo.Valid()
    modifies repo
    ensures repo.Valid()
    ensures var d := Decide(old(repo.users), request, GeneratedId(clock, random));
      && (d.Err? ==> r == Err(d.message) && repo.users == old(repo.users) && repo.order == old(repo.order))
      && (d.Ok? ==> && r == Ok(d.value.id)
                    && repo.users == old(repo.users)[d.value.id.value := d.value]
                    && repo.order == old(repo.order) + [d.value.id.value])
  {
    var userId: UserId;
    if request.id.Some? && request.id.value != "" {
      var chosen := CreateUserId(request.id.value);
      if chosen.Err? {
        return Err(chosen.message);
      }
      userId := chosen.value;
    } else {
      var chosen := CreateUserId(GeneratedId(clock, random));
      if chosen.Err? {
        return Err(chosen.message);
      }
      userId := chosen.value;
    }

    var existingUser := repo.FindById(userId);
    if existingUser.Some? {
      return Err(IdTakenMessage(userId.value));
    }

    var existingUserByEmail := repo.FindByEmail(request.email);
    if existingUserByEmail.Some? {
      return Err(EmailTakenMessage(request.email));
    }

    var user := CreateUser(userId, request.email, request.name);
    if user.Err? {
      return Err(user.message);
    }
    var createdUserId := repo.Create(user.value);
    if createdUserId.Err? {
      return Err(createdUserId.message);
    }
    r := Ok(createdUserId.value);
  }

  lemma DecideIdTaken(users: map<string, User>, request: CreateUserRequest, generated: string)
    requires ChosenId(request, generated).Ok?
    requires ChosenId(request, generated).value.value in users
    ensures Decide(users, request, generated) == Err(IdTakenMessage(ChosenId(request, generated).value.value))
  {
  }

  lemma DecideEmailTaken(users: map<string, User>, request: CreateUserRequest, generated: string)
    requires ChosenId(request, generated).Ok?
    requires ChosenId(request, generated).value.value !in users
    requires EmailTaken(users, ToLower(request.email))
    ensures Decide(users, request, generated) == Err(EmailTakenMessage(request.email))
  {
  }

  lemma DecideStoredEmailTaken(users: map<string, User>, request: CreateUserRequest, generated: string)
    requires ChosenId(request, generated).Ok?
    requires ChosenId(request, generated).value.value !in users
    requires !EmailTaken(users, ToLower(request.email))
    requires CreateUser(ChosenId(request, generated).value, request.email, request.name).Ok?
    requires EmailTaken(users, CreateUser(ChosenId(request, generated).value, request.email, request.name).value.email)
    ensures Decide(users, request, generated) ==
      Err(EmailTakenMessage(CreateUser(ChosenId(request, generated).value, request.email, request.name).value.email))
  {
  }

  /** When the id validates and the user it would create has an email some
      stored user already has, `execute` fails with an "already exists"
      conflict: raised by the use case's own lookups or by the repository. */
  lemma DecideConflict(users: map<string, User>, request: CreateUserRequest, generated: string)
    requires ChosenId(request, generated).Ok?
    requires CreateUser(ChosenId(request, generated).value, request.email, request.name).Ok?
    requires EmailTaken(users, CreateUser(ChosenId(request, generated).value, request.email, request.name).value.email)
    ensures Decide(users, request, generated).Err?
    ensures Contains(Decide(users, request, generated).message, "already exists")
  {
    var id := ChosenId(request, generated).value;
    if id.value in users {
      DecideIdTaken(users, request, generated);
      IdTakenConflicts(id.value);
    } else if EmailTaken(users, ToLower(request.email)) {
      DecideEmailTaken(users, request, generated);
      EmailTakenConflicts(request.email);
    } else {
      DecideStoredEmailTaken(users, request, generated);
      EmailTakenConflicts(CreateUser(id, request.email, request.name).value.email);
    }
  }

  lemma IdTakenConflicts(id: string)
    ensures Contains(IdTakenMessage(id), "already exists")
  {
    ContainsSuffixOf("User with ID " + id, " already exists", "already exists");
  }

  lemma EmailTakenConflicts(email: string)
    ensures Contains(EmailTakenMessage(email), "already exists")
  {
    ContainsSuffixOf("User with email " + email, " already exists", "already exists");
  }

  /** Running the same request a second time against the store the first run
      produced fails with an "already exists" conflict, whatever id the second
      run would generate. */
  lemma RepeatConflicts(users: map<string, User>, request: CreateUserRequest, g1: string, clock: nat, random: string)
    requires Decide(users, request, g1).Ok?
    ensures var u := Decide(users, request, g1).value;
      var again := Decide(users[u.id.value := u], request, GeneratedId(clock, random));
      again.Err? && Contains(again.message, "already exists")
  {
    var u := Decide(users, request, g1).value;
    DecideStoresOnlyValid(users, request, g1);
    var m := users[u.id.value := u];
    var g2 := GeneratedId(clock, random);
    GeneratedIdIsValid(clock, random);
    var id2 := ChosenId(request, g2).value;
    assert CreateUser(id2, request.email, request.name).value.email == u.email;
    assert m[u.id.value].email == u.email;
    DecideConflict(m, request, g2);
  }

  lemma ContainsSuffixOf(front: string, tail: string, sub: string)
    requires |sub| <= |tail| && tail[|tail| - |sub|..] == sub
    ensures Contains(front + tail, sub)
  {
    var s := front + tail;
    assert OccursAt(s, sub, |s| - |sub|);
  }

  /** The use case looks the email up as given (only lower-cased), while the
      repository compares the trimmed email. So a request whose email is a
      stored user's email with leading whitespace passes the use case's own
      lookup and is refused by the repository's `create`, whose message names
      the stored email rather than the one the request spelled. */
  lemma PaddedDuplicateRefusedByRepository(users: map<string, User>, request: CreateUserRequest, generated: string, k: string, c: char)
    requires forall j :: j in users ==> ValidUser(users[j])
    requires ChosenId(request, generated).Ok? && ChosenId(request, generated).value.value !in users
    requires k in users && IsWhitespace(c) && request.email == [c] + users[k].email
    requires !AllWhitespace(request.name)
    ensures Decide(users, request, generated) == Err(EmailTakenMessage(users[k].email))
  {
    PaddedNotStored(users, users[k].email, c);
    PaddedNormalises(users[k], c);
    DecideStoredEmailTaken(users, request, generated);
  }

  /** No stored email starts with whitespace, so the lower-cased padded
      spelling matches none of them. */
  lemma PaddedNotStored(users: map<string, User>, e: string, c: char)
    requires forall j :: j in users ==> ValidUser(users[j])
    requires IsWhitespace(c)
    ensures !EmailTaken(users, ToLower([c] + e))
  {
    var lowered := ToLower([c] + e);
    assert lowered[0] == c;
    forall j | j in users ensures users[j].email != lowered {
      var x := users[j].email;
      assert '@' in x && Trim(x) == x;
    }
  }

  /** The padded spelling of a stored user's email still has its '@' and
      normalises back to the stored email. */
  lemma PaddedNormalises(u: User, c: char)
    requires ValidUser(u) && IsWhitespace(c)
    ensures '@' in [c] + u.email
    ensures ToLower(Trim([c] + u.email)) == u.email
  {
    PaddedKeepsAt(u.email, c);
    TrimLeading(c, u.email);
  }

  lemma PaddedKeepsAt(e: string, c: char)
    requires '@' in e
    ensures '@' in [c] + e
  {
    var i :| 0 <= i < |e| && e[i] == '@';
    assert ([c] + e)[i + 1] == '@';
  }
}
