/** Looking a user up by id (src/application/use-case/get-user.use-case.ts):
    validate the id, look the trimmed value up, fail when nothing is stored. */
module GetUserUseCase {
  import opened Common
  import opened Strings
  import opened UserModel
  import opened UserRepository
  import CreateUserUseCase

  /** `execute`: an empty or all-whitespace id fails before any lookup; the
      lookup is by the trimmed id; a miss fails with "not found" naming the
      trimmed id; a hit returns the stored user as it is. It only reads the
      repository. */
  function Execute(repo: InMemoryUserRepository, userId: string): (r: Result<User>)
    reads repo
    ensures AllWhitespace(userId) ==> r == Err(IdEmptyMessage)
    ensures !AllWhitespace(userId) && Trim(userId) in repo.users ==> r == Ok(repo.users[Trim(userId)])
    ensures !AllWhitespace(userId) && Trim(userId) !in repo.users ==> r == Err(NotFoundMessage(Trim(userId)))
  {
    var id := CreateUserId(userId);
    if id.Err? then Err(id.message)
    else
      var user := repo.FindById(id.value);
      if user.None? then Err(NotFoundMessage(id.value.value)) else Ok(user.value)
  }

  /** The id check happens before the lookup: for an empty or all-whitespace
      id the stored users make no difference. */
  lemma EmptyIdIgnoresStore(a: InMemoryUserRepository, b: InMemoryUserRepository, userId: string)
    requires AllWhitespace(userId)
    ensures Execute(a, userId) == Execute(b, userId) == Err(IdEmptyMessage)
  {
  }

  /** Surrounding whitespace in the requested id does not change the answer. */
  lemma PaddingIgnored(repo: InMemoryUserRepository, userId: string, c: char)
    requires IsWhitespace(c)
    ensures Execute(repo, [c] + userId) == Execute(repo, userId)
  {
    var padded := [c] + userId;
    TrimLeading(c, userId);
    if AllWhitespace(userId) {
      assert AllWhitespace(padded);
    } else if Trim(userId) in repo.users {
      assert Execute(repo, padded) == Ok(repo.users[Trim(padded)]);
    } else {
      assert Execute(repo, padded) == Err(NotFoundMessage(Trim(padded)));
    }
  }

  /** After a successful create, asking for the created id returns exactly the
      user that was stored. */
  lemma {:induction false} GetAfterCreate(repo: InMemoryUserRepository, users: map<string, User>,
                                          request: CreateUserUseCase.CreateUserRequest, generated: string)
    requires CreateUserUseCase.Decide(users, request, generated).Ok?
    requires var u := CreateUserUseCase.Decide(users, request, generated).value;
      repo.users == users[u.id.value := u]
    ensures var u := CreateUserUseCase.Decide(users, request, generated).value;
      Execute(repo, u.id.value) == Ok(u)
  {
    var u := CreateUserUseCase.Decide(users, request, generated).value;
    CreateUserUseCase.DecideStoresOnlyValid(users, request, generated);
    var raw := CreateUserUseCase.ChosenId(request, generated);
    var source := if Truthy(request.id) then request.id.value else generated;
    assert raw == CreateUserId(source);
    CreateUserIdIdempotent(source);
    assert CreateUserId(u.id.value) == Ok(u.id);
  }
}
