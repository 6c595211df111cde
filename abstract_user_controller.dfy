/** The framework-neutral user controller
    (src/interfaces/http/controllers/abstract-user.controller.ts): request
    checks, the use-case call, and the classification of the thrown error by
    the substrings of its message. */
module AbstractUserController {
  import opened Common
  import opened Strings
  import opened UserModel
  import opened UserRepository
  import opened Http
  import opened UserDto
  import CreateUserUseCase
  import GetUserUseCase

  /** What a `catch` block sees: an `Error` with its message, or some other value. */
  datatype Thrown = ErrorThrown(message: string) | NonErrorThrown

  const RequiredFieldsMessage := "Email and name are required"
  const IdRequiredMessage := "User ID is required"
  const UnexpectedMessage := "An unexpected error occurred"

  /** `res.status(status).json(createErrorResponseDto(error, message))`. */
  function ErrorReply(status: int, error: string, message: string, now: Instant): (reply: Reply)
    ensures reply.status == status && reply.headers == []
    ensures reply.body.ErrorDtoBody? && reply.body.dto == ErrorResponse(error, message, now)
  {
    Reply(status, [], ErrorDtoBody(ErrorResponse(error, message, now)))
  }

  /** `createUser`'s catch block: "already exists" is a conflict, checked
      first; "Invalid" or "cannot be empty" is a validation error; anything
      else, and anything that is not an `Error`, is a 500 that hides the
      message. */
  function CreateUserFailure(thrown: Thrown, now: Instant): (reply: Reply)
    ensures thrown.ErrorThrown? && Contains(thrown.message, "already exists") ==>
      reply == ErrorReply(409, "ConflictError", thrown.message, now)
    ensures (thrown.ErrorThrown? && !Contains(thrown.message, "already exists") &&
             (Contains(thrown.message, "Invalid") || Contains(thrown.message, "cannot be empty"))) ==>
      reply == ErrorReply(400, "ValidationError", thrown.message, now)
    ensures thrown.NonErrorThrown? ==> reply == ErrorReply(500, "InternalServerError", UnexpectedMessage, now)
    ensures (thrown.ErrorThrown? && !Contains(thrown.message, "already exists") &&
             !Contains(thrown.message, "Invalid") && !Contains(thrown.message, "cannot be empty")) ==>
      reply == ErrorReply(500, "InternalServerError", UnexpectedMessage, now)
  {
    if thrown.ErrorThrown? && Contains(thrown.message, "already exists") then
      ErrorReply(409, "ConflictError", thrown.message, now)
    else if thrown.ErrorThrown? && (Contains(thrown.message, "Invalid") || Contains(thrown.message, "cannot be empty")) then
      ErrorReply(400, "ValidationError", thrown.message, now)
    else
      ErrorReply(500, "InternalServerError", UnexpectedMessage, now)
  }

  /** `getUser`'s catch block: "not found" is checked before "cannot be
      empty"; "Invalid" is not mapped here. */
  function GetUserFailure(thrown: Thrown, now: Instant): (reply: Reply)
    ensures thrown.ErrorThrown? && Contains(thrown.message, "not found") ==>
      reply == ErrorReply(404, "NotFoundError", thrown.message, now)
    ensures thrown.ErrorThrown? && !Contains(thrown.message, "not found") && Contains(thrown.message, "cannot be empty") ==>
      reply == ErrorReply(400, "ValidationError", thrown.message, now)
    ensures (thrown.NonErrorThrown? ||
             (!Contains(thrown.message, "not found") && !Contains(thrown.message, "cannot be empty"))) ==>
      reply == ErrorReply(500, "InternalServerError", UnexpectedMessage, now)
  {
    if thrown.ErrorThrown? && Contains(thrown.message, "not found") then
      ErrorReply(404, "NotFoundError", thrown.message, now)
    else if thrown.ErrorThrown? && Contains(thrown.message, "cannot be empty") then
      ErrorReply(400, "ValidationError", thrown.message, now)
    else
      ErrorReply(500, "InternalServerError", UnexpectedMessage, now)
  }

  /** `!requestDto.email || !requestDto.name`. */
  predicate MissingFields(body: CreateUserRequestDto) {
    !Truthy(body.email) || !Truthy(body.name)
  }

  /** The body, once both fields are known to be present, as the use case's request. */
  function RequestOf(body: CreateUserRequestDto): (request: CreateUserUseCase.CreateUserRequest)
    requires !MissingFields(body)
    ensures request.email == body.email.value && request.name == body.name.value && request.id == body.id
  {
    CreateUserUseCase.CreateUserRequest(body.email.value, body.name.value, body.id)
  }

  /** The whole of `createUser` against the store `users`. */
  function CreateUserReply(users: map<string, User>, body: CreateUserRequestDto, generated: string, now: Instant): (reply: Reply)
  {
    if MissingFields(body) then ErrorReply(400, "ValidationError", RequiredFieldsMessage, now)
    else
      var d := CreateUserUseCase.Decide(users, RequestOf(body), generated);
      if d.Ok? then
        var dto := CreateUserResponse(d.value.id.value);
        Reply(201, [("Location", dto.location)], CreatedBody(dto))
      else CreateUserFailure(ErrorThrown(d.message), now)
  }

  /** `createUser`: the response written, and the store changed only by a
      successful use case. `clock` and `random` feed the id generator; `now`
      stamps error bodies. */
  method CreateUser(repo: InMemoryUserRepository, body: CreateUserRequestDto, res: HttpResponse,
                    clock: nat, random: string, now: Instant)
    requires repo.Valid()
    modifies repo, res
    ensures repo.Valid()
    ensures res.Holds(CreateUserReply(old(repo.users), body, CreateUserUseCase.GeneratedId(clock, random), now), old(res.headers))
    ensures MissingFields(body) ==> repo.users == old(repo.users) && repo.order == old(repo.order)
    ensures !MissingFields(body) ==>
      var d := CreateUserUseCase.Decide(old(repo.users), RequestOf(body), CreateUserUseCase.GeneratedId(clock, random));
      && (d.Err? ==> repo.users == old(repo.users) && repo.order == old(repo.order))
      && (d.Ok? ==> repo.users == old(repo.users)[d.value.id.value := d.value] && repo.order == old(repo.order) + [d.value.id.value])
  {
    if MissingFields(body) {
      res.Send(ErrorReply(400, "ValidationError", RequiredFieldsMessage, now));
      return;
    }
    var result := CreateUserUseCase.Execute(repo, RequestOf(body), clock, random);
    if result.Ok? {
      var responseDto := CreateUserResponse(result.value.value);
      res.Status(201);
      res.Header("Location", responseDto.location);
      res.Json(CreatedBody(responseDto));
    } else {
      res.Send(CreateUserFailure(ErrorThrown(result.message), now));
    }
  }

  /** The whole of `getUser` against the repository. */
  function GetUserReply(repo: InMemoryUserRepository, params: map<string, string>, now: Instant): (reply: Reply)
    reads repo
  {
    var userId := Lookup(params, "id");
    if !Truthy(userId) then ErrorReply(400, "ValidationError", IdRequiredMessage, now)
    else
      var result := GetUserUseCase.Execute(repo, userId.value);
      if result.Ok? then Reply(200, [], UserBody(GetUserResponse(result.value)))
      else GetUserFailure(ErrorThrown(result.message), now)
  }

  /** `getUser`: writes the reply; the store is only read. */
  method GetUser(repo: InMemoryUserRepository, params: map<string, string>, res: HttpResponse, now: Instant)
    modifies res
    ensures res.Holds(GetUserReply(repo, params, now), old(res.headers))
  {
    var userId := Lookup(params, "id");
    if !Truthy(userId) {
      res.Send(ErrorReply(400, "ValidationError", IdRequiredMessage, now));
      return;
    }
    var result := GetUserUseCase.Execute(repo, userId.value);
    if result.Ok? {
      res.Status(200);
      res.Json(UserBody(GetUserResponse(result.value)));
    } else {
      res.Send(GetUserFailure(ErrorThrown(result.message), now));
    }
  }

  // How the messages the domain and the repository produce are classified.

  lemma ValidationMessagesClassified()
    ensures Contains(IdEmptyMessage, "cannot be empty") && !Contains(IdEmptyMessage, "already exists")
    ensures Contains(InvalidEmailMessage, "Invalid") && !Contains(InvalidEmailMessage, "already exists")
    ensures Contains(NameEmptyMessage, "cannot be empty") && !Contains(NameEmptyMessage, "already exists")
    ensures !Contains(IdEmptyMessage, "not found")
  {
    IdEmptyClassified();
    InvalidEmailClassified();
    NameEmptyClassified();
  }

  lemma IdEmptyClassified()
    ensures Contains(IdEmptyMessage, "cannot be empty")
    ensures !Contains(IdEmptyMessage, "already exists") && !Contains(IdEmptyMessage, "not found")
  {
    assert OccursAt(IdEmptyMessage, "cannot be empty", 8);
    NotContainsChar(IdEmptyMessage, "already exists", 'x');
    NotContainsChar(IdEmptyMessage, "not found", 'f');
  }

  lemma InvalidEmailClassified()
    ensures Contains(InvalidEmailMessage, "Invalid")
    ensures !Contains(InvalidEmailMessage, "already exists") && !Contains(InvalidEmailMessage, "not found")
    ensures !Contains(InvalidEmailMessage, "cannot be empty")
  {
    assert OccursAt(InvalidEmailMessage, "Invalid", 0);
    InvalidEmailLacks("already exists", 'x');
    InvalidEmailLacks("not found", 'f');
    InvalidEmailLacks("cannot be empty", 'c');
  }

  lemma InvalidEmailLacks(phrase: string, c: char)
    requires c in phrase && (c == 'x' || c == 'f' || c == 'c')
    ensures !Contains(InvalidEmailMessage, phrase)
  {
    NotContainsChar(InvalidEmailMessage, phrase, c);
  }

  lemma NameEmptyClassified()
    ensures Contains(NameEmptyMessage, "cannot be empty") && !Contains(NameEmptyMessage, "already exists")
  {
    assert OccursAt(NameEmptyMessage, "cannot be empty", 5);
    NotContainsChar(NameEmptyMessage, "already exists", 'x');
  }

  lemma NotFoundClassified(id: string)
    ensures Contains(NotFoundMessage(id), "not found")
  {
    ContainsSuffix("User with ID " + id + " ", "not found");
    assert NotFoundMessage(id) == ("User with ID " + id + " ") + "not found";
  }

  /** With the in-memory repository, `createUser` answers 201 exactly when
      the use case succeeds, 409 exactly when it reports a taken id or email,
      and 400 otherwise; it never answers 500. */
  lemma CreateUserOutcomes(users: map<string, User>, body: CreateUserRequestDto, generated: string, now: Instant)
    ensures var r := CreateUserReply(users, body, generated, now);
      && (r.status == 201 || r.status == 400 || r.status == 409)
      && (r.status == 201 <==> !MissingFields(body) && CreateUserUseCase.Decide(users, RequestOf(body), generated).Ok?)
      && (r.status == 409 <==> !MissingFields(body) && CreateUserUseCase.Decide(users, RequestOf(body), generated).Err? &&
                               CreateUserUseCase.ConflictMessage(CreateUserUseCase.Decide(users, RequestOf(body), generated).message))
  {
    if !MissingFields(body) {
      var d := CreateUserUseCase.Decide(users, RequestOf(body), generated);
      if d.Err? {
        var r := CreateUserReply(users, body, generated, now);
        assert r == CreateUserFailure(ErrorThrown(d.message), now);
        CreateUserUseCase.DecideErrorKinds(users, RequestOf(body), generated);
        if CreateUserUseCase.ConflictMessage(d.message) {
          var x :| d.message == IdTakenMessage(x) || d.message == EmailTakenMessage(x);
          if d.message == IdTakenMessage(x) {
            CreateUserUseCase.IdTakenConflicts(x);
          } else {
            CreateUserUseCase.EmailTakenConflicts(x);
          }
          assert r.status == 409;
        } else {
          ValidationMessagesClassified();
          assert d.message == IdEmptyMessage || d.message == InvalidEmailMessage || d.message == NameEmptyMessage;
          assert r.status == 400;
        }
      }
    }
  }

  /** On success the Location header and the body agree and name the new id. */
  lemma CreatedLocation(users: map<string, User>, body: CreateUserRequestDto, generated: string, now: Instant)
    requires CreateUserReply(users, body, generated, now).status == 201
    ensures var r := CreateUserReply(users, body, generated, now);
      var u := CreateUserUseCase.Decide(users, RequestOf(body), generated).value;
      && r.headers == [("Location", "/users/" + u.id.value)]
      && r.body == CreatedBody(CreateUserResponseDto(u.id.value, "/users/" + u.id.value))
  {
    CreateUserOutcomes(users, body, generated, now);
  }

  /** With the in-memory repository, `getUser` answers 200 with the stored
      user, 404 for an unknown trimmed id, and 400 for a missing or blank id;
      never 500. */
  lemma GetUserOutcomes(repo: InMemoryUserRepository, params: map<string, string>, now: Instant)
    ensures var r := GetUserReply(repo, params, now);
      var id := Lookup(params, "id");
      && (r.status == 200 || r.status == 400 || r.status == 404)
      && (r.status == 200 <==> Truthy(id) && !AllWhitespace(id.value) && Trim(id.value) in repo.users)
      && (r.status == 404 <==> Truthy(id) && !AllWhitespace(id.value) && Trim(id.value) !in repo.users)
      && (r.status == 200 ==> r.body == UserBody(GetUserResponse(repo.users[Trim(id.value)])))
  {
    var id := Lookup(params, "id");
    if Truthy(id) {
      ValidationMessagesClassified();
      if !AllWhitespace(id.value) && Trim(id.value) !in repo.users {
        NotFoundClassified(Trim(id.value));
      }
    }
  }

  /** "Invalid" is a validation error for `createUser` but not for `getUser`. */
  lemma InvalidOnlyMappedOnCreate(now: Instant)
    ensures CreateUserFailure(ErrorThrown(InvalidEmailMessage), now).status == 400
    ensures GetUserFailure(ErrorThrown(InvalidEmailMessage), now).status == 500
  {
    InvalidEmailClassified();
  }
}
