/** The Express user controller (src/interfaces/http/controllers/user.controller.ts),
    written out as its own sequence of early returns. Its contracts are the
    framework-neutral controller's decision functions, so each proof shows
    the two controllers answer every request alike. */
module UserController {
  import opened Common
  import opened Strings
  import opened UserModel
  import opened UserRepository
  import opened Http
  import opened UserDto
  import CreateUserUseCase
  import GetUserUseCase
  import AbstractUserController

  method CreateUser(repo: InMemoryUserRepository, body: CreateUserRequestDto, res: HttpResponse,
                    clock: nat, random: string, now: Instant)
    requires repo.Valid()
    modifies repo, res
    ensures repo.Valid()
    ensures res.Holds(AbstractUserController.CreateUserReply(old(repo.users), body, CreateUserUseCase.GeneratedId(clock, random), now),
                      old(res.headers))
    ensures AbstractUserController.MissingFields(body) ==> repo.users == old(repo.users) && repo.order == old(repo.order)
    ensures !AbstractUserController.MissingFields(body) ==>
      var d := CreateUserUseCase.Decide(old(repo.users), AbstractUserController.RequestOf(body), CreateUserUseCase.GeneratedId(clock, random));
      && (d.Err? ==> repo.users == old(repo.users) && repo.order == old(repo.order))
      && (d.Ok? ==> repo.users == old(repo.users)[d.value.id.value := d.value] && repo.order == old(repo.order) + [d.value.id.value])
  {
    if body.email.None? || body.email.value == "" || body.name.None? || body.name.value == "" {
      res.Status(400);
      res.Json(ErrorDtoBody(ErrorResponse("ValidationError", "Email and name are required", now)));
      return;
    }
    var request := CreateUserUseCase.CreateUserRequest(body.email.value, body.name.value, body.id);
    var result := CreateUserUseCase.Execute(repo, request, clock, random);
    if result.Ok? {
      var responseDto := CreateUserResponse(result.value.value);
      res.Status(201);
      res.Header("Location", responseDto.location);
      res.Json(CreatedBody(responseDto));
      return;
    }
    var message := result.message;
    if Contains(message, "already exists") {
      res.Status(409);
      res.Json(ErrorDtoBody(ErrorResponse("ConflictError", message, now)));
      return;
    }
    if Contains(message, "Invalid") || Contains(message, "cannot be empty") {
      res.Status(400);
      res.Json(ErrorDtoBody(ErrorResponse("ValidationError", message, now)));
      return;
    }
    res.Status(500);
    res.Json(ErrorDtoBody(ErrorResponse("InternalServerError", "An unexpected error occurred", now)));
  }

  method GetUser(repo: InMemoryUserRepository, params: map<string, string>, res: HttpResponse, now: Instant)
    modifies res
    ensures res.Holds(AbstractUserController.GetUserReply(repo, params, now), old(res.headers))
  {
    if "id" !in params || params["id"] == "" {
      res.Status(400);
      res.Json(ErrorDtoBody(ErrorResponse("ValidationError", "User ID is required", now)));
      return;
    }
    var result := GetUserUseCase.Execute(repo, params["id"]);
    if result.Ok? {
      res.Status(200);
      res.Json(UserBody(GetUserResponse(result.value)));
      return;
    }
    var message := result.message;
    if Contains(message, "not found") {
      res.Status(404);
      res.Json(ErrorDtoBody(ErrorResponse("NotFoundError", message, now)));
      return;
    }
    if Contains(message, "cannot be empty") {
      res.Status(400);
      res.Json(ErrorDtoBody(ErrorResponse("ValidationError", message, now)));
      return;
    }
    res.Status(500);
    res.Json(ErrorDtoBody(ErrorResponse("InternalServerError", "An unexpected error occurred", now)));
  }
}
