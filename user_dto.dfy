/** The JSON shapes of the user endpoints and of error replies
    (src/interfaces/http/dto/user.dto.ts). */
module UserDto {
  import opened Common
  import opened Strings
  import opened UserModel

  /** The request body of `POST /users`; a property the client left out is `None`. */
  datatype CreateUserRequestDto = CreateUserRequestDto(email: Option<string>, name: Option<string>, id: Option<string>)

  datatype CreateUserResponseDto = CreateUserResponseDto(id: string, location: string)

  datatype GetUserResponseDto = GetUserResponseDto(id: string, email: string, name: string)

  /** An error reply; the timestamp is the instant `new Date()` read. */
  datatype ErrorResponseDto = ErrorResponseDto(error: string, message: string, timestamp: Instant)

  const UsersPath := "/users/"

  /** `createUserResponseDto`: the id, and the location of the new resource. */
  function CreateUserResponse(userId: string): (d: CreateUserResponseDto)
    ensures d.id == userId
    ensures StartsWith(d.location, UsersPath) && d.location[|UsersPath|..] == userId
  {
    CreateUserResponseDto(userId, UsersPath + userId)
  }

  /** The id can be read back from the location by removing the prefix. */
  function IdFromLocation(location: string): (r: Option<string>)
    ensures r.Some? <==> StartsWith(location, UsersPath)
    ensures r.Some? ==> UsersPath + r.value == location
  {
    if StartsWith(location, UsersPath) then Some(location[|UsersPath|..]) else None
  }

  lemma LocationRoundTrip(userId: string)
    ensures IdFromLocation(CreateUserResponse(userId).location) == Some(userId)
  {
    assert (UsersPath + userId)[..|UsersPath|] == UsersPath;
  }

  /** Locations of different ids differ. */
  lemma LocationInjective(a: string, b: string)
    requires CreateUserResponse(a).location == CreateUserResponse(b).location
    ensures a == b
  {
    LocationRoundTrip(a);
    LocationRoundTrip(b);
  }

  /** `getUserResponseDto`: id value, email and name copied unchanged. */
  function GetUserResponse(user: User): (d: GetUserResponseDto)
    ensures d.id == user.id.value && d.email == user.email && d.name == user.name
  {
    GetUserResponseDto(user.id.value, user.email, user.name)
  }

  /** `createErrorResponseDto`: error and message as given, stamped with `now`. */
  function ErrorResponse(error: string, message: string, now: Instant): (d: ErrorResponseDto)
    ensures d.error == error && d.message == message && d.timestamp == now
  {
    ErrorResponseDto(error, message, now)
  }
}
