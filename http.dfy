/** The framework-neutral HTTP contract the handlers are written against
    (src/interfaces/http/adapters/server.adapter.ts): the response builder,
    route definitions, and the adapter's route table. */
module Http {
  import opened Common
  import UserDto
  import HealthDto

  datatype Method = GET | POST | PUT | DELETE | PATCH

  /** The `endpoints`, `message` and `version` of the root route's reply. */
  datatype ApiInfo = ApiInfo(message: string, version: string, endpoints: seq<(string, string)>)

  /** The JSON bodies the core sends. */
  datatype Body =
    | ErrorDtoBody(dto: UserDto.ErrorResponseDto)
    | PlainErrorBody(error: string, message: string)
    | CreatedBody(created: UserDto.CreateUserResponseDto)
    | UserBody(user: UserDto.GetUserResponseDto)
    | HealthBody(health: HealthDto.HealthResponseDto)
    | ApiInfoBody(info: ApiInfo)

  /** What a handler writes: a status, the headers it adds (in order) and a JSON body. */
  datatype Reply = Reply(status: int, headers: seq<(string, string)>, body: Body)

  /** The `HttpResponse` builder: `status` and `header` return the same
      response for chaining, `json` sends the body. */
  class HttpResponse {
    var statusCode: int
    var headers: seq<(string, string)>
    var body: Option<Body>

    /** A fresh response: status 200, no headers, nothing sent. */
    constructor()
      ensures statusCode == 200 && headers == [] && body == None
    {
      statusCode := 200;
      headers := [];
      body := None;
    }

    method Status(code: int)
      modifies this
      ensures statusCode == code && headers == old(headers) && body == old(body)
    {
      statusCode := code;
    }

    method Header(name: string, value: string)
      modifies this
      ensures headers == old(headers) + [(name, value)]
      ensures statusCode == old(statusCode) && body == old(body)
    {
      headers := headers + [(name, value)];
    }

    method Json(data: Body)
      modifies this
      ensures body == Some(data)
      ensures statusCode == old(statusCode) && headers == old(headers)
    {
      body := Some(data);
    }

    /** The response carries `reply`, on top of the headers `before`. */
    ghost predicate Holds(reply: Reply, before: seq<(string, string)>)
      reads this
    {
      statusCode == reply.status && headers == before + reply.headers && body == Some(reply.body)
    }

    /** `res.status(s).header(...)...json(b)`. */
    method Send(reply: Reply)
      modifies this
      ensures Holds(reply, old(headers))
    {
      Status(reply.status);
      var i := 0;
      while i < |reply.headers|
        invariant 0 <= i <= |reply.headers|
        invariant statusCode == reply.status
        invariant headers == old(headers) + reply.headers[..i]
      {
        Header(reply.headers[i].0, reply.headers[i].1);
        i := i + 1;
      }
      Json(reply.body);
    }
  }

  /** The handlers the core registers. */
  datatype Handler = CreateUserHandler | GetUserHandler | GetHealthHandler | ApiInfoHandler

  /** The middleware the core registers: the Basic-auth check. */
  datatype Middleware = BasicAuthMiddleware

  /** `RouteDefinition`; `middleware` is `None` when the property is absent. */
  datatype RouteDefinition = RouteDefinition(verb: Method, path: string, handler: Handler, middleware: Option<seq<Middleware>>)

  /** A `ServerAdapter` seen through `addRoute`: the routes registered, in order. */
  class ServerAdapter {
    var routes: seq<RouteDefinition>

    constructor()
      ensures routes == []
    {
      routes := [];
    }

    method AddRoute(route: RouteDefinition)
      modifies this
      ensures routes == old(routes) + [route]
    {
      routes := routes + [route];
    }
  }

  /** The value of a header or route parameter, or `None` (`undefined`) when absent. */
  function Lookup(entries: map<string, string>, key: string): (v: Option<string>)
    ensures v.Some? <==> key in entries
    ensures v.Some? ==> v.value == entries[key]
  {
    if key in entries then Some(entries[key]) else None
  }
}
