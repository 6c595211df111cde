/** The route lists the framework-neutral server registers
    (src/interfaces/http/routes/abstract-user.routes.ts and
    src/interfaces/http/routes/abstract-health.routes.ts). */
module Routes {
  import opened Common
  import opened Http

  /** `createUserRoutes`: create, then fetch by id; no middleware of their own. */
  function CreateUserRoutes(): (r: seq<RouteDefinition>)
    ensures |r| == 2
    ensures r[0].verb == POST && r[0].path == "/users" && r[0].handler == CreateUserHandler
    ensures r[1].verb == GET && r[1].path == "/users/:id" && r[1].handler == GetUserHandler
    ensures forall i :: 0 <= i < |r| ==> r[i].middleware.None?
  {
    [ RouteDefinition(POST, "/users", CreateUserHandler, None),
      RouteDefinition(GET, "/users/:id", GetUserHandler, None) ]
  }

  /** `createHealthRoutes`: the one health route, without middleware. */
  function CreateHealthRoutes(): (r: seq<RouteDefinition>)
    ensures |r| == 1
    ensures r[0].verb == GET && r[0].path == "/health" && r[0].handler == GetHealthHandler
    ensures r[0].middleware.None?
  {
    [ RouteDefinition(GET, "/health", GetHealthHandler, None) ]
  }
}
