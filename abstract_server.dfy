/** Assembling the route table of the framework-neutral server
    (src/interfaces/http/abstract-server.ts). Resolving the use cases from
    the container is wiring and is not modelled; the handlers are named by
    `Handler` values. */
module AbstractServer {
  import opened Common
  import opened Strings
  import opened Http
  import opened Routes
  import opened BasicCredentials
  import BasicAuthenticator
  import AbstractAuthMiddleware

  const ApiPrefix := "/api"

  /** The root route's fixed reply body. */
  const Info := ApiInfo("TypeScript Sprint Zero API", "1.0.0", [("health", "/api/health"), ("users", "/api/users")])

  /** One route as `addApiRoutes` registers it: `{...route, path: prefix + path}`,
      with `middleware` replaced whenever a list is supplied, even an empty one. */
  function Prefixed(route: RouteDefinition, prefix: string, middleware: Option<seq<Middleware>>): (r: RouteDefinition)
    ensures r.verb == route.verb && r.handler == route.handler && r.path == prefix + route.path
    ensures r.middleware == (if middleware.Some? then middleware else route.middleware)
  {
    var routeConfig := route.(path := prefix + route.path);
    if middleware.Some? then routeConfig.(middleware := middleware) else routeConfig
  }

  function AllPrefixed(routes: seq<RouteDefinition>, prefix: string, middleware: Option<seq<Middleware>>): (r: seq<RouteDefinition>)
    ensures |r| == |routes|
    ensures forall i :: 0 <= i < |routes| ==> r[i] == Prefixed(routes[i], prefix, middleware)
  {
    if routes == [] then [] else [Prefixed(routes[0], prefix, middleware)] + AllPrefixed(routes[1..], prefix, middleware)
  }

  /** `addApiRoutes`: one `addRoute` per route, in order. */
  method AddApiRoutes(server: ServerAdapter, routes: seq<RouteDefinition>, prefix: string, middleware: Option<seq<Middleware>>)
    modifies server
    ensures server.routes == old(server.routes) + AllPrefixed(routes, prefix, middleware)
  {
    var i := 0;
    while i < |routes|
      invariant 0 <= i <= |routes|
      invariant |server.routes| == |old(server.routes)| + i
      invariant server.routes[..|old(server.routes)|] == old(server.routes)
      invariant forall j :: 0 <= j < i ==> server.routes[|old(server.routes)| + j] == Prefixed(routes[j], prefix, middleware)
    {
      server.AddRoute(Prefixed(routes[i], prefix, middleware));
      i := i + 1;
    }
    assert server.routes == server.routes[..|old(server.routes)|] + server.routes[|old(server.routes)|..];
  }

  /** The routes `createAbstractServer` adds: health, then users behind the
      Basic-auth middleware, then the root. */
  function ServerRoutes(): (r: seq<RouteDefinition>)
  {
    AllPrefixed(CreateHealthRoutes(), ApiPrefix, None)
      + AllPrefixed(CreateUserRoutes(), ApiPrefix, Some([BasicAuthMiddleware]))
      + [RouteDefinition(GET, "/", ApiInfoHandler, None)]
  }

  /** The table has exactly four routes, in this order, and only the two user
      routes carry the middleware. */
  lemma ServerRouteTable()
    ensures ServerRoutes() == [
      RouteDefinition(GET, "/api/health", GetHealthHandler, None),
      RouteDefinition(POST, "/api/users", CreateUserHandler, Some([BasicAuthMiddleware])),
      RouteDefinition(GET, "/api/users/:id", GetUserHandler, Some([BasicAuthMiddleware])),
      RouteDefinition(GET, "/", ApiInfoHandler, None)]
  {
    var h := AllPrefixed(CreateHealthRoutes(), ApiPrefix, None);
    var u := AllPrefixed(CreateUserRoutes(), ApiPrefix, Some([BasicAuthMiddleware]));
    assert ApiPrefix + "/health" == "/api/health";
    assert ApiPrefix + "/users" == "/api/users";
    assert ApiPrefix + "/users/:id" == "/api/users/:id";
    assert h[0] == RouteDefinition(GET, "/api/health", GetHealthHandler, None);
    assert u[0] == RouteDefinition(POST, "/api/users", CreateUserHandler, Some([BasicAuthMiddleware]));
    assert u[1] == RouteDefinition(GET, "/api/users/:id", GetUserHandler, Some([BasicAuthMiddleware]));
  }

  /** No two routes share a method and a path, and every endpoint the root
      route advertises is the path of a registered route. */
  lemma ServerRoutesConsistent()
    ensures forall i, j :: 0 <= i < j < |ServerRoutes()| ==>
      (ServerRoutes()[i].verb, ServerRoutes()[i].path) != (ServerRoutes()[j].verb, ServerRoutes()[j].path)
    ensures forall k :: 0 <= k < |Info.endpoints| ==>
      exists i :: 0 <= i < |ServerRoutes()| && ServerRoutes()[i].path == Info.endpoints[k].1
  {
    ServerRouteTable();
    var r := ServerRoutes();
    assert r[0].path == Info.endpoints[0].1;
    assert r[1].path == Info.endpoints[1].1;
    assert r[1].path != r[2].path && r[0].path != r[2].path;
  }

  /** `createAbstractServer`: registers the table on the given adapter, or on
      a new one when none is given, and returns that adapter. */
  method CreateAbstractServer(adapter: ServerAdapter?) returns (server: ServerAdapter)
    modifies if adapter == null then {} else {adapter}
    ensures adapter != null ==> server == adapter && server.routes == old(adapter.routes) + ServerRoutes()
    ensures adapter == null ==> fresh(server) && server.routes == ServerRoutes()
  {
    if adapter != null {
      server := adapter;
    } else {
      server := new ServerAdapter();
    }
    AddApiRoutes(server, CreateHealthRoutes(), ApiPrefix, None);
    AddApiRoutes(server, CreateUserRoutes(), ApiPrefix, Some([BasicAuthMiddleware]));
    server.AddRoute(RouteDefinition(GET, "/", ApiInfoHandler, None));
  }

  /** The root route's handler: `res.json(...)` with the API information,
      leaving the status at its default. */
  method ApiInfoRoute(res: HttpResponse)
    modifies res
    ensures res.body == Some(ApiInfoBody(Info))
    ensures res.statusCode == old(res.statusCode) && res.headers == old(res.headers)
  {
    res.Json(ApiInfoBody(Info));
  }

  /** The authenticator the server wires into the middleware, as the
      function the middleware calls. */
  function AuthenticateWith(a: BasicAuthenticator.Authenticator): (f: Credentials -> AuthReply)
    ensures forall c :: f(c) == Verdict(a.Authenticate(c.username, c.password))
  {
    (c: Credentials) => Verdict(a.Authenticate(c.username, c.password))
  }

  /** With the default table, a header carrying the built-in account
      "admin:password" passes the user routes' middleware, and the same
      user name with any other colon-free password does not. */
  lemma DefaultAccountPasses(a: BasicAuthenticator.Authenticator, payload: string, password: string, decode: string -> string)
    requires a.validCredentials == BasicAuthenticator.Merge(map[])
    requires decode(payload) == "admin" + [':'] + password
    requires password != "" && ':' !in password
    ensures AbstractAuthMiddleware.ValidateAndAuthenticate(Some(AbstractAuthMiddleware.Prefix + payload), decode, AuthenticateWith(a))
      == (if password == "password" then AbstractAuthMiddleware.Success
          else AbstractAuthMiddleware.Failure(AbstractAuthMiddleware.BadCredentialsMessage))
  {
    AbstractAuthMiddleware.ParseSeesPayload(payload, decode);
    RoundTrip("admin", password);
    a.AuthenticateMerged(map[], "admin", password);
  }
}
