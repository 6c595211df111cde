# typescript-sprint-zero, modelled in Dafny

This project models the core of a layered TypeScript backend scaffold:

- **Health aggregation.** A system is HEALTHY when every check is, UNHEALTHY when any check is, and DEGRADED otherwise. Three probes feed it: memory, uptime and application.
- **Users.** Identifiers and users are built by validating factories that trim and lower-case their input. Users are stored in an in-memory repository keyed by id, which refuses a taken id or email.
- **Use cases.** Creating a user and fetching one, with the checks in the order the code makes them.
- **Basic authentication.** A credential table (two default accounts merged with the configured ones), and two middleware variants. The framework-neutral one and the Express one differ in messages, error bodies and the status of a thrown authenticator, and only the Express one records `req.user = { username }` on the request after a successful check.
- **HTTP layer.** Two user controllers that classify errors by the words in their messages. Two health controllers with different status policies, the DTO mappers, and the route table the framework-neutral server registers.
- **Cycle detector.** The depth-first search in the architecture test suite.

Every module is one source file. Most handlers appear twice:

- a pure function that computes the `Reply` (status, added headers, JSON body);
- a method that writes it through an `HttpResponse` builder class.

The method's postcondition ties what it writes to the function. The in-memory repository, the HTTP response, the server adapter, the Express request and the cycle-detection context are classes whose methods update their fields. The cycle detector's soundness and completeness are proved with ghost state: the stack in push order, finish times, and a walk that shows the cycle.

Where the code and its written design disagree, the model follows the code:

- Both middlewares keep only the first two `:`-separated fields of the decoded credentials, not "everything after the first colon".
- The framework-neutral middleware and health controller send error bodies without a timestamp.
- The health probes always report in the order memory, system, application.
- The Express middleware answers 401, not 500, when the authenticator throws.
- Both controller and both health-controller variants are modelled, and lemmas compare them.

## Model

| member | source | states |
|---|---|---|
| HealthModel.CreateHealthCheck | src/domain/health/health-status.ts:20-36 | name, status and timestamp are kept; the message is present exactly when one was supplied, and then equals it |
| HealthModel.CreateSystemHealth | src/domain/health/health-status.ts:38-50 | checks returned unchanged; HEALTHY when every check is, UNHEALTHY when any is (even with DEGRADED ones), DEGRADED otherwise |
| HealthModel.EmptyIsHealthy | src/domain/health/health-status.ts:39 | no checks aggregate to HEALTHY |
| HealthModel.WorstBounds | src/domain/health/health-status.ts:38-44 | the reference fold `Worst` is at least as severe as every check and is the status of one of them |
| HealthModel.AggregateIsWorst | src/domain/health/health-status.ts:38-44 | the aggregate equals the worst status under UNHEALTHY > DEGRADED > HEALTHY |
| HealthModel.OrderIndependent | src/domain/health/health-status.ts:38-44 | checks whose statuses are a permutation of each other aggregate alike |
| HealthModel.StatusStringInjective | src/domain/health/health-status.ts:1-5 | the enum strings identify the statuses |
| UserModel.CreateUserId | src/domain/model/user.ts:11-16 | fails with "User ID cannot be empty" exactly for empty or all-whitespace input; otherwise the value is the trimmed input and is non-empty |
| UserModel.CreateUserIdIdempotent | src/domain/model/user.ts:15 | re-creating an id from a created id's value gives the same id |
| UserModel.CreateUser | src/domain/model/user.ts:18-31 | no '@' gives "Invalid email address" before the name is looked at; blank name gives "Name cannot be empty"; otherwise id kept, email trimmed then lower-cased, name trimmed |
| UserModel.CreatedUserIsValid | src/domain/model/user.ts:19-30 | a created user's email still has '@' and is already trimmed and lower case; its name is non-empty and trimmed |
| UserModel.FactoryUserIsValid | src/domain/model/user.ts:11-30 | every user made from an id `createUserId` accepts and fields `createUser` accepts is valid |
| UserModel.LowerTrimCommute | src/domain/model/user.ts:28 | lower-casing a trimmed string leaves it trimmed |
| UserRepository.CreateCheck | src/infrastructure/persistence/memory/in-memory-user-repository.ts:10-21 | passes exactly when neither the id key nor the email is taken; a taken id fails with the id message even when the email is also taken, and a free id with a taken email fails with the email message |
| UserRepository.CreatePreservesInvariants | src/infrastructure/persistence/memory/in-memory-user-repository.ts:10-25 | a passing create keeps emails pairwise distinct and every key equal to its user's id |
| UserRepository.UpdateMayDuplicateEmail | src/infrastructure/persistence/memory/in-memory-user-repository.ts:44-49 | there is a store meeting both invariants where a successful update gives two users one email |
| UserRepository.Without | src/infrastructure/persistence/memory/in-memory-user-repository.ts:55 | removing a key from the insertion order keeps the others, in order, without repeats |
| UserRepository.InMemoryUserRepository.constructor | src/infrastructure/persistence/memory/in-memory-user-repository.ts:8 | the store starts empty |
| UserRepository.InMemoryUserRepository.FirstWithEmail | src/infrastructure/persistence/memory/in-memory-user-repository.ts:15-17 | finds the first user in Map order with that email, or none exactly when no stored user has it |
| UserRepository.InMemoryUserRepository.Create | src/infrastructure/persistence/memory/in-memory-user-repository.ts:10-25 | taken id, then taken email, fail with their messages and change nothing; otherwise exactly `id.value -> user` is added and `user.id` returned |
| UserRepository.InMemoryUserRepository.FindById | src/infrastructure/persistence/memory/in-memory-user-repository.ts:27-29 | the stored user under the id value, or none exactly when the key is absent |
| UserRepository.InMemoryUserRepository.FindByEmail | src/infrastructure/persistence/memory/in-memory-user-repository.ts:31-34 | the first user in Map order whose email equals the lower-cased query, or none exactly when there is no such user |
| UserRepository.InMemoryUserRepository.Exists | src/infrastructure/persistence/memory/in-memory-user-repository.ts:36-38 | true exactly when `findById` finds a user |
| UserRepository.InMemoryUserRepository.FindAll | src/infrastructure/persistence/memory/in-memory-user-repository.ts:40-42 | every stored user, once each, in insertion order |
| UserRepository.InMemoryUserRepository.Update | src/infrastructure/persistence/memory/in-memory-user-repository.ts:44-49 | an absent id fails with "not found" and changes nothing; otherwise only that entry is replaced |
| UserRepository.InMemoryUserRepository.Delete | src/infrastructure/persistence/memory/in-memory-user-repository.ts:51-56 | an absent id fails with "not found" and changes nothing; otherwise only that key is removed |
| CreateUserUseCase.GeneratedIdIsValid | src/application/use-case/create-user.use-case.ts:42-44 | a generated id always validates, and is kept as generated when its random part does not end in whitespace |
| CreateUserUseCase.ChosenId | src/application/use-case/create-user.use-case.ts:24 | the request's id when it is truthy, the generated one otherwise (also for an empty string) |
| CreateUserUseCase.DecideCheckOrder | src/application/use-case/create-user.use-case.ts:24-34 | id validation first, then the id lookup, then the email lookup, whose message names the email as requested |
| CreateUserUseCase.DecideStoresOnlyValid | src/application/use-case/create-user.use-case.ts:36-37 | only a validated user under the chosen id, with an id and an email not yet stored, reaches the repository |
| CreateUserUseCase.DecideErrorKinds | src/application/use-case/create-user.use-case.ts:23-40 | every failure is one of the three validation messages or an id or email conflict |
| CreateUserUseCase.Execute | src/application/use-case/create-user.use-case.ts:23-40 | on failure the store is unchanged; on success exactly the new user is added and its id returned |
| CreateUserUseCase.DecideConflict | src/application/use-case/create-user.use-case.ts:26-37 | a user whose normalised email is taken is refused with "already exists", by the use case or by the repository |
| CreateUserUseCase.RepeatConflicts | src/application/use-case/create-user.use-case.ts:26-34 | the same request run again on the resulting store fails with "already exists", whatever id it would generate |
| CreateUserUseCase.PaddedDuplicateRefusedByRepository | src/application/use-case/create-user.use-case.ts:31-37 | a stored email with leading whitespace passes the use case's lookup and is refused by the repository, with the stored spelling in the message |
| GetUserUseCase.Execute | src/application/use-case/get-user.use-case.ts:15-24 | blank id fails with "cannot be empty"; otherwise the stored user under the trimmed id, or "User with ID <trimmed> not found" |
| GetUserUseCase.EmptyIdIgnoresStore | src/application/use-case/get-user.use-case.ts:16 | for a blank id the store's contents make no difference |
| GetUserUseCase.PaddingIgnored | src/application/use-case/get-user.use-case.ts:16-17 | leading whitespace in the requested id does not change the answer |
| GetUserUseCase.GetAfterCreate | src/application/use-case/get-user.use-case.ts:17-23 | after a successful create, getting the new id returns exactly the stored user |
| BasicAuthenticator.Merge | src/infrastructure/security/basic-authenticator.ts:16-20 | the table has the default and the given usernames; given passwords win, defaults survive where not given |
| BasicAuthenticator.MergeNothing | src/infrastructure/security/basic-authenticator.ts:16-20 | with no argument the table is exactly admin -> password, user -> secret |
| BasicAuthenticator.Authenticator.constructor | src/infrastructure/security/basic-authenticator.ts:13-25 | the table is the merge of the defaults and the argument; it is a constant afterwards |
| BasicAuthenticator.Authenticator.CopyEntries | src/infrastructure/security/basic-authenticator.ts:22-24 | filling an empty Map entry by entry yields exactly the entries |
| BasicAuthenticator.Authenticator.Authenticate | src/infrastructure/security/basic-authenticator.ts:27-30 | true exactly when the username is stored with that password; unknown usernames give false |
| BasicAuthenticator.Authenticator.AuthenticateMerged | src/infrastructure/security/basic-authenticator.ts:13-30 | over a constructed table: given usernames need their given password, other defaults their default one, others always fail |
| BasicCredentials.FromDecoded | src/interfaces/http/middleware/abstract-auth.middleware.ts:16-17 | credentials exactly when there is a colon and the first two fields are non-empty; they are those two fields |
| BasicCredentials.RoundTrip | src/interfaces/http/middleware/abstract-auth.middleware.ts:16-17 | a non-empty, colon-free user-id and password joined by a colon come back exactly |
| BasicCredentials.PasswordTruncated | src/interfaces/http/middleware/abstract-auth.middleware.ts:16 | a password containing a colon comes back cut at that colon |
| BasicCredentials.NoColonRejected | src/interfaces/http/middleware/abstract-auth.middleware.ts:16-17 | decoded text without a colon yields no credentials |
| AbstractAuthMiddleware.ParseBasicAuthCredentials | src/interfaces/http/middleware/abstract-auth.middleware.ts:11-18 | returned credentials have a non-empty, colon-free user name and password (what it decodes is stated by `ParseSeesPayload`) |
| AbstractAuthMiddleware.ValidateAndAuthenticate | src/interfaces/http/middleware/abstract-auth.middleware.ts:22-41 | missing or non-"Basic " header, then bad format, are refused before the authenticator; an authenticator answering false gives "Invalid credentials"; success exactly when it answers true, rejection exactly when it throws |
| AbstractAuthMiddleware.RejectionReply | src/interfaces/http/middleware/abstract-auth.middleware.ts:7-9 | a failure is 401 `{error: 'Unauthorized', message}`; a thrown authenticator is 500 "Authentication failed" |
| AbstractAuthMiddleware.Handle | src/interfaces/http/middleware/abstract-auth.middleware.ts:43-57 | `next` exactly on success, with nothing written; otherwise the rejection is written |
| AbstractAuthMiddleware.SchemeIsCaseSensitive | src/interfaces/http/middleware/abstract-auth.middleware.ts:26-28 | "basic " and "BASIC " are refused as a missing header |
| AbstractAuthMiddleware.EarlyFailureSkipsAuthenticator | src/interfaces/http/middleware/abstract-auth.middleware.ts:26-33 | a header failing the scheme or format test gets the same failure whatever the authenticator |
| AbstractAuthMiddleware.ParseSeesPayload | src/interfaces/http/middleware/abstract-auth.middleware.ts:14 | for "Basic " + payload the decoder sees exactly the payload |
| AbstractAuthMiddleware.AcceptsEncodedCredentials | src/interfaces/http/middleware/abstract-auth.middleware.ts:11-41 | a header encoding accepted `user:password` lets the request through |
| AuthMiddleware.SliceScheme | src/interfaces/http/middleware/auth.middleware.ts:19 | the header minus its first six characters, or empty when it is shorter |
| AuthMiddleware.ParseBasicAuthCredentials | src/interfaces/http/middleware/auth.middleware.ts:18-23 | returned credentials have a non-empty, colon-free user name and password |
| AuthMiddleware.ValidateAndAuthenticate | src/interfaces/http/middleware/auth.middleware.ts:29-48 | the same order of tests with the Express messages; an authenticator answering false gives "Invalid username or password"; success exactly when it answers true and carries the parsed credentials; rejection exactly when it throws |
| AuthMiddleware.RejectionReply | src/interfaces/http/middleware/auth.middleware.ts:14-16 | always 401 with an `UnauthorizedError` DTO; "Authentication failed" when the authenticator threw |
| AuthMiddleware.AuthenticatedRequest.constructor | src/interfaces/http/middleware/auth.middleware.ts:8-12 | a request starts with no `user` |
| AuthMiddleware.Handle | src/interfaces/http/middleware/auth.middleware.ts:50-65 | on success `req.user` is the username and nothing is written; otherwise `req.user` is untouched and the 401 is written |
| AuthMiddleware.ParsersAgree | src/interfaces/http/middleware/auth.middleware.ts:18-23 | after the scheme test, slicing and replacing give the decoder the same text |
| AuthMiddleware.VariantsAgree | src/interfaces/http/middleware/auth.middleware.ts:29-48 | both middlewares accept, reject and throw on exactly the same requests, at the same step |
| AbstractUserController.ErrorReply | src/interfaces/http/controllers/abstract-user.controller.ts:87-89 | the status given, no headers, an error DTO with error, message and timestamp |
| AbstractUserController.CreateUserFailure | src/interfaces/http/controllers/abstract-user.controller.ts:74-90 | "already exists" is 409 (checked first); "Invalid" or "cannot be empty" is 400; else, and for non-Errors, 500 hiding the message |
| AbstractUserController.GetUserFailure | src/interfaces/http/controllers/abstract-user.controller.ts:142-158 | "not found" is 404, before "cannot be empty" at 400; everything else is 500 |
| AbstractUserController.RequestOf | src/interfaces/http/controllers/abstract-user.controller.ts:61-70 | the use case gets the body's email, name and id unchanged |
| AbstractUserController.CreateUser | src/interfaces/http/controllers/abstract-user.controller.ts:59-91 | writes the reply; missing fields or a failed use case leave the store unchanged, success adds exactly the new user |
| AbstractUserController.GetUser | src/interfaces/http/controllers/abstract-user.controller.ts:129-159 | writes the reply computed from the params and the store |
| AbstractUserController.ValidationMessagesClassified | src/interfaces/http/controllers/abstract-user.controller.ts:81-84 | the three domain validation messages are 400s and never 409s |
| AbstractUserController.NotFoundClassified | src/interfaces/http/controllers/abstract-user.controller.ts:144-147 | the repository's not-found message contains "not found" |
| AbstractUserController.CreateUserOutcomes | src/interfaces/http/controllers/abstract-user.controller.ts:59-91 | only 201, 400 or 409 occur; 201 exactly on use-case success, 409 exactly on an id or email conflict |
| AbstractUserController.CreatedLocation | src/interfaces/http/controllers/abstract-user.controller.ts:70-73 | a 201 has header Location "/users/<id>" and body `{id, location}` naming the new id |
| AbstractUserController.GetUserOutcomes | src/interfaces/http/controllers/abstract-user.controller.ts:129-159 | only 200, 400 or 404 occur; 200 with the stored user exactly when the trimmed id is stored |
| AbstractUserController.InvalidOnlyMappedOnCreate | src/interfaces/http/controllers/abstract-user.controller.ts:143-157 | "Invalid email address" is 400 for create but 500 for get |
| UserController.CreateUser | src/interfaces/http/controllers/user.controller.ts:17-49 | the Express controller writes exactly the framework-neutral controller's reply and makes the same store change |
| UserController.GetUser | src/interfaces/http/controllers/user.controller.ts:51-81 | the Express controller writes exactly the framework-neutral controller's reply |
| HealthController.HttpStatusFromHealth | src/interfaces/http/controllers/health.controller.ts:24-35 | 200 exactly for "healthy" and "degraded"; 503 for everything else |
| HealthController.StatusPolicy | src/interfaces/http/controllers/health.controller.ts:24-31 | over the enum, 503 exactly for UNHEALTHY |
| HealthController.GetHealthReply | src/interfaces/http/controllers/health.controller.ts:8-22 | the health DTO with the status policy's code, or 503 ServiceUnavailable "Health check failed" with a timestamp |
| HealthController.GetHealth | src/interfaces/http/controllers/health.controller.ts:8-22 | writes that reply |
| HealthController.SystemCheckerReply | src/interfaces/http/controllers/health.controller.ts:13-14 | from the system checker, 200 exactly when both readings succeed and uptime is positive |
| HealthController.PoliciesCompared | src/interfaces/http/controllers/health.controller.ts:8-35 | the two health controllers agree except on UNHEALTHY (503 vs 200) and on failure (503 vs 500) |
| AbstractHealthController.GetHealthReply | src/interfaces/http/controllers/abstract-health.controller.ts:31-43 | 200 with the health DTO on success, whatever the health; 500 `{error, message}` without timestamp on failure |
| AbstractHealthController.GetHealth | src/interfaces/http/controllers/abstract-health.controller.ts:31-43 | writes that reply |
| AbstractHealthController.StatusIgnoresHealth | src/interfaces/http/controllers/abstract-health.controller.ts:33-36 | every health is a 200; different statuses give different bodies |
| UserDto.CreateUserResponse | src/interfaces/http/dto/user.dto.ts:30-33 | the id, and a location that is "/users/" followed by the id |
| UserDto.IdFromLocation | src/interfaces/http/dto/user.dto.ts:32 | reads the id back from a location exactly when it starts with "/users/" |
| UserDto.LocationRoundTrip | src/interfaces/http/dto/user.dto.ts:30-33 | removing the prefix from a location recovers the id |
| UserDto.LocationInjective | src/interfaces/http/dto/user.dto.ts:30-33 | different ids have different locations |
| UserDto.GetUserResponse | src/interfaces/http/dto/user.dto.ts:35-39 | id value, email and name copied unchanged |
| UserDto.ErrorResponse | src/interfaces/http/dto/user.dto.ts:41-45 | error and message as given, stamped with the instant |
| HealthDto.CheckDto | src/interfaces/http/dto/health.dto.ts:27-39 | name, status string and timestamp copied; the message exactly when the check has one |
| HealthDto.CheckDtos | src/interfaces/http/dto/health.dto.ts:43 | one DTO per check, in order |
| HealthDto.ResponseDto | src/interfaces/http/dto/health.dto.ts:41-45 | status string copied; checks mapped one to one, in order |
| HealthDto.CheckDtoInjective | src/interfaces/http/dto/health.dto.ts:27-39 | equal check DTOs come from equal checks |
| HealthDto.ResponseDtoInjective | src/interfaces/http/dto/health.dto.ts:41-45 | equal health DTOs come from equal healths |
| SystemHealthChecker.RoundMB | src/infrastructure/system/system-health-checker.ts:23-24 | the nearest whole number of mebibytes, halves up |
| SystemHealthChecker.Round | src/infrastructure/system/system-health-checker.ts:40 | the integer nearest the real, halves toward +infinity |
| SystemHealthChecker.CheckMemory | src/infrastructure/system/system-health-checker.ts:20-34 | DEGRADED exactly above 100 rounded MiB used, otherwise HEALTHY, with "Heap: <used>MB/<total>MB"; a failed read is UNHEALTHY "Memory check failed: ..." |
| SystemHealthChecker.MemoryThreshold | src/infrastructure/system/system-health-checker.ts:23-26 | in bytes, DEGRADED from 105381888 bytes of used heap on |
| SystemHealthChecker.CheckSystem | src/infrastructure/system/system-health-checker.ts:36-47 | HEALTHY exactly for positive uptime, with "Uptime: <rounded>s"; a failed read is UNHEALTHY "System check failed: ..." |
| SystemHealthChecker.CheckApplication | src/infrastructure/system/system-health-checker.ts:49-60 | always HEALTHY "Application is running" |
| SystemHealthChecker.CheckHealth | src/infrastructure/system/system-health-checker.ts:10-18 | exactly the memory, system and application checks, in that order, each independent of the other readings |
| SystemHealthChecker.CheckHealthStatus | src/infrastructure/system/system-health-checker.ts:10-18 | UNHEALTHY exactly when a read fails or uptime is not positive; DEGRADED exactly when otherwise the heap is too large |
| Routes.CreateUserRoutes | src/interfaces/http/routes/abstract-user.routes.ts:4-17 | exactly POST /users to createUser then GET /users/:id to getUser, without middleware |
| Routes.CreateHealthRoutes | src/interfaces/http/routes/abstract-health.routes.ts:4-14 | exactly one route, GET /health to getHealth, without middleware |
| Http.HttpResponse.Send | src/interfaces/http/adapters/server.adapter.ts:11-17 | chaining status, each header and json leaves the response holding that reply |
| Http.ServerAdapter.AddRoute | src/interfaces/http/adapters/server.adapter.ts:33-34 | appends the route to the table |
| Http.Lookup | src/interfaces/http/adapters/server.adapter.ts:6-8 | a header or parameter value exactly when the key is present |
| AbstractServer.Prefixed | src/interfaces/http/abstract-server.ts:39-47 | method and handler kept, path prefixed; the middleware list attached exactly when one is supplied |
| AbstractServer.AllPrefixed | src/interfaces/http/abstract-server.ts:38-48 | one prefixed route per route, in order |
| AbstractServer.AddApiRoutes | src/interfaces/http/abstract-server.ts:37-49 | the adapter's table grows by exactly the prefixed routes, in order |
| AbstractServer.ServerRouteTable | src/interfaces/http/abstract-server.ts:56-98 | exactly GET /api/health, POST /api/users, GET /api/users/:id, GET /, in that order; only the user routes carry the middleware |
| AbstractServer.ServerRoutesConsistent | src/interfaces/http/abstract-server.ts:85-98 | no two routes share method and path; every advertised endpoint is a registered path |
| AbstractServer.CreateAbstractServer | src/interfaces/http/abstract-server.ts:51-101 | the given adapter, else a fresh one, is returned holding its old routes plus the table |
| AbstractServer.ApiInfoRoute | src/interfaces/http/abstract-server.ts:88-97 | the root handler sends the API information and leaves status and headers alone |
| AbstractServer.AuthenticateWith | src/interfaces/http/abstract-server.ts:27 | the middleware's authenticator is the credential table's `authenticate` |
| AbstractServer.DefaultAccountPasses | src/interfaces/http/abstract-server.ts:21-27 | with the default table, "admin:password" passes the user routes' middleware and any other password for admin is refused |
| ArchitectureCycles.RelativeImports | test/architecture/architecture-cycles.test.ts:15 | keeps exactly the specifiers starting "./" or "../" |
| ArchitectureCycles.Dedup | test/architecture/architecture-cycles.test.ts:16 | the same elements, each once |
| ArchitectureCycles.BuildDependencyGraph | test/architecture/architecture-cycles.test.ts:10-20 | one entry per listed file; its edges are exactly its relative imports |
| ArchitectureCycles.Edges | test/architecture/architecture-cycles.test.ts:15-16 | a file's edge list: its relative imports, each once |
| ArchitectureCycles.Deps | test/architecture/architecture-cycles.test.ts:31 | a file without a graph entry has no dependencies |
| ArchitectureCycles.WalkExtend | test/architecture/architecture-cycles.test.ts:22-28 | a walk followed by a dependency of its last file is a walk, and one that revisits a file repeats |
| ArchitectureCycles.PopPath | test/architecture/architecture-cycles.test.ts:45 | the search path without its last file is still a walk whose files are distinct |
| ArchitectureCycles.ClosedExtend | test/architecture/architecture-cycles.test.ts:45 | finishing a file whose dependencies are all finished keeps the finish order closed |
| ArchitectureCycles.CycleDetectionContext.constructor | test/architecture/architecture-cycles.test.ts:51-56 | the graph as given; nothing visited, stacked or reported |
| ArchitectureCycles.CycleDetectionContext.Enter | test/architecture/architecture-cycles.test.ts:42-43 | the file is added to visited and to the stack; violations unchanged |
| ArchitectureCycles.CycleDetectionContext.Leave | test/architecture/architecture-cycles.test.ts:45 | the file is removed from the stack and gets the next finish time |
| ArchitectureCycles.CycleDetectionContext.Explore | test/architecture/architecture-cycles.test.ts:42-47 | an unvisited file is visited, its dependencies checked and it is finished; the stack is restored |
| ArchitectureCycles.ClosedWalkDistinct | test/architecture/architecture-cycles.test.ts:50-65 | a walk from a finished file in a closed finish order never repeats a file |
| ArchitectureCycles.CycleDetectionContext.IsInStack | test/architecture/architecture-cycles.test.ts:22-28 | true exactly for a file on the stack, recording one violation naming it; nothing else changes |
| ArchitectureCycles.CycleDetectionContext.CheckSingleFileForCycle | test/architecture/architecture-cycles.test.ts:38-48 | stack restored; visited and violations only grow, by at most one violation; true exactly when one was added; a visited file off the stack returns false and changes nothing |
| ArchitectureCycles.CycleDetectionContext.CheckDependencies | test/architecture/architecture-cycles.test.ts:30-36 | scans the dependencies in order and stops at the first cycle; on false every dependency is finished |
| ArchitectureCycles.DetectCycles | test/architecture/architecture-cycles.test.ts:50-65 | every listed file is visited; at most one violation per file; none exactly when no walk from a listed file repeats a file |
| Strings.Trim | src/domain/model/user.ts:12-15 | empty exactly for all-whitespace input; otherwise starts and ends with non-whitespace |
| Strings.TrimIdempotent | src/domain/model/user.ts:15 | trimming twice is trimming once |
| Strings.TrimKeeps | src/domain/model/user.ts:28 | a non-whitespace character of the input survives trimming |
| Strings.ToLower | src/domain/model/user.ts:28 | same length, each character folded on its own |
| Strings.ToLowerKeeps | src/domain/model/user.ts:19-28 | a non-letter such as '@' is in the lower-cased string exactly when it is in the input |
| Strings.ToLowerIdempotent | src/domain/model/user.ts:28 | lower-casing twice is lower-casing once |
| Strings.IndexOf | src/interfaces/http/middleware/abstract-auth.middleware.ts:14 | -1 exactly when the pattern does not occur; otherwise an occurrence with none before it |
| Strings.ReplacePrefix | src/interfaces/http/middleware/abstract-auth.middleware.ts:14 | replacing a leading pattern by nothing slices its length off the front |
| Strings.Split | src/interfaces/http/middleware/abstract-auth.middleware.ts:16 | at least one field, none containing the separator |
| Strings.JoinSplit | src/interfaces/http/middleware/abstract-auth.middleware.ts:16 | joining the fields of a split gives the input back |
| Strings.SplitJoin | src/interfaces/http/middleware/abstract-auth.middleware.ts:16 | separator-free fields are recovered by splitting their join |

## Left out

- Express itself is not part of this model: `express-server.adapter.ts`, the Express routers, `server.ts` and `main.ts`. The same goes for the dependency-injection container and the environment and OpenAPI scripts, which are wiring and configuration.
- The other architecture tests and `helpers.ts` walk the file system. Their graph's keys are absolute paths while its edges are raw specifiers; the detector here treats both as plain strings.
- Clocks and randomness are parameters. `new Date()` is an `Instant`, and `Date.now()` plus `Math.random()` become `clock` and `random`. ISO-8601 rendering is not modelled, so DTOs carry the instant.
- `Buffer.from(..., 'base64').toString('ascii')` is the abstract parameter `decode`, so malformed base64 is whatever `decode` makes of it.
- `toLowerCase` folds only ASCII letters; `trim` uses the exact ECMAScript whitespace set.
- `process.memoryUsage()` and `process.uptime()` are inputs, each a `Result` whose error carries the thrown text. Probe failures are therefore modelled per probe.
- Asynchronous steps (`await`, `Promise.all`) run in sequence; nothing depends on interleaving. One instant stamps all checks of one health run.
- The health use case only forwards the checker's result, so the controllers take that result directly.
- Controllers assume the request body is an object, and handlers assume `next` does not throw. `send`, `setHeader` and the adapter's other methods are not used by the core.
- Thrown values other than the use cases' own `Error`s reach the controllers only from code outside the model. `Thrown.NonErrorThrown` keeps that branch.
- The order in which `Object.entries` lists the credential object does not matter: every key is set once.
