# simple-user: user directory and its access rules, in Dafny

The application is a small Spring Boot REST service that keeps user accounts.

- **Users.** A user has a generated id, an email that is its natural key, a password hash and a role (ADMIN or USER).
- **Endpoints.** Under `/api/users` it lists users, looks them up by id or email, creates them and deletes them by id or email. An `/admin` endpoint returns a fixed map.
- **Rules.** Every request first passes an ordered list of URL authorization rules, then the role guard on `/admin`.

This project models four parts and proves what each promises.

- **Service** (`user_table.dfy`, `user_service.dfy`).
  - Each operation is a function from the old table to its result and the new table.
  - The service class holds the table in a field and its methods are tied to those functions.
  - Start-up seeding of the accounts is the class constructor.
- **Rule list** (`security_config.dfy`). The rules are data, decided first-match.
- **Controller** (`user_controller.dfy`).
  - The route table with its success statuses and the `/admin` guard.
  - A class that runs the two security layers and then the handler.
- **User entity** (`entity.dfy`). Email-only equality and Java's string hash.
- **Path patterns** (`path_pattern.dfy`). A concrete reading of the framework's path patterns, used for the finding below.

Notes on the source:

- **Role field.** `store/entity/user/User.kt` declares only `id`, `email` and `password`. The service constructs users with a `role`, so the modelled `User` carries `role: Role`.
- **Rule order.** The rules are tried in declaration order and the first rule that matches decides. This is how the framework applies `authorizeHttpRequests`, and the model follows it. A reading where the longest or most specific pattern wins is not what the configuration does.
- **Matcher.** How a pattern matches a path is a parameter `matches`. Every rule property is proved for every matcher.

Paths below are relative to `src/main/kotlin/com/example/simpleuser/`. In the table they are spelled out in full.

## Model

| member | source | states |
|---|---|---|
| Http.Code | src/main/kotlin/com/example/simpleuser/api/controller/user/UserController.kt:25-56 | the statuses used by the handlers and exceptions have their HTTP codes; a code is a success code (below 300) exactly for OK, CREATED, ACCEPTED and NO_CONTENT |
| Entity.Equals | src/main/kotlin/com/example/simpleuser/store/entity/user/User.kt:20-24 | true for the very same reference; false for null and objects of other classes; true for any User with the same email |
| Entity.EqualsReflexive | src/main/kotlin/com/example/simpleuser/store/entity/user/User.kt:21 | a user reference is equal to itself |
| Entity.NeverEqualsNonUser | src/main/kotlin/com/example/simpleuser/store/entity/user/User.kt:22 | a user is never equal to null or to an object of another class |
| Entity.EqualsIffSameEmail | src/main/kotlin/com/example/simpleuser/store/entity/user/User.kt:20-24 | two user references are equal exactly when their emails are equal, whatever their ids, passwords and roles |
| Entity.EqualsIsEquivalence | src/main/kotlin/com/example/simpleuser/store/entity/user/User.kt:20-24 | equality between users is symmetric and transitive |
| Entity.HashConsistentWithEquals | src/main/kotlin/com/example/simpleuser/store/entity/user/User.kt:26 | equal users have equal hash codes |
| Entity.Wrap | src/main/kotlin/com/example/simpleuser/store/entity/user/User.kt:26 | the 32-bit result of the hash arithmetic is congruent to the exact value modulo 2^32 |
| Entity.StringHash | src/main/kotlin/com/example/simpleuser/store/entity/user/User.kt:26 | Java's string hash: 0 for the empty string, the character's code for a one-character string (the step for longer strings is StringHashAppend) |
| Entity.HashCode | src/main/kotlin/com/example/simpleuser/store/entity/user/User.kt:26 | the user's hash is its email's string hash: 0 for an empty email, the character's code for a one-character email |
| Entity.StringHashAppend | src/main/kotlin/com/example/simpleuser/store/entity/user/User.kt:26 | the hash of the email extended by one character is 31 times the previous hash plus the character, wrapped to 32 bits |
| UserTable.FindByEmail | src/main/kotlin/com/example/simpleuser/service/user/UserServiceImpl.kt:73 | a record is found exactly when some stored record has the email, and the found record is stored and has that email |
| UserTable.FindByEmailAt | src/main/kotlin/com/example/simpleuser/service/user/UserServiceImpl.kt:103 | looking up the email of a stored record finds that very record |
| UserTable.SaveNewKeepsValid | src/main/kotlin/com/example/simpleuser/service/user/UserServiceImpl.kt:84-85 | saving under an unused id with an unused email keeps every record keyed by its id and keeps emails unique, and grows the table by one |
| UserTable.ToEntity | src/main/kotlin/com/example/simpleuser/service/user/UserServiceImpl.kt:115-120 | a request becomes an unsaved user (no id) with the request's email, the encoded password and role USER |
| UserTable.ToResponse | src/main/kotlin/com/example/simpleuser/service/user/UserServiceImpl.kt:123-127 | the view of a saved user carries its id and its email |
| UserTable.RequestRoundTrip | src/main/kotlin/com/example/simpleuser/service/user/UserServiceImpl.kt:84-87 | a request turned into an entity, saved under an id and turned back into a view gives exactly that id and the request's email |
| UserTable.NatTextInjective | src/main/kotlin/com/example/simpleuser/service/user/UserServiceImpl.kt:67 | two ids with the same decimal rendering are the same id |
| UserTable.Message | src/main/kotlin/com/example/simpleuser/service/user/UserServiceImpl.kt:67-82 | each reason text is a fixed template followed by its key: the id in decimal, or the email |
| UserTable.MessageInjective | src/main/kotlin/com/example/simpleuser/service/user/UserServiceImpl.kt:67-82 | two reasons with the same text are the same reason: the text determines which failure it was and for which id or email |
| UserTable.ResponseHidesPassword | src/main/kotlin/com/example/simpleuser/service/user/UserServiceImpl.kt:123-127 | the view of a record does not depend on its password or role |
| UserTable.GetUserById | src/main/kotlin/com/example/simpleuser/service/user/UserServiceImpl.kt:62-68 | succeeds exactly when the id is stored, with that id and the record's email; otherwise NOT_FOUND with reason "user not found with id" |
| UserTable.GetUserByEmail | src/main/kotlin/com/example/simpleuser/service/user/UserServiceImpl.kt:70-76 | succeeds exactly when some record has the email, returning a stored id with that email; otherwise NOT_FOUND with reason "user not found with email" |
| UserTable.AppendView | src/main/kotlin/com/example/simpleuser/service/user/UserServiceImpl.kt:57-59 | adding the view of a not yet listed record keeps the views faithful and their ids distinct |
| UserTable.Create | src/main/kotlin/com/example/simpleuser/service/user/UserServiceImpl.kt:78-88 | a taken email gives BAD_REQUEST with reason "user already exists with email" and the table is unchanged; otherwise exactly one record is added under the new id, with the request email, the encoded password and role USER, no other record changes, the view (new id, email) is returned, and the table stays valid |
| UserTable.DeleteById | src/main/kotlin/com/example/simpleuser/service/user/UserServiceImpl.kt:90-98 | a stored id loses exactly its record; an absent id gives NOT_FOUND and the table is unchanged; the table stays valid |
| UserTable.DeleteByEmail | src/main/kotlin/com/example/simpleuser/service/user/UserServiceImpl.kt:100-108 | the record with the email is removed and every other record stays as it was, and the email is then free; with no such record NOT_FOUND and the table is unchanged |
| UserTable.CreateThenGet | src/main/kotlin/com/example/simpleuser/service/user/UserServiceImpl.kt:62-88 | a user just created is found by its id and by its email, with the view the creation returned |
| UserTable.CreateSameEmailTwice | src/main/kotlin/com/example/simpleuser/service/user/UserServiceImpl.kt:81-82 | a second creation with the same email is refused with BAD_REQUEST and changes nothing |
| UserTable.DeleteByIdThenAbsent | src/main/kotlin/com/example/simpleuser/service/user/UserServiceImpl.kt:90-98 | after a delete by id, the id is not found, and a second delete of it is NOT_FOUND and changes nothing |
| UserTable.DeleteByEmailFreesEmail | src/main/kotlin/com/example/simpleuser/service/user/UserServiceImpl.kt:100-108 | after a delete by email, the email is not found and can be registered again |
| UserServiceImpl.UnusedIdExists | src/main/kotlin/com/example/simpleuser/store/entity/user/User.kt:14-15 | whatever the table holds, there is an id it does not use, so generation on save always succeeds |
| UserServiceImpl.ListViews | src/main/kotlin/com/example/simpleuser/service/user/UserServiceImpl.kt:54-60 | the result has one view per stored record: as many views as records, each showing a stored id and its email, no id twice, every stored id present |
| UserServiceImpl.SaveNew | src/main/kotlin/com/example/simpleuser/service/user/UserServiceImpl.kt:84-85 | the store saves under an id it did not use, the table stays valid and grows by one |
| UserServiceImpl.Seed | src/main/kotlin/com/example/simpleuser/service/user/UserServiceImpl.kt:25-51 | after the seed the table is valid and holds 27 records: "admin" with password encode("admin") and role ADMIN, "user" with encode("user") and role USER, and each generated account with its encoded password and role USER |
| UserServiceImpl.UserService.constructor | src/main/kotlin/com/example/simpleuser/service/user/UserServiceImpl.kt:25-51 | the new service keeps the given encoder and its table is seeded as Seed states |
| UserServiceImpl.UserService.GetUsers | src/main/kotlin/com/example/simpleuser/service/user/UserServiceImpl.kt:54-60 | returns one view per stored record, as ListViews states |
| UserServiceImpl.UserService.CreateUser | src/main/kotlin/com/example/simpleuser/service/user/UserServiceImpl.kt:78-88 | the result and the new table are those of Create, for an id not used before; the table stays valid |
| UserServiceImpl.UserService.DeleteUserById | src/main/kotlin/com/example/simpleuser/service/user/UserServiceImpl.kt:90-98 | the result and the new table are those of DeleteById |
| UserServiceImpl.UserService.DeleteUserByEmail | src/main/kotlin/com/example/simpleuser/service/user/UserServiceImpl.kt:100-108 | the result and the new table are those of DeleteByEmail, deleting through the found record's id |
| SecurityConfig.FirstMatch | src/main/kotlin/com/example/simpleuser/config/security/SecurityConfig.kt:42-54 | returns the position of a matching rule with no matching rule before it, or nothing when no rule matches |
| SecurityConfig.Rules | src/main/kotlin/com/example/simpleuser/config/security/SecurityConfig.kt:42-54 | four rules ending in anyRequest; only the first (the auth pattern) is public; every role rule admits ADMIN, and only the GET users rule admits USER |
| SecurityConfig.AuthorizeHttpRequests | src/main/kotlin/com/example/simpleuser/config/security/SecurityConfig.kt:42-54 | the configured list ends in anyRequest, and its path rules use only the auth pattern and the users pattern |
| SecurityConfig.Check | src/main/kotlin/com/example/simpleuser/config/security/SecurityConfig.kt:44-53 | permitAll always allows; authenticated allows any identity; a role requirement allows an identity with one of its roles; a missing identity is Unauthenticated, a wrong role Forbidden |
| SecurityConfig.Decide | src/main/kotlin/com/example/simpleuser/config/security/SecurityConfig.kt:42-54 | the decision is that of the first matching rule; there is none exactly when no rule matches, and a list ending in anyRequest always decides |
| SecurityConfig.RulesDecide | src/main/kotlin/com/example/simpleuser/config/security/SecurityConfig.kt:42-54 | the configured list decides every request, by the auth rule, else the GET users rule, else the users rule, else anyRequest |
| SecurityConfig.AuthIsPublic | src/main/kotlin/com/example/simpleuser/config/security/SecurityConfig.kt:44-45 | a path matching the auth pattern is allowed for every method, with or without identity |
| SecurityConfig.UsersReadNeedsRole | src/main/kotlin/com/example/simpleuser/config/security/SecurityConfig.kt:47-48 | a GET matching the users pattern is allowed exactly for an ADMIN or USER identity, and is Unauthenticated without identity |
| SecurityConfig.UsersWriteNeedsAdmin | src/main/kotlin/com/example/simpleuser/config/security/SecurityConfig.kt:50-51 | any other method matching the users pattern is allowed exactly for ADMIN; USER is Forbidden, no identity Unauthenticated |
| SecurityConfig.OtherNeedsAuthentication | src/main/kotlin/com/example/simpleuser/config/security/SecurityConfig.kt:53 | a request no earlier rule matches is allowed for any identity and Unauthenticated without one |
| SecurityConfig.AnonymousOnlyReachesAuth | src/main/kotlin/com/example/simpleuser/config/security/SecurityConfig.kt:47-53 | without identity, every request outside the auth pattern is denied as Unauthenticated |
| SpringPaths.UsersPathsAreNotAuth | src/main/kotlin/com/example/simpleuser/config/security/SecurityConfig.kt:44-45 | no path below /api/users matches the auth pattern |
| SpringPaths.UsersPatternIsOneSegment | src/main/kotlin/com/example/simpleuser/config/security/SecurityConfig.kt:47-51 | under the framework's path-pattern rules, the configured users pattern only matches paths of three segments |
| SpringPaths.UsersTreePatternMatches | src/main/kotlin/com/example/simpleuser/config/security/SecurityConfig.kt:47-51 | the pattern "/api/users/**" matches exactly the paths whose first segments are "", "api", "users" |
| SpringPaths.AsConfiguredUserWritesBelowUsers | src/main/kotlin/com/example/simpleuser/config/security/SecurityConfig.kt:50-53 | as configured, a request of any method on any path with at least one segment below /api/users/ (/api/users/admin included) is allowed for a USER identity |
| SpringPaths.AsConfiguredUserDeletesById | src/main/kotlin/com/example/simpleuser/config/security/SecurityConfig.kt:50-53 | as configured, DELETE /api/users/id/42 by a USER is allowed |
| SpringPaths.IntendedUsersReads | src/main/kotlin/com/example/simpleuser/config/security/SecurityConfig.kt:47-48 | with the intended pattern, a GET below /api/users is allowed exactly for an identity, and Unauthenticated without one |
| SpringPaths.IntendedUsersWrites | src/main/kotlin/com/example/simpleuser/config/security/SecurityConfig.kt:50-51 | with the intended pattern, any other method below /api/users is allowed exactly for ADMIN, and Forbidden for USER |
| SpringPaths.IntendedUserCannotDeleteById | src/main/kotlin/com/example/simpleuser/config/security/SecurityConfig.kt:50-51 | with the intended pattern, DELETE /api/users/id/42 by a USER is Forbidden |
| UserController.MappingOf | src/main/kotlin/com/example/simpleuser/api/controller/user/UserController.kt:20-57 | only the admin endpoint has a role guard; exactly the list, lookup and admin endpoints are GETs; the DELETE endpoints answer NO_CONTENT |
| UserController.RoutesAreDistinct | src/main/kotlin/com/example/simpleuser/api/controller/user/UserController.kt:24-55 | no two handlers share a method and path template |
| UserController.PathOf | src/main/kotlin/com/example/simpleuser/api/controller/user/UserController.kt:20-55 | the path of a call lies under /api/users, and a call without a path variable has exactly its route's template as path |
| UserController.Authorize | src/main/kotlin/com/example/simpleuser/api/controller/user/UserController.kt:55-57 | a request is allowed exactly when the URL rules allow it and, for a guarded handler, the identity has the guard's role; an unguarded handler gets exactly the URL rules' decision |
| UserController.AdminInfoOnlyForAdmin | src/main/kotlin/com/example/simpleuser/api/controller/user/UserController.kt:55-63 | for every path matcher and users pattern, the admin endpoint is served exactly for ADMIN; USER is Forbidden, no identity Unauthenticated |
| UserController.GuardDeniesWhatRulesAllow | src/main/kotlin/com/example/simpleuser/api/controller/user/UserController.kt:55-57 | where the URL rules let a USER read, the guard alone turns it away from the admin endpoint |
| UserController.AsConfiguredUserReachesDeleteById | src/main/kotlin/com/example/simpleuser/api/controller/user/UserController.kt:44-47 | as configured, a USER's delete of account 42, on the path its route gives, passes both security layers, so it reaches the service |
| UserController.IntendedUserIsForbiddenDeleteById | src/main/kotlin/com/example/simpleuser/api/controller/user/UserController.kt:44-47 | with the intended users pattern, the same request is Forbidden |
| UserController.ServedStatus | src/main/kotlin/com/example/simpleuser/api/controller/user/UserController.kt:24-52 | a served call answers with its route's success status, or, when the service threw, with a 4xx status and the table unchanged |
| UserController.Controller.constructor | src/main/kotlin/com/example/simpleuser/api/controller/user/UserController.kt:21-23 | the controller holds the given service |
| UserController.Controller.Handle | src/main/kotlin/com/example/simpleuser/api/controller/user/UserController.kt:24-63 | each handler forwards to its service operation: the list with OK, lookups with OK, create with CREATED, deletes with NO_CONTENT, the admin map with ACCEPTED, or the exception's status and its reason text; the table changes as that operation says |
| UserController.Controller.Serve | src/main/kotlin/com/example/simpleuser/api/controller/user/UserController.kt:55-63 | a request, on the path its route gives, denied by either security layer is rejected with that denial and the table untouched; an allowed one is handled as Handle states |

## Left out

- Password hashing: `BCryptPasswordEncoder` is the injected function `encode`. Bcrypt salting is not modelled: in the model, encoding the same password twice gives the same hash.
- Token handling: the JWT filter and issuance are not part of this model, nor are `AuthController`, `AuthService` and `JwtService`. The identity a request carries is an input, `Option<Identity>`.
- Path matching: the framework's matcher is a parameter of every rule property. `SpringPaths` is one concrete reading of its path patterns, used only for the finding. The `ROLE_` prefix is taken as given, and roles are compared directly.
- Sessions: the stateless session policy (SecurityConfig.kt:55-57) needs no model. The decision is a function of the rules, the method, the path and the identity.
- Rejection statuses: the status codes the framework sends for Unauthenticated and Forbidden are not modelled. Neither is the error body the framework renders for a ResponseStatusException; `Problem(message)` carries only its reason text.
- Routing: parsing an incoming request into a handler call is not modelled. `Serve` takes the routed call and checks it on the path `PathOf` gives it; `RoutesAreDistinct` states that the route table is unambiguous. Percent-encoding of an email inside a path is not modelled.
- Listing order: the order `findAll` returns records in is not modelled. `ListViews` returns the views in some order.
- Ids: UUIDs are natural numbers and the store picks any unused one. The id in a reason text (`Message`) is written in decimal, not in UUID text form.
- UserServiceImpl.UserService.constructor: requires the 25 generated accounts to have distinct emails, none of them "admin" or "user". The generator's data is random; a collision would make the source's save fail on the natural-id constraint, and that failure is not modelled.
- Entity.StringHash: hashes Unicode scalar values. Java hashes UTF-16 code units, so the two differ for characters outside the Basic Multilingual Plane.
- Lookups: `getUserById` and `getUserByEmail` are functions of the service's table, not methods of the class, because they change nothing.
- Not modelled: logging, JPA/H2 persistence, CSRF/CORS settings, `User.toString`, and the race between `existsByEmail` and `save` under concurrent requests. Operations run one at a time.

## Findings

| source | as written | input that shows it | evidently intended | confidence | as-written member | corrected member |
|---|---|---|---|---|---|---|
| src/main/kotlin/com/example/simpleuser/config/security/SecurityConfig.kt:47-51 | both users rules use `/api/users**`. Under the framework's path-pattern rules that is a single-segment glob, matching `/api/users` but nothing below it | DELETE `/api/users/id/42` with a USER identity: neither users rule matches, so `anyRequest().authenticated()` allows the delete | `/api/users/**`, so that reads below `/api/users` need a role and every other method needs ADMIN | not executed; medium, because it rests on the framework's pattern semantics, which `SpringPaths` models and which are not part of the source | SpringPaths.AsConfiguredUserDeletesById | SpringPaths.IntendedUsersWrites |
