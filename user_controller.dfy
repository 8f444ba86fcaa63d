/**
 * `UserController`: the REST endpoints under "/api/users". Each endpoint is a route
 * (HTTP method and path template), a success status and, for the admin endpoint, a
 * method-level role guard; a request passes the URL rules, then the guard, then reaches
 * the handler, which forwards to the user service.
 */
module UserController {

  import opened Http
  import opened Entity
  import opened UserTable
  import opened SecurityConfig
  import opened UserServiceImpl
  import opened SpringPaths

  /** The controller's handlers. */
  datatype Endpoint = GetAll | GetById | GetByEmail | CreateOne | DeleteOneById | DeleteOneByEmail | AdminInfo

  /** A request as routed to a handler, with its path variables and body. */
  datatype Call =
    | ListCall
    | ByIdCall(id: Uuid)
    | ByEmailCall(email: string)
    | CreateCall(body: UserRequest)
    | DeleteByIdCall(id: Uuid)
    | DeleteByEmailCall(email: string)
    | AdminInfoCall

  function EndpointOf(call: Call): Endpoint
  {
    match call
    case ListCall => GetAll
    case ByIdCall(_) => GetById
    case ByEmailCall(_) => GetByEmail
    case CreateCall(_) => CreateOne
    case DeleteByIdCall(_) => DeleteOneById
    case DeleteByEmailCall(_) => DeleteOneByEmail
    case AdminInfoCall => AdminInfo
  }

  /** The annotations of a handler: route, `@ResponseStatus` and `@PreAuthorize` role. */
  datatype Mapping = Mapping(verb: HttpMethod, template: string, status: HttpStatus, guard: Option<Role>)

  const Base: string := "/api/users"

  function MappingOf(e: Endpoint): (m: Mapping)
    ensures m.guard.Some? <==> e == AdminInfo
    ensures m.verb == GET <==> e in {GetAll, GetById, GetByEmail, AdminInfo}
    ensures m.verb == DELETE ==> m.status == NO_CONTENT
  {
    match e
    case GetAll => Mapping(GET, Base, OK, None)
    case GetById => Mapping(GET, Base + "/id/{id}", OK, None)
    case GetByEmail => Mapping(GET, Base + "/email/{email}", OK, None)
    case CreateOne => Mapping(POST, Base, CREATED, None)
    case DeleteOneById => Mapping(DELETE, Base + "/id/{id}", NO_CONTENT, None)
    case DeleteOneByEmail => Mapping(DELETE, Base + "/email/{email}", NO_CONTENT, None)
    case AdminInfo => Mapping(GET, Base + "/admin", ACCEPTED, Some(ADMIN))
  }

  /** No two handlers share a route. */
  lemma RoutesAreDistinct(a: Endpoint, b: Endpoint)
    requires MappingOf(a).verb == MappingOf(b).verb && MappingOf(a).template == MappingOf(b).template
    ensures a == b
  {
  }

  /** The request path of a call: its route template with the path variable filled in. */
  function PathOf(call: Call): (path: string)
    ensures |path| >= |Base| && path[..|Base|] == Base
    ensures !(call.ByIdCall? || call.ByEmailCall? || call.DeleteByIdCall? || call.DeleteByEmailCall?) ==>
      path == MappingOf(EndpointOf(call)).template
  {
    match call
    case ByIdCall(id) => Base + "/id/" + NatText(id)
    case DeleteByIdCall(id) => Base + "/id/" + NatText(id)
    case ByEmailCall(email) => Base + "/email/" + email
    case DeleteByEmailCall(email) => Base + "/email/" + email
    case _ => MappingOf(EndpointOf(call)).template
  }

  /** What `adminInfo` returns. */
  const AdminInfoEntries: map<string, string> :=
    map["admin" := "best", "rest" := "api", "lol" := "kek", "chebu" := "rek"]

  datatype Body =
    | Views(views: seq<UserResponse>)
    | View(view: UserResponse)
    | Info(entries: map<string, string>)
    | NoBody
    | Problem(message: string)

  /** A response: a status and body, or a rejection by the security layer. */
  datatype Response = Response(status: HttpStatus, body: Body) | Rejected(denial: Denial)

  /** A handler returning a view: the success status with it, or the exception's status and reason. */
  function ReplyView(success: HttpStatus, r: Result<UserResponse>): Response
  {
    match r
    case Ok(v) => Response(success, View(v))
    case Err(e) => Response(e.status, Problem(Message(e.reason)))
  }

  /** A handler returning nothing. */
  function ReplyUnit(success: HttpStatus, r: Result<()>): Response
  {
    match r
    case Ok(_) => Response(success, NoBody)
    case Err(e) => Response(e.status, Problem(Message(e.reason)))
  }

  /**
   * Both security layers: the URL rules decide on the route's method and the request
   * path, and a request they allow must then satisfy the handler's role guard.
   */
  function Authorize(rules: seq<Rule>, matches: PathMatcher, path: string, identity: Option<Identity>,
                     e: Endpoint): (d: Decision)
    requires EndsWithAnyRequest(rules)
    ensures d == Allow <==>
      && Decide(rules, matches, MappingOf(e).verb, path, identity) == Some(Allow)
      && (MappingOf(e).guard.None? || (identity.Some? && identity.value.role == MappingOf(e).guard.value))
    ensures MappingOf(e).guard.None? ==> Some(d) == Decide(rules, matches, MappingOf(e).verb, path, identity)
  {
    var url := Decide(rules, matches, MappingOf(e).verb, path, identity).value;
    if url.Deny? then url
    else match MappingOf(e).guard
      case None => Allow
      case Some(role) => Check(HasAnyRole({role}), identity)
  }

  /**
   * Whatever the path matcher does and whichever users pattern the rules use, the admin
   * endpoint serves exactly ADMIN identities; a USER is forbidden and no identity is
   * unauthenticated.
   */
  lemma AdminInfoOnlyForAdmin(usersPattern: string, matches: PathMatcher, path: string,
                              identity: Option<Identity>)
    ensures Authorize(Rules(usersPattern), matches, path, identity, AdminInfo) == Allow
        <==> identity.Some? && identity.value.role == ADMIN
    ensures identity.Some? && identity.value.role == USER ==>
      Authorize(Rules(usersPattern), matches, path, identity, AdminInfo) == Deny(Forbidden)
    ensures identity.None? ==>
      Authorize(Rules(usersPattern), matches, path, identity, AdminInfo) == Deny(Unauthenticated)
  {
    RulesDecide(usersPattern, matches, GET, path, identity);
  }

  /**
   * The guard is not redundant: on a path the users rules cover, the URL rules let a
   * USER read, and only the guard turns it away from the admin endpoint.
   */
  lemma GuardDeniesWhatRulesAllow(usersPattern: string, matches: PathMatcher, path: string, subject: string)
    requires !matches(AuthPattern, path) && matches(usersPattern, path)
    ensures Decide(Rules(usersPattern), matches, GET, path, Some(Identity(subject, USER))) == Some(Allow)
    ensures Authorize(Rules(usersPattern), matches, path, Some(Identity(subject, USER)), AdminInfo) == Deny(Forbidden)
  {
    UsersReadNeedsRole(usersPattern, matches, path, Some(Identity(subject, USER)));
    AdminInfoOnlyForAdmin(usersPattern, matches, path, Some(Identity(subject, USER)));
  }

  /**
   * The finding at the controller: as configured, a USER's request to delete account 42
   * passes both security layers, so `Serve` hands it to the service.
   */
  lemma AsConfiguredUserReachesDeleteById(subject: string)
    ensures Authorize(AuthorizeHttpRequests(), SpringMatches, PathOf(DeleteByIdCall(42)),
                      Some(Identity(subject, USER)), DeleteOneById) == Allow
  {
    assert PathOf(DeleteByIdCall(42)) == "/api/users/id/42";
    AsConfiguredUserDeletesById(subject);
  }

  /** With the intended users pattern, the same request is forbidden. */
  lemma IntendedUserIsForbiddenDeleteById(subject: string)
    ensures Authorize(IntendedRules(), SpringMatches, PathOf(DeleteByIdCall(42)),
                      Some(Identity(subject, USER)), DeleteOneById) == Deny(Forbidden)
  {
    assert PathOf(DeleteByIdCall(42)) == "/api/users/id/42";
    IntendedUserCannotDeleteById(subject);
  }

  /**
   * What serving `call` on table `t` answers and leaves behind: the handler's service
   * call, with its result wrapped in the route's success status, or the exception's.
   */
  ghost predicate Served(call: Call, t: Table, encode: string -> string, resp: Response, t': Table)
    requires UserTable.Valid(t)
  {
    match call
    case ListCall =>
      t' == t && resp.Response? && resp.status == OK && resp.body.Views? && ViewListing(t, resp.body.views)
    case ByIdCall(id) => t' == t && resp == ReplyView(OK, GetUserById(t, id))
    case ByEmailCall(email) => t' == t && resp == ReplyView(OK, GetUserByEmail(t, email))
    case CreateCall(req) =>
      var id := if resp.Response? && resp.body.View? then resp.body.view.id else Bound(t.Keys);
      && id !in t
      && resp == ReplyView(CREATED, Create(t, req, encode, id).result)
      && t' == Create(t, req, encode, id).table
    case DeleteByIdCall(id) =>
      resp == ReplyUnit(NO_CONTENT, DeleteById(t, id).result) && t' == DeleteById(t, id).table
    case DeleteByEmailCall(email) =>
      resp == ReplyUnit(NO_CONTENT, DeleteByEmail(t, email).result) && t' == DeleteByEmail(t, email).table
    case AdminInfoCall => t' == t && resp == Response(ACCEPTED, Info(AdminInfoEntries))
  }

  /** The statuses a served call can answer with. */
  ghost predicate StatusAsMapped(call: Call, resp: Response, tableKept: bool)
  {
    && resp.Response?
    && (!resp.body.Problem? ==> resp.status == MappingOf(EndpointOf(call)).status)
    && (resp.body.Problem? ==> 400 <= Code(resp.status) < 500 && tableKept)
  }

  /** A lookup answers OK with the view, or NOT_FOUND. */
  lemma LookupStatus(r: Result<UserResponse>)
    requires r.Err? ==> r.error.status == NOT_FOUND
    ensures ReplyView(OK, r).Response?
    ensures !ReplyView(OK, r).body.Problem? ==> ReplyView(OK, r).status == OK
    ensures ReplyView(OK, r).body.Problem? ==> Code(ReplyView(OK, r).status) == 404
  {
  }

  /** A refused creation answers BAD_REQUEST and keeps the table. */
  lemma CreateRefusedStatus(t: Table, req: UserRequest, encode: string -> string, id: Uuid)
    requires UserTable.Valid(t) && id !in t && ExistsByEmail(t, req.email)
    ensures StatusAsMapped(CreateCall(req), ReplyView(CREATED, Create(t, req, encode, id).result), true)
    ensures Create(t, req, encode, id).table == t
  {
    var r := Create(t, req, encode, id).result;
    assert r.Err? && r.error.status == BAD_REQUEST;
  }

  lemma CreateStatus(t: Table, req: UserRequest, encode: string -> string, id: Uuid)
    requires UserTable.Valid(t) && id !in t
    ensures StatusAsMapped(CreateCall(req), ReplyView(CREATED, Create(t, req, encode, id).result),
                           Create(t, req, encode, id).table == t)
  {
    if ExistsByEmail(t, req.email) {
      CreateRefusedStatus(t, req, encode, id);
    } else {
      assert Create(t, req, encode, id).result.Ok?;
    }
  }

  lemma DeleteByIdStatus(t: Table, id: Uuid)
    requires UserTable.Valid(t)
    ensures StatusAsMapped(DeleteByIdCall(id), ReplyUnit(NO_CONTENT, DeleteById(t, id).result),
                           DeleteById(t, id).table == t)
  {
  }

  lemma DeleteByEmailStatus(t: Table, email: string)
    requires UserTable.Valid(t)
    ensures StatusAsMapped(DeleteByEmailCall(email), ReplyUnit(NO_CONTENT, DeleteByEmail(t, email).result),
                           DeleteByEmail(t, email).table == t)
  {
  }

  /**
   * A served call answers with its route's `@ResponseStatus` unless the service threw,
   * in which case it answers with a client-error status and the table is unchanged.
   */
  lemma ServedStatus(call: Call, t: Table, encode: string -> string, resp: Response, t': Table)
    requires UserTable.Valid(t) && Served(call, t, encode, resp, t')
    ensures resp.Response?
    ensures !resp.body.Problem? ==> resp.status == MappingOf(EndpointOf(call)).status
    ensures resp.body.Problem? ==> 400 <= Code(resp.status) < 500 && t' == t
  {
    match call
    case CreateCall(req) =>
      var id := if resp.Response? && resp.body.View? then resp.body.view.id else Bound(t.Keys);
      CreateStatus(t, req, encode, id);
    case DeleteByIdCall(id) => DeleteByIdStatus(t, id);
    case DeleteByEmailCall(email) => DeleteByEmailStatus(t, email);
    case ByIdCall(id) => LookupStatus(GetUserById(t, id));
    case ByEmailCall(email) => LookupStatus(GetUserByEmail(t, email));
    case ListCall =>
    case AdminInfoCall =>
  }

  class Controller {
    const service: UserService

    constructor (service: UserService)
      ensures this.service == service
    {
      this.service := service;
    }

    /** Runs the handler of a routed request. */
    method Handle(call: Call) returns (resp: Response)
      requires service.Valid()
      modifies service
      ensures service.Valid()
      ensures Served(call, old(service.users), service.encode, resp, service.users)
    {
      match call
      case ListCall =>
        var views := service.GetUsers();
        resp := Response(OK, Views(views));
      case ByIdCall(id) =>
        resp := ReplyView(OK, GetUserById(service.users, id));
      case ByEmailCall(email) =>
        resp := ReplyView(OK, GetUserByEmail(service.users, email));
      case CreateCall(req) =>
        var r := service.CreateUser(req);
        resp := ReplyView(CREATED, r);
      case DeleteByIdCall(id) =>
        var r := service.DeleteUserById(id);
        resp := ReplyUnit(NO_CONTENT, r);
      case DeleteByEmailCall(email) =>
        var r := service.DeleteUserByEmail(email);
        resp := ReplyUnit(NO_CONTENT, r);
      case AdminInfoCall =>
        resp := Response(ACCEPTED, Info(AdminInfoEntries));
    }

    /**
     * A request through the whole chain, on the path its route gives: rejected with the
     * table untouched when either security layer denies it, otherwise handled.
     */
    method Serve(rules: seq<Rule>, matches: PathMatcher, identity: Option<Identity>, call: Call)
      returns (resp: Response)
      requires service.Valid() && EndsWithAnyRequest(rules)
      modifies service
      ensures service.Valid()
      ensures Authorize(rules, matches, PathOf(call), identity, EndpointOf(call)).Deny? ==>
        resp == Rejected(Authorize(rules, matches, PathOf(call), identity, EndpointOf(call)).denial)
        && service.users == old(service.users)
      ensures Authorize(rules, matches, PathOf(call), identity, EndpointOf(call)) == Allow ==>
        Served(call, old(service.users), service.encode, resp, service.users)
    {
      var d := Authorize(rules, matches, PathOf(call), identity, EndpointOf(call));
      if d.Deny? {
        resp := Rejected(d.denial);
      } else {
        resp := Handle(call);
      }
    }
  }
}
