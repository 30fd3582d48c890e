/**
 * One request through the middleware chain: the exception boundary
 * outermost, then authentication, then the logger, then the routed
 * endpoint. The response modelled is the one the boundary produces; it
 * reaches the client unchanged except for a thrown exception, whose
 * answer the logger as written loses (see Logging). POST uses the
 * checked id assignment, so a create at int.MaxValue throws.
 */
module Pipeline {
  import opened Users
  import opened Http
  import opened StoreSpec
  import opened Auth
  import UserStore

  const HelloText := "Hello World!"

  /** The routes the service maps, with the `{id}` segment already bound to an int. */
  datatype Route =
    | Root                            // GET /
    | ListUsers                       // GET /api/users
    | GetUser(id: Int32)              // GET /api/users/{id}
    | PostUser(body: User)            // POST /api/users
    | PutUser(id: Int32, body: User)  // PUT /api/users/{id}
    | DeleteUser(id: Int32)           // DELETE /api/users/{id}
    | TestException                   // GET /api/test-exception

  /** A request: the values of its Authorization header, in order, and its route. */
  datatype Request = Request(authorization: seq<string>, route: Route)

  /** What the client receives and the store the request leaves behind. */
  datatype Served = Served(response: Response, users: seq<User>)

  predicate Mutating(route: Route) {
    route.PostUser? || route.PutUser? || route.DeleteUser?
  }

  /** The endpoint a route maps to. */
  function Endpoint(route: Route, users: seq<User>, parses: string -> bool): Step {
    match route
    case Root => Step(Returned(Text(HelloText)), users)
    case ListUsers => Step(Returned(UserList(users)), users)
    case GetUser(id) => Step(Returned(Get(users, id)), users)
    case PostUser(body) => Create(users, body, parses)
    case PutUser(id, body) => Update(users, id, body)
    case DeleteUser(id) => Delete(users, id)
    case TestException => Step(Threw(TestExceptionMessage), users)
  }

  /** The whole chain around the endpoint. */
  function Serve(request: Request, users: seq<User>, parses: string -> bool): Served {
    if !Authorized(request.authorization) then Served(Unauthorized, users)
    else
      var s := Endpoint(request.route, users, parses);
      Served(Translate(s.reply), s.users)
  }

  /**
   * Only the POST, PUT and DELETE endpoints change the store; only the
   * test endpoint and the checked create at the id limit throw; no
   * endpoint breaks the store's invariant.
   */
  lemma EndpointEffects(route: Route, users: seq<User>, parses: string -> bool)
    ensures var s := Endpoint(route, users, parses);
      && (!Mutating(route) ==> s.users == users)
      && (s.reply.Threw? <==>
            route.TestException? || (route.PostUser? && Create(users, route.body, parses).reply.Threw?))
      && (s.reply.Returned? ==> Status(s.reply.response) != 401 && Status(s.reply.response) != 500)
      && (ValidUsers(users) ==> ValidUsers(s.users))
  {
    match route
    case PostUser(body) => PostEffects(users, body, parses);
    case PutUser(id, body) => PutEffects(users, id, body);
    case DeleteUser(id) => DeleteEffects(users, id);
    case _ =>
  }

  /** A create answers 400 or 201 when it returns, and keeps the store valid. */
  lemma PostEffects(users: seq<User>, body: User, parses: string -> bool)
    ensures var s := Create(users, body, parses);
      && (s.reply.Returned? ==> s.reply.response.BadRequest? || s.reply.response.Created?)
      && (ValidUsers(users) ==> ValidUsers(s.users))
  {
    CreateOutcome(users, body, parses);
    if ValidUsers(users) { CreatePreservesValid(users, body, parses); }
  }

  /** An update answers 204 or 404 and keeps the store valid. */
  lemma PutEffects(users: seq<User>, id: int, body: User)
    ensures var s := Update(users, id, body);
      && (s.reply == Returned(NoContent) || s.reply == Returned(NotFound))
      && (ValidUsers(users) ==> ValidUsers(s.users))
  {
    UpdateOutcome(users, id, body);
    if ValidUsers(users) { UpdatePreservesValid(users, id, body); }
  }

  /** A delete answers 204 or 404 and keeps the store valid. */
  lemma DeleteEffects(users: seq<User>, id: int)
    ensures var s := Delete(users, id);
      && (s.reply == Returned(NoContent) || s.reply == Returned(NotFound))
      && (ValidUsers(users) ==> ValidUsers(s.users))
  {
    DeleteOutcome(users, id);
  }

  /**
   * The chain as a whole: 401 exactly when the gate refuses; the store
   * changes only for an authorized POST, PUT or DELETE; the store's
   * invariant holds after every request.
   */
  lemma ServeEffects(request: Request, users: seq<User>, parses: string -> bool)
    ensures var r := Serve(request, users, parses);
      && (Status(r.response) == 401 <==> !Authorized(request.authorization))
      && (r.users != users ==> Authorized(request.authorization) && Mutating(request.route))
      && (ValidUsers(users) ==> ValidUsers(r.users))
  {
    EndpointEffects(request.route, users, parses);
  }

  /** A missing or wrong token is answered 401 and the endpoint has no effect on the store. */
  lemma UnauthorizedShortCircuits(request: Request, users: seq<User>, parses: string -> bool)
    requires !Authorized(request.authorization)
    ensures Serve(request, users, parses) == Served(Unauthorized, users)
  {
  }

  /**
   * The boundary answers an endpoint exception with a 500 carrying its
   * message and the store unchanged; test-exception always throws.
   */
  lemma ThrownBecomes500(request: Request, users: seq<User>, parses: string -> bool)
    requires Authorized(request.authorization)
    ensures var s := Endpoint(request.route, users, parses);
      s.reply.Threw? ==> Serve(request, users, parses) == Served(ServerError(s.reply.message), users)
    ensures request.route.TestException? ==>
              Serve(request, users, parses).response == ServerError(TestExceptionMessage)
  {
  }

  /**
   * A status of 500 arises only from a thrown exception: the test endpoint
   * or the checked create at the id limit.
   */
  lemma Only500FromThrow(request: Request, users: seq<User>, parses: string -> bool)
    ensures Status(Serve(request, users, parses).response) == 500 <==>
              Authorized(request.authorization) &&
              (request.route.TestException? ||
               (request.route.PostUser? && Create(users, request.route.body, parses).reply.Threw?))
  {
    EndpointEffects(request.route, users, parses);
  }

  /** The routed endpoint, run in place on the shared store. */
  method Dispatch(store: UserStore.Store, route: Route, parses: string -> bool) returns (reply: Reply)
    requires store.Valid()
    modifies store
    ensures store.Valid()
    ensures Step(reply, store.users) == Endpoint(route, old(store.users), parses)
  {
    match route {
      case Root => reply := Returned(Text(HelloText));
      case ListUsers => reply := Returned(store.List());
      case GetUser(id) => reply := Returned(store.Get(id));
      case PostUser(body) => reply := store.Create(body, parses);
      case PutUser(id, body) => reply := store.Update(id, body);
      case DeleteUser(id) => reply := store.Delete(id);
      case TestException => reply := Threw(TestExceptionMessage);
    }
  }

  /** The service handling one request, in place on the shared store. */
  method Handle(store: UserStore.Store, request: Request, parses: string -> bool) returns (response: Response)
    requires store.Valid()
    modifies store
    ensures store.Valid()
    ensures Served(response, store.users) == Serve(request, old(store.users), parses)
  {
    if !Authorized(request.authorization) {
      return Unauthorized;
    }
    var reply := Dispatch(store, request.route, parses);
    response := Translate(reply);
  }
}
