/**
 * What the user service does to the user repository, stated on values: the repository
 * is a table from generated id to stored User, the service's lookups are functions of
 * the table, and each state-changing operation is a function from the old table to its
 * result and the new table. The class in user_service.dfy runs these on a field.
 */
module UserTable {

  import opened Http
  import opened Entity

  /** Body of a create request. */
  datatype UserRequest = UserRequest(email: string, password: string)

  /** What the service hands out about a user: id and email, never the password. */
  datatype UserResponse = UserResponse(id: Uuid, email: string)

  /** The reason text of a ResponseStatusException, kept structured (see Message). */
  datatype Reason =
    | UserNotFoundWithId(id: Uuid)
    | UserNotFoundWithEmail(email: string)
    | UserAlreadyExistsWithEmail(email: string)

  datatype ResponseStatusException = ResponseStatusException(status: HttpStatus, reason: Reason)

  /** A service call either returns a value or throws a ResponseStatusException. */
  datatype Result<+T> = Ok(value: T) | Err(error: ResponseStatusException)

  /** The repository: stored users by id. */
  type Table = map<Uuid, User>

  /** The outcome of a state-changing operation: its result and the table after it. */
  datatype Step<+T> = Step(result: Result<T>, table: Table)

  /** Every stored record carries the id it is stored under. */
  ghost predicate Keyed(t: Table)
  {
    forall k :: k in t ==> t[k].id == Some(k)
  }

  /** Email is a natural key: no two records share one. */
  ghost predicate UniqueEmails(t: Table)
  {
    forall a, b :: a in t && b in t && t[a].email == t[b].email ==> a == b
  }

  ghost predicate Valid(t: Table)
  {
    Keyed(t) && UniqueEmails(t)
  }

  /** `existsByEmail`. */
  predicate ExistsByEmail(t: Table, email: string)
  {
    exists k :: k in t && t[k].email == email
  }

  /** `findByIdOrNull`. */
  function FindById(t: Table, id: Uuid): Option<User>
  {
    if id in t then Some(t[id]) else None
  }

  /** `findByEmail`: the one record with this email, if any. */
  function FindByEmail(t: Table, email: string): (r: Option<User>)
    requires UniqueEmails(t)
    ensures r.Some? <==> ExistsByEmail(t, email)
    ensures r.Some? ==> r.value.email == email && exists k :: k in t && t[k] == r.value
  {
    if ExistsByEmail(t, email) then
      var k :| k in t && t[k].email == email;
      Some(t[k])
    else
      None
  }

  /** `save` of a new entity: the store generates `id` and records the entity under it. */
  function Save(t: Table, u: User, id: Uuid): Table
  {
    t[id := u.(id := Some(id))]
  }

  /** Saving a user under an unused id and an unused email keeps the table valid. */
  lemma SaveNewKeepsValid(t: Table, u: User, id: Uuid)
    requires Valid(t) && id !in t && !ExistsByEmail(t, u.email)
    ensures Valid(Save(t, u, id))
    ensures |Save(t, u, id)| == |t| + 1
  {
  }

  /** The record found by an email is the one stored with it. */
  lemma FindByEmailAt(t: Table, k: Uuid)
    requires UniqueEmails(t) && k in t
    ensures FindByEmail(t, t[k].email) == Some(t[k])
  {
  }

  /** `toEntity`: a request becomes an unsaved USER with the encoded password. */
  function ToEntity(req: UserRequest, encode: string -> string): (u: User)
    ensures u.id.None? && u.role == USER
    ensures u.email == req.email && u.password == encode(req.password)
  {
    User(None, req.email, encode(req.password), USER)
  }

  /** `toResponse`: the `!!` on the id fails for an unsaved entity. */
  function ToResponse(u: User): (r: UserResponse)
    requires u.id.Some?
    ensures Some(r.id) == u.id && r.email == u.email
  {
    UserResponse(u.id.value, u.email)
  }

  /** A request, once saved under `id`, is handed back as exactly (id, its email). */
  lemma RequestRoundTrip(req: UserRequest, encode: string -> string, id: Uuid)
    ensures ToResponse(ToEntity(req, encode).(id := Some(id))) == UserResponse(id, req.email)
  {
  }

  const Digits: string := "0123456789"

  /** Decimal digits of a number, used to render an id inside a reason. */
  function NatText(n: nat): (r: string)
    ensures |r| >= 1 && (n >= 10 <==> |r| >= 2)
    ensures r[|r| - 1] == Digits[n % 10]
  {
    if n < 10 then [Digits[n]] else NatText(n / 10) + [Digits[n % 10]]
  }

  /** The digits are distinct characters. */
  lemma DigitsDistinct(i: nat, j: nat)
    requires i < 10 && j < 10 && Digits[i] == Digits[j]
    ensures i == j
  {
    assert forall k :: 0 <= k < 10 ==> Digits[k] as int == '0' as int + k;
  }

  /** Dropping the last digit of a number of two or more digits renders its tenth. */
  lemma NatTextPrefix(n: nat)
    requires n >= 10
    ensures NatText(n)[..|NatText(n)| - 1] == NatText(n / 10)
  {
    var p := NatText(n / 10);
    assert NatText(n) == p + [Digits[n % 10]];
    assert (p + [Digits[n % 10]])[..|p|] == p;
  }

  /** Different numbers are rendered differently. */
  lemma {:induction false} NatTextInjective(a: nat, b: nat)
    requires NatText(a) == NatText(b)
    ensures a == b
  {
    DigitsDistinct(a % 10, b % 10);
    if a >= 10 {
      NatTextPrefix(a);
      NatTextPrefix(b);
      NatTextInjective(a / 10, b / 10);
    }
  }

  const NotFoundWithId: string := "User not found with id="
  const NotFoundWithEmail: string := "User not found with email="
  const AlreadyExistsWithEmail: string := "User already exists with email="

  /** The reason text the service puts in its exception: a fixed template, then the key. */
  function Message(reason: Reason): (r: string)
    ensures reason.UserNotFoundWithId? ==>
      |r| > |NatText(reason.id)| && r[|r| - |NatText(reason.id)|..] == NatText(reason.id)
    ensures !reason.UserNotFoundWithId? ==> |r| > |reason.email| && r[|r| - |reason.email|..] == reason.email
  {
    match reason
    case UserNotFoundWithId(id) => NotFoundWithId + NatText(id)
    case UserNotFoundWithEmail(email) => NotFoundWithEmail + email
    case UserAlreadyExistsWithEmail(email) => AlreadyExistsWithEmail + email
  }

  /** The three templates differ at character 5 or 20. */
  lemma TemplatesDiffer(r: Reason)
    ensures Message(r)[5] == (if r.UserAlreadyExistsWithEmail? then 'a' else 'n')
    ensures r.UserNotFoundWithId? ==> Message(r)[20] == 'i'
    ensures r.UserNotFoundWithEmail? ==> Message(r)[20] == 'e'
  {
    assert NotFoundWithId[5] == 'n' && NotFoundWithId[20] == 'i';
    assert NotFoundWithEmail[5] == 'n' && NotFoundWithEmail[20] == 'e';
    assert AlreadyExistsWithEmail[5] == 'a';
  }

  /** The reason text identifies the failure and its key: no two reasons share a text. */
  lemma MessageInjective(a: Reason, b: Reason)
    requires Message(a) == Message(b)
    ensures a == b
  {
    TemplatesDiffer(a);
    TemplatesDiffer(b);
    var m := Message(a);
    match a
    case UserNotFoundWithId(x) =>
      assert m[|NotFoundWithId|..] == NatText(x) == NatText(b.id);
      NatTextInjective(x, b.id);
    case UserNotFoundWithEmail(x) =>
      assert m[|NotFoundWithEmail|..] == x == b.email;
    case UserAlreadyExistsWithEmail(x) =>
      assert m[|AlreadyExistsWithEmail|..] == x == b.email;
  }

  /** A view never depends on the stored password or role. */
  lemma ResponseHidesPassword(u: User, password: string, role: Role)
    requires u.id.Some?
    ensures ToResponse(u) == ToResponse(u.(password := password, role := role))
  {
  }

  /** `getUserById`: the view of the record stored under `id`, else NOT_FOUND. */
  function GetUserById(t: Table, id: Uuid): (r: Result<UserResponse>)
    requires Keyed(t)
    ensures r.Ok? <==> id in t
    ensures r.Ok? ==> r.value.id == id && r.value.email == t[id].email
    ensures r.Err? ==> r.error == ResponseStatusException(NOT_FOUND, UserNotFoundWithId(id))
  {
    match FindById(t, id)
    case Some(u) => Ok(ToResponse(u))
    case None => Err(ResponseStatusException(NOT_FOUND, UserNotFoundWithId(id)))
  }

  /** `getUserByEmail`: the view of the record with this email, else NOT_FOUND. */
  function GetUserByEmail(t: Table, email: string): (r: Result<UserResponse>)
    requires Valid(t)
    ensures r.Ok? <==> ExistsByEmail(t, email)
    ensures r.Ok? ==> r.value.email == email && r.value.id in t && t[r.value.id].email == email
    ensures r.Err? ==> r.error == ResponseStatusException(NOT_FOUND, UserNotFoundWithEmail(email))
  {
    match FindByEmail(t, email)
    case Some(u) => Ok(ToResponse(u))
    case None => Err(ResponseStatusException(NOT_FOUND, UserNotFoundWithEmail(email)))
  }

  /** The ids a list of views mentions. */
  ghost function IdsOf(views: seq<UserResponse>): set<Uuid>
  {
    set i | 0 <= i < |views| :: views[i].id
  }

  /** No id appears twice in a list of views. */
  ghost predicate Distinct(views: seq<UserResponse>)
  {
    forall i, j :: 0 <= i < j < |views| ==> views[i].id != views[j].id
  }

  /** Each view shows a stored record: its id and its email. */
  ghost predicate ViewsOf(t: Table, views: seq<UserResponse>)
  {
    forall i :: 0 <= i < |views| ==> views[i].id in t && views[i].email == t[views[i].id].email
  }

  /** What `getUsers` returns: exactly one view per stored record. */
  ghost predicate ViewListing(t: Table, views: seq<UserResponse>)
  {
    |views| == |t| && ViewsOf(t, views) && Distinct(views) && IdsOf(views) == t.Keys
  }

  /** Appending the view of a record not yet listed keeps the listing sound. */
  lemma AppendView(t: Table, views: seq<UserResponse>, v: UserResponse)
    requires ViewsOf(t, views) && Distinct(views)
    requires v.id in t && v.email == t[v.id].email && v.id !in IdsOf(views)
    ensures ViewsOf(t, views + [v]) && Distinct(views + [v])
    ensures IdsOf(views + [v]) == IdsOf(views) + {v.id}
  {
    var w := views + [v];
    assert forall i :: 0 <= i < |views| ==> w[i] == views[i];
    assert w[|views|] == v;
    assert forall i :: 0 <= i < |views| ==> views[i].id in IdsOf(views);
  }

  /**
   * `createUser`: a taken email is refused with BAD_REQUEST and nothing changes;
   * otherwise exactly one record is added, under the generated `id`, with the request's
   * email, the encoded password and role USER, and the view of it is returned.
   */
  function Create(t: Table, req: UserRequest, encode: string -> string, id: Uuid): (s: Step<UserResponse>)
    requires Valid(t) && id !in t
    ensures Valid(s.table)
    ensures ExistsByEmail(t, req.email) ==>
      s == Step(Err(ResponseStatusException(BAD_REQUEST, UserAlreadyExistsWithEmail(req.email))), t)
    ensures !ExistsByEmail(t, req.email) ==>
      && s.result == Ok(UserResponse(id, req.email))
      && s.table.Keys == t.Keys + {id}
      && |s.table| == |t| + 1
      && s.table[id] == User(Some(id), req.email, encode(req.password), USER)
      && (forall k :: k in t ==> s.table[k] == t[k])
  {
    if ExistsByEmail(t, req.email) then
      Step(Err(ResponseStatusException(BAD_REQUEST, UserAlreadyExistsWithEmail(req.email))), t)
    else
      SaveNewKeepsValid(t, ToEntity(req, encode), id);
      var t' := Save(t, ToEntity(req, encode), id);
      Step(Ok(ToResponse(t'[id])), t')
  }

  /**
   * `deleteUserById`: a present id loses exactly its record; an absent id is NOT_FOUND
   * and nothing is deleted.
   */
  function DeleteById(t: Table, id: Uuid): (s: Step<()>)
    requires Valid(t)
    ensures Valid(s.table)
    ensures id in t ==> s.result.Ok? && s.table == t - {id} && |s.table| == |t| - 1
    ensures id !in t ==> s == Step(Err(ResponseStatusException(NOT_FOUND, UserNotFoundWithId(id))), t)
  {
    match FindById(t, id)
    case Some(_) => Step(Ok(()), t - {id})
    case None => Step(Err(ResponseStatusException(NOT_FOUND, UserNotFoundWithId(id))), t)
  }

  /**
   * `deleteUserByEmail`: the record with this email is deleted through its id and no
   * other record changes; with no such record it is NOT_FOUND and nothing is deleted.
   */
  function DeleteByEmail(t: Table, email: string): (s: Step<()>)
    requires Valid(t)
    ensures Valid(s.table)
    ensures ExistsByEmail(t, email) ==>
      && s.result.Ok?
      && !ExistsByEmail(s.table, email)
      && |s.table| == |t| - 1
      && (forall k :: k in t ==> (k in s.table <==> t[k].email != email))
      && (forall k :: k in s.table ==> k in t && s.table[k] == t[k])
    ensures !ExistsByEmail(t, email) ==>
      s == Step(Err(ResponseStatusException(NOT_FOUND, UserNotFoundWithEmail(email))), t)
  {
    match FindByEmail(t, email)
    case Some(u) => Step(Ok(()), t - {u.id.value})
    case None => Step(Err(ResponseStatusException(NOT_FOUND, UserNotFoundWithEmail(email))), t)
  }

  /** A user just created is found again by its id and by its email, with the same view. */
  lemma CreateThenGet(t: Table, req: UserRequest, encode: string -> string, id: Uuid)
    requires Valid(t) && id !in t && !ExistsByEmail(t, req.email)
    ensures GetUserById(Create(t, req, encode, id).table, id) == Create(t, req, encode, id).result
    ensures GetUserByEmail(Create(t, req, encode, id).table, req.email) == Create(t, req, encode, id).result
  {
  }

  /** Creating two accounts with one email: the second is refused and changes nothing. */
  lemma CreateSameEmailTwice(t: Table, first: UserRequest, second: UserRequest,
                             encode: string -> string, id1: Uuid, id2: Uuid)
    requires Valid(t) && id1 !in t && !ExistsByEmail(t, first.email)
    requires id2 !in Create(t, first, encode, id1).table && second.email == first.email
    ensures Create(Create(t, first, encode, id1).table, second, encode, id2)
         == Step(Err(ResponseStatusException(BAD_REQUEST, UserAlreadyExistsWithEmail(first.email))),
                 Create(t, first, encode, id1).table)
  {
  }

  /** After a delete by id the id is gone: looking it up or deleting it again is NOT_FOUND. */
  lemma DeleteByIdThenAbsent(t: Table, id: Uuid)
    requires Valid(t)
    ensures GetUserById(DeleteById(t, id).table, id).Err?
    ensures DeleteById(DeleteById(t, id).table, id)
         == Step(Err(ResponseStatusException(NOT_FOUND, UserNotFoundWithId(id))), DeleteById(t, id).table)
  {
  }

  /** After a delete by email the email is free: it cannot be found and can be registered again. */
  lemma DeleteByEmailFreesEmail(t: Table, req: UserRequest, encode: string -> string, id: Uuid)
    requires Valid(t) && id !in DeleteByEmail(t, req.email).table
    ensures GetUserByEmail(DeleteByEmail(t, req.email).table, req.email).Err?
    ensures Create(DeleteByEmail(t, req.email).table, req, encode, id).result == Ok(UserResponse(id, req.email))
  {
  }
}
