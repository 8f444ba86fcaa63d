/**
 * `UserServiceImpl`: the service object that owns the user repository. The repository is
 * the field `users`, which the state-changing operations reassign; each of them is tied
 * to the transition function of UserTable that says what it does.
 */
module UserServiceImpl {

  import opened Http
  import opened Entity
  import opened UserTable

  /** Some id that the table does not use: the store can always generate one. */
  ghost function Bound(ids: set<Uuid>): (b: Uuid)
    ensures forall k :: k in ids ==> k < b
    decreases |ids|
  {
    if ids == {} then 0
    else
      var k :| k in ids;
      var b := Bound(ids - {k});
      assert forall j :: j in ids ==> j == k || j in ids - {k};
      if k < b then b else k + 1
  }

  lemma UnusedIdExists(t: Table)
    ensures exists id: Uuid :: id !in t
  {
    assert Bound(t.Keys) !in t;
  }

  /** Listing state: `views` lists the records whose ids are not in `rest`. */
  ghost predicate Listed(t: Table, views: seq<UserResponse>, rest: set<Uuid>)
  {
    && IdsOf(views) + rest == t.Keys && IdsOf(views) !! rest
    && |views| + |rest| == |t|
    && ViewsOf(t, views) && Distinct(views)
  }

  /** Listing one more record keeps the listing state. */
  lemma ListOneMore(t: Table, views: seq<UserResponse>, rest: set<Uuid>, k: Uuid)
    requires Keyed(t) && Listed(t, views, rest) && k in rest
    ensures Listed(t, views + [ToResponse(t[k])], rest - {k})
  {
    var v := ToResponse(t[k]);
    AppendView(t, views, v);
    assert IdsOf(views + [v]) + (rest - {k}) == t.Keys;
    assert |rest - {k}| == |rest| - 1;
  }

  /** Nothing listed yet: every record is still to be listed. */
  lemma ListNone(t: Table)
    ensures Listed(t, [], t.Keys)
  {
    assert IdsOf([]) == {};
  }

  /** Once no record is left, the listing is complete. */
  lemma ListDone(t: Table, views: seq<UserResponse>)
    requires Listed(t, views, {})
    ensures ViewListing(t, views)
  {
  }

  /** `findAll().map { it.toResponse() }`: the view of every stored record, in some order. */
  method ListViews(t: Table) returns (views: seq<UserResponse>)
    requires Keyed(t)
    ensures ViewListing(t, views)
  {
    views := [];
    var rest := t.Keys;
    ListNone(t);
    while rest != {}
      invariant Listed(t, views, rest)
      decreases |rest|
    {
      var k :| k in rest;
      ListOneMore(t, views, rest, k);
      views, rest := views + [ToResponse(t[k])], rest - {k};
    }
    ListDone(t, views);
  }

  /** `save` of a new entity whose email is not taken: the store generates an unused id. */
  method SaveNew(t: Table, u: User) returns (t': Table, id: Uuid)
    requires UserTable.Valid(t) && !ExistsByEmail(t, u.email)
    ensures id !in t && t' == Save(t, u, id)
    ensures UserTable.Valid(t') && |t'| == |t| + 1
  {
    UnusedIdExists(t);
    id :| id !in t;
    SaveNewKeepsValid(t, u, id);
    t' := Save(t, u, id);
  }

  /**
   * What `init` leaves in an empty store: an ADMIN "admin" and a USER "user", each with
   * its own name as password, and one USER per generated account, 27 records in all.
   */
  ghost predicate Seeded(t: Table, encode: string -> string, fakes: seq<UserRequest>)
    requires UniqueEmails(t)
  {
    && |t| == 2 + |fakes|
    && FindByEmail(t, "admin").Some?
    && FindByEmail(t, "admin").value.password == encode("admin")
    && FindByEmail(t, "admin").value.role == ADMIN
    && FindByEmail(t, "user").Some?
    && FindByEmail(t, "user").value.password == encode("user")
    && FindByEmail(t, "user").value.role == USER
    && forall i :: 0 <= i < |fakes| ==>
         && FindByEmail(t, fakes[i].email).Some?
         && FindByEmail(t, fakes[i].email).value.password == encode(fakes[i].password)
         && FindByEmail(t, fakes[i].email).value.role == USER
  }

  /** The 25 generated accounts: emails distinct from each other and from the fixed ones. */
  ghost predicate FreshFakes(fakes: seq<UserRequest>)
  {
    && (forall i :: 0 <= i < |fakes| ==> fakes[i].email != "admin" && fakes[i].email != "user")
    && (forall i, j :: 0 <= i < j < |fakes| ==> fakes[i].email != fakes[j].email)
  }

  /** The store after the fixed accounts and the first `n` generated ones are saved. */
  ghost predicate SeedProgress(t: Table, encode: string -> string, fakes: seq<UserRequest>, n: nat,
                               adminId: Uuid, userId: Uuid, fakeIds: seq<Uuid>)
  {
    && n <= |fakes| && |fakeIds| == n
    && UserTable.Valid(t) && |t| == 2 + n
    && adminId in t && t[adminId] == User(Some(adminId), "admin", encode("admin"), ADMIN)
    && userId in t && t[userId] == User(Some(userId), "user", encode("user"), USER)
    && (forall i :: 0 <= i < n ==>
          fakeIds[i] in t && t[fakeIds[i]] == User(Some(fakeIds[i]), fakes[i].email, encode(fakes[i].password), USER))
    && (forall k :: k in t ==> k == adminId || k == userId || k in fakeIds)
  }

  /** The next generated email is not taken yet. */
  lemma NextFakeIsNew(t: Table, encode: string -> string, fakes: seq<UserRequest>, n: nat,
                      adminId: Uuid, userId: Uuid, fakeIds: seq<Uuid>)
    requires FreshFakes(fakes) && n < |fakes|
    requires SeedProgress(t, encode, fakes, n, adminId, userId, fakeIds)
    ensures !ExistsByEmail(t, fakes[n].email)
  {
    forall k | k in t
      ensures t[k].email != fakes[n].email
    {
      if k != adminId && k != userId {
        var i :| 0 <= i < n && fakeIds[i] == k;
      }
    }
  }

  /** Saving the next generated account advances the progress by one. */
  lemma SeedAdvances(t: Table, encode: string -> string, fakes: seq<UserRequest>, n: nat,
                     adminId: Uuid, userId: Uuid, fakeIds: seq<Uuid>, t': Table, id: Uuid)
    requires n < |fakes| && SeedProgress(t, encode, fakes, n, adminId, userId, fakeIds)
    requires id !in t && t' == Save(t, User(None, fakes[n].email, encode(fakes[n].password), USER), id)
    requires UserTable.Valid(t') && |t'| == |t| + 1
    ensures SeedProgress(t', encode, fakes, n + 1, adminId, userId, fakeIds + [id])
  {
    var ids := fakeIds + [id];
    assert t' == t[id := User(Some(id), fakes[n].email, encode(fakes[n].password), USER)];
    assert adminId != id && userId != id;
    forall i | 0 <= i < n + 1
      ensures ids[i] in t' && t'[ids[i]] == User(Some(ids[i]), fakes[i].email, encode(fakes[i].password), USER)
    {
      if i < n {
        assert ids[i] == fakeIds[i] && fakeIds[i] in t;
      } else {
        assert ids[i] == id;
      }
    }
    forall k | k in t'
      ensures k == adminId || k == userId || k in ids
    {
      if k != id && k != adminId && k != userId {
        assert k in fakeIds;
        var j :| 0 <= j < |fakeIds| && fakeIds[j] == k;
        assert ids[j] == k;
      } else if k == id {
        assert ids[n] == id;
      }
    }
  }

  /** The records that `init` saves, found by their emails, make a seeded table. */
  lemma SeededFromProgress(t: Table, encode: string -> string, fakes: seq<UserRequest>,
                           adminId: Uuid, userId: Uuid, fakeIds: seq<Uuid>)
    requires SeedProgress(t, encode, fakes, |fakes|, adminId, userId, fakeIds)
    ensures Seeded(t, encode, fakes)
  {
    FindByEmailAt(t, adminId);
    FindByEmailAt(t, userId);
    forall i | 0 <= i < |fakes|
      ensures FindByEmail(t, fakes[i].email) == Some(t[fakeIds[i]])
    {
      FindByEmailAt(t, fakeIds[i]);
    }
  }

  /**
   * `init`: saves the two fixed accounts, then the 25 accounts the generator made up
   * (`fakes`), without checking for existing emails.
   */
  method Seed(encode: string -> string, fakes: seq<UserRequest>) returns (t: Table)
    requires |fakes| == 25 && FreshFakes(fakes)
    ensures UserTable.Valid(t)
    ensures Seeded(t, encode, fakes)
  {
    t := map[];
    var adminId, userId;
    t, adminId := SaveNew(t, User(None, "admin", encode("admin"), ADMIN));
    t, userId := SaveNew(t, User(None, "user", encode("user"), USER));
    ghost var fakeIds: seq<Uuid> := [];
    for n := 0 to |fakes|
      invariant SeedProgress(t, encode, fakes, n, adminId, userId, fakeIds)
    {
      NextFakeIsNew(t, encode, fakes, n, adminId, userId, fakeIds);
      var t', id := SaveNew(t, User(None, fakes[n].email, encode(fakes[n].password), USER));
      SeedAdvances(t, encode, fakes, n, adminId, userId, fakeIds, t', id);
      t, fakeIds := t', fakeIds + [id];
    }
    SeededFromProgress(t, encode, fakes, adminId, userId, fakeIds);
  }

  class UserService {
    /** The injected password encoder. */
    const encode: string -> string
    /** The user repository. */
    var users: Table

    ghost predicate Valid()
      reads this
    {
      UserTable.Valid(users)
    }

    /** Construction followed by the `init` seed (see Seed). */
    constructor (encode: string -> string, fakes: seq<UserRequest>)
      requires |fakes| == 25 && FreshFakes(fakes)
      ensures Valid() && this.encode == encode
      ensures Seeded(users, encode, fakes)
    {
      var seeded := Seed(encode, fakes);
      this.encode := encode;
      users := seeded;
    }

    /** `getUsers`: one view per stored record. */
    method GetUsers() returns (views: seq<UserResponse>)
      requires Valid()
      ensures ViewListing(users, views)
    {
      views := ListViews(users);
    }

    /** `createUser`, with the store generating an unused id on save. */
    method CreateUser(req: UserRequest) returns (r: Result<UserResponse>)
      requires Valid()
      modifies this
      ensures Valid()
      ensures r.Ok? ==> r.value.id !in old(users)
      ensures Step(r, users) == Create(old(users), req, encode, if r.Ok? then r.value.id else Bound(old(users).Keys))
    {
      if ExistsByEmail(users, req.email) {
        r := Err(ResponseStatusException(BAD_REQUEST, UserAlreadyExistsWithEmail(req.email)));
        assert Step(r, users) == Create(users, req, encode, Bound(users.Keys));
        return;
      }
      UnusedIdExists(users);
      var id :| id !in users;
      var s := Create(users, req, encode, id);
      users := s.table;
      r := s.result;
    }

    /** `deleteUserById`. */
    method DeleteUserById(id: Uuid) returns (r: Result<()>)
      requires Valid()
      modifies this
      ensures Valid()
      ensures Step(r, users) == DeleteById(old(users), id)
    {
      var found := FindById(users, id);
      if found.Some? {
        users := users - {id};
        r := Ok(());
      } else {
        r := Err(ResponseStatusException(NOT_FOUND, UserNotFoundWithId(id)));
      }
    }

    /** `deleteUserByEmail`: deletes through the found record's id. */
    method DeleteUserByEmail(email: string) returns (r: Result<()>)
      requires Valid()
      modifies this
      ensures Valid()
      ensures Step(r, users) == DeleteByEmail(old(users), email)
    {
      var found := FindByEmail(users, email);
      if found.Some? {
        users := users - {found.value.id.value};
        r := Ok(());
      } else {
        r := Err(ResponseStatusException(NOT_FOUND, UserNotFoundWithEmail(email)));
      }
    }
  }
}
