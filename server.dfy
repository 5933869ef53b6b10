/** The route handlers of the shopping-list backend, as one sequential
    in-memory store. Each handler is one atomic step over the three
    collections `users`, `categories` and `shopping_items`. The caller supplies
    what the server takes from outside: the authenticated user's id, a fresh
    uuid for each new record, the clock's reading, the bcrypt hash of a new
    password and the bcrypt check of a login. */
module Server {
  import opened Wrappers
  import opened Records
  import opened Ordering
  import opened Queries

  class Store {
    var users: seq<UserRecord>
    var categories: seq<Category>
    var items: seq<Item>

    /** Ids are unique in every collection (uuid4, and the seeding check for
        the fixed default ids); usernames are unique (the registration check). */
    ghost predicate Valid()
      reads this
    {
      UniqueUserIds(users) && UniqueUsernames(users) &&
      UniqueCategoryIds(categories) && UniqueItemIds(items)
    }

    /** An empty database. */
    constructor ()
      ensures Valid()
      ensures users == [] && categories == [] && items == []
    {
      users, categories, items := [], [], [];
    }

    /** `get_current_user`: the token's user, or 401. */
    method CurrentUser(token: Token) returns (r: Response<UserRecord>)
      ensures token.Expired? ==> r == Failure(TokenExpired)
      ensures token.Malformed? ==> r == Failure(TokenInvalid)
      ensures token.Decoded? ==>
        (r.Success? <==> exists u :: u in users && u.id == token.userId) &&
        (r.Success? ==> r.value in users && r.value.id == token.userId) &&
        (r.Failure? ==> r.error == UserNotFound)
    {
      match token
      case Expired => r := Failure(TokenExpired);
      case Malformed => r := Failure(TokenInvalid);
      case Decoded(uid) =>
        match FindUserId(users, uid)
        case None => r := Failure(UserNotFound);
        case Some(i) => r := Success(users[i]);
    }

    /** `POST /auth/register`: 400 for a taken username, otherwise one new user. */
    method Register(username: string, passwordHash: string, freshId: Id, now: Timestamp)
      returns (r: Response<User>)
      requires Valid()
      requires !UserIdTaken(users, freshId)
      modifies this
      ensures Valid()
      ensures categories == old(categories) && items == old(items)
      ensures old(UsernameTaken(users, username)) ==> r == Failure(UserExists) && users == old(users)
      ensures !old(UsernameTaken(users, username)) ==>
        users == old(users) + [UserRecord(freshId, username, passwordHash, now)] &&
        r == Success(User(freshId, username, now))
    {
      if FindUsername(users, username).Some? {
        r := Failure(UserExists);
      } else {
        var u := UserRecord(freshId, username, passwordHash, now);
        users := users + [u];
        r := Success(Public(u));
      }
    }

    /** `POST /auth/login`: the user with that name whose stored hash accepts
        the password; an unknown name and a wrong password fail alike. */
    method Login(username: string, password: string, verify: (string, string) -> bool)
      returns (r: Response<User>)
      requires Valid()
      ensures r.Failure? ==> r.error == BadCredentials
      ensures r.Success? <==> exists u :: u in users && u.username == username && verify(password, u.passwordHash)
      ensures r.Success? ==> exists u :: u in users && u.username == username && r.value == Public(u)
    {
      match FindUsername(users, username)
      case None =>
        r := Failure(BadCredentials);
      case Some(i) =>
        if verify(password, users[i].passwordHash) {
          r := Success(Public(users[i]));
        } else {
          r := Failure(BadCredentials);
          forall u | u in users && u.username == username
            ensures !verify(password, u.passwordHash)
          {
            var j :| 0 <= j < |users| && users[j] == u;
            assert j == i;
          }
        }
    }

    /** The startup seeding: each default category whose id is not yet stored
        is inserted as a global category; nothing stored is overwritten. */
    method InitializeDefaultCategories(now: Timestamp)
      requires Valid()
      modifies this
      ensures Valid()
      ensures categories == Seed(old(categories), DefaultCategories, now)
      ensures forall d :: d in DefaultCategories && !CategoryIdTaken(old(categories), d.id) ==>
        Stamp(d, now) in categories && Stamp(d, now).userId == None
      ensures users == old(users) && items == old(items)
    {
      SeedCategories(DefaultCategories, now);
      forall d | d in DefaultCategories && !CategoryIdTaken(old(categories), d.id)
        ensures Stamp(d, now) in categories && Stamp(d, now).userId == None
      {
        DefaultsSeeded(old(categories), now, d);
      }
    }

    /** The loop of the seeding, over any list of defaults: each one is
        inserted, stamped `now`, when no category with its id is stored at
        that point. Stored categories stay as they were, in place, and
        afterwards every default id is present. */
    method SeedCategories(defaults: seq<DefaultCategory>, now: Timestamp)
      requires Valid()
      modifies this
      ensures Valid()
      ensures categories == Seed(old(categories), defaults, now)
      ensures |old(categories)| <= |categories| && categories[..|old(categories)|] == old(categories)
      ensures forall d :: d in defaults ==> CategoryIdTaken(categories, d.id)
      ensures users == old(users) && items == old(items)
    {
      var k := 0;
      while k < |defaults|
        invariant 0 <= k <= |defaults|
        invariant Seed(categories, defaults[k..], now) == Seed(old(categories), defaults, now)
        invariant UniqueCategoryIds(categories)
        invariant users == old(users) && items == old(items)
      {
        var d := defaults[k];
        SeedStep(categories, defaults, k, now);
        if !CategoryIdTaken(categories, d.id) {
          AppendFreshCategory(categories, Stamp(d, now));
          categories := categories + [Stamp(d, now)];
        }
        k := k + 1;
      }
      assert defaults[k..] == [];
      SeedExtends(old(categories), defaults, now);
      SeedCoversDefaults(old(categories), defaults, now);
    }

    /** `GET /categories`: the global categories and `uid`'s own, no more than 1000. */
    method GetCategories(uid: Id) returns (r: seq<Category>)
      ensures forall c :: c in r ==> c in categories && VisibleTo(c, uid)
      ensures |Visible(categories, uid)| <= ListLimit ==>
        forall c :: c in categories && VisibleTo(c, uid) ==> c in r
      ensures |r| == if |Visible(categories, uid)| <= ListLimit then |Visible(categories, uid)| else ListLimit
      ensures |r| <= |Visible(categories, uid)| && r == Visible(categories, uid)[..|r|]
    {
      r := ListCategories(categories, uid);
    }

    /** `POST /categories`: one new category, owned by `uid`. */
    method CreateCategory(data: CategoryCreate, uid: Id, freshId: Id, now: Timestamp)
      returns (c: Category)
      requires Valid()
      requires !CategoryIdTaken(categories, freshId)
      modifies this
      ensures Valid()
      ensures c == Category(freshId, data.name, data.color, data.icon, Some(uid), now)
      ensures categories == old(categories) + [c]
      ensures users == old(users) && items == old(items)
    {
      c := Category(freshId, data.name, data.color, data.icon, Some(uid), now);
      categories := categories + [c];
    }

    /** `GET /items`: exactly `uid`'s items, newest first, at most 1000 (the newest). */
    method GetItems(uid: Id) returns (r: seq<Item>)
      ensures forall x :: x in r ==> x in items && x.userId == uid
      ensures NewestFirst(r)
      ensures |r| == if |OwnedBy(items, uid)| <= ListLimit then |OwnedBy(items, uid)| else ListLimit
      ensures multiset(r) <= multiset(OwnedBy(items, uid))
      ensures |OwnedBy(items, uid)| <= ListLimit ==> multiset(r) == multiset(OwnedBy(items, uid))
      ensures forall x, y :: x in multiset(OwnedBy(items, uid)) - multiset(r) && y in r ==>
        LexLe(x.createdAt, y.createdAt)
    {
      r := ListItems(items, uid);
      ListItemsSpec(items, uid);
    }

    /** `POST /items`: one new, unpurchased item owned by `uid`. */
    method CreateItem(data: ItemCreate, uid: Id, freshId: Id, now: Timestamp)
      returns (it: Item)
      requires Valid()
      requires !ItemIdTaken(items, freshId)
      modifies this
      ensures Valid()
      ensures it == Item(freshId, uid, data.description, data.photoUrl, data.categoryId, Some(false), now, now)
      ensures items == old(items) + [it]
      ensures forall other :: other != uid ==> OwnedBy(items, other) == OwnedBy(old(items), other)
      ensures users == old(users) && categories == old(categories)
    {
      it := Item(freshId, uid, data.description, data.photoUrl, data.categoryId, Some(false), now, now);
      items := items + [it];
      forall other | other != uid
        ensures OwnedBy(items, other) == OwnedBy(old(items), other)
      {
        AppendKeepsOthers(old(items), it, uid, other);
      }
    }

    /** `PUT /items/{id}`: 404 unless `uid` owns the item; otherwise the
        non-None fields of the request and `updated_at` are written. */
    method UpdateItem(itemId: Id, data: ItemUpdate, uid: Id, now: Timestamp)
      returns (r: Response<Item>)
      requires Valid()
      modifies this
      ensures Valid()
      ensures users == old(users) && categories == old(categories)
      ensures (forall x :: x in old(items) ==> !(x.id == itemId && x.userId == uid)) ==>
        r == Failure(ItemNotFound) && items == old(items)
      ensures FindOwned(old(items), itemId, uid).Some? ==>
        var i := FindOwned(old(items), itemId, uid).value;
        items == old(items)[i := Updated(old(items)[i], data, now)] && r == Success(items[i])
      ensures forall other :: other != uid ==> OwnedBy(items, other) == OwnedBy(old(items), other)
    {
      match FindOwned(items, itemId, uid)
      case None =>
        r := Failure(ItemNotFound);
      case Some(i) =>
        var updated := Updated(items[i], data, now);
        UpdateWritesNonNone(items[i], data, now);
        items := items[i := updated];
        r := Success(updated);
        forall other | other != uid
          ensures OwnedBy(items, other) == OwnedBy(old(items), other)
        {
          ReplaceKeepsOthers(old(items), i, updated, uid, other);
        }
    }

    /** `PATCH /items/{id}/toggle`: 404 unless `uid` owns the item; otherwise
        its purchased flag is negated and `updated_at` set. */
    method ToggleItem(itemId: Id, uid: Id, now: Timestamp) returns (r: Response<Item>)
      requires Valid()
      modifies this
      ensures Valid()
      ensures users == old(users) && categories == old(categories)
      ensures (forall x :: x in old(items) ==> !(x.id == itemId && x.userId == uid)) ==>
        r == Failure(ItemNotFound) && items == old(items)
      ensures FindOwned(old(items), itemId, uid).Some? ==>
        var i := FindOwned(old(items), itemId, uid).value;
        items == old(items)[i := Toggled(old(items)[i], now)] && r == Success(items[i]) &&
        Purchased(items[i]) == !Purchased(old(items)[i])
      ensures forall other :: other != uid ==> OwnedBy(items, other) == OwnedBy(old(items), other)
    {
      match FindOwned(items, itemId, uid)
      case None =>
        r := Failure(ItemNotFound);
      case Some(i) =>
        var toggled := Toggled(items[i], now);
        items := items[i := toggled];
        r := Success(toggled);
        forall other | other != uid
          ensures OwnedBy(items, other) == OwnedBy(old(items), other)
        {
          ReplaceKeepsOthers(old(items), i, toggled, uid, other);
        }
    }

    /** `DELETE /items/{id}`: 404 unless `uid` owns the item; otherwise it is removed. */
    method DeleteItem(itemId: Id, uid: Id) returns (r: Response<string>)
      requires Valid()
      modifies this
      ensures Valid()
      ensures users == old(users) && categories == old(categories)
      ensures (forall x :: x in old(items) ==> !(x.id == itemId && x.userId == uid)) ==>
        r == Failure(ItemNotFound) && items == old(items)
      ensures FindOwned(old(items), itemId, uid).Some? ==>
        var i := FindOwned(old(items), itemId, uid).value;
        items == old(items)[..i] + old(items)[i + 1..] && r == Success(ItemDeleted)
      ensures forall other :: other != uid ==> OwnedBy(items, other) == OwnedBy(old(items), other)
    {
      match FindOwned(items, itemId, uid)
      case None =>
        r := Failure(ItemNotFound);
      case Some(i) =>
        items := items[..i] + items[i + 1..];
        r := Success(ItemDeleted);
        forall other | other != uid
          ensures OwnedBy(items, other) == OwnedBy(old(items), other)
        {
          RemoveKeepsOthers(old(items), i, uid, other);
        }
    }
  }
}
