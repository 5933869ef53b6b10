/** The pure parts of the handlers: the database queries they issue (the
    filters of `find` and `find_one`), the `$set` document of an update, the
    flag flip of a toggle and the seeding of the default categories. */
module Queries {
  import opened Wrappers
  import opened Records
  import opened Ordering

  /** `to_list(1000)`: no query returns more than this many documents. */
  const ListLimit := 1000

  function Take<T>(s: seq<T>, n: nat): (r: seq<T>)
    ensures |r| == if |s| <= n then |s| else n
    ensures r == s[..|r|]
  {
    if |s| <= n then s else s[..n]
  }

  // ---- uniqueness kept by the store ----

  ghost predicate UniqueUserIds(users: seq<UserRecord>) {
    forall i, j :: 0 <= i < j < |users| ==> users[i].id != users[j].id
  }

  ghost predicate UniqueUsernames(users: seq<UserRecord>) {
    forall i, j :: 0 <= i < j < |users| ==> users[i].username != users[j].username
  }

  ghost predicate UniqueCategoryIds(cats: seq<Category>) {
    forall i, j :: 0 <= i < j < |cats| ==> cats[i].id != cats[j].id
  }

  ghost predicate UniqueItemIds(items: seq<Item>) {
    forall i, j :: 0 <= i < j < |items| ==> items[i].id != items[j].id
  }

  // ---- users ----

  /** `find_one({"username": name})`: the index of the first user with that name. */
  function FindUsername(users: seq<UserRecord>, name: string): (r: Option<nat>)
    ensures r.Some? ==> r.value < |users| && users[r.value].username == name
    ensures r.Some? ==> forall k :: 0 <= k < r.value ==> users[k].username != name
    ensures r.None? <==> forall u :: u in users ==> u.username != name
    decreases |users|
  {
    if |users| == 0 then None
    else if users[0].username == name then Some(0)
    else match FindUsername(users[1..], name)
      case None => None
      case Some(k) => Some(k + 1)
  }

  /** `find_one({"id": id})` on the users collection: the index of the first user with that id. */
  function FindUserId(users: seq<UserRecord>, id: Id): (r: Option<nat>)
    ensures r.Some? ==> r.value < |users| && users[r.value].id == id
    ensures r.Some? ==> forall k :: 0 <= k < r.value ==> users[k].id != id
    ensures r.None? <==> forall u :: u in users ==> u.id != id
    decreases |users|
  {
    if |users| == 0 then None
    else if users[0].id == id then Some(0)
    else match FindUserId(users[1..], id)
      case None => None
      case Some(k) => Some(k + 1)
  }

  predicate UsernameTaken(users: seq<UserRecord>, name: string) {
    exists i :: 0 <= i < |users| && users[i].username == name
  }

  predicate UserIdTaken(users: seq<UserRecord>, id: Id) {
    exists i :: 0 <= i < |users| && users[i].id == id
  }

  // ---- categories ----

  /** The filter of `GET /categories`: global, or owned by `uid`. */
  predicate VisibleTo(c: Category, uid: Id) {
    c.userId == None || c.userId == Some(uid)
  }

  /** The categories visible to `uid`, in collection order. */
  function Visible(cats: seq<Category>, uid: Id): (r: seq<Category>)
    ensures forall c :: c in r <==> c in cats && VisibleTo(c, uid)
    ensures |r| <= |cats|
    decreases |cats|
  {
    if |cats| == 0 then []
    else if VisibleTo(cats[0], uid) then [cats[0]] + Visible(cats[1..], uid)
    else Visible(cats[1..], uid)
  }

  predicate CategoryIdTaken(cats: seq<Category>, id: Id) {
    exists i :: 0 <= i < |cats| && cats[i].id == id
  }

  lemma AppendFreshCategory(cats: seq<Category>, c: Category)
    requires UniqueCategoryIds(cats) && !CategoryIdTaken(cats, c.id)
    ensures UniqueCategoryIds(cats + [c])
  {
  }

  /** A default category before it is stamped with its insertion time. */
  datatype DefaultCategory = DefaultCategory(id: Id, name: string, color: string, icon: string)

  const DefaultCategories: seq<DefaultCategory> := [
    DefaultCategory("cat-1", "Frutas", "#10b981", "apple"),
    DefaultCategory("cat-2", "Carnes", "#ef4444", "beef"),
    DefaultCategory("cat-3", "Limpeza", "#3b82f6", "sparkles"),
    DefaultCategory("cat-4", "Laticínios", "#f59e0b", "milk"),
    DefaultCategory("cat-5", "Padaria", "#8b5cf6", "wheat"),
    DefaultCategory("cat-6", "Bebidas", "#06b6d4", "cup-soda"),
    DefaultCategory("cat-7", "Congelados", "#6366f1", "snowflake"),
    DefaultCategory("cat-8", "Outros", "#64748b", "package")
  ]

  /** The document inserted for a default category: global, stamped `now`. */
  function Stamp(d: DefaultCategory, now: Timestamp): Category {
    Category(d.id, d.name, d.color, d.icon, None, now)
  }

  /** The categories after seeding `defaults` in order, each inserted only when
      no category with its id exists at that point. */
  function Seed(cats: seq<Category>, defaults: seq<DefaultCategory>, now: Timestamp): (r: seq<Category>)
    ensures |cats| <= |r| <= |cats| + |defaults|
    decreases |defaults|
  {
    if |defaults| == 0 then cats
    else
      var d := defaults[0];
      Seed(if CategoryIdTaken(cats, d.id) then cats else cats + [Stamp(d, now)], defaults[1..], now)
  }

  /** A proof step for the seeding loop: `Seed` unfolded at position `k`. */
  lemma SeedStep(cats: seq<Category>, defaults: seq<DefaultCategory>, k: nat, now: Timestamp)
    requires k < |defaults|
    ensures Seed(cats, defaults[k..], now) ==
      Seed(if CategoryIdTaken(cats, defaults[k].id) then cats else cats + [Stamp(defaults[k], now)],
           defaults[k + 1..], now)
  {
    assert defaults[k..][0] == defaults[k] && defaults[k..][1..] == defaults[k + 1..];
  }

  ghost predicate DistinctIds(defaults: seq<DefaultCategory>) {
    forall i, j :: 0 <= i < j < |defaults| ==> defaults[i].id != defaults[j].id
  }

  lemma DefaultIdsDistinct()
    ensures |DefaultCategories| == 8 && DistinctIds(DefaultCategories)
  {
  }

  /** Seeding only appends: every category already stored stays, unchanged and in place. */
  lemma {:induction false} SeedExtends(cats: seq<Category>, defaults: seq<DefaultCategory>, now: Timestamp)
    ensures |cats| <= |Seed(cats, defaults, now)| && Seed(cats, defaults, now)[..|cats|] == cats
    decreases |defaults|
  {
    if |defaults| != 0 {
      var d := defaults[0];
      var next := if CategoryIdTaken(cats, d.id) then cats else cats + [Stamp(d, now)];
      SeedExtends(next, defaults[1..], now);
      assert next[..|cats|] == cats;
    }
  }

  /** Seeding keeps category ids unique. */
  lemma {:induction false} SeedKeepsIdsUnique(cats: seq<Category>, defaults: seq<DefaultCategory>, now: Timestamp)
    requires UniqueCategoryIds(cats)
    ensures UniqueCategoryIds(Seed(cats, defaults, now))
    decreases |defaults|
  {
    if |defaults| != 0 {
      var d := defaults[0];
      var next := if CategoryIdTaken(cats, d.id) then cats else cats + [Stamp(d, now)];
      SeedKeepsIdsUnique(next, defaults[1..], now);
    }
  }

  /** After seeding, a category with each default id exists. */
  lemma {:induction false} SeedCoversDefaults(cats: seq<Category>, defaults: seq<DefaultCategory>, now: Timestamp)
    ensures forall d :: d in defaults ==> CategoryIdTaken(Seed(cats, defaults, now), d.id)
    decreases |defaults|
  {
    if |defaults| != 0 {
      var d := defaults[0];
      var next := if CategoryIdTaken(cats, d.id) then cats else cats + [Stamp(d, now)];
      assert CategoryIdTaken(next, d.id) by {
        if !CategoryIdTaken(cats, d.id) {
          assert next[|cats|].id == d.id;
        }
      }
      SeedCoversDefaults(next, defaults[1..], now);
      SeedExtends(next, defaults[1..], now);
      var r := Seed(next, defaults[1..], now);
      var i :| 0 <= i < |next| && next[i].id == d.id;
      assert r[i] == next[i];
      forall e | e in defaults ensures CategoryIdTaken(r, e.id) {
        if e != d {
          assert e in defaults[1..];
        }
      }
    }
  }

  /** A default whose id was absent before seeding is present afterwards as a
      global category stamped `now` (the defaults' ids being distinct). */
  lemma {:induction false} SeedInsertsMissing(cats: seq<Category>, defaults: seq<DefaultCategory>, now: Timestamp, d: DefaultCategory)
    requires DistinctIds(defaults) && d in defaults && !CategoryIdTaken(cats, d.id)
    ensures Stamp(d, now) in Seed(cats, defaults, now)
    ensures Stamp(d, now).userId == None
    decreases |defaults|
  {
    var d0 := defaults[0];
    var next := if CategoryIdTaken(cats, d0.id) then cats else cats + [Stamp(d0, now)];
    if d == d0 {
      SeedExtends(next, defaults[1..], now);
      var r := Seed(next, defaults[1..], now);
      assert next[|cats|] == Stamp(d, now);
      assert r[|cats|] == next[|cats|];
    } else {
      assert d in defaults[1..];
      var k :| 0 <= k < |defaults| && defaults[k] == d;
      assert k != 0 && defaults[k].id != d0.id;
      assert DistinctIds(defaults[1..]);
      assert !CategoryIdTaken(next, d.id) by {
        forall i | 0 <= i < |next| ensures next[i].id != d.id {
          if i < |cats| {
            assert next[i] == cats[i];
          }
        }
      }
      SeedInsertsMissing(next, defaults[1..], now, d);
    }
  }

  /** For the real table: every default missing before the startup seeding is
      present afterwards as a global category stamped `now`. */
  lemma DefaultsSeeded(cats: seq<Category>, now: Timestamp, d: DefaultCategory)
    requires d in DefaultCategories && !CategoryIdTaken(cats, d.id)
    ensures Stamp(d, now) in Seed(cats, DefaultCategories, now) && Stamp(d, now).userId == None
  {
    DefaultIdsDistinct();
    SeedInsertsMissing(cats, DefaultCategories, now, d);
  }

  /** When every default id is already present, seeding inserts nothing. */
  lemma {:induction false} SeedNoop(cats: seq<Category>, defaults: seq<DefaultCategory>, now: Timestamp)
    requires forall d :: d in defaults ==> CategoryIdTaken(cats, d.id)
    ensures Seed(cats, defaults, now) == cats
    decreases |defaults|
  {
    if |defaults| != 0 {
      assert defaults[0] in defaults;
      forall d | d in defaults[1..] ensures CategoryIdTaken(cats, d.id) {
        assert d in defaults;
      }
      SeedNoop(cats, defaults[1..], now);
    }
  }

  /** Seeding twice is seeding once, whatever the clock says the second time. */
  lemma SeedIdempotent(cats: seq<Category>, defaults: seq<DefaultCategory>, now: Timestamp, later: Timestamp)
    ensures Seed(Seed(cats, defaults, now), defaults, later) == Seed(cats, defaults, now)
  {
    SeedCoversDefaults(cats, defaults, now);
    SeedNoop(Seed(cats, defaults, now), defaults, later);
  }

  // ---- items ----

  /** The filter `{"user_id": uid}`: the items of `uid`, in collection order. */
  function OwnedBy(items: seq<Item>, uid: Id): (r: seq<Item>)
    ensures forall x :: x in r <==> x in items && x.userId == uid
    ensures |r| <= |items|
    decreases |items|
  {
    if |items| == 0 then []
    else if items[0].userId == uid then [items[0]] + OwnedBy(items[1..], uid)
    else OwnedBy(items[1..], uid)
  }

  lemma {:induction false} OwnedByConcat(a: seq<Item>, b: seq<Item>, uid: Id)
    ensures OwnedBy(a + b, uid) == OwnedBy(a, uid) + OwnedBy(b, uid)
    decreases |a|
  {
    if |a| != 0 {
      assert (a + b)[1..] == a[1..] + b;
      OwnedByConcat(a[1..], b, uid);
    } else {
      assert a + b == b;
    }
  }

  /** `GET /items`: the user's items, newest first, at most `ListLimit`. */
  function ListItems(items: seq<Item>, uid: Id): seq<Item> {
    Take(SortNewestFirst(OwnedBy(items, uid)), ListLimit)
  }

  /** The listing holds only `uid`'s items, newest first; it is cut at
      `ListLimit`, keeping the newest; below that it holds all of them. */
  lemma ListItemsSpec(items: seq<Item>, uid: Id)
    ensures var r, owned := ListItems(items, uid), OwnedBy(items, uid);
            (forall x :: x in r ==> x in items && x.userId == uid) &&
            NewestFirst(r) &&
            |r| == (if |owned| <= ListLimit then |owned| else ListLimit) &&
            multiset(r) <= multiset(owned) &&
            (|owned| <= ListLimit ==> multiset(r) == multiset(owned)) &&
            (forall x, y :: x in multiset(owned) - multiset(r) && y in r ==> LexLe(x.createdAt, y.createdAt))
  {
    var owned := OwnedBy(items, uid);
    var s := SortNewestFirst(owned);
    var r := ListItems(items, uid);
    var k := |r|;
    assert r == s[..k];
    PrefixIsNewest(s, k);
    assert s == s[..k] + s[k..];
    assert multiset(s) == multiset(r) + multiset(s[k..]);
    forall x | x in r ensures x in items && x.userId == uid {
      assert x in multiset(r);
      assert x in multiset(owned);
    }
    forall x, y | x in multiset(owned) - multiset(r) && y in r
      ensures LexLe(x.createdAt, y.createdAt)
    {
      assert x in multiset(s[k..]);
      assert x in s[k..];
    }
  }

  /** `GET /categories`: the visible categories in collection order, at most `ListLimit`. */
  function ListCategories(cats: seq<Category>, uid: Id): (r: seq<Category>)
    ensures forall c :: c in r ==> c in cats && VisibleTo(c, uid)
    ensures |Visible(cats, uid)| <= ListLimit ==> forall c :: c in cats && VisibleTo(c, uid) ==> c in r
    ensures |r| == if |Visible(cats, uid)| <= ListLimit then |Visible(cats, uid)| else ListLimit
    ensures r == Visible(cats, uid)[..|r|]
  {
    Take(Visible(cats, uid), ListLimit)
  }

  /** `find_one({"id": id, "user_id": uid})`: the index of the first item with
      that id owned by `uid`. */
  function FindOwned(items: seq<Item>, id: Id, uid: Id): (r: Option<nat>)
    ensures r.Some? ==> r.value < |items| && items[r.value].id == id && items[r.value].userId == uid
    ensures r.Some? ==> forall k :: 0 <= k < r.value ==> !(items[k].id == id && items[k].userId == uid)
    ensures r.None? <==> forall x :: x in items ==> !(x.id == id && x.userId == uid)
    decreases |items|
  {
    if |items| == 0 then None
    else if items[0].id == id && items[0].userId == uid then Some(0)
    else match FindOwned(items[1..], id, uid)
      case None => None
      case Some(k) => Some(k + 1)
  }

  predicate ItemIdTaken(items: seq<Item>, id: Id) {
    exists i :: 0 <= i < |items| && items[i].id == id
  }

  /** The document fields a client may update. */
  datatype Field = Description | PhotoUrl | CategoryId | UpdatedAt

  /** `item_data.model_dump()`: every field of the request, None or not. */
  function Dump(u: ItemUpdate): map<Field, Option<string>> {
    map[Description := u.description, PhotoUrl := u.photoUrl, CategoryId := u.categoryId]
  }

  /** The comprehension `{k: v for k, v in d.items() if v is not None}`. */
  function NonNone(d: map<Field, Option<string>>): (r: map<Field, string>)
    ensures forall k :: k in r <==> k in d && d[k].Some?
    ensures forall k :: k in r ==> Some(r[k]) == d[k]
  {
    map k | k in d && d[k].Some? :: d[k].value
  }

  /** The `$set` document of `PUT /items/{id}`. */
  function UpdateData(u: ItemUpdate, now: Timestamp): map<Field, string> {
    NonNone(Dump(u))[UpdatedAt := now]
  }

  /** `$set`: each field named in `d` takes its value there; every other field keeps its own. */
  function SetFields(it: Item, d: map<Field, string>): Item {
    it.(description := if Description in d then d[Description] else it.description,
        photoUrl := if PhotoUrl in d then Some(d[PhotoUrl]) else it.photoUrl,
        categoryId := if CategoryId in d then d[CategoryId] else it.categoryId,
        updatedAt := if UpdatedAt in d then d[UpdatedAt] else it.updatedAt)
  }

  function Updated(it: Item, u: ItemUpdate, now: Timestamp): Item {
    SetFields(it, UpdateData(u, now))
  }

  /** The `$set` document holds exactly the fields of the request that are not
      None, each with the requested value, plus `updated_at`. */
  lemma UpdateDataFields(u: ItemUpdate, now: Timestamp)
    ensures var d := UpdateData(u, now);
            (Description in d <==> u.description.Some?) &&
            (PhotoUrl in d <==> u.photoUrl.Some?) &&
            (CategoryId in d <==> u.categoryId.Some?) &&
            UpdatedAt in d && d[UpdatedAt] == now &&
            (u.description.Some? ==> d[Description] == u.description.value) &&
            (u.photoUrl.Some? ==> d[PhotoUrl] == u.photoUrl.value) &&
            (u.categoryId.Some? ==> d[CategoryId] == u.categoryId.value)
  {
  }

  /** An update writes the non-None fields and `updated_at`, and nothing else:
      None fields keep their values (so a photo can never be cleared this way)
      and `id`, `user_id`, `is_purchased`, `created_at` never change. */
  lemma UpdateWritesNonNone(it: Item, u: ItemUpdate, now: Timestamp)
    ensures var r := Updated(it, u, now);
            r.description == u.description.GetOr(it.description) &&
            r.photoUrl == (if u.photoUrl.Some? then u.photoUrl else it.photoUrl) &&
            r.categoryId == u.categoryId.GetOr(it.categoryId) &&
            r.updatedAt == now &&
            (it.photoUrl.Some? ==> r.photoUrl.Some?) &&
            r.id == it.id && r.userId == it.userId && r.isPurchased == it.isPurchased &&
            r.createdAt == it.createdAt
  {
    UpdateDataFields(u, now);
  }

  /** Repeating an update changes nothing but the timestamp it writes. */
  lemma UpdateIdempotent(it: Item, u: ItemUpdate, now: Timestamp, later: Timestamp)
    ensures Updated(Updated(it, u, now), u, later) == Updated(it, u, later)
  {
    UpdateWritesNonNone(it, u, now);
    UpdateWritesNonNone(Updated(it, u, now), u, later);
    UpdateWritesNonNone(it, u, later);
  }

  /** The document after `PATCH /items/{id}/toggle`: the flag negated (a
      missing flag read as false) and `updated_at` set. */
  function Toggled(it: Item, now: Timestamp): Item {
    it.(isPurchased := Some(!Purchased(it)), updatedAt := now)
  }

  /** Toggling negates the flag, sets `updated_at` and touches no other field;
      toggling twice restores the flag. */
  lemma ToggleFlips(it: Item, now: Timestamp, later: Timestamp)
    ensures Purchased(Toggled(it, now)) == !Purchased(it)
    ensures Toggled(it, now).updatedAt == now
    ensures Toggled(it, now).(isPurchased := it.isPurchased, updatedAt := it.updatedAt) == it
    ensures Purchased(Toggled(Toggled(it, now), later)) == Purchased(it)
  {
  }

  /** Rewriting one item of `uid`'s, keeping its owner, leaves every other
      user's items exactly as they were. */
  lemma ReplaceKeepsOthers(items: seq<Item>, i: nat, x: Item, uid: Id, other: Id)
    requires i < |items| && items[i].userId == uid && x.userId == uid && other != uid
    ensures OwnedBy(items[i := x], other) == OwnedBy(items, other)
  {
    assert items == items[..i] + [items[i]] + items[i + 1..];
    assert items[i := x] == items[..i] + [x] + items[i + 1..];
    OwnedByConcat(items[..i] + [items[i]], items[i + 1..], other);
    OwnedByConcat(items[..i], [items[i]], other);
    OwnedByConcat(items[..i] + [x], items[i + 1..], other);
    OwnedByConcat(items[..i], [x], other);
  }

  /** Deleting one of `uid`'s items leaves every other user's items exactly as they were. */
  lemma RemoveKeepsOthers(items: seq<Item>, i: nat, uid: Id, other: Id)
    requires i < |items| && items[i].userId == uid && other != uid
    ensures OwnedBy(items[..i] + items[i + 1..], other) == OwnedBy(items, other)
  {
    var pre, post := items[..i], items[i + 1..];
    SplitAt(items, i);
    OwnedByConcat(pre + [items[i]], post, other);
    OwnedByConcat(pre, [items[i]], other);
    OwnedBySingle(items[i], other);
    assert pre + [] == pre;
    OwnedByConcat(pre, post, other);
  }

  lemma OwnedBySingle(x: Item, uid: Id)
    ensures OwnedBy([x], uid) == if x.userId == uid then [x] else []
  {
    assert [x][1..] == [];
  }

  lemma SplitAt(items: seq<Item>, i: nat)
    requires i < |items|
    ensures items == (items[..i] + [items[i]]) + items[i + 1..]
  {
  }

  /** Appending one of `uid`'s items leaves every other user's items exactly as they were. */
  lemma AppendKeepsOthers(items: seq<Item>, x: Item, uid: Id, other: Id)
    requires x.userId == uid && other != uid
    ensures OwnedBy(items + [x], other) == OwnedBy(items, other)
  {
    OwnedByConcat(items, [x], other);
  }
}
