# Shopping-list backend, modelled in Dafny

This project models the FastAPI backend of a shopping-list application
(`backend/server.py`). Users register and log in. Each user keeps a list of
shopping items. An item has a description, a category, an optional photo and
a purchased flag. Categories are either global (the eight seeded defaults) or
owned by one user. Photos are uploaded and come back as `data:` URLs.

The model is a sequential, in-memory store. Class `Server.Store` holds the
three MongoDB collections `users`, `categories` and `shopping_items` as
sequences in insertion order. Each route handler is a method of the class.
A handler performs one atomic step. It either changes the collections or
returns an explicit `HttpError` (400, 401 or 404) with the handler's own
`detail` message. `Store.Valid()` is the store invariant:

- ids are unique in every collection;
- usernames are unique.

The pure parts of the handlers live in their own modules:

- `Queries`: the query filters, the `$set` document built by an update, the toggled document and the seeding of default categories;
- `Ordering`: the newest-first order of the item listing;
- `Base64` and `Upload`: the data URL built by the upload route.

The following values come from outside the server, so the caller passes them
in as parameters:

- the authenticated user's id, which is what `get_current_user` yields;
- a fresh id for every new record, standing for `uuid4`, which is assumed never to repeat;
- the clock reading `now`;
- the bcrypt hash of a new password;
- the bcrypt password check, as a function `verify(password, hash)`.

Files: `wrappers.dfy` (Option, Result), `records.dfy` (documents, request
bodies, errors), `base64.dfy`, `upload.dfy`, `ordering.dfy`, `queries.dfy`,
`server.dfy`.

Modelling choices:

- Timestamps are the ISO strings the server writes. `GET /items` sorts by comparing these strings. The database compares strings by binary order, which agrees with code-point order, so `Ordering.LexLe` is the lexicographic order on code points.
- A stored item may lack the `is_purchased` field. Toggle reads such an item's flag as false, so `Item.isPurchased` is an `Option<bool>` read through `Records.Purchased`.
- MongoDB does not guarantee any order for an unsorted query. As a modelling choice, the collections are sequences in insertion order, and an unsorted query reads them in that order. This fixes which user `find_one` returns and which 1000 categories `GET /categories` returns; the source promises neither (see "## Left out").
- Beyond the field types, which FastAPI checks against each Pydantic model, the code does not validate the request bodies. An empty description, an unknown `category_id` and a short password are all accepted. The model does the same. (Checks of non-empty fields and password length happen only in the web client, which is not part of this model.)

## Model

| member | source | states |
|---|---|---|
| Records.Public | backend/server.py:151-153 | `User(**user)`: the user returned to clients. PublicDropsHash states it. |
| Records.PublicDropsHash | backend/server.py:175 | The returned user does not depend on the password hash and keeps the stored id and username. |
| Records.Purchased | backend/server.py:238 | `item.get('is_purchased', False)`: true exactly when the stored flag is present and true. |
| Server.Store.CurrentUser | backend/server.py:107-121 | An expired token gives 401 "Token expirado" and a malformed one 401 "Token inválido". A valid token succeeds exactly when a stored user has its `user_id`, and the result is that user. Otherwise it gives 401 "Usuário não encontrado". |
| Server.Store.Register | backend/server.py:143-160 | A taken username gives 400 "Usuário já existe" and changes nothing. Otherwise exactly one user record is appended, with the fresh id, the hash and `now`, and the public user is returned. Usernames and ids stay unique; no other collection changes. |
| Server.Store.Login | backend/server.py:162-177 | Succeeds exactly when a stored user has that username and `verify` accepts the password against its hash. It returns that user without the hash. Every failure, unknown name or wrong password alike, is the same 401 "Usuário ou senha incorretos". |
| Server.Store.InitializeDefaultCategories | backend/server.py:124-140 | The categories become `Seed` of the old categories and the eight defaults. Every default whose id was missing before is present afterwards as a global category stamped `now`. Users, items and the store invariant are kept. |
| Server.Store.SeedCategories | backend/server.py:136-140 | The seeding loop: the result equals `Seed`. Stored categories stay unchanged and in place, every default id is present afterwards, and ids stay unique. |
| Server.Store.GetCategories | backend/server.py:184-190 | Every category returned is stored and is global or owned by `uid`. When at most 1000 qualify, all of them are returned. The count is min(visible, 1000). The result is a prefix of the visible categories in collection order. |
| Server.Store.CreateCategory | backend/server.py:192-196 | Appends exactly one category: the request's name, color and icon, the fresh id, `user_id` = the current user, created at `now`. Nothing else changes. |
| Server.Store.GetItems | backend/server.py:199-205 | Returns only the current user's stored items, newest `created_at` first. The count is min(owned, 1000), and the result is a sub-multiset of the owned items, so no item is repeated beyond its stored copies. Below the limit it returns all of them (same multiset). Above it, every item left out is no newer than every item returned. |
| Server.Store.CreateItem | backend/server.py:207-211 | Appends exactly one item: the fresh id, owned by `uid`, `is_purchased` false, both timestamps `now`, the request's fields. Existing items and every other user's items are unchanged. |
| Server.Store.UpdateItem | backend/server.py:213-230 | An id that is absent or belongs to another user gives 404 "Item não encontrado" and changes nothing. Otherwise only that item is rewritten, as the `$set` of the non-None fields and `updated_at`, and returned. Other users' items are unchanged. |
| Server.Store.ToggleItem | backend/server.py:232-246 | Same 404 case. Otherwise only that item changes: its flag is negated (a missing flag counts as false) and `updated_at` is set. The item is returned and other users' items are unchanged. |
| Server.Store.DeleteItem | backend/server.py:248-253 | Same 404 case. Otherwise exactly that one item is removed and "Item deletado com sucesso" is returned. Other users' items are unchanged. |
| Queries.FindUsername | backend/server.py:146 | `find_one` by username: the index of the first user with that name. None exactly when no user has it. |
| Queries.FindUserId | backend/server.py:118 | `find_one` by id: the index of the first user with that id. None exactly when no user has it. |
| Queries.VisibleTo | backend/server.py:187 | The `$or` filter: global (`user_id` None) or owned by `uid`. Visible states which categories pass it. |
| Queries.Visible | backend/server.py:187 | A category is in the result exactly when it is stored and is global or owned by `uid`. |
| Queries.ListCategories | backend/server.py:186-189 | Everything returned is stored and visible. Under the limit every visible category is returned. The length is min(visible, 1000), and the result is a prefix of `Visible`. |
| Queries.Take | backend/server.py:189 | `to_list(n)`: the first min(length, n) elements. |
| Queries.OwnedBy | backend/server.py:202 | An item is in the result exactly when it is stored and its `user_id` is `uid`. |
| Queries.OwnedByConcat | backend/server.py:202 | Filtering by owner distributes over concatenation. |
| Queries.ListItems | backend/server.py:201-204 | The item listing: owner filter, newest-first sort, cut at 1000. ListItemsSpec states its properties. |
| Queries.ListItemsSpec | backend/server.py:201-204 | The item listing holds only `uid`'s items and is newest first. It has min(owned, 1000) entries, all owned items below the limit, and the newest ones above it. |
| Queries.FindOwned | backend/server.py:216 | `find_one({"id", "user_id"})`: the index of the first item with both that id and that owner. None exactly when no stored item matches both. |
| Queries.NonNone | backend/server.py:221 | The comprehension keeps exactly the keys whose value is not None, each with its value. |
| Queries.Dump | backend/server.py:221 | `model_dump()` of an update request: every updatable field, None or not. UpdateDataFields states what survives the filter. |
| Queries.UpdateData | backend/server.py:221-222 | The `$set` document. UpdateDataFields states its keys and values. |
| Queries.SetFields | backend/server.py:224-227 | The effect of `$set` on a stored item. UpdateWritesNonNone states it field by field. |
| Queries.Updated | backend/server.py:221-227 | The item after `PUT /items/{id}`. UpdateWritesNonNone and UpdateIdempotent state its properties. |
| Queries.UpdateDataFields | backend/server.py:221-222 | The `$set` document has a key for each request field that is not None, with its value, plus `updated_at` = `now`. It has no other key. |
| Queries.UpdateWritesNonNone | backend/server.py:87-90 | An update writes the non-None fields and `updated_at`. A None field keeps its old value, so a stored photo is never cleared. `id`, `user_id`, `is_purchased` and `created_at` never change. |
| Queries.UpdateIdempotent | backend/server.py:221-227 | Applying the same update twice equals applying it once at the later time. |
| Queries.Toggled | backend/server.py:238-243 | The item after the toggle. ToggleFlips states its properties. |
| Queries.ToggleFlips | backend/server.py:238-243 | The toggled flag is the negation of the read flag (missing = false). `updated_at` is `now` and no other field changes. Toggling twice restores the flag. |
| Queries.ReplaceKeepsOthers | backend/server.py:224-227 | Rewriting one of `uid`'s items, owner kept, leaves every other user's item list identical. |
| Queries.RemoveKeepsOthers | backend/server.py:250 | Deleting one of `uid`'s items leaves every other user's item list identical. |
| Queries.AppendKeepsOthers | backend/server.py:210 | Inserting an item of `uid`'s leaves every other user's item list identical. |
| Queries.AppendFreshCategory | backend/server.py:140 | Inserting a category whose id is absent keeps category ids unique. |
| Queries.Seed | backend/server.py:136-140 | The seeding loop as a fold: each default is inserted, stamped `now`, only when no category has its id at that point. Seeding adds at most one category per default. SeedExtends, SeedKeepsIdsUnique, SeedCoversDefaults, SeedInsertsMissing, SeedNoop and SeedIdempotent state the rest. |
| Queries.Stamp | backend/server.py:139-140 | The document inserted for a default: global and created at `now`. SeedInsertsMissing states this of every inserted default. |
| Queries.DefaultIdsDistinct | backend/server.py:125-134 | The table `DefaultCategories` has eight entries, and their ids `cat-1` … `cat-8` are pairwise distinct. |
| Queries.CategoryIdTaken | backend/server.py:137-138 | The `find_one({"id": …})` test of the seeding loop. SeedInsertsMissing and SeedNoop state what it decides. |
| Queries.DefaultsSeeded | backend/server.py:124-140 | For the real table of defaults: every default whose id was missing before the startup seeding is present afterwards as a global category stamped `now`. |
| Queries.SeedExtends | backend/server.py:136-140 | Seeding only appends: every stored category stays, unchanged and in place. |
| Queries.SeedKeepsIdsUnique | backend/server.py:137-140 | Seeding keeps category ids unique. |
| Queries.SeedCoversDefaults | backend/server.py:136-140 | After seeding, a category with each default id exists. |
| Queries.SeedInsertsMissing | backend/server.py:137-140 | A default whose id was absent before is present afterwards, as a global (`user_id` None) category stamped `now`. |
| Queries.SeedNoop | backend/server.py:137-138 | When every default id is already present, seeding inserts nothing. |
| Queries.SeedIdempotent | backend/server.py:124-140 | A second seeding, at any time, inserts nothing. |
| Ordering.LexLe | backend/server.py:204 | The string order `sort("created_at", -1)` uses: code-point lexicographic. LexLeReflexive, LexLeTotal, LexLeTransitive and LexLeAntisymmetric prove it a total order. |
| Ordering.LexLeReflexive | backend/server.py:204 | The timestamp order is reflexive. |
| Ordering.LexLeTotal | backend/server.py:204 | Any two timestamps are comparable. |
| Ordering.LexLeTransitive | backend/server.py:204 | The timestamp order is transitive. |
| Ordering.LexLeAntisymmetric | backend/server.py:204 | Two timestamps each at or before the other are equal. |
| Ordering.Insert | backend/server.py:204 | Inserting into a newest-first list keeps it newest first and adds exactly that item (multiset). |
| Ordering.SortNewestFirst | backend/server.py:204 | `sort("created_at", -1)`: the result is newest first and a permutation of its input. |
| Ordering.PrefixIsNewest | backend/server.py:204 | Cutting a newest-first list keeps it newest first. Every item cut off is no newer than every item kept. |
| Base64.Encode | backend/server.py:262 | `b64encode`: padded Base64 of section 4 of RFC 4648, one 4-character group per 3 bytes. RoundTrip, LengthOfEncoding and CharactersOfEncoding state its properties. |
| Base64.Char | backend/server.py:262 | Every 6-bit value maps to a character of the alphabet in section 4 of RFC 4648. |
| Base64.Value | backend/server.py:262 | A character has a 6-bit value exactly when it is in that alphabet. |
| Base64.RoundTrip | backend/server.py:262 | Decoding the Base64 text of any bytes gives those bytes back. |
| Base64.LengthOfEncoding | backend/server.py:262 | The Base64 text of n bytes has length 4·⌈n/3⌉. |
| Base64.CharactersOfEncoding | backend/server.py:262 | Every character is from the alphabet or is `=`. `=` appears exactly in the last position when n mod 3 ≠ 0, and also in the one before it when n mod 3 = 1. |
| Upload.UploadImage | backend/server.py:256-268 | The URL starts with `data:`. Its length is that of the media type plus 13 plus 4·⌈n/3⌉. |
| Upload.MimeType | backend/server.py:263 | `file.content_type or 'image/jpeg'`. UploadMediaType states where it appears in the URL. |
| Upload.UploadRoundTrip | backend/server.py:262-266 | A reader, taking the data after the URL's first comma, gets the Base64 text of the file exactly when the media type holds no comma. In that case the data decodes back to the file's bytes. |
| Upload.UploadMediaType | backend/server.py:263-266 | After `data:` comes the file's content type when it is a non-empty string, and `image/jpeg` otherwise; `;base64,` follows it. |
| Upload.DataOf | backend/server.py:266 | How a reader of a `data:` URL (section 3 of RFC 2397) finds the data: None exactly when the URL has no comma; otherwise the suffix after a comma that has no comma before it. |

## Left out

- MongoDB and motor: the asynchronous database calls become reads and writes of the class's sequence fields.
- Concurrency: each handler is one atomic step. Interleaving between a handler's `find_one` and its `update_one`, and concurrent registrations of one username, are not modelled; the source has no transactions.
- Uniqueness of ids rests on `uuid4`. The methods that insert a record require the fresh id to be unused, and `Valid()` records the resulting uniqueness. The database itself enforces no unique index.
- bcrypt: `hash_password` is replaced by a hash passed to `Register`, and `verify_password` by the `verify` function passed to `Login`.
- JWT: building tokens (`create_jwt_token`), signatures and expiry are not modelled. `CurrentUser` takes the outcome of decoding as a `Token` value. The other handlers take the authenticated user's id directly. `Register` and `Login` return the user, not the token.
- `GET /auth/me` only returns the current user's record; it is not modelled separately from `CurrentUser`.
- The clock: each handler takes one `now`. The code reads the clock separately for an item's `created_at` and `updated_at`, and once per seeded default. In the model these readings are equal.
- The upload route's authentication and its reading of the multipart file: `Upload.UploadImage` starts from the file's bytes and declared content type.
- Response-model conversion (`ShoppingItem(**doc)`, `User(**doc)`): handlers return the stored document itself. A stored item that lacks `is_purchased` is returned with the flag absent, where the API would answer `false`.
- FastAPI routing, CORS, logging and the startup/shutdown hooks are framework glue. `InitializeDefaultCategories` stands for the startup hook's one real action.
- Unsorted query order: MongoDB promises no order for `find` and `find_one` without a sort. The model reads the collections in insertion order, so `Queries.FindUsername` picks the first user with a name and `GET /categories` keeps the first 1000 visible categories. Under the store invariant usernames are unique, so the choice does not change `Login`; for more than 1000 visible categories the source does not say which ones it returns.
- Request validation: FastAPI answers 422 when a body lacks a required field or has a field of the wrong type. The handlers take already-typed request values, so the 422 path is not modelled.
- Upload.UploadRoundTrip: the route puts the client's content type into the URL unchecked. A content type holding a comma yields a URL whose data a reader misreads; the lemma proves this direction too, and the model, like the source, escapes nothing.
- Ordering.SortNewestFirst: MongoDB leaves the order of items with equal `created_at` unspecified. The model fixes one order, and the contracts state only newest-first and permutation.
