/** The documents stored by the shopping-list backend, the bodies of its
    requests, and the HTTP errors its handlers raise. */
module Records {
  import opened Wrappers

  /** Record identifiers (uuid4 strings, or the fixed `cat-N` ids). */
  type Id = string

  /** An ISO 8601 timestamp, as produced by the server's clock. */
  type Timestamp = string

  /** An HTTPException: a status code and its `detail` message. */
  datatype HttpError = HttpError(status: int, detail: string)

  type Response<T> = Result<T, HttpError>

  const UserExists := HttpError(400, "Usuário já existe")
  const BadCredentials := HttpError(401, "Usuário ou senha incorretos")
  const UserNotFound := HttpError(401, "Usuário não encontrado")
  const TokenExpired := HttpError(401, "Token expirado")
  const TokenInvalid := HttpError(401, "Token inválido")
  const ItemNotFound := HttpError(404, "Item não encontrado")
  const ItemDeleted := "Item deletado com sucesso"

  /** A document of the `users` collection (the `User` model plus its password hash). */
  datatype UserRecord = UserRecord(id: Id, username: string, passwordHash: string, createdAt: Timestamp)

  /** The `User` model returned to clients: the stored record without its hash. */
  datatype User = User(id: Id, username: string, createdAt: Timestamp)

  function Public(u: UserRecord): User {
    User(u.id, u.username, u.createdAt)
  }

  /** The public user never depends on the password hash, and it keeps the id,
      the name and the creation time. */
  lemma PublicDropsHash(u: UserRecord, h: string)
    ensures Public(u.(passwordHash := h)) == Public(u)
    ensures Public(u).id == u.id && Public(u).username == u.username
  {
  }

  /** A document of the `categories` collection; `userId` is None for a global category. */
  datatype Category = Category(id: Id, name: string, color: string, icon: string,
                               userId: Option<Id>, createdAt: Timestamp)

  /** The body of `POST /categories`. */
  datatype CategoryCreate = CategoryCreate(name: string, color: string, icon: string)

  /** A document of the `shopping_items` collection. `isPurchased` is None when the
      stored document has no `is_purchased` field. */
  datatype Item = Item(id: Id, userId: Id, description: string, photoUrl: Option<string>,
                       categoryId: Id, isPurchased: Option<bool>,
                       createdAt: Timestamp, updatedAt: Timestamp)

  /** The body of `POST /items`. */
  datatype ItemCreate = ItemCreate(description: string, photoUrl: Option<string>, categoryId: Id)

  /** The body of `PUT /items/{id}`: every field may be left out (None). */
  datatype ItemUpdate = ItemUpdate(description: Option<string>, photoUrl: Option<string>,
                                   categoryId: Option<Id>)

  /** The purchased flag as the handlers read it: a missing field counts as false. */
  function Purchased(it: Item): (r: bool)
    ensures r <==> it.isPurchased == Some(true)
  {
    it.isPurchased.GetOr(false)
  }

  /** What the JWT layer hands to `get_current_user`: the `user_id` claim of a
      valid token, or the reason the token was refused. */
  datatype Token = Decoded(userId: Id) | Expired | Malformed
}
