/**
 * main.py: the per-request handlers. Every protected handler first resolves the
 * caller through GetCurrentUser (HTTP Basic credentials, re-checked on every
 * request) and then works only on rows owned by that caller. A handler's failure
 * is the HTTPException it raises, modelled as an Err value.
 */
module Main {
  import opened Wrappers
  import opened Schemas
  import opened Auth
  import opened Store
  import opened Crud

  /** The username:password pair of an HTTP Basic header. */
  datatype Credentials = Credentials(username: string, password: string)

  /** An HTTPException: status code and detail. */
  datatype HttpError = HttpError(status: int, detail: string)

  const IncorrectCredentials := HttpError(401, "Incorrect username or password")
  const UsernameTaken := HttpError(400, "Username already registered")
  const EmailTaken := HttpError(400, "Email already registered")
  /** The request-body validation of `EmailStr`, done before the handler runs. */
  const InvalidEmail := HttpError(422, "value is not a valid email address")
  const TransactionNotFound := HttpError(404, "Transaction not found")
  const DeletedMessage := "Transaction deleted successfully"

  /**
   * `get_current_user`: look the user up by exact username, then verify the
   * password against that user's hash. Both failures raise the same 401.
   */
  function GetCurrentUser(h: Hasher, db: Session, credentials: Credentials): (r: Result<User, HttpError>)
    reads db`users
    ensures r.Ok? ==> r.value in db.users && r.value.username == credentials.username
    ensures r.Ok? ==> h.verify(credentials.password, r.value.hashedPassword)
    ensures r.Err? ==> r.error == IncorrectCredentials
    ensures (forall u :: u in db.users ==> u.username != credentials.username) ==> r.Err?
  {
    match GetUserByUsername(db.users, credentials.username)
    case None => Err(IncorrectCredentials)
    case Some(user) =>
      if !h.verify(credentials.password, user.hashedPassword) then Err(IncorrectCredentials)
      else Ok(user)
  }

  /** With unique usernames, a stored user is authenticated exactly by a password that verifies. */
  lemma AuthenticateStoredUser(h: Hasher, db: Session, u: User, password: string)
    requires UniqueCredentials(db.users) && u in db.users
    ensures GetCurrentUser(h, db, Credentials(u.username, password)) ==
            if h.verify(password, u.hashedPassword) then Ok(u) else Err(IncorrectCredentials)
  {
    GetUserByUsernameUnique(db.users, u);
  }

  /** An unknown username and a wrong password for a known one are answered identically. */
  lemma AuthFailuresIndistinguishable(h: Hasher, db: Session, unknown: Credentials, u: User, wrong: string)
    requires UniqueCredentials(db.users) && u in db.users
    requires forall v :: v in db.users ==> v.username != unknown.username
    requires !h.verify(wrong, u.hashedPassword)
    ensures GetCurrentUser(h, db, unknown) == GetCurrentUser(h, db, Credentials(u.username, wrong))
    ensures GetCurrentUser(h, db, unknown) == Err(IncorrectCredentials)
  {
    AuthenticateStoredUser(h, db, u, wrong);
  }

  /**
   * `login_for_token` (POST /login), and likewise `read_users_me` (GET /users/me):
   * the authenticated caller, through the UserResponse filter.
   */
  function Login(h: Hasher, db: Session, credentials: Credentials): (r: Result<UserResponse, HttpError>)
    reads db`users
    ensures r.Ok? ==> exists u :: u in db.users && u.username == credentials.username &&
                                  h.verify(credentials.password, u.hashedPassword) && r.value == ToResponse(u)
    ensures r.Err? ==> r.error == IncorrectCredentials
    ensures r.Ok? <==> GetCurrentUser(h, db, credentials).Ok?
  {
    match GetCurrentUser(h, db, credentials)
    case Err(e) => Err(e)
    case Ok(user) => Ok(ToResponse(user))
  }

  /** The inline email query of `register_user`: the first user with that email. */
  function GetUserByEmail(users: seq<User>, email: string): (r: Option<User>)
    ensures r.Some? ==> r.value in users && r.value.email == email
    ensures r.None? <==> forall u :: u in users ==> u.email != email
  {
    First(users, (u: User) => u.email == email)
  }

  /** Appending a user whose username and email are new keeps both unique. */
  lemma InsertKeepsUnique(users: seq<User>, u: User)
    requires UniqueCredentials(users)
    requires forall v :: v in users ==> v.username != u.username && v.email != u.email
    ensures UniqueCredentials(users + [u])
  {
    var r := users + [u];
    forall i, j | 0 <= i < j < |r|
      ensures r[i].username != r[j].username && r[i].email != r[j].email
    {
      assert r[i] == users[i] && r[i] in users;
      if j < |users| { assert r[j] == users[j]; }
    }
  }

  /** The freshly inserted user can log in with the password it registered. */
  lemma NewUserAuthenticates(h: Hasher, db: Session, before: seq<User>, u: User, password: string)
    requires Sound(h) && u.hashedPassword == h.hash(password)
    requires forall v :: v in before ==> v.username != u.username
    requires db.users == before + [u]
    ensures GetCurrentUser(h, db, Credentials(u.username, password)) == Ok(u)
  {
    FirstAppend(before, u, (v: User) => v.username == u.username);
  }

  /**
   * `register_user` (POST /register). The `EmailStr` field is parsed by request
   * validation first: `parseEmail` refuses the address (422) or gives its normalised
   * form, which is the value compared and stored. Then a taken username, then a taken
   * email; otherwise `create_user` inserts the user and its UserResponse view is returned.
   */
  method RegisterUser(h: Hasher, parseEmail: string -> Option<string>, db: Session, user: UserCreate)
      returns (r: Result<UserResponse, HttpError>)
    requires db.Valid()
    modifies db
    ensures db.Valid()
    ensures parseEmail(user.email).None? ==> r == Err(InvalidEmail)
    ensures parseEmail(user.email).Some? && GetUserByUsername(old(db.users), user.username).Some? ==>
              r == Err(UsernameTaken)
    ensures (&& parseEmail(user.email).Some?
             && GetUserByUsername(old(db.users), user.username).None?
             && GetUserByEmail(old(db.users), parseEmail(user.email).value).Some?) ==> r == Err(EmailTaken)
    ensures r.Ok? <==> parseEmail(user.email).Some? &&
                       forall u :: u in old(db.users) ==>
                         u.username != user.username && u.email != parseEmail(user.email).value
    ensures r.Err? ==> db.users == old(db.users) && db.nextUserId == old(db.nextUserId)
    ensures r.Ok? ==>
              var created := User(old(db.nextUserId), user.username, parseEmail(user.email).value,
                                  h.hash(user.password));
              && db.users == old(db.users) + [created]
              && db.nextUserId == old(db.nextUserId) + 1
              && r.value == ToResponse(created)
              && (Sound(h) ==> GetCurrentUser(h, db, Credentials(user.username, user.password)) == Ok(created))
    ensures db.transactions == old(db.transactions) && db.nextTransactionId == old(db.nextTransactionId)
    ensures old(db.Consistent()) ==> db.Consistent()
  {
    var parsed := parseEmail(user.email);
    if parsed.None? {
      return Err(InvalidEmail);
    }
    var email := parsed.value;
    var dbUser := GetUserByUsername(db.users, user.username);
    if dbUser.Some? {
      return Err(UsernameTaken);
    }
    var existingEmail := GetUserByEmail(db.users, email);
    if existingEmail.Some? {
      return Err(EmailTaken);
    }
    ghost var before := db.users;
    ghost var wasConsistent := db.Consistent();
    var created := CreateUser(h, db, UserCreate(user.username, email, user.password));
    if wasConsistent {
      InsertKeepsUnique(before, created);
    }
    if Sound(h) {
      NewUserAuthenticates(h, db, before, created, user.password);
    }
    r := Ok(ToResponse(created));
  }

  /** `get_transactions` (GET /transactions/): exactly the caller's rows, possibly none. */
  function GetTransactions(h: Hasher, db: Session, credentials: Credentials)
      : (r: Result<seq<Transaction>, HttpError>)
    reads db`users, db`transactions
    ensures r.Err? <==> GetCurrentUser(h, db, credentials).Err?
    ensures r.Err? ==> r.error == IncorrectCredentials
    ensures r.Ok? ==> forall t :: t in r.value ==>
              t in db.transactions && t.userId == GetCurrentUser(h, db, credentials).value.id
    ensures r.Ok? ==> forall t :: (t in db.transactions &&
              t.userId == GetCurrentUser(h, db, credentials).value.id) ==> t in r.value
  {
    match GetCurrentUser(h, db, credentials)
    case Err(e) => Err(e)
    case Ok(user) => Ok(GetTransactionsByUserId(db.transactions, user.id))
  }

  /** Two different authenticated callers never see a common row. */
  lemma ListingsDisjoint(h: Hasher, db: Session, a: Credentials, b: Credentials, t: Transaction)
    requires GetTransactions(h, db, a).Ok? && GetTransactions(h, db, b).Ok?
    requires GetCurrentUser(h, db, a).value.id != GetCurrentUser(h, db, b).value.id
    ensures !(t in GetTransactions(h, db, a).value && t in GetTransactions(h, db, b).value)
  {
  }

  /** A listing is in storage order: ascending ids, each below the table's counter. */
  lemma ListingAscending(h: Hasher, db: Session, credentials: Credentials)
    requires db.Valid() && GetTransactions(h, db, credentials).Ok?
    ensures TransactionIdsAssigned(GetTransactions(h, db, credentials).value, db.nextTransactionId)
  {
    var caller := GetCurrentUser(h, db, credentials).value;
    FilterKeepsIds(db.transactions, db.nextTransactionId, (t: Transaction) => t.userId == caller.id);
  }

  /**
   * `create_transaction` (POST /transactions/): `add_transactions` with the
   * authenticated caller as owner.
   */
  method CreateTransaction(h: Hasher, db: Session, credentials: Credentials, transaction: TransactionCreate)
      returns (r: Result<Transaction, HttpError>)
    requires db.Valid()
    modifies db
    ensures db.Valid()
    ensures db.users == old(db.users) && db.nextUserId == old(db.nextUserId)
    ensures r.Err? <==> old(GetCurrentUser(h, db, credentials)).Err?
    ensures r.Err? ==> r.error == IncorrectCredentials
    ensures r.Err? ==> db.transactions == old(db.transactions) &&
                       db.nextTransactionId == old(db.nextTransactionId)
    ensures r.Ok? ==> && r.value.userId == old(GetCurrentUser(h, db, credentials)).value.id
                      && Fields(r.value) == transaction
                      && r.value.id == old(db.nextTransactionId)
                      && db.transactions == old(db.transactions) + [r.value]
                      && db.nextTransactionId == old(db.nextTransactionId) + 1
    ensures r.Ok? ==> GetTransactions(h, db, credentials) ==
                      Ok(old(GetTransactions(h, db, credentials)).value + [r.value])
    ensures old(db.Consistent()) ==> db.Consistent()
  {
    var auth := GetCurrentUser(h, db, credentials);
    if auth.Err? {
      return Err(auth.error);
    }
    var created := AddTransaction(db, auth.value.id, transaction);
    r := Ok(created);
  }

  /** The lookup of `delete_transaction_by_id`: the caller's row with that id. */
  function FindOwnedTransaction(rows: seq<Transaction>, id: int, userId: int): (r: Option<Transaction>)
    ensures r.Some? ==> r.value in rows && r.value.id == id && r.value.userId == userId
    ensures r.None? <==> forall t :: t in rows ==> t.id != id || t.userId != userId
  {
    First(rows, (t: Transaction) => t.id == id && t.userId == userId)
  }

  /** Since ids are unique, another user's row is never found for the caller. */
  lemma ForeignTransactionNotFound(rows: seq<Transaction>, next: int, t: Transaction, userId: int)
    requires TransactionIdsAssigned(rows, next)
    requires t in rows && t.userId != userId
    ensures FindOwnedTransaction(rows, t.id, userId) == None
  {
    forall s | s in rows && s.id == t.id ensures s == t {
      var i :| 0 <= i < |rows| && rows[i] == s;
      var j :| 0 <= j < |rows| && rows[j] == t;
      assert i == j;
    }
  }

  /**
   * `delete_transaction_by_id` (DELETE /transactions/{id}): delete the row only if
   * both its id and its owner match; otherwise 404 and nothing changes.
   */
  method DeleteTransactionById(h: Hasher, db: Session, credentials: Credentials, id: int)
      returns (r: Result<string, HttpError>)
    requires db.Valid()
    modifies db
    ensures db.Valid()
    ensures db.users == old(db.users)
    ensures db.nextUserId == old(db.nextUserId) && db.nextTransactionId == old(db.nextTransactionId)
    ensures var auth := old(GetCurrentUser(h, db, credentials));
            && (auth.Err? ==> r == Err(IncorrectCredentials))
            && (auth.Ok? && FindOwnedTransaction(old(db.transactions), id, auth.value.id).None? ==>
                  r == Err(TransactionNotFound))
            && (r.Ok? <==> auth.Ok? && FindOwnedTransaction(old(db.transactions), id, auth.value.id).Some?)
            && (auth.Ok? ==> forall t :: t in old(db.transactions) && t.userId != auth.value.id ==>
                               t in db.transactions)
    ensures r.Ok? ==> r.value == DeletedMessage && db.transactions == WithoutId(old(db.transactions), id)
    ensures r.Err? ==> db.transactions == old(db.transactions)
    ensures forall t :: t in db.transactions ==> t in old(db.transactions)
    ensures forall t :: t in old(db.transactions) && t.id != id ==> t in db.transactions
    ensures old(db.Consistent()) ==> db.Consistent()
  {
    var auth := GetCurrentUser(h, db, credentials);
    if auth.Err? {
      return Err(auth.error);
    }
    var transaction := FindOwnedTransaction(db.transactions, id, auth.value.id);
    if transaction.None? {
      return Err(TransactionNotFound);
    }
    ghost var before := db.transactions;
    FilterKeepsIds(before, db.nextTransactionId, (t: Transaction) => t.id != transaction.value.id);
    forall t | t in before && t.userId != auth.value.id
      ensures t.id != id
    {
      ForeignTransactionNotFound(before, db.nextTransactionId, t, auth.value.id);
    }
    db.transactions := WithoutId(db.transactions, transaction.value.id);
    r := Ok(DeletedMessage);
  }
}
