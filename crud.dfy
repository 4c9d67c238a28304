/**
 * crud.py: the table-level insert and query primitives the handlers build on.
 * The two queries are functions of a table; the two inserts change the session.
 */
module Crud {
  import opened Wrappers
  import opened Schemas
  import opened Auth
  import opened Store

  /** `get_user_by_username`: the first stored user whose username is exactly `username`. */
  function GetUserByUsername(users: seq<User>, username: string): (r: Option<User>)
    ensures r.Some? ==> r.value in users && r.value.username == username
    ensures r.None? <==> forall u :: u in users ==> u.username != username
  {
    First(users, (u: User) => u.username == username)
  }

  /** When usernames are unique the lookup finds the one user of that name. */
  lemma GetUserByUsernameUnique(users: seq<User>, u: User)
    requires UniqueCredentials(users) && u in users
    ensures GetUserByUsername(users, u.username) == Some(u)
  {
    var r := GetUserByUsername(users, u.username);
    var i :| 0 <= i < |users| && users[i] == r.value;
    var j :| 0 <= j < |users| && users[j] == u;
    assert i == j;
  }

  /** `get_transactions_by_user_id`: exactly the rows owned by `userId`, in storage order. */
  function GetTransactionsByUserId(rows: seq<Transaction>, userId: int): (r: seq<Transaction>)
    ensures forall t :: t in r ==> t in rows && t.userId == userId
    ensures forall t :: t in rows && t.userId == userId ==> t in r
  {
    Filter(rows, (t: Transaction) => t.userId == userId)
  }

  /** A new row joins the end of its owner's listing and no other listing. */
  lemma GetTransactionsAfterInsert(rows: seq<Transaction>, t: Transaction, userId: int)
    ensures GetTransactionsByUserId(rows + [t], userId) ==
            GetTransactionsByUserId(rows, userId) + (if t.userId == userId then [t] else [])
  {
    FilterAppend(rows, t, (x: Transaction) => x.userId == userId);
  }

  /** `create_user`: insert a user carrying the hash of the password, never the password. */
  method CreateUser(h: Hasher, db: Session, user: UserCreate) returns (created: User)
    requires db.Valid()
    modifies db
    ensures db.Valid()
    ensures created == User(old(db.nextUserId), user.username, user.email, h.hash(user.password))
    ensures Sound(h) ==> h.verify(user.password, created.hashedPassword)
    ensures db.users == old(db.users) + [created] && db.nextUserId == old(db.nextUserId) + 1
    ensures db.transactions == old(db.transactions)
    ensures db.nextTransactionId == old(db.nextTransactionId)
  {
    var hashedPassword := h.hash(user.password);
    created := User(db.nextUserId, user.username, user.email, hashedPassword);
    db.users := db.users + [created];
    db.nextUserId := db.nextUserId + 1;
  }

  /** `add_transactions`: insert a copy of the request owned by `userId`. */
  method AddTransaction(db: Session, userId: int, transaction: TransactionCreate)
      returns (created: Transaction)
    requires db.Valid()
    modifies db
    ensures db.Valid()
    ensures created.id == old(db.nextTransactionId) && created.userId == userId
    ensures Fields(created) == transaction
    ensures db.transactions == old(db.transactions) + [created]
    ensures db.nextTransactionId == old(db.nextTransactionId) + 1
    ensures db.users == old(db.users) && db.nextUserId == old(db.nextUserId)
    ensures GetTransactionsByUserId(db.transactions, userId) ==
            GetTransactionsByUserId(old(db.transactions), userId) + [created]
    ensures forall other :: other != userId ==>
              GetTransactionsByUserId(db.transactions, other) ==
              GetTransactionsByUserId(old(db.transactions), other)
  {
    created := Transaction(db.nextTransactionId, userId, transaction.amount,
                           transaction.description, transaction.category,
                           transaction.date, transaction.kind);
    ghost var before := db.transactions;
    db.transactions := db.transactions + [created];
    db.nextTransactionId := db.nextTransactionId + 1;
    GetTransactionsAfterInsert(before, created, userId);
    forall other | other != userId
      ensures GetTransactionsByUserId(db.transactions, other) ==
              GetTransactionsByUserId(before, other)
    {
      GetTransactionsAfterInsert(before, created, other);
    }
  }
}
