/**
 * Client code in the shape of tests/test_auth.py and tests/test_transactions.py,
 * proved from the handlers' contracts alone.
 */
module Scenarios {
  import opened Wrappers
  import opened Schemas
  import opened Auth
  import opened Store
  import opened Crud
  import opened Main

  /**
   * Register, then be refused a second registration of the same username, and of the
   * same email written with an upper-case domain, which `EmailStr` normalises.
   */
  method RegisterTwice(h: Hasher, parseEmail: string -> Option<string>)
    requires Sound(h)
    requires parseEmail("alice@example.com") == Some("alice@example.com")
    requires parseEmail("alice@EXAMPLE.com") == Some("alice@example.com")
    requires parseEmail("other@example.com") == Some("other@example.com")
  {
    var db := new Session();
    var reg := RegisterUser(h, parseEmail, db, UserCreate("alice", "alice@example.com", "pw1"));
    assert reg.Ok? && reg.value.username == "alice";
    var u := db.users[0];
    assert db.users == [u] && u.username == "alice" && u.email == "alice@example.com";
    assert GetUserByUsername(db.users, "alice") == Some(u);
    var again := RegisterUser(h, parseEmail, db, UserCreate("alice", "other@example.com", "pw2"));
    assert again == Err(UsernameTaken);
    assert GetUserByUsername(db.users, "carol") == None;
    assert GetUserByEmail(db.users, "alice@example.com") == Some(u);
    var sameEmail := RegisterUser(h, parseEmail, db, UserCreate("carol", "alice@EXAMPLE.com", "pw3"));
    assert sameEmail == Err(EmailTaken);
  }

  /** Record a transaction, list it, delete it, and find the listing empty again. */
  method RecordListDelete(h: Hasher, parseEmail: string -> Option<string>, amount: Amount, date: Date)
    requires Sound(h)
    requires parseEmail("alice@example.com") == Some("alice@example.com")
  {
    var db := new Session();
    var reg := RegisterUser(h, parseEmail, db, UserCreate("alice", "alice@example.com", "pw1"));
    var alice := Credentials("alice", "pw1");
    var caller := db.users[0];
    assert GetCurrentUser(h, db, alice) == Ok(caller);
    assert GetTransactions(h, db, alice) == Ok([]);

    var created := CreateTransaction(h, db, alice, TransactionCreate(amount, "lunch", "food", date, "expense"));
    assert created.Ok? && created.value.userId == reg.value.id && created.value.description == "lunch";
    assert [] + [created.value] == [created.value];
    assert GetTransactions(h, db, alice) == Ok([created.value]);

    var deleted := DeleteTransactionById(h, db, alice, created.value.id);
    assert FindOwnedTransaction([created.value], created.value.id, caller.id).Some?;
    assert deleted == Ok(DeletedMessage);
    assert db.transactions == [];
    assert GetTransactions(h, db, alice) == Ok([]);
  }

  /** A fresh database holding the one registered user alice. */
  method OneUser(h: Hasher, parseEmail: string -> Option<string>) returns (db: Session, a: User)
    requires parseEmail("alice@example.com") == Some("alice@example.com")
    ensures fresh(db) && db.Consistent() && db.transactions == [] && db.users == [a]
    ensures a == User(1, "alice", "alice@example.com", h.hash("pw1"))
  {
    db := new Session();
    var regAlice := RegisterUser(h, parseEmail, db, UserCreate("alice", "alice@example.com", "pw1"));
    a := db.users[0];
  }

  /** Register bob beside alice. */
  method AddBob(h: Hasher, parseEmail: string -> Option<string>, db: Session, a: User) returns (b: User)
    requires parseEmail("bob@example.com") == Some("bob@example.com")
    requires db.Consistent() && db.users == [a] && a.username == "alice" && a.email != "bob@example.com"
    modifies db
    ensures db.Consistent() && db.users == [a, b] && db.transactions == old(db.transactions)
    ensures b == User(old(db.nextUserId), "bob", "bob@example.com", h.hash("pw2"))
  {
    var regBob := RegisterUser(h, parseEmail, db, UserCreate("bob", "bob@example.com", "pw2"));
    assert regBob.Ok?;
    b := db.users[1];
  }

  /** A fresh database holding two registered users, alice and bob. */
  method TwoUsers(h: Hasher, parseEmail: string -> Option<string>) returns (db: Session, a: User, b: User)
    requires Sound(h)
    requires parseEmail("alice@example.com") == Some("alice@example.com")
    requires parseEmail("bob@example.com") == Some("bob@example.com")
    ensures fresh(db) && db.Consistent() && db.transactions == []
    ensures GetCurrentUser(h, db, Credentials("alice", "pw1")) == Ok(a)
    ensures GetCurrentUser(h, db, Credentials("bob", "pw2")) == Ok(b)
    ensures a.id != b.id
  {
    db, a := OneUser(h, parseEmail);
    b := AddBob(h, parseEmail, db, a);
    AuthenticateStoredUser(h, db, a, "pw1");
    AuthenticateStoredUser(h, db, b, "pw2");
  }

  /** Another user's credentials can neither see nor delete alice's transaction. */
  method OtherUserRefused(h: Hasher, parseEmail: string -> Option<string>, amount: Amount, date: Date)
    requires Sound(h)
    requires parseEmail("alice@example.com") == Some("alice@example.com")
    requires parseEmail("bob@example.com") == Some("bob@example.com")
  {
    var db, a, b := TwoUsers(h, parseEmail);
    var alice := Credentials("alice", "pw1");
    var bob := Credentials("bob", "pw2");
    var created := CreateTransaction(h, db, alice, TransactionCreate(amount, "lunch", "food", date, "expense"));
    assert created.Ok?;
    var t := created.value;
    assert db.transactions == [t] && t.userId == a.id;
    var stolen := DeleteTransactionById(h, db, bob, t.id);
    assert stolen == Err(TransactionNotFound);
    assert t !in GetTransactions(h, db, bob).value;
  }
}
