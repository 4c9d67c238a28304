# Finance tracker: per-request authentication and the owner-scoped ledger

This project models the core of a small personal-finance service. Users register with a
username, an email and a password. Every protected request carries HTTP Basic credentials
and is authenticated afresh. An authenticated user can record, list and delete transactions,
and only ever sees or deletes their own.

The model is a database session (`Store.Session`) holding the users table, the transactions
table and the id the next row of each table receives. The tables are sequences of rows in
insertion order. Ids are assigned in ascending order, so this is also ascending-id order.
Neither query has an `ORDER BY` (main.py:86, crud.py:20), so SQL itself does not fix the
order in which `filter(...).first()` and `filter(...).all()` see the rows. The model fixes
ascending id, which is the order of SQLite's table scan.
Sequences are used rather than maps so that "the first matching row" and "the rows in
storage order" have a definite meaning.

- `wrappers.dfy`: `Option` and `Result`.
- `schemas.dfy`: the request and response records of `app/schemas.py` and the stored rows.
  `amount` and `date` are abstract types that are carried along and never computed with.
  The source's `type` column is called `kind`, because `type` is a Dafny keyword.
- `auth.dfy`: the password hasher as a value `Hasher(hash, verify)`. `Sound(h)` states the
  one fact the core relies on: `verify(p, hash(p))` holds for every password.
- `store.dfy`: the session class, its invariants and the query primitives.
  - `Valid()` says each table's ids are ascending and below its counter.
  - `Consistent()` adds unique usernames, unique emails, and an existing owner for every
    transaction.
  - `First` models `filter(p).first()`, `Filter` models `filter(p).all()`, and `WithoutId`
    models `db.delete(row)`.
- `crud.py` → `crud.dfy`. The two queries are functions of a table. `create_user` and
  `add_transactions` are methods that append a row and advance the table's counter.
- `main.py` → `main.dfy`.
  - `get_current_user` and `get_transactions` are functions that read the session.
  - `register_user`, `create_transaction` and `delete_transaction_by_id` are methods that
    modify the session.
  - As in the source, every handler takes the session as a parameter. An `HTTPException` is
    an `Err(HttpError(status, detail))` with the source's status codes and detail strings.
- `scenarios.dfy`: client methods proved from the handlers' contracts alone.
  `RegisterTwice`, `RecordListDelete` and `OtherUserRefused` have no postconditions of their
  own, so they have no row in the table below. `OneUser`, `AddBob` and `TwoUsers` build the
  two-user database that `OtherUserRefused` starts from, and each has a row. `OneUser` and
  `AddBob` are the two steps of `TwoUsers`.
  - `RegisterTwice` mirrors tests/test_auth.py:18-36: duplicate username, then duplicate email.
    Here the duplicate email differs from the stored one only in the case of its domain.
  - `RecordListDelete` mirrors tests/test_transactions.py:30-72: empty listing, create, list,
    delete, empty listing again.
  - `OtherUserRefused` has no counterpart among the repository's tests. It exercises the
    owner check of main.py:99-101: a second user can neither list nor delete the first
    user's transaction.

Decisions the code makes, which the model follows:
- An invalid email is rejected first. The `EmailStr` body field is validated before
  `register_user` runs (main.py:68-69, app/schemas.py:6), so a malformed email gets 422
  even when the username is taken.
- `EmailStr` also normalises the address it accepts. `RegisterUser` receives it as
  `parseEmail: string -> Option<string>`. `None` gives the 422, and `Some(e)` is the
  value that main.py:74 compares and that `create_user` stores.
- `type` is free text. It is not limited to "income" and "expense", as
  `app/schemas.py:22` declares it a plain `str`.
- Listing order is a choice the model makes. The queries leave it unspecified, and the
  model lists rows by ascending id, as SQLite's table scan returns them
  (`Main.ListingAscending`).

## Model

| member | source | states |
|---|---|---|
| Store.Session.constructor | tests/conftest.py:27-36 | A fresh database has empty tables, both counters at 1, and satisfies every invariant. |
| Store.First | crud.py:20 | `filter(p).first()` returns a row that is stored and satisfies p, and no earlier row satisfies p. It returns None exactly when no row satisfies p. |
| Store.Filter | main.py:86 | `filter(p).all()` returns exactly the rows that satisfy p, and no more rows than the table has. |
| Store.WithoutId | main.py:103-104 | Deleting a row keeps exactly the rows whose id differs from that row's id. |
| Store.FirstAppend | crud.py:20 | After a row is appended, `first()` still returns any earlier match. If there was none, it returns the new row when that row matches. |
| Store.FilterAppend | main.py:86 | After a row is appended, a filtered listing is the old listing, with the new row added at the end exactly when it matches. |
| Store.FilterKeepsIds | main.py:103-104 | Removing rows keeps the remaining ids ascending and below the counter. |
| Crud.GetUserByUsername | crud.py:19-20 | Returns a stored user whose username equals the argument exactly. Returns None exactly when no such user exists. |
| Crud.GetUserByUsernameUnique | crud.py:19-20 | When usernames are unique, the lookup of a stored user's username returns that user. |
| Crud.GetTransactionsByUserId | crud.py:22-23 | Keeps exactly the rows whose `user_id` equals the argument and drops every other row. |
| Crud.GetTransactionsAfterInsert | crud.py:35-38 | An inserted row is added to the end of its owner's listing and to no other user's listing. |
| Crud.CreateUser | crud.py:7-17 | Appends exactly one user with the next id, the given username and email, and `hash(password)`; under `Sound` the password verifies against the stored hash. Existing users, the transactions table and its counter are unchanged. |
| Crud.AddTransaction | crud.py:25-38 | Appends exactly one transaction with the next id. Its owner is the given id and its other fields are copied unchanged. It joins the end of the owner's listing, and every other owner's listing is unchanged. |
| Main.GetCurrentUser | main.py:38-60 | On success, returns a stored user whose username equals the supplied one exactly and whose hash verifies the password. Every failure is the one 401 "Incorrect username or password". An unknown username always fails. |
| Main.AuthenticateStoredUser | main.py:41-60 | When usernames are unique, a stored user's name and password authenticate as that user exactly when the password verifies against the user's hash. Otherwise the result is the 401. |
| Main.AuthFailuresIndistinguishable | main.py:42-57 | An unknown username, and a known username with a wrong password, give the identical error. |
| Main.Login | main.py:63-66 | Returns the UserResponse view (id, username, email) of the authenticated caller, and the 401 otherwise. `read_users_me` (main.py:80-82) returns the same view. |
| Main.GetUserByEmail | main.py:74 | Returns a stored user with exactly that email. Returns None exactly when no such user exists. |
| Main.InsertKeepsUnique | main.py:70-78 | Appending a user whose username and email are both new keeps usernames and emails unique. |
| Main.NewUserAuthenticates | main.py:78 | Under `Sound`, `get_current_user` accepts the pair (username, registered password) for a user just inserted with a username no earlier user has. |
| Main.RegisterUser | main.py:68-78 | Checks in order, first failure wins: an email `EmailStr` refuses (422), a taken username (400, even if the email is also taken), a taken normalised email (400). It succeeds exactly when the email parses and both the username and the normalised email are new. On failure the users table is unchanged. On success exactly one user is appended, with the normalised email, and the caller gets its view. `get_current_user` then accepts the pair (username, password), and uniqueness is preserved. |
| Main.GetTransactions | main.py:84-86 | Fails only when authentication fails, with the same 401. Otherwise returns exactly the transactions owned by the caller, which may be none. |
| Main.ListingsDisjoint | main.py:86 | Two callers with different ids never both see the same transaction. |
| Main.ListingAscending | main.py:86 | A successful listing is in the order the model fixes for the query: its ids are ascending and below the table's counter. |
| Main.CreateTransaction | main.py:88-94 | An unauthenticated request changes nothing. Otherwise it appends one transaction owned by the caller, with the client's fields unchanged, and the caller's listing grows by exactly that row. The users table is untouched and the invariants are preserved. |
| Main.FindOwnedTransaction | main.py:99 | Finds a row only if both its id and its owner match. Returns None exactly when there is no such row. |
| Main.ForeignTransactionNotFound | main.py:99-101 | Because ids are unique, another user's transaction is never found for the caller. |
| Main.DeleteTransactionById | main.py:96-105 | Fails with 401 when authentication fails, and with 404 "Transaction not found" when the caller owns no row with that id; nothing changes in either case. Otherwise only that row is removed. Every row with another id, and every row owned by someone else, is kept, and nothing is added. |
| Scenarios.OneUser | tests/conftest.py:27-36 | The `db_session` fixture's fresh database, followed by one registration. The result is consistent, has no transactions, and holds exactly alice, with id 1, the email `parseEmail` returns and the hash of her password. |
| Scenarios.AddBob | tests/conftest.py:52-61 | The `test_user` registration applied to a database holding only alice. Bob is appended with the next id and the hash of his password, the transactions are untouched, and consistency is kept. |
| Scenarios.TwoUsers | tests/conftest.py:52-61 | The `test_user` registration fixture applied twice, for alice and then bob, in a fresh database. The two users get distinct ids, and each authenticates with their own password. |

## Left out

- FastAPI routing, the response-model plumbing, CORS, and logging setup (main.py:1-36). Only
  the outcome of each handler is modelled. The log lines that tell the two authentication
  failures apart are internal and are not modelled.
- Main.AuthFailuresIndistinguishable: only the value of the 401 is modelled, not its timing.
  An unknown username is refused at main.py:42-48 without calling `verify_password`. A wrong
  password is refused only after the `verify_password` call at main.py:51. So the first
  failure answers faster, and a client can tell the two apart by response time.
- The "Not authenticated" 401 for a request without credentials. It comes from the
  `HTTPBasic` dependency, not from this repository's code.
- database.py: engine and session creation, `get_db`, and the `init_db` seeding of an admin
  user. This is startup and I/O plumbing.
- auth.py is not part of this model. The hashing algorithm and its salts are left out. `hash`
  is a function here, so the model does not capture that two hashes of one password can
  differ. The only fact used is that a password verifies against its own hash.
- `EmailStr` parsing and normalisation are the abstract function `parseEmail`. Its
  rules are the library's and are not modelled. The 422 detail text is pydantic's, not
  this repository's, and is modelled as one fixed string.
- Main.RegisterUser: `Credentials` is the (username, password) pair after `HTTPBasic` has
  decoded the header. That decoding accepts only ASCII and splits at the first `:`. So a
  registration whose username contains `:`, or whose username or password contains a
  non-ASCII character, can never produce matching credentials, and every request by that
  user gets 401. The model's "`get_current_user` accepts the pair" holds only for pairs
  the decoding can produce; the decoding itself is not modelled.
- Main.DeleteTransactionById: ids are SQLite signed 64-bit integers, while the model's
  `id: int` is unbounded. For a path id at or beyond 2^63, or below -2^63, the source never
  answers 404. Depending on the pydantic version, it rejects the path (422), or the query
  at main.py:99 raises OverflowError outside the `try` (500). The model answers 404 for
  such an id.
- The float `amount` and the `datetime` `date` are abstract types. No arithmetic is done
  on them.
- The rollback and 500 path of `delete_transaction_by_id` (main.py:106-108). It needs a
  storage failure, which the model cannot produce.
- `/summary`, `/` and `/health` (main.py:110-121) contain no logic.
- Races between the uniqueness checks and the insert. Each request runs to completion
  before the next begins.
- Id assignment: the table models in models.py are not part of this model. Ids come from a
  per-table counter that never reuses a value. A database that reuses the id of a deleted
  last row behaves differently there.
- tests/conftest.py fixtures other than the fresh database and the registered user.
