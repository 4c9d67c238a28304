/**
 * The database session shared by crud.py and main.py: the users table, the
 * transactions table and the id each table assigns to its next row. Rows are kept
 * in insertion order, which is also ascending id order; that is the order in which
 * `.first()` and `.all()` see them. The query primitives (`filter(...).first()`,
 * `filter(...).all()`, `db.delete(row)`) are the functions of this module.
 */
module Store {
  import opened Wrappers
  import opened Schemas

  class Session {
    var users: seq<User>
    var transactions: seq<Transaction>
    var nextUserId: int
    var nextTransactionId: int

    /** What the primary keys guarantee: every id assigned once, in ascending order. */
    ghost predicate Valid()
      reads this
    {
      && UserIdsAssigned(users, nextUserId)
      && TransactionIdsAssigned(transactions, nextTransactionId)
    }

    /** The application-level invariants: unique usernames and emails, existing owners. */
    ghost predicate Consistent()
      reads this
    {
      && Valid()
      && UniqueCredentials(users)
      && OwnersExist(users, transactions)
    }

    /** A fresh, empty database. */
    constructor ()
      ensures Consistent()
      ensures users == [] && transactions == []
      ensures nextUserId == 1 && nextTransactionId == 1
    {
      users, transactions := [], [];
      nextUserId, nextTransactionId := 1, 1;
    }
  }

  ghost predicate UserIdsAssigned(users: seq<User>, next: int)
  {
    && 1 <= next
    && (forall i :: 0 <= i < |users| ==> 1 <= users[i].id < next)
    && (forall i, j :: 0 <= i < j < |users| ==> users[i].id < users[j].id)
  }

  ghost predicate TransactionIdsAssigned(rows: seq<Transaction>, next: int)
  {
    && 1 <= next
    && (forall i :: 0 <= i < |rows| ==> 1 <= rows[i].id < next)
    && (forall i, j :: 0 <= i < j < |rows| ==> rows[i].id < rows[j].id)
  }

  /** No two users share a username, and no two share an email. */
  ghost predicate UniqueCredentials(users: seq<User>)
  {
    forall i, j :: 0 <= i < j < |users| ==>
      users[i].username != users[j].username && users[i].email != users[j].email
  }

  /** Every transaction belongs to a stored user. */
  ghost predicate OwnersExist(users: seq<User>, rows: seq<Transaction>)
  {
    forall t :: t in rows ==> exists u :: u in users && u.id == t.userId
  }

  /** `query.filter(p).first()`: the earliest row satisfying p, if any. */
  function First<T>(rows: seq<T>, p: T -> bool): (r: Option<T>)
    ensures r.Some? ==> r.value in rows && p(r.value)
    ensures r.None? <==> forall x :: x in rows ==> !p(x)
    ensures r.Some? ==> exists i :: 0 <= i < |rows| && rows[i] == r.value &&
                                    forall j :: 0 <= j < i ==> !p(rows[j])
  {
    if rows == [] then None
    else if p(rows[0]) then Some(rows[0])
    else
      var r := First(rows[1..], p);
      assert r.Some? ==> exists i :: 0 <= i < |rows[1..]| && rows[1..][i] == r.value &&
                                     forall j :: 0 <= j < i ==> !p(rows[1..][j]);
      r
  }

  /** `query.filter(p).all()`: every row satisfying p, in storage order. */
  function Filter<T>(rows: seq<T>, p: T -> bool): (r: seq<T>)
    ensures |r| <= |rows|
    ensures forall x :: x in r ==> x in rows && p(x)
    ensures forall x :: x in rows && p(x) ==> x in r
  {
    if rows == [] then []
    else
      assert rows == [rows[0]] + rows[1..];
      if p(rows[0]) then [rows[0]] + Filter(rows[1..], p) else Filter(rows[1..], p)
  }

  /** `db.delete(row); db.commit()`: remove the row whose primary key is id. */
  function WithoutId(rows: seq<Transaction>, id: int): (r: seq<Transaction>)
    ensures forall t :: t in r ==> t in rows && t.id != id
    ensures forall t :: t in rows && t.id != id ==> t in r
  {
    Filter(rows, (t: Transaction) => t.id != id)
  }

  /** Appending a row leaves the result of every earlier match of `first()` alone. */
  lemma {:induction false} FirstAppend<T>(rows: seq<T>, x: T, p: T -> bool)
    ensures First(rows + [x], p) ==
            if First(rows, p).Some? then First(rows, p) else if p(x) then Some(x) else None
  {
    if rows == [] {
      assert rows + [x] == [x];
    } else {
      assert (rows + [x])[0] == rows[0];
      assert (rows + [x])[1..] == rows[1..] + [x];
      FirstAppend(rows[1..], x, p);
    }
  }

  /** Appending a row extends a filtered listing by that row exactly when it matches. */
  lemma {:induction false} FilterAppend<T>(rows: seq<T>, x: T, p: T -> bool)
    ensures Filter(rows + [x], p) == Filter(rows, p) + (if p(x) then [x] else [])
  {
    if rows == [] {
      assert rows + [x] == [x];
    } else {
      assert (rows + [x])[0] == rows[0];
      assert (rows + [x])[1..] == rows[1..] + [x];
      FilterAppend(rows[1..], x, p);
    }
  }

  /** Filtering never breaks the ascending order of ids nor the counter bound. */
  lemma {:induction false} FilterKeepsIds(rows: seq<Transaction>, next: int, p: Transaction -> bool)
    requires TransactionIdsAssigned(rows, next)
    ensures TransactionIdsAssigned(Filter(rows, p), next)
  {
    if rows != [] {
      TailKeepsIds(rows, next);
      FilterKeepsIds(rows[1..], next, p);
      if p(rows[0]) {
        ConsKeepsIds(rows[0], Filter(rows[1..], p), next);
      }
    }
  }

  lemma TailKeepsIds(rows: seq<Transaction>, next: int)
    requires rows != [] && TransactionIdsAssigned(rows, next)
    ensures TransactionIdsAssigned(rows[1..], next)
    ensures forall t :: t in rows[1..] ==> rows[0].id < t.id
  {
    var tail := rows[1..];
    forall i, j | 0 <= i < j < |tail| ensures tail[i].id < tail[j].id {
      assert tail[i] == rows[i + 1] && tail[j] == rows[j + 1];
    }
    forall t | t in tail ensures rows[0].id < t.id {
      var k :| 0 <= k < |tail| && tail[k] == t;
      assert rows[k + 1] == t;
    }
  }

  lemma ConsKeepsIds(x: Transaction, rows: seq<Transaction>, next: int)
    requires TransactionIdsAssigned(rows, next) && 1 <= x.id < next
    requires forall t :: t in rows ==> x.id < t.id
    ensures TransactionIdsAssigned([x] + rows, next)
  {
    var r := [x] + rows;
    forall i, j | 0 <= i < j < |r| ensures r[i].id < r[j].id {
      assert r[j] == rows[j - 1];
      if i == 0 { assert r[j] in rows; } else { assert r[i] == rows[i - 1]; }
    }
  }
}
