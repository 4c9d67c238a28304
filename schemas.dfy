/**
 * The request and response records of app/schemas.py and the rows stored for them.
 * The table models (`User`, `Transactions`) come from models.py, which is not part of
 * this model; their columns are read off the constructor calls in crud.py.
 */
module Schemas {

  /** The float `amount` of a transaction. Carried unchanged; the core never computes with it. */
  type Amount(==)

  /** The caller-supplied `datetime` of a transaction. Carried unchanged. */
  type Date(==)

  /** Body of POST /register. */
  datatype UserCreate = UserCreate(username: string, email: string, password: string)

  /** The user view sent back to clients: id, username and email, never the hash. */
  datatype UserResponse = UserResponse(id: int, username: string, email: string)

  /** Body of POST /transactions/. `kind` is the source's free-text `type` column. */
  datatype TransactionCreate =
    TransactionCreate(amount: Amount, description: string, category: string, date: Date, kind: string)

  /** A row of the users table: the password is kept only as its hash. */
  datatype User = User(id: int, username: string, email: string, hashedPassword: string)

  /**
   * A row of the transactions table. Its fields are exactly those of TransactionResponse,
   * which is TransactionCreate plus `id` and `user_id`.
   */
  datatype Transaction =
    Transaction(id: int, userId: int, amount: Amount, description: string,
                category: string, date: Date, kind: string)

  /** The response_model filter applied to a stored user. */
  function ToResponse(u: User): UserResponse
  {
    UserResponse(u.id, u.username, u.email)
  }

  /** The client-supplied part of a stored transaction. */
  function Fields(t: Transaction): TransactionCreate
  {
    TransactionCreate(t.amount, t.description, t.category, t.date, t.kind)
  }
}
