/**
 * The password hasher of auth.py (`get_password_hash`, `verify_password`). Its
 * algorithm is not part of this model: the ledger receives the two primitives as a
 * value, and the single fact it may rely on is Sound.
 */
module Auth {

  datatype Hasher = Hasher(hash: string -> string, verify: (string, string) -> bool)

  /** Verifying a password against its own hash always succeeds. */
  ghost predicate Sound(h: Hasher)
  {
    forall p :: h.verify(p, h.hash(p))
  }
}
