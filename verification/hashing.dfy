/**
 * The password hasher (bcrypt) as the handlers see it. Its internals (the
 * cost factor, the salt format, constant-time comparison) belong to a
 * library that is not part of this model, so it is a pair of total
 * functions supplied by the caller, together with the one law the handlers
 * rely on.
 */
module Hashing {
  /** The random salt bcrypt draws for each hash; randomness is an input here. */
  type Salt = nat

  /**
   * `hash(p, salt)` is the stored form of password `p` (bcrypt.hash);
   * `compare(p, stored)` says whether `p` matches a stored form (bcrypt.compare).
   */
  datatype Hasher = Hasher(hash: (string, Salt) -> string, compare: (string, string) -> bool)

  /**
   * What the handlers assume of bcrypt: a password always matches its own
   * hash, whatever the salt, and a hash is never the empty string.
   */
  ghost predicate Sound(h: Hasher) {
    (forall p, salt :: h.compare(p, h.hash(p, salt))) &&
    (forall p, salt :: h.hash(p, salt) != "")
  }
}
