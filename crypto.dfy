/**
 * Password hashing, kept abstract. The source hashes with a salted bcrypt and
 * checks with `bcrypt.checkpw`; the model needs only that a password checks
 * against its own hash (CheckHash). The body of Hash is a stand-in.
 */
module Crypto {

  /** Stand-in for `bcrypt.hashpw(password, gensalt())`. */
  function Hash(password: string): string {
    "$2b$" + password
  }

  /** Stand-in for `bcrypt.checkpw(password, hashed)`. */
  predicate Check(password: string, hashed: string) {
    hashed == Hash(password)
  }

  /** The one property of bcrypt the model relies on. */
  lemma CheckHash(password: string)
    ensures Check(password, Hash(password))
  {
  }
}
