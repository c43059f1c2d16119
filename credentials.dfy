/** The password credential handling of the register and login handlers (bcrypt).

    bcrypt itself is kept abstract: a `Hasher` is any deterministic function from a cost
    factor, a salt and a plaintext to a digest. `bcrypt.hash` draws a random salt; here
    that salt is a parameter. `bcrypt.compare` reads the cost factor and the salt back out
    of the stored hash and recomputes the digest, which is what `Verify` does. */
module Credentials {

  type Salt = string
  type Digest = string

  /** bcrypt's key derivation: cost factor, salt, plaintext to digest. */
  type Hasher = (nat, Salt, string) -> Digest

  /** The cost factor the register handler passes to `bcrypt.hash`. */
  const SaltRounds: nat := 10

  /** The stored form of a password: never the plaintext itself. */
  datatype Credential = Credential(rounds: nat, salt: Salt, digest: Digest)

  /** `bcrypt.hash(plaintext, 10)` with the salt it drew. */
  function Hash(hasher: Hasher, salt: Salt, plaintext: string): (c: Credential)
    ensures c.rounds == SaltRounds && c.salt == salt
    ensures Verify(hasher, plaintext, c)
  {
    Credential(SaltRounds, salt, hasher(SaltRounds, salt, plaintext))
  }

  /** `bcrypt.compare(plaintext, c)`. */
  predicate Verify(hasher: Hasher, plaintext: string, c: Credential)
  {
    hasher(c.rounds, c.salt, plaintext) == c.digest
  }

  /** `bcrypt.compare` against a hash made with cost factor 10 accepts exactly the
      plaintexts that, hashed again with the stored salt, give back the stored hash. */
  lemma VerifyRehash(hasher: Hasher, plaintext: string, c: Credential)
    requires c.rounds == SaltRounds
    ensures Verify(hasher, plaintext, c) <==> Hash(hasher, c.salt, plaintext) == c
  {
  }

  /** Another password is accepted against a stored credential exactly when the hasher
      maps both passwords to the same digest under that credential's salt. */
  lemma VerifyOtherPassword(hasher: Hasher, salt: Salt, password: string, attempt: string)
    ensures Verify(hasher, attempt, Hash(hasher, salt, password))
        <==> hasher(SaltRounds, salt, attempt) == hasher(SaltRounds, salt, password)
  {
  }
}
