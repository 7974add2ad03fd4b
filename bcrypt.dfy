/**
 * The password hasher (bcryptjs) as the controller uses it: `hash` turns a
 * plaintext password into the digest that is stored, `compare` checks a
 * plaintext against a stored digest.
 *
 * The digest is idealised: salt generation is randomness and is left out, so
 * hashing is deterministic and exact (no input-length cut-off). A digest
 * carries the marker of the algorithm and the work factor the controller
 * asks for (`genSalt(10)`), followed by an encoding of the password.
 */
module Bcrypt {
  /** Marker at the head of every digest: algorithm 2a, work factor 10. */
  const Prefix: string := "$2a$10$"

  /** `bcrypt.hash(password, salt)`: the stored form of a password. */
  function Hash(password: string): (digest: string)
    ensures digest != password
  {
    Prefix + password
  }

  /** `bcrypt.compare(password, digest)`: does `digest` store `password`? */
  predicate Compare(password: string, digest: string): (matches: bool)
    ensures matches ==> digest != password
  {
    digest == Hash(password)
  }

  /** The strings that some call of the hasher can produce. */
  ghost predicate IsDigest(s: string)
  {
    exists p :: s == Hash(p)
  }

  lemma HashIsDigest(password: string)
    ensures IsDigest(Hash(password))
  {
  }

  /** A password always matches its own digest. */
  lemma CompareOwnHash(password: string)
    ensures Compare(password, Hash(password))
  {
  }

  /** A digest matches only the password it was made from. */
  lemma {:induction false} CompareOnlyOwnHash(password: string, original: string)
    requires Compare(password, Hash(original))
    ensures password == original
  {
    assert Hash(original)[|Prefix|..] == original;
    assert Hash(password)[|Prefix|..] == password;
  }

  /** No digest is a plaintext that matches it: what is stored is never the password. */
  lemma DigestIsNotPlaintext(password: string, digest: string)
    requires Compare(password, digest)
    ensures digest != password
  {
  }
}
