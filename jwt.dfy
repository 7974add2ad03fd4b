/**
 * Signed, time-limited identity tokens (jsonwebtoken) as the controller uses
 * them. A token is the identity it carries, its expiry instant and whether its
 * signature is intact; the signing secret and the cryptography stay abstract
 * behind that flag. A string that is not a well-formed token is a token whose
 * flag is false. Time is an explicit clock in seconds.
 */
module Jwt {
  import opened Wrappers

  datatype Token<Id> = Token(id: Id, exp: int, signed: bool)

  /** Seconds in a day and in a minute, for the `expiresIn` spans. */
  const Day: int := 24 * 60 * 60
  const Minute: int := 60

  /** `expiresIn: '30d'`: the lifetime of a session token. */
  const SessionTtl: int := 30 * Day
  /** `expiresIn: '15m'`: the lifetime of a reset token. */
  const ResetTtl: int := 15 * Minute

  /** `jwt.verify(token, secret)` at instant `now`: the identity the token carries, or failure. */
  function Verify<Id>(token: Token<Id>, now: int): (decoded: Option<Id>)
    ensures decoded.Some? <==> token.signed && now < token.exp
    ensures decoded.Some? ==> decoded.value == token.id
  {
    if token.signed && now < token.exp then Some(token.id) else None
  }

  /** `jwt.sign({ id }, secret, { expiresIn: ttl })` at instant `now`. */
  function Sign<Id>(id: Id, ttl: int, now: int): (token: Token<Id>)
    ensures forall t :: Verify(token, t) == (if t < now + ttl then Some(id) else None)
  {
    Token(id, now + ttl, true)
  }

  /** A token whose signature has been altered. */
  function Tamper<Id>(token: Token<Id>): (forged: Token<Id>)
    ensures forged.id == token.id && forged.exp == token.exp && !forged.signed
  {
    token.(signed := false)
  }

  /** A tampered token is refused at every instant, whatever it was before. */
  lemma TamperedNeverVerifies<Id>(token: Token<Id>, now: int)
    ensures Verify(Tamper(token), now) == None
  {
  }
}
