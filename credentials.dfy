/**
 * The access-token codec (`jwt.sign` / `jwt.verify` with the process-wide key
 * `JWT_SECRET || 'dev'`). Signatures are not modelled: a codec is any pair of
 * functions whose decoding undoes encoding, and whose tokens use the JWT alphabet
 * (base64url segments separated by dots). Times are in whole seconds, as in JWT claims.
 */
module Credentials {
  import opened Base

  /** The payload `{ sub, username }` plus the registered claims `iat` and `exp`. */
  datatype Claims = Claims(sub: int, username: string, iat: int, exp: int)

  /** `expiresIn: '15m'`. */
  const LifetimeSeconds: int := 15 * 60

  /** Why `jwt.verify` throws: bad signature or payload, or the token has expired. */
  datatype VerifyError = Malformed | Expired

  /** The identity the guards attach: `{ id: Number(payload.sub), username: payload.username }`. */
  datatype Identity = Identity(id: int, username: string)

  predicate IsTokenChar(c: char) {
    ('A' <= c <= 'Z') || ('a' <= c <= 'z') || ('0' <= c <= '9') || c == '-' || c == '_' || c == '.'
  }

  /** A compact JWT: non-empty and drawn from the base64url alphabet and the dot. */
  predicate IsTokenText(s: string) {
    |s| > 0 && forall i :: 0 <= i < |s| ==> IsTokenChar(s[i])
  }

  /** A codec bound to one signing key. */
  datatype Codec = Codec(encode: Claims -> string, decode: string -> Option<Claims>)

  /** Decoding a token this codec signed gives back its claims, and tokens are compact JWTs. */
  ghost predicate Sound(c: Codec) {
    && (forall cl :: c.decode(c.encode(cl)) == Some(cl))
    && (forall cl :: IsTokenText(c.encode(cl)))
  }

  /** `jwt.sign({ sub, username }, key, { expiresIn: '15m' })` at time `now`. */
  function Sign(c: Codec, sub: int, username: string, now: int): (token: string)
    ensures Sound(c) ==>
      c.decode(token) == Some(Claims(sub, username, now, now + LifetimeSeconds)) && IsTokenText(token)
  {
    c.encode(Claims(sub, username, now, now + LifetimeSeconds))
  }

  /** `jwt.verify(token, key)` at time `now`: the token is rejected from its `exp` second on. */
  function Verify(c: Codec, token: string, now: int): (r: Result<Claims, VerifyError>)
    ensures r.Success? ==> c.decode(token) == Some(r.value) && now < r.value.exp
    ensures r == Failure(Expired) ==> c.decode(token).Some? && now >= c.decode(token).value.exp
    ensures r == Failure(Malformed) <==> c.decode(token).None?
  {
    match c.decode(token)
    case None => Failure(Malformed)
    case Some(cl) => if now >= cl.exp then Failure(Expired) else Success(cl)
  }

  function IdentityOf(cl: Claims): Identity {
    Identity(cl.sub, cl.username)
  }

  /**
   * A token minted at `t0` verifies at every time before `t0 + 15 min` with the claims it
   * was minted with, and is rejected as expired at that second and after.
   */
  lemma SignThenVerify(c: Codec, sub: int, username: string, t0: int, t: int)
    requires Sound(c)
    ensures t < t0 + LifetimeSeconds ==>
      Verify(c, Sign(c, sub, username, t0), t) == Success(Claims(sub, username, t0, t0 + LifetimeSeconds))
    ensures t >= t0 + LifetimeSeconds ==> Verify(c, Sign(c, sub, username, t0), t) == Failure(Expired)
    ensures IsTokenText(Sign(c, sub, username, t0))
  {
    var cl := Claims(sub, username, t0, t0 + LifetimeSeconds);
    assert c.decode(c.encode(cl)) == Some(cl);
    assert IsTokenText(c.encode(cl));
  }
}
