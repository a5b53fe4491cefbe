/** util/auth.js: issuing and verifying identity tokens, and the middleware
    that gates every event route on the `Authorization` header.

    The JSON Web Token library is foreign code. It is represented by a
    `Signer`, a pair of functions, and the properties the model relies on are
    stated as the predicate `SignerSound`, which every lemma that needs them
    requires (RFC 7519: a token is accepted only while the current time is
    before its `exp` claim, section 4.1.4; the compact serialization is made
    of base64url parts and dots, so it is never empty and holds no space). */
module Auth {
  import opened Results
  import opened Text

  /** A verified token's payload: the identity `{ userId, email }` that
      generateToken signs, plus the `iat` and `exp` timestamps (seconds)
      that the library adds. */
  datatype Claims = Claims(userId: int, email: string, iat: int, exp: int)

  /** `jwt.sign(payload, secret)` and `jwt.verify(token, secret)` at a given
      time (seconds); `None` is a thrown verification error. */
  datatype Signer = Signer(
    sign: (Claims, string) -> string,
    verify: (string, string, int) -> Option<Claims>)

  /** `expiresIn: '1h'`, in seconds. */
  const ExpiresIn: int := 3600

  /** What the model assumes of the token library. */
  ghost predicate SignerSound(signer: Signer) {
    && (forall c, secret, t ::
          signer.verify(signer.sign(c, secret), secret, t) == if t < c.exp then Some(c) else None)
    && (forall c, secret :: signer.sign(c, secret) != "" && ' ' !in signer.sign(c, secret))
  }

  /** generateToken(userId, email): sign `{ userId, email }` with the
      process-wide secret, valid for one hour from `now`. */
  function GenerateToken(userId: int, email: string, secret: string, now: int, signer: Signer): (token: string)
    ensures SignerSound(signer) ==>
              && token != "" && ' ' !in token
              && signer.verify(token, secret, now) == Some(Claims(userId, email, now, now + ExpiresIn))
  {
    signer.sign(Claims(userId, email, now, now + ExpiresIn), secret)
  }

  const InvalidTokenMessage := "Invalid or expired token"

  /** verifyToken(token): the decoded payload, or an error with a fixed message. */
  function VerifyToken(token: string, secret: string, now: int, signer: Signer): (r: Result<Claims>)
    ensures r.Err? ==> r.message == InvalidTokenMessage
  {
    match signer.verify(token, secret, now)
    case Some(c) => Ok(c)
    case None => Err(InvalidTokenMessage)
  }

  /** A token issued at `issuedAt` verifies, with the same secret, at any time
      before the hour is up, and yields the identity it was issued for. */
  lemma IssuedTokenVerifies(userId: int, email: string, secret: string, issuedAt: int, t: int, signer: Signer)
    requires SignerSound(signer)
    requires t < issuedAt + ExpiresIn
    ensures VerifyToken(GenerateToken(userId, email, secret, issuedAt, signer), secret, t, signer)
            == Ok(Claims(userId, email, issuedAt, issuedAt + ExpiresIn))
  {
  }

  /** Once the hour is up the same token is rejected. */
  lemma ExpiredTokenRejected(userId: int, email: string, secret: string, issuedAt: int, t: int, signer: Signer)
    requires SignerSound(signer)
    requires t >= issuedAt + ExpiresIn
    ensures VerifyToken(GenerateToken(userId, email, secret, issuedAt, signer), secret, t, signer)
            == Err(InvalidTokenMessage)
  {
  }

  // ---------------------------------------------------------------------
  // authenticateToken

  /** `authHeader.split(' ')[1]`: the second space-separated piece, or
      nothing (undefined) when the header holds no space. The first piece,
      the scheme, is not looked at. */
  function TokenOf(header: string): (token: Option<string>)
    ensures token.None? <==> ' ' !in header
    ensures token.Some? ==> ' ' !in token.value
  {
    var parts := Split(header, ' ');
    if |parts| >= 2 then Some(parts[1]) else None
  }

  /** The two terminal outcomes of the gate, with the reason for a rejection. */
  datatype Decision = MissingHeader | MissingToken | InvalidToken | Authorized(claims: Claims)

  /** The response the gate sends for a rejection. */
  datatype Reply = Reply(status: int, message: string)

  /** What authenticateToken decides for a request's `Authorization` header. */
  function Decide(header: Option<string>, secret: string, now: int, signer: Signer): (d: Decision)
    ensures d.Authorized? ==>
              && Truthy(header) && ' ' in header.value && TokenOf(header.value).Some?
              && VerifyToken(TokenOf(header.value).value, secret, now, signer) == Ok(d.claims)
  {
    if !Truthy(header) then MissingHeader
    else
      var token := TokenOf(header.value);
      if !Truthy(token) then MissingToken
      else match VerifyToken(token.value, secret, now, signer)
        case Err(_) => InvalidToken
        case Ok(c) => Authorized(c)
  }

  function RejectionOf(d: Decision): (r: Reply)
    requires !d.Authorized?
    ensures r.status == (if d == InvalidToken then 403 else 401)
    ensures r.message == InvalidTokenMessage <==> d == InvalidToken
  {
    match d
    case MissingHeader => Reply(401, "Authorization header required")
    case MissingToken => Reply(401, "Access token required")
    case InvalidToken => Reply(403, InvalidTokenMessage)
  }

  /** A request and its response as the middleware sees them:
      `req.headers['authorization']`, `req.user`, what was sent with
      `res.status(...).json(...)`, and how often `next()` was called. */
  class Exchange {
    const authorization: Option<string>
    var user: Option<Claims>
    var response: Option<Reply>
    var nextCalls: nat

    constructor (authorization: Option<string>)
      ensures this.authorization == authorization
      ensures user == None && response == None && nextCalls == 0
    {
      this.authorization := authorization;
      user := None;
      response := None;
      nextCalls := 0;
    }
  }

  /** authenticateToken(req, res, next). Accepting sets `req.user` to the
      decoded payload and calls `next` once, sending nothing; rejecting sends
      401 or 403 and leaves `req.user` as it was, without calling `next`. */
  method AuthenticateToken(ex: Exchange, secret: string, now: int, signer: Signer)
    modifies ex
    ensures var d := Decide(ex.authorization, secret, now, signer);
      if d.Authorized? then
        ex.user == Some(d.claims) && ex.nextCalls == old(ex.nextCalls) + 1 && ex.response == old(ex.response)
      else
        ex.user == old(ex.user) && ex.nextCalls == old(ex.nextCalls) && ex.response == Some(RejectionOf(d))
  {
    var authHeader := ex.authorization;
    var token := if Truthy(authHeader) then TokenOf(authHeader.value) else None;
    if !Truthy(authHeader) {
      ex.response := Some(Reply(401, "Authorization header required"));
      return;
    }
    if !Truthy(token) {
      ex.response := Some(Reply(401, "Access token required"));
      return;
    }
    var decoded := VerifyToken(token.value, secret, now, signer);
    match decoded
    case Err(_) =>
      ex.response := Some(Reply(403, InvalidTokenMessage));
    case Ok(claims) =>
      ex.user := Some(claims);
      ex.nextCalls := ex.nextCalls + 1;
  }

  // ---------------------------------------------------------------------
  // Properties of the gate

  /** The token is exactly the second piece of a header `scheme + " " + token`,
      whatever the scheme word is: `Bearer` is never checked. */
  lemma {:induction false} TokenAfterAnyScheme(scheme: string, token: string)
    requires ' ' !in scheme && ' ' !in token
    ensures TokenOf(scheme + " " + token) == Some(token)
  {
    SplitJoin([scheme, token], ' ');
    assert Join([scheme, token], ' ') == scheme + " " + token by {
      assert Join([scheme, token][1..], ' ') == token;
    }
  }

  /** A header without a space has no token. */
  lemma SingleWordHasNoToken(header: string)
    requires header != "" && ' ' !in header
    ensures TokenOf(header) == None
    ensures forall secret, now, signer :: Decide(Some(header), secret, now, signer) == MissingToken
  {
    SplitNoSeparator(header, ' ');
  }

  /** A scheme word followed by two spaces yields an empty token, which is
      rejected like a missing one (for instance "Bearer  x"). */
  lemma DoubleSpaceHasNoToken(scheme: string, rest: string)
    requires ' ' !in scheme
    ensures TokenOf(scheme + "  " + rest) == Some("")
    ensures forall secret, now, signer :: Decide(Some(scheme + "  " + rest), secret, now, signer) == MissingToken
  {
    SplitAfterPiece(scheme, ' ', " " + rest);
    SplitAfterPiece("", ' ', rest);
    assert scheme + "  " + rest == scheme + [' '] + (" " + rest);
    assert " " + rest == "" + [' '] + rest;
  }

  /** A token the service issued passes the gate within its hour, under any
      scheme word, and `req.user` becomes the identity it was issued for. */
  lemma GateAcceptsIssuedToken(scheme: string, userId: int, email: string, secret: string,
                               issuedAt: int, t: int, signer: Signer)
    requires SignerSound(signer)
    requires ' ' !in scheme
    requires t < issuedAt + ExpiresIn
    ensures Decide(Some(scheme + " " + GenerateToken(userId, email, secret, issuedAt, signer)), secret, t, signer)
            == Authorized(Claims(userId, email, issuedAt, issuedAt + ExpiresIn))
  {
    var token := GenerateToken(userId, email, secret, issuedAt, signer);
    TokenAfterAnyScheme(scheme, token);
  }

  /** The decision is a rejection with 401 exactly when the header or the
      token is missing, with 403 exactly when the token does not verify. */
  lemma RejectionStatuses(header: Option<string>, secret: string, now: int, signer: Signer)
    ensures var d := Decide(header, secret, now, signer);
      && (d == MissingHeader <==> !Truthy(header))
      && (d == MissingToken <==> Truthy(header) && !Truthy(TokenOf(header.value)))
      && (d == InvalidToken <==>
            Truthy(header) && Truthy(TokenOf(header.value))
            && signer.verify(TokenOf(header.value).value, secret, now).None?)
      && (!d.Authorized? ==> RejectionOf(d).status == (if d == InvalidToken then 403 else 401))
  {
  }
}
