/**
 * `authenticateUser`, the middleware in front of the mysql-backed controllers:
 * a branch on whether the `authorization` header is there and on whether the
 * token in it verifies; its only effect is to attach the claim `id` as
 * `req.userId`.
 */
module AuthMiddleware {
  import opened Common
  import opened Text
  import Tables
  import AuthController
  import Server

  /** The secret the middleware verifies with, written into the file. */
  const Secret := "your_jwt_secret"

  /** The middleware's outcome: the response it sends, or `next()` with `req.userId` set. */
  datatype Verdict = Refuse(response: Response) | Proceed(userId: Option<int>)

  /**
   * A missing or empty header answers 403 "No token provided."; otherwise the
   * second space-separated word is verified, and a header without one, or a
   * token that fails to verify, answers 500. On success `req.userId` is the
   * decoded claim `id` (absent if the token has none).
   */
  function AuthenticateUser(header: Option<string>, jwt: Jwt, now: int): (v: Verdict)
    ensures header.None? || header == Some("") ==> v == Refuse(Response(403, Plain("No token provided.")))
    ensures header.Some? && header.value != "" ==>
              (v.Proceed? <==> SecondWord(header.value).Some? && jwt.verify(SecondWord(header.value).value, Secret, now).Some?)
    ensures header.Some? && header.value != "" && v.Refuse? ==> v.response == Response(500, Plain("Failed to authenticate token."))
    ensures v.Proceed? ==> v.userId == jwt.verify(SecondWord(header.value).value, Secret, now).value.id
  {
    if header.None? || header.value == "" then Refuse(Response(403, Plain("No token provided.")))
    else
      match SecondWord(header.value)
      case None => Refuse(Response(500, Plain("Failed to authenticate token.")))
      case Some(token) =>
        match jwt.verify(token, Secret, now)
        case None => Refuse(Response(500, Plain("Failed to authenticate token.")))
        case Some(decoded) => Proceed(decoded.id)
  }

  /**
   * A non-empty header whose second word is empty (`Bearer `, a lone space,
   * `Bearer  x`) is not the 403 case here: the empty token is handed to
   * jsonwebtoken, which rejects it, so the answer is 500. The `server.js` gate
   * reads the same header as no token and answers 403.
   */
  lemma EmptyTokenRefused(header: string, jwt: Jwt, secret: string, now: int)
    requires JwtSound(jwt)
    requires header != "" && SecondWord(header) == Some("")
    ensures AuthenticateUser(Some(header), jwt, now) == Refuse(Response(500, Plain("Failed to authenticate token.")))
    ensures Server.AuthenticateToken(Some(header), jwt, secret, now) == Server.Reject(Server.Forbidden)
  {
    assert jwt.verify("", Secret, now) == None;
  }

  /**
   * Round trip: a token the auth controller's `login` issues, sent as
   * `Bearer <token>` before it expires, resolves here to the id of the user who
   * logged in, provided the controller signs with this middleware's secret.
   * After expiry the middleware answers 500.
   */
  lemma LoginTokenAuthenticates(users: seq<User>, email: string, password: string, bcrypt: Bcrypt, jwt: Jwt, secret: string, now: int, later: int)
    requires JwtSound(jwt)
    requires secret == Secret
    requires AuthController.Login(users, email, password, bcrypt, jwt, secret, now, false).status == 200
    ensures var r := AuthController.Login(users, email, password, bcrypt, jwt, secret, now, false);
            && r.body.TokenJson?
            && AuthenticateUser(Some("Bearer " + r.body.token), jwt, later) ==
                 if later < now + AuthController.TokenLifetime
                 then Proceed(Some(Tables.FindByEmail(users, email).value.id))
                 else Refuse(Response(500, Plain("Failed to authenticate token.")))
  {
    var claims := Claims(None, Some(Tables.FindByEmail(users, email).value.id));
    var token := jwt.sign(claims, secret, now + AuthController.TokenLifetime);
    assert token != "" && ' ' !in token;
    BearerSecondWord(token);
    assert jwt.verify(token, Secret, later) == if later < now + AuthController.TokenLifetime then Some(claims) else None;
  }
}
