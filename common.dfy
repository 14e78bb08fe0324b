/**
 * Values shared by the calendar application's backend and front end: table rows,
 * token claims, HTTP responses, and the two cryptographic libraries (bcrypt and
 * jsonwebtoken), which the model treats as oracles passed in by the caller.
 */
module Common {

  datatype Option<+T> = None | Some(value: T)

  /** A date travels through the system unchanged and is never inspected. */
  type Date = string

  /**
   * A row of the `users` table. `password` holds a bcrypt digest, or "" for an
   * account created by the Google sign-in callback.
   */
  datatype User = User(id: int, email: string, password: string)

  /** A row of the `events` table; `userId` is the id of the owning user. */
  datatype Event = Event(id: int, title: string, date: Date, description: string, userId: int)

  /** The columns a request may set on an event. */
  datatype Fields = Fields(title: string, date: Date, description: string)

  /** The JSON body of an event-creating request; `userId` is absent unless the client sends it. */
  datatype EventBody = EventBody(fields: Fields, userId: Option<int>)

  /**
   * The claims of a decoded token. Both are optional: the tokens issued by the
   * `/login` route carry only `userId`, those issued by the auth controller only `id`.
   */
  datatype Claims = Claims(userId: Option<int>, id: Option<int>)

  /** What a route handler puts in the response body. */
  datatype Body =
    | Plain(text: string)           // res.send('...') or res.sendStatus(...)
    | ErrorJson(error: string)      // res.json({ error: '...' })
    | MessageJson(message: string)  // res.json({ message: '...' })
    | UserJson(user: User)
    | EventJson(event: Event)
    | EventsJson(events: seq<Event>)
    | TokenJson(token: string)

  datatype Response = Response(status: int, body: Body)

  /** bcrypt as an oracle: `hash(password, rounds)` and `compare(password, digest)`. */
  datatype Bcrypt = Bcrypt(hash: (string, int) -> string, compare: (string, string) -> bool)

  /** The one property assumed of bcrypt: a password matches a digest of itself. */
  ghost predicate HashAgrees(b: Bcrypt)
  {
    forall p, rounds :: b.compare(p, b.hash(p, rounds))
  }

  /**
   * jsonwebtoken as an oracle: `sign(claims, secret, expiresAt)` and
   * `verify(token, secret, now)`, times in seconds.
   */
  datatype Jwt = Jwt(sign: (Claims, string, int) -> string, verify: (string, string, int) -> Option<Claims>)

  /**
   * What is assumed of jsonwebtoken: a token verifies under the secret it was
   * signed with exactly until its expiry, and decodes to the claims it was signed
   * with; a signed token is one non-empty word (no spaces); and an empty token
   * is rejected before any signature is checked.
   */
  ghost predicate JwtSound(j: Jwt)
  {
    && (forall c, s, exp, now :: j.verify(j.sign(c, s, exp), s, now) == if now < exp then Some(c) else None)
    && (forall c, s, exp :: j.sign(c, s, exp) != "" && ' ' !in j.sign(c, s, exp))
    && (forall t, s, now :: |t| == 0 ==> j.verify(t, s, now) == None)
  }
}
