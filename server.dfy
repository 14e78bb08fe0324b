/**
 * The Prisma-backed Express server: the `authenticateToken` gate and the
 * `/register`, `/login` and `/events` routes, as operations on the tables of a
 * `Db`. The signing secret (`JWT_SECRET`) and the clock are parameters; a
 * failing database statement is the parameter `fault`.
 */
module Server {
  import opened Common
  import opened Text
  import opened Tables

  /** `bcrypt.hash(password, 10)`. */
  const HashRounds := 10
  /** `expiresIn: '1h'`, in seconds. */
  const TokenLifetime := 3600

  /** `res.sendStatus(403)`. */
  const Forbidden := Response(403, Plain("Forbidden"))

  /** The outcome of the gate: the response it sends, or `next()` with `req.user` set. */
  datatype Gate = Reject(response: Response) | Next(user: Claims)

  /**
   * `authHeader && authHeader.split(' ')[1]`, read the way `!token` reads it:
   * an absent header, a header without a second word and an empty second word
   * all count as no token.
   */
  function BearerToken(header: Option<string>): (t: Option<string>)
    ensures header.None? ==> t.None?
    ensures header.Some? ==> (t.Some? <==> SecondWord(header.value).Some? && SecondWord(header.value).value != "")
    ensures t.Some? ==> t.value == Split(header.value)[1]
    ensures t.Some? ==> t.value != "" && ' ' !in t.value
  {
    match header
    case None => None
    case Some(h) => var w := SecondWord(h); if w == Some("") then None else w
  }

  /** What a client sends as `Bearer ${token}` yields the token back. */
  lemma BearerTokenOf(token: string)
    requires token != "" && ' ' !in token
    ensures BearerToken(Some("Bearer " + token)) == Some(token)
  {
    BearerSecondWord(token);
  }

  /**
   * `authenticateToken`: a missing token and a token that fails to verify get
   * the same 403; a verified token continues with its decoded claims.
   */
  function AuthenticateToken(header: Option<string>, jwt: Jwt, secret: string, now: int): (g: Gate)
    ensures g.Reject? ==> g.response == Forbidden
    ensures g.Next? <==> BearerToken(header).Some? && jwt.verify(BearerToken(header).value, secret, now).Some?
    ensures g.Next? ==> jwt.verify(BearerToken(header).value, secret, now) == Some(g.user)
  {
    match BearerToken(header)
    case None => Reject(Forbidden)
    case Some(token) =>
      match jwt.verify(token, secret, now)
      case None => Reject(Forbidden)
      case Some(user) => Next(user)
  }

  /**
   * `POST /register`: stores the digest of the password under a fresh id and
   * answers 201 with the new user; a failing create (a duplicate email, as the
   * unique `email` column demands, or any other database error) answers 400 and
   * stores nothing.
   */
  method Register(db: Db, email: string, password: string, bcrypt: Bcrypt, fault: bool) returns (resp: Response)
    requires db.Valid()
    modifies db
    ensures db.Valid()
    ensures EmailsUnique(old(db.users)) ==> EmailsUnique(db.users)
    ensures if fault || FindByEmail(old(db.users), email).Some? then
              resp == Response(400, ErrorJson("User already exists")) && unchanged(db)
            else
              var u := User(old(db.nextUserId), email, bcrypt.hash(password, HashRounds));
              && db.users == old(db.users) + [u]
              && resp == Response(201, UserJson(u))
              && db.nextUserId == old(db.nextUserId) + 1
              && db.events == old(db.events) && db.nextEventId == old(db.nextEventId)
  {
    var hashed := bcrypt.hash(password, HashRounds);
    if fault || FindByEmail(db.users, email).Some? {
      return Response(400, ErrorJson("User already exists"));
    }
    var u := db.InsertUser(email, hashed);
    resp := Response(201, UserJson(u));
  }

  /**
   * `POST /login`: an unknown email and a wrong password get the same 401
   * "Invalid credentials"; success issues a one-hour token whose only claim is
   * `userId`.
   */
  function Login(users: seq<User>, email: string, password: string, bcrypt: Bcrypt, jwt: Jwt, secret: string, now: int, fault: bool): (r: Response)
    ensures fault ==> r == Response(500, ErrorJson("Internal server error"))
    ensures !fault ==> r.status == 200 || r == Response(401, ErrorJson("Invalid credentials"))
    ensures r.status == 200 <==>
              !fault && FindByEmail(users, email).Some? && bcrypt.compare(password, FindByEmail(users, email).value.password)
    ensures r.status == 200 ==>
              r.body == TokenJson(jwt.sign(Claims(Some(FindByEmail(users, email).value.id), None), secret, now + TokenLifetime))
  {
    if fault then Response(500, ErrorJson("Internal server error"))
    else
      match FindByEmail(users, email)
      case None => Response(401, ErrorJson("Invalid credentials"))
      case Some(user) =>
        if !bcrypt.compare(password, user.password) then Response(401, ErrorJson("Invalid credentials"))
        else Response(200, TokenJson(jwt.sign(Claims(Some(user.id), None), secret, now + TokenLifetime)))
  }

  /**
   * A token from `/login`, presented as `Bearer <token>` before it expires,
   * passes the gate with exactly the claims `{ userId }` of the user who logged
   * in; from its expiry on, the gate answers 403.
   */
  lemma LoginTokenPassesGate(users: seq<User>, email: string, password: string, bcrypt: Bcrypt, jwt: Jwt, secret: string, now: int, later: int)
    requires JwtSound(jwt)
    requires Login(users, email, password, bcrypt, jwt, secret, now, false).status == 200
    ensures var r := Login(users, email, password, bcrypt, jwt, secret, now, false);
            && r.body.TokenJson?
            && AuthenticateToken(Some("Bearer " + r.body.token), jwt, secret, later) ==
                 if later < now + TokenLifetime then Next(Claims(Some(FindByEmail(users, email).value.id), None))
                 else Reject(Forbidden)
  {
    var r := Login(users, email, password, bcrypt, jwt, secret, now, false);
    var claims := Claims(Some(FindByEmail(users, email).value.id), None);
    var token := jwt.sign(claims, secret, now + TokenLifetime);
    assert r.body == TokenJson(token);
    assert token != "" && ' ' !in token;
    BearerTokenOf(token);
    assert jwt.verify(token, secret, later) == if later < now + TokenLifetime then Some(claims) else None;
  }

  /**
   * Register then login: after a successful registration of a new email, a
   * login with the same password succeeds and its token passes the gate with
   * the new user's id as `userId`.
   */
  lemma RegisterThenLogin(users: seq<User>, id: int, email: string, password: string, bcrypt: Bcrypt, jwt: Jwt, secret: string, now: int, later: int)
    requires JwtSound(jwt) && HashAgrees(bcrypt)
    requires FindByEmail(users, email).None?
    requires later < now + TokenLifetime
    ensures var registered := users + [User(id, email, bcrypt.hash(password, HashRounds))];
            var r := Login(registered, email, password, bcrypt, jwt, secret, now, false);
            && r.status == 200 && r.body.TokenJson?
            && AuthenticateToken(Some("Bearer " + r.body.token), jwt, secret, later) == Next(Claims(Some(id), None))
  {
    var u := User(id, email, bcrypt.hash(password, HashRounds));
    var registered := users + [u];
    FindAppended(users, u);
    assert bcrypt.compare(password, u.password);
    LoginTokenPassesGate(registered, email, password, bcrypt, jwt, secret, now, later);
  }

  /**
   * `POST /events`: behind the gate, inserts one row owned by the token's
   * `userId` claim, whatever `userId` the body carries, and answers 201 with it.
   * A token without that claim, a claim naming no user (the owner relation is
   * required), or a failing insert answers 500 and inserts nothing.
   */
  method CreateEvent(db: Db, header: Option<string>, jwt: Jwt, secret: string, now: int, body: EventBody, fault: bool)
    returns (resp: Response)
    requires db.Valid()
    modifies db
    ensures db.Valid()
    ensures var g := AuthenticateToken(header, jwt, secret, now);
            if g.Reject? then resp == g.response && unchanged(db)
            else if fault || g.user.userId.None? || FindById(old(db.users), g.user.userId.value).None? then
              resp == Response(500, ErrorJson("Error creating event")) && unchanged(db)
            else
              var e := Event(old(db.nextEventId), body.fields.title, body.fields.date, body.fields.description, g.user.userId.value);
              && db.events == old(db.events) + [e]
              && resp == Response(201, EventJson(e))
              && db.nextEventId == old(db.nextEventId) + 1
              && db.users == old(db.users) && db.nextUserId == old(db.nextUserId)
  {
    var g := AuthenticateToken(header, jwt, secret, now);
    if g.Reject? {
      return g.response;
    }
    if fault || g.user.userId.None? || FindById(db.users, g.user.userId.value).None? {
      return Response(500, ErrorJson("Error creating event"));
    }
    var e := db.InsertEvent(body.fields, g.user.userId.value);
    resp := Response(201, EventJson(e));
  }

  /** `GET /events`: behind the gate, exactly the rows owned by the token's `userId` claim, in table order. */
  method ListEvents(db: Db, header: Option<string>, jwt: Jwt, secret: string, now: int, fault: bool) returns (resp: Response)
    ensures var g := AuthenticateToken(header, jwt, secret, now);
            if g.Reject? then resp == g.response
            else if fault then resp == Response(500, ErrorJson("Error fetching events"))
            else resp.status == 200 && resp.body.EventsJson?
                 && forall e :: e in resp.body.events <==> e in db.events && g.user.userId == Some(e.userId)
    ensures resp.status == 200 ==> Subsequence(resp.body.events, db.events)
    ensures resp.status == 200 ==> |resp.body.events| == Count(db.events, ByOwner(AuthenticateToken(header, jwt, secret, now).user.userId))
  {
    var g := AuthenticateToken(header, jwt, secret, now);
    if g.Reject? {
      return g.response;
    }
    if fault {
      return Response(500, ErrorJson("Error fetching events"));
    }
    resp := Response(200, EventsJson(Select(db.events, ByOwner(g.user.userId))));
  }

  /**
   * `PUT /events/:id` as written: `updateMany` filtered on the id and on the
   * claim `id`, which tokens from `/login` do not carry. Rows outside the filter
   * are untouched; a zero count answers 403.
   */
  method UpdateEvent(db: Db, header: Option<string>, jwt: Jwt, secret: string, now: int, id: int, f: Fields, fault: bool)
    returns (resp: Response)
    requires db.Valid()
    modifies db
    ensures db.Valid()
    ensures var g := AuthenticateToken(header, jwt, secret, now);
            if g.Reject? then resp == g.response && unchanged(db)
            else if fault then resp == Response(500, ErrorJson("Error updating event")) && unchanged(db)
            else
              var w := ByIdAndOwner(id, g.user.id);
              && db.events == UpdateAll(old(db.events), w, f)
              && resp == (if Count(old(db.events), w) == 0 then Response(403, ErrorJson("You can only update your own events."))
                          else Response(200, MessageJson("Event updated successfully")))
              && db.users == old(db.users) && db.nextUserId == old(db.nextUserId) && db.nextEventId == old(db.nextEventId)
    ensures |db.events| == |old(db.events)|
    ensures var g := AuthenticateToken(header, jwt, secret, now);
            g.Next? ==> forall i :: 0 <= i < |db.events| && !OwnedBy(old(db.events)[i], g.user.id) ==> db.events[i] == old(db.events)[i]
  {
    var g := AuthenticateToken(header, jwt, secret, now);
    if g.Reject? {
      return g.response;
    }
    if fault {
      return Response(500, ErrorJson("Error updating event"));
    }
    var count := db.UpdateWhere(ByIdAndOwner(id, g.user.id), f);
    if count == 0 {
      return Response(403, ErrorJson("You can only update your own events."));
    }
    resp := Response(200, MessageJson("Event updated successfully"));
  }

  /**
   * `DELETE /events/:id` as written: `deleteMany` filtered on the id and on the
   * claim `id`. Rows outside the filter remain; a zero count answers 403.
   */
  method DeleteEvent(db: Db, header: Option<string>, jwt: Jwt, secret: string, now: int, id: int, fault: bool)
    returns (resp: Response)
    requires db.Valid()
    modifies db
    ensures db.Valid()
    ensures var g := AuthenticateToken(header, jwt, secret, now);
            if g.Reject? then resp == g.response && unchanged(db)
            else if fault then resp == Response(500, ErrorJson("Error deleting event")) && unchanged(db)
            else
              var w := ByIdAndOwner(id, g.user.id);
              && db.events == DeleteAll(old(db.events), w)
              && resp == (if Count(old(db.events), w) == 0 then Response(403, ErrorJson("You can only delete your own events."))
                          else Response(200, MessageJson("Event deleted successfully")))
              && db.users == old(db.users) && db.nextUserId == old(db.nextUserId) && db.nextEventId == old(db.nextEventId)
    ensures var g := AuthenticateToken(header, jwt, secret, now);
            g.Next? ==> forall e :: e in old(db.events) && !OwnedBy(e, g.user.id) ==> e in db.events
  {
    var g := AuthenticateToken(header, jwt, secret, now);
    if g.Reject? {
      return g.response;
    }
    if fault {
      return Response(500, ErrorJson("Error deleting event"));
    }
    var count := db.DeleteWhere(ByIdAndOwner(id, g.user.id));
    if count == 0 {
      return Response(403, ErrorJson("You can only delete your own events."));
    }
    resp := Response(200, MessageJson("Event deleted successfully"));
  }

  /**
   * The defect, as written: a caller holding a live `/login` token is refused
   * the update and the delete of an event they own, because the owner filter
   * reads the claim `id` and the token carries only `userId`. The filter that
   * create and list use (`userId`) does match that event.
   */
  lemma OwnerLockedOut(users: seq<User>, email: string, password: string, bcrypt: Bcrypt, jwt: Jwt, secret: string, now: int, later: int, events: seq<Event>, e: Event)
    requires JwtSound(jwt)
    requires Login(users, email, password, bcrypt, jwt, secret, now, false).status == 200
    requires later < now + TokenLifetime
    requires e in events && e.userId == FindByEmail(users, email).value.id
    ensures var r := Login(users, email, password, bcrypt, jwt, secret, now, false);
            var g := AuthenticateToken(Some("Bearer " + r.body.token), jwt, secret, later);
            && g.Next?
            && Count(events, ByIdAndOwner(e.id, g.user.id)) == 0
            && Count(events, ByIdAndOwner(e.id, g.user.userId)) >= 1
  {
    LoginTokenPassesGate(users, email, password, bcrypt, jwt, secret, now, later);
    var k :| 0 <= k < |events| && events[k] == e;
    assert Matches(ByIdAndOwner(e.id, Some(e.userId)), events[k]);
  }

  /**
   * `PUT /events/:id` with the owner filter corrected to the claim `userId`,
   * the identity create and list use: rows of other owners are untouched, and
   * a zero count (no such event, or not the caller's) answers 403.
   */
  method UpdateOwnEvent(db: Db, header: Option<string>, jwt: Jwt, secret: string, now: int, id: int, f: Fields, fault: bool)
    returns (resp: Response)
    requires db.Valid()
    modifies db
    ensures db.Valid()
    ensures var g := AuthenticateToken(header, jwt, secret, now);
            if g.Reject? then resp == g.response && unchanged(db)
            else if fault then resp == Response(500, ErrorJson("Error updating event")) && unchanged(db)
            else
              var w := ByIdAndOwner(id, g.user.userId);
              && db.events == UpdateAll(old(db.events), w, f)
              && resp == (if Count(old(db.events), w) == 0 then Response(403, ErrorJson("You can only update your own events."))
                          else Response(200, MessageJson("Event updated successfully")))
              && db.users == old(db.users) && db.nextUserId == old(db.nextUserId) && db.nextEventId == old(db.nextEventId)
    ensures var g := AuthenticateToken(header, jwt, secret, now);
            g.Next? ==> forall other :: g.user.userId != Some(other) ==>
                          Select(db.events, ByOwner(Some(other))) == Select(old(db.events), ByOwner(Some(other)))
  {
    var g := AuthenticateToken(header, jwt, secret, now);
    if g.Reject? {
      return g.response;
    }
    if fault {
      return Response(500, ErrorJson("Error updating event"));
    }
    ghost var before := db.events;
    var count := db.UpdateWhere(ByIdAndOwner(id, g.user.userId), f);
    forall other | g.user.userId != Some(other)
      ensures Select(db.events, ByOwner(Some(other))) == Select(before, ByOwner(Some(other)))
    {
      UpdateKeepsOthersRows(before, id, g.user.userId, f, other);
    }
    if count == 0 {
      return Response(403, ErrorJson("You can only update your own events."));
    }
    resp := Response(200, MessageJson("Event updated successfully"));
  }

  /**
   * `DELETE /events/:id` with the owner filter corrected to the claim `userId`:
   * rows of other owners remain, and a zero count answers 403.
   */
  method DeleteOwnEvent(db: Db, header: Option<string>, jwt: Jwt, secret: string, now: int, id: int, fault: bool)
    returns (resp: Response)
    requires db.Valid()
    modifies db
    ensures db.Valid()
    ensures var g := AuthenticateToken(header, jwt, secret, now);
            if g.Reject? then resp == g.response && unchanged(db)
            else if fault then resp == Response(500, ErrorJson("Error deleting event")) && unchanged(db)
            else
              var w := ByIdAndOwner(id, g.user.userId);
              && db.events == DeleteAll(old(db.events), w)
              && resp == (if Count(old(db.events), w) == 0 then Response(403, ErrorJson("You can only delete your own events."))
                          else Response(200, MessageJson("Event deleted successfully")))
              && db.users == old(db.users) && db.nextUserId == old(db.nextUserId) && db.nextEventId == old(db.nextEventId)
    ensures var g := AuthenticateToken(header, jwt, secret, now);
            g.Next? ==> forall other :: g.user.userId != Some(other) ==>
                          Select(db.events, ByOwner(Some(other))) == Select(old(db.events), ByOwner(Some(other)))
  {
    var g := AuthenticateToken(header, jwt, secret, now);
    if g.Reject? {
      return g.response;
    }
    if fault {
      return Response(500, ErrorJson("Error deleting event"));
    }
    ghost var before := db.events;
    var count := db.DeleteWhere(ByIdAndOwner(id, g.user.userId));
    forall other | g.user.userId != Some(other)
      ensures Select(db.events, ByOwner(Some(other))) == Select(before, ByOwner(Some(other)))
    {
      DeleteKeepsOthersRows(before, id, g.user.userId, other);
    }
    if count == 0 {
      return Response(403, ErrorJson("You can only delete your own events."));
    }
    resp := Response(200, MessageJson("Event deleted successfully"));
  }
}
