/**
 * The mysql-backed auth controller: `register` inserts a user with a hashed
 * password, `login` looks the email up and issues a token with the claim `id`.
 * The secret (`JWT_SECRET`) and the clock are parameters; a failing query is
 * the parameter `fault`.
 */
module AuthController {
  import opened Common
  import opened Tables

  /** `bcrypt.hashSync(password, 8)`. */
  const HashRounds := 8
  /** `expiresIn: 86400`, in seconds. */
  const TokenLifetime := 86400

  /**
   * `register`: INSERT INTO users the email and the digest of the password,
   * never the password itself. A failing insert answers 500 and inserts nothing.
   */
  method Register(db: Db, email: string, password: string, bcrypt: Bcrypt, fault: bool) returns (resp: Response)
    requires db.Valid()
    modifies db
    ensures db.Valid()
    ensures if fault then resp == Response(500, Plain("Error registering user.")) && unchanged(db)
            else
              && db.users == old(db.users) + [User(old(db.nextUserId), email, bcrypt.hash(password, HashRounds))]
              && resp == Response(200, Plain("User registered successfully."))
              && db.nextUserId == old(db.nextUserId) + 1
              && db.events == old(db.events) && db.nextEventId == old(db.nextEventId)
  {
    var hashed := bcrypt.hash(password, HashRounds);
    if fault {
      return Response(500, Plain("Error registering user."));
    }
    var _ := db.InsertUser(email, hashed);
    resp := Response(200, Plain("User registered successfully."));
  }

  /**
   * `login`: a failing query or no row with the email answers 404; a row whose
   * digest does not match answers 401, a different outcome; otherwise a token
   * whose only claim is `id` of the FIRST matching row, valid for a day.
   */
  function Login(users: seq<User>, email: string, password: string, bcrypt: Bcrypt, jwt: Jwt, secret: string, now: int, fault: bool): (r: Response)
    ensures r.status == 404 <==> fault || FindByEmail(users, email).None?
    ensures r.status == 404 ==> r.body == Plain("User not found.")
    ensures r.status == 401 <==> !fault && FindByEmail(users, email).Some? && !bcrypt.compare(password, FindByEmail(users, email).value.password)
    ensures r.status == 401 ==> r.body == Plain("Invalid password.")
    ensures r.status in {200, 401, 404}
    ensures r.status == 200 ==>
              r.body == TokenJson(jwt.sign(Claims(None, Some(FindByEmail(users, email).value.id)), secret, now + TokenLifetime))
  {
    var results := UsersWithEmail(users, email);
    FirstWithEmail(users, email);
    if fault || |results| == 0 then Response(404, Plain("User not found."))
    else
      var user := results[0];
      if !bcrypt.compare(password, user.password) then Response(401, Plain("Invalid password."))
      else Response(200, TokenJson(jwt.sign(Claims(None, Some(user.id)), secret, now + TokenLifetime)))
  }
}
