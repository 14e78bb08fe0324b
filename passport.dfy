/**
 * The Google strategy's verify callback (find-or-create by email) and the
 * session's `serializeUser` / `deserializeUser`. The OAuth exchange itself is
 * not modelled: the callback starts from the profile's email. A failing lookup
 * or create is a parameter.
 */
module Passport {
  import opened Common
  import opened Tables

  /** The arguments given to `done(error, user)`; `user` is `null` when absent. */
  datatype Done = Done(error: bool, user: Option<User>)

  /**
   * Find-or-create on the users table: the existing user with that email,
   * adopted as it is (whatever password it has), or a new user with that email
   * and an empty password under the next id. Answers the user and the table after.
   */
  function FindOrCreate(users: seq<User>, nextId: int, email: string): (r: (User, seq<User>))
    ensures r.0.email == email
    ensures FindByEmail(users, email).Some? ==> r == (FindByEmail(users, email).value, users)
    ensures FindByEmail(users, email).None? ==> r.0 == User(nextId, email, "") && r.1 == users + [r.0]
  {
    match FindByEmail(users, email)
    case Some(existing) => (existing, users)
    case None => var u := User(nextId, email, ""); (u, users + [u])
  }

  /**
   * Idempotence: a second sign-in with the same email returns the same user
   * and leaves the table as the first left it, which has at most one more row
   * than before.
   */
  lemma SignInIdempotent(users: seq<User>, nextId: int, laterId: int, email: string)
    ensures var (u1, after1) := FindOrCreate(users, nextId, email);
            var (u2, after2) := FindOrCreate(after1, laterId, email);
            && u2 == u1 && after2 == after1
            && |users| <= |after1| <= |users| + 1
            && FindByEmail(after1, email) == Some(u1)
  {
    if FindByEmail(users, email).None? {
      FindAppended(users, User(nextId, email, ""));
    }
  }

  /**
   * The verify callback: a failing lookup or create goes to `done(error, null)`
   * with the table unchanged; otherwise `done(null, user)` with the outcome of
   * `FindOrCreate`. A unique `email` column stays unique.
   */
  method VerifyCallback(db: Db, email: string, lookupFault: bool, createFault: bool) returns (done: Done)
    requires db.Valid()
    modifies db
    ensures db.Valid()
    ensures EmailsUnique(old(db.users)) ==> EmailsUnique(db.users)
    ensures if lookupFault || (FindByEmail(old(db.users), email).None? && createFault) then
              done == Done(true, None) && unchanged(db)
            else
              var (u, after) := FindOrCreate(old(db.users), old(db.nextUserId), email);
              && done == Done(false, Some(u))
              && db.users == after
              && db.nextUserId == old(db.nextUserId) + |after| - |old(db.users)|
              && db.events == old(db.events) && db.nextEventId == old(db.nextEventId)
  {
    if lookupFault {
      return Done(true, None);
    }
    var existing := FindByEmail(db.users, email);
    if existing.Some? {
      return Done(false, existing);
    }
    if createFault {
      return Done(true, None);
    }
    var u := db.InsertUser(email, "");
    done := Done(false, Some(u));
  }

  /**
   * `serializeUser`: the session keeps the user's id, a key from which the
   * lookup by id recovers the user in any table with distinct ids holding it.
   */
  function SerializeUser(u: User): (key: int)
    ensures forall users :: UserIdsDistinct(users) && u in users ==> FindById(users, key) == Some(u)
  {
    FindByIdOfAll(u);
    u.id
  }

  lemma FindByIdOfAll(u: User)
    ensures forall users :: UserIdsDistinct(users) && u in users ==> FindById(users, u.id) == Some(u)
  {
    forall users | UserIdsDistinct(users) && u in users
      ensures FindById(users, u.id) == Some(u)
    {
      FindByIdOfMember(users, u);
    }
  }

  /** `deserializeUser`: the user with that id, `null` if there is none; a failing lookup is an error. */
  function DeserializeUser(users: seq<User>, id: int, fault: bool): (d: Done)
    ensures d.error <==> fault
    ensures fault ==> d.user.None?
    ensures !fault && d.user.Some? ==> d.user.value in users && d.user.value.id == id
    ensures !fault && d.user.None? ==> forall i :: 0 <= i < |users| ==> users[i].id != id
  {
    if fault then Done(true, None) else Done(false, FindById(users, id))
  }

  /** Deserializing what was serialized gives back the same user. */
  lemma DeserializeSerialized(users: seq<User>, u: User)
    requires UserIdsDistinct(users)
    requires u in users
    ensures DeserializeUser(users, SerializeUser(u), false) == Done(false, Some(u))
  {
  }
}
