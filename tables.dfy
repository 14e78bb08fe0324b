/**
 * The two relational tables (`users`, `events`) and the meaning of the where
 * clauses the handlers issue against them. Both back ends (the Prisma one and
 * the mysql one) are modelled over the same tables: rows kept in insertion
 * order, ids assigned by auto-increment.
 */
module Tables {
  import opened Common

  /** The where clauses issued against `events`. */
  datatype Where =
    | ById(id: int)
    | ByOwner(owner: Option<int>)
    | ByIdAndOwner(id: int, owner: Option<int>)

  /**
   * The owner filter `userId = ?`: an absent owner (an `undefined` claim, a NULL
   * parameter) equals no row's owner.
   */
  predicate OwnedBy(e: Event, owner: Option<int>): (b: bool)
    ensures owner.None? ==> !b
    ensures owner.Some? ==> (b <==> e.userId == owner.value)
  {
    owner == Some(e.userId)
  }

  /** Whether a row satisfies the where clause: every condition of the clause must hold. */
  predicate Matches(w: Where, e: Event): (b: bool)
    ensures w.ById? ==> (b <==> e.id == w.id)
    ensures w.ByOwner? ==> (b <==> w.owner.Some? && e.userId == w.owner.value)
    ensures w.ByIdAndOwner? ==> (b <==> e.id == w.id && w.owner.Some? && e.userId == w.owner.value)
  {
    match w
    case ById(id) => e.id == id
    case ByOwner(owner) => OwnedBy(e, owner)
    case ByIdAndOwner(id, owner) => e.id == id && OwnedBy(e, owner)
  }

  /** `a` is `b` with some elements left out and the rest in their original order. */
  predicate Subsequence<T(==)>(a: seq<T>, b: seq<T>)
    decreases |b|
  {
    if a == [] then true
    else if b == [] then false
    else if a[0] == b[0] then Subsequence(a[1..], b[1..])
    else Subsequence(a, b[1..])
  }

  /** The number of rows a where clause matches (the `count` of updateMany/deleteMany). */
  function Count(rows: seq<Event>, w: Where): (n: nat)
    ensures n <= |rows|
    ensures n == 0 <==> forall i :: 0 <= i < |rows| ==> !Matches(w, rows[i])
  {
    if rows == [] then 0
    else (if Matches(w, rows[0]) then 1 else 0) + Count(rows[1..], w)
  }

  /** SELECT * FROM events WHERE w, in table order. */
  function Select(rows: seq<Event>, w: Where): (r: seq<Event>)
    ensures forall e :: e in r <==> e in rows && Matches(w, e)
    ensures Subsequence(r, rows)
    ensures |r| == Count(rows, w)
  {
    if rows == [] then []
    else
      assert rows == [rows[0]] + rows[1..];
      var rest := Select(rows[1..], w);
      if Matches(w, rows[0]) then
        assert ([rows[0]] + rest)[1..] == rest;
        [rows[0]] + rest
      else rest
  }

  /** DELETE FROM events WHERE w: the rows the clause does not match, in order. */
  function DeleteAll(rows: seq<Event>, w: Where): (r: seq<Event>)
    ensures forall e :: e in r <==> e in rows && !Matches(w, e)
    ensures Subsequence(r, rows)
    ensures |r| == |rows| - Count(rows, w)
  {
    if rows == [] then []
    else
      assert rows == [rows[0]] + rows[1..];
      var rest := DeleteAll(rows[1..], w);
      if Matches(w, rows[0]) then rest
      else
        assert ([rows[0]] + rest)[1..] == rest;
        [rows[0]] + rest
  }

  /** SET title = ?, date = ?, description = ? on one row; id and owner stay. */
  function Apply(e: Event, f: Fields): (r: Event)
    ensures r.id == e.id && r.userId == e.userId
    ensures r.title == f.title && r.date == f.date && r.description == f.description
  {
    e.(title := f.title, date := f.date, description := f.description)
  }

  /** UPDATE events SET ... WHERE w: every matched row gets the fields, no other row changes. */
  function UpdateAll(rows: seq<Event>, w: Where, f: Fields): (r: seq<Event>)
    ensures |r| == |rows|
    ensures forall i :: 0 <= i < |rows| ==> r[i] == if Matches(w, rows[i]) then Apply(rows[i], f) else rows[i]
  {
    if rows == [] then []
    else [if Matches(w, rows[0]) then Apply(rows[0], f) else rows[0]] + UpdateAll(rows[1..], w, f)
  }

  /** `findUnique({ where: { id } })` on events: the first row with that id. */
  function FindEvent(rows: seq<Event>, id: int): (r: Option<Event>)
    ensures r.None? <==> forall i :: 0 <= i < |rows| ==> rows[i].id != id
    ensures r.Some? ==> r.value in rows && r.value.id == id
  {
    if rows == [] then None
    else if rows[0].id == id then Some(rows[0])
    else FindEvent(rows[1..], id)
  }

  ghost predicate EventIdsDistinct(rows: seq<Event>)
  {
    forall i, j :: 0 <= i < j < |rows| ==> rows[i].id != rows[j].id
  }

  ghost predicate UserIdsDistinct(users: seq<User>)
  {
    forall i, j :: 0 <= i < j < |users| ==> users[i].id != users[j].id
  }

  /** The invariant of a table whose `email` column is unique (the Prisma `User` model). */
  ghost predicate EmailsUnique(users: seq<User>)
  {
    forall i, j :: 0 <= i < j < |users| ==> users[i].email != users[j].email
  }

  /** With distinct ids, a where clause on the id matches at most one row. */
  lemma {:induction false} AtMostOneById(rows: seq<Event>, id: int, owner: Option<int>)
    requires EventIdsDistinct(rows)
    ensures Count(rows, ById(id)) <= 1
    ensures Count(rows, ByIdAndOwner(id, owner)) <= Count(rows, ById(id))
  {
    if rows != [] {
      var tail := rows[1..];
      assert EventIdsDistinct(tail) by {
        forall i, j | 0 <= i < j < |tail| ensures tail[i].id != tail[j].id {
          assert tail[i] == rows[i + 1] && tail[j] == rows[j + 1];
        }
      }
      AtMostOneById(tail, id, owner);
      if rows[0].id == id {
        forall i | 0 <= i < |tail| ensures !Matches(ById(id), tail[i]) {
          assert tail[i] == rows[i + 1];
        }
      }
    }
  }

  /** Deleting rows keeps the ids of the remaining rows distinct. */
  lemma {:induction false} DeleteKeepsIdsDistinct(rows: seq<Event>, w: Where)
    requires EventIdsDistinct(rows)
    ensures EventIdsDistinct(DeleteAll(rows, w))
  {
    if rows != [] {
      var tail := rows[1..];
      assert EventIdsDistinct(tail) by {
        forall i, j | 0 <= i < j < |tail| ensures tail[i].id != tail[j].id {
          assert tail[i] == rows[i + 1] && tail[j] == rows[j + 1];
        }
      }
      DeleteKeepsIdsDistinct(tail, w);
      var rest := DeleteAll(tail, w);
      if !Matches(w, rows[0]) {
        var r := [rows[0]] + rest;
        assert DeleteAll(rows, w) == r;
        forall i, j | 0 <= i < j < |r| ensures r[i].id != r[j].id {
          if i == 0 {
            assert r[j] in tail;
            var k :| 0 <= k < |tail| && tail[k] == r[j];
            assert rows[k + 1] == r[j];
          } else {
            assert r[i] == rest[i - 1] && r[j] == rest[j - 1];
          }
        }
      }
    }
  }

  /** A row appended to the table shows up last in every selection it matches. */
  lemma {:induction false} SelectAppend(rows: seq<Event>, e: Event, w: Where)
    ensures Select(rows + [e], w) == Select(rows, w) + (if Matches(w, e) then [e] else [])
  {
    if rows == [] {
      assert [e][1..] == [];
    } else {
      assert (rows + [e])[0] == rows[0];
      assert (rows + [e])[1..] == rows[1..] + [e];
      SelectAppend(rows[1..], e, w);
    }
  }

  /**
   * Create then list: an event created for an owner appears verbatim, last, in
   * that owner's listing, after the events listed before.
   */
  lemma CreateThenList(rows: seq<Event>, e: Event)
    ensures Select(rows + [e], ByOwner(Some(e.userId))) == Select(rows, ByOwner(Some(e.userId))) + [e]
  {
    SelectAppend(rows, e, ByOwner(Some(e.userId)));
  }

  /**
   * The ownership invariant for updates: an update filtered on `caller` leaves
   * the listing of every other owner exactly as it was.
   */
  lemma {:induction false} UpdateKeepsOthersRows(rows: seq<Event>, id: int, caller: Option<int>, f: Fields, other: int)
    requires caller != Some(other)
    ensures Select(UpdateAll(rows, ByIdAndOwner(id, caller), f), ByOwner(Some(other))) == Select(rows, ByOwner(Some(other)))
  {
    if rows != [] {
      var w := ByIdAndOwner(id, caller);
      var r := UpdateAll(rows, w, f);
      assert r == [r[0]] + UpdateAll(rows[1..], w, f);
      assert Matches(ByOwner(Some(other)), r[0]) <==> Matches(ByOwner(Some(other)), rows[0]);
      assert Matches(ByOwner(Some(other)), rows[0]) ==> r[0] == rows[0];
      UpdateKeepsOthersRows(rows[1..], id, caller, f, other);
    }
  }

  /**
   * The ownership invariant for deletes: a delete filtered on `caller` leaves
   * the listing of every other owner exactly as it was.
   */
  lemma {:induction false} DeleteKeepsOthersRows(rows: seq<Event>, id: int, caller: Option<int>, other: int)
    requires caller != Some(other)
    ensures Select(DeleteAll(rows, ByIdAndOwner(id, caller)), ByOwner(Some(other))) == Select(rows, ByOwner(Some(other)))
  {
    if rows != [] {
      var w := ByIdAndOwner(id, caller);
      DeleteKeepsOthersRows(rows[1..], id, caller, other);
      if !Matches(w, rows[0]) {
        var rest := DeleteAll(rows[1..], w);
        assert DeleteAll(rows, w) == [rows[0]] + rest;
        assert ([rows[0]] + rest)[1..] == rest;
      }
    }
  }

  /** A request to change an event, as an owner-filtered handler issues it. */
  datatype Change = Update(id: int, fields: Fields) | Delete(id: int)

  /** The events table after a caller's changes, each filtered on `id AND userId = caller`. */
  function Run(rows: seq<Event>, caller: Option<int>, changes: seq<Change>): seq<Event>
    decreases |changes|
  {
    if changes == [] then rows
    else
      var next := match changes[0]
        case Update(id, f) => UpdateAll(rows, ByIdAndOwner(id, caller), f)
        case Delete(id) => DeleteAll(rows, ByIdAndOwner(id, caller));
      Run(next, caller, changes[1..])
  }

  /**
   * No sequence of updates and deletes issued by one user changes any other
   * user's events: the other user lists exactly what they listed before.
   */
  lemma {:induction false} OthersRowsInvariant(rows: seq<Event>, caller: Option<int>, changes: seq<Change>, other: int)
    requires caller != Some(other)
    ensures Select(Run(rows, caller, changes), ByOwner(Some(other))) == Select(rows, ByOwner(Some(other)))
    decreases |changes|
  {
    if changes != [] {
      match changes[0]
      case Update(id, f) =>
        UpdateKeepsOthersRows(rows, id, caller, f, other);
        OthersRowsInvariant(UpdateAll(rows, ByIdAndOwner(id, caller), f), caller, changes[1..], other);
      case Delete(id) =>
        DeleteKeepsOthersRows(rows, id, caller, other);
        OthersRowsInvariant(DeleteAll(rows, ByIdAndOwner(id, caller)), caller, changes[1..], other);
    }
  }

  /** The position of the first user with that email; `|users|` when there is none. */
  function EmailIndex(users: seq<User>, email: string): (k: nat)
    ensures k <= |users|
    ensures forall j :: 0 <= j < k ==> users[j].email != email
    ensures k < |users| ==> users[k].email == email
  {
    if users == [] || users[0].email == email then 0
    else 1 + EmailIndex(users[1..], email)
  }

  /** `findUnique({ where: { email } })` over a table in insertion order: the first user with that email. */
  function FindByEmail(users: seq<User>, email: string): (r: Option<User>)
    ensures r.None? <==> forall i :: 0 <= i < |users| ==> users[i].email != email
    ensures r.Some? ==> r.value in users && r.value.email == email
  {
    var k := EmailIndex(users, email);
    if k < |users| then Some(users[k]) else None
  }

  /** The number of users with that email. */
  function EmailCount(users: seq<User>, email: string): (n: nat)
    ensures n <= |users|
    ensures n == 0 <==> forall i :: 0 <= i < |users| ==> users[i].email != email
  {
    if users == [] then 0
    else (if users[0].email == email then 1 else 0) + EmailCount(users[1..], email)
  }

  /** SELECT * FROM users WHERE email = ?, in table order. */
  function UsersWithEmail(users: seq<User>, email: string): (r: seq<User>)
    ensures forall u :: u in r <==> u in users && u.email == email
    ensures Subsequence(r, users)
    ensures |r| == EmailCount(users, email)
  {
    if users == [] then []
    else
      assert users == [users[0]] + users[1..];
      var rest := UsersWithEmail(users[1..], email);
      if users[0].email == email then
        assert ([users[0]] + rest)[1..] == rest;
        [users[0]] + rest
      else rest
  }

  /** The first row of the email query is the user `FindByEmail` finds, and there is one iff that finds one. */
  lemma {:induction false} FirstWithEmail(users: seq<User>, email: string)
    ensures UsersWithEmail(users, email) == [] <==> FindByEmail(users, email).None?
    ensures UsersWithEmail(users, email) != [] ==> UsersWithEmail(users, email)[0] == FindByEmail(users, email).value
  {
    if users != [] && users[0].email != email {
      FirstWithEmail(users[1..], email);
    }
  }

  /** A user appended under an email not yet in the table is what a lookup of that email finds. */
  lemma {:induction false} FindAppended(users: seq<User>, u: User)
    requires FindByEmail(users, u.email).None?
    ensures FindByEmail(users + [u], u.email) == Some(u)
  {
    if users == [] {
      assert [u][0] == u;
    } else {
      assert (users + [u])[0] == users[0];
      assert (users + [u])[1..] == users[1..] + [u];
      assert users[0].email != u.email;
      FindAppended(users[1..], u);
    }
  }

  /** `findUnique({ where: { id } })`: the first user with that id. */
  function FindById(users: seq<User>, id: int): (r: Option<User>)
    ensures r.None? <==> forall i :: 0 <= i < |users| ==> users[i].id != id
    ensures r.Some? ==> r.value in users && r.value.id == id
  {
    if users == [] then None
    else if users[0].id == id then Some(users[0])
    else FindById(users[1..], id)
  }

  /** With distinct ids, the lookup by a member's id finds that member. */
  lemma FindByIdOfMember(users: seq<User>, u: User)
    requires UserIdsDistinct(users) && u in users
    ensures FindById(users, u.id) == Some(u)
  {
    var i :| 0 <= i < |users| && users[i] == u;
    var r := FindById(users, u.id).value;
    var j :| 0 <= j < |users| && users[j] == r;
    assert users[i].id == users[j].id;
  }

  /**
   * The database: both tables and their auto-increment counters. Every id in a
   * table is below its counter, so ids are never reused.
   */
  class Db {
    var users: seq<User>
    var events: seq<Event>
    var nextUserId: int
    var nextEventId: int

    ghost predicate Valid()
      reads this
    {
      && 1 <= nextUserId && 1 <= nextEventId
      && (forall i :: 0 <= i < |users| ==> 1 <= users[i].id < nextUserId)
      && (forall i :: 0 <= i < |events| ==> 1 <= events[i].id < nextEventId)
      && UserIdsDistinct(users)
      && EventIdsDistinct(events)
    }

    /** Empty tables; auto-increment starts at 1. */
    constructor ()
      ensures Valid()
      ensures users == [] && events == [] && nextUserId == 1 && nextEventId == 1
    {
      users, events := [], [];
      nextUserId, nextEventId := 1, 1;
    }

    /** INSERT INTO users: the new row gets the next id and goes last. */
    method InsertUser(email: string, password: string) returns (u: User)
      requires Valid()
      modifies this
      ensures Valid()
      ensures u == User(old(nextUserId), email, password)
      ensures users == old(users) + [u] && nextUserId == old(nextUserId) + 1
      ensures events == old(events) && nextEventId == old(nextEventId)
    {
      u := User(nextUserId, email, password);
      users := users + [u];
      nextUserId := nextUserId + 1;
    }

    /** INSERT INTO events: the new row gets the next id and goes last. */
    method InsertEvent(f: Fields, owner: int) returns (e: Event)
      requires Valid()
      modifies this
      ensures Valid()
      ensures e == Event(old(nextEventId), f.title, f.date, f.description, owner)
      ensures events == old(events) + [e] && nextEventId == old(nextEventId) + 1
      ensures users == old(users) && nextUserId == old(nextUserId)
    {
      e := Event(nextEventId, f.title, f.date, f.description, owner);
      events := events + [e];
      nextEventId := nextEventId + 1;
    }

    /** UPDATE events SET title, date, description WHERE w; answers the affected-row count. */
    method UpdateWhere(w: Where, f: Fields) returns (count: nat)
      requires Valid()
      modifies this
      ensures Valid()
      ensures count == Count(old(events), w)
      ensures events == UpdateAll(old(events), w, f)
      ensures users == old(users) && nextUserId == old(nextUserId) && nextEventId == old(nextEventId)
    {
      count := Count(events, w);
      events := UpdateAll(events, w, f);
    }

    /** DELETE FROM events WHERE w; answers the affected-row count. */
    method DeleteWhere(w: Where) returns (count: nat)
      requires Valid()
      modifies this
      ensures Valid()
      ensures count == Count(old(events), w)
      ensures events == DeleteAll(old(events), w)
      ensures users == old(users) && nextUserId == old(nextUserId) && nextEventId == old(nextEventId)
    {
      count := Count(events, w);
      DeleteKeepsIdsDistinct(events, w);
      var kept := DeleteAll(events, w);
      assert forall i :: 0 <= i < |kept| ==> kept[i] in events;
      events := kept;
    }
  }
}
