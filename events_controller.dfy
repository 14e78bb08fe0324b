/**
 * The mysql-backed event controller: each handler issues one SQL statement
 * against `events`, scoped by `req.userId` (the claim `id` the middleware
 * attaches, absent if the token has none). There is no affected-row check: an
 * update or delete that matches nothing still reports success. A failing
 * statement is the parameter `fault`.
 */
module EventsController {
  import opened Common
  import opened Tables

  /**
   * `createEvent`: INSERT one row owned by `req.userId`; no other row changes.
   * A failing insert, and an absent `req.userId` (the owner column is taken to
   * be NOT NULL), answer 500 and insert nothing.
   */
  method CreateEvent(db: Db, userId: Option<int>, f: Fields, fault: bool) returns (resp: Response)
    requires db.Valid()
    modifies db
    ensures db.Valid()
    ensures if fault || userId.None? then resp == Response(500, Plain("Error creating event.")) && unchanged(db)
            else
              && db.events == old(db.events) + [Event(old(db.nextEventId), f.title, f.date, f.description, userId.value)]
              && resp == Response(200, Plain("Event created successfully."))
              && db.nextEventId == old(db.nextEventId) + 1
              && db.users == old(db.users) && db.nextUserId == old(db.nextUserId)
  {
    if fault || userId.None? {
      return Response(500, Plain("Error creating event."));
    }
    var _ := db.InsertEvent(f, userId.value);
    resp := Response(200, Plain("Event created successfully."));
  }

  /**
   * `getEvents`: exactly the rows with `userId = req.userId`, none of another
   * owner's, in table order; a failing query answers 500 with no rows at all.
   */
  method GetEvents(db: Db, userId: Option<int>, fault: bool) returns (resp: Response)
    ensures fault ==> resp == Response(500, Plain("Error fetching events."))
    ensures !fault ==> && resp.status == 200 && resp.body.EventsJson?
                       && (forall e :: e in resp.body.events <==> e in db.events && userId == Some(e.userId))
                       && Subsequence(resp.body.events, db.events)
                       && |resp.body.events| == Count(db.events, ByOwner(userId))
  {
    if fault {
      return Response(500, Plain("Error fetching events."));
    }
    resp := Response(200, EventsJson(Select(db.events, ByOwner(userId))));
  }

  /**
   * `updateEvent`: sets title, date and description on the row with that id
   * AND `userId = req.userId`; a row of another owner is left as it was. The
   * answer is success whether or not a row matched.
   */
  method UpdateEvent(db: Db, userId: Option<int>, id: int, f: Fields, fault: bool) returns (resp: Response)
    requires db.Valid()
    modifies db
    ensures db.Valid()
    ensures fault ==> resp == Response(500, Plain("Error updating event.")) && unchanged(db)
    ensures !fault ==> && db.events == UpdateAll(old(db.events), ByIdAndOwner(id, userId), f)
                       && resp == Response(200, Plain("Event updated successfully."))
                       && db.users == old(db.users) && db.nextUserId == old(db.nextUserId) && db.nextEventId == old(db.nextEventId)
    ensures |db.events| == |old(db.events)|
    ensures forall i :: 0 <= i < |db.events| && !OwnedBy(old(db.events)[i], userId) ==> db.events[i] == old(db.events)[i]
  {
    if fault {
      return Response(500, Plain("Error updating event."));
    }
    var _ := db.UpdateWhere(ByIdAndOwner(id, userId), f);
    resp := Response(200, Plain("Event updated successfully."));
  }

  /**
   * `deleteEvent`: removes the row with that id AND `userId = req.userId`; the
   * table is otherwise unchanged, and the answer is success whether or not a
   * row matched.
   */
  method DeleteEvent(db: Db, userId: Option<int>, id: int, fault: bool) returns (resp: Response)
    requires db.Valid()
    modifies db
    ensures db.Valid()
    ensures fault ==> resp == Response(500, Plain("Error deleting event.")) && unchanged(db)
    ensures !fault ==> && db.events == DeleteAll(old(db.events), ByIdAndOwner(id, userId))
                       && resp == Response(200, Plain("Event deleted successfully."))
                       && db.users == old(db.users) && db.nextUserId == old(db.nextUserId) && db.nextEventId == old(db.nextEventId)
    ensures forall e :: e in old(db.events) && !(e.id == id && OwnedBy(e, userId)) ==> e in db.events
    ensures |db.events| >= |old(db.events)| - 1
  {
    if fault {
      return Response(500, Plain("Error deleting event."));
    }
    AtMostOneById(db.events, id, userId);
    var _ := db.DeleteWhere(ByIdAndOwner(id, userId));
    resp := Response(200, Plain("Event deleted successfully."));
  }
}
