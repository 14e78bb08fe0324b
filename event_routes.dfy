/**
 * The earlier, unscoped event router: no token is checked, the owner of a new
 * event comes from the request body, and update and delete go by id alone.
 * Every failing operation answers 400. A failing statement is the parameter `fault`.
 */
module EventRoutes {
  import opened Common
  import opened Tables

  /**
   * `POST /events`: the owner is the body's `userId`, connected to an existing
   * user, and no verified identity is consulted. An absent `userId`, one that
   * names no user, or a failing create answers 400 and inserts nothing.
   */
  method CreateEvent(db: Db, body: EventBody, fault: bool) returns (resp: Response)
    requires db.Valid()
    modifies db
    ensures db.Valid()
    ensures if fault || body.userId.None? || FindById(old(db.users), body.userId.value).None? then
              resp == Response(400, ErrorJson("Error creating event")) && unchanged(db)
            else
              var e := Event(old(db.nextEventId), body.fields.title, body.fields.date, body.fields.description, body.userId.value);
              && db.events == old(db.events) + [e]
              && resp == Response(201, EventJson(e))
              && db.nextEventId == old(db.nextEventId) + 1
              && db.users == old(db.users) && db.nextUserId == old(db.nextUserId)
  {
    if fault || body.userId.None? || FindById(db.users, body.userId.value).None? {
      return Response(400, ErrorJson("Error creating event"));
    }
    var e := db.InsertEvent(body.fields, body.userId.value);
    resp := Response(201, EventJson(e));
  }

  /** `GET /events?userId=`: exactly the rows owned by the queried user, in table order. */
  method ListEvents(db: Db, userId: int, fault: bool) returns (resp: Response)
    ensures fault ==> resp == Response(400, ErrorJson("Error fetching events"))
    ensures !fault ==> && resp.status == 200 && resp.body.EventsJson?
                       && (forall e :: e in resp.body.events <==> e in db.events && e.userId == userId)
                       && Subsequence(resp.body.events, db.events)
                       && |resp.body.events| == Count(db.events, ByOwner(Some(userId)))
  {
    if fault {
      return Response(400, ErrorJson("Error fetching events"));
    }
    resp := Response(200, EventsJson(Select(db.events, ByOwner(Some(userId)))));
  }

  /**
   * `PUT /events/:id`: updates the row with that id whoever owns it and answers
   * 200 with the updated row; no such row (Prisma's `update` throws) or a
   * failing statement answers 400 and changes nothing.
   */
  method UpdateEvent(db: Db, id: int, f: Fields, fault: bool) returns (resp: Response)
    requires db.Valid()
    modifies db
    ensures db.Valid()
    ensures if fault || FindEvent(old(db.events), id).None? then
              resp == Response(400, ErrorJson("Error updating event")) && unchanged(db)
            else
              && db.events == UpdateAll(old(db.events), ById(id), f)
              && resp == Response(200, EventJson(Apply(FindEvent(old(db.events), id).value, f)))
              && db.users == old(db.users) && db.nextUserId == old(db.nextUserId) && db.nextEventId == old(db.nextEventId)
    ensures resp.status == 200 ==> resp.body.event in db.events && resp.body.event.id == id
  {
    var found := FindEvent(db.events, id);
    if fault || found.None? {
      return Response(400, ErrorJson("Error updating event"));
    }
    ghost var k :| 0 <= k < |db.events| && db.events[k] == found.value;
    var _ := db.UpdateWhere(ById(id), f);
    assert db.events[k] == Apply(found.value, f);
    resp := Response(200, EventJson(Apply(found.value, f)));
  }

  /**
   * `DELETE /events/:id`: removes the row with that id whoever owns it; no such
   * row (Prisma's `delete` throws) or a failing statement answers 400 and
   * removes nothing.
   */
  method DeleteEvent(db: Db, id: int, fault: bool) returns (resp: Response)
    requires db.Valid()
    modifies db
    ensures db.Valid()
    ensures if fault || FindEvent(old(db.events), id).None? then
              resp == Response(400, ErrorJson("Error deleting event")) && unchanged(db)
            else
              && db.events == DeleteAll(old(db.events), ById(id))
              && |db.events| == |old(db.events)| - 1
              && resp == Response(200, MessageJson("Event deleted"))
              && db.users == old(db.users) && db.nextUserId == old(db.nextUserId) && db.nextEventId == old(db.nextEventId)
  {
    var found := FindEvent(db.events, id);
    if fault || found.None? {
      return Response(400, ErrorJson("Error deleting event"));
    }
    AtMostOneById(db.events, id, None);
    var _ := db.DeleteWhere(ById(id));
    resp := Response(200, MessageJson("Event deleted"));
  }
}
