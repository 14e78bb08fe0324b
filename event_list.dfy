/**
 * The event list component's state update after a delete request: on success
 * the list drops every event with that id, on failure it stays as it was.
 */
module EventList {
  import opened Common
  import opened Tables

  /** `events.filter(event => event.id !== id)`. */
  function WithoutId(events: seq<Event>, id: int): (r: seq<Event>)
    ensures forall e :: e in r <==> e in events && e.id != id
    ensures Subsequence(r, events)
    ensures |r| == |events| - Count(events, ById(id))
  {
    if events == [] then []
    else
      assert events == [events[0]] + events[1..];
      var rest := WithoutId(events[1..], id);
      if events[0].id == id then rest
      else
        assert ([events[0]] + rest)[1..] == rest;
        [events[0]] + rest
  }

  /** The client's filter removes exactly what a DELETE by id removes from the same rows. */
  lemma {:induction false} WithoutIdIsDelete(events: seq<Event>, id: int)
    ensures WithoutId(events, id) == DeleteAll(events, ById(id))
  {
    if events != [] {
      WithoutIdIsDelete(events[1..], id);
    }
  }

  /**
   * `handleDelete`: after a successful request no event with that id is left
   * and every other event is kept, in order; after a failed request
   * `setEvents` is not called and the list is unchanged.
   */
  function HandleDelete(events: seq<Event>, id: int, requestOk: bool): (r: seq<Event>)
    ensures requestOk ==> (forall e :: e in r ==> e.id != id) && (forall e :: e in events && e.id != id ==> e in r)
    ensures requestOk ==> Subsequence(r, events) && |r| == |events| - Count(events, ById(id))
    ensures !requestOk ==> r == events
  {
    if requestOk then WithoutId(events, id) else events
  }

  /**
   * The client list keeps mirroring the server: when it holds an owner's
   * listing, filtering out the deleted id gives that owner's listing after the
   * server's owner-scoped delete.
   */
  lemma {:induction false} DeleteMirrorsServer(rows: seq<Event>, owner: int, id: int)
    ensures WithoutId(Select(rows, ByOwner(Some(owner))), id)
         == Select(DeleteAll(rows, ByIdAndOwner(id, Some(owner))), ByOwner(Some(owner)))
  {
    if rows != [] {
      var w := ByIdAndOwner(id, Some(owner));
      var v := ByOwner(Some(owner));
      DeleteMirrorsServer(rows[1..], owner, id);
      var tail := Select(rows[1..], v);
      var kept := DeleteAll(rows[1..], w);
      if Matches(v, rows[0]) {
        assert Select(rows, v) == [rows[0]] + tail;
        assert ([rows[0]] + tail)[1..] == tail;
        if !Matches(w, rows[0]) {
          assert DeleteAll(rows, w) == [rows[0]] + kept;
          assert ([rows[0]] + kept)[1..] == kept;
        }
      } else {
        if !Matches(w, rows[0]) {
          assert DeleteAll(rows, w) == [rows[0]] + kept;
          assert ([rows[0]] + kept)[1..] == kept;
        }
      }
    }
  }
}
