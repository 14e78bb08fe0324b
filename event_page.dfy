/**
 * The event page's list state: empty at first, replaced by the server's answer
 * when the fetch succeeds, and extended by `handleEventAdded` when an event is
 * created.
 */
module EventPage {
  import opened Common
  import opened Tables

  /** `useState([])`: the list before the first fetch. */
  function InitialEvents(): (r: seq<Event>)
    ensures |r| == 0
  {
    []
  }

  /** `setEvents(response.data)` when the fetch succeeds; nothing when it fails. */
  function AfterFetch(events: seq<Event>, response: Option<seq<Event>>): (r: seq<Event>)
    ensures response.Some? ==> r == response.value
    ensures response.None? ==> r == events
  {
    match response
    case Some(data) => data
    case None => events
  }

  /** `[...prevEvents, newEvent]`: the new event goes last, after all prior events in order. */
  function EventAdded(prevEvents: seq<Event>, newEvent: Event): (r: seq<Event>)
    ensures |r| == |prevEvents| + 1
    ensures r[..|prevEvents|] == prevEvents && r[|prevEvents|] == newEvent
  {
    prevEvents + [newEvent]
  }

  /** On mount the page shows what the fetch answered, or stays empty if the fetch failed. */
  lemma FirstRender(response: Option<seq<Event>>)
    ensures AfterFetch(InitialEvents(), response) == if response.Some? then response.value else []
  {
  }

  /**
   * The client list keeps mirroring the server: when it holds an owner's
   * listing and the server creates an event for that owner, appending the
   * created event gives the owner's listing after the create.
   */
  lemma AddMirrorsServer(rows: seq<Event>, created: Event)
    ensures EventAdded(Select(rows, ByOwner(Some(created.userId))), created)
         == Select(rows + [created], ByOwner(Some(created.userId)))
  {
    CreateThenList(rows, created);
  }
}
