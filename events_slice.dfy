/**
 * The events slice of the application store: a request-status machine over
 * `Idle`, `Loading`, `Succeeded` and `Failed`, holding the fetched list, the
 * selected event's detail record and the last error message. Each reducer case
 * of the two fetch thunks (`fetchEvents`, `fetchEventDetails`) is one method
 * that assigns a fixed set of fields in place; the network calls themselves
 * are not modelled, their payloads and error messages are arguments.
 */
module EventsSlice {
  import opened Wrappers
  import opened Events

  datatype Status = Idle | Loading | Succeeded | Failed

  class EventStore {
    var events: seq<Event>
    var selectedEvent: Option<Event>
    var status: Status
    var error: Option<string>
    /** How many reducer cases have run since the store was created. */
    ghost var handled: nat

    /**
     * What holds after any sequence of actions: the store is idle exactly
     * before the first action, a success never carries an error, and a
     * failure always carries one.
     */
    ghost predicate Valid()
      reads this
    {
      && (status == Idle <==> handled == 0)
      && (status == Succeeded ==> error == None)
      && (status == Failed ==> error.Some?)
    }

    /** `initialState`. */
    constructor ()
      ensures Valid()
      ensures events == [] && selectedEvent == None && status == Idle && error == None
      ensures handled == 0
    {
      events := [];
      selectedEvent := None;
      status := Idle;
      error := None;
      handled := 0;
    }

    /** `fetchEvents.pending`: only the status changes. */
    method FetchEventsPending()
      modifies this`status, this`handled
      ensures Valid() && handled == old(handled) + 1
      ensures status == Loading
      ensures events == old(events) && selectedEvent == old(selectedEvent) && error == old(error)
    {
      status := Loading;
      handled := handled + 1;
    }

    /** `fetchEvents.fulfilled`: the list is replaced wholesale and the error cleared. */
    method FetchEventsFulfilled(payload: seq<Event>)
      modifies this`status, this`events, this`error, this`handled
      ensures Valid() && handled == old(handled) + 1
      ensures status == Succeeded && events == payload && error == None
      ensures selectedEvent == old(selectedEvent)
    {
      status := Succeeded;
      events := payload;
      error := None;
      handled := handled + 1;
    }

    /** `fetchEvents.rejected`: the previously loaded list is kept. */
    method FetchEventsRejected(message: string)
      modifies this`status, this`error, this`handled
      ensures Valid() && handled == old(handled) + 1
      ensures status == Failed && error == Some(message)
      ensures events == old(events) && selectedEvent == old(selectedEvent)
    {
      status := Failed;
      error := Some(message);
      handled := handled + 1;
    }

    /** `fetchEventDetails.pending`: only the status changes. */
    method FetchEventDetailsPending()
      modifies this`status, this`handled
      ensures Valid() && handled == old(handled) + 1
      ensures status == Loading
      ensures events == old(events) && selectedEvent == old(selectedEvent) && error == old(error)
    {
      status := Loading;
      handled := handled + 1;
    }

    /** `fetchEventDetails.fulfilled`: the detail record is stored, the list is untouched. */
    method FetchEventDetailsFulfilled(detail: Event)
      modifies this`status, this`selectedEvent, this`error, this`handled
      ensures Valid() && handled == old(handled) + 1
      ensures status == Succeeded && selectedEvent == Some(detail) && error == None
      ensures events == old(events)
    {
      status := Succeeded;
      selectedEvent := Some(detail);
      error := None;
      handled := handled + 1;
    }

    /** `fetchEventDetails.rejected`: the selection is dropped, the list is untouched. */
    method FetchEventDetailsRejected(message: string)
      modifies this`status, this`error, this`selectedEvent, this`handled
      ensures Valid() && handled == old(handled) + 1
      ensures status == Failed && error == Some(message) && selectedEvent == None
      ensures events == old(events)
    {
      status := Failed;
      error := Some(message);
      selectedEvent := None;
      handled := handled + 1;
    }
  }

  /**
   * A client run: a failed refresh after a successful load leaves the loaded
   * list in place and reports the message; the store never goes back to idle.
   */
  method RefreshFailureKeepsList(payload: seq<Event>, message: string) returns (store: EventStore)
    ensures fresh(store) && store.Valid()
    ensures store.events == payload && store.status == Failed && store.error == Some(message)
    ensures store.handled == 4
  {
    store := new EventStore();
    store.FetchEventsPending();
    store.FetchEventsFulfilled(payload);
    store.FetchEventsPending();
    store.FetchEventsRejected(message);
  }
}
