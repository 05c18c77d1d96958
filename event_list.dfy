/**
 * The event list screen: its filter over the store's list (category chips and
 * a name search), the category toggle, the fetch-on-idle effect and the choice
 * of what to render for each store status.
 */
module EventList {
  import opened Wrappers
  import opened Seqs
  import opened Events
  import opened EventsSlice

  /** The category chips offered by the filter dialog. */
  const FilterTypes: seq<string> := ["Sinema", "Tiyatro", "Konser", "Sergi"]

  /** An event passes when its category is selected (or none is) and its name matches the term. */
  predicate MatchesCriteria(e: Event, types: seq<string>, term: string) {
    (|types| == 0 || e.category in types) && NameMatches(e, term)
  }

  /** The list the screen shows for the given store list, selected categories and search term. */
  function VisibleEvents(events: seq<Event>, types: seq<string>, term: string): seq<Event> {
    Filter(events, e => MatchesCriteria(e, types, term))
  }

  /**
   * The shown list is exactly the matching events: in their original order,
   * each passing both active criteria, and each matching event kept as many
   * times as it occurs.
   */
  lemma VisibleEventsExact(events: seq<Event>, types: seq<string>, term: string)
    ensures IsSubsequence(VisibleEvents(events, types, term), events)
    ensures forall e :: e in VisibleEvents(events, types, term) ==>
      (|types| > 0 ==> e.category in types) && (term != "" ==> NameMatches(e, term))
    ensures forall e :: multiset(VisibleEvents(events, types, term))[e] ==
                        (if MatchesCriteria(e, types, term) then multiset(events)[e] else 0)
    ensures forall i :: 0 <= i < |events| && MatchesCriteria(events[i], types, term) ==>
      events[i] in VisibleEvents(events, types, term)
  {
    VisibleEventsOrdered(events, types, term);
    VisibleEventsSound(events, types, term);
    VisibleEventsCounts(events, types, term);
    VisibleEventsComplete(events, types, term);
  }

  lemma VisibleEventsOrdered(events: seq<Event>, types: seq<string>, term: string)
    ensures IsSubsequence(VisibleEvents(events, types, term), events)
  {
    FilterIsSubsequence(events, e => MatchesCriteria(e, types, term));
  }

  lemma VisibleEventsSound(events: seq<Event>, types: seq<string>, term: string)
    ensures forall e :: e in VisibleEvents(events, types, term) ==> MatchesCriteria(e, types, term)
  {
  }

  lemma VisibleEventsCounts(events: seq<Event>, types: seq<string>, term: string)
    ensures forall e :: multiset(VisibleEvents(events, types, term))[e] ==
                        (if MatchesCriteria(e, types, term) then multiset(events)[e] else 0)
  {
    FilterMultiset(events, e => MatchesCriteria(e, types, term));
  }

  lemma VisibleEventsComplete(events: seq<Event>, types: seq<string>, term: string)
    ensures forall i :: 0 <= i < |events| && MatchesCriteria(events[i], types, term) ==>
      events[i] in VisibleEvents(events, types, term)
  {
    FilterKeepsAccepted(events, e => MatchesCriteria(e, types, term));
  }

  /** With no category selected and an empty search term the whole list is shown. */
  lemma VisibleEventsNoCriteria(events: seq<Event>)
    ensures VisibleEvents(events, [], "") == events
  {
    forall i | 0 <= i < |events| ensures MatchesCriteria(events[i], [], "") {
      EmptyTermMatchesAll(events[i]);
    }
    FilterKeepsAll(events, e => MatchesCriteria(e, [], ""));
  }

  /** The functional update passed to `setSelectedTypes`: drop `t` if present, else append it. */
  function Toggle(prev: seq<string>, t: string): seq<string> {
    if t in prev then Filter(prev, x => x != t) else prev + [t]
  }

  /** Toggling flips membership of `t` and of nothing else. */
  lemma ToggleFlips(prev: seq<string>, t: string)
    ensures t in Toggle(prev, t) <==> t !in prev
    ensures forall x :: x != t ==> (x in Toggle(prev, t) <==> x in prev)
  {
    if t in prev {
      FilterKeepsAccepted(prev, x => x != t);
    }
  }

  /** Apart from `t`, the list keeps every entry in its relative order. */
  lemma ToggleKeepsOthers(prev: seq<string>, t: string)
    ensures Filter(Toggle(prev, t), x => x != t) == Filter(prev, x => x != t)
  {
    var p := x => x != t;
    if t in prev {
      FilterFilter(prev, p, p, p);
    } else {
      FilterAppend(prev, [t], p);
    }
  }

  lemma ToggleNoDup(prev: seq<string>, t: string)
    requires NoDup(prev)
    ensures NoDup(Toggle(prev, t))
  {
    if t in prev {
      FilterNoDup(prev, x => x != t);
    }
  }

  /** Selecting an unselected category and then deselecting it restores the list. */
  lemma ToggleTwiceRestores(prev: seq<string>, t: string)
    requires t !in prev
    ensures Toggle(Toggle(prev, t), t) == prev
  {
    var p := x => x != t;
    assert t in prev + [t];
    FilterAppend(prev, [t], p);
    FilterKeepsAll(prev, p);
  }

  /**
   * The dialog offers only the four chips, so pressing chips keeps the
   * selection within them.
   */
  lemma {:induction false} ChipPressesStayInChips(prev: seq<string>, presses: seq<string>)
    requires forall x :: x in prev ==> x in FilterTypes
    requires forall t :: t in presses ==> t in FilterTypes
    ensures forall x :: x in AfterPresses(prev, presses) ==> x in FilterTypes
    decreases |presses|
  {
    if presses != [] {
      ToggleFlips(prev, presses[0]);
      ChipPressesStayInChips(Toggle(prev, presses[0]), presses[1..]);
    }
  }

  /** The selection after pressing the given chips in order. */
  function AfterPresses(prev: seq<string>, presses: seq<string>): seq<string>
    decreases |presses|
  {
    if presses == [] then prev else AfterPresses(Toggle(prev, presses[0]), presses[1..])
  }

  /** The fetch-on-mount effect dispatches `fetchEvents` only while the store is idle. */
  function ShouldFetch(status: Status): bool {
    status == Idle
  }

  datatype Screen = Spinner | ErrorText(text: string) | EventGrid

  /** What the screen renders: a spinner while loading, the error on failure, else the list. */
  function ScreenFor(status: Status, error: Option<string>): (r: Screen)
    ensures r == Spinner <==> status == Loading
    ensures r.ErrorText? <==> status == Failed
    ensures r == EventGrid <==> (status == Idle || status == Succeeded)
  {
    if status.Loading? then Spinner
    else if status.Failed? then ErrorText("Error: " + (if error.Some? then error.value else ""))
    else EventGrid
  }

  /** Against the store: a fetch is requested only before the first reducer case has run. */
  lemma FetchOnlyBeforeFirstAction(store: EventStore)
    requires store.Valid()
    ensures ShouldFetch(store.status) <==> store.handled == 0
  {
  }

  /** Against the store: the error screen always shows the recorded rejection message. */
  lemma FailedScreenShowsMessage(store: EventStore)
    requires store.Valid() && store.status == Failed
    ensures store.error.Some?
    ensures ScreenFor(store.status, store.error) == ErrorText("Error: " + store.error.value)
  {
  }

  /** The effect at mount: dispatching `fetchEvents` runs its pending case at once. */
  method DispatchFetchIfIdle(store: EventStore)
    modifies store`status, store`handled
    ensures old(ShouldFetch(store.status)) ==> store.status == Loading && store.handled == old(store.handled) + 1
    ensures !old(ShouldFetch(store.status)) ==> store.status == old(store.status) && store.handled == old(store.handled)
  {
    if ShouldFetch(store.status) {
      store.FetchEventsPending();
    }
  }

  class EventListScreen {
    var searchTerm: string
    var filteredEvents: seq<Event>
    var selectedTypes: seq<string>
    var filterModalVisible: bool

    ghost predicate Valid()
      reads this`selectedTypes
    {
      NoDup(selectedTypes)
    }

    constructor ()
      ensures Valid()
      ensures searchTerm == "" && filteredEvents == [] && selectedTypes == [] && !filterModalVisible
    {
      searchTerm := "";
      filteredEvents := [];
      selectedTypes := [];
      filterModalVisible := false;
    }

    /** `filterEvents`: narrow by category when some is selected, then by name when a term is typed. */
    method FilterEvents(events: seq<Event>)
      modifies this`filteredEvents
      ensures filteredEvents == VisibleEvents(events, selectedTypes, searchTerm)
    {
      var types, term := selectedTypes, searchTerm;
      var byType := (e: Event) => e.category in types;
      var byName := (e: Event) => NameMatches(e, term);
      var filtered := events;
      if |types| > 0 {
        filtered := Filter(filtered, byType);
      }
      if term != "" {
        filtered := Filter(filtered, byName);
      }
      ghost var matches := (e: Event) => MatchesCriteria(e, types, term);
      if |types| > 0 && term != "" {
        FilterFilter(events, byType, byName, matches);
      } else if |types| > 0 {
        forall e ensures matches(e) == byType(e) {
          EmptyTermMatchesAll(e);
        }
        FilterCongruent(events, byType, matches);
      } else if term != "" {
        FilterCongruent(events, byName, matches);
      } else {
        forall i | 0 <= i < |events| ensures matches(events[i]) {
          EmptyTermMatchesAll(events[i]);
        }
        FilterKeepsAll(events, matches);
      }
      filteredEvents := filtered;
    }

    /** `handleSearch`: typing only records the term; the list is refiltered later. */
    method HandleSearch(text: string)
      modifies this`searchTerm
      ensures searchTerm == text
    {
      searchTerm := text;
    }

    /** `handleTypeSelect`. */
    method HandleTypeSelect(t: string)
      requires Valid()
      modifies this`selectedTypes
      ensures Valid()
      ensures selectedTypes == Toggle(old(selectedTypes), t)
    {
      ToggleNoDup(selectedTypes, t);
      selectedTypes := Toggle(selectedTypes, t);
    }

    /** The effect run when the store list or the selection changes: refilter a non-empty list. */
    method OnListInputsChanged(events: seq<Event>)
      modifies this`filteredEvents
      ensures filteredEvents == if |events| > 0 then VisibleEvents(events, selectedTypes, searchTerm)
                                else old(filteredEvents)
    {
      if |events| > 0 {
        FilterEvents(events);
      }
    }

    method OpenFilterModal()
      modifies this`filterModalVisible
      ensures filterModalVisible
    {
      filterModalVisible := true;
    }

    /** The dialog's close button refilters and hides the dialog. */
    method CloseFilterModal(events: seq<Event>)
      modifies this`filteredEvents, this`filterModalVisible
      ensures filteredEvents == VisibleEvents(events, selectedTypes, searchTerm)
      ensures !filterModalVisible
    {
      FilterEvents(events);
      filterModalVisible := false;
    }
  }
}
