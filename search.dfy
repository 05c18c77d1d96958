/**
 * The search screen: a name filter over the store's list, recomputed from the
 * full list on every keystroke.
 */
module Search {
  import opened Seqs
  import opened Events
  import opened EventList

  /** The list `handleSearch` shows for `text`: the whole list for empty text, else the name matches. */
  function SearchResult(events: seq<Event>, text: string): seq<Event> {
    if text == "" then events else Filter(events, e => NameMatches(e, text))
  }

  /**
   * The result keeps the list's order, holds only events whose name contains
   * the text, and keeps every such event as often as it occurs.
   */
  lemma SearchResultExact(events: seq<Event>, text: string)
    ensures text == "" ==> SearchResult(events, text) == events
    ensures IsSubsequence(SearchResult(events, text), events)
    ensures forall e :: e in SearchResult(events, text) ==> NameMatches(e, text)
    ensures forall e :: multiset(SearchResult(events, text))[e] ==
                        (if NameMatches(e, text) then multiset(events)[e] else 0)
  {
    var p := e => NameMatches(e, text);
    if text == "" {
      FilterKeepsAll(events, p);
      forall e ensures NameMatches(e, text) {
        EmptyTermMatchesAll(e);
      }
    }
    FilterIsSubsequence(events, p);
    FilterMultiset(events, p);
  }

  /** The search screen and the list screen with no category selected show the same list. */
  lemma SearchAgreesWithEventList(events: seq<Event>, text: string)
    ensures SearchResult(events, text) == VisibleEvents(events, [], text)
  {
    if text == "" {
      VisibleEventsNoCriteria(events);
    } else {
      FilterCongruent(events, e => NameMatches(e, text), e => MatchesCriteria(e, [], text));
    }
  }

  /** Typing more characters narrows the previous result and never brings an event back. */
  lemma SearchNarrows(events: seq<Event>, text: string, more: string)
    ensures SearchResult(events, text + more) ==
            Filter(SearchResult(events, text), e => NameMatches(e, text + more))
  {
    var p := e => NameMatches(e, text);
    var q := e => NameMatches(e, text + more);
    if text + more == "" {
      assert text == "";
      forall i | 0 <= i < |events| ensures q(events[i]) {
        EmptyTermMatchesAll(events[i]);
      }
      FilterKeepsAll(events, q);
    } else if text == "" {
      assert text + more == more;
    } else {
      forall e ensures q(e) == (p(e) && q(e)) {
        if q(e) {
          NameMatchesPrefix(e, text, more);
        }
      }
      FilterFilter(events, p, q, q);
    }
  }

  /** The screen's two state cells. */
  class SearchScreen {
    var searchTerm: string
    var filteredEvents: seq<Event>

    /** `useState("")` and `useState(events)`: nothing typed, the whole list shown. */
    constructor (events: seq<Event>)
      ensures searchTerm == "" && filteredEvents == events
    {
      searchTerm := "";
      filteredEvents := events;
    }

    /** `handleSearch`: record the text, then filter the full store list, not the previous result. */
    method HandleSearch(events: seq<Event>, text: string)
      modifies this
      ensures searchTerm == text
      ensures filteredEvents == SearchResult(events, text)
    {
      searchTerm := text;
      if text != "" {
        filteredEvents := Filter(events, (e: Event) => NameMatches(e, text));
      } else {
        filteredEvents := events;
      }
    }
  }
}
