# izmirEvent core, modelled in Dafny

izmirEvent is a React Native front end for the İzmir municipality's open-data
list of cultural events. This project models the parts of it that compute
something, and proves properties of the model:

- the **events store** (`src/eventsSlice.js`), a Redux slice whose six reducer
  cases move a request status through `idle`, `loading`, `succeeded` and `failed`
  and fill in the event list, the selected event and the error message;
- the **event list screen** (`src/EventList.js`): the two-step filter by category
  chip and by name, the chip toggle, the fetch that runs while the store is idle,
  and the choice between spinner, error text and event grid;
- the **event detail helpers** (`src/EventDetail.js`): `DD MM YYYY` and `HH:MM`
  rendering, the same-day test, the three `replace` calls of `cleanText`, and the
  checks made before the event page or the ticket page is opened;
- the **search screen** (`src/components/search.js`): a name filter recomputed
  from the full list on every keystroke.

Files:

| file | module | contents |
|---|---|---|
| `wrappers.dfy` | `Wrappers` | `Option` |
| `seqs.dfy` | `Seqs` | `Filter` (JavaScript's `Array.prototype.filter`) and its laws: subsequence, multiset, append, fusion, congruence, no duplicates |
| `text.dfy` | `Text` | ASCII `toLowerCase`, `startsWith`, `includes`, integer `toString`, `padStart` |
| `events.dfy` | `Events` | the event record and its date components; the name match shared by both screens |
| `events_slice.dfy` | `EventsSlice` | class `EventStore`, one method per reducer case |
| `event_list.dfy` | `EventList` | class `EventListScreen` (the screen's four state cells) and the pure filter, toggle, fetch and screen decisions |
| `event_detail.dfy` | `EventDetail` | date and time rendering, `isSameDay`, `cleanText`, link decisions |
| `search.dfy` | `Search` | class `SearchScreen` and the pure `SearchResult` |

How the source's constructs appear in the model:

- The store object that reducers mutate in place is the class `EventStore`. Each case assigns its fields and says, with field-level `modifies` clauses, that nothing else changes.
- A ghost counter `handled` records how many cases have run. It lets the invariant `Valid()` state "never idle again after the first action". Every case establishes `Valid()` without requiring it.
- React `useState` cells are fields of `EventListScreen` and `SearchScreen`. Each handler is a method that writes them.
- `filterEvents` keeps the source's two-step reassignment of `filtered`. It is proved equal to `VisibleEvents`, the single combined filter whose properties are the lemmas.
- Date strings are already split into `DateParts` (`getFullYear`, the 0-based `getMonth`, `getDate`, `getHours`, `getMinutes`). A falsy date field is `None`.
- `String.prototype.replace` with a global regex is `ReplaceAll`. It scans left to right. At each position it tries the alternatives in order, replaces a match and resumes after it, and otherwise copies one character. `[\r\n]+` is `CollapseBreaks`, which replaces each maximal run with a single space.
- A handler that opens a link returns a `UrlAction`: `OpenUrl`, `RejectUrl` (the `console.error` branch) or `NoAction`.

The model follows the code, also where the code does less than such screens are often expected to do:

- `cleanText` removes only `<br>` and `</br>`, not other HTML tags. It does not trim, and it does not collapse runs of spaces. Cleaning twice can differ from cleaning once (`CleanTextNotIdempotent`).
- A `<br>` is deleted without a space, so "Line1<br>Line2&nbsp;end" becomes "Line1Line2 end", not "Line1 Line2 end" (`CleanTextJoinsAtBreakTag`).
- There is no price filter: the free/paid flag is only displayed.
- Categories are compared exactly, not case- or locale-normalised.
- A rejected fetch stores whatever message it carries, which may be empty.

## Model

| member | source | states |
|---|---|---|
| EventsSlice.EventStore.constructor | src/eventsSlice.js:4-9 | the initial state: empty list, no selected event, status idle, no error; nothing handled yet |
| EventsSlice.EventStore.FetchEventsPending | src/eventsSlice.js:34-36 | status becomes loading; list, selected event and error keep their values; the store invariant holds |
| EventsSlice.EventStore.FetchEventsFulfilled | src/eventsSlice.js:37-41 | the list is replaced by the payload, status succeeded, error cleared, selected event untouched; invariant holds |
| EventsSlice.EventStore.FetchEventsRejected | src/eventsSlice.js:42-45 | status failed with the message as error; the previously loaded list and the selected event are unchanged; invariant holds |
| EventsSlice.EventStore.FetchEventDetailsPending | src/eventsSlice.js:46-48 | status becomes loading and nothing else changes; invariant holds |
| EventsSlice.EventStore.FetchEventDetailsFulfilled | src/eventsSlice.js:49-53 | the selected event is the payload, status succeeded, error cleared, list untouched; invariant holds |
| EventsSlice.EventStore.FetchEventDetailsRejected | src/eventsSlice.js:54-58 | status failed with the message, selected event cleared, list untouched; invariant holds |
| EventsSlice.RefreshFailureKeepsList | src/eventsSlice.js:33-58 | after load, success, reload and failure the store still holds the first payload, reports the message and is not idle |
| EventList.VisibleEvents | src/EventList.js:42-56 | the list `filterEvents` computes: the store events whose category is selected (or none is) and whose name matches the term, in store order; its properties are stated by EventList.VisibleEventsExact and EventList.VisibleEventsNoCriteria |
| Events.NameMatches | src/EventList.js:51-53 | `Adi.toLowerCase().includes(term.toLowerCase())`, the name test shared with the search screen; EventList.VisibleEventsExact, Search.SearchResultExact and Events.NameMatchesPrefix state what it lets through |
| EventList.VisibleEventsExact | src/EventList.js:42-56 | the shown list is an order-preserving subsequence of the store list; each kept event's category is a selected one (when any is selected) and its lowercased name contains the lowercased term (when one is typed); each matching event is kept as often as it occurs and no other is |
| EventList.VisibleEventsNoCriteria | src/EventList.js:43-55 | with no category selected and an empty term the shown list is the store list |
| EventList.EventListScreen.FilterEvents | src/EventList.js:42-57 | the two-step filter (category, then name) writes exactly the combined filter's result to the filtered list |
| EventList.EventListScreen.constructor | src/EventList.js:25-28 | empty term, empty filtered list, no category selected, dialog hidden |
| EventList.EventListScreen.HandleSearch | src/EventList.js:59-61 | typing only records the term; the filtered list is not touched |
| EventList.Toggle | src/EventList.js:65-67 | the functional update of the selection: drop the category if present, else append it; its properties are stated by EventList.ToggleFlips, EventList.ToggleKeepsOthers, EventList.ToggleNoDup and EventList.ToggleTwiceRestores |
| EventList.ToggleFlips | src/EventList.js:63-69 | after a toggle the category is selected exactly when it was not, and every other category's membership is unchanged |
| EventList.ToggleKeepsOthers | src/EventList.js:63-69 | apart from the toggled category, the selection keeps its entries in their relative order |
| EventList.ToggleNoDup | src/EventList.js:65-67 | toggling never introduces a duplicate |
| EventList.ToggleTwiceRestores | src/EventList.js:65-67 | selecting an unselected category and then deselecting it restores the selection |
| EventList.EventListScreen.HandleTypeSelect | src/EventList.js:63-70 | the selection becomes the toggled list and stays duplicate-free |
| EventList.AfterPresses | src/EventList.js:159-166 | the selection after a sequence of chip presses, each press one toggle |
| EventList.ChipPressesStayInChips | src/EventList.js:159-166 | starting from chips only and pressing only the four offered chips ("Sinema", "Tiyatro", "Konser", "Sergi"), the selection never holds anything else |
| EventList.EventListScreen.OnListInputsChanged | src/EventList.js:36-40 | a non-empty store list is refiltered; an empty one leaves the shown list as it was |
| EventList.EventListScreen.OpenFilterModal | src/EventList.js:128-131 | the filter dialog becomes visible |
| EventList.EventListScreen.CloseFilterModal | src/EventList.js:174-179 | closing the dialog refilters the list and hides the dialog |
| EventList.ShouldFetch | src/EventList.js:31 | the effect's condition, status idle; EventList.FetchOnlyBeforeFirstAction and EventList.DispatchFetchIfIdle state its meaning against the store |
| EventList.DispatchFetchIfIdle | src/EventList.js:30-34 | the fetch is dispatched, and the store moves to loading, exactly when the store is idle; otherwise the store is unchanged |
| EventList.FetchOnlyBeforeFirstAction | src/EventList.js:30-34 | on a store that respects its invariant, a fetch is requested exactly when no reducer case has yet run |
| EventList.ScreenFor | src/EventList.js:99-111 | spinner exactly when loading, error text exactly when failed, the event grid exactly when idle or succeeded |
| EventList.FailedScreenShowsMessage | src/EventList.js:105-110 | a failed store always has a message, and the error screen shows "Error: " followed by it |
| EventDetail.FormatDate | src/EventDetail.js:20-28 | the date text is empty exactly when the date field is empty |
| EventDetail.FormatDateLayout | src/EventDetail.js:23-27 | for a valid date: two digits, a space, two digits, a space, then the year's unpadded decimal text; these read back as the day, the 1-based month and the year |
| EventDetail.FormatTime | src/EventDetail.js:30-38 | the time text is empty exactly when the date field is empty |
| EventDetail.FormatTimeLayout | src/EventDetail.js:31-37 | for a valid time: exactly five characters with ':' at index 2, reading back as hours and minutes |
| Text.Pad2Digits | src/EventDetail.js:23-27 | `toString().padStart(2, "0")` of a number below 100 gives two digits that read back as the number |
| EventDetail.IsSameDay | src/EventDetail.js:41-49 | year, month and day all equal; EventDetail.IsSameDayIsEquivalence and EventDetail.SameDayIffSameDateText state its properties |
| EventDetail.SameDayFields | src/EventDetail.js:41-49 | `isSameDay` on the raw fields: a missing date compares unequal, so two fields are the same day only when both are present and IsSameDay holds |
| EventDetail.IsSameDayIsEquivalence | src/EventDetail.js:41-49 | the same-day relation is reflexive, symmetric and transitive |
| EventDetail.SameDayIffSameDateText | src/EventDetail.js:41-49 | two valid dates are on the same day exactly when they render to the same date text |
| EventDetail.DateDisplay | src/EventDetail.js:144-162 | the calendar card: one date line when the fields are the same day, else a start line and an end line; EventDetail.DateDisplayLosesNothing states what it shows |
| EventDetail.DateDisplayLosesNothing | src/EventDetail.js:144-162 | the single-date display never hides a different end date; for two present dates it is used exactly when both render alike; a missing date always gives the start/end display |
| EventDetail.ReplaceAll | src/EventDetail.js:55-57 | `replace` with a global regex of literal alternatives, scanning left to right; EventDetail.ReplaceAllRemoves, EventDetail.BrTagDeleted and EventDetail.NbspDecoded state its behaviour |
| EventDetail.RemoveBrTags | src/EventDetail.js:55 | the first step, `<\/?br>` replaced by ""; EventDetail.BrTagDeleted states it |
| EventDetail.CollapseBreaks | src/EventDetail.js:56 | the second step, each maximal run of CR/LF replaced by one space; EventDetail.CollapseBreaksRun and EventDetail.CollapseBreaksClears state it |
| EventDetail.DecodeNbsp | src/EventDetail.js:57 | the third step, each "&nbsp;" replaced by one space; EventDetail.NbspDecoded states it |
| EventDetail.CleanText | src/EventDetail.js:52-58 | falsy text gives "", otherwise the three steps in order; EventDetail.CleanTextClears, EventDetail.CleanTextUnchanged, EventDetail.CleanTextJoinsAtBreakTag and EventDetail.CleanTextNotIdempotent state its properties |
| EventDetail.CleanTextClears | src/EventDetail.js:52-58 | the cleaned text has no CR, no LF and no "&nbsp;", and is never longer than the input (so falsy input gives "") |
| EventDetail.CleanTextUnchanged | src/EventDetail.js:54-57 | text containing none of "<br>", "</br>", CR, LF, "&nbsp;" is returned unchanged |
| EventDetail.BrTagDeleted | src/EventDetail.js:55 | a "<br>" or "</br>" is deleted without leaving anything, and the text on each side is treated independently |
| EventDetail.CollapseBreaksRun | src/EventDetail.js:56 | a maximal run of CR/LF characters becomes exactly one space, the text on each side independently |
| EventDetail.CollapseBreaksClears | src/EventDetail.js:56 | after the second step no CR or LF is left and the text is not longer |
| EventDetail.NbspDecoded | src/EventDetail.js:57 | each "&nbsp;" becomes one space, the text on each side independently |
| EventDetail.ReplaceAllRemoves | src/EventDetail.js:57 | a global replacement of a pattern whose characters do not occur in the replacement leaves no occurrence of the pattern |
| EventDetail.CleanTextJoinsAtBreakTag | src/EventDetail.js:52-58 | plain words around "<br>" are joined with no space and "&nbsp;" becomes a space ("Line1<br>Line2&nbsp;end" gives "Line1Line2 end") |
| EventDetail.CleanTextNotIdempotent | src/EventDetail.js:52-58 | cleaning twice can differ from cleaning once: the first letter of a tag, the tag, then the rest of the tag cleans to the tag, which cleans to "" |
| EventDetail.OpenEventPage | src/EventDetail.js:60-71 | the page URL is the base URL, "/", then the event's page path; it always starts with "https://", so the event page is always opened and the invalid-URL branch is never taken |
| EventDetail.BuyTicket | src/EventDetail.js:73-84 | a missing or empty link does nothing; a link is opened exactly when it is non-empty and starts with "http://" or "https://"; any other link is reported as invalid |
| EventDetail.TicketButtonAlwaysActs | src/EventDetail.js:179 | the ticket button is rendered exactly when pressing it would open the link or report it |
| Events.NameMatchesPrefix | src/components/search.js:22-24 | an event whose name matches a term also matches every prefix of that term |
| Text.ContainsIffOccurs | src/components/search.js:23 | `includes` holds exactly when the needle occurs at some index of the text |
| Search.SearchScreen.constructor | src/components/search.js:16-17 | the initial term is empty and the initial shown list is the full list |
| Search.SearchScreen.HandleSearch | src/components/search.js:19-29 | the term is set to the text unconditionally, and the shown list is the search result for the full store list and the text, whatever was shown before |
| Search.SearchResult | src/components/search.js:21-28 | the list `handleSearch` stores: the full list for empty text, else the events whose name matches the text; Search.SearchResultExact, Search.SearchAgreesWithEventList and Search.SearchNarrows state its properties |
| Search.SearchResultExact | src/components/search.js:19-29 | empty text shows the full list; the result is an order-preserving subsequence of the list whose every element's lowercased name contains the lowercased text, and each matching event is kept as often as it occurs |
| Search.SearchAgreesWithEventList | src/components/search.js:21-24 | the search screen shows what the list screen shows for the same term with no category selected |
| Search.SearchNarrows | src/components/search.js:21-25 | typing more characters gives the previous result filtered again, so no event comes back |

## Left out

- JavaScript `Date` parsing and local-timezone conversion. Dates enter the model as components (`DateParts`): year, month 0 to 11, day, hours and minutes.
- JavaScript `Date`: `new Date(null)` is the 1970 epoch, a valid date. `isSameDay` on a null field therefore behaves unlike the model's `None`, which is never the same day as anything.
- Unicode and locale behaviour of `toLowerCase`, including the Turkish dotted and dotless I. Lower-casing is ASCII-only.
- The network requests of the two thunks. The payload and the error message are method arguments.
- An undefined `action.error.message` is not modelled. The error message is always a string.
- `Linking.openURL`, its failure callback and every `console` call. They are the `UrlAction` a handler returns.
- React's batching of state updates and its re-render scheduling. Each handler's updates happen at once, in source order.
- The list screen's `onEndEditing={filterEvents}` hookup is not modelled as a separate operation. It runs `FilterEvents`.
- The search screen's list comes from the store on each call. The model passes it as the `events` argument of `HandleSearch`.
- The search screen's `useState(events)` captures the list only on the first render. This is the constructor's argument; later store updates reach the screen only through `HandleSearch`.
- Rendering, styles, images and navigation; `App.js`, `src/components/Header.js`, `src/store/index.js` and `src/components/useWebSocket.js` are not part of this model.
- A price filter: the code has none (`UcretsizMi` is only displayed).
- General tag stripping, trimming, whitespace collapsing and idempotence of `cleanText`, and locale-aware category comparison: the code does none of these, so the model promises none of them and states what the code does instead.
- EventDetail.CleanTextJoinsAtBreakTag: proved for all words free of "<", "&", CR and LF; the text "Line1<br>Line2&nbsp;end" is one instance, not stated as a lemma of its own.
