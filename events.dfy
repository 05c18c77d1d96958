/**
 * The event record delivered by the municipal culture-events API, reduced to
 * the fields the list, search and detail screens read. The API's Turkish field
 * names are given beside each field.
 */
module Events {
  import opened Wrappers
  import opened Text

  /**
   * A date as the JavaScript `Date` getters report it: `getFullYear`,
   * `getMonth` (0 based), `getDate`, `getHours`, `getMinutes`.
   */
  datatype DateParts = DateParts(year: int, month: nat, day: nat, hours: nat, minutes: nat)

  /** The ranges a `Date` built from a valid date string always reports. */
  predicate ValidParts(d: DateParts) {
    d.month < 12 && 1 <= d.day <= 31 && d.hours < 24 && d.minutes < 60
  }

  datatype Event = Event(
    id: int,                   // Id
    name: string,              // Adi
    category: string,          // Tur
    isFree: bool,              // UcretsizMi
    summary: string,           // KisaAciklama, may hold raw markup
    venue: string,             // EtkinlikMerkezi
    pagePath: string,          // EtkinlikUrl, relative to the site's events page
    ticketLink: Option<string>, // BiletSatisLinki
    start: Option<DateParts>,  // EtkinlikBaslamaTarihi, None when the field is empty
    end: Option<DateParts>     // EtkinlikBitisTarihi, None when the field is empty
  )

  /** `item.Adi.toLowerCase().includes(term.toLowerCase())`. */
  predicate NameMatches(e: Event, term: string) {
    Contains(LowerStr(e.name), LowerStr(term))
  }

  /** The empty search term matches every name. */
  lemma EmptyTermMatchesAll(e: Event)
    ensures NameMatches(e, "")
  {
    assert LowerStr("") == "";
  }

  /** A name matching a longer term matches each of its prefixes: typing more only narrows. */
  lemma NameMatchesPrefix(e: Event, term: string, more: string)
    requires NameMatches(e, term + more)
    ensures NameMatches(e, term)
  {
    LowerStrAppend(term, more);
    ContainsPrefixOfNeedle(LowerStr(e.name), LowerStr(term), LowerStr(more));
  }
}
