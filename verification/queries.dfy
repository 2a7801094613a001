/** The read-only routes: the public listing, search, event detail, an
    event's registrations and the admin overview. Each is a query over the
    store; the LEFT JOINs with `categories` and `organizations` only add
    names to the rows. */
module Queries {
  import opened Seqs
  import opened Store

  /** An `events` row with the names its LEFT JOINs add (absent when the
      reference is NULL or dangles). */
  datatype EventRow = EventRow(event: Event, categoryName: Option<string>, organizationName: Option<string>)

  function CategoryName(s: Store, e: Event): Option<string> {
    match e.info.categoryId
    case Some(c) => if c in s.categories then Some(s.categories[c]) else None
    case None => None
  }

  function OrganizationOf(s: Store, e: Event): Option<Organization> {
    match e.info.organizationId
    case Some(o) => if o in s.organizations then Some(s.organizations[o]) else None
    case None => None
  }

  function Join(s: Store, e: Event): EventRow {
    var org := OrganizationOf(s, e);
    EventRow(e, CategoryName(s, e), if org.Some? then Some(org.value.name) else None)
  }

  function JoinAll(s: Store, events: seq<Event>): (rows: seq<EventRow>)
    ensures |rows| == |events|
    ensures forall i :: 0 <= i < |rows| ==> rows[i] == Join(s, events[i])
  {
    seq(|events|, i requires 0 <= i < |events| => Join(s, events[i]))
  }

  function EventsOf(rows: seq<EventRow>): (events: seq<Event>)
    ensures |events| == |rows|
    ensures forall i :: 0 <= i < |rows| ==> events[i] == rows[i].event
  {
    seq(|rows|, i requires 0 <= i < |rows| => rows[i].event)
  }

  function EventTime(e: Event): int { e.info.datetime }

  function NegatedEventTime(e: Event): int { -e.info.datetime }

  lemma JoinAllMembership(s: Store, events: seq<Event>)
    ensures forall e :: Join(s, e) in JoinAll(s, events) <==> e in events
    ensures EventsOf(JoinAll(s, events)) == events
  {
    var rows := JoinAll(s, events);
    forall e | Join(s, e) in rows
      ensures e in events
    {
      var i :| 0 <= i < |rows| && rows[i] == Join(s, e);
      assert Join(s, events[i]).event == e;
    }
    forall e | e in events
      ensures Join(s, e) in rows
    {
      var i :| 0 <= i < |events| && events[i] == e;
      assert rows[i] == Join(s, e);
    }
  }

  // ---------------------------------------------------------------- GET /api/events

  /** The WHERE clause of the public listing: active, and dated today or
      later (comparing a datetime with a date compares with its midnight). */
  predicate Upcoming(e: Event, today: int) {
    e.info.isActive && Day(e.info.datetime) >= today
  }

  /** The public listing: exactly the active events dated `today` or later,
      joined with their names, earliest first. `today` is the server's
      current date, a day number. */
  function ListEvents(s: Store, today: int): (r: seq<EventRow>)
    ensures forall e :: Join(s, e) in r <==> e in s.events && Upcoming(e, today)
    ensures forall i :: 0 <= i < |r| ==> r[i] == Join(s, r[i].event)
    ensures forall i, j :: 0 <= i < j < |r| ==> r[i].event.info.datetime <= r[j].event.info.datetime
    ensures forall e :: multiset(EventsOf(r))[e] == if Upcoming(e, today) then multiset(s.events)[e] else 0
  {
    var chosen := Filter(s.events, (e: Event) => Upcoming(e, today));
    var sorted := SortBy(chosen, EventTime);
    SortByMembership(chosen, EventTime);
    JoinAllMembership(s, sorted);
    JoinAll(s, sorted)
  }

  // --------------------------------------------------------- GET /api/events/search

  /** The query string of a search. A filter the client left out, or sent as
      an empty string, is `None`; an empty location, like an absent one, adds
      no filter. */
  datatype SearchQuery = SearchQuery(date: Option<int>, location: Option<string>, category: Option<Id>)

  const NoFilters := SearchQuery(None, None, None)

  /** `needle` occurs in `hay` as a contiguous substring: the pattern match
      with wildcards on both sides. */
  predicate Contains(hay: string, needle: string) {
    exists k :: 0 <= k <= |hay| && needle <= hay[k..]
  }

  /** The WHERE clause the search builds: `is_active` always, and one
      conjunct for each filter that is present. */
  predicate MatchesSearch(e: Event, q: SearchQuery) {
    && e.info.isActive
    && (q.date.Some? ==> Day(e.info.datetime) == q.date.value)
    && (Given(q.location) ==> Contains(e.info.location, q.location.value))
    && (q.category.Some? ==> e.info.categoryId == Some(q.category.value))
  }

  /** Search: exactly the events that satisfy every filter present, joined
      with their names, earliest first. */
  function Search(s: Store, q: SearchQuery): (r: seq<EventRow>)
    ensures forall e :: Join(s, e) in r <==> e in s.events && MatchesSearch(e, q)
    ensures forall i :: 0 <= i < |r| ==> r[i] == Join(s, r[i].event)
    ensures forall i :: 0 <= i < |r| ==> r[i].event.info.isActive
    ensures forall i, j :: 0 <= i < j < |r| ==> r[i].event.info.datetime <= r[j].event.info.datetime
    ensures forall e :: multiset(EventsOf(r))[e] == if MatchesSearch(e, q) then multiset(s.events)[e] else 0
  {
    var chosen := Filter(s.events, (e: Event) => MatchesSearch(e, q));
    var sorted := SortBy(chosen, EventTime);
    SortByMembership(chosen, EventTime);
    JoinAllMembership(s, sorted);
    JoinAll(s, sorted)
  }

  /** With no filters the search returns every active event, past ones
      included. */
  lemma SearchWithoutFilters(s: Store)
    ensures forall e :: Join(s, e) in Search(s, NoFilters) <==> e in s.events && e.info.isActive
  {
  }

  /** The filters are conjunctive: adding a date filter keeps exactly the
      rows of the broader search held on that day. */
  lemma DateFilterConjoins(s: Store, q: SearchQuery, e: Event)
    requires q.date.Some?
    ensures Join(s, e) in Search(s, q) <==>
      Join(s, e) in Search(s, q.(date := None)) && Day(e.info.datetime) == q.date.value
  {
    assert Join(s, e) in Search(s, q) <==> e in s.events && MatchesSearch(e, q);
    assert Join(s, e) in Search(s, q.(date := None)) <==> e in s.events && MatchesSearch(e, q.(date := None));
  }

  /** Adding a location filter keeps exactly the rows whose location
      contains it. */
  lemma LocationFilterConjoins(s: Store, q: SearchQuery, e: Event)
    requires Given(q.location)
    ensures Join(s, e) in Search(s, q) <==>
      Join(s, e) in Search(s, q.(location := None)) && Contains(e.info.location, q.location.value)
  {
    assert Join(s, e) in Search(s, q) <==> e in s.events && MatchesSearch(e, q);
    assert Join(s, e) in Search(s, q.(location := None)) <==> e in s.events && MatchesSearch(e, q.(location := None));
  }

  /** Adding a category filter keeps exactly the rows of that category. */
  lemma CategoryFilterConjoins(s: Store, q: SearchQuery, e: Event)
    requires q.category.Some?
    ensures Join(s, e) in Search(s, q) <==>
      Join(s, e) in Search(s, q.(category := None)) && e.info.categoryId == Some(q.category.value)
  {
    assert Join(s, e) in Search(s, q) <==> e in s.events && MatchesSearch(e, q);
    assert Join(s, e) in Search(s, q.(category := None)) <==> e in s.events && MatchesSearch(e, q.(category := None));
  }

  /** Every event of the public listing is found by an unfiltered search. */
  lemma ListingWithinSearch(s: Store, today: int)
    ensures forall e :: Join(s, e) in ListEvents(s, today) ==> Join(s, e) in Search(s, NoFilters)
  {
  }

  /** The converse fails: an active event dated before today is found by the
      unfiltered search but not listed. */
  lemma PastEventOnlySearched()
    ensures var e := Event(1, EventInfo("Gala", None, 0, "Hall", None, 100, 0, None, None, true));
      var s := Store([e], [], [], map[], map[], 2, 1);
      Join(s, e) in Search(s, NoFilters) && Join(s, e) !in ListEvents(s, 1)
  {
    var e := Event(1, EventInfo("Gala", None, 0, "Hall", None, 100, 0, None, None, true));
    var s := Store([e], [], [], map[], map[], 2, 1);
    assert Day(0) == 0;
    assert Join(s, e) in Search(s, NoFilters);
  }

  // ------------------------------------------------------------ GET /api/events/:id

  /** The detail row: the event, its names, and the organisation's
      description and contact details. */
  datatype EventDetail = EventDetail(
    row: EventRow,
    organizationDescription: Option<string>,
    contactDetails: Option<string>)

  function GetEvent(s: Store, id: Id): (r: Reply<EventDetail>)
    ensures r.Err? <==> !HasEvent(s.events, id)
    ensures r.Err? ==> r.failure == EventNotFound && r.Status() == 404
    ensures r.Ok? ==>
      && r.status == 200
      && r.value.row.event in s.events
      && r.value.row.event.id == id
      && r.value.row == Join(s, r.value.row.event)
  {
    match Lookup(s.events, id)
    case None => Err(EventNotFound)
    case Some(e) =>
      var org := OrganizationOf(s, e);
      Ok(200, EventDetail(Join(s, e),
                          if org.Some? then org.value.description else None,
                          if org.Some? then org.value.contactDetails else None))
  }

  /** In a valid store the detail is the one event with that key. */
  lemma GetEventFindsRow(s: Store, k: nat)
    requires Valid(s)
    requires k < |s.events|
    ensures GetEvent(s, s.events[k].id).Ok?
    ensures GetEvent(s, s.events[k].id).value.row.event == s.events[k]
  {
    LookupUnique(s.events, s.events[k].id, k);
  }

  // ----------------------------------------------- GET /api/events/:id/registrations

  /** A registration joined with its event's name and ticket price. */
  datatype RegistrationRow = RegistrationRow(registration: Registration, eventName: string, ticketPrice: Option<Cents>)

  function NegatedRegistrationTime(r: Registration): int { -r.registeredAt }

  function RegistrationRows(regs: seq<Registration>, e: Event): (r: seq<RegistrationRow>)
    ensures |r| == |regs|
    ensures forall i :: 0 <= i < |r| ==> r[i] == RegistrationRow(regs[i], e.info.name, e.info.ticketPrice)
  {
    seq(|regs|, i requires 0 <= i < |regs| => RegistrationRow(regs[i], e.info.name, e.info.ticketPrice))
  }

  /** The registration column of a list of rows. */
  function RegistrationsIn(rows: seq<RegistrationRow>): (regs: seq<Registration>)
    ensures |regs| == |rows|
    ensures forall i :: 0 <= i < |rows| ==> regs[i] == rows[i].registration
  {
    seq(|rows|, i requires 0 <= i < |rows| => rows[i].registration)
  }

  /** The registrations of event `id`, ordered by registration time, newest
      first. */
  function NewestFirst(regs: seq<Registration>, id: Id): (sorted: seq<Registration>)
    ensures forall reg :: reg in sorted <==> reg in regs && reg.eventId == id
    ensures forall reg :: multiset(sorted)[reg] == if reg.eventId == id then multiset(regs)[reg] else 0
    ensures SortedBy(sorted, NegatedRegistrationTime)
  {
    var chosen := Filter(regs, (reg: Registration) => reg.eventId == id);
    SortByMembership(chosen, NegatedRegistrationTime);
    SortBy(chosen, NegatedRegistrationTime)
  }

  lemma RowsNewestFirst(sorted: seq<Registration>, e: Event)
    requires SortedBy(sorted, NegatedRegistrationTime)
    ensures var r := RegistrationRows(sorted, e);
      forall i, j :: 0 <= i < j < |r| ==> r[i].registration.registeredAt >= r[j].registration.registeredAt
  {
    var r := RegistrationRows(sorted, e);
    forall i, j | 0 <= i < j < |r|
      ensures r[i].registration.registeredAt >= r[j].registration.registeredAt
    {
      assert NegatedRegistrationTime(sorted[i]) <= NegatedRegistrationTime(sorted[j]);
    }
  }

  lemma RowsCoverAll(regs: seq<Registration>, e: Event)
    ensures var r := RegistrationRows(NewestFirst(regs, e.id), e);
      forall reg :: reg in regs && reg.eventId == e.id ==> exists i :: 0 <= i < |r| && r[i].registration == reg
  {
    var sorted := NewestFirst(regs, e.id);
    var r := RegistrationRows(sorted, e);
    forall reg | reg in regs && reg.eventId == e.id
      ensures exists i :: 0 <= i < |r| && r[i].registration == reg
    {
      var i :| 0 <= i < |sorted| && sorted[i] == reg;
      assert r[i].registration == reg;
    }
  }

  /** The registrations of event `e`, joined with its name and price,
      newest first. */
  function RegistrationsOf(regs: seq<Registration>, e: Event): (r: seq<RegistrationRow>)
    ensures forall i :: 0 <= i < |r| ==>
      && r[i].registration in regs
      && r[i].registration.eventId == e.id
      && r[i].eventName == e.info.name
      && r[i].ticketPrice == e.info.ticketPrice
    ensures forall reg :: reg in regs && reg.eventId == e.id ==>
      exists i :: 0 <= i < |r| && r[i].registration == reg
    ensures forall reg ::
      multiset(RegistrationsIn(r))[reg] == (if reg.eventId == e.id then multiset(regs)[reg] else 0)
    ensures forall i, j :: 0 <= i < j < |r| ==> r[i].registration.registeredAt >= r[j].registration.registeredAt
  {
    var sorted := NewestFirst(regs, e.id);
    RowsNewestFirst(sorted, e);
    RowsCoverAll(regs, e);
    assert forall i :: 0 <= i < |sorted| ==> sorted[i] in sorted;
    assert RegistrationsIn(RegistrationRows(sorted, e)) == sorted;
    RegistrationRows(sorted, e)
  }

  /** The registrations of one event, newest first. The inner JOIN drops
      them all when no event has that key. */
  function EventRegistrations(s: Store, id: Id): (r: seq<RegistrationRow>)
    ensures forall i :: 0 <= i < |r| ==>
      && r[i].registration in s.registrations
      && r[i].registration.eventId == id
      && (exists e :: e in s.events && e.id == id
            && r[i].eventName == e.info.name && r[i].ticketPrice == e.info.ticketPrice)
    ensures HasEvent(s.events, id) ==>
      forall reg :: reg in s.registrations && reg.eventId == id ==>
        exists i :: 0 <= i < |r| && r[i].registration == reg
    ensures HasEvent(s.events, id) ==>
      forall reg ::
        multiset(RegistrationsIn(r))[reg] == (if reg.eventId == id then multiset(s.registrations)[reg] else 0)
    ensures !HasEvent(s.events, id) ==> r == []
    ensures forall i, j :: 0 <= i < j < |r| ==> r[i].registration.registeredAt >= r[j].registration.registeredAt
  {
    match Lookup(s.events, id)
    case None => []
    case Some(e) => RegistrationsOf(s.registrations, e)
  }

  // ------------------------------------------------------------ GET /api/admin/events

  /** An event row with the number of registrations it has. */
  datatype AdminRow = AdminRow(row: EventRow, registrationCount: nat)

  /** The number of registrations that refer to event `id`. */
  function RegistrationCount(regs: seq<Registration>, id: Id): (n: nat)
    ensures n <= |regs|
    ensures n == 0 <==> forall i :: 0 <= i < |regs| ==> regs[i].eventId != id
  {
    Count(regs, (r: Registration) => r.eventId == id)
  }

  /** The admin overview: every event, active or not, past or not, once per
      row of the table, each with its registration count, newest first. */
  function AdminEvents(s: Store): (r: seq<AdminRow>)
    ensures |r| == |s.events|
    ensures multiset(seq(|r|, i requires 0 <= i < |r| => r[i].row.event)) == multiset(s.events)
    ensures forall i :: 0 <= i < |r| ==>
      && r[i].row == Join(s, r[i].row.event)
      && r[i].registrationCount == RegistrationCount(s.registrations, r[i].row.event.id)
    ensures forall i, j :: 0 <= i < j < |r| ==> r[i].row.event.info.datetime >= r[j].row.event.info.datetime
  {
    var sorted := SortBy(s.events, NegatedEventTime);
    var r := seq(|sorted|, i requires 0 <= i < |sorted| =>
      AdminRow(Join(s, sorted[i]), RegistrationCount(s.registrations, sorted[i].id)));
    assert seq(|r|, i requires 0 <= i < |r| => r[i].row.event) == sorted;
    r
  }
}
