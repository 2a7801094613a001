/** The relational store behind the charity-events server: the `events`,
    `registrations` and `admins` tables as sequences of rows, the
    `categories` and `organizations` reference tables as maps from their
    primary key, and the two AUTO_INCREMENT counters. Money is held in
    integer cents and datetimes in integer seconds. */
module Store {
  import opened Seqs

  datatype Option<T> = None | Some(value: T)

  type Id = nat
  type Cents = int
  type Timestamp = int

  const SecondsPerDay: int := 86400

  /** The calendar day of a datetime, as SQL DATE() projects it. */
  function Day(t: Timestamp): int {
    t / SecondsPerDay
  }

  /** The columns of an `events` row other than its primary key: the ten
      fields the admin update overwrites. */
  datatype EventInfo = EventInfo(
    name: string,
    description: Option<string>,
    datetime: Timestamp,
    location: string,
    ticketPrice: Option<Cents>,
    goalAmount: Cents,
    currentAmount: Cents,
    categoryId: Option<Id>,
    organizationId: Option<Id>,
    isActive: bool)

  datatype Event = Event(id: Id, info: EventInfo)

  datatype Registration = Registration(
    id: Id,
    eventId: Id,
    fullName: string,
    email: string,
    phone: Option<string>,
    ticketQuantity: int,
    totalAmount: Cents,
    registeredAt: Timestamp)

  datatype Organization = Organization(
    name: string,
    description: Option<string>,
    contactDetails: Option<string>)

  datatype Admin = Admin(username: string, password: string)

  datatype Store = Store(
    events: seq<Event>,
    registrations: seq<Registration>,
    admins: seq<Admin>,
    categories: map<Id, string>,
    organizations: map<Id, Organization>,
    nextEventId: Id,
    nextRegistrationId: Id)

  /** The error replies of the handlers, each with its HTTP status. */
  datatype Failure =
    | MissingFields
    | EventNotFound
    | AlreadyRegistered
    | HasRegistrations
    | MissingCredentials
    | InvalidCredentials
  {
    function Status(): int {
      match this
      case EventNotFound => 404
      case InvalidCredentials => 401
      case _ => 400
    }
  }

  /** A handler's reply: a success status with its payload, or a failure. */
  datatype Reply<T> = Ok(status: int, value: T) | Err(failure: Failure) {
    function Status(): int {
      if Ok? then status else failure.Status()
    }
  }

  /** A request handled atomically: the reply and the store afterwards. */
  datatype Step<T> = Step(reply: Reply<T>, store: Store)

  /** A string field counts as given when it is present and non-empty
      (JavaScript treats the empty string as false). */
  predicate Given(s: Option<string>) {
    s.Some? && s.value != ""
  }

  function EventKey(e: Event): int { e.id }

  function RegistrationKey(r: Registration): int { r.id }

  function CurrentAmount(e: Event): int { e.info.currentAmount }

  function TotalAmount(r: Registration): int { r.totalAmount }

  predicate HasEvent(events: seq<Event>, id: Id) {
    exists i :: 0 <= i < |events| && events[i].id == id
  }

  /** The first event row with key `id`, if any. */
  function Lookup(events: seq<Event>, id: Id): (r: Option<Event>)
    ensures r.None? <==> !HasEvent(events, id)
    ensures r.Some? ==> r.value.id == id
    ensures r.Some? ==> exists i :: 0 <= i < |events| && events[i] == r.value
  {
    if |events| == 0 then None
    else if events[0].id == id then Some(events[0])
    else
      assert forall i :: 1 <= i < |events| ==> events[i] == events[1..][i - 1];
      Lookup(events[1..], id)
  }

  /** An update of the events table keyed by `id`: applies `f` to the
      columns of every row with that key and leaves the other rows alone. */
  function UpdateWhere(events: seq<Event>, id: Id, f: EventInfo -> EventInfo): seq<Event> {
    seq(|events|, k requires 0 <= k < |events| =>
      if events[k].id == id then events[k].(info := f(events[k].info)) else events[k])
  }

  /** Adds `amount` to an event's running total. */
  function Credited(amount: Cents): EventInfo -> EventInfo {
    (info: EventInfo) => info.(currentAmount := info.currentAmount + amount)
  }

  /** Some registration already pairs this event with this email. */
  predicate IsRegistered(regs: seq<Registration>, eventId: Id, email: string) {
    exists i :: 0 <= i < |regs| && regs[i].eventId == eventId && regs[i].email == email
  }

  /** Every registration names an event that exists. */
  predicate RegistrationsReferToEvents(s: Store) {
    forall i :: 0 <= i < |s.registrations| ==> HasEvent(s.events, s.registrations[i].eventId)
  }

  /** At most one registration per (event, email) pair. */
  predicate OneRegistrationPerEmail(regs: seq<Registration>) {
    forall i, j :: 0 <= i < j < |regs| ==>
      regs[i].eventId != regs[j].eventId || regs[i].email != regs[j].email
  }

  /** The store invariant: primary keys are unique and below their
      AUTO_INCREMENT counters, registrations refer to existing events, and
      no (event, email) pair is registered twice. */
  ghost predicate Valid(s: Store) {
    && UniqueBy(s.events, EventKey)
    && UniqueBy(s.registrations, RegistrationKey)
    && (forall i :: 0 <= i < |s.events| ==> s.events[i].id < s.nextEventId)
    && (forall i :: 0 <= i < |s.registrations| ==> s.registrations[i].id < s.nextRegistrationId)
    && RegistrationsReferToEvents(s)
    && OneRegistrationPerEmail(s.registrations)
  }

  /** Under unique keys, the row `Lookup` finds is the only row with that key. */
  lemma LookupUnique(events: seq<Event>, id: Id, k: nat)
    requires UniqueBy(events, EventKey)
    requires k < |events| && events[k].id == id
    ensures Lookup(events, id) == Some(events[k])
  {
    assert HasEvent(events, id);
    var i :| 0 <= i < |events| && events[i] == Lookup(events, id).value;
    if i != k {
      if i < k {
        assert EventKey(events[i]) != EventKey(events[k]);
      } else {
        assert EventKey(events[k]) != EventKey(events[i]);
      }
    }
  }

  /** `UpdateWhere` never changes which keys the table holds. */
  lemma UpdateWhereKeepsKeys(s: Store, id: Id, f: EventInfo -> EventInfo)
    requires Valid(s)
    ensures Valid(s.(events := UpdateWhere(s.events, id, f)))
  {
    var events := UpdateWhere(s.events, id, f);
    var s' := s.(events := events);
    forall i, j | 0 <= i < j < |events|
      ensures EventKey(events[i]) != EventKey(events[j])
    {
      assert EventKey(s.events[i]) != EventKey(s.events[j]);
    }
    forall i | 0 <= i < |s.registrations|
      ensures HasEvent(events, s.registrations[i].eventId)
    {
      var k :| 0 <= k < |s.events| && s.events[k].id == s.registrations[i].eventId;
      assert events[k].id == s.events[k].id;
    }
  }
}
