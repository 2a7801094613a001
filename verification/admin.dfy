/** The admin routes: the credential check and the create / update / delete
    lifecycle of events. */
module AdminRoutes {
  import opened Seqs
  import opened Store
  import opened Queries

  // ------------------------------------------------------------ POST /api/admin/login

  datatype Credentials = Credentials(username: Option<string>, password: Option<string>)

  /** The credential check: both fields must be given, and some admin row must
      match both by plain equality. No session is created. */
  function Login(s: Store, c: Credentials): (r: Reply<()>)
    ensures !Given(c.username) || !Given(c.password) ==> r == Err(MissingCredentials) && r.Status() == 400
    ensures Given(c.username) && Given(c.password) ==>
      (r.Ok? <==> exists i :: 0 <= i < |s.admins|
                    && s.admins[i].username == c.username.value
                    && s.admins[i].password == c.password.value)
    ensures r.Ok? ==> r.status == 200
    ensures Given(c.username) && Given(c.password) && r.Err? ==>
      r.failure == InvalidCredentials && r.Status() == 401
  {
    if !Given(c.username) || !Given(c.password) then Err(MissingCredentials)
    else if Admin(c.username.value, c.password.value) in s.admins then Ok(200, ())
    else Err(InvalidCredentials)
  }

  // ------------------------------------------------------------ POST /api/admin/events

  /** The body of a create request. A field the client did not send is
      `None`; a falsy value that was sent is kept (`Some(0)`, `Some("")`), and
      the presence check rejects it where the server does. */
  datatype EventInput = EventInput(
    name: Option<string>,
    description: Option<string>,
    datetime: Option<Timestamp>,
    location: Option<string>,
    ticketPrice: Option<Cents>,
    goalAmount: Option<Cents>,
    categoryId: Option<Id>,
    organizationId: Option<Id>)

  /** Name, datetime, location and a non-zero goal are required. */
  predicate CompleteInput(input: EventInput) {
    && Given(input.name)
    && input.datetime.Some?
    && Given(input.location)
    && input.goalAmount.Some? && input.goalAmount.value != 0
  }

  /** Column defaults of the `events` table for the two columns the insert
      leaves out. */
  const DefaultCurrentAmount: Cents := 0
  const DefaultActive: bool := true

  /** Creates an event under the next AUTO_INCREMENT key and replies 201 with
      that key. */
  function CreateEvent(s: Store, input: EventInput): (r: Step<Id>)
    ensures !CompleteInput(input) ==> r == Step(Err(MissingFields), s)
    ensures CompleteInput(input) ==>
      && r.reply == Ok(201, s.nextEventId)
      && r.store.events == s.events + [Event(s.nextEventId, EventInfo(
           input.name.value, input.description, input.datetime.value, input.location.value,
           input.ticketPrice, input.goalAmount.value, DefaultCurrentAmount,
           input.categoryId, input.organizationId, DefaultActive))]
      && r.store.nextEventId == s.nextEventId + 1
      && r.store.(events := s.events, nextEventId := s.nextEventId) == s
  {
    if !CompleteInput(input) then Step(Err(MissingFields), s)
    else
      var info := EventInfo(
        input.name.value, input.description, input.datetime.value, input.location.value,
        input.ticketPrice, input.goalAmount.value, DefaultCurrentAmount,
        input.categoryId, input.organizationId, DefaultActive);
      Step(Ok(201, s.nextEventId),
           s.(events := s.events + [Event(s.nextEventId, info)], nextEventId := s.nextEventId + 1))
  }

  lemma CreatePreservesValid(s: Store, input: EventInput)
    requires Valid(s)
    ensures Valid(CreateEvent(s, input).store)
  {
    var s' := CreateEvent(s, input).store;
    if CompleteInput(input) {
      var n := |s.events|;
      forall i, j | 0 <= i < j < |s'.events|
        ensures EventKey(s'.events[i]) != EventKey(s'.events[j])
      {
        if j < n {
          assert EventKey(s.events[i]) != EventKey(s.events[j]);
        } else {
          assert s'.events[i] == s.events[i];
        }
      }
      forall i | 0 <= i < |s'.registrations|
        ensures HasEvent(s'.events, s'.registrations[i].eventId)
      {
        var k :| 0 <= k < n && s.events[k].id == s.registrations[i].eventId;
        assert s'.events[k] == s.events[k];
      }
    }
  }

  /** A created event can be fetched under the key the reply carries, with the
      submitted fields and the column defaults. */
  lemma CreateThenGet(s: Store, input: EventInput)
    requires Valid(s)
    requires CompleteInput(input)
    ensures var step := CreateEvent(s, input);
      var got := GetEvent(step.store, step.reply.value);
      && got.Ok?
      && got.value.row.event.info.name == input.name.value
      && got.value.row.event.info.datetime == input.datetime.value
      && got.value.row.event.info.location == input.location.value
      && got.value.row.event.info.goalAmount == input.goalAmount.value
      && got.value.row.event.info.currentAmount == DefaultCurrentAmount
      && got.value.row.event.info.isActive == DefaultActive
  {
    var s' := CreateEvent(s, input).store;
    CreatePreservesValid(s, input);
    GetEventFindsRow(s', |s.events|);
  }

  // --------------------------------------------------------- PUT /api/admin/events/:id

  /** Overwrites all ten columns of the event with key `id`; 404 when no row
      has that key. */
  function UpdateEvent(s: Store, id: Id, info: EventInfo): (r: Step<()>)
    ensures !HasEvent(s.events, id) ==> r == Step(Err(EventNotFound), s)
    ensures HasEvent(s.events, id) ==>
      && r.reply == Ok(200, ())
      && |r.store.events| == |s.events|
      && (forall k :: 0 <= k < |s.events| && s.events[k].id == id ==> r.store.events[k] == Event(id, info))
      && (forall k :: 0 <= k < |s.events| && s.events[k].id != id ==> r.store.events[k] == s.events[k])
      && r.store.(events := s.events) == s
  {
    if !HasEvent(s.events, id) then Step(Err(EventNotFound), s)
    else Step(Ok(200, ()), s.(events := UpdateWhere(s.events, id, _ => info)))
  }

  lemma UpdatePreservesValid(s: Store, id: Id, info: EventInfo)
    requires Valid(s)
    ensures Valid(UpdateEvent(s, id, info).store)
  {
    if HasEvent(s.events, id) {
      UpdateWhereKeepsKeys(s, id, _ => info);
      assert UpdateEvent(s, id, info).store == s.(events := UpdateWhere(s.events, id, _ => info));
    }
  }

  /** A successful update followed by a fetch returns exactly the submitted
      values, `current_amount` and `is_active` included. */
  lemma UpdateThenGet(s: Store, id: Id, info: EventInfo)
    requires UpdateEvent(s, id, info).reply.Ok?
    ensures var got := GetEvent(UpdateEvent(s, id, info).store, id);
      got.Ok? && got.value.row.event == Event(id, info)
  {
    var s' := UpdateEvent(s, id, info).store;
    var got := GetEvent(s', id);
    var k :| 0 <= k < |s.events| && s.events[k].id == id;
    assert s'.events[k].id == id;
    assert got.Ok?;
    var i :| 0 <= i < |s'.events| && s'.events[i] == got.value.row.event;
    assert s.events[i].id == id;
  }

  // ------------------------------------------------------ DELETE /api/admin/events/:id

  /** Deletion of every event row with key `id`; every other row stays, as
      often as it was held. */
  function RemoveEvent(events: seq<Event>, id: Id): (r: seq<Event>)
    ensures forall e :: e in r <==> e in events && e.id != id
    ensures forall e :: multiset(r)[e] == if e.id == id then 0 else multiset(events)[e]
    ensures !HasEvent(r, id)
  {
    var r := Filter(events, (e: Event) => e.id != id);
    assert forall i :: 0 <= i < |r| ==> r[i] in r;
    r
  }

  /** Deletion is refused while registrations refer to the event; otherwise
      the event's row goes, or 404 when there was none. */
  function DeleteEvent(s: Store, id: Id): (r: Step<()>)
    ensures RegistrationCount(s.registrations, id) > 0 ==>
      r == Step(Err(HasRegistrations), s) && r.reply.Status() == 400
    ensures RegistrationCount(s.registrations, id) == 0 && !HasEvent(s.events, id) ==>
      r == Step(Err(EventNotFound), s)
    ensures RegistrationCount(s.registrations, id) == 0 && HasEvent(s.events, id) ==>
      && r.reply == Ok(200, ())
      && (forall e :: e in r.store.events <==> e in s.events && e.id != id)
      && (forall e :: multiset(r.store.events)[e] == if e.id == id then 0 else multiset(s.events)[e])
      && !HasEvent(r.store.events, id)
      && r.store.(events := s.events) == s
  {
    if RegistrationCount(s.registrations, id) > 0 then Step(Err(HasRegistrations), s)
    else if !HasEvent(s.events, id) then Step(Err(EventNotFound), s)
    else Step(Ok(200, ()), s.(events := RemoveEvent(s.events, id)))
  }

  /** Whatever the outcome, every registration still names an existing event. */
  lemma DeleteKeepsReferences(s: Store, id: Id)
    requires RegistrationsReferToEvents(s)
    ensures RegistrationsReferToEvents(DeleteEvent(s, id).store)
  {
    var s' := DeleteEvent(s, id).store;
    if DeleteEvent(s, id).reply.Ok? {
      forall i | 0 <= i < |s'.registrations|
        ensures HasEvent(s'.events, s'.registrations[i].eventId)
      {
        var reg := s.registrations[i];
        assert reg.eventId != id;
        var k :| 0 <= k < |s.events| && s.events[k].id == reg.eventId;
        assert s.events[k] in s'.events;
        var j :| 0 <= j < |s'.events| && s'.events[j] == s.events[k];
      }
    }
  }

  /** Removing rows keeps the event keys unique and below the counter. */
  lemma RemoveEventKeepsKeys(s: Store, id: Id)
    requires Valid(s)
    ensures UniqueBy(RemoveEvent(s.events, id), EventKey)
    ensures forall i :: 0 <= i < |RemoveEvent(s.events, id)| ==> RemoveEvent(s.events, id)[i].id < s.nextEventId
  {
    var r := RemoveEvent(s.events, id);
    FilterKeepsUnique(s.events, (e: Event) => e.id != id, EventKey);
    assert r == Filter(s.events, (e: Event) => e.id != id);
    forall i | 0 <= i < |r|
      ensures r[i].id < s.nextEventId
    {
      assert r[i] in s.events;
    }
  }

  lemma DeletePreservesValid(s: Store, id: Id)
    requires Valid(s)
    ensures Valid(DeleteEvent(s, id).store)
  {
    DeleteKeepsReferences(s, id);
    if DeleteEvent(s, id).reply.Ok? {
      RemoveEventKeepsKeys(s, id);
      assert DeleteEvent(s, id).store == s.(events := RemoveEvent(s.events, id));
    }
  }

  /** With unique keys, deleting a stored event removes exactly one row. */
  lemma {:induction false} RemoveEventLength(events: seq<Event>, id: Id)
    requires UniqueBy(events, EventKey)
    requires HasEvent(events, id)
    ensures |RemoveEvent(events, id)| == |events| - 1
    decreases |events|
  {
    var rest := events[1..];
    UniqueTail(events, EventKey);
    assert events == [events[0]] + rest;
    if events[0].id == id {
      assert forall i :: 0 <= i < |rest| ==> rest[i].id != id by {
        forall i | 0 <= i < |rest|
          ensures rest[i].id != id
        {
          assert rest[i] in rest;
        }
      }
      FilterKeepsAll(rest, (e: Event) => e.id != id);
    } else {
      var k :| 0 <= k < |events| && events[k].id == id;
      assert rest[k - 1].id == id;
      RemoveEventLength(rest, id);
    }
  }

  /** A successful delete lowers the number of events by one and leaves the
      number of registrations alone. */
  lemma DeleteRemovesOneRow(s: Store, id: Id)
    requires Valid(s)
    requires DeleteEvent(s, id).reply.Ok?
    ensures |DeleteEvent(s, id).store.events| == |s.events| - 1
    ensures DeleteEvent(s, id).store.registrations == s.registrations
  {
    RemoveEventLength(s.events, id);
  }

  /** After a successful delete the event can no longer be fetched. */
  lemma DeleteThenGet(s: Store, id: Id)
    requires DeleteEvent(s, id).reply.Ok?
    ensures GetEvent(DeleteEvent(s, id).store, id) == Err(EventNotFound)
  {
  }
}
