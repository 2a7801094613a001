/** `POST /api/registrations`: a visitor registers for an event, the
    registration row records the ticket price times the quantity, and the event's
    fundraising total is raised by the same amount. */
module Registrations {
  import opened Store

  /** The request body. A field the client did not send is `None`. */
  datatype Request = Request(
    eventId: Option<Id>,
    fullName: Option<string>,
    email: Option<string>,
    phone: Option<string>,
    ticketQuantity: Option<int>)

  /** The 201 reply: the new registration's id and the amount charged. */
  datatype Receipt = Receipt(registrationId: Id, totalAmount: Cents)

  /** The presence check: every field but the phone must be truthy, so an
      event id or ticket quantity of 0 counts as missing (a negative
      quantity does not). */
  predicate Complete(req: Request) {
    && req.eventId.Some? && req.eventId.value != 0
    && Given(req.fullName)
    && Given(req.email)
    && req.ticketQuantity.Some? && req.ticketQuantity.value != 0
  }

  /** The price charged per ticket: a NULL price (like a zero one) charges
      nothing. */
  function PriceOrZero(price: Option<Cents>): Cents {
    match price
    case Some(p) => p
    case None => 0
  }

  /** Handles one registration request atomically. `now` is the timestamp the
      store assigns to the new row; `creditFails` stands for a failure of the
      `current_amount` update, which is only logged: the reply is still 201
      but the event's total is not raised. */
  function Register(s: Store, req: Request, now: Timestamp, creditFails: bool): (r: Step<Receipt>)
    ensures !Complete(req) ==> r.reply == Err(MissingFields) && r.store == s
    ensures Complete(req) && !HasEvent(s.events, req.eventId.value) ==>
      r.reply == Err(EventNotFound) && r.store == s
    ensures (Complete(req) && HasEvent(s.events, req.eventId.value)
             && IsRegistered(s.registrations, req.eventId.value, req.email.value)) ==>
      r.reply == Err(AlreadyRegistered) && r.store == s
    ensures r.reply.Err? ==> r.store == s
    ensures r.reply.Ok? <==>
      && Complete(req)
      && HasEvent(s.events, req.eventId.value)
      && !IsRegistered(s.registrations, req.eventId.value, req.email.value)
    ensures r.reply.Ok? ==>
      var id := req.eventId.value;
      var receipt := r.reply.value;
      && r.reply.status == 201
      && receipt.registrationId == s.nextRegistrationId
      // the amount is the price of the event row the lookup found, times the quantity
      && (exists e :: e in s.events && e.id == id
            && receipt.totalAmount == PriceOrZero(e.info.ticketPrice) * req.ticketQuantity.value)
      // exactly one row is appended, recording the request and the amount
      && r.store.registrations == s.registrations + [Registration(
           s.nextRegistrationId, id, req.fullName.value, req.email.value, req.phone,
           req.ticketQuantity.value, receipt.totalAmount, now)]
      && r.store.nextRegistrationId == s.nextRegistrationId + 1
      // the event rows keep their keys; only the registered event's total moves
      && |r.store.events| == |s.events|
      && (forall k :: 0 <= k < |s.events| ==> r.store.events[k].id == s.events[k].id)
      && (forall k :: 0 <= k < |s.events| && s.events[k].id != id ==> r.store.events[k] == s.events[k])
      && (forall k :: 0 <= k < |s.events| && s.events[k].id == id ==>
            r.store.events[k].info == s.events[k].info.(currentAmount :=
              s.events[k].info.currentAmount + (if creditFails then 0 else receipt.totalAmount)))
      // the other tables and the event counter are untouched
      && r.store.admins == s.admins
      && r.store.categories == s.categories
      && r.store.organizations == s.organizations
      && r.store.nextEventId == s.nextEventId
  {
    if !Complete(req) then Step(Err(MissingFields), s)
    else
      var id := req.eventId.value;
      match Lookup(s.events, id)
      case None => Step(Err(EventNotFound), s)
      case Some(event) =>
        var total := PriceOrZero(event.info.ticketPrice) * req.ticketQuantity.value;
        if IsRegistered(s.registrations, id, req.email.value) then Step(Err(AlreadyRegistered), s)
        else
          var row := Registration(
            s.nextRegistrationId, id, req.fullName.value, req.email.value, req.phone,
            req.ticketQuantity.value, total, now);
          var events := if creditFails then s.events else UpdateWhere(s.events, id, Credited(total));
          Step(Ok(201, Receipt(row.id, total)),
               s.(events := events,
                  registrations := s.registrations + [row],
                  nextRegistrationId := s.nextRegistrationId + 1))
  }

  /** Registration keeps the store invariant: in particular the new row
      refers to an existing event and its (event, email) pair is new. */
  lemma RegisterPreservesValid(s: Store, req: Request, now: Timestamp, creditFails: bool)
    requires Valid(s)
    ensures Valid(Register(s, req, now, creditFails).store)
  {
    var r := Register(s, req, now, creditFails);
    if r.reply.Ok? {
      var id := req.eventId.value;
      var total := r.reply.value.totalAmount;
      var s1 := if creditFails then s else s.(events := UpdateWhere(s.events, id, Credited(total)));
      if !creditFails {
        UpdateWhereKeepsKeys(s, id, Credited(total));
      }
      assert Valid(s1);
      assert s1.events == r.store.events;
      var regs := r.store.registrations;
      var row := regs[|regs| - 1];
      assert regs == s.registrations + [row];
      forall i, j | 0 <= i < j < |regs|
        ensures RegistrationKey(regs[i]) != RegistrationKey(regs[j])
      {
        if j < |regs| - 1 {
          assert RegistrationKey(s.registrations[i]) != RegistrationKey(s.registrations[j]);
        }
      }
      forall i, j | 0 <= i < j < |regs|
        ensures regs[i].eventId != regs[j].eventId || regs[i].email != regs[j].email
      {
        if j == |regs| - 1 {
          assert regs[i] == s.registrations[i];
        }
      }
      forall i | 0 <= i < |regs|
        ensures HasEvent(r.store.events, regs[i].eventId)
      {
        if i < |regs| - 1 {
          assert regs[i] == s.registrations[i];
          assert HasEvent(s1.events, s.registrations[i].eventId);
        }
      }
    }
  }

  /** In a valid store the charged amount is the registered event's own price
      times the quantity, and that event's total rises by exactly that amount
      (unless the update failed). */
  lemma RegisterChargesPrice(s: Store, req: Request, now: Timestamp, creditFails: bool, k: nat)
    requires Valid(s)
    requires Register(s, req, now, creditFails).reply.Ok?
    requires k < |s.events| && s.events[k].id == req.eventId.value
    ensures var r := Register(s, req, now, creditFails);
      && r.reply.value.totalAmount == PriceOrZero(s.events[k].info.ticketPrice) * req.ticketQuantity.value
      && r.store.events[k].info.currentAmount ==
           s.events[k].info.currentAmount + (if creditFails then 0 else r.reply.value.totalAmount)
  {
    LookupUnique(s.events, req.eventId.value, k);
  }

  /** Sending the same request again after it succeeded is refused as a
      duplicate and changes nothing, whatever the new timestamp. */
  lemma RegisterTwiceRefused(s: Store, req: Request, now: Timestamp, creditFails: bool,
                             later: Timestamp, laterFails: bool)
    requires Register(s, req, now, creditFails).reply.Ok?
    ensures var s' := Register(s, req, now, creditFails).store;
      Register(s', req, later, laterFails) == Step(Err(AlreadyRegistered), s')
  {
    var s' := Register(s, req, now, creditFails).store;
    var id := req.eventId.value;
    var k :| 0 <= k < |s.events| && s.events[k].id == id;
    assert s'.events[k].id == id;
    assert HasEvent(s'.events, id);
    var last := |s'.registrations| - 1;
    assert s'.registrations[last].eventId == id && s'.registrations[last].email == req.email.value;
  }

  /** The uniqueness of (event, email) pairs on its own: a registration
      sequence without duplicate pairs stays so. */
  lemma RegisterKeepsOnePerEmail(s: Store, req: Request, now: Timestamp, creditFails: bool)
    requires OneRegistrationPerEmail(s.registrations)
    ensures OneRegistrationPerEmail(Register(s, req, now, creditFails).store.registrations)
  {
    var regs := Register(s, req, now, creditFails).store.registrations;
    if regs != s.registrations {
      forall i, j | 0 <= i < j < |regs|
        ensures regs[i].eventId != regs[j].eventId || regs[i].email != regs[j].email
      {
        assert regs[i] == s.registrations[i];
        if j < |s.registrations| {
          assert regs[j] == s.registrations[j];
        }
      }
    }
  }

  /** With a non-negative price and a positive quantity, registering never
      lowers the event's running total. */
  lemma RegisterNeverLowersTotal(s: Store, req: Request, now: Timestamp, creditFails: bool, k: nat)
    requires Valid(s)
    requires Register(s, req, now, creditFails).reply.Ok?
    requires k < |s.events| && s.events[k].id == req.eventId.value
    requires PriceOrZero(s.events[k].info.ticketPrice) >= 0 && req.ticketQuantity.value > 0
    ensures Register(s, req, now, creditFails).store.events[k].info.currentAmount >= s.events[k].info.currentAmount
  {
    RegisterChargesPrice(s, req, now, creditFails, k);
    ProductNonNegative(PriceOrZero(s.events[k].info.ticketPrice), req.ticketQuantity.value);
  }

  lemma ProductNonNegative(a: int, b: int)
    requires a >= 0 && b > 0
    ensures a * b >= 0
  {
  }

  /** The presence check only rejects a quantity of 0: a negative quantity is
      accepted, charges a negative amount and lowers the running total. */
  lemma NegativeQuantityLowersTotal()
    ensures var e := Event(1, EventInfo("Run", None, 0, "Park", Some(1000), 100000, 5000, None, None, true));
      var s := Store([e], [], [], map[], map[], 2, 1);
      var step := Register(s, Request(Some(1), Some("Ann"), Some("ann@example.org"), None, Some(-2)), 0, false);
      && step.reply == Ok(201, Receipt(1, -2000))
      && step.store.events[0].info.currentAmount == 3000
  {
    var e := Event(1, EventInfo("Run", None, 0, "Park", Some(1000), 100000, 5000, None, None, true));
    var s := Store([e], [], [], map[], map[], 2, 1);
    assert s.events[0].id == 1;
    assert !IsRegistered(s.registrations, 1, "ann@example.org");
  }
}
