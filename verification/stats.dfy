/** `GET /api/admin/stats`: three aggregates over the store. The donation
    total adds the rounded sum of the events' running totals to the rounded
    sum of the registrations' amounts; since every successful registration
    also raised its event's running total, registration money is counted
    twice. The model keeps that behaviour. */
module Statistics {
  import opened Seqs
  import opened Store
  import opened Registrations

  const CentsPerUnit: int := 100

  /** `r` is `Math.round` of the amount `c` cents: the whole unit within half
      a unit of it, a half going towards positive infinity. */
  predicate RoundsTo(c: Cents, r: int) {
    CentsPerUnit * r - CentsPerUnit / 2 <= c < CentsPerUnit * r + CentsPerUnit / 2
  }

  /** Each amount rounds to one whole unit only. */
  lemma RoundsToUnique(c: Cents, a: int, b: int)
    requires RoundsTo(c, a) && RoundsTo(c, b)
    ensures a == b
  {
    assert CentsPerUnit * (a - b) < CentsPerUnit;
    assert CentsPerUnit * (b - a) < CentsPerUnit;
  }

  /** `Math.round` of an amount held in cents. */
  function Round(c: Cents): (r: int)
    ensures RoundsTo(c, r)
  {
    (c + CentsPerUnit / 2) / CentsPerUnit
  }

  datatype Stats = Stats(totalEvents: nat, totalRegistrations: nat, totalDonations: int)

  /** The sum of all events' running totals. */
  function EventDonations(s: Store): Cents {
    Sum(s.events, CurrentAmount)
  }

  /** The sum of all registrations' amounts. */
  function RegistrationDonations(s: Store): Cents {
    Sum(s.registrations, TotalAmount)
  }

  /** The statistics reply: the two row counts and the donation total in
      whole units, each partial sum rounded on its own. */
  function GetStats(s: Store): (r: Reply<Stats>)
    ensures r.Ok? && r.status == 200
    ensures r.value.totalEvents == |s.events|
    ensures r.value.totalRegistrations == |s.registrations|
    ensures exists a, b :: RoundsTo(EventDonations(s), a) && RoundsTo(RegistrationDonations(s), b)
                           && r.value.totalDonations == a + b
    ensures CentsPerUnit * r.value.totalDonations - CentsPerUnit
              <= EventDonations(s) + RegistrationDonations(s)
              < CentsPerUnit * r.value.totalDonations + CentsPerUnit
  {
    Ok(200, Stats(|s.events|, |s.registrations|,
                  Round(EventDonations(s)) + Round(RegistrationDonations(s))))
  }

  lemma UpdateWhereAbsent(events: seq<Event>, id: Id, f: EventInfo -> EventInfo)
    requires !HasEvent(events, id)
    ensures UpdateWhere(events, id, f) == events
  {
  }

  /** Crediting the one event with key `id` raises the sum of running totals
      by exactly the credited amount. */
  lemma {:induction false} CreditRaisesSum(events: seq<Event>, id: Id, amount: Cents)
    requires UniqueBy(events, EventKey)
    requires HasEvent(events, id)
    ensures Sum(UpdateWhere(events, id, Credited(amount)), CurrentAmount) == Sum(events, CurrentAmount) + amount
    decreases |events|
  {
    var updated := UpdateWhere(events, id, Credited(amount));
    var rest := events[1..];
    UniqueTail(events, EventKey);
    assert updated[1..] == UpdateWhere(rest, id, Credited(amount));
    if events[0].id == id {
      assert !HasEvent(rest, id) by {
        forall k | 0 <= k < |rest|
          ensures rest[k].id != id
        {
          assert rest[k] in rest;
        }
      }
      UpdateWhereAbsent(rest, id, Credited(amount));
    } else {
      var k :| 0 <= k < |events| && events[k].id == id;
      assert rest[k - 1].id == id;
      CreditRaisesSum(rest, id, amount);
    }
  }

  /** The double count: a successful registration raises the unrounded
      donation total by twice its amount, once through the event's running
      total and once through its own row (only once if the running-total
      update failed). */
  lemma RegistrationCountedTwice(s: Store, req: Request, now: Timestamp, creditFails: bool)
    requires Valid(s)
    requires Register(s, req, now, creditFails).reply.Ok?
    ensures var step := Register(s, req, now, creditFails);
      var amount := step.reply.value.totalAmount;
      EventDonations(step.store) + RegistrationDonations(step.store)
        == EventDonations(s) + RegistrationDonations(s) + (if creditFails then amount else 2 * amount)
  {
    var step := Register(s, req, now, creditFails);
    var amount := step.reply.value.totalAmount;
    var row := step.store.registrations[|s.registrations|];
    SumAppend(s.registrations, [row], TotalAmount);
    assert step.store.registrations == s.registrations + [row];
    assert Sum([row], TotalAmount) == amount;
    if !creditFails {
      assert step.store.events == UpdateWhere(s.events, req.eventId.value, Credited(amount));
      CreditRaisesSum(s.events, req.eventId.value, amount);
    }
  }

  /** The scenario of an event holding 500.40 with no registrations and a
      registration of 120.00 for another event: the reply is 620. */
  lemma StatsScenario()
    ensures var info := EventInfo("Run", None, 0, "Park", None, 100000, 0, None, None, true);
      var s := Store(
        [Event(1, info.(currentAmount := 50040)), Event(2, info)],
        [Registration(1, 2, "Ann", "ann@example.org", None, 1, 12000, 0)],
        [], map[], map[], 3, 2);
      GetStats(s) == Ok(200, Stats(2, 1, 620))
  {
    var info := EventInfo("Run", None, 0, "Park", None, 100000, 0, None, None, true);
    var s := Store(
      [Event(1, info.(currentAmount := 50040)), Event(2, info)],
      [Registration(1, 2, "Ann", "ann@example.org", None, 1, 12000, 0)],
      [], map[], map[], 3, 2);
    assert s.events[1..] == [Event(2, info)] && s.events[1..][1..] == [];
    assert Sum(s.events[1..], CurrentAmount) == 0;
    assert EventDonations(s) == 50040;
    assert s.registrations[1..] == [];
    assert RegistrationDonations(s) == 12000;
    assert Round(50040) == 500 && Round(12000) == 120;
  }

  /** Each partial sum is rounded before the two are added: 0.50 of event
      money and 0.50 of registration money report 2, not 1. */
  lemma StatsRoundSeparately()
    ensures var info := EventInfo("Run", None, 0, "Park", None, 100000, 50, None, None, true);
      var s := Store(
        [Event(1, info)],
        [Registration(1, 1, "Ann", "ann@example.org", None, 1, 50, 0)],
        [], map[], map[], 2, 2);
      && GetStats(s).value.totalDonations == 2
      && Round(EventDonations(s) + RegistrationDonations(s)) == 1
  {
    var info := EventInfo("Run", None, 0, "Park", None, 100000, 50, None, None, true);
    var s := Store(
      [Event(1, info)],
      [Registration(1, 1, "Ann", "ann@example.org", None, 1, 50, 0)],
      [], map[], map[], 2, 2);
    assert s.events[1..] == [] && s.registrations[1..] == [];
    assert Sum(s.events[1..], CurrentAmount) == 0;
    assert EventDonations(s) == 50;
    assert RegistrationDonations(s) == 50;
    assert Round(50) == 1 && Round(100) == 1;
  }
}
