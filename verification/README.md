# Charity events server — a Dafny model

This project models the request handlers of the charity-events web server
(`server.js`). The server lists and searches fundraising events, takes
registrations that raise an event's running total, and gives an
administrator a credential check, create / update / delete of events and a
statistics summary.

Each handler is modelled as a pure function from the store and the request to
a reply, and, for the writing handlers, the store afterwards. Requests are
atomic.

- `seqs.dfy` (`Seqs`): the relational operators the SQL uses, on sequences:
  filtering, a stable insertion sort proved to be an ordered permutation,
  sums, counts, and key uniqueness.
- `store.dfy` (`Store`): the store.
  - It holds the `events`, `registrations` and `admins` tables as sequences
    of rows.
  - The `categories` and `organizations` tables are maps from key to row.
  - It also holds the two AUTO_INCREMENT counters.
  - Replies carry an HTTP status. A failure is one of six kinds, each with
    the status the server sends.
  - `Valid` is the store invariant:
    - event keys and registration keys are unique and below their counters;
    - every registration names an existing event;
    - no (event, email) pair is registered twice.
- `registration.dfy` (`Registrations`): `POST /api/registrations`.
- `queries.dfy` (`Queries`): the public listing, search, event detail, an
  event's registrations, and the admin overview with registration counts.
- `admin.dfy` (`AdminRoutes`): login, and create / update / delete of events.
- `stats.dfy` (`Statistics`): the statistics reply, including its double
  count of registration money.

Representation choices:
- Money is held in integer cents. `Math.round` becomes round-half-up to
  whole units.
- Datetimes are integer seconds. `Day` is their calendar day, with 86400
  seconds to a day.
- The server's current date (`today`) and the registration timestamp (`now`)
  are parameters.
- A request field that the client left out is `None`. A falsy value that
  was sent is kept (`Some(0)`, `Some("")`). The presence checks reject an
  empty string or a zero id, quantity or goal where the server's `!x` does;
  an optional field keeps the sent value, so a sent price of 0 is stored as 0
  and a sent empty description as the empty string. An empty search filter
  adds no condition, as the server's `if (x)` does.
- The one store failure the server tolerates is modelled as a flag,
  `creditFails`. It is the update of `current_amount` after a registration,
  which is only logged. With the flag set, the reply is still 201 but the
  running total is not raised.

Behaviour of the code that a reader might not expect, which the model keeps:
- An unfiltered search returns every active event, past ones included. It is
  therefore not the same set as the public listing, which also requires the
  event to be dated today or later. `Queries.ListingWithinSearch` proves one
  inclusion. `Queries.PastEventOnlySearched` gives an event that shows the
  two differ.
- Registration does not check that the event is active or upcoming.
- The presence check only rejects a ticket quantity of 0. A negative quantity
  is accepted, charges a negative amount and lowers the event's running
  total. `Registrations.NegativeQuantityLowersTotal` gives such a request. So
  "the running total never decreases except by an admin edit" holds only for
  non-negative prices and positive quantities
  (`Registrations.RegisterNeverLowersTotal`).
- The update route requires none of its fields. The model's update takes a
  complete row; see "Left out".

The database schema is not part of this model. The create route leaves out
`current_amount` and `is_active`. The model assumes the column defaults 0
and `TRUE` for them (`AdminRoutes.DefaultCurrentAmount`,
`AdminRoutes.DefaultActive`).

## Model

| member | source | states |
|---|---|---|
| `Seqs.SortBy` | server.js:25 | ORDER BY: the result is ordered by the key and is a permutation of the input (same multiset) |
| `Store.Lookup` | server.js:113-115 | the event lookup finds a row with the requested key exactly when one exists, and reports none otherwise |
| `Store.LookupUnique` | server.js:113-117 | with unique event keys, the row found is the only row with that key |
| `Registrations.Register` | server.js:108-152 | a missing required field (or a zero id or quantity) gives 400 with the store unchanged; an unknown event gives 404 with the store unchanged; an existing (event, email) pair gives 400 with the store unchanged. Otherwise the reply is 201 with the next registration id. The amount is price (NULL as 0) times quantity. Exactly one row recording the request and amount is appended. Only the rows of that event change, by `current_amount + amount` (unless the update failed). Every other table is untouched |
| `Registrations.RegisterPreservesValid` | server.js:121-147 | registration keeps the store invariant: unique keys, every registration names an existing event, at most one registration per (event, email) |
| `Registrations.RegisterKeepsOnePerEmail` | server.js:121-131 | the duplicate check alone keeps "at most one registration per (event, email)" |
| `Registrations.RegisterChargesPrice` | server.js:117-140 | in a valid store the amount is that event's own price times the quantity, and its running total rises by exactly that amount |
| `Registrations.RegisterTwiceRefused` | server.js:121-124 | repeating a successful registration request is refused as already registered and adds no row |
| `Registrations.RegisterNeverLowersTotal` | server.js:117-140 | with a non-negative price and a positive quantity the running total does not decrease |
| `Registrations.NegativeQuantityLowersTotal` | server.js:110-140 | a quantity of -2 at price 10.00 passes the presence check, is charged -20.00 and lowers the running total from 50.00 to 30.00 |
| `Queries.ListEvents` | server.js:17-31 | the listing holds exactly the active events dated today or later, each as often as the table holds it, joined with its category and organisation names, in ascending datetime order |
| `Queries.Search` | server.js:52-71 | the search holds exactly the events that are active and satisfy every filter present (calendar day, location substring, category), each as often as the table holds it, joined with their names, in ascending datetime order |
| `Queries.SearchWithoutFilters` | server.js:54-65 | with no filters the search returns every active event, past ones included |
| `Queries.DateFilterConjoins` | server.js:62 | adding a date filter keeps exactly the rows of the broader search dated that day |
| `Queries.LocationFilterConjoins` | server.js:63 | adding a location filter keeps exactly the rows of the broader search whose location contains it |
| `Queries.CategoryFilterConjoins` | server.js:64 | adding a category filter keeps exactly the rows of the broader search with that category |
| `Queries.ListingWithinSearch` | server.js:19-65 | every event of the public listing is found by an unfiltered search |
| `Queries.PastEventOnlySearched` | server.js:24 | an active event dated before today is found by the unfiltered search but not listed |
| `Queries.GetEvent` | server.js:74-89 | the detail is 404 exactly when no event has the key; otherwise it is 200 with a stored event of that key, joined with its names |
| `Queries.GetEventFindsRow` | server.js:82-87 | in a valid store the detail of a stored event's key is that event |
| `Queries.RegistrationsOf` | server.js:94-99 | the registration rows of an event are exactly its registrations, each as often as the table holds it (so once under unique keys), each carrying the event's name and ticket price, newest first |
| `Queries.EventRegistrations` | server.js:92-105 | the registrations route returns only registrations of the requested event; when the event exists, each of its registrations as often as the table holds it; none when it does not; newest first |
| `Queries.RegistrationCount` | server.js:225-228 | the count is zero exactly when no registration refers to the event, and never exceeds the number of registrations |
| `Queries.AdminEvents` | server.js:172-187 | the admin overview holds every event, active or not, as a permutation of the table. Each row is joined with its names and carries that event's registration count. Rows are in descending datetime order |
| `AdminRoutes.Login` | server.js:157-169 | a missing username or password gives 400; otherwise 200 exactly when some admin row matches both, and 401 when none does |
| `AdminRoutes.CreateEvent` | server.js:190-204 | a missing name, datetime, location or zero goal gives 400 with the store unchanged; otherwise 201 with the next event key, one row appended with the submitted fields and the column defaults, nothing else changed |
| `AdminRoutes.CreatePreservesValid` | server.js:195-202 | creating an event keeps the store invariant |
| `AdminRoutes.CreateThenGet` | server.js:195-202 | a created event is fetched under the returned key with the submitted name, datetime, location and goal, a zero running total, and active |
| `AdminRoutes.UpdateEvent` | server.js:207-220 | an unknown key gives 404 with the store unchanged; otherwise 200. The row with the key then holds exactly the ten submitted fields; other events and all other tables are unchanged |
| `AdminRoutes.UpdatePreservesValid` | server.js:210-218 | updating an event keeps the store invariant |
| `AdminRoutes.UpdateThenGet` | server.js:209-218 | after a successful update, fetching the event returns exactly the submitted values, running total and active flag included |
| `AdminRoutes.RemoveEvent` | server.js:231 | the delete statement keeps exactly the events with a different key, each as often as before, and none with the key |
| `AdminRoutes.DeleteEvent` | server.js:223-237 | with registrations referring to the event the reply is 400 and the store is unchanged (the event remains). Without them: an unknown key gives 404 with the store unchanged; otherwise 200, the event is gone, every other event remains as often as before and no other table changes |
| `AdminRoutes.RemoveEventKeepsKeys` | server.js:231 | the delete keeps event keys unique and below the AUTO_INCREMENT counter |
| `AdminRoutes.RemoveEventLength` | server.js:231 | with unique keys, deleting a stored key removes exactly one row |
| `AdminRoutes.DeleteRemovesOneRow` | server.js:231-235 | in a valid store a successful delete lowers the event count by one and leaves the registrations alone |
| `AdminRoutes.DeleteThenGet` | server.js:231-234 | after a successful delete, fetching the event gives 404 |
| `AdminRoutes.DeleteKeepsReferences` | server.js:225-234 | whatever the outcome of a delete, every registration still names an existing event |
| `AdminRoutes.DeletePreservesValid` | server.js:223-237 | deleting an event keeps the whole store invariant |
| `Statistics.Round` | server.js:261-262 | rounding gives the whole unit nearest to the amount, halves going up |
| `Statistics.RoundsToUnique` | server.js:261-262 | an amount rounds to one whole unit only, so the rounding relation determines the result |
| `Statistics.GetStats` | server.js:240-269 | the reply is 200 and counts the events and the registrations; its donation total is the rounded sum of all running totals plus the separately rounded sum of all registration amounts, and so lies within one unit of the unrounded total |
| `Statistics.CreditRaisesSum` | server.js:135-140 | crediting the single event with a key raises the sum of running totals by exactly the credited amount |
| `Statistics.RegistrationCountedTwice` | server.js:253-263 | a successful registration raises the unrounded donation total by twice its amount (once if the running-total update failed): registration money is counted twice |
| `Statistics.StatsScenario` | server.js:244-265 | an event holding 500.40 and a registration of 120.00 give 2 events, 1 registration and 620 donations |
| `Statistics.StatsRoundSeparately` | server.js:261-263 | each partial sum is rounded on its own: 0.50 plus 0.50 reports 2 where rounding the whole would give 1 |

## Left out

- Express wiring is not modelled: CORS, JSON parsing, static files and
  `listen` (server.js:1-12, 271). They are plumbing.
- `event_db.js` is not part of this model. It only opens the database
  connection.
- The browser scripts under `public/` are not modelled. They only fetch JSON
  and build pages.
- `GET /api/categories` and `GET /api/organizations` are not modelled. They
  return the reference tables ordered by name under the database's string
  collation, which the model does not represent. Categories and
  organisations enter the model only as the names joined into event rows.
- Every 500 reply for a store error is left out. The only store failure
  modelled is the tolerated `current_amount` update.
- Concurrency is left out, because each request is modelled as atomic. This
  leaves out the duplicate registrations that interleaved check-then-insert
  requests can admit. It also leaves out lost updates to `current_amount`.
- Floating-point money is left out, because amounts are integer cents.
- Time zones and string date formatting are left out, because datetimes are
  seconds and days are a projection of them. This covers `toISOString`,
  `DATE()`, and the comparison of a datetime with a date string.
- Case-insensitive `LIKE` and collation-based string equality are left out,
  because strings are compared exactly. This covers the location filter, the
  email duplicate check and the login.
- JavaScript's coercion of request strings to numbers is left out, because
  request fields arrive already typed.
- Fractional ticket quantities are left out, because a quantity is an
  integer. The presence check (server.js:110) accepts a quantity such as 1.5,
  and server.js:118 then charges the price times 1.5.
- `LIKE` wildcards inside the location filter are left out. server.js:63
  wraps the user's text in `%` without escaping it, so a `%` or `_` in that
  text matches any characters (`a_c` matches "abc"). `Queries.Contains`
  accepts only a literal substring.
- Ordering among rows with equal datetimes is left out. ORDER BY leaves it
  open, and the contracts state only the order of the keys.
- `AdminRoutes.UpdateEvent` takes a complete row. A field left out of the
  request becomes NULL in the server. The nullable columns (description,
  price, category, organisation) are modelled, but a NULL in a required
  column is a store error (500) and is not.
- `Queries.GetEvent`: the contract does not state the organisation
  description and contact fields of the detail reply. The function copies
  them from the joined organisation row.
