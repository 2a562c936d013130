# Restaurant table reservations: a Dafny model

The service manages restaurant tables and time-bounded reservations of them
through a small HTTP API: create, list with filters, read and delete tables;
create, list with filters and delete reservations. Its one piece of real logic
is the reservation-conflict check. It wraps the creation of a reservation,
loads every stored reservation of the same table, and answers 409 ("Время
брони пересекается с существующей бронью") when the candidate's time range
intersects one of them. The candidate's range is shrunk by a second at each
end, so back-to-back bookings are accepted.

This project models that check, the list filters and the store operations,
and proves what they guarantee. The central results:

- With whole seconds and durations of at least one minute, the shrunk-against-naive
  test is exactly "the half-open windows [t, t + 60 d) and [e, e + 60 de)
  share a second" (`Utils.ConflictIffOverlap`). So touching bookings pass and
  a one-second overlap is refused.
- The test is symmetric (`Utils.ConflictSymmetric`). Hence every successful
  create keeps the reservations of each table pairwise free of conflicts
  (`Utils.AcceptPreservesNoConflicts`). This is part of the session invariant
  `Db.Session.Valid` that every route preserves. The invariant covers the
  reservations that name a table. Deleting a table sets its reservations'
  `table_id` to null without any check, so reservations without a table may
  overlap (`Scenarios.DetachingCanMakeNullRowsOverlap`).
- Each listing equals a single order-preserving filter by a reference
  predicate stated on the enum member and the plain substring relation
  (`Tables.ReadTablesIsListed`, `Reservations.ReadReservationsIsListed`).

Layout, one module per file:

- `wrappers.dfy` (`Wrappers`): `Option`, `Result`, and the failures a handler ends with.
- `seqs.dfy` (`Seqs`): list comprehensions as `Filter`, the subsequence relation, and lookup.
- `text.dfy` (`Text`): `str.lower()` and the substring test `in`.
- `choices.dfy` (`Choices`): the four locations in stored and query-string form.
- `clock.dfy` (`Clock`): seconds to calendar fields, and `strftime("%Y-%m-%d, T%H:%M")`.
- `models.dfy` (`Models`): the table and reservation records and their creation bodies.
- `utils.dfy` (`Utils`): the conflict check.
- `db.dfy` (`Db`): the session, meaning the stored rows and the id sequences, with its invariant.
- `tables.dfy` (`Tables`) and `reservations.dfy` (`Reservations`): the routes.
- `scenarios.dfy` (`Scenarios`): the request sequences of the route tests, on a fresh session.

Modelling choices:

- A `datetime` is a whole number of seconds since 1970-01-01T00:00:00 in the
  proleptic Gregorian calendar.
- `DateTimeRange.is_intersection` is read as the intersection of closed
  intervals: the latest start is not after the earliest end, so some instant
  lies in both ranges. This closed reading is the one the test at
  app/test_main.py:213-227 needs. Read as half-open, the 15:59:59 booking that
  overlaps a stored hour by one second would be accepted.
- The database session is a `Session` object. It holds the table rows and the
  reservation rows in the order the unordered `select` returns them, and the
  next value of each id sequence. Ids start at 1 and are never reused, as
  with PostgreSQL's sequences (an in-memory SQLite database may hand out the
  largest id again after that row is deleted). The routes are methods that change the
  session. The listings and lookups are functions of the rows a query returns.
- `table_id` may be null. SQLAlchemy renders `== None` as `IS NULL`, so the
  conflict check compares the optional values directly.
- FastAPI's query validation is modelled as `RequestValidationError` (status
  422). This covers the `location` enum, `name` of at most 10 characters, and
  `customer_name` of at most 50 characters.

## Model

| member | source | states |
|---|---|---|
| `Utils.CandidateRange` | app/utils/utils.py:24-28 | the candidate's range runs from t + 1 s to t + 60·d − 1 s, and is not inverted iff d ≥ 1 |
| `Utils.ConflictIffOverlap` | app/utils/utils.py:24-39 | for d ≥ 1 and de ≥ 0, the shrunk candidate range intersects the unshrunk stored range [e, e + 60·de] exactly when t < e + 60·de and e < t + 60·d |
| `Utils.BackToBackIsNoConflict` | app/utils/utils.py:24-39 | a booking starting when a stored one ends, or ending when it starts, is no conflict |
| `Utils.OneSecondOverlapIsConflict` | app/test_main.py:213-227 | 60 minutes from 15:59:59 against a stored hour from 15:00 is a conflict |
| `Utils.IsIntersection` | app/utils/utils.py:39 | two closed ranges intersect iff some instant lies in both |
| `Utils.ExistingRange` | app/utils/utils.py:35-37 | a stored reservation's range is not inverted iff its duration is not negative |
| `Utils.Conflicts` | app/utils/utils.py:34-39 | a stored reservation conflicts iff some instant lies both in the shrunk candidate range and in the stored range |
| `Utils.ReservationsOfTable` | app/utils/utils.py:30-32 | the selected rows are exactly the stored reservations whose table_id equals the candidate's |
| `Utils.HasConflict` | app/utils/utils.py:30-39 | a conflict exists iff some row that the where-clause selects conflicts with the candidate |
| `Utils.CheckReservationConflict` | app/utils/utils.py:30-43 | the loop returns a failure iff some stored reservation of the same table intersects the candidate; the failure is 409 with the fixed message |
| `Utils.OtherTablesNeverConflict` | app/utils/utils.py:30-32 | adding reservations of other tables never changes the verdict |
| `Utils.ConflictDependsOnTableRowsOnly` | app/utils/utils.py:30-39 | two row sets with the same rows for the candidate's table give the same verdict |
| `Utils.ConflictSymmetric` | app/utils/utils.py:24-39 | for durations ≥ 1, swapping candidate and stored reservation does not change the verdict |
| `Utils.AcceptPreservesNoConflicts` | app/utils/utils.py:34-45 | a reservation the check lets through keeps the reservations of every table pairwise conflict-free |
| `Utils.RemovalPreservesNoConflicts` | app/routers/reservations.py:77-78 | removing reservations keeps the rest conflict-free |
| `Utils.NoConflictsMeansDisjoint` | app/utils/utils.py:24-39 | in a conflict-free store, two reservations of one table occupy disjoint time windows [e, e + 60·de) |
| `Reservations.CreateReservation` | app/utils/utils.py:15-45 | 409 with the fixed message and an unchanged session iff a same-table reservation conflicts; otherwise the wrapped create runs with the original request |
| `Reservations.InsertReservation` | app/routers/reservations.py:52-65 | exactly one row is appended; it has the next id and the request's table_id, name, time and duration; the tables are untouched |
| `Reservations.ReadReservations` | app/routers/reservations.py:15-46 | 422 iff the customer_name filter is longer than 50 characters; otherwise the result is drawn from the stored rows |
| `Reservations.ReadReservationsIsListed` | app/routers/reservations.py:25-46 | the listing equals the reference filter (table_id equal, name a case-insensitive substring, time a substring of the rendered start; absent or empty filters exclude nothing), in original order |
| `Reservations.ReadReservationsUnfiltered` | app/routers/reservations.py:25-46 | with no filter, or empty filter strings, every stored reservation is listed in order |
| `Reservations.WithoutReservation` | app/routers/reservations.py:77-78 | the remaining rows are exactly those whose id differs |
| `Reservations.WithoutReservationRemovesOne` | app/routers/reservations.py:77-78 | with ids strictly increasing in row order, exactly one row is removed and the others keep their order |
| `Reservations.DeleteReservation` | app/routers/reservations.py:69-79 | 404 "Бронь не найдена" with nothing changed iff no reservation has the id; otherwise 204 and exactly that row removed |
| `Tables.ValidQuery` | app/routers/tables.py:15-20 | a query is accepted iff location is absent or one of "терраса", "подвал", "зал у окна", "крыша", and name is absent or at most 10 characters long |
| `Tables.HasReservations` | app/routers/tables.py:40 | a table has reservations iff the rows carrying its id, its `reservations` relationship, are not empty |
| `Tables.ReadTables` | app/routers/tables.py:14-41 | 422 iff the location is not one of the four values or the name filter is longer than 10 characters |
| `Tables.ReadTablesIsListed` | app/routers/tables.py:26-41 | the listing equals the reference filter (same enum member, name a case-insensitive substring, has a reservation when asked), in original order |
| `Tables.ReadTablesUnfiltered` | app/routers/tables.py:26-41 | with no filter (has_reservations false) every stored table is listed in order |
| `Tables.ReadTable` | app/routers/tables.py:46-53 | the table with the requested id, or 404 "Стол не найден" iff none has it |
| `Tables.WithoutTable` | app/routers/tables.py:81-82 | the remaining rows are exactly those whose id differs |
| `Tables.WithoutTableRemovesOne` | app/routers/tables.py:81-82 | with ids strictly increasing in row order, exactly one row is removed and the others keep their order |
| `Tables.CreateTable` | app/routers/tables.py:58-69 | exactly one row is appended, with the next id and the given name, seats and location; the session invariant is kept |
| `Tables.Detached` | app/routers/tables.py:81-82 | on deletion of a table only the table_id of a reservation can change; the table's reservations get a null table_id, no row refers to the table any more, and every other row is kept as it is |
| `Tables.DetachedKeepsInvariant` | app/routers/tables.py:81-82 | detaching a table's reservations keeps the ids, the durations and freedom from conflicts among reservations that name a table |
| `Tables.DeleteTable` | app/routers/tables.py:73-83 | 404 "Стол не найден" with nothing changed iff no table has the id; otherwise 204, exactly that row removed, its reservations detached, and the session invariant kept |
| `Db.Session.constructor` | app/database/db.py:20-21 | an empty database satisfies the session invariant and starts both id sequences at 1 |
| `Db.GetTable` | app/routers/tables.py:50 | a stored table with the id, or none iff no table has it |
| `Db.GetReservation` | app/routers/reservations.py:74 | a stored reservation with the id, or none iff no reservation has it |
| `Choices.UrlValue` | app/schemas/choices.py:4-8 | each query-string value is non-empty and already in lower case |
| `Choices.Display` | app/schemas/choices.py:11-15 | each stored value is a capital Cyrillic letter followed by characters that lower-casing leaves alone |
| `Choices.FromUrlValue` | app/schemas/choices.py:4-8 | the member whose query-string value is the input, or none iff no member has it |
| `Choices.UrlValueInjective` | app/schemas/choices.py:4-8 | distinct members have distinct query-string values |
| `Choices.FromUrlValueRoundTrip` | app/schemas/choices.py:4-8 | each query-string value converts back to its member |
| `Choices.LowerDisplay` | app/schemas/choices.py:4-15 | lower-casing a stored location gives its query-string value |
| `Choices.LocationFilterIsMemberEquality` | app/routers/tables.py:29-31 | the filter `t.location.value.lower() == location.value` holds iff the table's location is the chosen member |
| `Choices.UnknownLocationsRefused` | app/test_main.py:155-160 | "гардероб" and "крышка" are not locations |
| `Text.LowerChar` | app/routers/tables.py:36 | A–Z and А–Я move up 32 code points and Ѐ–Џ up 80, each to its small letter; every other character is kept |
| `Text.Lower` | app/routers/tables.py:36 | the model's `lower()` keeps the length and lowers each character with `LowerChar` |
| `Text.LowerIdempotent` | app/routers/tables.py:36 | lowering twice is lowering once |
| `Text.Contains` | app/routers/tables.py:36 | the empty string is in every string, and a needle longer than the text is never in it |
| `Text.ContainsIffOccurs` | app/routers/reservations.py:36 | `needle in hay` holds iff the needle occurs at some index |
| `Text.ContainsIgnoringCase` | app/routers/tables.py:36 | `name.lower() in t.name.lower()`: an empty filter matches every text, and a match is no longer than the text |
| `Text.ExactMatchMatchesIgnoringCase` | app/routers/reservations.py:36 | an exact occurrence of the filter is also a case-insensitive match |
| `Text.ContainsIgnoringCaseOfLowered` | app/routers/reservations.py:36 | the case-insensitive match does not depend on the case of the filter |
| `Seqs.Filter` | app/routers/reservations.py:29 | a comprehension keeps exactly the elements that satisfy its condition, and no more of them than there were |
| `Seqs.FilterIsSubsequence` | app/routers/reservations.py:28-45 | filtering keeps the survivors in their original order |
| `Clock.CivilFromDays` | app/routers/reservations.py:44 | the month is in 1..12 and the day in 1..31 |
| `Clock.CivilRoundTrip` | app/routers/reservations.py:44 | converting a day count to a date and back gives the same count |
| `Clock.FromSeconds` | app/routers/reservations.py:44 | month, day, hour, minute and second are in range |
| `Clock.FromSecondsRoundTrip` | app/routers/reservations.py:44 | the calendar fields give back the instant they came from |
| `Clock.Decimal` | app/routers/reservations.py:44 | the digits read back as the number, and a number of one to four digits takes exactly that many characters |
| `Clock.TwoDigits` | app/routers/reservations.py:44 | a field below 100 is printed as exactly two decimal digits that read back as the field |
| `Clock.Format` | app/routers/reservations.py:44 | for a four-digit year the text is exactly `YYYY-mm-dd, THH:MM`: the separators `-`, `-`, `, T`, `:` in place and decimal-digit fields that read back as the year, month, day, hour and minute |
| `Clock.Render` | app/routers/reservations.py:44 | for a four-digit year the rendered text is exactly `YYYY-mm-dd, THH:MM`, separators in place, with decimal-digit fields that read back as the instant's year, month, day, hour and minute |
| `Clock.MinuteSplit` | app/routers/reservations.py:44 | the date, hour and minute of an instant depend only on the minute it falls in, and the second is the remainder |
| `Clock.RenderIdentifiesMinute` | app/routers/reservations.py:44 | for years 1000..9999, two instants render alike iff they fall in the same minute |
| `Clock.RenderExample` | app/routers/reservations.py:44 | 2025-04-13T15:00:00 renders as "2025-04-13, T15:00" |
| `Scenarios.TimeFilterExamples` | app/routers/reservations.py:40-45 | a 15:00 booking on 2025-04-13 is found by "2025-04-13", "T15:00" and "13, T15", and not by "T14:00" |
| `Scenarios.ConflictScenario` | app/test_main.py:184-242 | bookings at 15:00 and 14:00 get 200; 15:59:59 and 13:01 get 409 with the fixed message |
| `Scenarios.DeleteScenario` | app/test_main.py:71-144 | deleting an existing table or reservation gives 204; deleting id 999999 gives 404 with the fixed messages |
| `Scenarios.ReadTableScenario` | app/test_main.py:42-67 | a created table carries the given name, seats and location and is found by its id |
| `Scenarios.DetachingCanMakeNullRowsOverlap` | app/routers/tables.py:81-82 | a conflict-free store whose two rows overlap once table 1 is deleted and both rows lose their table |
| `Scenarios.InvalidTableQueriesRefused` | app/test_main.py:154-167 | unknown locations and a 50-character name filter get 422 |

## Left out

- Durations below one minute: nothing validates them, and what `DateTimeRange` does with a range whose end precedes its start is not visible. `CreateReservation`, `InsertReservation` and the lemmas require a duration of at least one minute.
- `Reservations.InsertReservation`: it requires that the conflict check has passed, because the session invariant includes freedom from conflicts; the source's undecorated function has no such guard, but it is only reachable through the decorator.
- Sub-second times: times are whole seconds. With microseconds the one-second shrink would let overlaps shorter than a second through; the model does not cover that.
- Concurrency: the read-check-write race between two simultaneous creates for one table is not modelled; routes run one at a time.
- The database's foreign key: production runs on PostgreSQL, which would refuse a reservation whose table does not exist, with an unhandled error. The test database does not enforce it. The model stores such a reservation.
- `DeleteTable`: the setting of the reservations' `table_id` to null is modelled as SQLAlchemy's default for a relationship without a delete cascade; the ORM loading of the collection behind it is not.
- `Db.Session.Valid`: freedom from conflicts is promised only for reservations that name a table, because deleting a table puts its reservations among those without a table unchecked (`Scenarios.DetachingCanMakeNullRowsOverlap`).
- Bounded values: the model's integers are unbounded, but a `datetime` holds only the years 1..9999 and the PostgreSQL `int` columns hold 32 bits. A booking whose shrunk end passes 9999-12-31T23:59:59 (such as 9999-12-31T23:00 for 61 minutes) makes `new_end` overflow and the route answer 500 with nothing stored; a booking that ends exactly at 10000-01-01 is stored, after which `existing_start + timedelta(minutes=…)` overflows and every later create on that table answers 500; a `duration_minutes` or `seats` above 2^31 − 1 is refused by PostgreSQL with a 500. The model accepts and stores all of these.
- Time-zone-aware request times: `reservation_time` is modelled as a naive instant. A request time with an offset, such as "2025-04-13T15:00:00+03:00", gives an aware `datetime`; the stored times come back naive, so as soon as the table has a stored reservation, `is_intersection` cannot order the two and raises, and the route answers 500. This case is not modelled.
- The request-body validators: `title()` on the customer name and `capitalize()` on the location of a new table. The model receives the validated request; `TableCreate` already holds a location member.
- `Text.LowerChar`: only A–Z (U+0041..U+005A) and U+0400..U+042F are lowered; other capitals such as À or Ѡ are kept, and Python's full Unicode case mapping, which can also change the length of a string (as for 'İ'), is not modelled.
- `Clock.Render`: its layout contract covers the years 1000..9999 only; years outside them, which `%Y` prints without padding on glibc or which `datetime` cannot hold, are not treated specially.
- HTTP routing, JSON encoding, the environment and engine configuration, the fallback that opens a session when none is passed, and the `print` calls: I/O and plumbing.
- The ORM relationship objects themselves: the `reservations` of a table are computed from the reservation rows by matching `table_id`.
