/** The reservation routes: list with filters, create behind the conflict
    check, delete. */
module Reservations {
  import opened Wrappers
  import opened Seqs
  import opened Text
  import opened Clock
  import opened Models
  import opened Utils
  import opened Db

  const RESERVATION_NOT_FOUND := "Бронь не найдена"
  const CUSTOMER_NAME_MAX_LENGTH := 50

  /** The query string of `GET /api/v1/reservations/`. */
  datatype ReservationQuery = ReservationQuery(
    tableId: Option<int>, customerName: Option<string>, reservationTime: Option<string>)

  /** FastAPI's check on the query string: the customer name filter has at
      most fifty characters. */
  predicate ValidQuery(q: ReservationQuery)
  {
    q.customerName.Some? ==> |q.customerName.value| <= CUSTOMER_NAME_MAX_LENGTH
  }

  /** What a listed reservation satisfies: it belongs to the given table, its
      customer's name contains the non-empty name filter ignoring case, and
      its start rendered as "%Y-%m-%d, T%H:%M" contains the non-empty time
      filter. An absent or empty filter excludes nothing. */
  predicate Matches(r: Reservation, q: ReservationQuery)
  {
    (q.tableId.Some? ==> r.tableId == q.tableId) &&
    (q.customerName.Some? && q.customerName.value != "" ==>
       ContainsIgnoringCase(r.customerName, q.customerName.value)) &&
    (q.reservationTime.Some? && q.reservationTime.value != "" ==>
       Contains(Render(r.reservationTime), q.reservationTime.value))
  }

  /** The reference listing: every reservation that matches, in row order. */
  function Listed(reservations: seq<Reservation>, q: ReservationQuery): seq<Reservation>
  {
    Filter(reservations, (r: Reservation) => Matches(r, q))
  }

  /** `read_reservations`: 422 for a bad query string, otherwise the three
      filters in turn. */
  function ReadReservations(reservations: seq<Reservation>, q: ReservationQuery)
    : (result: Result<seq<Reservation>>)
    ensures result.Err? <==> q.customerName.Some? && |q.customerName.value| > 50
    ensures result.Err? ==> result.failure == RequestValidationError
    ensures result.Ok? ==> |result.value| <= |reservations| &&
                           forall r :: r in result.value ==> r in reservations
  {
    if !ValidQuery(q) then Err(RequestValidationError)
    else
      var byTable := if q.tableId.Some?
        then Filter(reservations, (r: Reservation) => r.tableId == q.tableId)
        else reservations;
      var byName := if q.customerName.Some? && q.customerName.value != ""
        then Filter(byTable, (r: Reservation) => ContainsIgnoringCase(r.customerName, q.customerName.value))
        else byTable;
      var byTime := if q.reservationTime.Some? && q.reservationTime.value != ""
        then Filter(byName, (r: Reservation) => Contains(Render(r.reservationTime), q.reservationTime.value))
        else byName;
      Ok(byTime)
  }

  /** On a valid query the listing is exactly the reference listing: the
      reservations that match every given filter, in their original order. */
  lemma ReadReservationsIsListed(reservations: seq<Reservation>, q: ReservationQuery)
    requires ValidQuery(q)
    ensures ReadReservations(reservations, q) == Ok(Listed(reservations, q))
    ensures IsSubsequence(ReadReservations(reservations, q).value, reservations)
  {
    var applyTable := q.tableId.Some?;
    var stage1 := (r: Reservation) => applyTable ==> r.tableId == q.tableId;
    var byTable := if applyTable
      then Filter(reservations, (r: Reservation) => r.tableId == q.tableId)
      else reservations;
    StageIsFilter(reservations, applyTable, (r: Reservation) => r.tableId == q.tableId, stage1);

    var applyName := q.customerName.Some? && q.customerName.value != "";
    var stage2 := (r: Reservation) => applyName ==> ContainsIgnoringCase(r.customerName, q.customerName.value);
    var byName := if applyName
      then Filter(byTable, (r: Reservation) => ContainsIgnoringCase(r.customerName, q.customerName.value))
      else byTable;
    var name := (r: Reservation) => applyName && ContainsIgnoringCase(r.customerName, q.customerName.value);
    StageIsFilter(byTable, applyName, name, stage2);
    if applyName {
      FilterExtensional(byTable, (r: Reservation) => ContainsIgnoringCase(r.customerName, q.customerName.value), name);
    }
    var stage12 := (r: Reservation) => stage1(r) && stage2(r);
    FilterFusion(reservations, stage1, stage2, stage12);
    assert byName == Filter(reservations, stage12);

    var applyTime := q.reservationTime.Some? && q.reservationTime.value != "";
    var stage3 := (r: Reservation) => applyTime ==> Contains(Render(r.reservationTime), q.reservationTime.value);
    var byTime := if applyTime
      then Filter(byName, (r: Reservation) => Contains(Render(r.reservationTime), q.reservationTime.value))
      else byName;
    var time := (r: Reservation) => applyTime && Contains(Render(r.reservationTime), q.reservationTime.value);
    StageIsFilter(byName, applyTime, time, stage3);
    if applyTime {
      FilterExtensional(byName, (r: Reservation) => Contains(Render(r.reservationTime), q.reservationTime.value), time);
    }
    FilterFusion(reservations, stage12, stage3, (r: Reservation) => Matches(r, q));
    assert ReadReservations(reservations, q) == Ok(byTime);
    FilterIsSubsequence(reservations, (r: Reservation) => Matches(r, q));
  }

  /** Without any filter, or with empty filter strings, the listing is every
      stored reservation, in order. */
  lemma ReadReservationsUnfiltered(reservations: seq<Reservation>)
    ensures ReadReservations(reservations, ReservationQuery(None, None, None)) == Ok(reservations)
    ensures ReadReservations(reservations, ReservationQuery(None, Some(""), Some(""))) == Ok(reservations)
  {
  }

  /** The undecorated `create_reservation`: one new row with the next id and
      the fields of the request. It is only called once the check has passed. */
  method InsertReservation(session: Session, data: ReservationCreate) returns (r: Reservation)
    requires session.Valid()
    requires data.durationMinutes >= 1 && !HasConflict(data, session.reservations)
    modifies session
    ensures session.Valid()
    ensures r == Reservation(old(session.nextReservationId), data.tableId, data.customerName,
                             data.reservationTime, data.durationMinutes)
    ensures session.reservations == old(session.reservations) + [r]
    ensures session.nextReservationId == old(session.nextReservationId) + 1
    ensures session.tables == old(session.tables)
    ensures session.nextTableId == old(session.nextTableId)
  {
    r := Reservation(session.nextReservationId, data.tableId, data.customerName,
                     data.reservationTime, data.durationMinutes);
    assert Request(r) == data;
    AcceptPreservesNoConflicts(session.reservations, r);
    session.reservations := session.reservations + [r];
    session.nextReservationId := session.nextReservationId + 1;
  }

  /** `create_reservation` as the router exposes it, wrapped by the conflict
      check: 409 with nothing stored when a reservation of the same table
      intersects the candidate, otherwise the wrapped create. */
  method CreateReservation(session: Session, data: ReservationCreate) returns (result: Result<Reservation>)
    requires session.Valid()
    requires data.durationMinutes >= 1
    modifies session
    ensures session.Valid()
    ensures result.Err? <==> HasConflict(data, old(session.reservations))
    ensures result.Err? ==> result.failure == HttpException(CONFLICT_STATUS, CONFLICT_DETAIL)
    ensures result.Err? ==> unchanged(session)
    ensures result.Ok? ==> result.value == Reservation(old(session.nextReservationId), data.tableId,
                             data.customerName, data.reservationTime, data.durationMinutes)
    ensures result.Ok? ==> session.reservations == old(session.reservations) + [result.value]
    ensures result.Ok? ==> session.nextReservationId == old(session.nextReservationId) + 1
    ensures session.tables == old(session.tables)
    ensures session.nextTableId == old(session.nextTableId)
  {
    var verdict := CheckReservationConflict(data, session.reservations);
    if verdict.Some? {
      return Err(verdict.value);
    }
    var r := InsertReservation(session, data);
    result := Ok(r);
  }

  /** The reservations left after deleting the row with id `id`. */
  function WithoutReservation(reservations: seq<Reservation>, id: int): (r: seq<Reservation>)
    ensures forall e :: e in r <==> e in reservations && e.id != id
  {
    Filter(reservations, (e: Reservation) => e.id != id)
  }

  /** Ids being unique, deleting by id removes exactly one row, the rest
      keeping their order. */
  lemma WithoutReservationRemovesOne(reservations: seq<Reservation>, k: nat)
    requires k < |reservations| && KeysIncreasing(reservations, ReservationKey)
    ensures WithoutReservation(reservations, reservations[k].id) == reservations[..k] + reservations[k + 1..]
    ensures |WithoutReservation(reservations, reservations[k].id)| == |reservations| - 1
  {
    var id := reservations[k].id;
    RemoveAtIsFilter(reservations, ReservationKey, k, (e: Reservation) => e.id != id);
  }

  /** `delete_reservation`: 404 with nothing changed when no reservation has
      the id; otherwise that row is removed and the status is 204. */
  method DeleteReservation(session: Session, id: int) returns (result: Result<int>)
    requires session.Valid()
    modifies session
    ensures session.Valid()
    ensures result.Err? <==> forall e :: e in old(session.reservations) ==> e.id != id
    ensures result.Err? ==> result.failure == HttpException(404, RESERVATION_NOT_FOUND)
    ensures result.Err? ==> unchanged(session)
    ensures result.Ok? ==> result.value == NO_CONTENT
    ensures result.Ok? ==> session.reservations == WithoutReservation(old(session.reservations), id)
    ensures result.Ok? ==> |session.reservations| == |old(session.reservations)| - 1
    ensures session.tables == old(session.tables)
    ensures session.nextTableId == old(session.nextTableId)
    ensures session.nextReservationId == old(session.nextReservationId)
  {
    var reservation := GetReservation(session.reservations, id);
    if reservation.None? {
      return Err(HttpException(404, RESERVATION_NOT_FOUND));
    }
    ghost var k := FindFirst(session.reservations, (e: Reservation) => e.id == id).value;
    WithoutReservationRemovesOne(session.reservations, k);
    KeysIncreasingRemoveAt(session.reservations, ReservationKey, k);
    RemovalPreservesNoConflicts(session.reservations, WithoutReservation(session.reservations, id));
    session.reservations := WithoutReservation(session.reservations, id);
    result := Ok(NO_CONTENT);
  }
}
