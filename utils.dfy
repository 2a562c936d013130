/** The reservation-conflict check that guards reservation creation: the
    candidate's time range, shrunk by one second at each end, is tested for
    intersection with the range of every stored reservation of the same table. */
module Utils {
  import opened Wrappers
  import opened Seqs
  import opened Models

  const CONFLICT_STATUS := 409
  const CONFLICT_DETAIL := "Время брони пересекается с существующей бронью"

  /** A `DateTimeRange`: the instants from `start` to `end`, both included. */
  datatype TimeRange = TimeRange(start: int, end: int)

  function Max(a: int, b: int): int { if a < b then b else a }

  function Min(a: int, b: int): int { if a < b then a else b }

  /** The instant `x` lies in the range `w`, ends included. */
  predicate Covers(w: TimeRange, x: int)
  {
    w.start <= x <= w.end
  }

  /** `DateTimeRange.is_intersection`: the latest start is not after the
      earliest end, which is to say that some instant lies in both ranges. */
  predicate IsIntersection(a: TimeRange, b: TimeRange): (r: bool)
    ensures r <==> exists x :: Covers(a, x) && Covers(b, x)
  {
    var latestStart := Max(a.start, b.start);
    assert latestStart <= Min(a.end, b.end) ==> Covers(a, latestStart) && Covers(b, latestStart);
    latestStart <= Min(a.end, b.end)
  }

  /** The candidate's range: it starts one second after the requested time and
      lasts (d - 1) minutes and 58 seconds, so it ends one second before the
      naive end `t + 60 d`. */
  function CandidateRange(c: ReservationCreate): (w: TimeRange)
    ensures w.start == c.reservationTime + 1
    ensures w.end == c.reservationTime + 60 * c.durationMinutes - 1
    ensures w.start <= w.end <==> c.durationMinutes >= 1
  {
    var newStart := c.reservationTime + 1;
    TimeRange(newStart, newStart + 60 * (c.durationMinutes - 1) + 58)
  }

  /** A stored reservation's range, not shrunk: from its start to its start
      plus its duration. It is never inverted when the duration is not
      negative, which `is_intersection` relies on. */
  function ExistingRange(e: Reservation): (w: TimeRange)
    ensures w.start <= w.end <==> e.durationMinutes >= 0
  {
    TimeRange(e.reservationTime, e.reservationTime + 60 * e.durationMinutes)
  }

  /** The test the check applies to one stored reservation. */
  predicate Conflicts(c: ReservationCreate, e: Reservation): (r: bool)
    ensures r <==> exists x :: Covers(CandidateRange(c), x) && Covers(ExistingRange(e), x)
  {
    IsIntersection(CandidateRange(c), ExistingRange(e))
  }

  /** `select(Reservation).where(Reservation.table_id == table_id)`, in row order.
      A null `table_id` selects the rows whose `table_id` is null. */
  function ReservationsOfTable(rows: seq<Reservation>, tableId: Option<int>): (r: seq<Reservation>)
    ensures forall e :: e in r <==> e in rows && e.tableId == tableId
  {
    Filter(rows, (e: Reservation) => e.tableId == tableId)
  }

  /** Some stored reservation of the candidate's table conflicts with it. */
  predicate HasConflict(c: ReservationCreate, rows: seq<Reservation>): (r: bool)
    ensures r <==> exists e :: e in ReservationsOfTable(rows, c.tableId) && Conflicts(c, e)
  {
    exists e :: e in rows && e.tableId == c.tableId && Conflicts(c, e)
  }

  /** The check the decorator runs before the wrapped create: the failure it
      raises, or none when the create may proceed with the original arguments. */
  method CheckReservationConflict(c: ReservationCreate, rows: seq<Reservation>)
    returns (verdict: Option<Failure>)
    ensures verdict.Some? <==> HasConflict(c, rows)
    ensures verdict.Some? ==> verdict.value == HttpException(CONFLICT_STATUS, CONFLICT_DETAIL)
  {
    var existing := ReservationsOfTable(rows, c.tableId);
    for i := 0 to |existing|
      invariant forall j :: 0 <= j < i ==> !Conflicts(c, existing[j])
    {
      if Conflicts(c, existing[i]) {
        return Some(HttpException(CONFLICT_STATUS, CONFLICT_DETAIL));
      }
    }
    return None;
  }

  /** With whole seconds and a duration of at least one minute, the shrunk
      test says that the candidate starts before the stored reservation ends
      and ends after it starts. For a stored duration de >= 1 this is exactly
      that the half-open windows [t, t + 60 d) and [e, e + 60 de) share a
      second; a stored duration of 0 still conflicts with a candidate whose
      window strictly contains its instant e. */
  lemma ConflictIffOverlap(c: ReservationCreate, e: Reservation)
    requires c.durationMinutes >= 1 && e.durationMinutes >= 0
    ensures Conflicts(c, e) <==>
            c.reservationTime < e.reservationTime + 60 * e.durationMinutes &&
            e.reservationTime < c.reservationTime + 60 * c.durationMinutes
  {
  }

  /** A booking that starts exactly when a stored one ends, or ends exactly
      when it starts, is not a conflict. */
  lemma BackToBackIsNoConflict(c: ReservationCreate, e: Reservation)
    requires c.durationMinutes >= 1 && e.durationMinutes >= 0
    requires c.reservationTime == e.reservationTime + 60 * e.durationMinutes ||
             c.reservationTime + 60 * c.durationMinutes == e.reservationTime
    ensures !Conflicts(c, e)
  {
    ConflictIffOverlap(c, e);
  }

  /** Sixty minutes from 15:59:59 against a stored hour from 15:00 overlap by
      one second, and that is a conflict. */
  lemma OneSecondOverlapIsConflict(c: ReservationCreate, e: Reservation)
    requires e.durationMinutes == 60 && c.durationMinutes == 60
    requires c.reservationTime == e.reservationTime + 3599
    ensures Conflicts(c, e)
  {
  }

  /** Swapping which of two reservations is the candidate does not change the
      verdict. */
  lemma ConflictSymmetric(a: Reservation, b: Reservation)
    requires a.durationMinutes >= 1 && b.durationMinutes >= 1
    ensures Conflicts(Request(a), b) == Conflicts(Request(b), a)
  {
    ConflictIffOverlap(Request(a), b);
    ConflictIffOverlap(Request(b), a);
  }

  /** Reservations of other tables never make a conflict. */
  lemma OtherTablesNeverConflict(c: ReservationCreate, rows: seq<Reservation>, others: seq<Reservation>)
    requires forall e :: e in others ==> e.tableId != c.tableId
    ensures HasConflict(c, rows + others) == HasConflict(c, rows)
  {
  }

  /** The check looks only at the rows of the candidate's table. */
  lemma ConflictDependsOnTableRowsOnly(c: ReservationCreate, rows1: seq<Reservation>, rows2: seq<Reservation>)
    requires ReservationsOfTable(rows1, c.tableId) == ReservationsOfTable(rows2, c.tableId)
    ensures HasConflict(c, rows1) == HasConflict(c, rows2)
  {
    var common := ReservationsOfTable(rows1, c.tableId);
    assert forall e :: e in rows1 && e.tableId == c.tableId <==> e in common;
    assert forall e :: e in rows2 && e.tableId == c.tableId <==> e in common;
  }

  /** Every stored reservation lasts at least a minute. */
  ghost predicate PositiveDurations(rows: seq<Reservation>)
  {
    forall e :: e in rows ==> e.durationMinutes >= 1
  }

  /** No two distinct reservations of one table conflict. Reservations
      without a table are left out: deleting a table moves its reservations
      there without any check. */
  ghost predicate NoConflicts(rows: seq<Reservation>)
  {
    forall a, b :: a in rows && b in rows && a != b && a.tableId.Some? && a.tableId == b.tableId ==>
      !Conflicts(Request(a), b)
  }

  /** A reservation the check lets through keeps the reservations of every
      table pairwise free of conflicts. */
  lemma AcceptPreservesNoConflicts(rows: seq<Reservation>, r: Reservation)
    requires NoConflicts(rows) && PositiveDurations(rows)
    requires r.durationMinutes >= 1 && !HasConflict(Request(r), rows)
    ensures NoConflicts(rows + [r]) && PositiveDurations(rows + [r])
  {
    forall a, b | a in rows + [r] && b in rows + [r] && a != b && a.tableId.Some? && a.tableId == b.tableId
      ensures !Conflicts(Request(a), b)
    {
      if a == r {
        assert b in rows;
      } else if b == r {
        ConflictSymmetric(a, r);
      }
    }
  }

  /** Removing reservations keeps the rest free of conflicts. */
  lemma RemovalPreservesNoConflicts(rows: seq<Reservation>, kept: seq<Reservation>)
    requires NoConflicts(rows) && PositiveDurations(rows)
    requires forall e :: e in kept ==> e in rows
    ensures NoConflicts(kept) && PositiveDurations(kept)
  {
  }

  /** The invariant in the calendar's terms: two distinct reservations of one
      table occupy disjoint time windows. */
  lemma NoConflictsMeansDisjoint(rows: seq<Reservation>, a: Reservation, b: Reservation)
    requires NoConflicts(rows) && PositiveDurations(rows)
    requires a in rows && b in rows && a != b && a.tableId.Some? && a.tableId == b.tableId
    ensures a.reservationTime + 60 * a.durationMinutes <= b.reservationTime ||
            b.reservationTime + 60 * b.durationMinutes <= a.reservationTime
  {
    ConflictIffOverlap(Request(a), b);
  }
}
