/** The database session the routes work through: the rows of both tables in
    the order they were inserted, and the next value of each id sequence.
    The conflict-free invariant is kept here: every new reservation goes
    through the conflict check, and deleting a table only moves its
    reservations out of every table. */
module Db {
  import opened Wrappers
  import opened Seqs
  import opened Models
  import opened Utils

  function TableKey(t: Table): int { t.id }

  function ReservationKey(r: Reservation): int { r.id }

  class Session {
    var tables: seq<Table>
    var reservations: seq<Reservation>
    var nextTableId: int        // the next value of the table id sequence
    var nextReservationId: int  // the next value of the reservation id sequence

    /** Ids are positive, increase in row order, and lie below the sequence's
        next value; reservations last at least a minute and those of one
        table do not conflict. */
    ghost predicate Valid()
      reads this
    {
      1 <= nextTableId && 1 <= nextReservationId &&
      KeysIncreasing(tables, TableKey) &&
      (forall t :: t in tables ==> 1 <= t.id < nextTableId) &&
      KeysIncreasing(reservations, ReservationKey) &&
      (forall r :: r in reservations ==> 1 <= r.id < nextReservationId) &&
      PositiveDurations(reservations) && NoConflicts(reservations)
    }

    /** A session on an empty database. */
    constructor ()
      ensures Valid()
      ensures tables == [] && reservations == []
      ensures nextTableId == 1 && nextReservationId == 1
    {
      tables, reservations := [], [];
      nextTableId, nextReservationId := 1, 1;
    }
  }

  /** `session.get(Table, id)`. */
  function GetTable(tables: seq<Table>, id: int): (r: Option<Table>)
    ensures r.Some? ==> r.value in tables && r.value.id == id
    ensures r.None? <==> forall t :: t in tables ==> t.id != id
  {
    match FindFirst(tables, (t: Table) => t.id == id)
    case Some(k) => Some(tables[k])
    case None => None
  }

  /** `session.get(Reservation, id)`. */
  function GetReservation(reservations: seq<Reservation>, id: int): (r: Option<Reservation>)
    ensures r.Some? ==> r.value in reservations && r.value.id == id
    ensures r.None? <==> forall e :: e in reservations ==> e.id != id
  {
    match FindFirst(reservations, (e: Reservation) => e.id == id)
    case Some(k) => Some(reservations[k])
    case None => None
  }
}
