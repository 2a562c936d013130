/** The records of the service: what a client sends to create a table or a
    reservation, and the stored rows, which add the database-assigned id. */
module Models {
  import opened Wrappers
  import opened Choices

  /** The body of `POST /api/v1/tables/`, after its location is validated. */
  datatype TableCreate = TableCreate(name: string, seats: int, location: Location)

  /** A stored table. */
  datatype Table = Table(id: int, name: string, seats: int, location: Location)

  /** The body of `POST /api/v1/reservations/`. `reservationTime` counts seconds
      since 1970-01-01T00:00:00; `tableId` may be null. */
  datatype ReservationCreate = ReservationCreate(
    tableId: Option<int>, customerName: string, reservationTime: int, durationMinutes: int)

  /** A stored reservation. */
  datatype Reservation = Reservation(
    id: int, tableId: Option<int>, customerName: string, reservationTime: int, durationMinutes: int)

  /** The fields a stored reservation shares with a creation request. */
  function Request(r: Reservation): ReservationCreate
  {
    ReservationCreate(r.tableId, r.customerName, r.reservationTime, r.durationMinutes)
  }
}
