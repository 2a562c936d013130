/** The request sequences of the route tests, run on a fresh session. */
module Scenarios {
  import opened Wrappers
  import opened Choices
  import opened Models
  import opened Utils
  import opened Db
  import Text
  import Clock
  import Tables
  import Reservations

  const HOUR := 3600
  const MINUTE := 60

  /** Bookings at 15:00 and then 14:00 for an hour are accepted (the second
      ends exactly when the first starts); 15:59:59 overlaps the first by a
      second and 13:01 overlaps the second by a minute, so both get 409. */
  method ConflictScenario() returns (codes: seq<int>, details: seq<string>)
    ensures codes == [200, 200, 409, 409]
    ensures details == [CONFLICT_DETAIL, CONFLICT_DETAIL]
  {
    var session := new Session();
    var table := Tables.CreateTable(session, TableCreate("Cтолик 4", 6, Podval));
    var at15 := ReservationCreate(Some(table.id), "Сергей", Clock.APRIL_13_2025 + 15 * HOUR, 60);
    var at14 := ReservationCreate(Some(table.id), "Сергей", Clock.APRIL_13_2025 + 14 * HOUR, 60);
    var at1559 := ReservationCreate(Some(table.id), "Сергей", Clock.APRIL_13_2025 + 16 * HOUR - 1, 60);
    var at1301 := ReservationCreate(Some(table.id), "Сергей", Clock.APRIL_13_2025 + 13 * HOUR + MINUTE, 60);

    var first := Reservations.CreateReservation(session, at15);
    var second := Reservations.CreateReservation(session, at14);
    assert second.Ok? by {
      assert !Conflicts(at14, first.value);
    }
    var third := Reservations.CreateReservation(session, at1559);
    assert third.Err? by {
      assert Conflicts(at1559, first.value);
    }
    var fourth := Reservations.CreateReservation(session, at1301);
    assert fourth.Err? by {
      assert Conflicts(at1301, second.value);
    }
    codes := [Status(first), Status(second), Status(third), Status(fourth)];
    details := [third.failure.detail, fourth.failure.detail];
  }

  /** Deleting a table or a reservation that exists answers 204; deleting id
      999999, which does not exist, answers 404 with the fixed message. */
  method DeleteScenario() returns (codes: seq<int>, details: seq<string>)
    ensures codes == [204, 204, 404, 404]
    ensures details == [Reservations.RESERVATION_NOT_FOUND, Tables.TABLE_NOT_FOUND]
  {
    var session := new Session();
    var t4 := Tables.CreateTable(session, TableCreate("Cтолик 4", 10, ZalUStola));
    var deleteTable := Tables.DeleteTable(session, t4.id);
    var t5 := Tables.CreateTable(session, TableCreate("Cтолик 5", 4, ZalUStola));
    var created := Reservations.CreateReservation(
      session, ReservationCreate(Some(t5.id), "Иван", 1746122400, 60));
    var deleteReservation := Reservations.DeleteReservation(session, created.value.id);
    var missingReservation := Reservations.DeleteReservation(session, 999999);
    var missingTable := Tables.DeleteTable(session, 999999);
    codes := [deleteTable.value, deleteReservation.value,
              StatusCode(missingReservation.failure), StatusCode(missingTable.failure)];
    details := [missingReservation.failure.detail, missingTable.failure.detail];
  }

  /** A table created through the route is found by its id. */
  method ReadTableScenario() returns (found: Result<Table>, created: Table)
    ensures found == Ok(created)
    ensures created.name == "Cтолик 2" && created.location == Terrasa && created.seats == 4
  {
    var session := new Session();
    created := Tables.CreateTable(session, TableCreate("Cтолик 2", 4, Terrasa));
    found := Tables.ReadTable(session.tables, created.id);
  }

  /** A location outside the four values and a name filter of fifty
      characters are refused with 422, whatever the stored rows. */
  lemma InvalidTableQueriesRefused(tables: seq<Table>, reservations: seq<Reservation>)
    ensures Status(Tables.ReadTables(tables, reservations, Tables.TableQuery(Some("гардероб"), None, false))) == 422
    ensures Status(Tables.ReadTables(tables, reservations, Tables.TableQuery(Some("крышка"), None, false))) == 422
    ensures Status(Tables.ReadTables(tables, reservations,
                   Tables.TableQuery(None, Some(seq(50, _ => 'a')), false))) == 422
  {
    UnknownLocationsRefused();
  }

  /** The time filter matches on the rendered text: a booking at 2025-04-13
      15:00 is found by "2025-04-13", by "T15:00" and by "13, T15", and not
      by "T14:00". */
  lemma TimeFilterExamples(r: Reservation)
    requires r.reservationTime == Clock.APRIL_13_2025 + 15 * 3600
    ensures Reservations.Matches(r, Reservations.ReservationQuery(None, None, Some("2025-04-13")))
    ensures Reservations.Matches(r, Reservations.ReservationQuery(None, None, Some("T15:00")))
    ensures Reservations.Matches(r, Reservations.ReservationQuery(None, None, Some("13, T15")))
    ensures !Reservations.Matches(r, Reservations.ReservationQuery(None, None, Some("T14:00")))
  {
    Clock.RenderExample();
    var text := "2025-04-13, T15:00";
    assert Text.StartsWith(text, "2025-04-13");
    assert text[12..] == "T15:00";
    assert text[8..] == "13, T15:00";
    ContainsInSuffix(text, "T15:00", 12);
    ContainsInSuffix(text, "13, T15", 8);
    T1400NotInRendered();
  }

  lemma {:induction false} ContainsInSuffix(hay: string, needle: string, k: nat)
    requires k <= |hay| && Text.StartsWith(hay[k..], needle)
    ensures Text.Contains(hay, needle)
    decreases k
  {
    if k > 0 {
      assert hay[1..][k - 1..] == hay[k..];
      ContainsInSuffix(hay[1..], needle, k - 1);
    }
  }

  /** "T14:00" occurs nowhere in the rendering of the 15:00 booking. */
  lemma T1400NotInRendered()
    ensures !Text.Contains("2025-04-13, T15:00", "T14:00")
  {
    var hay, needle := "2025-04-13, T15:00", "T14:00";
    forall i | 0 <= i <= |hay| - |needle| ensures Text.MismatchAt(hay, needle, i) {
      if hay[i] != 'T' {
        assert hay[i + 0] != needle[0];
      } else {
        assert hay[i + 2] != needle[2];
      }
    }
    Text.NotContainedIfMismatched(hay, needle);
  }

  /** Why the invariant leaves out reservations without a table: two
      reservations that did not conflict, one of table 1 and one without a
      table, overlap once table 1 is deleted and both are without a table. */
  lemma DetachingCanMakeNullRowsOverlap()
    ensures var rows := [Reservation(1, Some(1), "A", 0, 60), Reservation(2, None, "B", 0, 60)];
      var after := Tables.Detached(rows, 1);
      NoConflicts(rows) && after[0].tableId == None && after[1].tableId == None &&
      Conflicts(Request(after[0]), after[1])
  {
    var rows := [Reservation(1, Some(1), "A", 0, 60), Reservation(2, None, "B", 0, 60)];
    var after := Tables.Detached(rows, 1);
    assert after[0] == Reservation(1, None, "A", 0, 60);
    assert Covers(CandidateRange(Request(after[0])), 1) && Covers(ExistingRange(after[1]), 1);
  }

}
