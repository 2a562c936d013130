/** The table routes: list with filters, read one, create, delete. */
module Tables {
  import opened Wrappers
  import opened Seqs
  import opened Text
  import opened Choices
  import opened Models
  import opened Utils
  import opened Db

  const TABLE_NOT_FOUND := "Стол не найден"
  const NAME_MAX_LENGTH := 10

  /** The query string of `GET /api/v1/tables/`: `location` as written by the
      client, `name`, and `has_reservations`, whose absence means false. */
  datatype TableQuery = TableQuery(location: Option<string>, name: Option<string>, hasReservations: bool)

  /** FastAPI's checks on the query string: the location is one of the four
      values and the name has at most ten characters. */
  predicate ValidQuery(q: TableQuery): (r: bool)
    ensures r <==> (q.location.None? || q.location.value in {"терраса", "подвал", "зал у окна", "крыша"})
                   && (q.name.None? || |q.name.value| <= 10)
  {
    (q.location.Some? ==> FromUrlValue(q.location.value).Some?) &&
    (q.name.Some? ==> |q.name.value| <= NAME_MAX_LENGTH)
  }

  /** The member the location parameter names, if it is given and valid. */
  function ChosenLocation(q: TableQuery): Option<Location>
  {
    if q.location.Some? then FromUrlValue(q.location.value) else None
  }

  /** `len(t.reservations) > 0`: some reservation refers to the table. */
  predicate HasReservations(t: Table, reservations: seq<Reservation>): (r: bool)
    ensures r <==> |ReservationsOfTable(reservations, Some(t.id))| > 0
  {
    var own := ReservationsOfTable(reservations, Some(t.id));
    assert |own| > 0 ==> own[0] in own;
    exists e :: e in reservations && e.tableId == Some(t.id)
  }

  /** What a listed table satisfies, stated on the enum member: it is at the
      chosen location, its name contains the non-empty name filter ignoring
      case, and it has a reservation when that is asked for. */
  predicate Matches(t: Table, reservations: seq<Reservation>, location: Option<Location>,
                    name: Option<string>, hasReservations: bool)
  {
    (location.Some? ==> t.location == location.value) &&
    (name.Some? && name.value != "" ==> ContainsIgnoringCase(t.name, name.value)) &&
    (hasReservations ==> HasReservations(t, reservations))
  }

  /** The reference listing: every table that matches, in row order. */
  function Listed(tables: seq<Table>, reservations: seq<Reservation>, location: Option<Location>,
                  name: Option<string>, hasReservations: bool): seq<Table>
  {
    Filter(tables, (t: Table) => Matches(t, reservations, location, name, hasReservations))
  }

  /** `read_tables`: 422 for a bad query string, otherwise the three filters in turn. */
  function ReadTables(tables: seq<Table>, reservations: seq<Reservation>, q: TableQuery)
    : (r: Result<seq<Table>>)
    ensures r.Err? <==> !ValidQuery(q)
    ensures r.Err? ==> r.failure == RequestValidationError
    ensures r.Ok? ==> |r.value| <= |tables| && forall t :: t in r.value ==> t in tables
  {
    if !ValidQuery(q) then Err(RequestValidationError)
    else
      var byLocation := match ChosenLocation(q)
        case Some(l) => Filter(tables, (t: Table) => Lower(Display(t.location)) == UrlValue(l))
        case None => tables;
      var byName := if q.name.Some? && q.name.value != ""
        then Filter(byLocation, (t: Table) => ContainsIgnoringCase(t.name, q.name.value))
        else byLocation;
      var byReservations := if q.hasReservations
        then Filter(byName, (t: Table) => HasReservations(t, reservations))
        else byName;
      Ok(byReservations)
  }

  /** On a valid query the listing is exactly the reference listing: the
      tables that match every given filter, in their original order. */
  lemma ReadTablesIsListed(tables: seq<Table>, reservations: seq<Reservation>, q: TableQuery)
    requires ValidQuery(q)
    ensures ReadTables(tables, reservations, q)
      == Ok(Listed(tables, reservations, ChosenLocation(q), q.name, q.hasReservations))
    ensures IsSubsequence(ReadTables(tables, reservations, q).value, tables)
  {
    var location := ChosenLocation(q);
    var stage1 := (t: Table) => location.Some? ==> t.location == location.value;
    var byLocation := match location
      case Some(l) => Filter(tables, (t: Table) => Lower(Display(t.location)) == UrlValue(l))
      case None => tables;
    if location.Some? {
      var l := location.value;
      forall t: Table ensures (Lower(Display(t.location)) == UrlValue(l)) == stage1(t) {
        LocationFilterIsMemberEquality(t.location, l);
      }
      StageIsFilter(tables, true, (t: Table) => Lower(Display(t.location)) == UrlValue(l), stage1);
    } else {
      StageIsFilter(tables, false, (t: Table) => true, stage1);
    }
    assert byLocation == Filter(tables, stage1);

    var applyName := q.name.Some? && q.name.value != "";
    var stage2 := (t: Table) => applyName ==> ContainsIgnoringCase(t.name, q.name.value);
    var byName := if applyName
      then Filter(byLocation, (t: Table) => ContainsIgnoringCase(t.name, q.name.value))
      else byLocation;
    StageIsFilter(byLocation, applyName, (t: Table) => applyName && ContainsIgnoringCase(t.name, q.name.value), stage2);
    if applyName {
      FilterExtensional(byLocation, (t: Table) => ContainsIgnoringCase(t.name, q.name.value),
                        (t: Table) => applyName && ContainsIgnoringCase(t.name, q.name.value));
    }
    var stage12 := (t: Table) => stage1(t) && stage2(t);
    FilterFusion(tables, stage1, stage2, stage12);
    assert byName == Filter(tables, stage12);

    var stage3 := (t: Table) => q.hasReservations ==> HasReservations(t, reservations);
    var byReservations := if q.hasReservations
      then Filter(byName, (t: Table) => HasReservations(t, reservations))
      else byName;
    StageIsFilter(byName, q.hasReservations, (t: Table) => HasReservations(t, reservations), stage3);
    FilterFusion(tables, stage12, stage3,
                 (t: Table) => Matches(t, reservations, location, q.name, q.hasReservations));
    assert ReadTables(tables, reservations, q) == Ok(byReservations);
    FilterIsSubsequence(tables, (t: Table) => Matches(t, reservations, location, q.name, q.hasReservations));
  }

  /** Without any filter the listing is every stored table, in order. */
  lemma ReadTablesUnfiltered(tables: seq<Table>, reservations: seq<Reservation>)
    ensures ReadTables(tables, reservations, TableQuery(None, None, false)) == Ok(tables)
  {
  }

  /** `read_table`: the table with that id, or 404. */
  function ReadTable(tables: seq<Table>, id: int): (r: Result<Table>)
    ensures r.Ok? ==> r.value in tables && r.value.id == id
    ensures r.Err? <==> forall t :: t in tables ==> t.id != id
    ensures r.Err? ==> r.failure == HttpException(404, TABLE_NOT_FOUND)
  {
    match GetTable(tables, id)
    case Some(t) => Ok(t)
    case None => Err(HttpException(404, TABLE_NOT_FOUND))
  }

  /** The tables left after deleting the row with id `id`. */
  function WithoutTable(tables: seq<Table>, id: int): (r: seq<Table>)
    ensures forall t :: t in r <==> t in tables && t.id != id
  {
    Filter(tables, (t: Table) => t.id != id)
  }

  /** Ids being unique, deleting by id removes exactly one row, the rest
      keeping their order. */
  lemma WithoutTableRemovesOne(tables: seq<Table>, k: nat)
    requires k < |tables| && KeysIncreasing(tables, TableKey)
    ensures WithoutTable(tables, tables[k].id) == tables[..k] + tables[k + 1..]
    ensures |WithoutTable(tables, tables[k].id)| == |tables| - 1
  {
    var id := tables[k].id;
    RemoveAtIsFilter(tables, TableKey, k, (t: Table) => t.id != id);
  }

  /** What the ORM does to the reservations of a deleted table when the
      deletion is flushed: their `table_id` becomes null. Only the table id
      of a row can change, no row still refers to the table, and rows of
      other tables, or without a table, stay as they are. */
  function Detached(reservations: seq<Reservation>, id: int): (r: seq<Reservation>)
    ensures |r| == |reservations|
    ensures forall i :: 0 <= i < |r| ==> r[i].(tableId := reservations[i].tableId) == reservations[i]
    ensures forall i :: 0 <= i < |r| && reservations[i].tableId == Some(id) ==> r[i].tableId == None
    ensures forall i :: 0 <= i < |r| && reservations[i].tableId != Some(id) ==> r[i] == reservations[i]
    ensures forall e :: e in r ==> e.tableId != Some(id)
  {
    seq(|reservations|, i requires 0 <= i < |reservations| =>
      if reservations[i].tableId == Some(id) then reservations[i].(tableId := None)
      else reservations[i])
  }

  /** Detaching the reservations of a table keeps the reservation part of the
      session invariant: the ids are untouched, and every row that still
      names a table is a row that was there before. */
  lemma DetachedKeepsInvariant(reservations: seq<Reservation>, id: int, next: int)
    requires KeysIncreasing(reservations, ReservationKey)
    requires forall e :: e in reservations ==> 1 <= e.id < next
    requires PositiveDurations(reservations) && NoConflicts(reservations)
    ensures var r := Detached(reservations, id);
      KeysIncreasing(r, ReservationKey) && (forall e :: e in r ==> 1 <= e.id < next) &&
      PositiveDurations(r) && NoConflicts(r)
  {
    var r := Detached(reservations, id);
    assert forall i :: 0 <= i < |r| ==> r[i].id == reservations[i].id;
    forall e | e in r ensures 1 <= e.id < next && e.durationMinutes >= 1 {
      var i :| 0 <= i < |r| && r[i] == e;
      assert reservations[i] in reservations;
    }
    forall a, b | a in r && b in r && a != b && a.tableId.Some? && a.tableId == b.tableId
      ensures !Conflicts(Request(a), b)
    {
      var i :| 0 <= i < |r| && r[i] == a;
      var j :| 0 <= j < |r| && r[j] == b;
      assert a == reservations[i] && b == reservations[j];
    }
  }

  /** `create_table`: one new row with the next id and the given fields. */
  method CreateTable(session: Session, data: TableCreate) returns (t: Table)
    requires session.Valid()
    modifies session
    ensures session.Valid()
    ensures t == Table(old(session.nextTableId), data.name, data.seats, data.location)
    ensures session.tables == old(session.tables) + [t]
    ensures session.nextTableId == old(session.nextTableId) + 1
    ensures session.reservations == old(session.reservations)
    ensures session.nextReservationId == old(session.nextReservationId)
  {
    t := Table(session.nextTableId, data.name, data.seats, data.location);
    session.tables := session.tables + [t];
    session.nextTableId := session.nextTableId + 1;
  }

  /** `delete_table`: 404 with nothing changed when no table has the id;
      otherwise that row is removed, its reservations lose their table, and
      the status is 204. */
  method DeleteTable(session: Session, id: int) returns (r: Result<int>)
    requires session.Valid()
    modifies session
    ensures session.Valid()
    ensures r.Err? <==> forall t :: t in old(session.tables) ==> t.id != id
    ensures r.Err? ==> r.failure == HttpException(404, TABLE_NOT_FOUND) && unchanged(session)
    ensures r.Ok? ==> r.value == NO_CONTENT
    ensures r.Ok? ==> session.tables == WithoutTable(old(session.tables), id)
    ensures r.Ok? ==> |session.tables| == |old(session.tables)| - 1
    ensures r.Ok? ==> session.reservations == Detached(old(session.reservations), id)
    ensures session.nextTableId == old(session.nextTableId)
    ensures session.nextReservationId == old(session.nextReservationId)
  {
    var table := GetTable(session.tables, id);
    if table.None? {
      return Err(HttpException(404, TABLE_NOT_FOUND));
    }
    ghost var k := FindFirst(session.tables, (t: Table) => t.id == id).value;
    WithoutTableRemovesOne(session.tables, k);
    KeysIncreasingRemoveAt(session.tables, TableKey, k);
    DetachedKeepsInvariant(session.reservations, id, session.nextReservationId);
    session.tables := WithoutTable(session.tables, id);
    session.reservations := Detached(session.reservations, id);
    r := Ok(NO_CONTENT);
  }
}
