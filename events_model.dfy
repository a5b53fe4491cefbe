/** models/Events.js: the events and registrations tables and the statements
    run against them. The tables are the fields of one `EventTable` object;
    every data-layer function is a method (for INSERT, UPDATE and DELETE)
    or a function reading the object (for SELECT).

    Row ids follow SQLite's allocation for an `INTEGER PRIMARY KEY` column:
    one more than the largest id in the table, so ids ascend in table order.
    That is the first half of the table invariant `Valid()`; the second is
    that no (event, user) pair is registered twice, which the schema does not
    enforce but every operation here keeps. */
module EventModel {
  import opened Results
  import opened RowIds

  /** The `eventData` the create controller builds. */
  datatype EventData = EventData(
    title: string, description: string, address: string, date: string,
    image: Option<string>, createdBy: int)

  /** The `eventData` the edit controller builds (no owner). */
  datatype EventEdit = EventEdit(
    title: string, description: string, address: string, date: string,
    image: Option<string>)

  /** A row of the events table. */
  datatype EventRow = EventRow(
    id: int, title: string, description: string, address: string, date: string,
    image: Option<string>, createdBy: int, createdAt: string)

  /** What createEvent returns: `{ id, ...eventData, created_at }`. */
  datatype CreatedEvent = CreatedEvent(id: int, data: EventData, createdAt: string)

  /** What editEvent returns: `{ id, ...eventData }`. */
  datatype EditedEvent = EditedEvent(id: int, edit: EventEdit)

  /** A row of the registrations table, by the pair it records. */
  datatype Registration = Registration(eventId: int, userId: int)

  /** The column getEventByUserAndParameter matches on, with the value: the
      two columns the controllers pass, `'id'` and `'title'`. */
  datatype Key = Id(id: int) | Title(title: string)

  // The error messages thrown, each wrapped by the function that catches it.
  const EventNotFound := "Event not found"
  const AlreadyRegistered := "User has already registered for event"
  const GetPrefix := "Failed to get event: "
  const EditPrefix := "Failed to edit event: "
  const DeletePrefix := "Failed to delete event: "
  const RegisterPrefix := "Failed to register for event: "
  const UnregisterPrefix := "Failed to unregister for event: "

  // ---------------------------------------------------------------------
  // Rows

  /** The key of an event row. */
  function EventId(e: EventRow): int { e.id }

  ghost predicate Increasing(rows: seq<EventRow>) {
    Ascending(rows, EventId)
  }

  /** The id SQLite gives the next inserted event: above every id in the table. */
  function NextEventId(rows: seq<EventRow>): (id: int)
    ensures id >= 1
    ensures forall e | e in rows :: e.id < id
  {
    NextIdOf(rows, EventId)
  }

  function RowOf(id: int, data: EventData, createdAt: string): EventRow {
    EventRow(id, data.title, data.description, data.address, data.date, data.image, data.createdBy, createdAt)
  }

  predicate HasRow(rows: seq<EventRow>, id: int) {
    exists e | e in rows :: e.id == id
  }

  /** Ascending ids are unique ids. */
  lemma IncreasingUnique(rows: seq<EventRow>, a: EventRow, b: EventRow)
    requires Increasing(rows)
    requires a in rows && b in rows && a.id == b.id
    ensures a == b
  {
  }

  /** The rows after the first of an ascending table are ascending. */
  lemma TailIncreasing(rows: seq<EventRow>)
    requires rows != [] && Increasing(rows)
    ensures Increasing(rows[1..])
  {
    forall i, j | 0 <= i < j < |rows| - 1 ensures rows[1..][i].id < rows[1..][j].id {
      assert rows[1..][i] == rows[i + 1] && rows[1..][j] == rows[j + 1];
    }
  }

  /** The first row of an ascending table, put before an ascending selection
      of the rows after it, keeps the result ascending. */
  lemma PrependKeepsIncreasing(rows: seq<EventRow>, rest: seq<EventRow>)
    requires rows != [] && Increasing(rows)
    requires Increasing(rest) && forall e | e in rest :: e in rows[1..]
    ensures Increasing([rows[0]] + rest)
  {
    var r := [rows[0]] + rest;
    forall i, j | 0 <= i < j < |r| ensures r[i].id < r[j].id {
      if i == 0 {
        assert r[j] == rest[j - 1] && rest[j - 1] in rows[1..];
        var k :| 0 <= k < |rows[1..]| && rows[1..][k] == rest[j - 1];
        assert rows[1..][k] == rows[k + 1];
      } else {
        assert r[i] == rest[i - 1] && r[j] == rest[j - 1];
      }
    }
  }

  /** `DELETE FROM events WHERE id = ?`. */
  function WithoutId(rows: seq<EventRow>, id: int): (r: seq<EventRow>)
    ensures forall e :: e in r <==> e in rows && e.id != id
    ensures Increasing(rows) ==> Increasing(r)
    ensures |r| <= |rows|
    ensures |r| == |rows| <==> !HasRow(rows, id)
  {
    if rows == [] then []
    else
      var rest := WithoutId(rows[1..], id);
      assert forall e | e in rest :: e in rows[1..];
      assert Increasing(rows) ==> Increasing(rows[1..]) by {
        if Increasing(rows) { TailIncreasing(rows); }
      }
      if rows[0].id == id then rest
      else
        assert Increasing(rows) ==> Increasing([rows[0]] + rest) by {
          if Increasing(rows) { PrependKeepsIncreasing(rows, rest); }
        }
        [rows[0]] + rest
  }

  /** Deleting the id of the last row, held by no other row, leaves the rows
      before it. */
  lemma {:induction false} WithoutLastRow(rows: seq<EventRow>, row: EventRow)
    requires forall e | e in rows :: e.id != row.id
    ensures WithoutId(rows + [row], row.id) == rows
  {
    if rows == [] {
      assert [] + [row] == [row];
    } else {
      assert (rows + [row])[1..] == rows[1..] + [row];
      WithoutLastRow(rows[1..], row);
      assert rows == [rows[0]] + rows[1..];
    }
  }

  /** The row with the five columns the edit statement sets replaced. */
  function Revised(row: EventRow, edit: EventEdit): EventRow {
    row.(title := edit.title, description := edit.description, address := edit.address,
         date := edit.date, image := edit.image)
  }

  /** `UPDATE events SET title, description, address, date, image WHERE id = ?`. */
  function Overwrite(rows: seq<EventRow>, id: int, edit: EventEdit): (r: seq<EventRow>)
    ensures |r| == |rows|
    ensures forall k | 0 <= k < |rows| ::
              r[k].id == rows[k].id && r[k].createdBy == rows[k].createdBy && r[k].createdAt == rows[k].createdAt
    ensures forall k | 0 <= k < |rows| && rows[k].id == id ::
              && r[k].title == edit.title && r[k].description == edit.description
              && r[k].address == edit.address && r[k].date == edit.date && r[k].image == edit.image
    ensures forall k | 0 <= k < |rows| && rows[k].id != id :: r[k] == rows[k]
    ensures Increasing(rows) ==> Increasing(r)
  {
    seq(|rows|, k requires 0 <= k < |rows| => if rows[k].id == id then Revised(rows[k], edit) else rows[k])
  }

  /** The rows whose owner is `userId`, in table order. */
  function OwnedBy(rows: seq<EventRow>, userId: int): (r: seq<EventRow>)
    ensures forall e :: e in r <==> e in rows && e.createdBy == userId
    ensures Increasing(rows) ==> Increasing(r)
  {
    if rows == [] then []
    else
      var rest := OwnedBy(rows[1..], userId);
      assert forall e | e in rest :: e in rows[1..];
      assert Increasing(rows) ==> Increasing(rows[1..]) by {
        if Increasing(rows) { TailIncreasing(rows); }
      }
      if rows[0].createdBy == userId then
        assert Increasing(rows) ==> Increasing([rows[0]] + rest) by {
          if Increasing(rows) { PrependKeepsIncreasing(rows, rest); }
        }
        [rows[0]] + rest
      else rest
  }

  /** `WHERE <column> = ? AND created_by = ?`. */
  predicate Matches(e: EventRow, userId: int, key: Key) {
    && e.createdBy == userId
    && match key
       case Id(id) => e.id == id
       case Title(title) => e.title == title
  }

  predicate AnyMatch(rows: seq<EventRow>, userId: int, key: Key) {
    exists e | e in rows :: Matches(e, userId, key)
  }

  /** `stmt.get(...)`: the first matching row in table order, if any. */
  function FirstMatch(rows: seq<EventRow>, userId: int, key: Key): (r: Option<EventRow>)
    ensures r.None? <==> !AnyMatch(rows, userId, key)
    ensures r.Some? ==> r.value in rows && Matches(r.value, userId, key)
  {
    if rows == [] then None
    else if Matches(rows[0], userId, key) then Some(rows[0])
    else
      assert AnyMatch(rows, userId, key) <==> AnyMatch(rows[1..], userId, key) by {
        assert rows == [rows[0]] + rows[1..];
      }
      FirstMatch(rows[1..], userId, key)
  }

  // ---------------------------------------------------------------------
  // Registrations

  ghost predicate NoDuplicates(regs: seq<Registration>) {
    forall i, j | 0 <= i < j < |regs| :: regs[i] != regs[j]
  }

  /** `DELETE FROM registrations WHERE event_id = ? AND user_id = ?`. */
  function WithoutPair(regs: seq<Registration>, reg: Registration): (r: seq<Registration>)
    ensures forall x :: x in r <==> x in regs && x != reg
    ensures NoDuplicates(regs) ==> NoDuplicates(r)
    ensures |r| <= |regs|
    ensures |r| == |regs| <==> reg !in regs
    ensures reg !in regs ==> r == regs
  {
    if regs == [] then []
    else
      var rest := WithoutPair(regs[1..], reg);
      assert forall x | x in rest :: x in regs[1..];
      assert NoDuplicates(regs) ==> regs[0] !in regs[1..];
      if regs[0] == reg then rest else [regs[0]] + rest
  }

  /** Registering and then unregistering the same pair leaves the
      registrations as they were. */
  lemma {:induction false} WithoutAppendedPair(regs: seq<Registration>, reg: Registration)
    requires reg !in regs
    ensures WithoutPair(regs + [reg], reg) == regs
  {
    if regs == [] {
      assert [] + [reg] == [reg];
    } else {
      assert (regs + [reg])[1..] == regs[1..] + [reg];
      WithoutAppendedPair(regs[1..], reg);
      assert regs == [regs[0]] + regs[1..];
    }
  }

  // ---------------------------------------------------------------------
  // The tables

  class EventTable {
    var events: seq<EventRow>
    var registrations: seq<Registration>

    ghost predicate Valid()
      reads this
    {
      Increasing(events) && NoDuplicates(registrations)
    }

    constructor ()
      ensures Valid() && events == [] && registrations == []
    {
      events := [];
      registrations := [];
    }

    /** createEvent(eventData): insert one row under a fresh id and return the
        data with that id. `dbTime` is the database clock that fills the
        row's `created_at`; `isoTime` is `new Date().toISOString()`, which the
        returned object carries instead. */
    method CreateEvent(data: EventData, dbTime: string, isoTime: string) returns (r: CreatedEvent)
      requires Valid()
      modifies this
      ensures Valid()
      ensures r.id == NextEventId(old(events)) && r.data == data && r.createdAt == isoTime
      ensures events == old(events) + [RowOf(r.id, data, dbTime)]
      ensures registrations == old(registrations)
    {
      var id := NextEventId(events);
      events := events + [RowOf(id, data, dbTime)];
      r := CreatedEvent(id, data, isoTime);
    }

    /** editEvent(id, eventData): overwrite the five edited columns of the row
        with that id; "Event not found" when no row changed. */
    method EditEvent(id: int, edit: EventEdit) returns (r: Result<EditedEvent>)
      requires Valid()
      modifies this
      ensures Valid()
      ensures registrations == old(registrations)
      ensures !HasRow(old(events), id) ==> r == Err(EditPrefix + EventNotFound) && events == old(events)
      ensures HasRow(old(events), id) ==> r == Ok(EditedEvent(id, edit)) && events == Overwrite(old(events), id, edit)
    {
      var changed := HasRow(events, id);
      var updated := Overwrite(events, id, edit);
      if !changed {
        assert updated == events;
      }
      events := updated;
      if !changed {
        r := Err(EditPrefix + EventNotFound);
      } else {
        r := Ok(EditedEvent(id, edit));
      }
    }

    /** deleteUserEvent(id): delete the row with that id; "Event not found"
        when no row was deleted. Registrations are not touched. */
    method DeleteUserEvent(id: int) returns (r: Result<string>)
      requires Valid()
      modifies this
      ensures Valid()
      ensures events == WithoutId(old(events), id)
      ensures registrations == old(registrations)
      ensures r == if HasRow(old(events), id) then Ok("Event deleted successfully")
                   else Err(DeletePrefix + EventNotFound)
    {
      var before := |events|;
      events := WithoutId(events, id);
      var changes := before - |events|;
      if changes == 0 {
        r := Err(DeletePrefix + EventNotFound);
      } else {
        r := Ok("Event deleted successfully");
      }
    }

    /** getAllEvents(): every row, in table order. */
    function GetAllEvents(): (r: seq<EventRow>)
      reads this
      ensures r == events
      ensures Valid() ==> Increasing(r) && forall a, b | a in r && b in r && a.id == b.id :: a == b
    {
      events
    }

    /** getEventsByUser(userId): exactly the rows the user owns, in
        ascending id order. */
    function GetEventsByUser(userId: int): (r: seq<EventRow>)
      reads this
      ensures forall e :: e in r <==> e in events && e.createdBy == userId
      ensures Valid() ==> Increasing(r)
    {
      OwnedBy(events, userId)
    }

    /** getEventByUserAndParameter(userId, column, value): the first row with
        that column value owned by the user. With no such row, matching on
        the id throws "Event not found", matching on the title returns
        nothing. */
    function GetEventByUserAndParameter(userId: int, key: Key): (r: Result<Option<EventRow>>)
      reads this
      ensures r.Err? <==> key.Id? && !AnyMatch(events, userId, key)
      ensures r.Err? ==> r.message == GetPrefix + EventNotFound
      ensures r == Ok(None) <==> key.Title? && !AnyMatch(events, userId, key)
      ensures r.Ok? && r.value.Some? ==> r.value.value in events && Matches(r.value.value, userId, key)
      ensures key.Id? ==> r != Ok(None)
    {
      var found := FirstMatch(events, userId, key);
      if found.None? && key.Id? then Err(GetPrefix + EventNotFound) else Ok(found)
    }

    /** registerForEvent(id, userId): refuse a pair that is already
        registered; otherwise insert exactly one row for it. */
    method RegisterForEvent(id: int, userId: int) returns (r: Result<string>)
      requires Valid()
      modifies this
      ensures Valid()
      ensures events == old(events)
      ensures Registration(id, userId) in old(registrations) ==>
                r == Err(RegisterPrefix + AlreadyRegistered) && registrations == old(registrations)
      ensures Registration(id, userId) !in old(registrations) ==>
                r == Ok("Event registered successfully")
                && registrations == old(registrations) + [Registration(id, userId)]
    {
      var existing := Registration(id, userId) in registrations;
      if existing {
        r := Err(RegisterPrefix + AlreadyRegistered);
        return;
      }
      // The INSERT has no conflict clause and the foreign keys are not
      // enforced, so it always changes exactly one row.
      registrations := registrations + [Registration(id, userId)];
      r := Ok("Event registered successfully");
    }

    /** unregisterForEvent(id, userId): delete the rows of the pair; "Event
        not found" when there were none. */
    method UnregisterForEvent(id: int, userId: int) returns (r: Result<string>)
      requires Valid()
      modifies this
      ensures Valid()
      ensures events == old(events)
      ensures registrations == WithoutPair(old(registrations), Registration(id, userId))
      ensures r == if Registration(id, userId) in old(registrations) then Ok("Event unregistered successfully")
                   else Err(UnregisterPrefix + EventNotFound)
    {
      var before := |registrations|;
      registrations := WithoutPair(registrations, Registration(id, userId));
      var changes := before - |registrations|;
      if changes == 0 {
        r := Err(UnregisterPrefix + EventNotFound);
      } else {
        r := Ok("Event unregistered successfully");
      }
    }
  }
}
