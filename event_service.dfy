/**
 * The event store logic of the backend. The relational store is modelled as
 * values: the event table as a sequence whose index is the event id (the
 * order in which events were created), the seat table as a map from seat id,
 * and the seat-event table as a map keyed by (seat id, event id), which makes
 * "at most one assignment per pair" hold by construction. Next to the store
 * sits the module-level "active event id" pointer with its own 30-second TTL.
 */
module Events {
  import opened Basics
  import opened Strings

  /** CACHE_TTL of the active-event pointer. */
  const ActiveEventTtlMs: int := 30000
  /** Lifetime of a resolved seat colour: three hours. */
  const ResolutionLifetimeMs: int := 3 * 60 * 60 * 1000
  /** Name of the event created on demand by `setSeatColor`. */
  const DefaultEventName: string := "Evento Padr\U{E3}o"

  datatype Event = Event(id: nat, name: string, fallbackColor: string, isActive: bool)
  datatype Seat = Seat(id: string, sector: string, row: string, number: string)
  datatype Assignment = Assignment(seatId: string, eventId: nat, color: string)
  /** What `getSeatColor` resolves for a seat under the active event. */
  datatype SeatColor = SeatColor(event: string, color: string, fallbackColor: string, expiresAt: int)
  /** One row of `seatEvent.findMany`: a seat and its colour. */
  datatype Row = Row(seatId: string, color: string)
  /** What `getAllEventSeats` returns for an existing event. */
  datatype EventSeats = EventSeats(name: string, fallbackColor: string, seats: seq<Row>)

  // ---------------------------------------------------------------------------
  // The active event

  /** `findFirst({ where: { isActive: true } })`, scanning from index `i`. */
  function FirstActiveFrom(events: seq<Event>, i: nat): (r: Option<nat>)
    requires i <= |events|
    ensures r.Some? ==> i <= r.value < |events| && events[r.value].isActive
    ensures r.Some? ==> forall j :: i <= j < r.value ==> !events[j].isActive
    ensures r.None? ==> forall j :: i <= j < |events| ==> !events[j].isActive
    decreases |events| - i
  {
    if i == |events| then None
    else if events[i].isActive then Some(i)
    else FirstActiveFrom(events, i + 1)
  }

  /** The id of the first active event, if any. */
  function ActiveEvent(events: seq<Event>): (r: Option<nat>)
    ensures r.Some? ==> r.value < |events| && events[r.value].isActive
    ensures r.None? <==> forall j :: 0 <= j < |events| ==> !events[j].isActive
  {
    FirstActiveFrom(events, 0)
  }

  predicate AtMostOneActive(events: seq<Event>)
  {
    forall i, j :: 0 <= i < j < |events| && events[i].isActive ==> !events[j].isActive
  }

  /** Referential shape of the store: ids are indices, one active event, assignments name events that exist. */
  predicate StoreValid(events: seq<Event>, assignments: map<(string, nat), string>)
  {
    && (forall i :: 0 <= i < |events| ==> events[i].id == i)
    && AtMostOneActive(events)
    && (forall k :: k in assignments ==> k.1 < |events|)
  }

  /** The pointer may be served without a store query: it is set and younger than the TTL. */
  predicate PointerFresh(pointer: Option<nat>, lastUpdate: int, now: int)
  {
    pointer.Some? && now - lastUpdate < ActiveEventTtlMs
  }

  /** `event.updateMany({ data: { isActive: false } })`. */
  function Deactivated(events: seq<Event>): (r: seq<Event>)
    ensures |r| == |events|
    ensures forall i :: 0 <= i < |r| ==> r[i] == events[i].(isActive := false)
  {
    seq(|events|, i requires 0 <= i < |events| => events[i].(isActive := false))
  }

  /** The event table after `createActiveEvent(name, fallbackColor)`. */
  function WithNewActive(events: seq<Event>, name: string, fallbackColor: string): (r: seq<Event>)
    ensures |r| == |events| + 1
    ensures forall i :: 0 <= i < |events| ==> r[i] == events[i].(isActive := false)
    ensures r[|events|] == Event(|events|, name, fallbackColor, true)
  {
    Deactivated(events) + [Event(|events|, name, fallbackColor, true)]
  }

  /** After creating an event it is the only active one and the first active one. */
  lemma NewEventIsOnlyActive(events: seq<Event>, name: string, fallbackColor: string)
    requires StoreValid(events, map[])
    ensures var r := WithNewActive(events, name, fallbackColor);
      && (forall i :: 0 <= i < |r| ==> (r[i].isActive <==> i == |events|))
      && ActiveEvent(r) == Some(|events|)
      && StoreValid(r, map[])
  {
    var r := WithNewActive(events, name, fallbackColor);
    assert r[|events|].isActive;
  }

  // ---------------------------------------------------------------------------
  // Seat ids

  /** `parts[i]`, or the empty string standing for `undefined` past the end. */
  function PartAt(parts: seq<string>, i: nat): (part: string)
    ensures i < |parts| ==> part == parts[i]
    ensures i >= |parts| ==> part == []
  {
    if i < |parts| then parts[i] else ""
  }

  /** `seatId.split('-')` into sector, row and number; missing or empty parts become "X", "0", "0". */
  function ParseSeatId(seatId: string): (seat: Seat)
    ensures seat.id == seatId
    ensures seat.sector != [] && seat.row != [] && seat.number != []
    ensures '-' !in seat.sector && '-' !in seat.row && '-' !in seat.number
  {
    var parts := Split(seatId, '-');
    SplitPartsFree(seatId, '-');
    Seat(seatId, OrElse(PartAt(parts, 0), "X"), OrElse(PartAt(parts, 1), "0"), OrElse(PartAt(parts, 2), "0"))
  }

  /** A well-formed id `a-b-c` parses into its three parts. */
  lemma ParseThreeParts(a: string, b: string, c: string)
    requires a != [] && b != [] && c != []
    requires '-' !in a && '-' !in b && '-' !in c
    ensures ParseSeatId(a + "-" + b + "-" + c) == Seat(a + "-" + b + "-" + c, a, b, c)
  {
    SplitWithoutSeparator(a, '-');
    SplitAppend(a, b, '-');
    SplitAppend(a + "-" + b, c, '-');
    assert a + "-" + b == a + ['-'] + b;
    assert a + "-" + b + "-" + c == (a + "-" + b) + ['-'] + c;
    assert Split(a + "-" + b + "-" + c, '-') == [a, b, c];
  }

  /** Parts after the third are ignored. */
  lemma ParseIgnoresExtraParts(a: string, rest: string)
    requires '-' !in a
    ensures ParseSeatId(a + "-" + rest).sector == OrElse(a, "X")
  {
    assert a + "-" + rest == a + ['-'] + rest;
    SplitPrepend(a, rest, '-');
  }

  /**
   * Any id made of dash-free parts parses into its first three parts, each
   * defaulted when missing or empty; parts after the third are ignored.
   */
  lemma ParseJoinedParts(parts: seq<string>)
    requires |parts| >= 1
    requires forall i :: 0 <= i < |parts| ==> '-' !in parts[i]
    ensures var id := Join(parts, '-');
      ParseSeatId(id) == Seat(id, OrElse(PartAt(parts, 0), "X"), OrElse(PartAt(parts, 1), "0"), OrElse(PartAt(parts, 2), "0"))
  {
    JoinSplit(parts, '-');
  }

  /** The defaults at work: an empty id, an id without dashes, and an id with an empty row. */
  lemma ParseDefaults(a: string, c: string)
    requires '-' !in a && '-' !in c
    ensures ParseSeatId("") == Seat("", "X", "0", "0")
    ensures ParseSeatId(a) == Seat(a, OrElse(a, "X"), "0", "0")
    ensures ParseSeatId(a + "--" + c) == Seat(a + "--" + c, OrElse(a, "X"), "0", OrElse(c, "0"))
  {
    ParseJoinedParts([""]);
    ParseJoinedParts([a]);
    ParseJoinedParts([a, "", c]);
    var ps := [a, "", c];
    assert ps[1..] == ["", c] && ps[1..][1..] == [c];
    assert Join(["", c], '-') == [] + ['-'] + c;
    assert Join(ps, '-') == a + ['-'] + Join(["", c], '-');
    assert a + ['-'] + ([] + ['-'] + c) == a + "--" + c;
  }

  // ---------------------------------------------------------------------------
  // Resolution and the admin views

  /** `getSeatColor`'s answer for a seat under the store's active event. */
  function SeatColorFor(events: seq<Event>, assignments: map<(string, nat), string>, seatId: string, now: int)
    : (r: Option<SeatColor>)
    ensures r.None? <==> ActiveEvent(events).None?
    ensures r.Some? ==> r.value.expiresAt == now + ResolutionLifetimeMs
    ensures r.Some? && (seatId, ActiveEvent(events).value) in assignments ==>
      var e := events[ActiveEvent(events).value];
      && r.value.color == assignments[(seatId, ActiveEvent(events).value)]
      && r.value.fallbackColor == e.fallbackColor && r.value.event == e.name
    ensures r.Some? && (seatId, ActiveEvent(events).value) !in assignments ==>
      var e := events[ActiveEvent(events).value];
      && r.value.color == r.value.fallbackColor == OrElse(e.fallbackColor, Black)
      && r.value.event == OrElse(e.name, "Unknown")
  {
    match ActiveEvent(events)
    case None => None
    case Some(id) =>
      var e := events[id];
      var expiresAt := now + ResolutionLifetimeMs;
      if (seatId, id) in assignments then
        Some(SeatColor(e.name, assignments[(seatId, id)], e.fallbackColor, expiresAt))
      else
        Some(SeatColor(OrElse(e.name, "Unknown"), OrElse(e.fallbackColor, Black), OrElse(e.fallbackColor, Black), expiresAt))
  }

  /** `seatEvent.deleteMany({ where: { eventId } })`. */
  function WithoutEvent(assignments: map<(string, nat), string>, eventId: nat): (r: map<(string, nat), string>)
    ensures forall k :: k in r <==> k in assignments && k.1 != eventId
    ensures forall k :: k in r ==> r[k] == assignments[k]
  {
    map k | k in assignments && k.1 != eventId :: assignments[k]
  }

  /** After an assignment under the active event, that seat resolves to the assigned colour. */
  lemma AssignedColorResolves(events: seq<Event>, assignments: map<(string, nat), string>,
                              seatId: string, color: string, now: int)
    requires ActiveEvent(events).Some?
    ensures var id := ActiveEvent(events).value;
      var r := SeatColorFor(events, assignments[(seatId, id) := color], seatId, now);
      r == Some(SeatColor(events[id].name, color, events[id].fallbackColor, now + ResolutionLifetimeMs))
  {
  }

  /** After a reset every seat resolves to the active event's fallback colour. */
  lemma ResetServesFallback(events: seq<Event>, assignments: map<(string, nat), string>, seatId: string, now: int)
    requires ActiveEvent(events).Some?
    ensures var id := ActiveEvent(events).value;
      var r := SeatColorFor(events, WithoutEvent(assignments, id), seatId, now);
      r.Some? && r.value.color == r.value.fallbackColor == OrElse(events[id].fallbackColor, Black)
  {
  }

  /** The seat-to-colour map of one event. */
  function EventMap(assignments: map<(string, nat), string>, eventId: nat): (m: map<string, string>)
    ensures forall s :: s in m <==> (s, eventId) in assignments
    ensures forall s :: s in m ==> m[s] == assignments[(s, eventId)]
  {
    var seatIds := set k | k in assignments && k.1 == eventId :: k.0;
    map s | s in seatIds :: assignments[(s, eventId)]
  }

  /** `rows.reduce((acc, curr) => ({ ...acc, [curr.seatId]: curr.color }), {})`. */
  function ReduceRows(rows: seq<Row>): (m: map<string, string>)
    ensures rows != [] ==> rows[|rows| - 1].seatId in m && m[rows[|rows| - 1].seatId] == rows[|rows| - 1].color
  {
    if rows == [] then map[]
    else
      var last := rows[|rows| - 1];
      ReduceRows(rows[..|rows| - 1])[last.seatId := last.color]
  }

  /** Every key of the reduced map comes from a row, and every row's seat is a key. */
  lemma {:induction false} ReduceRowsKeys(rows: seq<Row>)
    ensures forall i :: 0 <= i < |rows| ==> rows[i].seatId in ReduceRows(rows)
    ensures forall s :: s in ReduceRows(rows) ==>
      exists i :: 0 <= i < |rows| && rows[i] == Row(s, ReduceRows(rows)[s])
  {
    if rows != [] {
      var init := rows[..|rows| - 1];
      ReduceRowsKeys(init);
      var r := ReduceRows(rows);
      forall s | s in r
        ensures exists i :: 0 <= i < |rows| && rows[i] == Row(s, r[s])
      {
        if s != rows[|rows| - 1].seatId {
          assert s in ReduceRows(init) && r[s] == ReduceRows(init)[s];
          var i :| 0 <= i < |init| && init[i] == Row(s, ReduceRows(init)[s]);
          assert rows[i] == Row(s, r[s]);
        } else {
          assert rows[|rows| - 1] == Row(s, r[s]);
        }
      }
    }
  }

  /** The spread keeps, for each seat, the colour of its last row. */
  lemma {:induction false} ReduceRowsLastWins(rows: seq<Row>, i: nat)
    requires i < |rows|
    requires forall j :: i < j < |rows| ==> rows[j].seatId != rows[i].seatId
    ensures rows[i].seatId in ReduceRows(rows) && ReduceRows(rows)[rows[i].seatId] == rows[i].color
  {
    if i < |rows| - 1 {
      ReduceRowsLastWins(rows[..|rows| - 1], i);
    }
  }

  /** Reducing any listing of one event's assignments, in any order, gives that event's map. */
  lemma ReduceRowsIsEventMap(rows: seq<Row>, assignments: map<(string, nat), string>, eventId: nat)
    requires forall i :: 0 <= i < |rows| ==>
      (rows[i].seatId, eventId) in assignments && assignments[(rows[i].seatId, eventId)] == rows[i].color
    requires forall s :: (s, eventId) in assignments ==> exists i :: 0 <= i < |rows| && rows[i].seatId == s
    ensures ReduceRows(rows) == EventMap(assignments, eventId)
  {
    ReduceRowsKeys(rows);
    RowsMapIsEventMap(rows, ReduceRows(rows), assignments, eventId);
  }

  /** A map whose keys and values all come from a complete listing of one event's assignments is that event's map. */
  lemma RowsMapIsEventMap(rows: seq<Row>, r: map<string, string>, assignments: map<(string, nat), string>, eventId: nat)
    requires forall i :: 0 <= i < |rows| ==>
      (rows[i].seatId, eventId) in assignments && assignments[(rows[i].seatId, eventId)] == rows[i].color
    requires forall s :: (s, eventId) in assignments ==> exists i :: 0 <= i < |rows| && rows[i].seatId == s
    requires forall i :: 0 <= i < |rows| ==> rows[i].seatId in r
    requires forall s :: s in r ==> exists i :: 0 <= i < |rows| && rows[i] == Row(s, r[s])
    ensures r == EventMap(assignments, eventId)
  {
    var m := EventMap(assignments, eventId);
    forall s | s in r ensures s in m && r[s] == m[s] {
      var i :| 0 <= i < |rows| && rows[i] == Row(s, r[s]);
    }
    forall s | s in m ensures s in r {
      var i :| 0 <= i < |rows| && rows[i].seatId == s;
    }
    assert r.Keys == m.Keys;
  }

  // ---------------------------------------------------------------------------
  // The service with its module-level state

  class EventService {
    var events: seq<Event>
    var seats: map<string, Seat>
    var assignments: map<(string, nat), string>
    /** `cachedActiveEventId` and `lastCacheUpdate`. */
    var cachedActiveEventId: Option<nat>
    var lastCacheUpdate: int

    /** The store is well formed, and a set pointer names the store's active event. */
    ghost predicate Valid()
      reads this
    {
      && StoreValid(events, assignments)
      && (cachedActiveEventId.Some? ==> cachedActiveEventId == ActiveEvent(events))
    }

    /** The module's initial state over an existing store: no pointer, last update 0. */
    constructor (events0: seq<Event>, seats0: map<string, Seat>, assignments0: map<(string, nat), string>)
      requires StoreValid(events0, assignments0)
      ensures Valid()
      ensures events == events0 && seats == seats0 && assignments == assignments0
      ensures cachedActiveEventId == None && lastCacheUpdate == 0
    {
      events, seats, assignments := events0, seats0, assignments0;
      cachedActiveEventId, lastCacheUpdate := None, 0;
    }

    /**
     * `getActiveEventId`: a fresh pointer is served as is; otherwise the store is
     * queried and both pointer fields are rewritten. Either way the answer is the
     * store's active event.
     */
    method GetActiveEventId(now: int) returns (id: Option<nat>)
      requires Valid()
      modifies this
      ensures Valid()
      ensures id == ActiveEvent(events) && cachedActiveEventId == id
      ensures events == old(events) && seats == old(seats) && assignments == old(assignments)
      ensures PointerFresh(old(cachedActiveEventId), old(lastCacheUpdate), now) ==>
        cachedActiveEventId == old(cachedActiveEventId) && lastCacheUpdate == old(lastCacheUpdate)
      ensures !PointerFresh(old(cachedActiveEventId), old(lastCacheUpdate), now) ==> lastCacheUpdate == now
    {
      if cachedActiveEventId.Some? && now - lastCacheUpdate < ActiveEventTtlMs {
        return cachedActiveEventId;
      }
      cachedActiveEventId := ActiveEvent(events);
      lastCacheUpdate := now;
      return cachedActiveEventId;
    }

    /** `getSeatColor`: no active event gives None; otherwise the assignment or the event's fallback. */
    method GetSeatColor(seatId: string, now: int) returns (r: Option<SeatColor>)
      requires Valid()
      modifies this
      ensures Valid()
      ensures r == SeatColorFor(events, assignments, seatId, now)
      ensures events == old(events) && seats == old(seats) && assignments == old(assignments)
      ensures cachedActiveEventId == ActiveEvent(events)
      ensures lastCacheUpdate == if PointerFresh(old(cachedActiveEventId), old(lastCacheUpdate), now)
                                 then old(lastCacheUpdate) else now
    {
      var eventId := GetActiveEventId(now);
      if eventId.None? {
        return None;
      }
      var id := eventId.value;
      var event := events[id];
      var expiresAt := now + ResolutionLifetimeMs;
      if (seatId, id) !in assignments {
        var fallback := OrElse(event.fallbackColor, Black);
        return Some(SeatColor(OrElse(event.name, "Unknown"), fallback, fallback, expiresAt));
      }
      return Some(SeatColor(event.name, assignments[(seatId, id)], event.fallbackColor, expiresAt));
    }

    /**
     * `createActiveEvent`: deactivate all, create the new active event, point at it.
     * The source's default fallback colour (black) is an explicit argument here;
     * every caller passes one, `SetSeatColor` passing `Black`.
     */
    method CreateActiveEvent(name: string, fallbackColor: string) returns (event: Event)
      requires Valid()
      modifies this
      ensures Valid()
      ensures event == Event(|old(events)|, name, fallbackColor, true)
      ensures events == WithNewActive(old(events), name, fallbackColor)
      ensures forall i :: 0 <= i < |events| ==> (events[i].isActive <==> i == event.id)
      ensures ActiveEvent(events) == Some(event.id) && cachedActiveEventId == Some(event.id)
      ensures lastCacheUpdate == old(lastCacheUpdate)
      ensures seats == old(seats) && assignments == old(assignments)
    {
      NewEventIsOnlyActive(events, name, fallbackColor);
      event := Event(|events|, name, fallbackColor, true);
      events := Deactivated(events) + [event];
      cachedActiveEventId := Some(event.id);
    }

    /**
     * `setSeatColor`: under the active event (one named "Evento Padrão" is
     * created when none is active), create the seat row if it is missing and
     * upsert the assignment. The seat cache is not touched.
     */
    method SetSeatColor(seatId: string, color: string, now: int) returns (a: Assignment)
      requires Valid()
      modifies this
      ensures Valid()
      ensures a == Assignment(seatId, a.eventId, color)
      ensures ActiveEvent(events) == Some(a.eventId) && cachedActiveEventId == Some(a.eventId)
      ensures old(ActiveEvent(events)).Some? ==>
        events == old(events) && a.eventId == old(ActiveEvent(events)).value
      ensures old(ActiveEvent(events)).None? ==>
        events == WithNewActive(old(events), DefaultEventName, Black) && a.eventId == |old(events)|
      ensures assignments == old(assignments)[(seatId, a.eventId) := color]
      ensures seats == if seatId in old(seats) then old(seats) else old(seats)[seatId := ParseSeatId(seatId)]
      ensures lastCacheUpdate == if PointerFresh(old(cachedActiveEventId), old(lastCacheUpdate), now)
                                 then old(lastCacheUpdate) else now
    {
      var eventId := GetActiveEventId(now);
      var id: nat;
      if eventId.None? {
        var event := CreateActiveEvent(DefaultEventName, Black);
        id := event.id;
      } else {
        id := eventId.value;
      }
      var seat := ParseSeatId(seatId);
      if seatId !in seats {
        seats := seats[seatId := seat];
      }
      assignments := assignments[(seatId, id) := color];
      a := Assignment(seatId, id, color);
    }

    /** `resetEvent`: delete every assignment of the active event; always reports success. */
    method ResetEvent(now: int) returns (success: bool)
      requires Valid()
      modifies this
      ensures Valid()
      ensures success
      ensures events == old(events) && seats == old(seats)
      ensures ActiveEvent(events).None? ==> assignments == old(assignments)
      ensures ActiveEvent(events).Some? ==> assignments == WithoutEvent(old(assignments), ActiveEvent(events).value)
      ensures cachedActiveEventId == ActiveEvent(events)
      ensures lastCacheUpdate == if PointerFresh(old(cachedActiveEventId), old(lastCacheUpdate), now)
                                 then old(lastCacheUpdate) else now
    {
      var eventId := GetActiveEventId(now);
      if eventId.Some? {
        assignments := WithoutEvent(assignments, eventId.value);
      }
      return true;
    }

    /**
     * `seatEvent.findMany({ where: { eventId } })`: the rows of one event, each
     * once, in an order the store does not specify.
     */
    method FindManyRows(eventId: nat) returns (rows: seq<Row>)
      ensures forall i :: 0 <= i < |rows| ==>
        (rows[i].seatId, eventId) in assignments && assignments[(rows[i].seatId, eventId)] == rows[i].color
      ensures forall s :: (s, eventId) in assignments ==> exists i :: 0 <= i < |rows| && rows[i].seatId == s
      ensures forall i, j :: 0 <= i < j < |rows| ==> rows[i].seatId != rows[j].seatId
      ensures |rows| <= |assignments|
    {
      var pending := assignments.Keys;
      rows := [];
      while pending != {}
        invariant pending <= assignments.Keys
        invariant |rows| + |pending| <= |assignments|
        invariant forall i :: 0 <= i < |rows| ==>
          (rows[i].seatId, eventId) in assignments && assignments[(rows[i].seatId, eventId)] == rows[i].color
        invariant forall s :: (s, eventId) in assignments && (s, eventId) !in pending ==>
          exists i :: 0 <= i < |rows| && rows[i].seatId == s
        invariant forall i :: 0 <= i < |rows| ==> (rows[i].seatId, eventId) !in pending
        invariant forall i, j :: 0 <= i < j < |rows| ==> rows[i].seatId != rows[j].seatId
        decreases pending
      {
        var k :| k in pending;
        if k.1 == eventId {
          var before := rows;
          rows := rows + [Row(k.0, assignments[k])];
          forall s | (s, eventId) in assignments && (s, eventId) !in pending - {k}
            ensures exists i :: 0 <= i < |rows| && rows[i].seatId == s
          {
            if s == k.0 {
              assert rows[|rows| - 1].seatId == s;
            } else {
              var i :| 0 <= i < |before| && before[i].seatId == s;
              assert rows[i].seatId == s;
            }
          }
        }
        pending := pending - {k};
      }
    }

    /** `getEventMap`: the active event's seat-to-colour map, or the empty map. */
    method GetEventMap(now: int) returns (m: map<string, string>)
      requires Valid()
      modifies this
      ensures Valid()
      ensures ActiveEvent(events).None? ==> m == map[]
      ensures ActiveEvent(events).Some? ==> m == EventMap(assignments, ActiveEvent(events).value)
      ensures events == old(events) && seats == old(seats) && assignments == old(assignments)
      ensures cachedActiveEventId == ActiveEvent(events)
      ensures lastCacheUpdate == if PointerFresh(old(cachedActiveEventId), old(lastCacheUpdate), now)
                                 then old(lastCacheUpdate) else now
    {
      var eventId := GetActiveEventId(now);
      if eventId.None? {
        return map[];
      }
      var rows := FindManyRows(eventId.value);
      m := ReduceRows(rows);
      ReduceRowsIsEventMap(rows, assignments, eventId.value);
    }

    /** `getAllEventSeats`: None for an unknown event, else its name, fallback colour and rows. */
    method GetAllEventSeats(eventId: nat) returns (r: Option<EventSeats>)
      requires Valid()
      ensures r.None? <==> eventId >= |events|
      ensures r.Some? ==> r.value.name == events[eventId].name && r.value.fallbackColor == events[eventId].fallbackColor
      ensures r.Some? ==> forall i :: 0 <= i < |r.value.seats| ==>
        var row := r.value.seats[i];
        (row.seatId, eventId) in assignments && assignments[(row.seatId, eventId)] == row.color
      ensures r.Some? ==> forall s :: (s, eventId) in assignments ==>
        exists i :: 0 <= i < |r.value.seats| && r.value.seats[i].seatId == s
      ensures r.Some? ==> forall i, j :: 0 <= i < j < |r.value.seats| ==> r.value.seats[i].seatId != r.value.seats[j].seatId
      ensures r.Some? ==> ReduceRows(r.value.seats) == EventMap(assignments, eventId)
    {
      if eventId >= |events| {
        return None;
      }
      var event := events[eventId];
      var rows := FindManyRows(eventId);
      ReduceRowsIsEventMap(rows, assignments, eventId);
      return Some(EventSeats(event.name, event.fallbackColor, rows));
    }
  }
}
