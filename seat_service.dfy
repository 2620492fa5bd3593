/**
 * Cache-then-store resolution of a seat's colour. Every cache operation uses
 * the fixed event context "active-event" and configuration version 1; a miss
 * asks the event store and caches whatever record it builds, including the
 * "waiting" placeholder used when no event is active.
 */
module Resolution {
  import opened Basics
  import opened Cache
  import opened Events

  /** CURRENT_EVENT_ID_PREFIX: the event context of every cache key. */
  const ActiveContext: string := "active-event"
  /** CONFIG_VERSION. */
  const ConfigVersion: int := 1
  /** Lifetime of the placeholder record: one hour. */
  const PlaceholderLifetimeMs: int := 3600000
  /** The placeholder's event label, character for character as the service spells it. */
  const WaitingLabel: string := "Aguardando In\U{221A}\U{2260}cio..."

  datatype SeatData = SeatData(event: string, seat: string, color: string, fallbackColor: string, expiresAt: int, version: int)
  /** The `source` tag added to every answer. */
  datatype Source = FromCache | FromDb
  datatype SeatResponse = SeatResponse(data: SeatData, source: Source)

  /** `fetchFromSource`: the record cached and served for a store answer (or its absence). */
  function FetchFromSource(seatId: string, result: Option<SeatColor>, now: int): (d: SeatData)
    ensures d.seat == seatId && d.version == ConfigVersion
    ensures d.color != [] && d.fallbackColor != []
    ensures result.None? ==> d == SeatData(WaitingLabel, seatId, Black, Black, now + PlaceholderLifetimeMs, 1)
    ensures result.Some? ==>
      && d.event == result.value.event
      && d.color == OrElse(result.value.color, Black)
      && d.fallbackColor == OrElse(result.value.fallbackColor, Black)
      && d.expiresAt == result.value.expiresAt
  {
    match result
    case None => SeatData(WaitingLabel, seatId, Black, Black, now + PlaceholderLifetimeMs, ConfigVersion)
    case Some(r) => SeatData(r.event, seatId, OrElse(r.color, Black), OrElse(r.fallbackColor, Black), r.expiresAt, ConfigVersion)
  }

  /** The key under which the service caches a seat. */
  function ServiceKey(seatId: string): string
  {
    GenerateKey(seatId, ActiveContext)
  }

  /**
   * One `getSeatColor` call as a function of the cache contents and the store:
   * the answer and the cache contents afterwards.
   */
  function Serve(entries: map<string, CacheItem<SeatData>>, events: seq<Event>,
                 assignments: map<(string, nat), string>, seatId: string, now: int)
    : (res: (SeatResponse, map<string, CacheItem<SeatData>>))
    ensures var key := ServiceKey(seatId);
      res.0.source == FromCache <==> Lookup(entries, key, ConfigVersion, now).Some?
    ensures res.0.source == FromCache ==>
      res.0.data == entries[ServiceKey(seatId)].value && res.1 == entries
    ensures res.0.source == FromDb ==>
      && res.0.data == FetchFromSource(seatId, SeatColorFor(events, assignments, seatId, now), now)
      && res.1 == entries[ServiceKey(seatId) := CacheItem(res.0.data, now + TtlMs, ConfigVersion, now)]
  {
    var key := ServiceKey(seatId);
    match Lookup(entries, key, ConfigVersion, now)
    case Some(d) => (SeatResponse(d, FromCache), AfterLookup(entries, key, ConfigVersion, now))
    case None =>
      var d := FetchFromSource(seatId, SeatColorFor(events, assignments, seatId, now), now);
      (SeatResponse(d, FromDb), Stored(AfterLookup(entries, key, ConfigVersion, now), key, d, ConfigVersion, now))
  }

  /**
   * An entry written by the service is served, whatever the store now says,
   * until its deadline: admin writes do not reach the cache, so this is how
   * long a stale colour can be shown.
   */
  lemma ServedFromCacheUntilDeadline(entries: map<string, CacheItem<SeatData>>, events: seq<Event>,
                                     assignments: map<(string, nat), string>, seatId: string, now: int)
    requires ServiceKey(seatId) in entries
    requires entries[ServiceKey(seatId)].version == ConfigVersion
    requires now <= entries[ServiceKey(seatId)].expiresAt
    ensures Serve(entries, events, assignments, seatId, now)
         == (SeatResponse(entries[ServiceKey(seatId)].value, FromCache), entries)
  {
  }

  /** Past the deadline the store is consulted again and its current answer is served. */
  lemma RefetchedAfterDeadline(entries: map<string, CacheItem<SeatData>>, events: seq<Event>,
                               assignments: map<(string, nat), string>, seatId: string, now: int)
    requires ServiceKey(seatId) in entries
    requires entries[ServiceKey(seatId)].expiresAt < now
    ensures Serve(entries, events, assignments, seatId, now).0
         == SeatResponse(FetchFromSource(seatId, SeatColorFor(events, assignments, seatId, now), now), FromDb)
  {
  }

  /**
   * A miss at `t1` followed by any change of the store and a second read of the
   * same seat at `t2 <= t1 + 60 s` returns the first answer from the cache.
   */
  lemma StaleWindow(entries: map<string, CacheItem<SeatData>>,
                    events1: seq<Event>, assignments1: map<(string, nat), string>,
                    events2: seq<Event>, assignments2: map<(string, nat), string>,
                    seatId: string, t1: int, t2: int)
    requires t1 <= t2 <= t1 + TtlMs
    requires Serve(entries, events1, assignments1, seatId, t1).0.source == FromDb
    ensures var (r1, after) := Serve(entries, events1, assignments1, seatId, t1);
      Serve(after, events2, assignments2, seatId, t2) == (SeatResponse(r1.data, FromCache), after)
  {
    var (r1, after) := Serve(entries, events1, assignments1, seatId, t1);
    ServedFromCacheUntilDeadline(after, events2, assignments2, seatId, t2);
  }

  /** After `invalidateSeat` the next read of that seat goes to the store. */
  lemma InvalidatedSeatMisses(entries: map<string, CacheItem<SeatData>>, events: seq<Event>,
                              assignments: map<(string, nat), string>, seatId: string, now: int)
    ensures Serve(entries - {ServiceKey(seatId)}, events, assignments, seatId, now).0.source == FromDb
  {
  }

  /** Reading one seat leaves every other seat's entry as it was. */
  lemma OtherSeatsUntouched(entries: map<string, CacheItem<SeatData>>, events: seq<Event>,
                            assignments: map<(string, nat), string>, seatId: string, other: string, now: int)
    requires other != seatId
    ensures var after := Serve(entries, events, assignments, seatId, now).1;
      (ServiceKey(other) in after <==> ServiceKey(other) in entries)
      && (ServiceKey(other) in entries ==> after[ServiceKey(other)] == entries[ServiceKey(other)])
  {
    if ServiceKey(other) == ServiceKey(seatId) {
      KeyInjectiveForEvent(other, seatId, ActiveContext);
    }
  }

  /** Every entry of the service's cache carries version 1. */
  ghost predicate AllCurrentVersion(entries: map<string, CacheItem<SeatData>>)
  {
    forall k :: k in entries ==> entries[k].version == ConfigVersion
  }

  /**
   * The service only writes version 1, so a version mismatch never happens
   * through it: a miss means the entry is absent or past its deadline.
   */
  lemma OnlyAbsenceOrExpiryMisses(entries: map<string, CacheItem<SeatData>>, events: seq<Event>,
                                  assignments: map<(string, nat), string>, seatId: string, now: int)
    requires AllCurrentVersion(entries)
    ensures AllCurrentVersion(Serve(entries, events, assignments, seatId, now).1)
    ensures Serve(entries, events, assignments, seatId, now).0.source == FromDb <==>
      ServiceKey(seatId) !in entries || entries[ServiceKey(seatId)].expiresAt < now
  {
  }

  /** The service object over the shared cache and the event store. */
  class SeatService {
    const cache: SeatCache<SeatData>
    const store: EventService

    constructor (cache: SeatCache<SeatData>, store: EventService)
      ensures this.cache == cache && this.store == store
    {
      this.cache := cache;
      this.store := store;
    }

    /** `getSeatColor`: cache first; on a miss the store's answer is cached and returned. */
    method GetSeatColor(seatId: string, now: int) returns (r: SeatResponse)
      requires store.Valid()
      modifies cache, store
      ensures store.Valid()
      ensures (r, cache.entries) == Serve(old(cache.entries), old(store.events), old(store.assignments), seatId, now)
      ensures store.events == old(store.events) && store.seats == old(store.seats)
      ensures store.assignments == old(store.assignments)
      ensures r.source == FromCache ==> unchanged(store)
      ensures r.source == FromDb ==>
        && store.cachedActiveEventId == ActiveEvent(store.events)
        && store.lastCacheUpdate == if PointerFresh(old(store.cachedActiveEventId), old(store.lastCacheUpdate), now)
                                    then old(store.lastCacheUpdate) else now
    {
      var cached := cache.Get(seatId, ActiveContext, ConfigVersion, now);
      if cached.Some? {
        return SeatResponse(cached.value, FromCache);
      }
      var result := store.GetSeatColor(seatId, now);
      var data := FetchFromSource(seatId, result, now);
      cache.Set(seatId, ActiveContext, data, ConfigVersion, now);
      return SeatResponse(data, FromDb);
    }

    /** `invalidateSeat`: drop the seat's entry and nothing else. */
    method InvalidateSeat(seatId: string)
      modifies cache
      ensures cache.entries == old(cache.entries) - {ServiceKey(seatId)}
    {
      cache.Invalidate(seatId, ActiveContext);
    }
  }
}
