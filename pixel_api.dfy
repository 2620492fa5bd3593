/**
 * The device's four-level resolution cascade (`getPixelConfig`). The network
 * fetch, the clock and the storage read are inputs, so the cascade is a
 * deterministic decision over them:
 *   L1 a successful fetch, persisted to the single storage slot;
 *   L2 a stored record for the same seat that has not expired;
 *   L3 an expired stored record for the same seat, shown in its fallback colour;
 *   L4 a hard-coded black "Modo Offline" configuration.
 */
module PixelApi {
  import opened Basics

  /** The label of the hard-coded offline configuration. */
  const OfflineLabel: string := "Modo Offline"
  /** The default brightness. */
  const FullBrightness: int := 100

  datatype PixelConfig = PixelConfig(
    event: string,
    color: string,
    fallbackColor: Option<string>,
    expiresAt: Option<int>,
    brightness: int)

  /**
   * A parsed 2xx response body. Absent string fields are the empty string and
   * an absent or zero brightness is None or Some(0): all are falsy.
   */
  datatype ResponseBody = ResponseBody(
    event: string,
    color: string,
    fallbackColor: string,
    expiresAt: Option<int>,
    brightness: Option<int>)

  /** What the network gave: a parsed body, or any failure (non-2xx, network error, 2 s timeout, bad JSON). */
  datatype FetchOutcome = Fetched(body: ResponseBody) | FetchFailed

  /** The JSON record kept under `last_seat_config`: the configuration plus `seatId` and `savedAt`. */
  datatype StoredRecord = StoredRecord(config: PixelConfig, seatId: string, savedAt: int)

  /** The contents of the storage slot; `Unparsable` is text that `JSON.parse` rejects. */
  datatype Slot = Empty | Unparsable | Holds(record: StoredRecord)

  /** The hard-coded level-4 configuration. */
  const Offline: PixelConfig := PixelConfig(OfflineLabel, Black, None, None, FullBrightness)

  /** Level 1: the configuration built from a successful response, every field defaulted when falsy. */
  function LiveConfig(body: ResponseBody): (c: PixelConfig)
    ensures c.event == OrElse(body.event, "Evento")
    ensures c.color == OrElse(body.color, Black)
    ensures c.fallbackColor == Some(OrElse(body.fallbackColor, Black))
    ensures c.expiresAt == body.expiresAt
    ensures c.brightness != 0
    ensures body.brightness.Some? && body.brightness.value != 0 ==> c.brightness == body.brightness.value
    ensures !(body.brightness.Some? && body.brightness.value != 0) ==> c.brightness == FullBrightness
  {
    PixelConfig(
      OrElse(body.event, "Evento"),
      OrElse(body.color, Black),
      Some(OrElse(body.fallbackColor, Black)),
      body.expiresAt,
      if body.brightness.Some? && body.brightness.value != 0 then body.brightness.value else FullBrightness)
  }

  /** The stored deadline in milliseconds; a missing one counts as 0. */
  function Deadline(c: PixelConfig): int
  {
    match c.expiresAt
    case Some(t) => t
    case None => 0
  }

  /** A truthy fallback colour. */
  predicate HasFallback(c: PixelConfig)
  {
    c.fallbackColor.Some? && c.fallbackColor.value != []
  }

  /** Levels 2 to 4, chosen from the slot contents at time `now`. */
  function FallbackConfig(seatId: string, slot: Slot, now: int): (c: PixelConfig)
    ensures slot.Holds? && slot.record.seatId == seatId && Deadline(slot.record.config) > now ==>
      c == slot.record.config
    ensures slot.Holds? && slot.record.seatId == seatId && Deadline(slot.record.config) <= now
            && HasFallback(slot.record.config) ==>
      c == slot.record.config.(color := slot.record.config.fallbackColor.value)
    ensures !(slot.Holds? && slot.record.seatId == seatId
              && (Deadline(slot.record.config) > now || HasFallback(slot.record.config))) ==>
      c == Offline
  {
    if slot.Holds? && slot.record.seatId == seatId then
      var cached := slot.record.config;
      if Deadline(cached) > now then cached
      else if HasFallback(cached) then cached.(color := cached.fallbackColor.value)
      else Offline
    else Offline
  }

  /** A record the cascade itself could have written: the colour and the fallback colour are non-empty. */
  predicate WrittenByLevelOne(rec: StoredRecord)
  {
    rec.config.color != [] && HasFallback(rec.config)
  }

  /** Levels 2 to 4 always yield a non-empty colour when the slot holds a record level 1 could have written. */
  lemma FallbackAlwaysRenderable(seatId: string, slot: Slot, now: int)
    requires slot.Holds? ==> WrittenByLevelOne(slot.record)
    ensures FallbackConfig(seatId, slot, now).color != []
  {
  }

  /** L1 writes records of the expected shape. */
  lemma LiveRecordWellFormed(body: ResponseBody, seatId: string, now: int)
    ensures WrittenByLevelOne(StoredRecord(LiveConfig(body), seatId, now))
  {
  }

  /**
   * After a successful fetch for `seatId`, a later failing call for the same
   * seat shows the live colour until the deadline and the fallback colour
   * after it; a call for another seat falls to level 4.
   */
  lemma LaterFailureUsesSavedRecord(body: ResponseBody, seatId: string, savedAt: int, other: string, now: int)
    ensures var slot := Holds(StoredRecord(LiveConfig(body), seatId, savedAt));
      var c := FallbackConfig(seatId, slot, now);
      && (Deadline(LiveConfig(body)) > now ==> c == LiveConfig(body))
      && (Deadline(LiveConfig(body)) <= now ==> c == LiveConfig(body).(color := OrElse(body.fallbackColor, Black)))
      && (other != seatId ==> FallbackConfig(other, slot, now) == Offline)
  {
  }

  /** The whole cascade: the level-1 result when the fetch and the write succeed, else levels 2 to 4. */
  function Cascade(seatId: string, outcome: FetchOutcome, writeSucceeds: bool, readSucceeds: bool,
                   slot: Slot, now: int): (c: PixelConfig)
    ensures outcome.Fetched? && writeSucceeds ==> c == LiveConfig(outcome.body)
    ensures !(outcome.Fetched? && writeSucceeds) && readSucceeds ==> c == FallbackConfig(seatId, slot, now)
    ensures !(outcome.Fetched? && writeSucceeds) && !readSucceeds ==> c == Offline
  {
    if outcome.Fetched? && writeSucceeds then LiveConfig(outcome.body)
    else if readSucceeds then FallbackConfig(seatId, slot, now)
    else Offline
  }

  /** The cascade always ends in a configuration with a colour, provided storage holds its own records. */
  lemma CascadeAlwaysRenderable(seatId: string, outcome: FetchOutcome, writeSucceeds: bool, readSucceeds: bool,
                                slot: Slot, now: int)
    requires slot.Holds? ==> WrittenByLevelOne(slot.record)
    ensures Cascade(seatId, outcome, writeSucceeds, readSucceeds, slot, now).color != []
  {
    FallbackAlwaysRenderable(seatId, slot, now);
  }

  /** The device's key-value storage, reduced to the one slot the cascade uses. */
  class DeviceStorage {
    var lastSeatConfig: Slot

    constructor (initial: Slot)
      ensures lastSeatConfig == initial
    {
      lastSeatConfig := initial;
    }
  }

  /**
   * `getPixelConfig`: never fails. A fetched body is saved and returned only if
   * the storage write succeeds; otherwise (and on every fetch failure) the
   * fallback levels are evaluated, and a failing storage read goes to level 4.
   */
  method GetPixelConfig(storage: DeviceStorage, seatId: string, outcome: FetchOutcome,
                        writeSucceeds: bool, readSucceeds: bool, now: int)
    returns (c: PixelConfig)
    modifies storage
    ensures c == Cascade(seatId, outcome, writeSucceeds, readSucceeds, old(storage.lastSeatConfig), now)
    ensures storage.lastSeatConfig ==
      if outcome.Fetched? && writeSucceeds then Holds(StoredRecord(LiveConfig(outcome.body), seatId, now))
      else old(storage.lastSeatConfig)
  {
    if outcome.Fetched? {
      var config := LiveConfig(outcome.body);
      if writeSucceeds {
        storage.lastSeatConfig := Holds(StoredRecord(config, seatId, now));
        return config;
      }
    }
    if !readSucceeds {
      return Offline;
    }
    c := FallbackConfig(seatId, storage.lastSeatConfig, now);
  }
}
