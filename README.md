# Stadium pixel: a Dafny model of the seat-colour read path

The system turns every stadium seat into a light. An admin picks a colour for a seat under the active
event. A phone scans the QR sticker on that seat and paints its screen with the colour. The backend
resolves a seat's colour through an in-process cache in front of the event store. The phone falls back
through four levels when the network or its own storage fails.

The model covers that read path and the small rules around it, one Dafny module per source file:

| module | file | source |
|---|---|---|
| `Basics` | basics.dfy | `Option` and the JavaScript `a \|\| b` default for strings (the empty string is falsy) |
| `Strings` | strings.dfy | `String.prototype.split` on one character, with its inverse `Join` |
| `Cache` | seat_cache.dfy | backend/src/cache/seatCache.ts |
| `Events` | event_service.dfy | backend/src/services/eventService.ts |
| `Resolution` | seat_service.dfy | backend/src/services/seatService.ts |
| `PixelApi` | pixel_api.dfy | src/services/api.ts |
| `Scanner` | scanner.dfy | app/scanner.tsx |
| `PixelScreen` | pixel_screen.dfy | app/pixel.tsx |
| `SeatGrid` | seat_grid.dfy | admin/components/SeatGrid.tsx |
| `QrStickers` | qr_stickers.dfy | qr-generator/generate.js |

State that the source updates in place is a class whose methods carry `modifies` clauses:
- the cache map (`Cache.SeatCache`);
- the module-level active-event pointer together with the store (`Events.EventService`);
- the device's storage slot (`PixelApi.DeviceStorage`);
- the scanner flag, the double-tap ref and the admin's colour map.

Each such method is specified by a pure function of the old state. The properties are proved about
those functions. The clock is an integer parameter `now` in milliseconds. The network outcome, the
success of a storage write and of a storage read are parameters of the cascade.

The relational store is modelled as values:
- the event table is a sequence whose index is the event id;
- the seat table is a map from seat id;
- the seat-event table is a map keyed by the pair (seat id, event id).

As in the code, `setSeatColor` and `resetEvent` write only the store and never invalidate the seat
cache, so an old colour can be served until its cache entry expires; `Resolution.StaleWindow` bounds
how long.

## Model

| member | source | states |
|---|---|---|
| Basics.OrElse | backend/src/services/seatService.ts:75-76 | `s \|\| d` on strings: `s` when non-empty, otherwise `d`; non-empty whenever `d` is |
| Strings.Split | app/scanner.tsx:27 | splitting always yields at least one part |
| Strings.SplitPartsFree | app/scanner.tsx:27 | no part of a split contains the separator |
| Strings.SplitJoin | app/scanner.tsx:27 | joining the parts with the separator gives back the string |
| Strings.SplitLastIsSuffix | app/scanner.tsx:27-28 | the last part is a suffix of the string, and is preceded by the separator when shorter |
| Strings.SplitWithoutSeparator | backend/src/services/eventService.ts:92 | a string without the separator splits into itself alone |
| Strings.SplitAppend | backend/src/services/eventService.ts:92 | appending a separator and a separator-free tail appends exactly that tail as a new part |
| Strings.SplitPrepend | backend/src/services/eventService.ts:92 | prepending a separator-free head and a separator prepends exactly that head as a new part |
| Strings.JoinSplit | backend/src/services/eventService.ts:92 | splitting the join of separator-free parts gives the parts back |
| Basics.StartsWith | app/scanner.tsx:26 | `data.startsWith('http')`: the prefix is the string's first characters |
| Cache.GenerateKey | backend/src/cache/seatCache.ts:19-21 | the key starts with `seat:` and its length is the two ids' lengths plus 12 |
| Cache.KeyInjectiveForEvent | backend/src/cache/seatCache.ts:19-21 | within one event context, equal keys mean equal seat ids |
| Cache.KeyCollidesAcrossEvents | backend/src/cache/seatCache.ts:19-21 | across event contexts the key is not injective: (`1:event:2`, `3`) and (`1`, `2:event:3`) collide |
| Cache.Usable | backend/src/cache/seatCache.ts:37-46 | an entry may be served only while its deadline is not before `now` and its version is the requested one |
| Cache.Lookup | backend/src/cache/seatCache.ts:26-49 | `get` answers a value exactly when the key is present, its deadline is not past and its version matches; the value is the stored one |
| Cache.AfterLookup | backend/src/cache/seatCache.ts:30-46 | `get` deletes only the looked-up key, and only when it is expired or of another version; an absent key leaves the map as it was |
| Cache.Stored | backend/src/cache/seatCache.ts:54-66 | `set` stores the value with deadline `now + 60000`, `cachedAt = now` and the version, overwriting the key and keeping every other entry |
| Cache.SetThenGet | backend/src/cache/seatCache.ts:37-48 | a value set at `t` is returned by a same-version `get` at any `now <= t + 60000`, with no eviction |
| Cache.SetThenGetAfterDeadline | backend/src/cache/seatCache.ts:37-40 | after the deadline the same `get` misses and removes the key |
| Cache.StoredSize | backend/src/cache/seatCache.ts:65 | `set` grows the size by one on a new key and by nothing on an existing one |
| Cache.AfterLookupSize | backend/src/cache/seatCache.ts:37-46 | an evicting `get` drops the size by exactly one; any other `get` keeps it |
| Cache.SeatCache.constructor | backend/src/cache/seatCache.ts:12-14 | a new cache is empty |
| Cache.SeatCache.Get | backend/src/cache/seatCache.ts:26-49 | returns `Lookup` of the old map and leaves `AfterLookup` of it |
| Cache.SeatCache.Set | backend/src/cache/seatCache.ts:54-66 | the map becomes `Stored` of the old map |
| Cache.SeatCache.Invalidate | backend/src/cache/seatCache.ts:71-74 | removes exactly the key `seat:s:event:e` and nothing else |
| Cache.SeatCache.Clear | backend/src/cache/seatCache.ts:79-81 | the map becomes empty, so the size is 0 |
| Cache.SeatCache.Size | backend/src/cache/seatCache.ts:86-88 | the number of distinct keys |
| Events.FirstActiveFrom | backend/src/services/eventService.ts:15-18 | the first active event at or after an index, with no active event before it, or none at all |
| Events.ActiveEvent | backend/src/services/eventService.ts:15-20 | the first active event of the table; None exactly when no event is active |
| Events.PointerFresh | backend/src/services/eventService.ts:11 | the pointer may be served without a query: it is set and younger than 30 s |
| Events.Deactivated | backend/src/services/eventService.ts:68-70 | every event kept, each with `isActive` false |
| Events.WithNewActive | backend/src/services/eventService.ts:68-74 | every old event kept and deactivated, followed by one new active event with the given name and fallback colour |
| Events.NewEventIsOnlyActive | backend/src/services/eventService.ts:66-78 | after creation exactly one event is active, the new one, and the store stays well formed |
| Events.PartAt | backend/src/services/eventService.ts:93-95 | `parts[i]`, or the empty (falsy) string for a missing part |
| Events.ParseSeatId | backend/src/services/eventService.ts:92-95 | sector, row and number are non-empty and free of `-`, and the seat keeps its id |
| Events.ParseThreeParts | backend/src/services/eventService.ts:92-95 | `a-b-c` with non-empty, dash-free parts parses into `a`, `b`, `c` |
| Events.ParseIgnoresExtraParts | backend/src/services/eventService.ts:92-93 | the sector is the first part (or `X` when it is empty), whatever follows |
| Events.ParseJoinedParts | backend/src/services/eventService.ts:92-95 | any id made of dash-free parts parses into its first three parts, with a missing or empty sector, row or number defaulted to `X`, `0`, `0`, and every later part ignored |
| Events.ParseDefaults | backend/src/services/eventService.ts:93-95 | `""` parses to `X`, `0`, `0`; a dash-free `a` to `a` (or `X`), `0`, `0`; `a--c` to `a` (or `X`), `0`, `c` (or `0`) |
| Events.SeatColorFor | backend/src/services/eventService.ts:25-63 | None exactly when no event is active; an assignment gives its colour with the event's name and fallback; otherwise colour and fallback are the event fallback defaulted to black and the name defaults to `Unknown`; the expiry is now + 3 h |
| Events.AssignedColorResolves | backend/src/services/eventService.ts:104-114 | after an assignment under the active event, the seat resolves to that colour |
| Events.ResetServesFallback | backend/src/services/eventService.ts:119-127 | after a reset every seat resolves to the active event's fallback colour |
| Events.WithoutEvent | backend/src/services/eventService.ts:122-124 | exactly the assignments of the given event are removed; the others keep their colours |
| Events.EventMap | backend/src/services/eventService.ts:129-140 | the map holds exactly the seats assigned under the event, each with its colour |
| Events.ReduceRows | backend/src/services/eventService.ts:139 | the spread puts the last row's seat in the map with that row's colour |
| Events.ReduceRowsLastWins | backend/src/services/eventService.ts:139 | each seat maps to the colour of its last row |
| Events.ReduceRowsKeys | backend/src/services/eventService.ts:139 | every key of the reduced map comes from a row, and every row's seat is a key |
| Events.ReduceRowsIsEventMap | backend/src/services/eventService.ts:133-139 | reducing the rows of one event, in any order, gives that event's map |
| Events.EventService.constructor | backend/src/services/eventService.ts:5-7 | the pointer starts unset with last update 0 |
| Events.EventService.GetActiveEventId | backend/src/services/eventService.ts:9-23 | a set pointer younger than 30 s is served and nothing changes; otherwise both pointer fields are rewritten; the answer is the store's active event |
| Events.EventService.GetSeatColor | backend/src/services/eventService.ts:25-63 | answers `SeatColorFor` of the store and leaves the store unchanged |
| Events.EventService.CreateActiveEvent | backend/src/services/eventService.ts:66-78 | deactivates all, appends the new active event, points the pointer at it and leaves its timestamp as it was |
| Events.EventService.SetSeatColor | backend/src/services/eventService.ts:80-117 | upserts the one assignment for (seat, active event); creates an event named `Evento Padrão` first when none is active; adds the parsed seat only when it is missing |
| Events.EventService.ResetEvent | backend/src/services/eventService.ts:119-127 | removes exactly the active event's assignments; a no-op without an active event; always reports success |
| Events.EventService.FindManyRows | backend/src/services/eventService.ts:133-136 | each row is an assignment of the event, every assigned seat appears, and no seat appears twice |
| Events.EventService.GetEventMap | backend/src/services/eventService.ts:129-140 | the empty map without an active event, else the active event's map |
| Events.EventService.GetAllEventSeats | backend/src/services/eventService.ts:142-159 | None for an unknown event, else its name, its fallback and its rows: each row one of the event's assignments with its colour, every assigned seat present, no seat twice, so the rows reduce to its map |
| Resolution.FetchFromSource | backend/src/services/seatService.ts:56-80 | a null answer gives the waiting placeholder (black, one hour, version 1); otherwise the answer with empty colours defaulted to black; always `seat = seatId` and version 1 |
| Resolution.ServiceKey | backend/src/services/seatService.ts:20-24 | every cache operation of the service uses the fixed `active-event` context |
| Resolution.Serve | backend/src/services/seatService.ts:19-49 | a hit exactly when the cache has a usable entry, answered from the cache with the map unchanged; a miss answers the store's record tagged `db` and caches it for 60 s |
| Resolution.ServedFromCacheUntilDeadline | backend/src/services/seatService.ts:24-30 | until its deadline a cached entry is served whatever the store now holds |
| Resolution.RefetchedAfterDeadline | backend/src/services/seatService.ts:37-48 | past the deadline the store's current answer is served |
| Resolution.StaleWindow | backend/src/services/seatService.ts:19-49 | after a miss at `t1`, any change of the store is invisible to a read of that seat up to `t1 + 60 s` |
| Resolution.InvalidatedSeatMisses | backend/src/services/seatService.ts:51-54 | after invalidation the next read of that seat is a miss |
| Resolution.OtherSeatsUntouched | backend/src/services/seatService.ts:19-49 | reading one seat leaves every other seat's entry as it was |
| Resolution.OnlyAbsenceOrExpiryMisses | backend/src/services/seatService.ts:16-21 | the service only writes version 1, so a miss means an absent or expired entry, never a version mismatch |
| Resolution.SeatService.GetSeatColor | backend/src/services/seatService.ts:19-49 | the answer and the new cache map are `Serve` of the old ones; the store's tables are unchanged; a hit leaves the store object untouched, and a miss leaves the active-event pointer on the store's active event, its timestamp kept when the pointer was fresh and set to `now` otherwise |
| Resolution.SeatService.InvalidateSeat | backend/src/services/seatService.ts:51-54 | removes exactly that seat's entry |
| PixelApi.LiveConfig | src/services/api.ts:34-40 | `event`, `color`, `fallbackColor` and `brightness` default to `Evento`, black, black and 100 when falsy, and keep the body's value otherwise; `expiresAt` is passed through |
| PixelApi.Deadline | src/services/api.ts:68 | the stored expiry, with a missing one read as 0 |
| PixelApi.HasFallback | src/services/api.ts:77 | the stored fallback colour is present and non-empty |
| PixelApi.FallbackConfig | src/services/api.ts:60-96 | level 2 returns a same-seat unexpired record verbatim; level 3 swaps in its truthy fallback colour; everything else is the black `Modo Offline` configuration |
| PixelApi.FallbackAlwaysRenderable | src/services/api.ts:60-96 | levels 2 to 4 always give a non-empty colour for records level 1 writes |
| PixelApi.LiveRecordWellFormed | src/services/api.ts:34-47 | level 1 writes records with a non-empty colour and fallback colour |
| PixelApi.LaterFailureUsesSavedRecord | src/services/api.ts:43-83 | after a saved fetch, a failing call for the same seat shows the live colour until the deadline and the fallback after; another seat gets level 4 |
| PixelApi.Cascade | src/services/api.ts:13-98 | level 1 when the fetch and the write succeed; otherwise levels 2 to 4, or level 4 when the read fails |
| PixelApi.CascadeAlwaysRenderable | src/services/api.ts:13-98 | every path yields a configuration with a colour |
| PixelApi.DeviceStorage.constructor | src/services/api.ts:11 | the slot holds its initial contents |
| PixelApi.GetPixelConfig | src/services/api.ts:13-98 | returns `Cascade` of the old slot; the slot is replaced by the new record with `seatId` and `savedAt` exactly when the fetch and the write succeed |
| Scanner.ExtractSeatId | app/scanner.tsx:23-29 | for an `http` payload, the slash-free suffix after the last `/`; otherwise the payload itself |
| Scanner.ScanDecision | app/scanner.tsx:22-37 | navigation exactly when the payload is non-empty and its id is shorter than 20; otherwise the alert with the payload |
| Scanner.StickerPayloadRoundTrip | app/scanner.tsx:26-28 | the scanner extracts the seat id the sticker generator encoded |
| Scanner.StickerOpensPixelScreen | app/scanner.tsx:22-33 | a sticker for a short id opens the pixel screen for exactly that seat |
| Scanner.TrailingSlashGivesEmptyId | app/scanner.tsx:26-33 | a URL payload ending in `/` navigates with an empty seat id |
| Scanner.ScannerScreen.constructor | app/scanner.tsx:9 | the flag starts false |
| Scanner.ScannerScreen.HandleBarCodeScanned | app/scanner.tsx:18-39 | ignored while the flag is set; otherwise the scan decision, with the flag left set exactly when navigating |
| PixelScreen.HasError | app/pixel.tsx:121 | the error message is present and truthy (non-empty) |
| PixelScreen.Render | app/pixel.tsx:113-135 | spinner while loading; then error text (the error or `Configuração não encontrada`) on an error or a missing configuration; else the configuration's colour |
| PixelScreen.PixelScreenState.constructor | app/pixel.tsx:15-21 | loading, no error, no configuration, `lastTap` 0 |
| PixelScreen.PixelScreenState.HandleDoubleTap | app/pixel.tsx:102-111 | goes back exactly when the tap is within 300 ms of the last one, which then stays; otherwise remembers the tap |
| PixelScreen.PixelScreenState.FetchEffect | app/pixel.tsx:93-100 | nothing without a seat id; otherwise the cascade's configuration and loading off, so the screen shows its colour, and the storage slot holds the new record exactly when the fetch and the write succeed |
| SeatGrid.Digit | admin/components/SeatGrid.tsx:18-19 | the decimal digit character whose value is `d` |
| SeatGrid.PadTwo | admin/components/SeatGrid.tsx:18-19 | two decimal digit characters whose value is `n` (so a leading `0` below 10), with no `-` |
| SeatGrid.PadTwoInjective | admin/components/SeatGrid.tsx:18-19 | different numbers below 100 pad differently |
| SeatGrid.SeatId | admin/components/SeatGrid.tsx:16-22 | seven characters: `A-`, the padded 1-based row `i div 20 + 1`, `-`, the padded 1-based number `i mod 20 + 1` |
| SeatGrid.Seats | admin/components/SeatGrid.tsx:13-24 | 400 cells, cell `i` having id `A-rr-nn` from its row and column, and a label equal to its id |
| SeatGrid.GridIdParses | admin/components/SeatGrid.tsx:15-23 | the store's parser reads every grid id back as sector `A` and the cell's padded row and number |
| SeatGrid.GridIdsDistinct | admin/components/SeatGrid.tsx:15-23 | all 400 ids are distinct |
| SeatGrid.Merged | admin/components/SeatGrid.tsx:37-41 | server colours win, every other local colour is kept, and no key is removed |
| SeatGrid.SeatGridState.constructor | admin/components/SeatGrid.tsx:27-28 | no colours and no selection |
| SeatGrid.SeatGridState.ApplyServerMap | admin/components/SeatGrid.tsx:37-41 | merges a present server map and ignores an absent one |
| SeatGrid.SeatGridState.OnColorSaved | admin/components/SeatGrid.tsx:46-53 | sets that seat's colour, keeps the others and clears the selection |
| QrStickers.QrPayload | qr-generator/generate.js:37 | the domain, a `/`, then the seat id |
| QrStickers.StickerFor | qr-generator/generate.js:37-42 | sticker `k` carries its seat's payload, lies on page `k div 24`, and starts inside the 4 x 6 grid: `20 <= x <= 440` and `20 <= y <= 720` |
| QrStickers.GridPosition | qr-generator/generate.js:32-33 | the loop's page, row and column are the mixed-radix digits of the sticker index |
| QrStickers.SamePageDistinctCells | qr-generator/generate.js:41-42 | two stickers on one page start at different grid cells |
| QrStickers.Generate | qr-generator/generate.js:32-75 | sticker `k` is at column `k mod 4`, row `(k div 4) mod 6`, page `k div 24`, at `x = 20 + 140 col`, `y = 20 + 140 row`; the page count is `1 + n div 24`, so a trailing page is added when `n` is a multiple of 24 |

## Left out

- Warmup and a validity registry: a route names a warmup handler that has no implementation, so there is nothing to model.
- HTTP routing, the Express controllers and the admin's HTTP client are thin glue. Their 400-on-missing-field guards are not modelled.
- The relational store is reduced to maps. Event ids are creation indices instead of generated uuids, and `findFirst` is taken to scan in creation order.
- ISO-8601 date strings are integer milliseconds. An unparsable stored `expiresAt`, which the device would read as `NaN`, is not modelled.
- Resolution.FetchFromSource: the default expiry for a record without `expiresAt` is not modelled, because the event store always sets one.
- The device's fetch, timer, `AbortController` and `AsyncStorage` are inputs: a fetch outcome and whether the write and the read succeed. A failed write is taken to leave the slot as it was.
- PixelApi.FallbackConfig: a level-2 or level-3 result drops the extra `seatId` and `savedAt` fields that the stored JSON carries next to the configuration.
- PixelScreen.PixelScreenState.FetchEffect: the promise's error branch is not modelled, because the cascade never rejects.
- Brightness, orientation, navigation-bar, keep-awake and toast calls on the device are not modelled.
- One backend request reads the clock several times: for the cache lookup, the pointer check, the store's expiry, the placeholder expiry and the cache write. The model uses a single `now` per request. So `Resolution.StaleWindow` places the cache deadline at read time + 60 s, while the code sets it at write time, after the store round-trip. The real stale window is longer by the request's latency.
- Requests run one after another. Interleaving between concurrent async requests on the shared cache and pointer is not modelled.
- Within one process the active-event pointer always names the store's active event, because every writer of the active flag updates it. A pointer made stale by another process is not modelled.
- String lengths count characters, not UTF-16 code units. The two differ only outside the Basic Multilingual Plane.
- SeatGrid.PadTwo requires a number below 100, which covers every row and column of the 20 x 20 grid.
- PDF drawing, QR rasterisation and file output in the sticker generator are not modelled, and neither is reading the seat list file.
- The admin's event controls, layouts and the load-test, seed and verification scripts are not modelled.
