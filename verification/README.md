# deno-kv-climate persistence layer in Dafny

This project models the room and climate persistence layer of
deno-kv-climate. The layer is a small registry of named rooms, each paired
with its latest temperature and humidity reading, kept in Deno KV. Two
versions of that layer exist, and both are modelled:

- `services/db.ts` is the current layout. A room is stored twice: under
  `("room", name)` and under `("room_by_id", id)`. Its climate is stored
  under `("room_climate", name)`. Names are used exactly as given, except by
  `getRoom`, which lower-cases them.
- `src/db.ts` is the earlier layout. A room is stored under `("room", id)`,
  with a by-name copy under `("room_by_name", name)`. The climate is stored
  under `("room_climate", name)`. Names are lower-cased before every write.
  Upserts are guarded by the versionstamp of the id record read just before;
  the deletes of `deleteRoomByName` are not guarded.

The key-value store is abstract (`KvStore`). It is a map from
`(prefix, part)` keys to a value and a versionstamp. It offers a point `Get`
and a prefix `List` that returns the keys in an unspecified order. Writes go
through one all-or-nothing `Commit`, which holds a list of checks and an
ordered list of set/delete mutations. A check says what versionstamp a key
must have, where `None` means "absent". When every check holds, the
mutations are applied in order with a fresh versionstamp, so the last
mutation of a key decides its value. Otherwise nothing is applied. A plain
`kv.set` or `kv.delete` is a commit of one mutation with no checks.

Each operation is a function from a store state to a result and the next
state. Point reads happen on the state the operation is given. Fresh ids
(`crypto.randomUUID`) and the current time (`new Date()`) are parameters.

Modules:

- `Wrappers`: `Option` and `Result`.
- `Constants`: the key prefixes of the current layout.
- `KvStore`: the abstract store.
- `Records`: rooms, climates, typed reads and ASCII lower-casing.
- `RoomService` and `RoomServiceProperties`: the current layout and its properties.
- `LegacyRoomStore` and `LegacyRoomStoreProperties`: the earlier layout and its properties.
- `ClimateWatch`: the pure part of `subscribeToChanges`.

Behaviour worth knowing:

- `createRoom`, `updateRoom` and `upsertClimate` do not lower-case names.
  Only `getRoom` does. `RoomServiceProperties.UnfoldedNameUnreachable`,
  `RoomServiceProperties.UnfoldedNameBreaksClimateListing` and the
  `Kitchen…` lemmas show what follows from that.
- `updateRoom` guards the commit with "the NEW name key is absent". It does
  not check the versionstamp of the id record it read. So resubmitting a
  room under its current name is a conflict
  (`RoomServiceProperties.UpdateWithSameNameConflicts`).
- `deleteRoom` issues three separate deletes, each its own commit.
- The earlier layout has no unique-name check
  (`LegacyRoomStoreProperties.SharedNameAccepted`). Its upserts never move a
  climate when a room is renamed
  (`LegacyRoomStoreProperties.RenameLeavesClimateBehind`).
- A subscription delivers the value of the FIRST watched key on every
  event, whichever key changed (`ClimateWatch.DeliversFirstRoomOnly`).

## Model

| member | source | states |
|---|---|---|
| KvStore.Get | services/db.ts:89 | A point read finds an entry exactly when the key is stored, and then the stored value and versionstamp. |
| KvStore.Atomic | services/db.ts:36 | A fresh transaction has no checks and no mutation for any key. |
| KvStore.AtomicOp.WithCheck | services/db.ts:36 | Appending a check keeps the mutations and adds the check after the earlier ones. |
| KvStore.AtomicOp.WithSet | services/db.ts:38-41 | After appending a set of k, the set is the last mutation of k; every other key keeps its last mutation. |
| KvStore.AtomicOp.WithDelete | services/db.ts:62 | After appending a delete of k, the delete is the last mutation of k; every other key keeps its last mutation. |
| KvStore.Commit | services/db.ts:36-43 | A commit succeeds exactly when all its checks hold. A failed commit leaves the store unchanged. A successful one stamps every write with the next versionstamp, and each key ends with the effect of the last mutation naming it. |
| KvStore.ApplyAllPointwise | services/db.ts:56-72 | Applying mutations one after another in order gives, at every key, the effect of the last mutation on that key. |
| KvStore.SetKey | services/db.ts:94 | A plain set stores the value at the key with a fresh versionstamp. Every other key is unchanged. |
| KvStore.DeleteKey | services/db.ts:160-162 | A plain delete makes the key absent. Every other key is unchanged. |
| KvStore.List | services/db.ts:104 | A prefix scan returns every entry under the prefix exactly once, with its value and versionstamp, and nothing else. |
| KvStore.ValuesOf | services/db.ts:104-106 | The values of a listing, in listing order. |
| Records.RoomAt | services/db.ts:134 | A key reads as a room exactly when it holds a room record, and then as that room. |
| Records.ClimateAt | services/db.ts:143-144 | A key reads as a climate exactly when it holds a climate record, and then as that climate. |
| Records.LowerChar | services/db.ts:132 | ASCII upper-case letters map to their lower-case forms. Every other character is kept. |
| Records.Lower | services/db.ts:132 | Lower-casing keeps the length, maps each character independently, and yields a name with no upper-case letters. |
| Records.LowerOfLower | services/db.ts:132 | A name with no upper-case letters is its own lower-cased form. |
| Records.LowerIdempotent | services/db.ts:132 | Lower-casing twice is the same as lower-casing once. |
| RoomService.CreateRoom | services/db.ts:28-44 | Succeeds exactly when no record exists under the name as given. On success, the same room (fresh id, unfolded name) is written under both its name key and its id key. On failure nothing changes. No other key changes in either case. |
| RoomService.UpdateOp | services/db.ts:52-70 | The transaction checks that the new name key is absent. It sets the name and id records. For a room found under its id, it deletes the old name key and moves any climate stored under the old name to the new name. It touches no other key. |
| RoomService.UpdateRoom | services/db.ts:51-74 | Succeeds exactly when the new name key is absent. On failure nothing changes. On success the id record holds the new room. The old name record is gone, and the climate moves to the new name in the same commit. Only those keys change. |
| RoomService.WithDate | services/db.ts:85-87 | The readings are kept. A missing date is filled with the current time, and a given date is kept. |
| RoomService.UpsertClimate | services/db.ts:81-96 | Always reports the climate with its date filled in, even when the room is missing. Returns true exactly when a record exists under the name as given. When true, it writes the climate under that name. When false, it writes nothing. No other key changes. |
| RoomService.GetRoom | services/db.ts:131-135 | Reads the name record under the lower-cased name. |
| RoomService.GetClimate | services/db.ts:142-145 | Reads the climate under the name exactly as given. |
| RoomService.DeleteRoom | services/db.ts:151-163 | When `getRoom` finds nothing, it does nothing. Otherwise the found room's name record, id record and climate are all absent afterwards, and every other key is unchanged. |
| RoomService.GetAllRooms | services/db.ts:102-108 | Returns the values of some complete listing of the `"room"` prefix. |
| RoomService.MergeClimates | services/db.ts:116-121 | Succeeds exactly when every listed room can be found again through `getRoom`. Each row is then the found room paired with the climate under its name. |
| RoomService.GetAllRoomClimates | services/db.ts:114-123 | Returns the merge of some complete listing of the `"room"` prefix. |
| RoomService.GetAllKeys | services/db.ts:169-172 | A missing or empty prefix lists the whole store. Any other prefix lists exactly the keys under it. |
| RoomServiceProperties.EmptyIsConsistent | services/db.ts:28-44 | The empty store satisfies the index agreement. |
| RoomServiceProperties.AddRoomPreserves | services/db.ts:38-41 | Adding a room under an unused name and an unused id keeps the name and id indices in agreement. |
| RoomServiceProperties.RemoveRoomPreserves | services/db.ts:157-162 | Removing a room's name record, id record and climate together keeps the indices in agreement. |
| RoomServiceProperties.RenamePreserves | services/db.ts:58-69 | Renaming a room, with its climate moved along, keeps the indices in agreement. |
| RoomServiceProperties.CreateRoomPreserves | services/db.ts:28-44 | `createRoom` with an unused id keeps the index agreement. |
| RoomServiceProperties.UpdateRoomPreserves | services/db.ts:51-74 | `updateRoom` keeps the index agreement, and no climate is left without its room. |
| RoomServiceProperties.UpsertClimatePreserves | services/db.ts:81-96 | `upsertClimate` keeps the index agreement. |
| RoomServiceProperties.ClimateWritePreserves | services/db.ts:89-94 | Storing a climate under the name of an existing room keeps the index agreement. |
| RoomServiceProperties.DeleteRoomPreserves | services/db.ts:151-163 | `deleteRoom` keeps the index agreement. |
| RoomServiceProperties.TypedReadsOfConsistentStore | services/db.ts:61 | On a consistent store a name or id key holds a room exactly when it holds anything, so the typed read agrees with the code's truthiness test. |
| RoomServiceProperties.CreateSameNameTwice | services/db.ts:36 | Creating the same name twice makes the second create fail and write nothing. |
| RoomServiceProperties.GetRoomIgnoresCase | services/db.ts:131-135 | `getRoom` gives the same answer for a name and its lower-cased form. |
| RoomServiceProperties.RenameMovesClimate | services/db.ts:61-69 | After renaming a room from A to an unused B, the climate is found under B, unchanged, and no longer under A. The room is found under B and under its id, and no longer under A. |
| RoomServiceProperties.UpdateWithSameNameConflicts | services/db.ts:52-56 | Resubmitting a stored room with its current name fails and writes nothing. |
| RoomServiceProperties.DeleteRoomRemovesAll | services/db.ts:151-163 | After `deleteRoom` finds a room, neither its name, its id nor its climate resolves any more. |
| RoomServiceProperties.DeleteRoomIdempotent | services/db.ts:151-163 | Deleting twice is the same as deleting once. |
| RoomServiceProperties.AllRoomClimatesOfCanonicalStore | services/db.ts:114-123 | When the indices agree and every name is lower-case, listing climates succeeds. Each row pairs a listed room with the climate under its name. |
| RoomServiceProperties.UnfoldedNameUnreachable | services/db.ts:28-44 | A room created under a name with upper-case letters is stored. `getRoom` of that name finds nothing, and `deleteRoom` of it changes nothing. |
| RoomServiceProperties.UpsertClimateUnfolded | services/db.ts:81-93 | A name that `getRoom` resolves only after lower-casing is reported missing by `upsertClimate`, which writes nothing. |
| RoomServiceProperties.UnfoldedNameBreaksClimateListing | services/db.ts:116-119 | A room stored under a name with no record under its lower-cased form makes listing climates fail, whatever the listing order. |
| RoomServiceProperties.KitchenFolds | services/db.ts:132 | "Kitchen" lower-cases to "kitchen", and the two names give different keys. |
| RoomServiceProperties.KitchenIsUnreachable | services/db.ts:28-44 | Example of `UnfoldedNameUnreachable`: a room created as "Kitchen" cannot be found as "Kitchen" or as "kitchen", and cannot be deleted. |
| RoomServiceProperties.DistinctNamesBothCreated | services/db.ts:36 | Two different names, even ones that differ only in case, are both accepted as separate rooms. |
| RoomServiceProperties.CaseVariantsBothCreated | services/db.ts:36 | Example of `DistinctNamesBothCreated`: "Kitchen" and "kitchen" can both be created, as two rooms. |
| RoomServiceProperties.KitchenClimateRefused | services/db.ts:81-93 | Example of `UpsertClimateUnfolded`: with a room stored as "kitchen", `getRoom("Kitchen")` finds it, yet `upsertClimate("Kitchen")` is refused. |
| RoomServiceProperties.KitchenBreaksClimateListing | services/db.ts:116-119 | Example of `UnfoldedNameBreaksClimateListing`: after "Kitchen" is created, every listing of rooms with climates fails. |
| LegacyRoomStore.Folded | src/db.ts:22 | The stored room keeps its id, and its name is lower-cased. |
| LegacyRoomStore.RoomTx | src/db.ts:26-41 | Fails exactly when the id key holds something other than a room. Otherwise the transaction checks the id record's versionstamp as read. It sets the id record and the by-name record to the folded room. For a known id it deletes the old by-name record. It touches no other key. |
| LegacyRoomStore.ClimateTx | src/db.ts:57-73 | The room transaction, plus the climate set under the lower-cased name. Its checks are the same, and every other key gets the same mutation. |
| LegacyRoomStore.CommitIgnoringResult | src/db.ts:34 | Throws only when building the transaction threw. A failed check is not thrown: the store is left as it was. |
| LegacyRoomStore.UpsertRoomRacing | src/db.ts:26-43 | If another commit changed the id record between the read and the commit, the upsert changes nothing and still returns normally. |
| LegacyRoomStore.UpsertRoom | src/db.ts:21-44 | Throws exactly when the id key holds a non-room. Otherwise the folded room is stored under its id and its lower-cased name. A known id's old by-name record is removed. Nothing else changes. |
| LegacyRoomStore.UpsertClimate | src/db.ts:51-77 | Throws exactly when `upsertRoom` would. Otherwise it makes the same room writes and stores the climate under the lower-cased name, in the same commit. A climate under the previous name is left alone. |
| LegacyRoomStore.SameRoomWrites | src/db.ts:59-75 | The climate transaction commits whenever the room transaction would, with the same effect on every key except the climate key. |
| LegacyRoomStore.UpsertRoomCommits | src/db.ts:21-44 | In sequential use, `upsertRoom` is the committed room transaction. |
| LegacyRoomStore.GetRoomById | src/db.ts:111-113 | Reads the id record under the id exactly as given. |
| LegacyRoomStore.GetRoomByName | src/db.ts:121-125 | Reads the by-name record under the lower-cased name. |
| LegacyRoomStore.GetClimateByRoomName | src/db.ts:132-137 | Reads the climate under the lower-cased name. |
| LegacyRoomStore.DeleteRoomByName | src/db.ts:143-152 | Throws exactly when no room is found under the lower-cased name. Otherwise the room's id record, by-name record and climate are all absent afterwards, and nothing else changes. |
| LegacyRoomStore.DeleteRecords | src/db.ts:149-151 | The three deletes remove exactly the id record, the by-name record and the climate of the room. |
| LegacyRoomStore.GetAllRooms | src/db.ts:83-89 | Returns the values of some complete listing of the `"room"` prefix, which holds the id records. |
| LegacyRoomStore.MergeClimates | src/db.ts:97-102 | Succeeds exactly when every listed room can be found again by its id. Each row is then that room paired with the climate under its lower-cased name. |
| LegacyRoomStore.GetAllRoomClimates | src/db.ts:95-104 | Returns the merge of some complete listing of the `"room"` prefix. |
| LegacyRoomStoreProperties.EmptyIsWellFormed | src/db.ts:21-44 | The empty store satisfies the layout's invariant: record shapes, and every by-name record pointing at the room stored under its id. |
| LegacyRoomStoreProperties.UpsertRoomShaped | src/db.ts:21-44 | On a well-shaped store, `upsertRoom` never throws and keeps every record well-shaped. |
| LegacyRoomStoreProperties.UpsertRoomPreserves | src/db.ts:21-44 | `upsertRoom` keeps the invariant: shapes, and every by-name record equal to the id record of its room. |
| LegacyRoomStoreProperties.UpsertClimatePreserves | src/db.ts:51-77 | `upsertClimate` never throws on a well-formed store and keeps the invariant. |
| LegacyRoomStoreProperties.RemovalPreserves | src/db.ts:149-151 | Removing any three records keeps the store well-shaped. |
| LegacyRoomStoreProperties.DeleteRoomByNamePreserves | src/db.ts:143-152 | `deleteRoomByName` keeps the invariant: the by-name record it removes is the only one pointing at the id record it removes. |
| LegacyRoomStoreProperties.UpsertRoomIndicesAgree | src/db.ts:21-44 | After an upsert, the id lookup and the name lookup both return the folded room. |
| LegacyRoomStoreProperties.ReupsertKeepsNameRecord | src/db.ts:36-41 | The old by-name record is deleted before the new one is set. So re-upserting a room under its current name keeps its by-name record. |
| LegacyRoomStoreProperties.GetRoomByNameIgnoresCase | src/db.ts:121-125 | The name lookup gives the same answer for a name and its lower-cased form. |
| LegacyRoomStoreProperties.GetClimateByRoomNameIgnoresCase | src/db.ts:132-137 | The climate lookup gives the same answer for a name and its lower-cased form. |
| LegacyRoomStoreProperties.GetRoomByIdIsCaseSensitive | src/db.ts:111-113 | After an upsert of an id with upper-case letters, the id finds the folded room, while its lower-cased form finds exactly what it found before. |
| LegacyRoomStoreProperties.SharedNameAccepted | src/db.ts:21-44 | Two ids upserted under one name both keep their id records. The by-name record points at the later one. |
| LegacyRoomStoreProperties.RenameLeavesClimateBehind | src/db.ts:36-41 | Renaming through `upsertRoom` leaves the climate under the old name untouched. No by-name record points at that name any more. |
| LegacyRoomStoreProperties.WriteChangesStamp | src/db.ts:30 | A committed write or removal of a key changes the versionstamp read at that key. |
| LegacyRoomStoreProperties.InterveningWriteVoidsUpsert | src/db.ts:26-43 | If another commit writes the id record between the read and the commit, the upsert changes nothing and returns normally. |
| LegacyRoomStoreProperties.AllRoomClimatesOfWellFormedStore | src/db.ts:95-104 | On a well-shaped store, listing climates succeeds. Each row pairs a listed room with the climate under its name. |
| ClimateWatch.WatchKeys | services/db.ts:183 | One watched key per room name, in order: the climate key of that name. |
| ClimateWatch.Snapshot | services/db.ts:184-188 | A watch event holds the current entry of each watched key, in key order. |
| ClimateWatch.WatchedKeys | services/db.ts:183 | A key is watched exactly when it is the climate key of one of the given names. |
| ClimateWatch.Dispatch | services/db.ts:200-203 | The callback is called exactly when the first entry of the event is present, with that entry's value. |
| ClimateWatch.Deliveries | services/db.ts:187-204 | At most one payload per event, and every payload is a value the first name's climate key held in one of the events. |
| ClimateWatch.DeliversFirstRoomOnly | services/db.ts:200-203 | The callback receives the values of the first name's climate key, once per event where that key is present, whichever key changed. |
| ClimateWatch.CancelTruncatesDeliveries | services/db.ts:207-209 | Cancelling after n events leaves a prefix of the deliveries, and at most n of them. |
| ClimateWatch.OnlyFirstNameMatters | services/db.ts:182-203 | Two subscriptions with the same first name receive the same payloads. |

## Left out

- `main.ts`, the HTTP routes and environment loading are not modelled. They only call into the layer.
- `deleteAllKeys` is not modelled. It issues un-awaited deletes whose order and completion are left to the runtime.
- `subscribeToChanges`: the stream, its reader loop and the concurrency of `cancel` with a pending read are not modelled. The model keeps the key derivation, the dispatch of the first entry, and the sequence of events as a list of store states. Subscriptions need at least one name, as the caller (main.ts) enforces.
- `crypto.randomUUID()` and `new Date()` are parameters. The model does not promise that ids are unique; `RoomServiceProperties.CreateRoomPreserves` assumes an unused id instead.
- Temperatures and humidities are opaque integers. The code never computes with them.
- `toLowerCase` is modelled for ASCII letters only. Full Unicode case mapping is not modelled.
- Deno KV's key ordering and versionstamp encoding are not modelled. Listings come in an unspecified order, and versionstamps are counters.
- Concurrency: interleavings are modelled only as the state a commit meets (`LegacyRoomStore.UpsertRoomRacing`). In the current layout each operation reads and commits on one state.
- Failures of the store itself (an unavailable store, a rejected commit for reasons other than a check) are not modelled.
- `console` logging is not modelled.
- Values are typed: a key holding a value of the wrong kind reads as absent in lookups. The presence tests of `createRoom` (the versionstamp check) and `upsertClimate` use raw presence. The found-room tests of `updateRoom` and `deleteRoom` use the typed read; see the two lines below.
- RoomService.UpdateRoom: with a climate stored under `("room_by_id", id)`, the code takes the found-room branch and throws on the `undefined` name used as a key part; the model reads no previous room and commits. `RoomServiceProperties.TypedReadsOfConsistentStore` shows the two agree on every consistent store.
- RoomService.DeleteRoom: with a climate stored under `("room", name)`, the code passes `if (!room)` and throws on the `undefined` key part; the model does nothing. They agree on every consistent store, as above.
- LegacyRoomStore.UpsertRoom: the code also lower-cases `room.name` on the caller's object, on every path; the model returns only the store, and the caller's object afterwards is `Folded(room)`.
- LegacyRoomStore.UpsertClimate: the same in-place lower-casing of `room.name` is not returned; it is `Folded(room)` on every path.
- LegacyRoomStore.DeleteRoomByName: reading `.id` of a missing room throws in the code; the model returns `Failure(MissingRecord(…))` for that case rather than a precondition.
- LegacyRoomStore.RoomTx: with a non-room value under an id key, the code reads its `.name`, gets `undefined`, and throws when that is used as a key part; the model returns `Failure(NotARoom(…))`.
