/**
 The current persistence layer (services/db.ts). Rooms are stored twice, under
 `("room", name)` and `("room_by_id", id)`; the latest climate of a room is
 stored under `("room_climate", name)`. Each operation is a transition of the
 abstract store: its point reads happen on the state it is given and its
 writes go through `Commit`. Fresh ids and the current time are parameters.
 */
module RoomService {
  import opened Wrappers
  import opened KvStore
  import opened Records
  import opened Constants

  function RoomKey(name: string): Key { Key(RoomPrefix, name) }
  function RoomByIdKey(id: string): Key { Key(RoomByIdPrefix, id) }
  function ClimateKey(name: string): Key { Key(RoomClimatePrefix, name) }

  /** The boolean an operation returns together with the state it leaves. */
  datatype Step = Step(ok: bool, db: Db)

  /** What `upsertClimate` returns, and the caller's climate object after the call. */
  datatype ClimateWrite = ClimateWrite(ok: bool, climate: Climate, db: Db)

  /**
   `createRoom`: the room name is used exactly as given (no folding). The
   commit is guarded by "no record at `("room", roomName)`".
   */
  function CreateRoom(s: Db, roomName: string, freshId: string): (r: Step)
    ensures r.ok <==> RoomKey(roomName) !in s.entries
    ensures !r.ok ==> r.db == s
    ensures r.ok ==> && Get(r.db, RoomKey(roomName)) == Some(Entry(RoomValue(Room(freshId, roomName)), r.db.clock))
                     && Get(r.db, RoomByIdKey(freshId)) == Some(Entry(RoomValue(Room(freshId, roomName)), r.db.clock))
                     && r.db.clock == s.clock + 1
    ensures SameExcept(s, r.db, {RoomKey(roomName), RoomByIdKey(freshId)})
  {
    var room := Room(freshId, roomName);
    var op := Atomic()
      .WithCheck(Check(RoomKey(roomName), None))
      .WithSet(RoomKey(roomName), RoomValue(room))
      .WithSet(RoomByIdKey(room.id), RoomValue(room));
    ChecksHoldSnoc(s, [], Check(RoomKey(roomName), None));
    var o := Commit(s, op);
    Step(o.result.Ok(), o.store)
  }

  /** The keys `updateRoom` may write, given the record found under the room's id. */
  function UpdateTouches(s: Db, room: Room, previous: Option<Room>): set<Key> {
    match previous
    case None => {RoomKey(room.name), RoomByIdKey(room.id)}
    case Some(p) =>
      {RoomKey(room.name), RoomByIdKey(room.id), RoomKey(p.name)}
      + (if ClimateKey(p.name) in s.entries then {ClimateKey(p.name), ClimateKey(room.name)} else {})
  }

  /**
   The transaction `updateRoom` builds: guarded by "no record at the NEW name
   key", it sets the new name and id records; when a previous record was found
   under the id it also deletes the previous name key and, when a climate is
   stored under the previous name, moves that value to the new name.
   */
  function UpdateOp(s: Db, room: Room, previous: Option<Room>): (op: AtomicOp<Value>)
    ensures op.checks == [Check(RoomKey(room.name), None)]
    ensures forall k :: k !in UpdateTouches(s, room, previous) ==> LastMutation(op.muts, k).None?
    ensures LastMutation(op.muts, RoomByIdKey(room.id)) == Some(Set(RoomByIdKey(room.id), RoomValue(room)))
    ensures previous.None? ==> LastMutation(op.muts, RoomKey(room.name)) == Some(Set(RoomKey(room.name), RoomValue(room)))
    ensures previous.Some? ==>
              var p := previous.value;
              && LastMutation(op.muts, RoomKey(p.name)) == Some(Delete(RoomKey(p.name)))
              && (p.name != room.name ==> LastMutation(op.muts, RoomKey(room.name)) == Some(Set(RoomKey(room.name), RoomValue(room))))
              && (ClimateKey(p.name) in s.entries ==>
                    && LastMutation(op.muts, ClimateKey(room.name)) == Some(Set(ClimateKey(room.name), s.entries[ClimateKey(p.name)].value))
                    && (p.name != room.name ==> LastMutation(op.muts, ClimateKey(p.name)) == Some(Delete(ClimateKey(p.name)))))
  {
    var op := Atomic()
      .WithCheck(Check(RoomKey(room.name), None))
      .WithSet(RoomKey(room.name), RoomValue(room))
      .WithSet(RoomByIdKey(room.id), RoomValue(room));
    match previous
    case None => op
    case Some(p) =>
      var op := op.WithDelete(RoomKey(p.name));
      match Get(s, ClimateKey(p.name))
      case None => op
      case Some(c) => op.WithDelete(ClimateKey(p.name)).WithSet(ClimateKey(room.name), c.value)
  }

  /**
   `updateRoom`: reads the record under the room's id and commits `UpdateOp`.
   The guard is on the new name key, so renaming a room to its own name fails
   whenever its name record exists.
   */
  function UpdateRoom(s: Db, room: Room): (r: Step)
    ensures r.ok <==> RoomKey(room.name) !in s.entries
    ensures !r.ok ==> r.db == s
    ensures SameExcept(s, r.db, UpdateTouches(s, room, RoomAt(s, RoomByIdKey(room.id))))
    ensures r.ok ==> && r.db.clock == s.clock + 1
                     && Get(r.db, RoomByIdKey(room.id)) == Some(Entry(RoomValue(room), r.db.clock))
    ensures r.ok && RoomAt(s, RoomByIdKey(room.id)).None? ==>
              Get(r.db, RoomKey(room.name)) == Some(Entry(RoomValue(room), r.db.clock))
    ensures r.ok && RoomAt(s, RoomByIdKey(room.id)).Some? ==>
              var p := RoomAt(s, RoomByIdKey(room.id)).value;
              && Get(r.db, RoomKey(p.name)).None?
              && (p.name != room.name ==> Get(r.db, RoomKey(room.name)) == Some(Entry(RoomValue(room), r.db.clock)))
              && (ClimateKey(p.name) in s.entries ==>
                    && Get(r.db, ClimateKey(room.name)) == Some(Entry(s.entries[ClimateKey(p.name)].value, r.db.clock))
                    && (p.name != room.name ==> Get(r.db, ClimateKey(p.name)).None?))
  {
    var previous := RoomAt(s, RoomByIdKey(room.id));
    var op := UpdateOp(s, room, previous);
    assert op.checks == [] + [Check(RoomKey(room.name), None)];
    ChecksHoldSnoc(s, [], Check(RoomKey(room.name), None));
    var o := Commit(s, op);
    Step(o.result.Ok(), o.store)
  }

  /** The climate as `upsertClimate` leaves it: a missing date is filled with `now`. */
  function WithDate(climate: Climate, now: Timestamp): (c: Climate)
    ensures c.temperature == climate.temperature && c.humidity == climate.humidity
    ensures c.lastUpdateDate.Some?
    ensures climate.lastUpdateDate.Some? ==> c == climate
    ensures climate.lastUpdateDate.None? ==> c.lastUpdateDate == Some(now)
  {
    if climate.lastUpdateDate.None? then climate.(lastUpdateDate := Some(now)) else climate
  }

  /**
   `upsertClimate`: the room name is used as given. The date is filled before
   the room lookup, so the caller's object is changed even when the room is
   missing; a missing room means `false` and no write.
   */
  function UpsertClimate(s: Db, roomName: string, climate: Climate, now: Timestamp): (r: ClimateWrite)
    ensures r.climate == WithDate(climate, now)
    ensures r.ok <==> RoomKey(roomName) in s.entries
    ensures !r.ok ==> r.db == s
    ensures r.ok ==> Get(r.db, ClimateKey(roomName)) == Some(Entry(ClimateValue(r.climate), s.clock + 1))
    ensures SameExcept(s, r.db, {ClimateKey(roomName)})
  {
    var climate := WithDate(climate, now);
    if Get(s, RoomKey(roomName)).None? then
      ClimateWrite(false, climate, s)
    else
      ClimateWrite(true, climate, SetKey(s, ClimateKey(roomName), ClimateValue(climate)))
  }

  /** `getRoom`: the only lookup that folds the name. */
  function GetRoom(s: Db, name: string): (r: Option<Room>)
    ensures r.Some? <==> Key(RoomPrefix, Lower(name)) in s.entries && s.entries[Key(RoomPrefix, Lower(name))].value.RoomValue?
    ensures r.Some? ==> s.entries[Key(RoomPrefix, Lower(name))].value == RoomValue(r.value)
  {
    RoomAt(s, RoomKey(Lower(name)))
  }

  /** `getClimate`: the name is used as given. */
  function GetClimate(s: Db, name: string): (r: Option<Climate>)
    ensures r.Some? <==> Key(RoomClimatePrefix, name) in s.entries && s.entries[Key(RoomClimatePrefix, name)].value.ClimateValue?
    ensures r.Some? ==> s.entries[Key(RoomClimatePrefix, name)].value == ClimateValue(r.value)
  {
    ClimateAt(s, ClimateKey(name))
  }

  /**
   `deleteRoom`: a no-op when `getRoom` finds nothing; otherwise three separate
   deletes (three commits) of the name record, the id record and the climate.
   */
  function DeleteRoom(s: Db, name: string): (r: Db)
    ensures GetRoom(s, name).None? ==> r == s
    ensures GetRoom(s, name).Some? ==>
              var room := GetRoom(s, name).value;
              && Get(r, RoomKey(room.name)).None?
              && Get(r, RoomByIdKey(room.id)).None?
              && Get(r, ClimateKey(room.name)).None?
              && SameExcept(s, r, {RoomKey(room.name), RoomByIdKey(room.id), ClimateKey(room.name)})
  {
    match GetRoom(s, name)
    case None => s
    case Some(room) =>
      var s := DeleteKey(s, RoomKey(room.name));
      var s := DeleteKey(s, RoomByIdKey(room.id));
      DeleteKey(s, ClimateKey(room.name))
  }

  /** `getAllRooms`: every value under the `"room"` prefix, once each. */
  method GetAllRooms(s: Db) returns (rooms: seq<Value>)
    ensures exists es :: Enumerates(s, Some(RoomPrefix), es) && rooms == ValuesOf(es)
  {
    var es := List(s, Some(RoomPrefix));
    rooms := ValuesOf(es);
    assert Enumerates(s, Some(RoomPrefix), es) && rooms == ValuesOf(es);
  }

  /** A listed value that `getAllRoomClimates` can resolve through `getRoom`. */
  predicate Resolves(s: Db, v: Value) {
    v.RoomValue? && GetRoom(s, v.room.name).Some?
  }

  /** The row `getAllRoomClimates` builds for a listed value it can resolve. */
  function MergedRow(s: Db, v: Value): RoomClimate
    requires Resolves(s, v)
  {
    var room := GetRoom(s, v.room.name).value;
    RoomClimate(room, GetClimate(s, room.name))
  }

  /**
   The loop of `getAllRoomClimates` over a listing: each listed room is looked
   up again through `getRoom` (which folds the name) and merged with the
   climate under the found room's name. A lookup that finds nothing throws.
   */
  function MergeClimates(s: Db, es: seq<KvEntry<Value>>): (r: Result<seq<RoomClimate>, Thrown>)
    ensures r.Success? <==> forall i :: 0 <= i < |es| ==> Resolves(s, es[i].value)
    ensures r.Success? ==> |r.value| == |es| && forall i :: 0 <= i < |es| ==> r.value[i] == MergedRow(s, es[i].value)
    decreases |es|
  {
    if |es| == 0 then Success([])
    else
      var v := es[0].value;
      if !v.RoomValue? then Failure(NotARoom(es[0].key))
      else if GetRoom(s, v.room.name).None? then Failure(MissingRecord(RoomKey(Lower(v.room.name))))
      else
        var rest :- MergeClimates(s, es[1..]);
        assert forall i :: 1 <= i < |es| ==> es[i] == es[1..][i - 1];
        Success([MergedRow(s, v)] + rest)
  }

  /** `getAllRoomClimates`. */
  method GetAllRoomClimates(s: Db) returns (r: Result<seq<RoomClimate>, Thrown>)
    ensures exists es :: Enumerates(s, Some(RoomPrefix), es) && r == MergeClimates(s, es)
  {
    var es := List(s, Some(RoomPrefix));
    r := MergeClimates(s, es);
    assert Enumerates(s, Some(RoomPrefix), es) && r == MergeClimates(s, es);
  }

  /** `getAllKeys`: an empty or missing prefix lists the whole store. */
  method GetAllKeys(s: Db, prefix: Option<string>) returns (es: seq<KvEntry<Value>>)
    ensures prefix.None? || prefix.value == "" ==> Enumerates(s, None, es)
    ensures prefix.Some? && prefix.value != "" ==> Enumerates(s, prefix, es)
  {
    if prefix.None? || prefix.value == "" {
      es := List(s, None);
    } else {
      es := List(s, prefix);
    }
  }
}
