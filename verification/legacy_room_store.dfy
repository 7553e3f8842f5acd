/**
 The earlier persistence layer (src/db.ts). Rooms are keyed by id under
 `("room", id)` with a by-name copy under `("room_by_name", name)`; climates
 sit under `("room_climate", name)`. Names are folded before every write.
 Writes are guarded by a versionstamp check on the id record read just
 before; the code branches on the commit's result object instead of its `ok` field, so a
 failed check is silently ignored rather than thrown.
 */
module LegacyRoomStore {
  import opened Wrappers
  import opened KvStore
  import opened Records

  const RoomPrefix: string := "room"
  const RoomByNamePrefix: string := "room_by_name"
  const RoomClimatePrefix: string := "room_climate"

  function RoomKey(id: string): Key { Key(RoomPrefix, id) }
  function RoomByNameKey(name: string): Key { Key(RoomByNamePrefix, name) }
  function ClimateKey(name: string): Key { Key(RoomClimatePrefix, name) }

  /** The room as it is stored: its name folded to lower case. */
  function Folded(room: Room): (r: Room)
    ensures r.id == room.id && r.name == Lower(room.name) && IsLower(r.name)
  {
    Room(room.id, Lower(room.name))
  }

  /**
   The room writes shared by `upsertRoom` and `upsertClimate`, built from a
   read of the id record on `s`: guarded by that record's versionstamp; for a
   known id the old by-name record is deleted first, then both records are set.
   A non-room value under the id key makes the source read `.name` of it and throw.
   */
  function RoomTx(s: Db, room: Room): (r: Result<AtomicOp<Value>, Thrown>)
    ensures r.Failure? <==> RoomKey(room.id) in s.entries && RoomAt(s, RoomKey(room.id)).None?
    ensures r.Success? ==> var stored := Folded(room);
              && r.value.checks == [Check(RoomKey(room.id), StampOf(s, RoomKey(room.id)))]
              && LastMutation(r.value.muts, RoomKey(room.id)) == Some(Set(RoomKey(room.id), RoomValue(stored)))
              && LastMutation(r.value.muts, RoomByNameKey(stored.name)) == Some(Set(RoomByNameKey(stored.name), RoomValue(stored)))
              && (RoomAt(s, RoomKey(room.id)).None? ==>
                    forall k :: k != RoomKey(room.id) && k != RoomByNameKey(stored.name) ==> LastMutation(r.value.muts, k).None?)
              && (RoomAt(s, RoomKey(room.id)).Some? ==>
                    var previous := RoomAt(s, RoomKey(room.id)).value;
                    && (previous.name != stored.name ==>
                          LastMutation(r.value.muts, RoomByNameKey(previous.name)) == Some(Delete(RoomByNameKey(previous.name))))
                    && forall k :: k != RoomKey(room.id) && k != RoomByNameKey(stored.name) && k != RoomByNameKey(previous.name) ==>
                         LastMutation(r.value.muts, k).None?)
  {
    var stored := Folded(room);
    var check := Check(RoomKey(room.id), StampOf(s, RoomKey(room.id)));
    if RoomKey(room.id) !in s.entries then
      Success(Atomic()
        .WithCheck(check)
        .WithSet(RoomKey(room.id), RoomValue(stored))
        .WithSet(RoomByNameKey(stored.name), RoomValue(stored)))
    else
      match RoomAt(s, RoomKey(room.id))
      case None => Failure(NotARoom(RoomKey(room.id)))
      case Some(previous) =>
        Success(Atomic()
          .WithCheck(check)
          .WithDelete(RoomByNameKey(previous.name))
          .WithSet(RoomKey(room.id), RoomValue(stored))
          .WithSet(RoomByNameKey(stored.name), RoomValue(stored)))
  }

  /** The transaction `upsertClimate` builds: the room writes, then the climate under the folded name. */
  function ClimateTx(s: Db, room: Room, climate: Climate): (r: Result<AtomicOp<Value>, Thrown>)
    ensures r.Failure? <==> RoomTx(s, room).Failure?
    ensures r.Success? ==>
              && r.value.checks == RoomTx(s, room).value.checks
              && LastMutation(r.value.muts, ClimateKey(Lower(room.name))) == Some(Set(ClimateKey(Lower(room.name)), ClimateValue(climate)))
              && forall k :: k != ClimateKey(Lower(room.name)) ==> LastMutation(r.value.muts, k) == LastMutation(RoomTx(s, room).value.muts, k)
  {
    var op :- RoomTx(s, room);
    Success(op.WithSet(ClimateKey(Lower(room.name)), ClimateValue(climate)))
  }

  /**
   Commits a transaction read from `seen` onto `current`, discarding the
   commit's result the way src/db.ts:34 and :42 do: nothing is thrown when the
   check fails.
   */
  function CommitIgnoringResult(current: Db, tx: Result<AtomicOp<Value>, Thrown>): (r: Result<Db, Thrown>)
    ensures r.Failure? <==> tx.Failure?
    ensures r.Success? && !ChecksHold(current, tx.value.checks) ==> r.value == current
  {
    var op :- tx;
    var outcome := Commit(current, op);
    Success(outcome.store)
  }

  /** `upsertRoom`, with the read made on `seen` and the commit made on `current`. */
  function UpsertRoomRacing(seen: Db, current: Db, room: Room): (r: Result<Db, Thrown>)
    ensures r.Failure? <==> RoomTx(seen, room).Failure?
    ensures r.Success? && StampOf(current, RoomKey(room.id)) != StampOf(seen, RoomKey(room.id)) ==> r.value == current
  {
    var tx := RoomTx(seen, room);
    if tx.Success? then
      ChecksHoldSnoc(current, [], tx.value.checks[0]);
      assert tx.value.checks == [] + [tx.value.checks[0]];
      CommitIgnoringResult(current, tx)
    else
      CommitIgnoringResult(current, tx)
  }

  /**
   `upsertRoom`. Sequentially the check always holds: the room is stored under
   its id and its folded name, the old by-name record of a known id is
   removed, and nothing else changes.
   */
  function UpsertRoom(s: Db, room: Room): (r: Result<Db, Thrown>)
    ensures r.Failure? <==> RoomKey(room.id) in s.entries && RoomAt(s, RoomKey(room.id)).None?
    ensures r.Success? ==> var stored := Folded(room);
              && Get(r.value, RoomKey(room.id)) == Some(Entry(RoomValue(stored), s.clock + 1))
              && Get(r.value, RoomByNameKey(stored.name)) == Some(Entry(RoomValue(stored), s.clock + 1))
              && (RoomAt(s, RoomKey(room.id)).None? ==> SameExcept(s, r.value, {RoomKey(room.id), RoomByNameKey(stored.name)}))
              && (RoomAt(s, RoomKey(room.id)).Some? ==>
                    var previous := RoomAt(s, RoomKey(room.id)).value;
                    && (previous.name != stored.name ==> Get(r.value, RoomByNameKey(previous.name)).None?)
                    && SameExcept(s, r.value, {RoomKey(room.id), RoomByNameKey(stored.name), RoomByNameKey(previous.name)}))
  {
    var tx := RoomTx(s, room);
    if tx.Success? then
      ChecksHoldSnoc(s, [], tx.value.checks[0]);
      assert tx.value.checks == [] + [tx.value.checks[0]];
      CommitIgnoringResult(s, tx)
    else
      CommitIgnoringResult(s, tx)
  }

  /**
   `upsertClimate`: the room writes of `upsertRoom` plus the climate, stored
   verbatim under the folded name, in one commit. A climate under the room's
   previous name is neither moved nor deleted.
   */
  function UpsertClimate(s: Db, room: Room, climate: Climate): (r: Result<Db, Thrown>)
    ensures r.Failure? <==> UpsertRoom(s, room).Failure?
    ensures r.Success? ==>
              && Get(r.value, ClimateKey(Lower(room.name))) == Some(Entry(ClimateValue(climate), s.clock + 1))
              && forall k :: k != ClimateKey(Lower(room.name)) ==> Get(r.value, k) == Get(UpsertRoom(s, room).value, k)
  {
    var tx := ClimateTx(s, room, climate);
    if tx.Success? then
      SameRoomWrites(s, room, climate);
      UpsertRoomCommits(s, room);
      Success(Commit(s, tx.value).store)
    else
      Failure(tx.error)
  }

  /** The climate transaction commits exactly when the room transaction would, with the same room writes. */
  lemma SameRoomWrites(s: Db, room: Room, climate: Climate)
    requires RoomTx(s, room).Success?
    ensures var withClimate := Commit(s, ClimateTx(s, room, climate).value);
            var roomOnly := Commit(s, RoomTx(s, room).value);
            && withClimate.result.Ok()
            && Get(withClimate.store, ClimateKey(Lower(room.name))) == Some(Entry(ClimateValue(climate), s.clock + 1))
            && forall k :: k != ClimateKey(Lower(room.name)) ==> Get(withClimate.store, k) == Get(roomOnly.store, k)
  {
    var check := RoomTx(s, room).value.checks[0];
    ChecksHoldSnoc(s, [], check);
    assert RoomTx(s, room).value.checks == [] + [check];
  }

  /** `upsertRoom` is the commit of the room transaction. */
  lemma UpsertRoomCommits(s: Db, room: Room)
    requires RoomTx(s, room).Success?
    ensures UpsertRoom(s, room) == Success(Commit(s, RoomTx(s, room).value).store)
  {
  }

  /** `getRoomById`: the id is used as given. */
  function GetRoomById(s: Db, id: string): (r: Option<Room>)
    ensures r.Some? <==> Key(RoomPrefix, id) in s.entries && s.entries[Key(RoomPrefix, id)].value.RoomValue?
    ensures r.Some? ==> s.entries[Key(RoomPrefix, id)].value == RoomValue(r.value)
  {
    RoomAt(s, RoomKey(id))
  }

  /** `getRoomByName`: the name is folded. */
  function GetRoomByName(s: Db, name: string): (r: Option<Room>)
    ensures r.Some? <==> Key(RoomByNamePrefix, Lower(name)) in s.entries && s.entries[Key(RoomByNamePrefix, Lower(name))].value.RoomValue?
    ensures r.Some? ==> s.entries[Key(RoomByNamePrefix, Lower(name))].value == RoomValue(r.value)
  {
    RoomAt(s, RoomByNameKey(Lower(name)))
  }

  /** `getClimateByRoomName`: the name is folded. */
  function GetClimateByRoomName(s: Db, name: string): (r: Option<Climate>)
    ensures r.Some? <==> Key(RoomClimatePrefix, Lower(name)) in s.entries && s.entries[Key(RoomClimatePrefix, Lower(name))].value.ClimateValue?
    ensures r.Some? ==> s.entries[Key(RoomClimatePrefix, Lower(name))].value == ClimateValue(r.value)
  {
    ClimateAt(s, ClimateKey(Lower(name)))
  }

  /**
   `deleteRoomByName`: the room found under the folded name loses its id
   record, its by-name record and its climate, in three separate deletes.
   There is no null check: a missing room throws before anything is deleted.
   */
  function DeleteRoomByName(s: Db, name: string): (r: Result<Db, Thrown>)
    ensures r.Failure? <==> GetRoomByName(s, name).None?
    ensures r.Success? ==>
              var room := GetRoomByName(s, name).value;
              && Get(r.value, RoomKey(room.id)).None?
              && Get(r.value, RoomByNameKey(room.name)).None?
              && Get(r.value, ClimateKey(room.name)).None?
              && SameExcept(s, r.value, {RoomKey(room.id), RoomByNameKey(room.name), ClimateKey(room.name)})
  {
    var folded := Lower(name);
    var found := GetRoomByName(s, folded);
    assert found == GetRoomByName(s, name) by {
      LowerIdempotent(name);
    }
    if found.None? then
      Failure(MissingRecord(RoomByNameKey(folded)))
    else
      var room := found.value;
      Success(DeleteRecords(s, room))
  }

  /** Three separate deletes: the id record, the by-name record and the climate of `room`. */
  function DeleteRecords(s: Db, room: Room): (r: Db)
    ensures Get(r, RoomKey(room.id)).None?
    ensures Get(r, RoomByNameKey(room.name)).None?
    ensures Get(r, ClimateKey(room.name)).None?
    ensures SameExcept(s, r, {RoomKey(room.id), RoomByNameKey(room.name), ClimateKey(room.name)})
  {
    assert RoomKey(room.id) != RoomByNameKey(room.name) && RoomKey(room.id) != ClimateKey(room.name)
        && RoomByNameKey(room.name) != ClimateKey(room.name) by {
      assert |RoomPrefix| == 4 && |RoomByNamePrefix| == 12 && |RoomClimatePrefix| == 12;
      assert RoomByNamePrefix[5] != RoomClimatePrefix[5];
    }
    var s1 := DeleteKey(s, RoomKey(room.id));
    var s2 := DeleteKey(s1, RoomByNameKey(room.name));
    DeleteKey(s2, ClimateKey(room.name))
  }

  /** `getAllRooms`: every value under the `"room"` prefix, that is every id record. */
  method GetAllRooms(s: Db) returns (rooms: seq<Value>)
    ensures exists es :: Enumerates(s, Some(RoomPrefix), es) && rooms == ValuesOf(es)
  {
    var es := List(s, Some(RoomPrefix));
    rooms := ValuesOf(es);
    assert Enumerates(s, Some(RoomPrefix), es) && rooms == ValuesOf(es);
  }

  /** A listed value `getAllRoomClimates` can look up again by id. */
  predicate Resolves(s: Db, v: Value) {
    v.RoomValue? && GetRoomById(s, v.room.id).Some?
  }

  function MergedRow(s: Db, v: Value): RoomClimate
    requires Resolves(s, v)
  {
    var room := GetRoomById(s, v.room.id).value;
    RoomClimate(room, GetClimateByRoomName(s, room.name))
  }

  /**
   The loop of `getAllRoomClimates`: each listed room is looked up again by
   id and merged with the climate under its folded name; a failed lookup throws.
   */
  function MergeClimates(s: Db, es: seq<KvEntry<Value>>): (r: Result<seq<RoomClimate>, Thrown>)
    ensures r.Success? <==> forall i :: 0 <= i < |es| ==> Resolves(s, es[i].value)
    ensures r.Success? ==> |r.value| == |es| && forall i :: 0 <= i < |es| ==> r.value[i] == MergedRow(s, es[i].value)
    decreases |es|
  {
    if |es| == 0 then Success([])
    else
      var v := es[0].value;
      if !v.RoomValue? then Failure(NotARoom(es[0].key))
      else if GetRoomById(s, v.room.id).None? then Failure(MissingRecord(RoomKey(v.room.id)))
      else
        var rest :- MergeClimates(s, es[1..]);
        assert forall i :: 1 <= i < |es| ==> es[i] == es[1..][i - 1];
        Success([MergedRow(s, v)] + rest)
  }

  /** `getAllRoomClimates`. */
  method GetAllRoomClimates(s: Db) returns (r: Result<seq<RoomClimate>, Thrown>)
    ensures exists es :: Enumerates(s, Some(RoomPrefix), es) && r == MergeClimates(s, es)
  {
    var es := List(s, Some(RoomPrefix));
    r := MergeClimates(s, es);
    assert Enumerates(s, Some(RoomPrefix), es) && r == MergeClimates(s, es);
  }
}
