/**
 Properties of the current layout (services/db.ts): the index agreement every
 operation preserves, and the behaviour the operations show on concrete
 names, including where name folding is and is not applied.
 */
module RoomServiceProperties {
  import opened Wrappers
  import opened KvStore
  import opened Records
  import opened Constants
  import opened RoomService

  /** A name record names its own key and agrees with its room's id record. */
  ghost predicate NameRecordOk(s: Db, k: Key) {
    var r := RoomAt(s, k);
    r.Some? && r.value.name == k.part && RoomAt(s, RoomByIdKey(r.value.id)) == r
  }

  /** An id record carries its own key's id and agrees with its room's name record. */
  ghost predicate IdRecordOk(s: Db, k: Key) {
    var r := RoomAt(s, k);
    r.Some? && r.value.id == k.part && RoomAt(s, RoomKey(r.value.name)) == r
  }

  /** A climate record sits under the name of an existing room. */
  ghost predicate ClimateRecordOk(s: Db, k: Key) {
    ClimateAt(s, k).Some? && RoomKey(k.part) in s.entries
  }

  /** The index agreement of the current layout. */
  ghost predicate Consistent(s: Db) {
    forall k :: k in s.entries ==>
      && (k.prefix == RoomPrefix ==> NameRecordOk(s, k))
      && (k.prefix == RoomByIdPrefix ==> IdRecordOk(s, k))
      && (k.prefix == RoomClimatePrefix ==> ClimateRecordOk(s, k))
  }

  /** Every room name is already in canonical (lower-case) form. */
  ghost predicate CanonicalNames(s: Db) {
    forall k :: k in s.entries && k.prefix == RoomPrefix ==> IsLower(k.part)
  }

  lemma EmptyIsConsistent()
    ensures Consistent(Empty)
  {
  }

  /** Adding a room under an unused name and an unused id keeps the indices in agreement. */
  lemma AddRoomPreserves(s: Db, t: Db, room: Room)
    requires Consistent(s)
    requires RoomKey(room.name) !in s.entries && RoomByIdKey(room.id) !in s.entries
    requires RoomAt(t, RoomKey(room.name)) == Some(room) && RoomAt(t, RoomByIdKey(room.id)) == Some(room)
    requires SameExcept(s, t, {RoomKey(room.name), RoomByIdKey(room.id)})
    ensures Consistent(t)
  {
    forall k | k in t.entries && k.prefix == RoomPrefix && k != RoomKey(room.name)
      ensures NameRecordOk(t, k)
    {
      assert Get(t, k) == Get(s, k) && NameRecordOk(s, k);
      assert RoomByIdKey(RoomAt(s, k).value.id) != RoomByIdKey(room.id);
    }
    forall k | k in t.entries && k.prefix == RoomByIdPrefix && k != RoomByIdKey(room.id)
      ensures IdRecordOk(t, k)
    {
      assert Get(t, k) == Get(s, k) && IdRecordOk(s, k);
      assert RoomKey(RoomAt(s, k).value.name) != RoomKey(room.name);
    }
    forall k | k in t.entries && k.prefix == RoomClimatePrefix
      ensures ClimateRecordOk(t, k)
    {
      assert Get(t, k) == Get(s, k) && ClimateRecordOk(s, k);
      assert Get(t, RoomKey(k.part)).Some?;
    }
  }

  /**
   Removing a room's name record, id record and climate together keeps the
   indices in agreement.
   */
  lemma RemoveRoomPreserves(s: Db, t: Db, room: Room)
    requires Consistent(s)
    requires RoomAt(s, RoomKey(room.name)) == Some(room) && RoomAt(s, RoomByIdKey(room.id)) == Some(room)
    requires Get(t, RoomKey(room.name)).None? && Get(t, RoomByIdKey(room.id)).None? && Get(t, ClimateKey(room.name)).None?
    requires SameExcept(s, t, {RoomKey(room.name), RoomByIdKey(room.id), ClimateKey(room.name)})
    ensures Consistent(t)
  {
    forall k | k in t.entries && k.prefix == RoomPrefix
      ensures NameRecordOk(t, k)
    {
      assert Get(t, k) == Get(s, k) && NameRecordOk(s, k);
      assert RoomByIdKey(RoomAt(s, k).value.id) != RoomByIdKey(room.id);
    }
    forall k | k in t.entries && k.prefix == RoomByIdPrefix
      ensures IdRecordOk(t, k)
    {
      assert Get(t, k) == Get(s, k) && IdRecordOk(s, k);
      assert RoomKey(RoomAt(s, k).value.name) != RoomKey(room.name);
    }
    forall k | k in t.entries && k.prefix == RoomClimatePrefix
      ensures ClimateRecordOk(t, k)
    {
      assert Get(t, k) == Get(s, k) && ClimateRecordOk(s, k);
      assert Get(t, RoomKey(k.part)).Some?;
    }
  }

  /**
   Renaming room `p` to `room` (same id, new unused name) while moving the
   climate, if any, from the old name to the new one keeps the indices in
   agreement.
   */
  lemma RenamePreserves(s: Db, t: Db, p: Room, room: Room)
    requires Consistent(s)
    requires p.id == room.id && RoomAt(s, RoomByIdKey(p.id)) == Some(p) && RoomKey(room.name) !in s.entries
    requires RoomAt(t, RoomKey(room.name)) == Some(room) && RoomAt(t, RoomByIdKey(room.id)) == Some(room)
    requires Get(t, RoomKey(p.name)).None?
    requires ClimateKey(p.name) in s.entries ==>
               Get(t, ClimateKey(p.name)).None? && Get(t, ClimateKey(room.name)).Some?
               && Get(t, ClimateKey(room.name)).value.value == s.entries[ClimateKey(p.name)].value
    requires SameExcept(s, t, {RoomKey(room.name), RoomByIdKey(room.id), RoomKey(p.name)}
                              + (if ClimateKey(p.name) in s.entries then {ClimateKey(p.name), ClimateKey(room.name)} else {}))
    ensures Consistent(t)
  {
    assert IdRecordOk(s, RoomByIdKey(p.id));
    forall k | k in t.entries && k.prefix == RoomPrefix && k != RoomKey(room.name)
      ensures NameRecordOk(t, k)
    {
      assert Get(t, k) == Get(s, k) && NameRecordOk(s, k);
      assert RoomByIdKey(RoomAt(s, k).value.id) != RoomByIdKey(room.id);
    }
    forall k | k in t.entries && k.prefix == RoomByIdPrefix && k != RoomByIdKey(room.id)
      ensures IdRecordOk(t, k)
    {
      assert Get(t, k) == Get(s, k) && IdRecordOk(s, k);
      assert RoomKey(RoomAt(s, k).value.name) != RoomKey(room.name);
      assert RoomKey(RoomAt(s, k).value.name) != RoomKey(p.name);
    }
    forall k | k in t.entries && k.prefix == RoomClimatePrefix
      ensures ClimateRecordOk(t, k)
    {
      if k == ClimateKey(room.name) {
        if ClimateKey(p.name) in s.entries {
          assert ClimateRecordOk(s, ClimateKey(p.name));
        }
      } else {
        assert Get(t, k) == Get(s, k) && ClimateRecordOk(s, k);
        assert k.part != p.name;
        assert Get(t, RoomKey(k.part)).Some?;
      }
    }
  }

  /** A successful `createRoom` with an unused id keeps the indices in agreement. */
  lemma CreateRoomPreserves(s: Db, roomName: string, freshId: string)
    requires Consistent(s)
    requires RoomByIdKey(freshId) !in s.entries
    ensures Consistent(CreateRoom(s, roomName, freshId).db)
  {
    var r := CreateRoom(s, roomName, freshId);
    if r.ok {
      AddRoomPreserves(s, r.db, Room(freshId, roomName));
    }
  }

  /** `updateRoom` keeps the indices in agreement, and moves climates along with names. */
  lemma UpdateRoomPreserves(s: Db, room: Room)
    requires Consistent(s)
    ensures Consistent(UpdateRoom(s, room).db)
  {
    var r := UpdateRoom(s, room);
    if r.ok {
      match RoomAt(s, RoomByIdKey(room.id))
      case None =>
        AddRoomPreserves(s, r.db, room);
      case Some(p) =>
        assert IdRecordOk(s, RoomByIdKey(room.id));
        RenamePreserves(s, r.db, p, room);
    }
  }

  /** `upsertClimate` only writes a climate under the name of an existing room. */
  lemma UpsertClimatePreserves(s: Db, roomName: string, climate: Climate, now: Timestamp)
    requires Consistent(s)
    ensures Consistent(UpsertClimate(s, roomName, climate, now).db)
  {
    var r := UpsertClimate(s, roomName, climate, now);
    if r.ok {
      ClimateWritePreserves(s, r.db, roomName);
    }
  }

  /** Storing a climate under the name of an existing room keeps the indices in agreement. */
  lemma ClimateWritePreserves(s: Db, t: Db, roomName: string)
    requires Consistent(s)
    requires RoomKey(roomName) in s.entries && ClimateAt(t, ClimateKey(roomName)).Some?
    requires SameExcept(s, t, {ClimateKey(roomName)})
    ensures Consistent(t)
  {
    forall k | k in t.entries && k.prefix == RoomPrefix
      ensures NameRecordOk(t, k)
    {
      assert Get(t, k) == Get(s, k) && NameRecordOk(s, k);
      assert Get(t, RoomByIdKey(RoomAt(s, k).value.id)) == Get(s, RoomByIdKey(RoomAt(s, k).value.id));
    }
    forall k | k in t.entries && k.prefix == RoomByIdPrefix
      ensures IdRecordOk(t, k)
    {
      assert Get(t, k) == Get(s, k) && IdRecordOk(s, k);
      assert Get(t, RoomKey(RoomAt(s, k).value.name)) == Get(s, RoomKey(RoomAt(s, k).value.name));
    }
    forall k | k in t.entries && k.prefix == RoomClimatePrefix
      ensures ClimateRecordOk(t, k)
    {
      assert Get(t, RoomKey(k.part)) == Get(s, RoomKey(k.part));
      if k != ClimateKey(roomName) {
        assert Get(t, k) == Get(s, k) && ClimateRecordOk(s, k);
      }
    }
  }

  /** `deleteRoom` removes a room together with everything that refers to it. */
  lemma DeleteRoomPreserves(s: Db, name: string)
    requires Consistent(s)
    ensures Consistent(DeleteRoom(s, name))
  {
    if GetRoom(s, name).Some? {
      var room := GetRoom(s, name).value;
      assert NameRecordOk(s, RoomKey(Lower(name)));
      RemoveRoomPreserves(s, DeleteRoom(s, name), room);
    }
  }

  /**
   On a consistent store a name or id key holds a room whenever it holds
   anything, so the typed reads behind `updateRoom`'s `if (oldRoom.value)` and
   `deleteRoom`'s `if (!room)` agree with the code's truthiness tests.
   */
  lemma TypedReadsOfConsistentStore(s: Db, k: Key)
    requires Consistent(s)
    requires k.prefix == RoomPrefix || k.prefix == RoomByIdPrefix
    ensures RoomAt(s, k).Some? <==> k in s.entries
  {
    if k in s.entries {
      if k.prefix == RoomPrefix {
        assert NameRecordOk(s, k);
      } else {
        assert IdRecordOk(s, k);
      }
    }
  }

  /** Of two creates of the same name, the second always conflicts. */
  lemma CreateSameNameTwice(s: Db, roomName: string, id1: string, id2: string)
    ensures var first := CreateRoom(s, roomName, id1);
            var second := CreateRoom(first.db, roomName, id2);
            !second.ok && second.db == first.db
  {
  }

  /** `getRoom` folds its argument, so it cannot tell names apart by case. */
  lemma GetRoomIgnoresCase(s: Db, name: string)
    ensures GetRoom(s, name) == GetRoom(s, Lower(name))
  {
    LowerIdempotent(name);
  }

  /**
   Renaming a room moves its climate with it in the same commit: afterwards
   the climate is found under the new name only, unchanged.
   */
  lemma RenameMovesClimate(s: Db, id: string, oldName: string, newName: string, c: Climate)
    requires Consistent(s)
    requires RoomAt(s, RoomByIdKey(id)) == Some(Room(id, oldName))
    requires GetClimate(s, oldName) == Some(c)
    requires RoomKey(newName) !in s.entries
    ensures var r := UpdateRoom(s, Room(id, newName));
            && r.ok
            && GetClimate(r.db, oldName).None?
            && GetClimate(r.db, newName) == Some(c)
            && RoomAt(r.db, RoomKey(oldName)).None?
            && RoomAt(r.db, RoomKey(newName)) == Some(Room(id, newName))
            && RoomAt(r.db, RoomByIdKey(id)) == Some(Room(id, newName))
  {
    assert IdRecordOk(s, RoomByIdKey(id));
  }

  /**
   The guard of `updateRoom` is on the new name key, so resubmitting a room
   with its current name is reported as a conflict and writes nothing.
   */
  lemma UpdateWithSameNameConflicts(s: Db, room: Room)
    requires Consistent(s)
    requires RoomAt(s, RoomByIdKey(room.id)) == Some(room)
    ensures !UpdateRoom(s, room).ok && UpdateRoom(s, room).db == s
  {
    assert IdRecordOk(s, RoomByIdKey(room.id));
  }

  /** After `deleteRoom` finds a room, neither its name, its id nor its climate resolves. */
  lemma DeleteRoomRemovesAll(s: Db, name: string)
    requires Consistent(s)
    requires GetRoom(s, name).Some?
    ensures var room := GetRoom(s, name).value;
            var t := DeleteRoom(s, name);
            && room.name == Lower(name)
            && GetRoom(t, name).None?
            && GetClimate(t, Lower(name)).None?
            && RoomAt(t, RoomByIdKey(room.id)).None?
  {
    assert NameRecordOk(s, RoomKey(Lower(name)));
  }

  /** Deleting twice is deleting once. */
  lemma DeleteRoomIdempotent(s: Db, name: string)
    requires Consistent(s)
    ensures DeleteRoom(DeleteRoom(s, name), name) == DeleteRoom(s, name)
  {
    if GetRoom(s, name).Some? {
      DeleteRoomRemovesAll(s, name);
    }
  }

  /**
   Under the index agreement and with canonical names, `getAllRoomClimates`
   succeeds on every listing and pairs each room with the climate under its name.
   */
  lemma AllRoomClimatesOfCanonicalStore(s: Db, es: seq<KvEntry<Value>>)
    requires Consistent(s) && CanonicalNames(s)
    requires Enumerates(s, Some(RoomPrefix), es)
    ensures var r := MergeClimates(s, es);
            && r.Success?
            && |r.value| == |es|
            && forall i :: 0 <= i < |es| ==>
                 es[i].value.RoomValue? && r.value[i] == RoomClimate(es[i].value.room, GetClimate(s, es[i].value.room.name))
  {
    forall i | 0 <= i < |es|
      ensures Resolves(s, es[i].value)
      ensures es[i].value.RoomValue? && MergedRow(s, es[i].value) == RoomClimate(es[i].value.room, GetClimate(s, es[i].value.room.name))
    {
      var k := es[i].key;
      assert Listed(s, Some(RoomPrefix), es[i]);
      assert NameRecordOk(s, k) && IsLower(k.part);
      LowerOfLower(k.part);
    }
  }

  /**
   `createRoom` does not fold names while `getRoom` does: a room created under
   a name that is not in folded form is found by no lookup of that name, and
   `deleteRoom` of that name leaves it in place.
   */
  lemma UnfoldedNameUnreachable(s: Db, name: string, id: string)
    requires Lower(name) != name
    requires RoomKey(name) !in s.entries && RoomKey(Lower(name)) !in s.entries
    ensures var r := CreateRoom(s, name, id);
            && r.ok
            && RoomAt(r.db, RoomKey(name)) == Some(Room(id, name))
            && GetRoom(r.db, name).None?
            && DeleteRoom(r.db, name) == r.db
  {
    var r := CreateRoom(s, name, id);
    assert Get(r.db, RoomKey(Lower(name))) == Get(s, RoomKey(Lower(name)));
  }

  /**
   `upsertClimate` does not fold the name: a name that `getRoom` resolves only
   after folding is reported missing when a climate is stored under it.
   */
  lemma UpsertClimateUnfolded(s: Db, name: string, c: Climate, now: Timestamp)
    requires GetRoom(s, name).Some? && RoomKey(name) !in s.entries
    ensures !UpsertClimate(s, name, c, now).ok
    ensures UpsertClimate(s, name, c, now).db == s
  {
  }

  /**
   `getAllRoomClimates` looks every listed room up again through `getRoom`;
   a room stored under a name whose folded form has no record makes the whole
   listing throw, whatever the listing order.
   */
  lemma UnfoldedNameBreaksClimateListing(s: Db, name: string, es: seq<KvEntry<Value>>)
    requires RoomAt(s, RoomKey(name)).Some? && RoomAt(s, RoomKey(name)).value.name == name
    requires RoomKey(Lower(name)) !in s.entries
    requires Enumerates(s, Some(RoomPrefix), es)
    ensures MergeClimates(s, es).Failure?
  {
    var i :| 0 <= i < |es| && es[i].key == RoomKey(name);
    assert Listed(s, Some(RoomPrefix), es[i]);
    assert !Resolves(s, es[i].value);
  }

  lemma KitchenFolds()
    ensures Lower("Kitchen") == "kitchen" && Lower("kitchen") == "kitchen"
    ensures RoomKey("Kitchen") != RoomKey("kitchen")
  {
    assert Lower("Kitchen") == "kitchen";
    assert Lower("kitchen") == "kitchen";
    assert "Kitchen"[0] != "kitchen"[0];
  }

  /** A room created as "Kitchen" cannot be found as "Kitchen" or "kitchen", nor deleted. */
  lemma KitchenIsUnreachable(id: string)
    ensures var r := CreateRoom(Empty, "Kitchen", id);
            && r.ok
            && GetRoom(r.db, "Kitchen").None?
            && GetRoom(r.db, "kitchen").None?
            && DeleteRoom(r.db, "Kitchen") == r.db
  {
    KitchenFolds();
    UnfoldedNameUnreachable(Empty, "Kitchen", id);
  }

  /**
   `createRoom` only guards the exact name: two names that differ in any way,
   case included, are both accepted as separate rooms.
   */
  lemma DistinctNamesBothCreated(s: Db, n1: string, n2: string, id1: string, id2: string)
    requires n1 != n2 && RoomKey(n1) !in s.entries && RoomKey(n2) !in s.entries
    ensures var first := CreateRoom(s, n1, id1);
            var second := CreateRoom(first.db, n2, id2);
            && first.ok && second.ok
            && RoomAt(second.db, RoomKey(n1)) == Some(Room(id1, n1))
            && RoomAt(second.db, RoomKey(n2)) == Some(Room(id2, n2))
  {
    var first := CreateRoom(s, n1, id1);
    assert Get(first.db, RoomKey(n2)) == Get(s, RoomKey(n2));
    var second := CreateRoom(first.db, n2, id2);
    assert Get(second.db, RoomKey(n1)) == Get(first.db, RoomKey(n1));
  }

  /** "Kitchen" and "kitchen" can both be created, as two rooms. */
  lemma CaseVariantsBothCreated(id1: string, id2: string)
    ensures var first := CreateRoom(Empty, "Kitchen", id1);
            var second := CreateRoom(first.db, "kitchen", id2);
            && first.ok && second.ok
            && RoomAt(second.db, RoomKey("Kitchen")) == Some(Room(id1, "Kitchen"))
            && RoomAt(second.db, RoomKey("kitchen")) == Some(Room(id2, "kitchen"))
  {
    KitchenFolds();
    DistinctNamesBothCreated(Empty, "Kitchen", "kitchen", id1, id2);
  }

  /** With a room stored as "kitchen", a climate update for "Kitchen" is refused. */
  lemma KitchenClimateRefused(id: string, c: Climate, now: Timestamp)
    ensures var db := CreateRoom(Empty, "kitchen", id).db;
            && GetRoom(db, "Kitchen") == Some(Room(id, "kitchen"))
            && !UpsertClimate(db, "Kitchen", c, now).ok
  {
    KitchenFolds();
    var db := CreateRoom(Empty, "kitchen", id).db;
    assert Get(db, RoomKey("Kitchen")) == Get(Empty, RoomKey("Kitchen"));
  }

  /** After creating "Kitchen", every listing of rooms with climates throws. */
  lemma KitchenBreaksClimateListing(id: string, es: seq<KvEntry<Value>>)
    requires Enumerates(CreateRoom(Empty, "Kitchen", id).db, Some(RoomPrefix), es)
    ensures MergeClimates(CreateRoom(Empty, "Kitchen", id).db, es).Failure?
  {
    KitchenFolds();
    var db := CreateRoom(Empty, "Kitchen", id).db;
    assert Get(db, RoomKey("kitchen")) == Get(Empty, RoomKey("kitchen"));
    UnfoldedNameBreaksClimateListing(db, "Kitchen", es);
  }
}
