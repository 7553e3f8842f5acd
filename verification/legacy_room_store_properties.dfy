/**
 Properties of the earlier id-keyed layout (src/db.ts): its record shape
 invariant, index agreement after an upsert, the in-order mutation effects,
 the versionstamp guard, and where it departs from a unique-name registry.
 */
module LegacyRoomStoreProperties {
  import opened Wrappers
  import opened KvStore
  import opened Records
  import opened LegacyRoomStore

  /**
   Record shape of one key of the layout: an id record carries its key's id
   and a folded name, a by-name record carries its key's name, a climate key
   holds a climate.
   */
  ghost predicate RecordOk(k: Key, e: Entry<Value>) {
    && (k.prefix == RoomPrefix ==> e.value.RoomValue? && e.value.room.id == k.part && IsLower(e.value.room.name))
    && (k.prefix == RoomByNamePrefix ==> e.value.RoomValue? && e.value.room.name == k.part)
    && (k.prefix == RoomClimatePrefix ==> e.value.ClimateValue?)
  }

  /** Every record has the shape of its key. */
  ghost predicate Shaped(s: Db) {
    forall k :: k in s.entries ==> RecordOk(k, s.entries[k])
  }

  /** A by-name record holds the same room as the id record of that room's id. */
  ghost predicate NameRecordAgrees(s: Db, k: Key) {
    var r := RoomAt(s, k);
    r.Some? && RoomAt(s, RoomKey(r.value.id)) == r
  }

  /** Every by-name record points at a room that is stored under its id. */
  ghost predicate NamesAgree(s: Db) {
    forall k :: k in s.entries && k.prefix == RoomByNamePrefix ==> NameRecordAgrees(s, k)
  }

  /** The invariant of the layout: record shapes and by-name to id agreement. */
  ghost predicate WellFormed(s: Db) {
    Shaped(s) && NamesAgree(s)
  }

  lemma EmptyIsWellFormed()
    ensures WellFormed(Empty)
  {
  }

  /** On a shaped store `upsertRoom` never throws and keeps the record shapes. */
  lemma UpsertRoomShaped(s: Db, room: Room)
    requires Shaped(s)
    ensures UpsertRoom(s, room).Success?
    ensures Shaped(UpsertRoom(s, room).value)
  {
    var t := UpsertRoom(s, room).value;
    var stored := Folded(room);
    forall k | k in t.entries
      ensures RecordOk(k, t.entries[k])
    {
      if k != RoomKey(room.id) && k != RoomByNameKey(stored.name) {
        assert Get(t, k) == Get(s, k);
      }
    }
  }

  /**
   `upsertRoom` keeps the invariant. The only by-name record that can point at
   the upserted id is the one of its previous name, and that one is deleted
   or overwritten in the same commit.
   */
  lemma UpsertRoomPreserves(s: Db, room: Room)
    requires WellFormed(s)
    ensures UpsertRoom(s, room).Success?
    ensures WellFormed(UpsertRoom(s, room).value)
  {
    UpsertRoomShaped(s, room);
    var t := UpsertRoom(s, room).value;
    var stored := Folded(room);
    forall k | k in t.entries && k.prefix == RoomByNamePrefix
      ensures NameRecordAgrees(t, k)
    {
      if k != RoomByNameKey(stored.name) {
        assert Get(t, k) == Get(s, k);
        assert NameRecordAgrees(s, k);
        assert RecordOk(k, s.entries[k]);
        var r := RoomAt(s, k).value;
        if r.id != room.id {
          assert Get(t, RoomKey(r.id)) == Get(s, RoomKey(r.id));
        }
      }
    }
  }

  /** `upsertClimate` keeps the invariant as well: its extra write is a climate. */
  lemma UpsertClimatePreserves(s: Db, room: Room, climate: Climate)
    requires WellFormed(s)
    ensures UpsertClimate(s, room, climate).Success?
    ensures WellFormed(UpsertClimate(s, room, climate).value)
  {
    UpsertRoomPreserves(s, room);
    var u := UpsertRoom(s, room).value;
    var t := UpsertClimate(s, room, climate).value;
    var ck := ClimateKey(Lower(room.name));
    forall k | k in t.entries
      ensures RecordOk(k, t.entries[k])
    {
      if k != ck {
        assert Get(t, k) == Get(u, k);
      }
    }
    forall k | k in t.entries && k.prefix == RoomByNamePrefix
      ensures NameRecordAgrees(t, k)
    {
      assert Get(t, k) == Get(u, k) && NameRecordAgrees(u, k);
      var r := RoomAt(u, k).value;
      assert Get(t, RoomKey(r.id)) == Get(u, RoomKey(r.id));
    }
  }

  /** Removing three records never breaks the record shapes. */
  lemma RemovalPreserves(s: Db, t: Db, a: Key, b: Key, c: Key)
    requires Shaped(s)
    requires SameExcept(s, t, {a, b, c})
    requires Get(t, a).None? && Get(t, b).None? && Get(t, c).None?
    ensures Shaped(t)
  {
    forall k | k in t.entries
      ensures Get(t, k) == Get(s, k)
    {
      assert k != a && k != b && k != c;
    }
  }

  /**
   `deleteRoomByName` keeps the invariant: the by-name record it removes is
   the only one pointing at the id record it removes.
   */
  lemma DeleteRoomByNamePreserves(s: Db, name: string)
    requires WellFormed(s)
    ensures DeleteRoomByName(s, name).Success? ==> WellFormed(DeleteRoomByName(s, name).value)
  {
    var r := DeleteRoomByName(s, name);
    if r.Success? {
      var room := GetRoomByName(s, name).value;
      var t := r.value;
      RemovalPreserves(s, t, RoomKey(room.id), RoomByNameKey(room.name), ClimateKey(room.name));
      forall k | k in t.entries && k.prefix == RoomByNamePrefix
        ensures NameRecordAgrees(t, k)
      {
        assert Get(t, k) == Get(s, k) && NameRecordAgrees(s, k) && RecordOk(k, s.entries[k]);
        var other := RoomAt(s, k).value;
        assert other.id != room.id by {
          assert NameRecordAgrees(s, RoomByNameKey(Lower(name)));
          assert RecordOk(RoomByNameKey(Lower(name)), s.entries[RoomByNameKey(Lower(name))]);
        }
        assert Get(t, RoomKey(other.id)) == Get(s, RoomKey(other.id));
      }
    }
  }

  /** After an upsert the id index and the (folded) name index agree on the room. */
  lemma UpsertRoomIndicesAgree(s: Db, room: Room)
    requires UpsertRoom(s, room).Success?
    ensures var t := UpsertRoom(s, room).value;
            && GetRoomById(t, room.id) == Some(Folded(room))
            && GetRoomByName(t, room.name) == Some(Folded(room))
  {
  }

  /**
   Because the delete of the old by-name record comes before the new sets,
   re-upserting a room under its current name keeps its by-name record.
   */
  lemma ReupsertKeepsNameRecord(s: Db, room: Room)
    requires RoomAt(s, RoomKey(room.id)) == Some(Folded(room))
    ensures UpsertRoom(s, room).Success?
    ensures GetRoomByName(UpsertRoom(s, room).value, room.name) == Some(Folded(room))
  {
  }

  /** `getRoomByName` folds its argument. */
  lemma GetRoomByNameIgnoresCase(s: Db, name: string)
    ensures GetRoomByName(s, name) == GetRoomByName(s, Lower(name))
  {
    LowerIdempotent(name);
  }

  /** `getClimateByRoomName` folds its argument. */
  lemma GetClimateByRoomNameIgnoresCase(s: Db, name: string)
    ensures GetClimateByRoomName(s, name) == GetClimateByRoomName(s, Lower(name))
  {
    LowerIdempotent(name);
  }

  /**
   `getRoomById` does not fold: after an upsert, the lower-cased form of an id
   that has upper-case letters still finds whatever it found before.
   */
  lemma GetRoomByIdIsCaseSensitive(s: Db, room: Room)
    requires UpsertRoom(s, room).Success?
    requires Lower(room.id) != room.id
    ensures var t := UpsertRoom(s, room).value;
            && GetRoomById(t, room.id) == Some(Folded(room))
            && GetRoomById(t, Lower(room.id)) == GetRoomById(s, Lower(room.id))
  {
    var t := UpsertRoom(s, room).value;
    assert Get(t, RoomKey(Lower(room.id))) == Get(s, RoomKey(Lower(room.id)));
  }

  /**
   Nothing checks that a name is free: two ids upserted under one name both
   keep their id records, and the by-name record points at the later one.
   */
  lemma SharedNameAccepted(id1: string, id2: string, name: string)
    requires id1 != id2
    ensures var t1 := UpsertRoom(Empty, Room(id1, name)).value;
            var t2 := UpsertRoom(t1, Room(id2, name)).value;
            && GetRoomById(t2, id1) == Some(Room(id1, Lower(name)))
            && GetRoomById(t2, id2) == Some(Room(id2, Lower(name)))
            && GetRoomByName(t2, name) == Some(Room(id2, Lower(name)))
  {
    var t1 := UpsertRoom(Empty, Room(id1, name)).value;
    assert RoomKey(id1) != RoomKey(id2);
    assert Get(t1, RoomKey(id2)) == Get(Empty, RoomKey(id2));
  }

  /**
   A rename through `upsertRoom` leaves the climate under the old name in
   place, where no by-name record points at it any more.
   */
  lemma RenameLeavesClimateBehind(s: Db, id: string, newName: string)
    requires Shaped(s)
    requires RoomAt(s, RoomKey(id)).Some?
    requires Lower(newName) != RoomAt(s, RoomKey(id)).value.name
    ensures var oldName := RoomAt(s, RoomKey(id)).value.name;
            var t := UpsertRoom(s, Room(id, newName)).value;
            && UpsertRoom(s, Room(id, newName)).Success?
            && GetClimateByRoomName(t, oldName) == GetClimateByRoomName(s, oldName)
            && GetRoomByName(t, oldName).None?
  {
    var oldName := RoomAt(s, RoomKey(id)).value.name;
    LowerOfLower(oldName);
    var t := UpsertRoom(s, Room(id, newName)).value;
    assert Get(t, ClimateKey(oldName)) == Get(s, ClimateKey(oldName));
  }

  /** On a valid store, a commit that writes or removes `k` changes the versionstamp read at `k`. */
  lemma WriteChangesStamp(s: Db, other: AtomicOp<Value>, k: Key)
    requires Valid(s)
    requires Commit(s, other).result.Ok()
    requires LastMutation(other.muts, k).Some?
    requires LastMutation(other.muts, k).value.Set? || k in s.entries
    ensures StampOf(Commit(s, other).store, k) != StampOf(s, k)
  {
    var t := Commit(s, other).store;
    assert Get(t, k) == Effect(Get(s, k), LastMutation(other.muts, k), s.clock + 1);
  }

  /**
   An upsert whose id record was written by another commit between its read
   and its commit changes nothing, and (the commit result being ignored)
   still returns normally.
   */
  lemma InterveningWriteVoidsUpsert(s: Db, other: AtomicOp<Value>, room: Room)
    requires Valid(s) && Shaped(s)
    requires Commit(s, other).result.Ok()
    requires LastMutation(other.muts, RoomKey(room.id)).Some?
    requires LastMutation(other.muts, RoomKey(room.id)).value.Set? || RoomKey(room.id) in s.entries
    ensures UpsertRoomRacing(s, Commit(s, other).store, room) == Success(Commit(s, other).store)
  {
    WriteChangesStamp(s, other, RoomKey(room.id));
  }

  /**
   On a well-formed store `getAllRoomClimates` succeeds on every listing and
   pairs each id record with the climate under its name.
   */
  lemma AllRoomClimatesOfWellFormedStore(s: Db, es: seq<KvEntry<Value>>)
    requires Shaped(s)
    requires Enumerates(s, Some(RoomPrefix), es)
    ensures var r := MergeClimates(s, es);
            && r.Success?
            && |r.value| == |es|
            && forall i :: 0 <= i < |es| ==>
                 es[i].value.RoomValue? && r.value[i] == RoomClimate(es[i].value.room, GetClimateByRoomName(s, es[i].value.room.name))
  {
    forall i | 0 <= i < |es|
      ensures Resolves(s, es[i].value)
      ensures es[i].value.RoomValue? && MergedRow(s, es[i].value) == RoomClimate(es[i].value.room, GetClimateByRoomName(s, es[i].value.room.name))
    {
      assert Listed(s, Some(RoomPrefix), es[i]);
    }
  }
}
