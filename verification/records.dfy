/**
 The records both versions of the persistence layer store (services/db.ts:8-17,
 src/db.ts:1-10) and the name folding they apply to room names.
 */
module Records {
  import opened Wrappers
  import opened KvStore

  /** An instant, as the milliseconds a `Date` carries. */
  type Timestamp = nat

  /**
   A temperature or humidity reading. The source stores JavaScript numbers and
   never computes with them, so the model keeps them opaque.
   */
  type Reading = int

  datatype Room = Room(id: string, name: string)

  /** `lastUpdateDate` is `None` when the caller left it out. */
  datatype Climate = Climate(temperature: Reading, humidity: Reading, lastUpdateDate: Option<Timestamp>)

  /** What the repository stores under its keys. */
  datatype Value = RoomValue(room: Room) | ClimateValue(climate: Climate)

  type Db = Store<Value>

  /** Errors the source raises by reading a property of a missing record. */
  datatype Thrown = MissingRecord(key: Key) | NotARoom(key: Key)

  /** A listed room merged with its climate, as `{ ...room, ...climate }` builds it. */
  datatype RoomClimate = RoomClimate(room: Room, climate: Option<Climate>)

  /** The store before anything has been written. */
  const Empty: Db := Store(map[], 0)

  /** Reads `k` as a room record; a value of another kind reads as absent. */
  function RoomAt(s: Db, k: Key): (r: Option<Room>)
    ensures r.Some? <==> k in s.entries && s.entries[k].value.RoomValue?
    ensures r.Some? ==> s.entries[k].value == RoomValue(r.value)
  {
    var e: Option<Entry<Value>> := Get(s, k);
    if e.Some? && e.value.value.RoomValue? then Some(e.value.value.room) else None
  }

  /** Reads `k` as a climate record; a value of another kind reads as absent. */
  function ClimateAt(s: Db, k: Key): (r: Option<Climate>)
    ensures r.Some? <==> k in s.entries && s.entries[k].value.ClimateValue?
    ensures r.Some? ==> s.entries[k].value == ClimateValue(r.value)
  {
    var e: Option<Entry<Value>> := Get(s, k);
    if e.Some? && e.value.value.ClimateValue? then Some(e.value.value.climate) else None
  }

  /** ASCII case folding, the part of `toLowerCase` the model covers. */
  function LowerChar(c: char): (d: char)
    ensures 'A' <= c <= 'Z' ==> d as int == c as int + 32
    ensures !('A' <= c <= 'Z') ==> d == c
  {
    if 'A' <= c <= 'Z' then (c as int + 32) as char else c
  }

  predicate IsLowerChar(c: char) {
    !('A' <= c <= 'Z')
  }

  /** A name already in the canonical (lower-case) form. */
  predicate IsLower(s: string) {
    forall i :: 0 <= i < |s| ==> IsLowerChar(s[i])
  }

  /** `String.prototype.toLowerCase`, restricted to ASCII letters. */
  function Lower(s: string): (r: string)
    ensures |r| == |s|
    ensures forall i :: 0 <= i < |s| ==> r[i] == LowerChar(s[i])
    ensures IsLower(r)
    decreases |s|
  {
    if |s| == 0 then [] else [LowerChar(s[0])] + Lower(s[1..])
  }

  /** Folding leaves canonical names alone, so folding twice is folding once. */
  lemma LowerOfLower(s: string)
    requires IsLower(s)
    ensures Lower(s) == s
  {
  }

  lemma LowerIdempotent(s: string)
    ensures Lower(Lower(s)) == Lower(s)
  {
    LowerOfLower(Lower(s));
  }
}
