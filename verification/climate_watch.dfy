/**
 The pure parts of `subscribeToChanges` (services/db.ts:182-205): the watched
 keys are the climate keys of the given names, and each watch event, a
 snapshot of all watched entries, dispatches the value of the FIRST watched
 entry only, when it is present. The stream itself is a sequence of store
 states, one per event; cancelling cuts that sequence.
 */
module ClimateWatch {
  import opened Wrappers
  import opened KvStore
  import opened Records
  import opened Constants
  import opened RoomService

  /** The keys watched for a list of room names, in order. */
  function WatchKeys(ids: seq<string>): (keys: seq<Key>)
    ensures |keys| == |ids|
    ensures forall i :: 0 <= i < |ids| ==> keys[i] == ClimateKey(ids[i])
    decreases |ids|
  {
    if |ids| == 0 then [] else [ClimateKey(ids[0])] + WatchKeys(ids[1..])
  }

  /** One watch event: the current entry of each watched key, in key order. */
  function Snapshot(s: Db, keys: seq<Key>): (event: seq<Option<Entry<Value>>>)
    ensures |event| == |keys|
    ensures forall i :: 0 <= i < |keys| ==> event[i] == Get(s, keys[i])
    decreases |keys|
  {
    if |keys| == 0 then [] else [Get(s, keys[0])] + Snapshot(s, keys[1..])
  }

  /** The loop body: the first watched entry is handed to the callback when it is present. */
  function Dispatch(event: seq<Option<Entry<Value>>>): (r: Option<Value>)
    requires |event| > 0
    ensures r.Some? <==> event[0].Some?
    ensures r.Some? ==> r.value == event[0].value.value
  {
    if event[0].Some? then Some(event[0].value.value) else None
  }

  /** The callback payloads, in order, for a subscription that sees the events `states`. */
  function Deliveries(ids: seq<string>, states: seq<Db>): (r: seq<Value>)
    requires |ids| > 0
    ensures |r| <= |states|
    ensures forall v :: v in r ==>
              exists i :: 0 <= i < |states| && ClimateKey(ids[0]) in states[i].entries && states[i].entries[ClimateKey(ids[0])].value == v
    decreases |states|
  {
    if |states| == 0 then []
    else
      var payload := Dispatch(Snapshot(states[0], WatchKeys(ids)));
      (if payload.Some? then [payload.value] else []) + Deliveries(ids, states[1..])
  }

  /** Reference: the values `k` holds across the states, skipping states where it is absent. */
  function PresentValues(states: seq<Db>, k: Key): seq<Value>
    decreases |states|
  {
    if |states| == 0 then []
    else (if k in states[0].entries then [states[0].entries[k].value] else []) + PresentValues(states[1..], k)
  }

  /** A key is watched exactly when it is the climate key of one of the names. */
  lemma WatchedKeys(ids: seq<string>, k: Key)
    ensures k in WatchKeys(ids) <==> k.prefix == RoomClimatePrefix && k.part in ids
  {
    if k.prefix == RoomClimatePrefix && k.part in ids {
      var i :| 0 <= i < |ids| && ids[i] == k.part;
      assert WatchKeys(ids)[i] == k;
    }
  }

  /**
   Whatever key an event was caused by, the subscriber receives the climate of
   the first name only: the deliveries are the values present under that key.
   */
  lemma {:induction false} DeliversFirstRoomOnly(ids: seq<string>, states: seq<Db>)
    requires |ids| > 0
    ensures Deliveries(ids, states) == PresentValues(states, ClimateKey(ids[0]))
    decreases |states|
  {
    if |states| > 0 {
      DeliversFirstRoomOnly(ids, states[1..]);
    }
  }

  /**
   Cancelling after `n` events leaves the subscriber with a prefix of what it
   would have received: nothing is delivered after the cut.
   */
  lemma {:induction false} CancelTruncatesDeliveries(ids: seq<string>, states: seq<Db>, n: nat)
    requires |ids| > 0
    requires n <= |states|
    ensures Deliveries(ids, states[..n]) <= Deliveries(ids, states)
    ensures |Deliveries(ids, states[..n])| <= n
    decreases n
  {
    if n > 0 {
      assert states[..n][1..] == states[1..][..n - 1];
      CancelTruncatesDeliveries(ids, states[1..], n - 1);
    }
  }

  /**
   Two subscriptions naming the same first room receive the same payloads,
   however the rest of their lists differ.
   */
  lemma OnlyFirstNameMatters(ids: seq<string>, others: seq<string>, states: seq<Db>)
    requires |ids| > 0 && |others| > 0 && ids[0] == others[0]
    ensures Deliveries(ids, states) == Deliveries(others, states)
  {
    DeliversFirstRoomOnly(ids, states);
    DeliversFirstRoomOnly(others, states);
  }
}
