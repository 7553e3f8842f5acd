/**
 An abstract ordered key-value store with the transaction primitive the
 repository relies on: point reads, whole-part prefix listing and an atomic
 commit of a list of versionstamp checks and an ordered list of set/delete
 mutations that applies everything or nothing.

 Keys are two-part tuples `(prefix, part)`, which is the only shape the room
 layer uses. Versionstamps are natural numbers drawn from a store-wide clock;
 their encoding and the engine's key ordering are kept abstract.
 */
module KvStore {
  import opened Wrappers

  datatype Key = Key(prefix: string, part: string)

  type Versionstamp = nat

  datatype Entry<V> = Entry(value: V, stamp: Versionstamp)

  /** `clock` is the versionstamp of the most recent commit. */
  datatype Store<V> = Store(entries: map<Key, Entry<V>>, clock: Versionstamp)

  /** Every stored versionstamp was issued by an earlier commit. */
  predicate Valid<V>(s: Store<V>) {
    forall k :: k in s.entries ==> s.entries[k].stamp <= s.clock
  }

  function Lookup<V>(m: map<Key, Entry<V>>, k: Key): Option<Entry<V>> {
    if k in m then Some(m[k]) else None
  }

  /** Point read: the entry at `k`, if any. */
  function Get<V>(s: Store<V>, k: Key): (r: Option<Entry<V>>)
    ensures r.Some? <==> k in s.entries
    ensures r.Some? ==> r.value == s.entries[k]
  {
    Lookup(s.entries, k)
  }

  /** The versionstamp a read of `k` reports; `None` when the key is absent. */
  function StampOf<V>(s: Store<V>, k: Key): Option<Versionstamp> {
    if k in s.entries then Some(s.entries[k].stamp) else None
  }

  /** A check asserts that `key` still carries `stamp` (`None`: the key is absent). */
  datatype Check = Check(key: Key, stamp: Option<Versionstamp>)

  predicate CheckHolds<V>(s: Store<V>, c: Check) {
    StampOf(s, c.key) == c.stamp
  }

  predicate ChecksHold<V>(s: Store<V>, checks: seq<Check>) {
    forall i :: 0 <= i < |checks| ==> CheckHolds(s, checks[i])
  }

  datatype Mutation<V> = Set(key: Key, value: V) | Delete(key: Key)

  function Apply<V>(m: map<Key, Entry<V>>, mu: Mutation<V>, stamp: Versionstamp): map<Key, Entry<V>> {
    match mu
    case Set(k, v) => m[k := Entry(v, stamp)]
    case Delete(k) => m - {k}
  }

  /** Applies the mutations in order, all stamped with the same versionstamp. */
  function ApplyAll<V>(m: map<Key, Entry<V>>, muts: seq<Mutation<V>>, stamp: Versionstamp): map<Key, Entry<V>>
    decreases |muts|
  {
    if |muts| == 0 then m else ApplyAll(Apply(m, muts[0], stamp), muts[1..], stamp)
  }

  /** Reference reading of a mutation list: the last mutation naming `k` decides it. */
  function LastMutation<V>(muts: seq<Mutation<V>>, k: Key): (r: Option<Mutation<V>>)
    ensures r.Some? ==> r.value.key == k && r.value in muts
    ensures r.None? <==> forall i :: 0 <= i < |muts| ==> muts[i].key != k
    decreases |muts|
  {
    if |muts| == 0 then None
    else if muts[|muts| - 1].key == k then Some(muts[|muts| - 1])
    else LastMutation(muts[..|muts| - 1], k)
  }

  /** What a single key holds after `muts` were applied over `before`. */
  function Effect<V>(before: Option<Entry<V>>, last: Option<Mutation<V>>, stamp: Versionstamp): Option<Entry<V>> {
    match last
    case None => before
    case Some(Set(_, v)) => Some(Entry(v, stamp))
    case Some(Delete(_)) => None
  }

  /**
   A transaction under construction, built the way `kv.atomic()` is: checks
   and mutations are appended one call at a time and kept in call order.
   */
  datatype AtomicOp<V> = AtomicOp(checks: seq<Check>, muts: seq<Mutation<V>>) {

    function WithCheck(c: Check): (r: AtomicOp<V>)
      ensures r.muts == muts
      ensures r.checks == checks + [c]
    {
      AtomicOp(checks + [c], muts)
    }

    /** Appends a `set`; afterwards it is the last word on `k`. */
    function WithSet(k: Key, v: V): (r: AtomicOp<V>)
      ensures r.checks == checks
      ensures forall k' :: LastMutation(r.muts, k') == if k' == k then Some(Set(k, v)) else LastMutation(muts, k')
    {
      LastMutationSnoc(muts, Set(k, v));
      AtomicOp(checks, muts + [Set(k, v)])
    }

    /** Appends a `delete`; afterwards it is the last word on `k`. */
    function WithDelete(k: Key): (r: AtomicOp<V>)
      ensures r.checks == checks
      ensures forall k' :: LastMutation(r.muts, k') == if k' == k then Some(Delete(k)) else LastMutation(muts, k')
    {
      LastMutationSnoc(muts, Delete(k));
      AtomicOp(checks, muts + [Delete(k)])
    }
  }

  /** `kv.atomic()`: no checks, no mutations. */
  function Atomic<V>(): (r: AtomicOp<V>)
    ensures r.checks == []
    ensures forall k :: LastMutation(r.muts, k).None?
  {
    AtomicOp([], [])
  }

  lemma LastMutationSnoc<V>(muts: seq<Mutation<V>>, mu: Mutation<V>)
    ensures forall k :: LastMutation(muts + [mu], k) == if k == mu.key then Some(mu) else LastMutation(muts, k)
  {
    assert (muts + [mu])[..|muts|] == muts;
  }

  /** A transaction's checks hold when the earlier ones and the appended one hold. */
  lemma ChecksHoldSnoc<V>(s: Store<V>, checks: seq<Check>, c: Check)
    ensures ChecksHold(s, checks + [c]) <==> ChecksHold(s, checks) && CheckHolds(s, c)
  {
    assert forall i :: 0 <= i < |checks| ==> (checks + [c])[i] == checks[i];
    if ChecksHold(s, checks + [c]) {
      assert CheckHolds(s, (checks + [c])[|checks|]);
    }
  }

  datatype CommitResult = Committed(stamp: Versionstamp) | CheckFailed {
    predicate Ok() { Committed? }
  }

  datatype Outcome<V> = Outcome(result: CommitResult, store: Store<V>)

  /**
   Atomic commit: when every check holds, applies all mutations in order with
   a fresh versionstamp; otherwise applies nothing.
   */
  function Commit<V>(s: Store<V>, op: AtomicOp<V>): (r: Outcome<V>)
    ensures r.result.Ok() <==> ChecksHold(s, op.checks)
    ensures !r.result.Ok() ==> r.store == s
    ensures r.result.Ok() ==> r.store.clock == s.clock + 1 == r.result.stamp
    ensures Valid(s) ==> Valid(r.store)
    ensures r.result.Ok() ==> forall k :: Get(r.store, k) == Effect(Get(s, k), LastMutation(op.muts, k), s.clock + 1)
  {
    if ChecksHold(s, op.checks) then
      var stamp := s.clock + 1;
      var after := ApplyAll(s.entries, op.muts, stamp);
      ApplyAllPointwise(s.entries, op.muts, stamp);
      assert Valid(s) ==> Valid(Store(after, stamp)) by {
        if Valid(s) {
          forall k | k in after
            ensures after[k].stamp <= stamp
          {
            assert Lookup(after, k) == Effect(Lookup(s.entries, k), LastMutation(op.muts, k), stamp);
          }
        }
      }
      Outcome(Committed(stamp), Store(after, stamp))
    else
      Outcome(CheckFailed, s)
  }

  /** `kv.set` outside a transaction: a commit of one mutation and no checks. */
  function SetKey<V>(s: Store<V>, k: Key, v: V): (r: Store<V>)
    ensures Get(r, k) == Some(Entry(v, s.clock + 1))
    ensures forall k' :: k' != k ==> Get(r, k') == Get(s, k')
    ensures r.clock == s.clock + 1
    ensures Valid(s) ==> Valid(r)
  {
    Commit(s, Atomic().WithSet(k, v)).store
  }

  /** `kv.delete` outside a transaction: a commit of one mutation and no checks. */
  function DeleteKey<V>(s: Store<V>, k: Key): (r: Store<V>)
    ensures Get(r, k).None?
    ensures forall k' :: k' != k ==> Get(r, k') == Get(s, k')
    ensures r.clock == s.clock + 1
    ensures Valid(s) ==> Valid(r)
  {
    Commit(s, Atomic().WithDelete(k)).store
  }

  lemma {:induction false} ApplyAllSnoc<V>(m: map<Key, Entry<V>>, muts: seq<Mutation<V>>, mu: Mutation<V>, stamp: Versionstamp)
    ensures ApplyAll(m, muts + [mu], stamp) == Apply(ApplyAll(m, muts, stamp), mu, stamp)
    decreases |muts|
  {
    if |muts| == 0 {
      assert muts + [mu] == [mu];
      assert [mu][1..] == [];
    } else {
      assert (muts + [mu])[0] == muts[0];
      assert (muts + [mu])[1..] == muts[1..] + [mu];
      ApplyAllSnoc(Apply(m, muts[0], stamp), muts[1..], mu, stamp);
    }
  }

  /** Applying a mutation list key by key agrees with the last-mutation-wins reading. */
  lemma {:induction false} ApplyAllPointwise<V>(m: map<Key, Entry<V>>, muts: seq<Mutation<V>>, stamp: Versionstamp)
    ensures forall k :: Lookup(ApplyAll(m, muts, stamp), k) == Effect(Lookup(m, k), LastMutation(muts, k), stamp)
    decreases |muts|
  {
    if |muts| > 0 {
      var init := muts[..|muts| - 1];
      var mu := muts[|muts| - 1];
      assert muts == init + [mu];
      ApplyAllPointwise(m, init, stamp);
      ApplyAllSnoc(m, init, mu, stamp);
    }
  }

  /** Whether `k` falls under the listing prefix; `None` lists every key. */
  predicate Matches(k: Key, prefix: Option<string>) {
    prefix.None? || k.prefix == prefix.value
  }

  datatype KvEntry<V> = KvEntry(key: Key, value: V, stamp: Versionstamp)

  /** `es` lists every entry under `prefix` exactly once, in some order. */
  ghost predicate Enumerates<V>(s: Store<V>, prefix: Option<string>, es: seq<KvEntry<V>>) {
    && (forall i :: 0 <= i < |es| ==> Listed(s, prefix, es[i]))
    && (forall k :: k in s.entries && Matches(k, prefix) ==> exists i :: 0 <= i < |es| && es[i].key == k)
    && (forall i, j :: 0 <= i < j < |es| ==> es[i].key != es[j].key)
  }

  ghost predicate Listed<V>(s: Store<V>, prefix: Option<string>, e: KvEntry<V>) {
    e.key in s.entries && Matches(e.key, prefix) && s.entries[e.key] == Entry(e.value, e.stamp)
  }

  /** Prefix scan. The engine's key order is abstract: keys are taken in an arbitrary order. */
  method List<V>(s: Store<V>, prefix: Option<string>) returns (es: seq<KvEntry<V>>)
    ensures Enumerates(s, prefix, es)
  {
    var todo := set k | k in s.entries && Matches(k, prefix);
    es := [];
    while todo != {}
      invariant forall k :: k in todo ==> k in s.entries && Matches(k, prefix)
      invariant forall i :: 0 <= i < |es| ==> Listed(s, prefix, es[i]) && es[i].key !in todo
      invariant forall k :: k in s.entries && Matches(k, prefix) && k !in todo ==> exists i :: 0 <= i < |es| && es[i].key == k
      invariant forall i, j :: 0 <= i < j < |es| ==> es[i].key != es[j].key
      decreases |todo|
    {
      var k :| k in todo;
      var es' := es + [KvEntry(k, s.entries[k].value, s.entries[k].stamp)];
      forall k' | k' in s.entries && Matches(k', prefix) && k' !in todo - {k}
        ensures exists i :: 0 <= i < |es'| && es'[i].key == k'
      {
        if k' == k {
          assert es'[|es|].key == k';
        } else {
          var i :| 0 <= i < |es| && es[i].key == k';
          assert es'[i].key == k';
        }
      }
      es, todo := es', todo - {k};
    }
  }

  function ValuesOf<V>(es: seq<KvEntry<V>>): (r: seq<V>)
    ensures |r| == |es|
    ensures forall i :: 0 <= i < |es| ==> r[i] == es[i].value
  {
    seq(|es|, i requires 0 <= i < |es| => es[i].value)
  }

  /** Two states agree on every key outside `touched`. */
  ghost predicate SameExcept<V>(s: Store<V>, s': Store<V>, touched: set<Key>) {
    forall k :: k !in touched ==> Get(s', k) == Get(s, k)
  }
}
