/**
 The recovery events an export overlay sees while one oplog is replayed, and
 what a sequence of them does to a key -> RecoveredEntry buffer.

 Keys are of an arbitrary type with structural equality (`K(==)`); an entry's
 value is `None` where the recovered value is null.
 */
module Recovery {

  datatype Option<T> = None | Some(value: T)

  /** The part of a recovered entry the overlay looks at: its value, possibly null. */
  datatype RecoveredEntry<V> = RecoveredEntry(value: Option<V>)

  /** One recovery event for a key: a create, an update or a destroy. */
  datatype Op<K(==), V> =
    | Create(key: K, entry: RecoveredEntry<V>)
    | Update(key: K, entry: RecoveredEntry<V>)
    | Destroy(key: K)

  type Batch<K(==), V> = map<K, RecoveredEntry<V>>

  /** Lookup that says `None` for an absent key. */
  function Get<K(==), E>(m: map<K, E>, k: K): Option<E>
  {
    if k in m then Some(m[k]) else None
  }

  /** What an event leaves for its own key: the entry it carries, or nothing after a destroy. */
  function Effect<K(==), V>(op: Op<K, V>): Option<RecoveredEntry<V>>
  {
    if op.Destroy? then None else Some(op.entry)
  }

  /** A null-free batch: every entry it holds has a value. */
  ghost predicate NullFree<K, V>(m: Batch<K, V>)
  {
    forall k :: k in m ==> m[k].value.Some?
  }

  /** Every create and update in `ops` carries a value. */
  ghost predicate NonNullWrites<K, V>(ops: seq<Op<K, V>>)
  {
    forall i :: 0 <= i < |ops| && !ops[i].Destroy? ==> ops[i].entry.value.Some?
  }

  /** Every create in `ops` carries a value. */
  ghost predicate NonNullCreates<K, V>(ops: seq<Op<K, V>>)
  {
    forall i :: 0 <= i < |ops| && ops[i].Create? ==> ops[i].entry.value.Some?
  }

  /** Every update in `ops` carries a value. */
  ghost predicate NonNullUpdates<K, V>(ops: seq<Op<K, V>>)
  {
    forall i :: 0 <= i < |ops| && ops[i].Update? ==> ops[i].entry.value.Some?
  }

  /** The keys that some event of `ops` is about. */
  function TouchedKeys<K(==), V>(ops: seq<Op<K, V>>): set<K>
  {
    set i | 0 <= i < |ops| :: ops[i].key
  }

  /**
   Applying one event to the buffer: create and update store the entry under
   the key (overwriting), destroy removes the key (and is a no-op when absent).
   */
  function Apply<K(==), V>(m: Batch<K, V>, op: Op<K, V>): (r: Batch<K, V>)
    ensures Get(r, op.key) == Effect(op)
    ensures r.Keys - {op.key} == m.Keys - {op.key}
    ensures forall j :: j in m && j != op.key ==> j in r && r[j] == m[j]
    ensures op.Destroy? && op.key !in m ==> r == m
  {
    match op
    case Create(k, e) => m[k := e]
    case Update(k, e) => m[k := e]
    case Destroy(k) => m - {k}
  }

  /** Applying the events of `ops` to `m`, in order. */
  function Replay<K(==), V>(m: Batch<K, V>, ops: seq<Op<K, V>>): Batch<K, V>
  {
    if ops == [] then m else Apply(Replay(m, ops[..|ops| - 1]), ops[|ops| - 1])
  }

  /** The position of the last event of `ops` about `k`, or -1 when there is none. */
  function LastIndex<K(==), V>(ops: seq<Op<K, V>>, k: K): (r: int)
    ensures -1 <= r < |ops|
    ensures 0 <= r ==> ops[r].key == k
    ensures forall j :: r < j < |ops| ==> ops[j].key != k
  {
    if ops == [] then -1
    else if ops[|ops| - 1].key == k then |ops| - 1
    else LastIndex(ops[..|ops| - 1], k)
  }

  /** Last writer wins: the state of `k` is decided by its last event, or by `m` if it has none. */
  function Resolve<K(==), V>(m: Batch<K, V>, ops: seq<Op<K, V>>, k: K): Option<RecoveredEntry<V>>
  {
    var i := LastIndex(ops, k);
    if i < 0 then Get(m, k) else Effect(ops[i])
  }

  /** The batch that last-writer-wins prescribes for the events of one oplog, built independently of Replay. */
  ghost function LastWriterBatch<K, V>(ops: seq<Op<K, V>>): Batch<K, V>
  {
    map k | k in TouchedKeys(ops) && Resolve(map[], ops, k).Some? :: Resolve(map[], ops, k).value
  }

  /** Sequential composition: replaying `a` then `b` is replaying `a + b`. */
  lemma {:induction false} ReplayAppend<K, V>(m: Batch<K, V>, a: seq<Op<K, V>>, b: seq<Op<K, V>>)
    ensures Replay(m, a + b) == Replay(Replay(m, a), b)
    decreases |b|
  {
    if b != [] {
      var n := |b| - 1;
      assert (a + b)[..|a + b| - 1] == a + b[..n];
      assert (a + b)[|a + b| - 1] == b[n];
      ReplayAppend(m, a, b[..n]);
    } else {
      assert a + b == a;
    }
  }

  /** For every key, the replayed buffer holds exactly what its last event left, or the initial state if untouched. */
  lemma {:induction false} ReplayResolves<K, V>(m: Batch<K, V>, ops: seq<Op<K, V>>, k: K)
    ensures Get(Replay(m, ops), k) == Resolve(m, ops, k)
    decreases |ops|
  {
    if ops != [] {
      var n := |ops| - 1;
      var init := ops[..n];
      if ops[n].key != k {
        ReplayResolves(m, init, k);
        var i := LastIndex(init, k);
        assert 0 <= i ==> init[i] == ops[i];
      }
    }
  }

  /** Two maps that agree on every lookup are equal. */
  lemma MapsAgree<K, E>(a: map<K, E>, b: map<K, E>)
    requires forall k :: Get(a, k) == Get(b, k)
    ensures a == b
  {
    forall k | k in a
      ensures k in b && a[k] == b[k]
    {
      assert Get(a, k) == Get(b, k);
    }
    forall k | k in b
      ensures k in a
    {
      assert Get(a, k) == Get(b, k);
    }
  }

  /** The reference batch, looked up at one key, is what last-writer-wins resolves for that key. */
  lemma LastWriterBatchAt<K, V>(ops: seq<Op<K, V>>, k: K)
    ensures Get(LastWriterBatch(ops), k) == Resolve(map[], ops, k)
  {
  }

  /** Replaying one oplog's events into an empty buffer gives the last-writer-wins batch. */
  lemma {:induction false} ReplayIsLastWriterBatch<K, V>(ops: seq<Op<K, V>>)
    ensures Replay(map[], ops) == LastWriterBatch(ops)
  {
    forall k
      ensures Get(Replay(map[], ops), k) == Get(LastWriterBatch(ops), k)
    {
      ReplayResolves(map[], ops, k);
      LastWriterBatchAt(ops, k);
    }
    MapsAgree(Replay(map[], ops), LastWriterBatch(ops));
  }

  /** A key whose last event is a destroy is absent; one whose last event is a create or update maps to that entry. */
  lemma {:induction false} LastEventDecides<K, V>(ops: seq<Op<K, V>>, i: int)
    requires 0 <= i < |ops|
    requires forall j :: i < j < |ops| ==> ops[j].key != ops[i].key
    ensures ops[i].Destroy? ==> ops[i].key !in Replay(map[], ops)
    ensures !ops[i].Destroy? ==> ops[i].key in Replay(map[], ops) && Replay(map[], ops)[ops[i].key] == ops[i].entry
  {
    ReplayResolves(map[], ops, ops[i].key);
  }

  /** The batch only holds keys the oplog's events touched: its size is bounded by the oplog, not the dataset. */
  lemma {:induction false} BatchWithinTouchedKeys<K, V>(ops: seq<Op<K, V>>)
    ensures Replay(map[], ops).Keys <= TouchedKeys(ops)
  {
    ReplayIsLastWriterBatch(ops);
  }

  /** Replay never introduces a null value unless some create or update carried one. */
  lemma {:induction false} ReplayKeepsNullFree<K, V>(m: Batch<K, V>, ops: seq<Op<K, V>>)
    requires NullFree(m)
    requires NonNullWrites(ops)
    ensures NullFree(Replay(m, ops))
    decreases |ops|
  {
    if ops != [] {
      var n := |ops| - 1;
      assert NonNullWrites(ops[..n]) by {
        forall i | 0 <= i < n && !ops[..n][i].Destroy?
          ensures ops[..n][i].entry.value.Some?
        {
          assert ops[..n][i] == ops[i];
        }
      }
      ReplayKeepsNullFree(m, ops[..n]);
      var p := Replay(m, ops[..n]);
      var r := Apply(p, ops[n]);
      forall k | k in r
        ensures r[k].value.Some?
      {
        assert Get(r, k) == Some(r[k]);
      }
    }
  }

  /** An update with a null value reaches the batch: nothing on the update path rejects it. */
  lemma NullUpdateReachesBatch<K, V>(k: K, e: RecoveredEntry<V>)
    requires e.value.None?
    ensures !NullFree(Replay(map[], [Update(k, e)]))
  {
    var ops := [Update(k, e)];
    assert ops[..0] == [];
    assert Replay(map[], ops)[k] == e;
  }

  /** All events of consecutive oplogs, in order. */
  function Concat<K(==), V>(segs: seq<seq<Op<K, V>>>): seq<Op<K, V>>
  {
    if segs == [] then [] else Concat(segs[..|segs| - 1]) + segs[|segs| - 1]
  }

  /** The batches written for consecutive oplogs: each one replays its own oplog from empty. */
  function Exports<K(==), V>(segs: seq<seq<Op<K, V>>>): seq<Batch<K, V>>
  {
    if segs == [] then [] else Exports(segs[..|segs| - 1]) + [Replay(map[], segs[|segs| - 1])]
  }

  /** An importer that applies batches in order, later entries overriding earlier ones. */
  function Merge<K(==), V>(bs: seq<Batch<K, V>>): Batch<K, V>
  {
    if bs == [] then map[] else Merge(bs[..|bs| - 1]) + bs[|bs| - 1]
  }

  /**
   Every key that survives the whole replay is exported, and the last batch
   holding it carries its final entry. The converse fails: a batch is never
   corrected, so a key destroyed in a later oplog stays in an earlier batch.
   */
  lemma {:induction false} MergedExportsCoverReplay<K, V>(segs: seq<seq<Op<K, V>>>, k: K)
    requires k in Replay(map[], Concat(segs))
    ensures Get(Merge(Exports(segs)), k) == Get(Replay(map[], Concat(segs)), k)
    decreases |segs|
  {
    var n := |segs| - 1;
    var init := segs[..n];
    var last := segs[n];
    var before := Replay(map[], Concat(init));
    ReplayAppend(map[], Concat(init), last);
    ReplayResolves(before, last, k);
    ReplayResolves(map[], last, k);
    var es := Exports(segs);
    assert es[..|es| - 1] == Exports(init);
    if LastIndex(last, k) < 0 {
      MergedExportsCoverReplay(init, k);
    }
  }
}
