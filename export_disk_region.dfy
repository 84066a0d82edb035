/**
 The export overlay of offline disk-store recovery: a disk region that, while
 the oplogs of a region are replayed, buffers the entries recovered from the
 current oplog and hands the whole buffer to an export writer at each oplog
 boundary.
 */
module Export {
  import opened Recovery

  /**
   How a recovery callback ends: normally, with the null-value assertion
   failure, with a disk access error wrapping the writer's I/O error, or with
   an unchecked exception of the writer passed on unwrapped.
   */
  datatype Outcome = Ok | AssertionFailed | DiskAccessFailed | WriterFailed

  /** What the export writer's batch write does: returns normally, throws an I/O error, or throws an unchecked exception. */
  datatype WriteResult = Written | IOError | Unchecked

  class ExportDiskRegion<K(==), V> {
    /** The entries recovered from the current oplog. */
    var currentOplogEntries: Batch<K, V>

    /** The events applied to the buffer since the last successful boundary. */
    ghost var pending: seq<Op<K, V>>
    /** The events of each oplog whose batch the writer accepted, in order. */
    ghost var flushedOps: seq<seq<Op<K, V>>>
    /** The batches the writer accepted, in order. */
    ghost var exported: seq<Batch<K, V>>

    ghost predicate Valid()
      reads this
    {
      && currentOplogEntries == Replay(map[], pending)
      && exported == Exports(flushedOps)
      && NonNullCreates(pending)
    }

    /** Every event the overlay has applied so far, across oplogs. */
    ghost function History(): seq<Op<K, V>>
      reads this
    {
      Concat(flushedOps) + pending
    }

    constructor ()
      ensures Valid()
      ensures currentOplogEntries == map[]
      ensures pending == [] && flushedOps == [] && exported == []
    {
      currentOplogEntries := map[];
      pending := [];
      flushedOps := [];
      exported := [];
    }

    /** A create: a null value fails the assertion before the buffer is touched; otherwise the entry is stored. */
    method InitializeRecoveredEntry(key: K, re: RecoveredEntry<V>) returns (r: Outcome)
      requires Valid()
      modifies this
      ensures Valid()
      ensures r == (if re.value.None? then AssertionFailed else Ok)
      ensures re.value.None? ==> unchanged(this)
      ensures re.value.Some? ==>
        && currentOplogEntries == old(currentOplogEntries)[key := re]
        && pending == old(pending) + [Create(key, re)]
        && flushedOps == old(flushedOps) && exported == old(exported)
      ensures History() == old(History()) + (if re.value.Some? then [Create(key, re)] else [])
    {
      if re.value.None? {
        return AssertionFailed;
      }
      ReplayAppend(map[], pending, [Create(key, re)]);
      currentOplogEntries := currentOplogEntries[key := re];
      pending := pending + [Create(key, re)];
      r := Ok;
    }

    /** An update: stores the entry under the key, overwriting any earlier one; there is no null check. */
    method UpdateRecoveredEntry(key: K, re: RecoveredEntry<V>)
      requires Valid()
      modifies this
      ensures Valid()
      ensures currentOplogEntries == old(currentOplogEntries)[key := re]
      ensures pending == old(pending) + [Update(key, re)]
      ensures flushedOps == old(flushedOps) && exported == old(exported)
      ensures History() == old(History()) + [Update(key, re)]
    {
      ReplayAppend(map[], pending, [Update(key, re)]);
      currentOplogEntries := currentOplogEntries[key := re];
      pending := pending + [Update(key, re)];
    }

    /** A destroy: removes the key from the buffer, if present. */
    method DestroyRecoveredEntry(key: K)
      requires Valid()
      modifies this
      ensures Valid()
      ensures currentOplogEntries == old(currentOplogEntries) - {key}
      ensures key !in old(currentOplogEntries) ==> currentOplogEntries == old(currentOplogEntries)
      ensures pending == old(pending) + [Destroy(key)]
      ensures flushedOps == old(flushedOps) && exported == old(exported)
      ensures History() == old(History()) + [Destroy(key)]
    {
      ReplayAppend(map[], pending, [Destroy(key)]);
      currentOplogEntries := currentOplogEntries - {key};
      pending := pending + [Destroy(key)];
    }

    /**
     The oplog boundary: the writer receives the whole buffer. If it accepts
     it the buffer is cleared. If it throws, the clear is skipped and the
     buffer is kept: an I/O error becomes a disk access error, any other
     exception is passed on as it is. The oplog id plays no part.
     */
    method OplogRecovered(oplogId: int, write: WriteResult) returns (r: Outcome)
      requires Valid()
      modifies this
      ensures Valid()
      ensures r == match write
        case Written => Ok
        case IOError => DiskAccessFailed
        case Unchecked => WriterFailed
      ensures write != Written ==> unchanged(this)
      ensures write == Written ==>
        && exported == old(exported) + [old(currentOplogEntries)]
        && flushedOps == old(flushedOps) + [old(pending)]
        && currentOplogEntries == map[]
        && pending == []
      ensures write == Written && NonNullUpdates(old(pending)) ==> NullFree(exported[|exported| - 1])
      ensures History() == old(History())
    {
      if write == IOError {
        return DiskAccessFailed;
      } else if write == Unchecked {
        return WriterFailed;
      }
      if NonNullUpdates(pending) {
        ReplayKeepsNullFree(map[], pending);
      }
      exported := exported + [currentOplogEntries];
      flushedOps := flushedOps + [pending];
      assert flushedOps[..|flushedOps| - 1] == old(flushedOps);
      assert Concat(flushedOps) == Concat(old(flushedOps)) + old(pending);
      currentOplogEntries := map[];
      pending := [];
      r := Ok;
    }

    /**
     At a boundary, every key that survives the replay of all events so far
     is found, with its final entry, by applying the accepted batches in order.
     */
    lemma ExportsCoverHistory()
      requires Valid() && pending == []
      ensures forall k :: k in Replay(map[], History()) ==>
        k in Merge(exported) && Merge(exported)[k] == Replay(map[], History())[k]
    {
      assert History() == Concat(flushedOps);
      forall k | k in Replay(map[], History())
        ensures k in Merge(exported) && Merge(exported)[k] == Replay(map[], History())[k]
      {
        MergedExportsCoverReplay(flushedOps, k);
      }
    }
  }

  /** The first oplog of the scenario below: two creates on a fresh overlay, then its boundary. */
  method CreateTwoAndExport<K(==), V>(region: ExportDiskRegion<K, V>, k1: K, k2: K, e1: RecoveredEntry<V>, e2: RecoveredEntry<V>)
    returns (first: Batch<K, V>)
    requires region.Valid() && region.currentOplogEntries == map[] && region.exported == []
    requires k1 != k2 && e1.value.Some? && e2.value.Some?
    modifies region
    ensures region.Valid() && region.currentOplogEntries == map[] && region.pending == []
    ensures first == map[k1 := e1, k2 := e2] && region.exported == [first]
  {
    var r := region.InitializeRecoveredEntry(k1, e1);
    r := region.InitializeRecoveredEntry(k2, e2);
    first := region.currentOplogEntries;
    r := region.OplogRecovered(1, Written);
  }

  /**
   Two oplogs replayed through the overlay: oplog 1 creates k1 and k2, oplog 2
   updates k1 and destroys k2. Returns the buffer as it stood at each boundary,
   and the batches the writer accepted, which are exactly those two: the first
   still holds k2, as it is not corrected by the later destroy.
   */
  method TwoOplogExport<K(==), V>(k1: K, k2: K, a: V, b: V, c: V)
    returns (first: Batch<K, V>, second: Batch<K, V>, ghost batches: seq<Batch<K, V>>)
    requires k1 != k2
    ensures first == map[k1 := RecoveredEntry(Some(a)), k2 := RecoveredEntry(Some(b))]
    ensures second == map[k1 := RecoveredEntry(Some(c))]
    ensures batches == [first, second]
  {
    var region := new ExportDiskRegion<K, V>();
    first := CreateTwoAndExport(region, k1, k2, RecoveredEntry(Some(a)), RecoveredEntry(Some(b)));
    region.UpdateRecoveredEntry(k1, RecoveredEntry(Some(c)));
    region.DestroyRecoveredEntry(k2);
    second := region.currentOplogEntries;
    var r := region.OplogRecovered(2, Written);
    batches := region.exported;
  }
}
