# Export overlay of offline disk-store recovery

This project models `ExportDiskRegion`, the disk region used when a disk store
is exported offline. Oplogs are replayed one after another. While one oplog is
replayed, the region receives create, update and destroy callbacks for
recovered entries and keeps them in one buffer, `currentOplogEntries`, a map
from key to `RecoveredEntry`. When the oplog is fully recovered
(`oplogRecovered`), the whole buffer is handed to an `ExportWriter`. If the
writer returns normally, the buffer is cleared. If it throws, the buffer is
left as it was: an `IOException` becomes a `DiskAccessException`, and any
other exception propagates unchanged.

Two modules:

- `Recovery` (`recovery.dfy`) is the value-level specification. It defines the
  recovery events (`Op`: `Create`, `Update`, `Destroy`), their effect on a
  buffer (`Apply`) and the in-order replay of a sequence of events (`Replay`).
  It also gives an independent last-writer-wins definition of the batch
  (`LastIndex`, `Resolve`, `LastWriterBatch`). Lemmas connect the two
  definitions, show that replay composes, and show how null values propagate.
  A final lemma relates the batches of successive oplogs to the replay of all
  their events.
- `Export` (`export_disk_region.dfy`) has the class `ExportDiskRegion`. Its
  field `currentOplogEntries` is updated in place by the four callbacks. The
  ghost fields `pending`, `flushedOps` and `exported` record the events applied
  since the last successful boundary, the events of each exported oplog, and
  the batches the writer accepted. `Valid()` ties the buffer to
  `Replay(map[], pending)` and every accepted batch to the replay of its own
  oplog's events. It also records that every pending create carries a value,
  which is what the create path's null check ensures. `TwoOplogExport` drives the class through two oplogs:
  oplog 1 creates k1 and k2, and oplog 2 updates k1 and destroys k2.

Keys are of any type with equality; Java `equals`/`hashCode` on the map keys
becomes Dafny equality. A `RecoveredEntry` is reduced to its value, and
`None` stands for a null value.

The outcome of `ExportWriter.writeBatch` is a parameter of `OplogRecovered`
(`WriteResult`: `Written`, `IOError` or `Unchecked`). The writer is an
external sink, so only its outcome is modelled. The exceptions become
`Outcome` values. `AssertionFailed` comes from `Assert.fail`.
`DiskAccessFailed` is the `DiskAccessException` that wraps an `IOException`.
`WriterFailed` is an unchecked exception from the writer, which is not caught
and propagates unwrapped. After either writer failure, the clear is skipped.

Only `initializeRecoveredEntry` checks for a null value
(`ExportDiskRegion.java:30-32`). `updateRecoveredEntry` stores whatever it is
given. The doc comment of `ExportWriter.writeBatch` says values are never null.
The model follows the code: `NullUpdateReachesBatch` shows a null-valued update
reaching the batch. `ReplayKeepsNullFree` shows that the batch is null-free
whenever every create and update carried a value. Because of the create check,
an accepted batch is null-free as soon as every update carried a value. Whether the recovery driver
ever passes a null value to an update cannot be decided from this file.

## Model

| member | source | states |
|---|---|---|
| `Export.ExportDiskRegion.constructor` | gemfire-core/src/main/java/com/gemstone/gemfire/internal/cache/ExportDiskRegion.java:19-26 | A new overlay starts with an empty buffer, no pending events and nothing exported. |
| `Export.ExportDiskRegion.InitializeRecoveredEntry` | gemfire-core/src/main/java/com/gemstone/gemfire/internal/cache/ExportDiskRegion.java:29-35 | A null value gives the assertion failure and changes nothing. Otherwise the call succeeds and the buffer maps `key` to `re`, with every other key as before. The event is appended to the pending history. |
| `Export.ExportDiskRegion.UpdateRecoveredEntry` | gemfire-core/src/main/java/com/gemstone/gemfire/internal/cache/ExportDiskRegion.java:38-41 | With no null check, the buffer maps `key` to `re` and overwrites any earlier entry; every other key is as before. |
| `Export.ExportDiskRegion.DestroyRecoveredEntry` | gemfire-core/src/main/java/com/gemstone/gemfire/internal/cache/ExportDiskRegion.java:44-47 | The buffer loses `key` and keeps every other key. The buffer is unchanged if `key` was absent. |
| `Export.ExportDiskRegion.OplogRecovered` | gemfire-core/src/main/java/com/gemstone/gemfire/internal/cache/ExportDiskRegion.java:50-57 | On success the writer's batch is exactly the old buffer, and the buffer and pending events are then empty. An I/O error gives the disk access error. Any other writer exception is passed on unwrapped. In both failure cases nothing changes, so the buffer keeps its contents. The oplog id has no effect. An accepted batch is null-free if every pending update had a value; creates are covered by the null check, recorded in `Valid()`. |
| `Export.TwoOplogExport` | gemfire-core/src/main/java/com/gemstone/gemfire/internal/cache/ExportDiskRegion.java:29-57 | Oplog 1 creates k1 and k2; oplog 2 updates k1 to c and destroys k2. The buffer at the two boundaries is {k1:a, k2:b} and then {k1:c}. The batches the writer accepted are exactly those two, so the first still holds k2 and is not corrected by the later destroy. |
| `Export.ExportDiskRegion.ExportsCoverHistory` | gemfire-core/src/main/java/com/gemstone/gemfire/internal/cache/ExportDiskRegion.java:50-56 | At a boundary, every key that survives the replay of all events the overlay has applied is found with its final entry when the accepted batches are applied in order. |
| `Recovery.Apply` | gemfire-core/src/main/java/com/gemstone/gemfire/internal/cache/ExportDiskRegion.java:33-45 | After a create or update the event's key holds its entry, and after a destroy the key is absent. All other keys keep their state. Destroying an absent key leaves the map unchanged. |
| `Recovery.LastIndex` | gemfire-core/src/main/java/com/gemstone/gemfire/internal/cache/ExportDiskRegion.java:33-45 | The result is the position of the last event about `k`, and no later event is about `k`. It is -1 exactly when no event is about `k`. |
| `Recovery.ReplayAppend` | gemfire-core/src/main/java/com/gemstone/gemfire/internal/cache/ExportDiskRegion.java:29-47 | Applying callbacks in call order composes: replaying `a + b` equals replaying `a`, then `b`. |
| `Recovery.ReplayResolves` | gemfire-core/src/main/java/com/gemstone/gemfire/internal/cache/ExportDiskRegion.java:33-45 | For every key, the replayed buffer holds what the key's last event left: an entry for a create or update, and absence for a destroy. With no event for the key, it holds the initial state. |
| `Recovery.ReplayIsLastWriterBatch` | gemfire-core/src/main/java/com/gemstone/gemfire/internal/cache/ExportDiskRegion.java:29-57 | The batch built by the callbacks since the last boundary equals the independently defined last-writer-wins batch of those events. |
| `Recovery.LastEventDecides` | gemfire-core/src/main/java/com/gemstone/gemfire/internal/cache/ExportDiskRegion.java:33-45 | If a key's last event is a destroy, the key is absent from the batch. If it is a create or update, the key maps to that event's entry. |
| `Recovery.BatchWithinTouchedKeys` | gemfire-core/src/main/java/com/gemstone/gemfire/internal/cache/ExportDiskRegion.java:19-56 | A batch only holds keys that events of the current oplog touched. |
| `Recovery.ReplayKeepsNullFree` | gemfire-core/src/main/java/com/gemstone/gemfire/internal/cache/ExportDiskRegion.java:29-65 | If every create and update carried a value, the batch holds no null value, which is what `writeBatch` documents. |
| `Recovery.NullUpdateReachesBatch` | gemfire-core/src/main/java/com/gemstone/gemfire/internal/cache/ExportDiskRegion.java:38-41 | An update with a null value leaves a null value in the batch, because the update path has no null check. |
| `Recovery.MergedExportsCoverReplay` | gemfire-core/src/main/java/com/gemstone/gemfire/internal/cache/ExportDiskRegion.java:50-56 | Suppose the exported batches are applied in order, later ones overriding earlier ones. Then every key that survives the replay of all exported oplogs is found with its final entry. |

## Left out

- `VersionedObjectInput` is not part of this model. It forwards every call to the wrapped `ObjectInput` and has no logic of its own.
- The `ValidatingDiskRegion` super calls (`ExportDiskRegion.java:34,40,46`) and the `DiskEntry` values they return are not modelled. Their source is not part of this model, and they do not touch the buffer.
- The constructor's `DiskStoreImpl` and `DiskRegionView` arguments and the `writer` field are not modelled. The writer is replaced by the `WriteResult` parameter of `OplogRecovered`, and what it does with a batch is I/O outside the model.
- `Export.ExportDiskRegion.OplogRecovered`: the writer is modelled as receiving a snapshot of the buffer. In Java it receives the live `HashMap`, which is cleared after the call returns. A writer that keeps the reference would see the map empty. The model does not capture this aliasing.
- The messages and causes of `Assert.fail` and `DiskAccessException`, and the disk store attached to the latter, are reduced to the `Outcome` values `AssertionFailed` and `DiskAccessFailed`. An unchecked writer exception is reduced to `WriterFailed`, without its type or message.
- `RecoveredEntry` fields other than the value (oplog position, length, user bits, version tag) are not modelled. The overlay passes them through untouched.
- The `long` oplog id is modelled as `int`. It is never read, so its width does not matter.
- The recovery driver is outside the model: oplog decoding, the order of oplogs, stopping the pass after a disk access error, and fault-in of deferred values.
