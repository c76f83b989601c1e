/** The build-time limits. All of them can be overridden when the engine is compiled, so they are left symbolic. */
module Config {

  type Capacity = n: nat | 1 <= n && 32 * n < 0x1_0000_0000 witness 1
  type BatchLimit = n: nat | 1 <= n && 16 * n + 283 < 0x1_0000_0000 witness 1

  /** Points per series buffer and per block (src/storage/block.h:11-17). */
  const BLOCK_MAX_POINTS: Capacity

  /** Points per batch record of the log (src/storage/wal.c:27-29). */
  const WAL_MAX_BATCH_POINTS: BatchLimit

  /** Bytes of log kept in memory before they are flushed (src/storage/wal.c:24-30). */
  const WAL_BUFFER_BYTES: nat
  const WAL_BALANCED_FLUSH_BYTES: nat

  /** Size past which a segment is not extended (src/core/series.h:14-16). */
  const SEGMENT_MAX_BYTES: nat

  /** Most windows one windowed query may ask for (include/tsedge.h:32-34). */
  const MAX_WINDOW_AGGREGATES: nat

  const MAX_SERIES_NAME := 255

  /** File names of segments hold six digits that the parser reads (src/storage/segment_files.c:28-44). */
  const MAX_SEGMENT_ID := 999999
}
