/** One cleanup under a disk quota: what it costs, and what comes before it (src/core/db_quota.c:250-313). */
module Trimming {
  import opened Wire
  import opened Config
  import opened Codec
  import opened Points
  import opened Segments
  import opened WalFormat
  import opened State
  import opened Quota
  import opened Engine
  import opened Invariants
  import opened Retention

  // ---------------------------------------------------------------- one cleanup

  /** Series `i` has lost the files `gone`, sealed ones, with all their points; the other files and the buffer stay. */
  ghost predicate Shed(m: Model, m': Model, i: nat, gone: set<nat>)
    requires i < |m.series|
  {
    var s := m.series[i];
    var dir := DirOf(m.dirs, s.name);
    && s.activeId !in gone && DirOf(m'.dirs, s.name) == dir - gone
    && Visible(m', s.name) == PointsOfIds(dir, Keep(SortedIds(dir.Keys), gone)) + BufferOf(m.series, s.name)
  }

  /** No series has come or gone and nobody sees a new point or another order; points may be missing. */
  ghost predicate Trimmed(m: Model, m': Model) {
    && m'.dirs.Keys == m.dirs.Keys && m'.durability == m.durability
    && forall n: Name :: Thinned(Visible(m, n), Visible(m', n), TWO63)
  }

  lemma ShedSeries(m: Model, m': Model, i: nat, gone: set<nat>)
    requires i < |m.series| && DirOf(m'.dirs, m.series[i].name) == DirOf(m.dirs, m.series[i].name) - gone
    requires BufferOf(m'.series, m.series[i].name) == BufferOf(m.series, m.series[i].name)
    requires m.series[i].activeId !in gone
    ensures Shed(m, m', i, gone)
    ensures Thinned(Visible(m, m.series[i].name), Visible(m', m.series[i].name), TWO63)
  {
    hide Thinned, BufferOf, PointsOfIds, Flatten, Blocks, Keep, SortedIds;
    var dir, buffer := DirOf(m.dirs, m.series[i].name), BufferOf(m.series, m.series[i].name);
    StoredWithout(dir, gone);
    KeptPoints(dir, SortedIds(dir.Keys), gone, TWO63);
    ThinnedSame(buffer, TWO63);
    ThinnedConcat(StoredPoints(dir), StoredPoints(dir - gone), buffer, buffer, TWO63);
  }

  /** The files of series `i` that a cleanup deletes. */
  ghost function Gone(m: Model, i: nat): set<nat> {
    if m.quota == 0 || TotalSize(m) <= m.quota then {}
    else
      var cs := SortedCandidates(m);
      Removed(cs[..Doomed(cs, TotalSize(m), m.quota)], i)
  }

  lemma GoneFiles(m: Model, i: nat)
    requires RegistryOk(m) && i < |m.series|
    ensures DirOf(Enforce(m).0.dirs, m.series[i].name) == DirOf(m.dirs, m.series[i].name) - Gone(m, i)
    ensures m.series[i].activeId !in Gone(m, i)
  {
    hide SortedCandidates, TotalSize, Doomed, Tracked, Removed, AllCandidates, RegistryOk, RebuildTouched, RemoveFiles,
         Rebuild, SeriesOk;
    if m.quota == 0 || TotalSize(m) <= m.quota {
      assert DirOf(m.dirs, m.series[i].name) - {} == DirOf(m.dirs, m.series[i].name);
    } else {
      var cs := SortedCandidates(m);
      var victims := cs[..Doomed(cs, TotalSize(m), m.quota)];
      PrefixCandidates(m, |victims|);
      WithoutSeries(m, victims, i);
      RegistryAt(m, i);
    }
  }

  /** A cleanup costs each series a set of whole sealed files, which may be empty, and changes nothing else. */
  lemma EnforceTrims(m: Model)
    requires RegistryOk(m)
    ensures var m' := Enforce(m).0;
            && Trimmed(m, m')
            && forall i :: 0 <= i < |m.series| ==> Shed(m, m', i, Gone(m, i))
  {
    hide Enforce, RegistryOk, BufferOf, Thinned, Shed, StoredPoints, Mirror, Gone;
    var m' := Enforce(m).0;
    QuotaIsSafe(m);
    SameBuffers(m, m');
    forall i | 0 <= i < |m.series|
      ensures Shed(m, m', i, Gone(m, i))
      ensures Thinned(Visible(m, m.series[i].name), Visible(m', m.series[i].name), TWO63)
    {
      GoneFiles(m, i);
      ShedSeries(m, m', i, Gone(m, i));
    }
    forall n: Name
      ensures Thinned(Visible(m, n), Visible(m', n), TWO63)
    {
      var i := Find(m.series, n);
      if i == |m.series| {
        NoDirectory(m, n);
        ThinnedSame(Visible(m, n), TWO63);
      } else {
        assert m.series[i].name == n;
      }
    }
  }

  lemma NoDirectory(m: Model, n: Name)
    requires RegistryOk(m) && Find(m.series, n) == |m.series|
    ensures n !in m.dirs
  {}

  // ---------------------------------------------------------------- flushes under a quota

  /** The same state without a quota. */
  function Free(m: Model): Model {
    m.(quota := 0)
  }

  ghost predicate Fits(m: Model) {
    m.quota == 0 || TotalSize(m) <= m.quota
  }

  /** A cleanup looks at neither its own flag nor what a cleanup without a quota did before. */
  lemma EnforceIgnores(t: Model)
    ensures var free := Enforce(Free(t)).0.(quota := t.quota);
            Enforce(free) == Enforce(t) && (Fits(free) ==> Enforce(t) == (free, Ok))
  {
    hide Doomed, Tracked, RemoveFiles, RebuildTouched, TextSize, TreeSize, Sort, Candidates, LogSize;
  }

  lemma FreeWrite(m: Model, i: nat)
    requires i < |m.series|
    ensures WriteBlock(Free(m), i) == Free(WriteBlock(m, i)) && WriteBlock(m, i).quota == m.quota
  {
    hide FlushedSeries, FlushedDirectory;
  }

  lemma {:induction false} FreeWrites(m: Model, n: nat)
    requires n <= |m.series|
    ensures WriteBlocks(Free(m), n) == Free(WriteBlocks(m, n)) && WriteBlocks(m, n).quota == m.quota
  {
    hide WriteBlock;
    if n > 0 {
      FreeWrites(m, n - 1);
      FreeWrite(WriteBlocks(m, n - 1), n - 1);
    }
  }

  /**
   * A flush of one series under a quota, on its own or inside an append, a batch or a retention call: the state and the
   * status are those of a cleanup after the flush without a quota. If the directory then fits its quota, nothing is
   * lost.
   */
  lemma FlushThenCleanup(m: Model, i: nat)
    requires i < |m.series| && m.series[i].buffer != []
    ensures var free := Flush(Free(m), i).0.(quota := m.quota);
            Flush(m, i) == Enforce(free) && (Fits(free) ==> Flush(m, i) == (free, Ok))
  {
    hide Enforce, WriteBlock, BufferEntries, Fits;
    FreeWrite(m, i);
    EnforceIgnores(TruncateLog(WriteBlock(m, i)));
  }

  /** The same for the flush of all series, on its own or inside a delete or a close. */
  lemma FlushAllThenCleanup(m: Model)
    ensures var free := FlushAll(Free(m)).0.(quota := m.quota);
            FlushAll(m) == Enforce(free) && (Fits(free) ==> FlushAll(m) == (free, Ok))
  {
    hide Enforce, WriteBlocks, BufferEntries, Fits;
    FreeWrites(m, |m.series|);
    EnforceIgnores(TruncateLog(WriteBlocks(m, |m.series|)));
  }

  /** The same for the room made in front of a point or of a round of a batch. */
  lemma RoomThenCleanup(m: Model, i: nat)
    requires i < |m.series|
    ensures |MakeRoom(Free(m), i).0.series| == |m.series|
    ensures var free := MakeRoom(Free(m), i).0.(quota := m.quota);
            && (|m.series[i].buffer| >= BLOCK_MAX_POINTS ==> MakeRoom(m, i) == Enforce(free))
            && (Fits(free) ==> MakeRoom(m, i) == (free, Ok))
  {
    hide Flush, Enforce, Fits;
    if |m.series[i].buffer| >= BLOCK_MAX_POINTS {
      FlushThenCleanup(m, i);
    }
  }
}
