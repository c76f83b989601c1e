/**
 * An open database as the program holds it: bytes on a disk, a byte buffer for the log, and an array of series
 * objects (src/storage/wal.c, src/core/series.c, src/core/db.c). Every method is proved to take the step of the
 * engine's state machine that it implements.
 */
module Store {
  import opened Wire
  import opened Config
  import opened Codec
  import opened Segments
  import opened WalFormat
  import opened State
  import opened Quota
  import opened Engine
  import opened Query
  import opened SeriesIndex
  import opened Cleanup

  /** The database directory: wal.log and one directory of segment files for each series. */
  class Disk {
    var wal: seq<byte>
    var dirs: map<Name, Files>

    constructor ()
      ensures wal == [] && dirs == map[]
    {
      wal, dirs := [], map[];
    }
  }

  ghost predicate DirsHold(files: map<Name, Files>, dirs: map<Name, Directory>) {
    files.Keys == dirs.Keys && forall n :: n in dirs ==> FilesHold(files[n], dirs[n])
  }

  ghost function TreeLengths(tree: map<Name, Files>): map<Name, nat> {
    map n | n in tree :: FilesBytes(tree[n])
  }

  /** Bytes of all files of the database: wal.log, the segments of every directory, and the text files. */
  ghost function DiskBytes(wal: seq<byte>, tree: map<Name, Files>, names: seq<Name>): nat {
    |wal| + SumOf(TreeLengths(tree)) + TextSize(names)
  }

  lemma TreeLengthsAre(tree: map<Name, Files>, dirs: map<Name, Directory>)
    requires DirsHold(tree, dirs)
    ensures SumOf(TreeLengths(tree)) == TreeSize(dirs)
  {
    hide SumOf, FilesBytes, DirectorySize, FilesHold;
    forall n | n in dirs
      ensures FilesBytes(tree[n]) == DirectorySize(dirs[n])
    {
      FilesBytesAre(tree[n], dirs[n]);
    }
    assert TreeLengths(tree) == DirectorySizes(dirs);
  }

  /** The size compared with the quota is that of the files on the disk. */
  lemma SizeOnDisk(wal: seq<byte>, walBuffer: seq<byte>, tree: map<Name, Files>, m: Model)
    requires LogHolds(wal, walBuffer, m) && DirsHold(tree, m.dirs)
    ensures TotalSize(m) == DiskBytes(wal, tree, Names(m.series))
  {
    hide LogHolds, DirsHold, TreeSize, TextSize, TreeLengths, SumOf;
    LogFileSize(wal, walBuffer, m);
    TreeLengthsAre(tree, m.dirs);
  }

  /** Series have distinct names and a directory each. */
  ghost predicate Registered(m: Model) {
    DistinctNames(m.series) && forall i :: 0 <= i < |m.series| ==> m.series[i].name in m.dirs
  }

  /** The bytes of the log file and of the log buffer. */
  ghost predicate LogHolds(wal: seq<byte>, walBuffer: seq<byte>, m: Model) {
    wal == WalBytes(m) && walBuffer == LogBytes(m.pending) && TearOk(m)
  }

  lemma PendingBytes(es: seq<Entry>)
    ensures |LogBytes(es)| == LogSize(es)
    ensures LogBytes(es) == [] <==> es == []
  {
    LogBytesSize(es);
  }

  /** Whether there is a torn record in the file or not, the pending records go to its end. */
  lemma LogFlushed(wal: seq<byte>, walBuffer: seq<byte>, m: Model)
    requires LogHolds(wal, walBuffer, m)
    ensures LogHolds(wal + walBuffer, [], WalFlush(m))
  {
    hide LogBytes;
    var w, head := WalFlush(m), LogBytes(m.log[..m.kept]) + m.torn;
    assert w.log[..m.kept] == m.log[..m.kept] && w.log[m.kept..] == m.log[m.kept..] + m.pending;
    assert WalBytes(m) == head + LogBytes(m.log[m.kept..]);
    assert WalBytes(w) == head + LogBytes(m.log[m.kept..] + m.pending);
    hide WalBytes;
    LogBytesConcat(m.log[m.kept..], m.pending);
    Associative(head, LogBytes(m.log[m.kept..]), LogBytes(m.pending));
    PendingBytes([]);
  }

  lemma LogUnchanged(wal: seq<byte>, walBuffer: seq<byte>, m: Model)
    requires LogHolds(wal, walBuffer, m) && walBuffer == []
    ensures WalFlush(m) == m && m.pending == []
  {
    hide WalBytes;
    PendingBytes(m.pending);
    assert m.log + [] == m.log;
  }

  lemma RecordBuffered(wal: seq<byte>, walBuffer: seq<byte>, m: Model, e: Entry)
    requires LogHolds(wal, walBuffer, m)
    ensures LogHolds(wal, walBuffer + EntryBytes(e), m.(pending := m.pending + [e]))
  {
    hide EntryBytes;
    LogBytesConcat(m.pending, [e]);
    OneRecord(e);
    hide LogBytes;
  }

  lemma LogOpened(dirs: map<Name, Directory>, log: seq<Entry>, rest: seq<byte>)
    ensures LogHolds(LogBytes(log) + rest, [], Fresh(dirs, log, rest))
  {
    PendingBytes([]);
    var m := Fresh(dirs, log, rest);
    if rest == [] {
      WholeFile(m);
    } else {
      TornFile(m);
    }
    hide LogBytes, WalBytes;
    assert LogBytes(log) + [] == LogBytes(log);
  }

  /** A rewritten log is whole. */
  lemma NothingPending(wal: seq<byte>, m: Model)
    requires wal == LogBytes(m.log) && m.pending == [] && m.torn == [] && m.kept == 0
    ensures LogHolds(wal, [], m)
  {
    PendingBytes([]);
    WholeFile(m);
  }

  /** A block is written without touching the log. */
  function BlockStored(m: Model, i: nat): Model
    requires i < |m.series| && ValidBlock(m.series[i].buffer)
  {
    var s := m.series[i];
    var dir := DirOf(m.dirs, s.name);
    m.(dirs := m.dirs[s.name := FlushedDirectory(s, dir)], series := m.series[i := FlushedSeries(s, dir)])
  }

  /**
   * What buffering the bytes of a record does to log file and log buffer: the buffer is written out first when it would
   * grow past the limit of the mode (src/storage/wal.c:68-73), and otherwise the file is left alone.
   */
  predicate Buffers(mode: Durability, wal: seq<byte>, buffer: seq<byte>, bytes: seq<byte>,
                    wal': seq<byte>, buffer': seq<byte>) {
    var limit := if mode == Balanced then WAL_BALANCED_FLUSH_BYTES else WAL_BUFFER_BYTES;
    if buffer != [] && |buffer| + |bytes| > limit then wal' == wal + buffer && buffer' == bytes
    else wal' == wal && buffer' == buffer + bytes
  }

  /** File and buffer together have grown by `bytes`. */
  predicate Carries(wal: seq<byte>, buffer: seq<byte>, bytes: seq<byte>, wal': seq<byte>, buffer': seq<byte>) {
    wal' + buffer' == wal + buffer + bytes
  }

  lemma BuffersAll(mode: Durability, wal: seq<byte>, buffer: seq<byte>, bytes: seq<byte>,
                   wal': seq<byte>, buffer': seq<byte>)
    requires Buffers(mode, wal, buffer, bytes, wal', buffer')
    ensures Carries(wal, buffer, bytes, wal', buffer')
  {}

  lemma NothingLogged(bytes: seq<byte>)
    ensures bytes + LogBytes([]) == bytes
    ensures forall name: Name :: BatchEntries(name, []) == []
  {}

  lemma OneMoreLogged(bytes: seq<byte>, done: seq<Entry>, e: Entry)
    ensures bytes + LogBytes(done + [e]) == bytes + LogBytes(done) + EntryBytes(e)
  {
    hide EntryBytes, LogBytes;
    LogBytesConcat(done, [e]);
    OneRecord(e);
  }

  /** A block goes to the next file only when the active one holds something and would grow past the size limit. */
  predicate Rotates(files: Files, activeId: nat, blockSize: nat, id: nat) {
    id == if activeId in files && 0 < |files[activeId]| && |files[activeId]| + blockSize > SEGMENT_MAX_BYTES
          then activeId + 1
          else activeId
  }

  class Database {
    const disk: Disk
    var walBuffer: seq<byte>
    var durability: Durability
    var series: seq<SeriesObject>
    var nextGeneration: nat
    var quota: nat
    var exceeded: bool

    /** The abstract state. */
    ghost var m: Model

    ghost function Repr(): set<object>
      reads this
    {
      {this, disk} + (set s | s in series) + (set s | s in series :: s.buffer)
    }

    ghost predicate SeriesHold()
      reads this, series, set s | s in series :: s.buffer
    {
      && |series| == |m.series|
      && (forall i, j :: 0 <= i < j < |series| ==> series[i] != series[j] && series[i].buffer != series[j].buffer)
      && (forall i :: 0 <= i < |series| ==> series[i].Valid() && series[i].Value() == m.series[i])
    }

    ghost predicate SettingsHold()
      reads this
    {
      durability == m.durability && nextGeneration == m.nextGeneration && quota == m.quota && exceeded == m.exceeded
    }

    ghost predicate Valid()
      reads Repr()
    {
      && SeriesHold() && SettingsHold()
      && LogHolds(disk.wal, walBuffer, m)
      && DirsHold(disk.dirs, m.dirs)
      && Registered(m)
    }

    /** A database before anything is loaded from its directory. */
    constructor (disk: Disk, ghost dirs: map<Name, Directory>, ghost log: seq<Entry>, ghost rest: seq<byte>)
      requires disk.wal == LogBytes(log) + rest && DirsHold(disk.dirs, dirs)
      ensures Valid() && this.disk == disk && m == Fresh(dirs, log, rest) && series == []
      ensures walBuffer == []
    {
      hide LogHolds, WalBytes, LogBytes, DirsHold;
      this.disk := disk;
      walBuffer, durability, series, nextGeneration, quota, exceeded := [], Strict, [], 0, 0, false;
      m := Fresh(dirs, log, rest);
      LogOpened(dirs, log, rest);
    }

    // -------------------------------------------------------------- log

    /** Appends the log buffer to the log file. */
    method FlushLog()
      requires Valid()
      modifies this`walBuffer, this`m, disk`wal
      ensures Valid() && m == WalFlush(old(m)) && m.pending == []
      ensures disk.wal == old(disk.wal) + old(walBuffer) && walBuffer == []
    {
      hide DirsHold, LogHolds;
      if |walBuffer| == 0 {
        LogUnchanged(disk.wal, walBuffer, m);
        assert disk.wal + walBuffer == disk.wal;
        return;
      }
      LogFlushed(disk.wal, walBuffer, m);
      disk.wal := disk.wal + walBuffer;
      walBuffer := [];
      m := WalFlush(m);
    }

    lemma BufferSize()
      requires Valid()
      ensures |walBuffer| == LogSize(m.pending) && (|walBuffer| > 0 <==> m.pending != [])
      ensures durability == m.durability
    {
      hide SeriesHold, DirsHold, Registered, WalBytes;
      PendingBytes(m.pending);
    }

    /** Buffers the bytes of one record, flushing first when they would grow the buffer past the limit of the mode. */
    method AppendRecord(bytes: seq<byte>, ghost e: Entry)
      requires Valid() && bytes == EntryBytes(e)
      modifies this`walBuffer, this`m, disk`wal
      ensures Valid() && m == WalAppend(old(m), e)
      ensures Buffers(durability, old(disk.wal), old(walBuffer), bytes, disk.wal, walBuffer)
    {
      hide SeriesHold, LogHolds, DirsHold, Registered, EntryBytes;
      BufferSize();
      if |walBuffer| > 0 && |walBuffer| + |bytes| > FlushThreshold(durability) {
        FlushLog();
      }
      RecordBuffered(disk.wal, walBuffer, m, e);
      assert [] + bytes == bytes;
      walBuffer := walBuffer + bytes;
      m := WalAppend(old(m), e);
      SeriesKept();
      SameNamesRegistered(old(m), m);
    }

    /** The process dies while it writes its log buffer and more records; only the first `cut` bytes reach the file. */
    method LogCut(records: seq<Entry>, cut: nat)
      requires Valid() && cut <= |LogBytes(m.pending + records)|
      modifies disk`wal
      ensures disk.wal == old(disk.wal) + LogBytes(old(m).pending + records)[..cut]
    {
      hide SeriesHold, DirsHold, WalBytes, LogBytes, Registered;
      LogBytesConcat(m.pending, records);
      disk.wal := disk.wal + (walBuffer + LogBytes(records))[..cut];
    }

    method LogPoint(name: Name, p: Point)
      requires Valid()
      modifies this`walBuffer, this`m, disk`wal
      ensures Valid() && m == WalAppendPoint(old(m), name, p)
      ensures var bytes := EntryBytes(PointV3(name, p));
              if durability == Strict then disk.wal == old(disk.wal + walBuffer) + bytes && walBuffer == []
              else Buffers(durability, old(disk.wal), old(walBuffer), bytes, disk.wal, walBuffer)
    {
      hide SeriesHold, LogHolds, DirsHold, Registered, EntryBytes, WalAppend, WalFlush;
      var entry := EncodePoint(name, p);
      Associative(disk.wal, walBuffer, entry[..]);
      assert disk.wal + ([] + entry[..]) == disk.wal + entry[..];
      AppendRecord(entry[..], PointV3(name, p));
      if durability == Strict {
        FlushLog();
      }
    }

    /** One record for every `WAL_MAX_BATCH_POINTS` points, then a flush of the log in STRICT mode. */
    method LogBatch(name: Name, ps: seq<Point>)
      requires Valid()
      modifies this`walBuffer, this`m, disk`wal
      ensures Valid() && m == WalAppendBatch(old(m), name, ps)
      ensures Carries(old(disk.wal), old(walBuffer), LogBytes(BatchEntries(name, ps)), disk.wal, walBuffer)
      ensures durability == Strict && ps != [] ==> walBuffer == []
    {
      hide EntryBytes, WalAppend, WalFlush, WalAppendAll, BatchEntries, DirsHold, Registered, LogHolds, LogBytes,
           SeriesHold, Buffers;
      NothingLogged(disk.wal + walBuffer);
      if |ps| == 0 {
        return;
      }
      var offset := 0;
      ghost var done: seq<Entry> := [];
      assert ps[0..] == ps;
      NoChunk(m, name);
      while offset < |ps|
        invariant offset <= |ps| && Valid()
        invariant done + BatchEntries(name, ps[offset..]) == BatchEntries(name, ps)
        invariant m == WalAppendAll(old(m), done)
        invariant Carries(old(disk.wal), old(walBuffer), LogBytes(done), disk.wal, walBuffer)
      {
        var chunk := |ps| - offset;
        if chunk > WAL_MAX_BATCH_POINTS {
          chunk := WAL_MAX_BATCH_POINTS;
        }
        var part := ps[offset..offset + chunk];
        NextChunk(name, ps, offset, chunk);
        AppendAllPush(old(m), done, BatchV3(name, part));
        Associative(done, [BatchV3(name, part)], BatchEntries(name, ps[offset + chunk..]));
        var entry := EncodeBatch(name, part);
        ghost var wal, buffer := disk.wal, walBuffer;
        AppendRecord(entry[..], BatchV3(name, part));
        BuffersAll(durability, wal, buffer, entry[..], disk.wal, walBuffer);
        OneMoreLogged(old(disk.wal + walBuffer), done, BatchV3(name, part));
        done := done + [BatchV3(name, part)];
        offset := offset + chunk;
      }
      assert ps[offset..] == [] && done + [] == done;
      if durability == Strict {
        FlushLog();
      }
    }

    /** Rewrites the log file with the points that are still buffered. */
    method TruncateToBuffers()
      requires Valid()
      modifies this`walBuffer, this`m, disk`wal
      ensures Valid() && m == TruncateLog(old(m))
    {
      hide SeriesHold, LogHolds, DirsHold, Registered, BufferEntries, LogBytes, WalBytes;
      walBuffer := [];
      disk.wal := [];
      SeriesKept();
      WriteBuffers();
      m := TruncateLog(m);
      SeriesKept();
      NothingPending(disk.wal, m);
      SameNamesRegistered(old(m), m);
    }

    /** Writes the buffers series by series, each as batch records. */
    method WriteBuffers()
      requires SeriesHold() && disk.wal == []
      modifies disk`wal
      ensures disk.wal == LogBytes(BufferEntries(m.series))
    {
      hide BatchEntries, LogBytes, BufferEntries;
      NoRecords();
      assert m.series[..0] == [];
      for i := 0 to |series|
        invariant disk.wal == LogBytes(BufferEntries(m.series[..i]))
      {
        BufferEntriesPush(m.series, i);
        WriteBuffer(series[i], BufferEntries(m.series[..i]));
      }
      assert m.series[..|series|] == m.series;
    }

    method WriteBuffer(s: SeriesObject, ghost before: seq<Entry>)
      requires s.Valid() && disk.wal == LogBytes(before)
      modifies disk`wal
      ensures disk.wal == LogBytes(before + BatchEntries(s.name, s.buffer[..s.count]))
    {
      hide EntryBytes, LogBytes, BatchEntries;
      var j := 0;
      ghost var all := s.buffer[..s.count];
      ghost var done := before;
      assert all[0..] == all;
      while j < s.count
        invariant j <= s.count && disk.wal == LogBytes(done)
        invariant done + BatchEntries(s.name, all[j..]) == before + BatchEntries(s.name, all)
      {
        var chunk := s.count - j;
        if chunk > WAL_MAX_BATCH_POINTS {
          chunk := WAL_MAX_BATCH_POINTS;
        }
        BufferSlice(s.buffer, s.count, j, chunk);
        var part := s.buffer[j..j + chunk];
        NextRecord(s.name, all, j, chunk, done);
        var entry := EncodeBatch(s.name, part);
        disk.wal := disk.wal + entry[..];
        done := done + [BatchV3(s.name, part)];
        j := j + chunk;
      }
      assert all[j..] == [];
      NoChunk(m, s.name);
      assert done + [] == done;
    }

    // -------------------------------------------------------------- flush

    /**
     * Turns a buffer into a block: the segment is chosen, the block appended to it and its id and index entry
     * remembered.
     */
    method WriteSegment(s: SeriesObject, ghost dir: Directory)
      requires s.Valid() && s.count > 0 && s.name in disk.dirs && FilesHold(disk.dirs[s.name], dir)
      modifies disk`dirs, s
      ensures s.Valid() && ValidBlock(old(s.Value()).buffer) && s.Value() == FlushedSeries(old(s.Value()), dir)
      ensures s.name in disk.dirs && disk.dirs == old(disk.dirs)[s.name := disk.dirs[s.name]]
      ensures FilesHold(disk.dirs[s.name], FlushedDirectory(old(s.Value()), dir))
      ensures var files, bytes := old(disk.dirs[s.name]), BlockBytes(old(s.Value()).buffer);
              && Rotates(files, old(s.activeId), |bytes|, s.activeId)
              && disk.dirs[s.name]
                 == files[s.activeId := (if s.activeId in files then files[s.activeId] else []) + bytes]
    {
      hide FilesHold, FlushedSeries, FlushedDirectory, BlockBytes, BlockSize, EntryFor, SegmentSize, RotatedId, Rotates;
      ghost var record := s.Value();
      var files := disk.dirs[s.name];
      var points := s.buffer[..s.count];
      var size := EstimateBlockSize(points);
      var id := Rotate(files, s.activeId, size, dir);
      s.activeId := id;
      BytesOfFile(files, dir, id);
      var file, entry := AppendBlock(if id in files then files[id] else [], id, points);
      FileGrows(files, dir, id, points);
      disk.dirs := disk.dirs[s.name := files[id := file]];
      s.AddSegmentId(id);
      s.AddIndexEntry(entry);
      s.count := 0;
      FlushedIs(record, dir);
    }

    lemma SeriesAt(i: nat)
      requires SeriesHold() && i < |series|
      ensures |series| == |m.series| && series[i].Valid() && series[i].Value() == m.series[i]
      ensures series[i].name == m.series[i].name && m.series[i].buffer == series[i].buffer[..series[i].count]
      ensures ValidBlock(m.series[i].buffer) <==> series[i].count > 0
    {}

    /** One series object has changed, and with it its record. */
    twostate lemma SeriesReplaced(i: nat)
      requires old(SeriesHold()) && i < |series| && series == old(series)
      requires forall s :: s in series && s != series[i] ==> unchanged(s) && unchanged(s.buffer)
      requires |m.series| == |series| && m.series == old(m.series)[i := m.series[i]]
      requires series[i].Valid() && series[i].Value() == m.series[i]
      ensures SeriesHold()
    {}

    method StoreBlock(i: nat)
      requires Valid() && i < |series| && series[i].count > 0
      modifies this`m, disk`dirs, series[i]
      ensures Valid() && ValidBlock(old(m).series[i].buffer) && m == BlockStored(old(m), i)
    {
      hide LogHolds, DirsHold, FlushedSeries, FlushedDirectory, FilesHold, Registered, SeriesHold;
      SeriesAt(i);
      RegisteredAt(m, i);
      var s := series[i];
      ghost var dir := m.dirs[s.name];
      DirAt(disk.dirs, m.dirs, s.name);
      WriteSegment(s, dir);
      FlushedIs(m.series[i], dir);
      DirsUpdated(old(disk.dirs), m.dirs, s.name, disk.dirs[s.name], FlushedDirectory(m.series[i], dir));
      m := BlockStored(m, i);
      SeriesReplaced(i);
      LogIgnoresRest(disk.wal, walBuffer, old(m), m);
      SameNamesRegistered(old(m), m);
    }

    /** Flushes the log and writes the block; the log is not truncated yet. */
    method FlushBuffer(i: nat)
      requires Valid() && i < |series|
      modifies this`walBuffer, this`m, disk, series[i]
      ensures Valid() && m == WriteBlock(old(m), i) && (walBuffer == [] || walBuffer == old(walBuffer))
    {
      hide LogHolds, DirsHold, FlushedSeries, FlushedDirectory, Registered, SeriesHold;
      SeriesAt(i);
      if series[i].count == 0 {
        return;
      }
      FlushLog();
      StoreBlock(i);
    }

    // -------------------------------------------------------------- quota

    /** The size of all files below the database directory. */
    method DatabaseSize() returns (size: nat)
      requires Valid()
      ensures size == DiskBytes(disk.wal, disk.dirs, Names(m.series)) == TotalSize(m)
    {
      hide LogHolds, DirsHold, SeriesHold, SumOf, TextSize, TotalSize, TreeLengths;
      SizeOnDisk(disk.wal, walBuffer, disk.dirs, m);
      var texts := TextBytes();
      var segments := TreeBytes();
      size := |disk.wal| + segments + texts;
    }

    /** The manifest and the metadata file of every series. */
    method TextBytes() returns (size: nat)
      requires SeriesHold()
      ensures size == TextSize(Names(m.series))
    {
      hide SeriesHold, ManifestText, MetadataText;
      SeriesCount();
      size := 0;
      var names: seq<Name> := [];
      for i := 0 to |series|
        invariant names == Names(m.series)[..i] && size == MetadataSize(names)
      {
        SeriesAt(i);
        assert (names + [series[i].name])[..|names|] == names;
        names := names + [series[i].name];
        size := size + |MetadataText(series[i].name)|;
      }
      assert names == Names(m.series);
      size := size + |ManifestText(names)|;
    }

    /** The segment files of all directories, in whatever order they are visited. */
    method TreeBytes() returns (size: nat)
      ensures size == SumOf(TreeLengths(disk.dirs))
    {
      hide SumOf, FilesBytes;
      size := 0;
      var rest := disk.dirs.Keys;
      ghost var lengths := TreeLengths(disk.dirs);
      assert lengths - (lengths.Keys - rest) == lengths;
      while rest != {}
        invariant rest <= disk.dirs.Keys && size + SumOf(lengths - (lengths.Keys - rest)) == SumOf(lengths)
        decreases |rest|
      {
        var n :| n in rest;
        var bytes := DirectoryBytes(disk.dirs[n]);
        ghost var left := lengths - (lengths.Keys - rest);
        SumWithout(left, n);
        assert left - {n} == lengths - (lengths.Keys - (rest - {n}));
        size := size + bytes;
        rest := rest - {n};
      }
      NothingSummed(lengths - (lengths.Keys - rest));
    }

    lemma SettingsAgree()
      requires Valid()
      ensures exceeded == m.exceeded && quota == m.quota && durability == m.durability && |series| == |m.series|
    {}

    lemma SeriesCount()
      requires SeriesHold()
      ensures |series| == |m.series|
    {}

    lemma TearAgrees()
      requires Valid()
      ensures TearOk(m)
    {
      hide SeriesHold, DirsHold, WalBytes, LogBytes, Registered;
    }

    lemma FilesAgree()
      requires Valid()
      ensures disk.wal == WalBytes(m) && DirsHold(disk.dirs, m.dirs)
    {
      hide SeriesHold, DirsHold, WalBytes, LogBytes, Registered;
    }

    /** The sealed segments of all series. */
    method GatherCandidates() returns (cs: seq<Candidate>)
      requires Valid()
      ensures cs == Candidates(m.series, m.dirs, |m.series|)
    {
      hide LogHolds, DirsHold, SeriesHold, SeriesCandidates;
      SeriesCount();
      cs := [];
      for i := 0 to |series|
        invariant cs == Candidates(m.series, m.dirs, i)
      {
        SeriesAt(i);
        DirAt(disk.dirs, m.dirs, series[i].name);
        var found := CollectCandidates(series[i], disk.dirs[series[i].name], i, m.dirs[series[i].name]);
        cs := cs + found;
      }
    }

    /** Deletes candidates, oldest first, until the tracked size is within the quota. */
    method DeleteFiles(cs: seq<Candidate>, size: nat) returns (k: nat, left: nat, touched: array<bool>)
      requires Valid() && forall c :: c in cs ==> c.seriesIndex < |series|
      modifies disk`dirs
      ensures k == Doomed(cs, size, quota) && left == Tracked(cs[..k], size)
      ensures DirsHold(disk.dirs, RemoveFiles(m.dirs, m.series, cs[..k]))
      ensures fresh(touched) && touched.Length == |series|
      ensures forall i :: 0 <= i < |series| ==> (touched[i] <==> Touched(cs[..k], i))
    {
      hide LogHolds, DirsHold, SeriesHold, RemoveFiles, Touched, Registered, Doomed, Tracked;
      SeriesCount();
      k, left := 0, size;
      touched := new bool[|series|](_ => false);
      NothingRemoved(m);
      NothingTouched(|series|);
      NothingDoomed(cs, size, quota);
      while k < |cs| && left > quota
        invariant k <= |cs| && k + Doomed(cs[k..], left, quota) == Doomed(cs, size, quota)
        invariant left == Tracked(cs[..k], size)
        invariant DirsHold(disk.dirs, RemoveFiles(m.dirs, m.series, cs[..k]))
        invariant forall i :: 0 <= i < |series| ==> (touched[i] <==> Touched(cs[..k], i))
      {
        var c := cs[k];
        NextDoomed(cs, k, size, left, quota);
        SeriesAt(c.seriesIndex);
        TouchedOneMore(cs[..k], c, |series|);
        RemoveOneMore(disk.dirs, m, cs[..k], c);
        var name := series[c.seriesIndex].name;
        disk.dirs := disk.dirs[name := disk.dirs[name] - {c.segmentId}];
        touched[c.seriesIndex] := true;
        left := if left > c.size then left - c.size else 0;
        k := k + 1;
      }
      LastDoomed(cs, k, left, quota);
    }

    /** Rebuilds the index of one series from its directory. */
    method RebuildOne(i: nat, ghost dir: Directory)
      requires SeriesHold() && i < |series| && series[i].name in disk.dirs && FilesHold(disk.dirs[series[i].name], dir)
      modifies this`m, series[i]
      ensures SeriesHold() && i < |old(m).series|
      ensures m == old(m).(series := old(m).series[i := Rebuild(old(m).series[i], dir)])
    {
      hide SeriesHold, FilesHold, Rebuild, ScanAll, Scanned, ListedIds;
      SeriesAt(i);
      ScannedIsRebuilt(m.series[i], disk.dirs[series[i].name], dir);
      var ok := series[i].RebuildIndex(disk.dirs[series[i].name]);
      m := m.(series := m.series[i := Rebuild(m.series[i], dir)]);
      SeriesReplaced(i);
    }

    /** Rebuilds the index of every series that has lost a file. */
    method RebuildSeries(touched: array<bool>, ghost victims: seq<Candidate>)
      requires SeriesHold() && Registered(m) && touched.Length == |series|
      requires DirsHold(disk.dirs, RemoveFiles(m.dirs, m.series, victims))
      requires forall i :: 0 <= i < |series| ==> (touched[i] <==> Touched(victims, i))
      modifies this`m, series
      ensures SeriesHold() && m == Without(old(m), victims).(dirs := old(m).dirs)
    {
      hide SeriesHold, RemoveFiles, Touched, FilesHold, DirsHold, Rebuild, Registered, RebuildTouched, Rebuilt;
      SeriesCount();
      ghost var dirs, was := RemoveFiles(m.dirs, m.series, victims), m;
      RebuiltStart(m.series, dirs, victims);
      for i := 0 to |series|
        invariant SeriesHold() && m == was.(series := Rebuilt(was.series, dirs, victims, i))
      {
        RebuiltNext(was.series, dirs, victims, i);
        SeriesCount();
        if touched[i] {
          RebuildTouchedOne(i, was, victims);
        }
      }
    }

    method RebuildTouchedOne(i: nat, ghost was: Model, ghost victims: seq<Candidate>)
      requires SeriesHold() && Registered(was) && i < |series| == |was.series| == |m.series|
      requires m.series[i] == was.series[i]
      requires DirsHold(disk.dirs, RemoveFiles(was.dirs, was.series, victims))
      modifies this`m, series[i]
      ensures SeriesHold() && i < |old(m).series|
      ensures var dirs := RemoveFiles(was.dirs, was.series, victims);
              m == old(m).(series := old(m).series[i := Rebuild(was.series[i], DirOf(dirs, was.series[i].name))])
    {
      hide SeriesHold, RemoveFiles, FilesHold, DirsHold, Rebuild, Registered;
      SeriesAt(i);
      KeptDirectory(was, victims, i);
      DirAt(disk.dirs, RemoveFiles(was.dirs, was.series, victims), series[i].name);
      RebuildOne(i, RemoveFiles(was.dirs, was.series, victims)[series[i].name]);
    }

    /** The series objects and their records are what they were. */
    twostate lemma SeriesKept()
      requires old(SeriesHold()) && series == old(series) && m.series == old(m.series)
      requires forall s :: s in series ==> unchanged(s) && unchanged(s.buffer)
      ensures SeriesHold()
    {}

    method ClearFlag()
      requires Valid()
      modifies this`m, this`exceeded
      ensures Valid() && m == old(m).(exceeded := false)
    {
      hide SeriesHold, LogHolds, DirsHold, Registered;
      exceeded := false;
      m := m.(exceeded := false);
      SeriesKept();
      LogIgnoresRest(disk.wal, walBuffer, old(m), m);
      SameNamesRegistered(old(m), m);
    }

    /**
     * Deletes sealed segments, oldest first, while the directory is larger than the quota. The status says whether the
     * files on the disk are within the quota afterwards.
     */
    method EnforceQuota() returns (st: Status)
      requires Valid()
      modifies this`m, this`exceeded, disk`dirs, series
      ensures Valid() && (m, st) == Enforce(old(m))
      ensures RegistryOk(old(m)) && quota != 0 ==>
                (st == Ok <==> DiskBytes(disk.wal, disk.dirs, Names(m.series)) <= quota)
    {
      hide SeriesHold, LogHolds, DirsHold, Registered, TotalSize, Candidates, Sort, Doomed, Tracked, Without,
           RemoveFiles, DiskBytes, RegistryOk, Names;
      if quota == 0 {
        ClearFlag();
        return Ok;
      }
      var size := DatabaseSize();
      if size <= quota {
        ClearFlag();
        return Ok;
      }
      var cs := GatherCandidates();
      CandidateIndexes(m.series, m.dirs, |m.series|);
      SeriesCount();
      SortedIndexes(cs, |series|);
      cs := Sort(cs);
      st := DeleteSegments(cs, size);
      if RegistryOk(old(m)) {
        QuotaIsGreedy(old(m));
        SizeOnDisk(disk.wal, walBuffer, disk.dirs, m);
      }
    }

    method DeleteSegments(cs: seq<Candidate>, size: nat) returns (st: Status)
      requires Valid() && forall c :: c in cs ==> c.seriesIndex < |series|
      modifies this`m, this`exceeded, disk`dirs, series
      ensures Valid()
      ensures var k := Doomed(cs, size, quota);
              && st == (if Tracked(cs[..k], size) > quota then QuotaExceeded else Ok)
              && m == Without(old(m), cs[..k]).(exceeded := st.QuotaExceeded?)
    {
      hide SeriesHold, LogHolds, DirsHold, Registered, Doomed, Tracked, RemoveFiles, RebuildTouched, Touched;
      var k, left, touched := DeleteFiles(cs, size);
      label L:
      SeriesKept();
      RebuildSeries(touched, cs[..k]);
      label M:
      exceeded := left > quota;
      m := Without(old(m), cs[..k]).(exceeded := exceeded);
      SeriesKept@M();
      LogIgnoresRest(disk.wal, walBuffer, old(m), m);
      WithoutRegistered(old(m), cs[..k], exceeded);
      st := if left > quota then QuotaExceeded else Ok;
    }

    // -------------------------------------------------------------- flush and append

    /** Writes the buffer as a block and truncates the log to what is still buffered. */
    method Flush(i: nat) returns (st: Status)
      requires Valid() && i < |series|
      modifies Repr()
      ensures Valid() && series == old(series)
      ensures (m, st) == Engine.Flush(old(m), i)
    {
      hide SeriesHold, LogHolds, DirsHold, Registered, WriteBlock, Enforce, TruncateLog;
      SeriesAt(i);
      if series[i].count == 0 {
        return Ok;
      }
      FlushBuffer(i);
      TruncateToBuffers();
      st := EnforceQuota();
    }

    /** Flushes every series, then truncates the log once. */
    method FlushAll() returns (st: Status)
      requires Valid()
      modifies Repr()
      ensures Valid() && series == old(series)
      ensures (m, st) == Engine.FlushAll(old(m))
    {
      hide SeriesHold, LogHolds, DirsHold, Registered, WriteBlock, Enforce, TruncateLog;
      SeriesCount();
      for i := 0 to |series|
        invariant Valid() && series == old(series)
        invariant |series| == |old(m).series| && m == WriteBlocks(old(m), i)
      {
        FlushBuffer(i);
      }
      TruncateToBuffers();
      st := EnforceQuota();
    }

    lemma OtherBuffers(i: nat)
      requires SeriesHold() && i < |series|
      ensures forall s :: s in series && s != series[i] ==> s.buffer != series[i].buffer
    {
      forall s | s in series && s != series[i]
        ensures s.buffer != series[i].buffer
      {
        var j :| 0 <= j < |series| && series[j] == s;
        assert i < j || j < i;
      }
    }

    /** Copies points behind those already buffered. */
    method PutPoints(i: nat, ps: seq<Point>)
      requires Valid() && i < |series| && series[i].count + |ps| <= BLOCK_MAX_POINTS
      modifies this`m, series[i], series[i].buffer
      ensures Valid() && m == Push(old(m), i, ps)
    {
      hide SeriesHold, LogHolds, DirsHold, Registered;
      SeriesAt(i);
      OtherBuffers(i);
      series[i].PutAll(ps);
      m := Push(m, i, ps);
      SeriesReplaced(i);
      LogIgnoresRest(disk.wal, walBuffer, old(m), m);
      SameNamesRegistered(old(m), m);
    }

    /** Flushes a full buffer. */
    method MakeRoom(i: nat) returns (st: Status)
      requires Valid() && i < |series|
      modifies Repr()
      ensures Valid() && series == old(series)
      ensures (m, st) == Engine.MakeRoom(old(m), i) && (st == Ok ==> series[i].count < BLOCK_MAX_POINTS)
    {
      hide SeriesHold, LogHolds, DirsHold, Registered, Engine.Flush;
      SeriesAt(i);
      if series[i].count >= BLOCK_MAX_POINTS {
        FlushEmpties(m, i);
        st := Flush(i);
        SeriesAt(i);
      } else {
        st := Ok;
      }
    }

    /** Logs a point, then buffers it. */
    method AppendOne(i: nat, p: Point) returns (st: Status)
      requires Valid() && i < |series|
      modifies Repr()
      ensures Valid() && series == old(series)
      ensures (m, st) == AppendPoint(old(m), i, p)
    {
      hide SeriesHold, LogHolds, DirsHold, Registered, Engine.MakeRoom, WalAppendPoint, Push;
      st := MakeRoom(i);
      if st != Ok {
        return;
      }
      SeriesAt(i);
      LogPoint(series[i].name, p);
      PutPoints(i, [p]);
    }

    /** One round of a batch append: as many points as the buffer can take, logged before they are buffered. */
    method AppendChunk(i: nat, ps: seq<Point>) returns (st: Status, chunk: nat)
      requires Valid() && i < |series| && ps != []
      modifies Repr()
      ensures Valid() && series == old(series)
      ensures i < |old(m).series| && i < |m.series|
      ensures var (m1, st1) := Engine.MakeRoom(old(m), i);
              && st == st1 && (st != Ok ==> m == m1)
              && (st == Ok ==>
                    && 0 < chunk == Chunk(m1, i, |ps|) <= |ps|
                    && m == Push(WalAppendBatch(m1, m1.series[i].name, ps[..chunk]), i, ps[..chunk]))
    {
      hide SeriesHold, LogHolds, DirsHold, Registered, Engine.MakeRoom, WalAppendBatch, Push, Carries, LogBytes,
           BatchEntries;
      chunk := 0;
      SeriesAt(i);
      st := MakeRoom(i);
      SeriesAt(i);
      if st != Ok {
        return;
      }
      var available := BLOCK_MAX_POINTS - series[i].count;
      chunk := |ps|;
      if chunk > available {
        chunk := available;
      }
      LogBatch(series[i].name, ps[..chunk]);
      PutPoints(i, ps[..chunk]);
      SeriesAt(i);
    }

    method AppendChunks(i: nat, ps: seq<Point>) returns (st: Status)
      requires Valid() && i < |series|
      modifies Repr()
      ensures Valid() && series == old(series)
      ensures i < |old(m).series| && (m, st) == AppendBatch(old(m), i, ps)
    {
      hide SeriesHold, LogHolds, DirsHold, Registered, Engine.MakeRoom, WalAppendBatch, Push, Chunk;
      st := Ok;
      var offset := 0;
      assert ps[0..] == ps;
      SeriesAt(i);
      while offset < |ps|
        invariant offset <= |ps| && Valid() && series == old(series) && st == Ok
        invariant i < |old(m).series| && i < |m.series|
        invariant AppendBatch(old(m), i, ps) == AppendBatch(m, i, ps[offset..])
      {
        var chunk;
        st, chunk := AppendChunk(i, ps[offset..]);
        if st != Ok {
          return;
        }
        assert ps[offset..][chunk..] == ps[offset + chunk..];
        offset := offset + chunk;
      }
      assert ps[offset..] == [];
    }

    // -------------------------------------------------------------- registry

    method FindSeries(name: Name) returns (i: nat)
      requires Valid()
      ensures i == Find(m.series, name) && i <= |series| == |m.series|
    {
      hide SeriesHold, LogHolds, DirsHold, Registered;
      SeriesCount();
      i := 0;
      while i < |series| && series[i].name != name
        invariant i <= |series| && FindFrom(m.series, name, i) == Find(m.series, name)
      {
        SeriesAt(i);
        i := i + 1;
      }
      if i < |series| {
        SeriesAt(i);
      }
    }

    /** A new object at the end of the series array. */
    twostate lemma SeriesAdded(new s: SeriesObject)
      requires old(SeriesHold()) && series == old(series) + [s] && s.Valid() && m.series == old(m.series) + [s.Value()]
      requires forall o :: o in old(series) ==> unchanged(o) && unchanged(o.buffer) && o != s && o.buffer != s.buffer
      ensures SeriesHold()
    {}

    /**
     * A series object for a directory, which is made if there is none, with the index of its files, whatever they hold;
     * nothing if one of them is corrupt, which makes an open fail.
     */
    method LoadSeries(name: Name, generation: nat) returns (s: SeriesObject?)
      modifies disk`dirs
      ensures disk.dirs == if name in old(disk.dirs) then old(disk.dirs) else old(disk.dirs)[name := map[]]
      ensures s == null <==> ScanAll(disk.dirs[name], ListedIds(disk.dirs[name])).None?
      ensures s != null ==>
                && fresh(s) && fresh(s.buffer) && s.Valid()
                && s.Value() == Scanned(Series(name, generation, 1, [], [], []), disk.dirs[name])
    {
      hide ScanAll, Scanned, ListedIds;
      if name !in disk.dirs {
        disk.dirs := disk.dirs[name := map[]];
      }
      var loaded := new SeriesObject(name, generation);
      var ok := loaded.RebuildIndex(disk.dirs[name]);
      s := if ok then loaded else null;
    }

    /** The same for a directory that holds whole blocks, which cannot fail. */
    method LoadWhole(name: Name, generation: nat, ghost dirs: map<Name, Directory>) returns (s: SeriesObject)
      requires DirsHold(disk.dirs, dirs)
      modifies disk`dirs
      ensures DirsHold(disk.dirs, WithDir(dirs, name)) && fresh(s) && fresh(s.buffer) && s.Valid()
      ensures s.Value() == Rebuild(Series(name, generation, 1, [], [], []), WithDir(dirs, name)[name])
    {
      hide DirsHold, Rebuild, FilesHold, ScanAll, Scanned, ListedIds;
      DirMade(disk.dirs, dirs, name);
      var loaded := LoadSeries(name, generation);
      DirAt(disk.dirs, WithDir(dirs, name), name);
      ScannedIsRebuilt(Series(name, generation, 1, [], [], []), disk.dirs[name], WithDir(dirs, name)[name]);
      s := loaded;
    }

    /** Registers a series unless it is known. */
    method AddSeries(name: Name)
      requires Valid()
      modifies this`series, this`nextGeneration, this`m, disk`dirs
      ensures Valid() && m == Engine.AddSeries(old(m), name) && fresh(Repr() - old(Repr()))
    {
      hide SeriesHold, LogHolds, DirsHold, Registered, Rebuild, WithDir, Find;
      var i := FindSeries(name);
      if i < |series| {
        return;
      }
      var s := LoadWhole(name, nextGeneration + 1, m.dirs);
      series := series + [s];
      nextGeneration := nextGeneration + 1;
      AddedIs(m, name);
      m := Engine.AddSeries(m, name);
      SeriesAdded(s);
      LogIgnoresRest(disk.wal, walBuffer, old(m), m);
      AddedRegistered(old(m), name);
    }

    // -------------------------------------------------------------- open and replay

    /** Buffers a replayed point; a full buffer is flushed first, without truncating the log. */
    method RecoverOne(i: nat, p: Point)
      requires Valid() && i < |series| && walBuffer == []
      modifies Repr()
      ensures Valid() && series == old(series) && walBuffer == []
      ensures i < |old(m).series| && m == RecoverPoint(old(m), i, p)
    {
      hide SeriesHold, LogHolds, DirsHold, Registered, WriteBlock, Push;
      SeriesAt(i);
      if series[i].count >= BLOCK_MAX_POINTS {
        WriteEmpties(m, i);
        FlushBuffer(i);
        SeriesAt(i);
      }
      PutPoints(i, [p]);
    }

    method RecoverRecord(e: Entry)
      requires Valid() && walBuffer == []
      modifies Repr()
      ensures Valid() && walBuffer == [] && fresh(Repr() - old(Repr()))
      ensures m == ReplayEntry(old(m), e)
    {
      hide SeriesHold, LogHolds, DirsHold, Registered, Engine.AddSeries, RecoverPoint, Entry.Points, Find;
      AddSeries(e.name);
      FoundAfterAdd(old(m), e.name);
      var i := FindSeries(e.name);
      ghost var added := m;
      var points := e.Points();
      for j := 0 to |points|
        invariant Valid() && walBuffer == [] && fresh(Repr() - old(Repr()))
        invariant i < |series| && i < |added.series| && m == RecoverPoints(added, i, points[..j])
      {
        assert points[..j + 1][..j] == points[..j];
        RecoverOne(i, points[j]);
      }
      assert points[..|points|] == points;
    }

    /** Loads the series directories in the order they are listed. */
    method LoadAll(listing: seq<Name>)
      requires Valid() && walBuffer == []
      modifies Repr()
      ensures Valid() && walBuffer == [] && fresh(Repr() - old(Repr()))
      ensures m == Load(old(m), listing)
    {
      hide SeriesHold, LogHolds, DirsHold, Registered, Engine.AddSeries;
      for k := 0 to |listing|
        invariant Valid() && walBuffer == [] && fresh(Repr() - old(Repr()))
        invariant m == Load(old(m), listing[..k])
      {
        assert listing[..k + 1][..k] == listing[..k];
        AddSeries(listing[k]);
      }
      assert listing[..|listing|] == listing;
    }

    method RecoverAll(es: seq<Entry>)
      requires Valid() && walBuffer == []
      modifies Repr()
      ensures Valid() && walBuffer == [] && fresh(Repr() - old(Repr()))
      ensures m == ReplayAll(old(m), es)
    {
      hide SeriesHold, LogHolds, DirsHold, Registered, ReplayEntry;
      for k := 0 to |es|
        invariant Valid() && walBuffer == [] && fresh(Repr() - old(Repr()))
        invariant m == ReplayAll(old(m), es[..k])
      {
        assert es[..k + 1][..k] == es[..k];
        RecoverRecord(es[k]);
      }
      assert es[..|es|] == es;
    }

    /**
     * Opens a directory: series are loaded, then the log is replayed up to a torn end, which stays in the file. A
     * damaged record makes the open fail.
     */
    static method Open(disk: Disk, listing: seq<Name>, ghost dirs: map<Name, Directory>, ghost log: seq<Entry>,
                       ghost rest: seq<byte>)
      returns (db: Database?)
      requires disk.wal == LogBytes(log) + rest && AllWellFormed(log) && ParseLog(rest).entries == []
      requires DirsHold(disk.dirs, dirs)
      modifies disk
      ensures db == null <==> ParseLog(rest).end.Damaged?
      ensures db != null ==> db.disk == disk && fresh(db.Repr() - {disk}) && db.Valid()
      ensures db != null ==> db.m == Engine.Open(dirs, log, rest, listing)
    {
      hide LogBytes, ParseLog, DirsHold, Load, ReplayAll, AllWellFormed, LogHolds, Registered, Database.SeriesHold,
           Database.SettingsHold;
      ParseAfter(log, rest);
      assert log + [] == log;
      var replay := ReplayLog(disk.wal);
      var loaded := new Database(disk, dirs, log, rest);
      loaded.LoadAll(listing);
      loaded.RecoverAll(replay.entries);
      db := if replay.end.Damaged? then null else loaded;
    }

    // -------------------------------------------------------------- settings and deletion

    /** Switching the durability mode writes out what is pending first. */
    method SetDurability(d: Durability)
      requires Valid()
      modifies this`walBuffer, this`m, this`durability, disk`wal
      ensures Valid() && m == Engine.SetDurability(old(m), d) && durability == d
      ensures disk.wal == old(disk.wal) + old(walBuffer) && walBuffer == [] && m.pending == []
    {
      hide SeriesHold, LogHolds, DirsHold, Registered;
      FlushLog();
      ghost var flushed := m;
      label L:
      durability := d;
      m := m.(durability := d);
      SeriesKept@L();
      LogIgnoresRest(disk.wal, walBuffer, flushed, m);
      SameNamesRegistered(flushed, m);
    }

    method SetQuota(limit: nat)
      requires Valid()
      modifies this`m, this`quota, this`exceeded
      ensures Valid() && m == old(m).(quota := limit, exceeded := false)
    {
      hide SeriesHold, LogHolds, DirsHold, Registered;
      quota, exceeded := limit, false;
      m := m.(quota := limit, exceeded := false);
      SeriesKept();
      LogIgnoresRest(disk.wal, walBuffer, old(m), m);
      SameNamesRegistered(old(m), m);
    }

    /** The objects behind a removed one move down. */
    twostate lemma SeriesRemoved(i: nat)
      requires old(SeriesHold()) && i < |old(series)| == |old(m).series|
      requires series == old(series)[..i] + old(series)[i + 1..]
      requires m.series == old(m).series[..i] + old(m).series[i + 1..]
      requires forall s :: s in series ==> unchanged(s) && unchanged(s.buffer)
      ensures SeriesHold()
    {
      hide SeriesObject.Valid, SeriesObject.Value;
      forall j | 0 <= j < |series|
        ensures series[j].Valid() && series[j].Value() == m.series[j]
      {
        var j' := if j < i then j else j + 1;
        assert series[j] == old(series)[j'] && m.series[j] == old(m).series[j'] && series[j] in series;
      }
      RemovedApart(i);
    }

    twostate lemma RemovedApart(i: nat)
      requires old(SeriesHold()) && i < |old(series)|
      requires series == old(series)[..i] + old(series)[i + 1..]
      ensures forall j, k :: 0 <= j < k < |series| ==> series[j] != series[k] && series[j].buffer != series[k].buffer
    {
      hide SeriesObject.Valid, SeriesObject.Value;
      forall j, k | 0 <= j < k < |series|
        ensures series[j] != series[k] && series[j].buffer != series[k].buffer
      {
        var j', k' := if j < i then j else j + 1, if k < i then k else k + 1;
        assert series[j] == old(series)[j'] && series[k] == old(series)[k'] && j' < k';
      }
    }

    /** Removes the directory of a series and closes the gap in the array. */
    method RemoveAt(i: nat)
      requires Valid() && i < |series|
      modifies this`series, this`m, disk`dirs
      ensures Valid() && i < |old(m).series| && m == DropSeries(old(m), i)
      ensures forall s :: s in series ==> s in old(series)
    {
      hide SeriesHold, LogHolds, DirsHold, Registered;
      SeriesAt(i);
      RemovedDirectory(disk.dirs, m.dirs, series[i].name);
      DroppedRegistered(m, i);
      disk.dirs := disk.dirs - {series[i].name};
      series := series[..i] + series[i + 1..];
      m := DropSeries(m, i);
      SeriesRemoved(i);
      LogIgnoresRest(disk.wal, walBuffer, old(m), m);
    }

    /** Flushes everything, so that no log record can bring the series back, then removes it. */
    method DeleteSeries(name: Name) returns (st: Status)
      requires Valid()
      modifies Repr()
      ensures Valid() && (m, st) == Engine.DeleteSeries(old(m), name)
      ensures fresh(Repr() - old(Repr()))
    {
      hide SeriesHold, LogHolds, DirsHold, Registered, Engine.FlushAll, DropSeries, Find;
      var i := FindSeries(name);
      if i == |series| {
        return NotFound;
      }
      st := FlushAll();
      SeriesCount();
      if st != Ok {
        return;
      }
      RemoveAt(i);
    }

    /** Unlinks the files whose bound is below the threshold. */
    method DeleteExpired(name: Name, bounds: seq<Bound>, t: i64, ghost dir: Directory) returns (deletedAny: bool)
      requires name in disk.dirs && FilesHold(disk.dirs[name], dir)
      modifies disk`dirs
      ensures name in disk.dirs && disk.dirs == old(disk.dirs)[name := disk.dirs[name]]
      ensures FilesHold(disk.dirs[name], dir - ExpiredAmong(bounds, t))
      ensures deletedAny <==> ExpiredAmong(bounds, t) != {}
    {
      hide FilesHold, ExpiredAmong;
      deletedAny := false;
      NothingExpiredYet(dir, t);
      for k := 0 to |bounds|
        invariant name in disk.dirs && disk.dirs == old(disk.dirs)[name := disk.dirs[name]]
        invariant FilesHold(disk.dirs[name], dir - ExpiredAmong(bounds[..k], t))
        invariant deletedAny <==> ExpiredAmong(bounds[..k], t) != {}
      {
        ExpiredNext(dir, bounds, k, t);
        if bounds[k].max >= t {
          continue;
        }
        FilesWithout(disk.dirs[name], dir - ExpiredAmong(bounds[..k], t), {bounds[k].id});
        disk.dirs := disk.dirs[name := disk.dirs[name] - {bounds[k].id}];
        deletedAny := true;
      }
      assert bounds[..|bounds|] == bounds;
    }

    /** Flushes the series, then deletes the segments whose newest point is older than the threshold. */
    method DeleteBefore(i: nat, t: i64) returns (st: Status)
      requires Valid() && i < |series|
      modifies Repr()
      ensures Valid() && series == old(series)
      ensures i < |old(m).series| && (m, st) == Engine.DeleteBefore(old(m), i, t)
    {
      hide SeriesHold, LogHolds, DirsHold, Registered, Engine.Flush, Expired, Rebuild;
      SeriesAt(i);
      st := Flush(i);
      SeriesAt(i);
      if st != Ok {
        return;
      }
      DropOld(i, t);
    }

    method DropOld(i: nat, t: i64)
      requires Valid() && i < |series|
      modifies this`m, disk`dirs, series[i]
      ensures Valid() && i < |old(m).series| && m == OldDropped(old(m), i, t)
    {
      hide SeriesHold, LogHolds, DirsHold, Registered, Rebuild, FilesHold, Bounds, ExpiredAmong;
      SeriesAt(i);
      ExpiredIs(m.series[i].index, t);
      if |series[i].index| == 0 {
        return;
      }
      RegisteredAt(m, i);
      var name := series[i].name;
      ghost var dir := m.dirs[name];
      DirAt(disk.dirs, m.dirs, name);
      var bounds := CollectBounds(series[i].index);
      var deletedAny := DeleteExpired(name, bounds, t, dir);
      ghost var left := dir - ExpiredAmong(bounds, t);
      DirsUpdated(old(disk.dirs), m.dirs, name, disk.dirs[name], left);
      if deletedAny {
        SeriesKept();
        RebuildOne(i, left);
        label L:
        m := m.(dirs := m.dirs[name := left]);
        SeriesKept@L();
        LogIgnoresRest(disk.wal, walBuffer, old(m), m);
        RebuildName(old(m).series[i], left);
        SameNamesRegistered(old(m), m);
      } else {
        assert left == dir && m.dirs[name := left] == m.dirs;
        SeriesKept();
      }
    }
  }

  function ExpiredAmong(bounds: seq<Bound>, t: i64): set<nat> {
    set b | b in bounds && b.max < t :: b.id
  }

  lemma ExpiredIs(index: seq<IndexEntry>, t: i64)
    ensures Expired(index, t) == ExpiredAmong(Bounds(index), t)
    ensures index == [] ==> Expired(index, t) == {}
  {}

  lemma NothingExpiredYet(dir: Directory, t: i64)
    ensures ExpiredAmong([], t) == {} && dir - {} == dir
  {}

  lemma ExpiredNext(dir: Directory, bounds: seq<Bound>, k: nat, t: i64)
    requires k < |bounds|
    ensures var now, next := ExpiredAmong(bounds[..k], t), ExpiredAmong(bounds[..k + 1], t);
            && next == (if bounds[k].max < t then now + {bounds[k].id} else now)
            && bounds[..0] == []
            && dir - next == if bounds[k].max < t then dir - now - {bounds[k].id} else dir - now
  {
    assert bounds[..k + 1] == bounds[..k] + [bounds[k]];
    var now, next := ExpiredAmong(bounds[..k], t), ExpiredAmong(bounds[..k + 1], t);
    forall id
      ensures id in next <==> id in now || (bounds[k].max < t && id == bounds[k].id)
    {
      if bounds[k].max < t {
        assert bounds[k] in bounds[..k + 1];
      }
      if id in now {
        var b :| b in bounds[..k] && b.max < t && b.id == id;
        assert b in bounds[..k + 1];
      }
    }
  }

  /** Retention on a series whose buffer is already on disk. */
  ghost function OldDropped(m: Model, i: nat, t: i64): Model
    requires i < |m.series|
  {
    var s := m.series[i];
    var gone := Expired(s.index, t);
    if gone == {} then m
    else
      var dir := DirOf(m.dirs, s.name) - gone;
      m.(dirs := m.dirs[s.name := dir], series := m.series[i := Rebuild(s, dir)])
  }

  lemma RemovedDirectory(files: map<Name, Files>, dirs: map<Name, Directory>, name: Name)
    requires DirsHold(files, dirs)
    ensures DirsHold(files - {name}, dirs - {name})
  {}

  lemma DroppedRegistered(m: Model, i: nat)
    requires Registered(m) && i < |m.series|
    ensures Registered(DropSeries(m, i))
  {
    var m' := DropSeries(m, i);
    assert forall j :: 0 <= j < |m'.series| ==> m'.series[j] == m.series[if j < i then j else j + 1];
  }

  lemma WriteEmpties(m: Model, i: nat)
    requires i < |m.series| && |m.series[i].buffer| <= BLOCK_MAX_POINTS
    ensures |WriteBlock(m, i).series| == |m.series| && WriteBlock(m, i).series[i].buffer == []
  {
    if ValidBlock(m.series[i].buffer) {
      FlushedIs(m.series[i], DirOf(m.dirs, m.series[i].name));
      hide FlushedSeries, FlushedDirectory;
    }
  }

  lemma FoundAfterAdd(m: Model, name: Name)
    ensures var m' := Engine.AddSeries(m, name); Find(m'.series, name) < |m'.series|
  {}

  /** Whatever a flush deletes elsewhere, it leaves its own buffer empty. */
  lemma FlushEmpties(m: Model, i: nat)
    requires i < |m.series| && |m.series[i].buffer| <= BLOCK_MAX_POINTS
    ensures Engine.Flush(m, i).0.series[i].buffer == []
  {
    hide TotalSize, Sort, Candidates, Doomed, Tracked, BufferEntries, RemoveFiles, Removed, Touched, DiscoverIds;
    if m.series[i].buffer != [] {
      FlushedIs(m.series[i], DirOf(m.dirs, m.series[i].name));
      hide FlushedSeries, FlushedDirectory;
      assert WriteBlock(m, i).series[i].buffer == [];
    }
  }

  function WithDir(dirs: map<Name, Directory>, name: Name): (r: map<Name, Directory>)
    ensures name in r
  {
    if name in dirs then dirs else dirs[name := map[]]
  }

  lemma DirMade(files: map<Name, Files>, dirs: map<Name, Directory>, name: Name)
    requires DirsHold(files, dirs)
    ensures DirsHold(if name in files then files else files[name := map[]], WithDir(dirs, name))
  {}

  lemma AddedIs(m: Model, name: Name)
    requires Find(m.series, name) == |m.series|
    ensures var s := Rebuild(Series(name, m.nextGeneration + 1, 1, [], [], []), WithDir(m.dirs, name)[name]);
            Engine.AddSeries(m, name)
            == m.(dirs := WithDir(m.dirs, name), series := m.series + [s], nextGeneration := m.nextGeneration + 1)
  {
    hide Rebuild;
  }

  lemma AddedRegistered(m: Model, name: Name)
    requires Registered(m)
    ensures Registered(Engine.AddSeries(m, name))
  {
    hide Rebuild;
    var k := Find(m.series, name);
    var m' := Engine.AddSeries(m, name);
    if k == |m.series| {
      RebuildName(Series(name, m.nextGeneration + 1, 1, [], [], []), DirOf(m'.dirs, name));
    }
  }

  lemma RebuildName(s: Series, dir: Directory)
    ensures Rebuild(s, dir).name == s.name
  {}

  lemma LogIgnoresRest(wal: seq<byte>, walBuffer: seq<byte>, m: Model, m': Model)
    requires m'.log == m.log && m'.pending == m.pending && m'.torn == m.torn && m'.kept == m.kept
    ensures LogHolds(wal, walBuffer, m) ==> LogHolds(wal, walBuffer, m')
  {
    hide LogBytes;
  }

  lemma RegisteredAt(m: Model, i: nat)
    requires Registered(m) && i < |m.series|
    ensures m.series[i].name in m.dirs && Find(m.series, m.series[i].name) == i
  {
    FindAt(m.series, i);
  }

  lemma RegisteredNames(m: Model)
    requires Registered(m)
    ensures DistinctNames(m.series)
  {}

  lemma SameNamesRegistered(m: Model, m': Model)
    requires Registered(m) && |m'.series| == |m.series| && m.dirs.Keys <= m'.dirs.Keys
    requires forall i :: 0 <= i < |m.series| ==> m'.series[i].name == m.series[i].name
    ensures Registered(m')
  {}

  lemma NextChunk(name: Name, ps: seq<Point>, offset: nat, chunk: nat)
    requires offset < |ps|
    requires chunk == if |ps| - offset > WAL_MAX_BATCH_POINTS then WAL_MAX_BATCH_POINTS else |ps| - offset
    ensures BatchEntries(name, ps[offset..])
            == [BatchV3(name, ps[offset..offset + chunk])] + BatchEntries(name, ps[offset + chunk..])
  {
    assert ps[offset..][..chunk] == ps[offset..offset + chunk];
    assert ps[offset..][chunk..] == ps[offset + chunk..];
  }

  lemma BufferSlice(buffer: array<Point>, count: nat, j: nat, chunk: nat)
    requires j + chunk <= count <= buffer.Length
    ensures buffer[j..j + chunk] == buffer[..count][j..j + chunk]
  {}

  /** One more batch record behind those already written. */
  lemma NextRecord(name: Name, ps: seq<Point>, offset: nat, chunk: nat, done: seq<Entry>)
    requires offset < |ps|
    requires chunk == if |ps| - offset > WAL_MAX_BATCH_POINTS then WAL_MAX_BATCH_POINTS else |ps| - offset
    ensures var e := BatchV3(name, ps[offset..offset + chunk]);
            && LogBytes(done + [e]) == LogBytes(done) + EntryBytes(e)
            && done + [e] + BatchEntries(name, ps[offset + chunk..]) == done + BatchEntries(name, ps[offset..])
  {
    hide EntryBytes, LogBytes, BatchEntries;
    var e := BatchV3(name, ps[offset..offset + chunk]);
    NextChunk(name, ps, offset, chunk);
    Associative(done, [e], BatchEntries(name, ps[offset + chunk..]));
    LogBytesConcat(done, [e]);
    OneRecord(e);
  }

  lemma NoRecords()
    ensures LogBytes(BufferEntries([])) == []
  {}

  lemma BufferEntriesPush(series: seq<Series>, i: nat)
    requires i < |series|
    ensures BufferEntries(series[..i + 1])
            == BufferEntries(series[..i]) + BatchEntries(series[i].name, series[i].buffer)
  {
    assert series[..i + 1][..i] == series[..i];
  }

  lemma NoChunk(m: Model, name: Name)
    ensures BatchEntries(name, []) == [] && WalAppendAll(m, []) == m
  {}

  lemma AppendAllPush(m: Model, es: seq<Entry>, e: Entry)
    ensures WalAppendAll(m, es + [e]) == WalAppend(WalAppendAll(m, es), e)
  {
    assert (es + [e])[..|es|] == es;
  }

  lemma DirAt(files: map<Name, Files>, dirs: map<Name, Directory>, name: Name)
    requires DirsHold(files, dirs) && name in dirs
    ensures name in files && FilesHold(files[name], dirs[name])
  {}

  lemma DirsUpdated(files: map<Name, Files>, dirs: map<Name, Directory>, name: Name, f: Files, dir: Directory)
    requires DirsHold(files, dirs) && FilesHold(f, dir)
    ensures DirsHold(files[name := f], dirs[name := dir])
  {
    hide FilesHold;
  }

  /** The bytes of a file and their number; a file that does not exist counts as empty. */
  lemma BytesOfFile(files: Files, dir: Directory, id: nat)
    requires FilesHold(files, dir)
    ensures (if id in files then files[id] else []) == SegmentBytes(Blocks(dir, id))
    ensures |SegmentBytes(Blocks(dir, id))| == SegmentSize(Blocks(dir, id))
  {
    hide SegmentSize, BlockBytes, BlockSize;
  }

  lemma FileGrows(files: Files, dir: Directory, id: nat, b: Block)
    requires FilesHold(files, dir)
    ensures FilesHold(files[id := (if id in files then files[id] else []) + BlockBytes(b)],
                      dir[id := Blocks(dir, id) + [b]])
  {
    hide BlockBytes, SegmentBytes, SegmentSize;
    BytesOfFile(files, dir, id);
    BytesOfOneMore(Blocks(dir, id), b);
  }

  lemma BytesOfOneMore(bs: seq<Block>, b: Block)
    ensures SegmentBytes(bs + [b]) == SegmentBytes(bs) + BlockBytes(b)
  {
    hide BlockBytes;
    assert (bs + [b])[..|bs|] == bs && (bs + [b])[|bs|] == b;
  }

  lemma FlushedIs(s: Series, dir: Directory)
    requires ValidBlock(s.buffer)
    ensures var id := RotatedId(dir, s.activeId, BlockSize(s.buffer));
            && FlushedDirectory(s, dir) == dir[id := Blocks(dir, id) + [s.buffer]]
            && FlushedSeries(s, dir) == s.(activeId := id, segmentIds := AddId(s.segmentIds, id),
                 index := s.index + [EntryFor(id, SegmentSize(Blocks(dir, id)), s.buffer)], buffer := [])
  {}

  /** The segment the next block goes to. */
  method Rotate(files: Files, activeId: nat, blockSize: nat, ghost dir: Directory) returns (id: nat)
    requires FilesHold(files, dir)
    ensures id == RotatedId(dir, activeId, blockSize) && Rotates(files, activeId, blockSize, id)
  {
    hide SegmentSize, SegmentBytes, FilesHold;
    BytesOfFile(files, dir, activeId);
    var activeSize := if activeId in files then |files[activeId]| else 0;
    if activeSize == 0 {
      return activeId;
    }
    if activeSize + blockSize <= SEGMENT_MAX_BYTES {
      return activeId;
    }
    id := activeId + 1;
  }

  lemma LogFileSize(wal: seq<byte>, walBuffer: seq<byte>, m: Model)
    requires LogHolds(wal, walBuffer, m)
    ensures |wal| == LogSize(m.log) + |m.torn|
  {
    hide LogBytes, LogSize;
    assert m.log == m.log[..m.kept] + m.log[m.kept..];
    LogBytesConcat(m.log[..m.kept], m.log[m.kept..]);
    LogBytesSize(m.log);
  }

  lemma {:induction false} CandidateIndexes(series: seq<Series>, dirs: map<Name, Directory>, n: nat)
    requires n <= |series|
    ensures forall c :: c in Candidates(series, dirs, n) ==> c.seriesIndex < n
  {
    hide Bounds, CandidatesOf;
    if n > 0 {
      CandidateIndexes(series, dirs, n - 1);
      CandidateIndex(series[n - 1], DirOf(dirs, series[n - 1].name), n - 1, Bounds(series[n - 1].index));
    }
  }

  lemma {:induction false} CandidateIndex(s: Series, dir: Directory, i: nat, bounds: seq<Bound>)
    ensures forall c :: c in CandidatesOf(bounds, s.activeId, dir, i) ==> c.seriesIndex == i
  {
    if bounds != [] {
      CandidateIndex(s, dir, i, bounds[..|bounds| - 1]);
    }
  }

  lemma SortedIndexes(cs: seq<Candidate>, n: nat)
    requires forall c :: c in cs ==> c.seriesIndex < n
    ensures forall c :: c in Sort(cs) ==> c.seriesIndex < n
  {
    hide Sort;
    MultisetMember(Sort(cs), cs);
  }

  lemma NothingDoomed(cs: seq<Candidate>, size: nat, limit: nat)
    ensures cs[0..] == cs && cs[..0] == [] && Tracked([], size) == size
  {}

  lemma NextDoomed(cs: seq<Candidate>, k: nat, size: nat, left: nat, limit: nat)
    requires k < |cs| && left > limit && left == Tracked(cs[..k], size)
    ensures cs[..k + 1] == cs[..k] + [cs[k]]
    ensures var left' := if left > cs[k].size then left - cs[k].size else 0;
            && Doomed(cs[k..], left, limit) == 1 + Doomed(cs[k + 1..], left', limit)
            && Tracked(cs[..k + 1], size) == left'
  {
    assert cs[k..][1..] == cs[k + 1..] && cs[..k + 1][..k] == cs[..k];
  }

  lemma LastDoomed(cs: seq<Candidate>, k: nat, left: nat, limit: nat)
    requires k <= |cs| && (k == |cs| || left <= limit)
    ensures Doomed(cs[k..], left, limit) == 0
  {}

  lemma NothingTouched(n: nat)
    ensures forall i :: 0 <= i < n ==> !Touched([], i)
  {}

  lemma TouchedOneMore(victims: seq<Candidate>, v: Candidate, n: nat)
    ensures forall i :: 0 <= i < n ==> (Touched(victims + [v], i) <==> Touched(victims, i) || i == v.seriesIndex)
  {
    forall i | 0 <= i < n
      ensures Touched(victims + [v], i) <==> Touched(victims, i) || i == v.seriesIndex
    {
      assert v in victims + [v];
      if Touched(victims, i) {
        var w :| w in victims && w.seriesIndex == i;
        assert w in victims + [v];
      }
    }
  }

  lemma FilesWithout(files: Files, dir: Directory, gone: set<nat>)
    requires FilesHold(files, dir)
    ensures FilesHold(files - gone, dir - gone)
  {}

  /** Unlinking one more file leaves the directories without one more victim. */
  lemma RemoveOneMore(files: map<Name, Files>, m: Model, victims: seq<Candidate>, v: Candidate)
    requires Registered(m) && v.seriesIndex < |m.series|
    requires DirsHold(files, RemoveFiles(m.dirs, m.series, victims))
    ensures m.series[v.seriesIndex].name in files
    ensures var name := m.series[v.seriesIndex].name;
            DirsHold(files[name := files[name] - {v.segmentId}], RemoveFiles(m.dirs, m.series, victims + [v]))
  {
    hide FilesHold, RemoveFiles, Registered;
    var name := m.series[v.seriesIndex].name;
    var before := RemoveFiles(m.dirs, m.series, victims);
    RegisteredAt(m, v.seriesIndex);
    RegisteredNames(m);
    OneVictimRemoved(m, victims, v);
    DirAt(files, before, name);
    FilesWithout(files[name], before[name], {v.segmentId});
    DirsUpdated(files, before, name, files[name] - {v.segmentId}, before[name] - {v.segmentId});
  }

  /** The records when the first `n` series have been looked at. */
  ghost function Rebuilt(series: seq<Series>, dirs: map<Name, Directory>, victims: seq<Candidate>, n: nat): seq<Series>
    requires n <= |series|
  {
    RebuildTouched(series, dirs, victims)[..n] + series[n..]
  }

  lemma RebuiltStart(series: seq<Series>, dirs: map<Name, Directory>, victims: seq<Candidate>)
    ensures Rebuilt(series, dirs, victims, 0) == series
    ensures Rebuilt(series, dirs, victims, |series|) == RebuildTouched(series, dirs, victims)
  {
    hide Rebuild;
  }

  lemma RebuiltNext(series: seq<Series>, dirs: map<Name, Directory>, victims: seq<Candidate>, i: nat)
    requires i < |series|
    ensures var before := Rebuilt(series, dirs, victims, i);
            && |before| == |series| && before[i] == series[i]
            && Rebuilt(series, dirs, victims, i + 1) ==
               if Touched(victims, i) then before[i := Rebuild(series[i], DirOf(dirs, series[i].name))] else before
  {
    hide Rebuild, Touched;
  }

  lemma KeptDirectory(m: Model, victims: seq<Candidate>, i: nat)
    requires Registered(m) && i < |m.series|
    ensures var dirs := RemoveFiles(m.dirs, m.series, victims);
            m.series[i].name in dirs && DirOf(dirs, m.series[i].name) == dirs[m.series[i].name]
  {}

  lemma WithoutRegistered(m: Model, victims: seq<Candidate>, flag: bool)
    requires Registered(m)
    ensures Registered(Without(m, victims).(exceeded := flag))
  {
    SameNamesRegistered(m, Without(m, victims).(exceeded := flag));
  }
}
