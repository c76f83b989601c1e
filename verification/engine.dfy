/** The operations of the engine as steps of a state machine (src/core/series.c, src/core/db.c, src/storage/wal.c). */
module Engine {
  import opened Wire
  import opened Config
  import opened Codec
  import opened Segments
  import opened WalFormat
  import opened State
  import opened Quota

  // ---------------------------------------------------------------- log

  function FlushThreshold(d: Durability): nat {
    if d.Balanced? then WAL_BALANCED_FLUSH_BYTES else WAL_BUFFER_BYTES
  }

  function Min(a: nat, b: nat): nat {
    if a < b then a else b
  }

  /** The records in front of a torn one, if there is one. */
  function Front(m: Model): nat {
    Min(m.kept, |m.log|)
  }

  /** The bytes of wal.log. */
  function WalBytes(m: Model): seq<byte> {
    LogBytes(m.log[..Front(m)]) + m.torn + LogBytes(m.log[Front(m)..])
  }

  predicate TearOk(m: Model) {
    m.kept <= |m.log| && (m.torn == [] ==> m.kept == 0)
  }

  /** The records a replay of wal.log reaches: those in front of a torn one. */
  function Recoverable(m: Model): seq<Entry> {
    if m.torn == [] then m.log else m.log[..Front(m)]
  }

  /** What lies behind them. */
  function Unreachable(m: Model): seq<byte> {
    if m.torn == [] then [] else m.torn + LogBytes(m.log[Front(m)..])
  }

  /** All records of accepted points, on disk or not, oldest first. */
  function Journal(m: Model): seq<Entry> {
    m.log + m.pending
  }

  /** The same state up to where the boundary between log file and log buffer lies, and `es` more records. */
  predicate Logged(m: Model, m': Model, es: seq<Entry>) {
    m' == m.(log := m'.log, pending := m'.pending) && Journal(m') == Journal(m) + es
  }

  /** Moves the pending records to the log file. */
  function WalFlush(m: Model): (m': Model)
    ensures Logged(m, m', [])
  {
    m.(log := m.log + m.pending, pending := [])
  }

  /** Buffers one record, flushing first when the buffer would grow past its threshold. */
  function WalAppend(m: Model, e: Entry): (m': Model)
    ensures Logged(m, m', [e])
  {
    var full := m.pending != [] && LogSize(m.pending) + e.Size() > FlushThreshold(m.durability);
    var m1 := if full then WalFlush(m) else m;
    m1.(pending := m1.pending + [e])
  }

  function WalAppendAll(m: Model, es: seq<Entry>): (m': Model)
    ensures Logged(m, m', es)
  {
    if es == [] then m
    else
      assert es == es[..|es| - 1] + [es[|es| - 1]];
      WalAppend(WalAppendAll(m, es[..|es| - 1]), es[|es| - 1])
  }

  function WalSettle(m: Model): (m': Model)
    ensures Logged(m, m', [])
    ensures m.durability.Strict? ==> m'.pending == []
  {
    if m.durability.Strict? then WalFlush(m) else m
  }

  function WalAppendPoint(m: Model, name: Name, p: Point): (m': Model)
    ensures Logged(m, m', [PointV3(name, p)])
    ensures m.durability.Strict? ==> m'.pending == []
  {
    WalSettle(WalAppend(m, PointV3(name, p)))
  }

  function WalAppendBatch(m: Model, name: Name, ps: seq<Point>): (m': Model)
    ensures Logged(m, m', BatchEntries(name, ps))
    ensures m.durability.Strict? && ps != [] ==> m'.pending == []
  {
    if ps == [] then m else WalSettle(WalAppendAll(m, BatchEntries(name, ps)))
  }

  /** Rewrites the log so that it holds exactly the points still buffered. */
  function TruncateLog(m: Model): Model {
    m.(log := BufferEntries(m.series), pending := [], torn := [], kept := 0)
  }

  // ---------------------------------------------------------------- flush

  /** The segment the next block goes to: never empty placeholders, never a block split over two files. */
  function RotatedId(dir: Directory, activeId: nat, blockSize: nat): nat {
    var size := SegmentSize(Blocks(dir, activeId));
    if size == 0 || size + blockSize <= SEGMENT_MAX_BYTES then activeId else activeId + 1
  }

  function AddId(ids: seq<nat>, id: nat): seq<nat> {
    if id in ids then ids else ids + [id]
  }

  /** The series record after its buffer has become a block of `dir`. */
  function FlushedSeries(s: Series, dir: Directory): Series
    requires ValidBlock(s.buffer)
  {
    var id := RotatedId(dir, s.activeId, BlockSize(s.buffer));
    s.(activeId := id,
       segmentIds := AddId(s.segmentIds, id),
       index := s.index + [EntryFor(id, SegmentSize(Blocks(dir, id)), s.buffer)],
       buffer := [])
  }

  function FlushedDirectory(s: Series, dir: Directory): Directory
    requires ValidBlock(s.buffer)
  {
    var id := RotatedId(dir, s.activeId, BlockSize(s.buffer));
    dir[id := Blocks(dir, id) + [s.buffer]]
  }

  /** Writes the log and turns the buffer of series `i` into a block; the log is not truncated yet. */
  function WriteBlock(m: Model, i: nat): Model
    requires i < |m.series|
  {
    var s := m.series[i];
    if !ValidBlock(s.buffer) then m
    else
      var dir := DirOf(m.dirs, s.name);
      WalFlush(m).(dirs := m.dirs[s.name := FlushedDirectory(s, dir)],
                   series := m.series[i := FlushedSeries(s, dir)])
  }

  ghost function Flush(m: Model, i: nat): (Model, Status)
    requires i < |m.series|
  {
    if m.series[i].buffer == [] then (m, Ok) else Enforce(TruncateLog(WriteBlock(m, i)))
  }

  function WriteBlocks(m: Model, n: nat): (m': Model)
    requires n <= |m.series|
    ensures |m'.series| == |m.series|
  {
    if n == 0 then m else WriteBlock(WriteBlocks(m, n - 1), n - 1)
  }

  ghost function FlushAll(m: Model): (Model, Status) {
    Enforce(TruncateLog(WriteBlocks(m, |m.series|)))
  }

  // ---------------------------------------------------------------- append

  function Push(m: Model, i: nat, ps: seq<Point>): Model
    requires i < |m.series|
  {
    m.(series := m.series[i := m.series[i].(buffer := m.series[i].buffer + ps)])
  }

  ghost function MakeRoom(m: Model, i: nat): (r: (Model, Status))
    requires i < |m.series|
    ensures |r.0.series| == |m.series|
  {
    if |m.series[i].buffer| >= BLOCK_MAX_POINTS then Flush(m, i) else (m, Ok)
  }

  ghost function AppendPoint(m: Model, i: nat, p: Point): (r: (Model, Status))
    requires i < |m.series|
    ensures |r.0.series| == |m.series|
  {
    var (m1, st) := MakeRoom(m, i);
    if st != Ok then (m1, st)
    else (Push(WalAppendPoint(m1, m1.series[i].name, p), i, [p]), Ok)
  }

  /** How many of `n` points the buffer of series `i` takes at once. */
  function Chunk(m: Model, i: nat, n: nat): nat
    requires i < |m.series|
  {
    var free := BLOCK_MAX_POINTS - |m.series[i].buffer|;
    if free <= 0 then 0 else if n > free then free else n
  }

  ghost function AppendBatch(m: Model, i: nat, ps: seq<Point>): (r: (Model, Status))
    requires i < |m.series|
    ensures |r.0.series| == |m.series|
    decreases |ps|
  {
    if ps == [] then (m, Ok)
    else
      var (m1, st) := MakeRoom(m, i);
      if st != Ok then (m1, st)
      else
        var n := Chunk(m1, i, |ps|);
        if n == 0 then (m1, st)
        else
          AppendBatch(Push(WalAppendBatch(m1, m1.series[i].name, ps[..n]), i, ps[..n]), i, ps[n..])
  }

  // ---------------------------------------------------------------- registry, open and replay

  /** Registers a series, loading whatever its directory holds; a known name is left alone. */
  ghost function AddSeries(m: Model, name: Name): (m': Model)
    ensures Find(m'.series, name) < |m'.series|
  {
    if Find(m.series, name) < |m.series| then m
    else
      var dirs := if name in m.dirs then m.dirs else m.dirs[name := map[]];
      var s := Rebuild(Series(name, m.nextGeneration + 1, 1, [], [], []), dirs[name]);
      var series := m.series + [s];
      assert series[|m.series|].name == name;
      m.(dirs := dirs, series := series, nextGeneration := m.nextGeneration + 1)
  }

  /** Buffers a replayed point; only a full buffer is flushed, and without touching the log. */
  function RecoverPoint(m: Model, i: nat, p: Point): (m': Model)
    requires i < |m.series|
    ensures |m'.series| == |m.series|
  {
    Push(if |m.series[i].buffer| >= BLOCK_MAX_POINTS then WriteBlock(m, i) else m, i, [p])
  }

  function RecoverPoints(m: Model, i: nat, ps: seq<Point>): (m': Model)
    requires i < |m.series|
    ensures |m'.series| == |m.series|
  {
    if ps == [] then m else RecoverPoint(RecoverPoints(m, i, ps[..|ps| - 1]), i, ps[|ps| - 1])
  }

  ghost function ReplayEntry(m: Model, e: Entry): Model {
    var m1 := AddSeries(m, e.name);
    RecoverPoints(m1, Find(m1.series, e.name), e.Points())
  }

  ghost function ReplayAll(m: Model, es: seq<Entry>): Model {
    if es == [] then m else ReplayEntry(ReplayAll(m, es[..|es| - 1]), es[|es| - 1])
  }

  ghost function Load(m: Model, names: seq<Name>): Model {
    if names == [] then m else AddSeries(Load(m, names[..|names| - 1]), names[|names| - 1])
  }

  /** A freshly opened database before anything is loaded; `rest` is what a replay of the log will not reach. */
  function Fresh(dirs: map<Name, Directory>, log: seq<Entry>, rest: seq<byte>): Model {
    Model(log, [], rest, if rest == [] then 0 else |log|, dirs, Strict, [], 0, 0, false)
  }

  /** Loads the series directories in the order the file system lists them, then replays the log. */
  ghost function Open(dirs: map<Name, Directory>, log: seq<Entry>, rest: seq<byte>, listing: seq<Name>): Model {
    ReplayAll(Load(Fresh(dirs, log, rest), listing), log)
  }

  ghost predicate Lists(listing: seq<Name>, dirs: map<Name, Directory>) {
    && (forall n :: n in listing <==> n in dirs)
    && (forall i, j :: 0 <= i < j < |listing| ==> listing[i] != listing[j])
  }

  /** An open of what is on the disk succeeds. */
  predicate Legible(m: Model) {
    m.torn != [] ==> ParseLog(Unreachable(m)) == Replay([], Torn)
  }

  /** The process dies: only the directories and the log file survive. */
  ghost function Crash(m: Model, listing: seq<Name>): Model {
    Open(m.dirs, Recoverable(m), Unreachable(m), listing)
  }

  /** Records are on their way to the log file when the process dies, and `cut` bytes of them get there. */
  function Written(m: Model, es: seq<Entry>, cut: nat): Model {
    var bytes := LogBytes(es)[..Min(cut, |LogBytes(es)|)];
    if m.torn == [] then
      var k := WholeEntries(es, |bytes|);
      WholeBytes(es, |bytes|);
      var rest := bytes[|LogBytes(es[..k])|..];
      m.(log := m.log + es[..k], pending := [], torn := rest, kept := if rest == [] then 0 else |m.log| + k)
    else m.(log := m.log[..Front(m)], pending := [], torn := Unreachable(m) + bytes)
  }

  lemma WholeBytes(es: seq<Entry>, cut: nat)
    requires cut <= |LogBytes(es)|
    ensures |LogBytes(es[..WholeEntries(es, cut)])| <= cut
  {
    WholeEntriesIsLargest(es, cut);
    LogBytesSize(es[..WholeEntries(es, cut)]);
  }

  lemma NoBytes()
    ensures LogBytes([]) == []
  {}

  lemma WholeFile(m: Model)
    requires TearOk(m) && m.torn == []
    ensures WalBytes(m) == LogBytes(m.log) && Recoverable(m) == m.log && Legible(m)
  {
    NoBytes();
    assert m.log[..0] == [] && m.log[0..] == m.log;
    hide LogBytes;
  }

  lemma TornFile(m: Model)
    requires m.kept == |m.log| && m.torn != []
    ensures WalBytes(m) == LogBytes(m.log) + m.torn && Recoverable(m) == m.log && Unreachable(m) == m.torn
  {
    NoBytes();
    assert m.log[..|m.log|] == m.log && m.log[|m.log|..] == [];
    hide LogBytes;
    assert LogBytes(m.log) + m.torn + [] == LogBytes(m.log) + m.torn && m.torn + [] == m.torn;
  }

  ghost function Reopen(m: Model, listing: seq<Name>): Model {
    var closed := FlushAll(m).0;
    Open(closed.dirs, closed.log, [], listing)
  }

  function SetDurability(m: Model, d: Durability): Model {
    WalFlush(m).(durability := d)
  }

  // ---------------------------------------------------------------- deletion

  function DropSeries(m: Model, i: nat): Model
    requires i < |m.series|
  {
    m.(dirs := m.dirs - {m.series[i].name}, series := m.series[..i] + m.series[i + 1..])
  }

  ghost function DeleteSeries(m: Model, name: Name): (Model, Status) {
    var i := Find(m.series, name);
    if i == |m.series| then (m, NotFound)
    else
      var (m1, st) := FlushAll(m);
      if st != Ok || i >= |m1.series| then (m1, st) else (DropSeries(m1, i), Ok)
  }

  /** The files all of whose blocks end before `t`, judged by the index alone. */
  function Expired(index: seq<IndexEntry>, t: i64): set<nat> {
    set b | b in Bounds(index) && b.max < t :: b.id
  }

  ghost function DeleteBefore(m: Model, i: nat, t: i64): (Model, Status)
    requires i < |m.series|
  {
    var (m1, st) := Flush(m, i);
    if st != Ok || i >= |m1.series| then (m1, st)
    else
      var s := m1.series[i];
      var gone := Expired(s.index, t);
      if gone == {} then (m1, Ok)
      else
        var dir := DirOf(m1.dirs, s.name) - gone;
        (m1.(dirs := m1.dirs[s.name := dir], series := m1.series[i := Rebuild(s, dir)]), Ok)
  }
}
