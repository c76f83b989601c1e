/** The record format of the write-ahead log and the two readers of it (src/storage/wal.c). */
module WalFormat {
  import opened Wire
  import opened Config
  import opened Codec
  import opened Segments

  const WAL_MAGIC := 0x57455354
  const RECORD_POINT := 1
  const RECORD_BATCH := 2
  const PREFIX_SIZE := 12
  const MIN_ENTRY_SIZE := 37
  const MAX_ENTRY_SIZE := 283 + 16 * WAL_MAX_BATCH_POINTS

  predicate ValidNameBytes(s: seq<byte>) {
    1 <= |s| <= MAX_SERIES_NAME && forall i :: 0 <= i < |s| ==> s[i] != 47 && s[i] != 92
  }

  /** A series name: no slash, no backslash, and, being a C string, no NUL. */
  type Name = s: seq<byte> | ValidNameBytes(s) && 0 !in s witness [65]

  /** One log record. Records of version 2 are no longer written but still replayed. */
  datatype Entry =
    | PointV2(name: Name, point: Point)
    | PointV3(name: Name, point: Point)
    | BatchV3(name: Name, batch: seq<Point>)
  {
    predicate WellFormed() {
      BatchV3? ==> 1 <= |batch| <= WAL_MAX_BATCH_POINTS
    }

    function Points(): seq<Point> {
      if BatchV3? then batch else [point]
    }

    function Size(): (n: nat)
      ensures n >= MIN_ENTRY_SIZE - 9
    {
      match this
      case PointV2(_, _) => 36 + |name|
      case PointV3(_, _) => 40 + |name|
      case BatchV3(_, _) => 28 + |name| + 16 * |batch|
    }
  }

  // ---------------------------------------------------------------- encoding

  /** FNV-1a over a byte string. */
  function Fnv(s: seq<byte>): u32 {
    if s == [] then 2166136261
    else Xor(Fnv(s[..|s| - 1]), s[|s| - 1]) * 16777619 % 0x1_0000_0000
  }

  function PointBytes(ps: seq<Point>): (s: seq<byte>)
    ensures |s| == 16 * |ps|
  {
    if ps == [] then []
    else Le(ToU64(ps[0].timestamp), 8) + (Le(ps[0].bits, 8) + PointBytes(ps[1..]))
  }

  function Tail(e: Entry): seq<byte> {
    match e
    case PointV2(name, p) =>
      Le(|name|, 4) + (Le(ToU64(p.timestamp), 8) + (Le(p.bits, 8) + name))
    case PointV3(name, p) =>
      Le(RECORD_POINT, 4) + (Le(|name|, 4) + (Le(ToU64(p.timestamp), 8) + (Le(p.bits, 8) + name)))
    case BatchV3(name, ps) =>
      Le(RECORD_BATCH, 4) + (Le(|name|, 4) + (Le(|ps|, 4) + (name + PointBytes(ps))))
  }

  /** Everything the checksum covers. */
  function Body(e: Entry): (s: seq<byte>)
    ensures |s| == e.Size() - 4
  {
    Le(WAL_MAGIC, 4) + (Le(if e.PointV2? then 2 else 3, 4) + (Le(e.Size(), 4) + Tail(e)))
  }

  function EntryBytes(e: Entry): (s: seq<byte>)
    ensures |s| == e.Size()
  {
    Body(e) + Le(Fnv(Body(e)), 4)
  }

  function LogBytes(es: seq<Entry>): seq<byte> {
    if es == [] then [] else EntryBytes(es[0]) + LogBytes(es[1..])
  }

  function LogSize(es: seq<Entry>): nat {
    if es == [] then 0 else es[0].Size() + LogSize(es[1..])
  }

  lemma {:induction false} LogBytesSize(es: seq<Entry>)
    ensures |LogBytes(es)| == LogSize(es)
  {
    if es != [] {
      LogBytesSize(es[1..]);
    }
  }

  lemma {:induction false} LogBytesConcat(a: seq<Entry>, b: seq<Entry>)
    ensures LogBytes(a + b) == LogBytes(a) + LogBytes(b)
    ensures LogSize(a + b) == LogSize(a) + LogSize(b)
  {
    hide EntryBytes, Entry.Size;
    if a == [] {
      assert a + b == b;
    } else {
      assert a + b == [a[0]] + (a[1..] + b) && a == [a[0]] + a[1..];
      LogBytesConcat(a[1..], b);
      LogOfCons(a[0], a[1..]);
      LogOfCons(a[0], a[1..] + b);
      hide LogBytes, LogSize;
      Associative(EntryBytes(a[0]), LogBytes(a[1..]), LogBytes(b));
    }
  }

  lemma LogOfCons(e: Entry, es: seq<Entry>)
    ensures LogBytes([e] + es) == EntryBytes(e) + LogBytes(es) && LogSize([e] + es) == e.Size() + LogSize(es)
  {
    hide EntryBytes, Entry.Size;
    assert ([e] + es)[1..] == es;
  }

  lemma OneRecord(e: Entry)
    ensures LogBytes([e]) == EntryBytes(e) && LogSize([e]) == e.Size()
  {
    hide EntryBytes;
    assert [e][1..] == [];
    assert EntryBytes(e) + [] == EntryBytes(e);
  }

  predicate AllWellFormed(es: seq<Entry>) {
    forall i :: 0 <= i < |es| ==> es[i].WellFormed()
  }

  // ---------------------------------------------------------------- decoding

  /** The checks made on one complete record, apart from those on its name. */
  predicate ValidEntryBytes(entry: seq<byte>)
    requires |entry| >= MIN_ENTRY_SIZE
  {
    && Word32At(entry, 0) == WAL_MAGIC
    && Word32At(entry, 8) == |entry|
    && (if Word32At(entry, 4) == 2 then
          1 <= Word32At(entry, 12) <= MAX_SERIES_NAME && |entry| == 36 + Word32At(entry, 12)
        else if Word32At(entry, 4) != 3 then false
        else if Word32At(entry, 12) == RECORD_POINT then
          1 <= Word32At(entry, 16) <= MAX_SERIES_NAME && |entry| == 40 + Word32At(entry, 16)
        else if Word32At(entry, 12) == RECORD_BATCH then
          && 1 <= Word32At(entry, 16) <= MAX_SERIES_NAME
          && 1 <= Word32At(entry, 20) <= WAL_MAX_BATCH_POINTS
          && |entry| == 28 + Word32At(entry, 16) + 16 * Word32At(entry, 20)
        else false)
    && Word32At(entry, |entry| - 4) == Fnv(entry[..|entry| - 4])
  }

  /** The C string at the start of a byte string. */
  function CString(s: seq<byte>): (r: seq<byte>)
    ensures 0 !in r && |r| <= |s|
    ensures 0 !in s ==> r == s
  {
    if s == [] || s[0] == 0 then [] else [s[0]] + CString(s[1..])
  }

  function ParsePoints(s: seq<byte>, at: nat, n: nat): (ps: seq<Point>)
    requires at + 16 * n <= |s|
    ensures |ps| == n
    decreases n
  {
    if n == 0 then []
    else [Point(ToI64(Word64At(s, at)), Word64At(s, at + 8))] + ParsePoints(s, at + 16, n - 1)
  }

  /** One complete record, or nothing when it is damaged. */
  function ParseEntry(entry: seq<byte>): (r: Option<Entry>)
    requires |entry| >= MIN_ENTRY_SIZE
    ensures r.Some? ==> ValidEntryBytes(entry) && r.value.WellFormed()
  {
    if !ValidEntryBytes(entry) then None
    else if Word32At(entry, 4) == 2 then
      var name := CString(entry[32..32 + Word32At(entry, 12)]);
      if !ValidNameBytes(name) then None
      else Some(PointV2(name, Point(ToI64(Word64At(entry, 16)), Word64At(entry, 24))))
    else if Word32At(entry, 12) == RECORD_POINT then
      var name := CString(entry[36..36 + Word32At(entry, 16)]);
      if !ValidNameBytes(name) then None
      else Some(PointV3(name, Point(ToI64(Word64At(entry, 20)), Word64At(entry, 28))))
    else
      var at := 24 + Word32At(entry, 16);
      var name := CString(entry[24..at]);
      if !ValidNameBytes(name) then None
      else Some(BatchV3(name, ParsePoints(entry, at, Word32At(entry, 20))))
  }

  /** How a replay ends: at the end of the file, inside a record, or at a record that does not check. */
  datatype End = Clean | Torn | Damaged

  datatype Replay = Replay(entries: seq<Entry>, end: End)

  function Cons(e: Entry, r: Replay): Replay {
    Replay([e] + r.entries, r.end)
  }

  /** Replays a log from its start: complete records in order, until one is torn or damaged. */
  function ParseLog(wal: seq<byte>): (r: Replay)
    ensures AllWellFormed(r.entries)
    decreases |wal|
  {
    if |wal| == 0 then Replay([], Clean)
    else if |wal| < PREFIX_SIZE then Replay([], Torn)
    else
      var size := Word32At(wal, 8);
      if size < MIN_ENTRY_SIZE || size > MAX_ENTRY_SIZE then Replay([], Damaged)
      else if |wal| < size then Replay([], Torn)
      else
        match ParseEntry(wal[..size])
        case None => Replay([], Damaged)
        case Some(e) => Cons(e, ParseLog(wal[size..]))
  }

  /** The strict scan of the verifier: the number of records, or nothing. */
  function VerifyLog(wal: seq<byte>): Option<nat>
    decreases |wal|
  {
    if |wal| == 0 then Some(0)
    else if |wal| < PREFIX_SIZE then None
    else
      var size := Word32At(wal, 8);
      if size < MIN_ENTRY_SIZE || size > MAX_ENTRY_SIZE || |wal| < size || !ValidEntryBytes(wal[..size]) then None
      else
        match VerifyLog(wal[size..])
        case None => None
        case Some(n) => Some(n + 1)
  }

  // ---------------------------------------------------------------- one record

  lemma WordOfPrefix(s: seq<byte>, n: nat, at: nat)
    requires n <= |s|
    ensures at + 4 <= n ==> Word32At(s[..n], at) == Word32At(s, at)
    ensures at + 8 <= n ==> Word64At(s[..n], at) == Word64At(s, at)
  {
    hide Unle;
    if at + 4 <= n {
      assert s[..n][at..at + 4] == s[at..at + 4];
    }
    if at + 8 <= n {
      assert s[..n][at..at + 8] == s[at..at + 8];
    }
  }

  lemma {:induction false} PointsRoundTrip(s: seq<byte>, at: nat, ps: seq<Point>, rest: seq<byte>)
    requires at <= |s| && s[at..] == PointBytes(ps) + rest
    ensures at + 16 * |ps| <= |s| && ParsePoints(s, at, |ps|) == ps
    decreases |ps|
  {
    hide Le, Word64At, ToI64, ToU64;
    if ps != [] {
      var more := PointBytes(ps[1..]) + rest;
      Associative(Le(ToU64(ps[0].timestamp), 8), Le(ps[0].bits, 8) + PointBytes(ps[1..]), rest);
      Associative(Le(ps[0].bits, 8), PointBytes(ps[1..]), rest);
      Field64(s, at, ToU64(ps[0].timestamp), Le(ps[0].bits, 8) + more);
      Field64(s, at + 8, ps[0].bits, more);
      SignedRoundTrip(ps[0].timestamp);
      PointsRoundTrip(s, at + 16, ps[1..], rest);
    }
  }

  lemma SizeFits(e: Entry)
    requires e.WellFormed()
    ensures MIN_ENTRY_SIZE <= e.Size() <= MAX_ENTRY_SIZE < 0x1_0000_0000
  {}

  /** The three words every record starts with, read from the record itself. */
  lemma PrefixWords(e: Entry)
    requires e.WellFormed()
    ensures Word32At(EntryBytes(e), 0) == WAL_MAGIC
    ensures Word32At(EntryBytes(e), 4) == if e.PointV2? then 2 else 3
    ensures Word32At(EntryBytes(e), 8) == e.Size()
    ensures Body(e)[12..] == Tail(e)
  {
    hide Le, Word32At, Tail, Fnv;
    SizeFits(e);
    var b := Body(e);
    var version: u32 := if e.PointV2? then 2 else 3;
    assert b[0..] == b;
    Field32(b, 0, WAL_MAGIC, Le(version, 4) + (Le(e.Size(), 4) + Tail(e)));
    Field32(b, 4, version, Le(e.Size(), 4) + Tail(e));
    Field32(b, 8, e.Size(), Tail(e));
    BodyIsPrefix(e);
    WordOfPrefix(EntryBytes(e), |b|, 0);
    WordOfPrefix(EntryBytes(e), |b|, 4);
    WordOfPrefix(EntryBytes(e), |b|, 8);
  }

  lemma BodyIsPrefix(e: Entry)
    ensures EntryBytes(e)[..e.Size() - 4] == Body(e)
    ensures e.WellFormed() ==> Word32At(EntryBytes(e), e.Size() - 4) == Fnv(Body(e))
  {
    hide Body, Fnv, Le;
    var s := EntryBytes(e);
    assert s[e.Size() - 4..] == Le(Fnv(Body(e)), 4) + [];
    Field32(s, e.Size() - 4, Fnv(Body(e)), []);
  }

  lemma NameFits(name: Name)
    ensures CString(name) == name && ValidNameBytes(name)
  {}

  lemma PointV2Parses(e: Entry)
    requires e.PointV2?
    ensures ParseEntry(EntryBytes(e)) == Some(e)
  {
    hide Le, Word32At, Word64At, Fnv, Body, EntryBytes, ToI64, ToU64, CString;
    PrefixWords(e);
    BodyIsPrefix(e);
    var b, s, p := Body(e), EntryBytes(e), e.point;
    var t3 := Le(p.bits, 8) + e.name;
    var t2 := Le(ToU64(p.timestamp), 8) + t3;
    Field32(b, 12, |e.name|, t2);
    Field64(b, 16, ToU64(p.timestamp), t3);
    Field64(b, 24, p.bits, e.name);
    WordOfPrefix(s, |b|, 12);
    WordOfPrefix(s, |b|, 16);
    WordOfPrefix(s, |b|, 24);
    assert s[32..32 + |e.name|] == b[32..] == e.name;
    SignedRoundTrip(p.timestamp);
    NameFits(e.name);
  }

  lemma PointV3Parses(e: Entry)
    requires e.PointV3?
    ensures ParseEntry(EntryBytes(e)) == Some(e)
  {
    hide Le, Word32At, Word64At, Fnv, Body, EntryBytes, ToI64, ToU64, CString;
    PrefixWords(e);
    BodyIsPrefix(e);
    var b, s, p := Body(e), EntryBytes(e), e.point;
    var t3 := Le(p.bits, 8) + e.name;
    var t2 := Le(ToU64(p.timestamp), 8) + t3;
    var t1 := Le(|e.name|, 4) + t2;
    Field32(b, 12, RECORD_POINT, t1);
    Field32(b, 16, |e.name|, t2);
    Field64(b, 20, ToU64(p.timestamp), t3);
    Field64(b, 28, p.bits, e.name);
    WordOfPrefix(s, |b|, 12);
    WordOfPrefix(s, |b|, 16);
    WordOfPrefix(s, |b|, 20);
    WordOfPrefix(s, |b|, 28);
    assert s[36..36 + |e.name|] == b[36..] == e.name;
    SignedRoundTrip(p.timestamp);
    NameFits(e.name);
  }

  lemma BatchV3Parses(e: Entry)
    requires e.BatchV3? && e.WellFormed()
    ensures ParseEntry(EntryBytes(e)) == Some(e)
  {
    hide Le, Word32At, Fnv, Body, ToI64, ToU64, CString, PointBytes, ParsePoints;
    PrefixWords(e);
    BodyIsPrefix(e);
    var b, s, n, ps := Body(e), EntryBytes(e), |e.name|, e.batch;
    var ck := Le(Fnv(b), 4);
    assert s == b + ck;
    hide EntryBytes;
    var t3 := e.name + PointBytes(ps);
    var t2 := Le(|ps|, 4) + t3;
    var t1 := Le(n, 4) + t2;
    Field32(b, 12, RECORD_BATCH, t1);
    Field32(b, 16, n, t2);
    Field32(b, 20, |ps|, t3);
    WordOfPrefix(s, |b|, 12);
    WordOfPrefix(s, |b|, 16);
    WordOfPrefix(s, |b|, 20);
    assert s[24..24 + n] == b[24..][..n] == e.name;
    assert s[24 + n..] == b[24..][n..] + ck == PointBytes(ps) + ck;
    PointsRoundTrip(s, 24 + n, ps, ck);
    NameFits(e.name);
  }

  /** Every record the engine or an older version of it can write is read back exactly. */
  lemma EntryRoundTrip(e: Entry)
    requires e.WellFormed()
    ensures ParseEntry(EntryBytes(e)) == Some(e)
  {
    match e
    case PointV2(_, _) => PointV2Parses(e);
    case PointV3(_, _) => PointV3Parses(e);
    case BatchV3(_, _) => BatchV3Parses(e);
  }

  // ---------------------------------------------------------------- whole and torn logs

  lemma FirstEntry(e: Entry, rest: seq<byte>)
    requires e.WellFormed()
    ensures var wal := EntryBytes(e) + rest;
            Word32At(wal, 8) == e.Size() && wal[..e.Size()] == EntryBytes(e) && wal[e.Size()..] == rest
  {
    hide EntryBytes, Word32At;
    var wal := EntryBytes(e) + rest;
    SizeFits(e);
    PrefixWords(e);
    assert wal[..e.Size()] == EntryBytes(e);
    WordOfPrefix(wal, e.Size(), 8);
  }

  lemma ParseCons(e: Entry, rest: seq<byte>)
    requires e.WellFormed()
    ensures ParseLog(EntryBytes(e) + rest) == Cons(e, ParseLog(rest))
    ensures VerifyLog(EntryBytes(e) + rest) == if VerifyLog(rest).None? then None else Some(VerifyLog(rest).value + 1)
  {
    hide EntryBytes, Word32At, ParseEntry, ValidEntryBytes;
    SizeFits(e);
    FirstEntry(e, rest);
    EntryRoundTrip(e);
  }

  /** Entries that lie wholly before a cut. */
  function WholeEntries(es: seq<Entry>, cut: nat): (k: nat)
    ensures k <= |es|
  {
    if es == [] || cut < es[0].Size() then 0 else 1 + WholeEntries(es[1..], cut - es[0].Size())
  }

  /** `WholeEntries` is the largest number of entries that fit before the cut. */
  lemma {:induction false} WholeEntriesIsLargest(es: seq<Entry>, cut: nat)
    ensures var k := WholeEntries(es, cut);
            LogSize(es[..k]) <= cut && (k < |es| ==> cut < LogSize(es[..k + 1]))
  {
    if es != [] && cut >= es[0].Size() {
      var k := WholeEntries(es[1..], cut - es[0].Size());
      WholeEntriesIsLargest(es[1..], cut - es[0].Size());
      assert es[..k + 1][1..] == es[1..][..k];
      if k < |es| - 1 {
        assert es[..k + 2][1..] == es[1..][..k + 1];
      }
    }
  }

  lemma TornEntry(e: Entry, cut: nat)
    requires e.WellFormed() && 0 < cut < e.Size()
    ensures ParseLog(EntryBytes(e)[..cut]) == Replay([], Torn) && VerifyLog(EntryBytes(e)[..cut]) == None
  {
    hide EntryBytes, Word32At, ParseEntry, ValidEntryBytes;
    SizeFits(e);
    PrefixWords(e);
    WordOfPrefix(EntryBytes(e), cut, 8);
  }

  /**
   * A log cut anywhere replays to exactly the entries that lie wholly before the cut, and the rest is
   * reported as torn unless the cut falls between two entries. The verifier accepts just the latter.
   */
  lemma {:induction false} TornTail(es: seq<Entry>, cut: nat)
    requires AllWellFormed(es) && cut <= LogSize(es)
    ensures |LogBytes(es)| == LogSize(es)
    ensures var k := WholeEntries(es, cut);
            var whole := cut == LogSize(es[..k]);
            && ParseLog(LogBytes(es)[..cut]) == Replay(es[..k], if whole then Clean else Torn)
            && VerifyLog(LogBytes(es)[..cut]) == (if whole then Some(k) else None)
  {
    hide EntryBytes, ParseLog, VerifyLog, Entry.WellFormed;
    LogBytesSize(es);
    if cut == 0 {
      EmptyLog();
      if es != [] {
        SizeFits(es[0]);
      }
    } else if cut < es[0].Size() {
      assert LogBytes(es)[..cut] == EntryBytes(es[0])[..cut];
      TornEntry(es[0], cut);
    } else {
      var e, rest := es[0], es[1..];
      var k := WholeEntries(rest, cut - e.Size());
      TornTail(rest, cut - e.Size());
      assert LogBytes(es)[..cut] == EntryBytes(e) + LogBytes(rest)[..cut - e.Size()];
      ParseCons(e, LogBytes(rest)[..cut - e.Size()]);
      assert es[..k + 1] == [e] + rest[..k] && es[..k + 1][1..] == rest[..k];
    }
  }

  lemma EmptyLog()
    ensures ParseLog([]) == Replay([], Clean) && VerifyLog([]) == Some(0)
  {}

  /** An uncut log replays completely, and the verifier counts its entries. */
  lemma WholeLog(es: seq<Entry>)
    requires AllWellFormed(es)
    ensures ParseLog(LogBytes(es)) == Replay(es, Clean) && VerifyLog(LogBytes(es)) == Some(|es|)
  {
    hide ParseLog, VerifyLog, LogBytes, WholeEntries, LogSize;
    TornTail(es, LogSize(es));
    WholeEntriesIsLargest(es, LogSize(es));
    var k := WholeEntries(es, LogSize(es));
    assert LogBytes(es)[..LogSize(es)] == LogBytes(es);
    if k < |es| {
      assert es == es[..k + 1] + es[k + 1..];
      LogBytesConcat(es[..k + 1], es[k + 1..]);
      assert false;
    }
    assert es[..k] == es;
  }

  /** Whatever the replay accepts to the end, the verifier accepts, with the same number of records. */
  lemma {:induction false} ReplayedLogVerifies(wal: seq<byte>)
    requires ParseLog(wal).end.Clean?
    ensures VerifyLog(wal) == Some(|ParseLog(wal).entries|)
    decreases |wal|
  {
    hide ParseEntry, ValidEntryBytes, Word32At;
    if |wal| > 0 {
      var size := Word32At(wal, 8);
      assert ParseEntry(wal[..size]).Some?;
      ReplayedLogVerifies(wal[size..]);
    }
  }

  lemma {:induction false} ParseAfter(es: seq<Entry>, rest: seq<byte>)
    requires AllWellFormed(es)
    ensures ParseLog(LogBytes(es) + rest) == Replay(es + ParseLog(rest).entries, ParseLog(rest).end)
  {
    hide EntryBytes, ParseLog, Entry.WellFormed;
    if es == [] {
      assert LogBytes(es) + rest == rest;
      assert es + ParseLog(rest).entries == ParseLog(rest).entries;
    } else {
      Associative(EntryBytes(es[0]), LogBytes(es[1..]), rest);
      ParseCons(es[0], LogBytes(es[1..]) + rest);
      ParseAfter(es[1..], rest);
      Associative([es[0]], es[1..], ParseLog(rest).entries);
      assert es == [es[0]] + es[1..];
    }
  }

  lemma Word32Bytes(s: seq<byte>, at: nat)
    requires at + 4 <= |s|
    ensures Word32At(s, at) ==
            s[at] as int + 0x100 * s[at + 1] as int + 0x1_0000 * s[at + 2] as int + 0x100_0000 * s[at + 3] as int
  {
    var w := s[at..at + 4];
    assert Unle(w[3..]) == w[3] by {
      assert w[3..][1..] == [];
    }
    assert Unle(w[2..]) == w[2] as int + 256 * Unle(w[3..]) by {
      assert w[2..][1..] == w[3..];
    }
    assert Unle(w[1..]) == w[1] as int + 256 * Unle(w[2..]) by {
      assert w[1..][1..] == w[2..];
    }
  }

  lemma MagicBytes(e: Entry)
    ensures EntryBytes(e)[..4] == [0x54, 0x53, 0x45, 0x57]
    ensures EntryBytes(e)[4] < 4 && EntryBytes(e)[5] == 0 && EntryBytes(e)[6] == 0 && EntryBytes(e)[7] == 0
  {
    var version := if e.PointV2? then 2 else 3;
    MagicWord();
    VersionWord(version);
    FirstWords(e, version);
    hide Le, EntryBytes;
    var s := EntryBytes(e);
    assert s[..4] == s[..8][..4] && s[4] == s[..8][4] && s[5] == s[..8][5] && s[6] == s[..8][6] && s[7] == s[..8][7];
  }

  lemma MagicWord()
    ensures Le(WAL_MAGIC, 4) == [0x54, 0x53, 0x45, 0x57]
  {
    assert Le(0x574553, 3) == [0x53, 0x45, 0x57] by {
      assert Le(0x5745, 2) == [0x45, 0x57] by {
        assert Le(0x57, 1) == [0x57];
      }
    }
  }

  lemma VersionWord(version: byte)
    ensures Le(version, 4) == [version, 0, 0, 0]
  {
    assert Le(0, 3) == [0, 0, 0] by {
      assert Le(0, 2) == [0, 0];
    }
  }

  lemma FirstWords(e: Entry, version: byte)
    requires version == if e.PointV2? then 2 else 3
    ensures |EntryBytes(e)| >= 8 && EntryBytes(e)[..8] == Le(WAL_MAGIC, 4) + Le(version, 4)
  {
    hide Le, Fnv, Tail;
  }

  // ---------------------------------------------------------------- records behind a torn end

  /** The bytes are still inside the record whose size the first twelve of them announce. */
  predicate Inside(wal: seq<byte>) {
    |wal| < PREFIX_SIZE || (MIN_ENTRY_SIZE <= Word32At(wal, 8) <= MAX_ENTRY_SIZE && |wal| < Word32At(wal, 8))
  }

  /** The announced record is complete and its checksum agrees. */
  predicate Sealed(wal: seq<byte>) {
    && |wal| >= PREFIX_SIZE && MIN_ENTRY_SIZE <= Word32At(wal, 8) <= MAX_ENTRY_SIZE && Word32At(wal, 8) <= |wal|
    && var size := Word32At(wal, 8); Word32At(wal, size - 4) == Fnv(wal[..size - 4])
  }

  /** A first record that is not read leaves nothing of the log, torn or damaged. */
  lemma UnsealedLog(wal: seq<byte>)
    requires wal != []
    ensures Inside(wal) ==> ParseLog(wal) == Replay([], Torn)
    ensures !Inside(wal) && !Sealed(wal) ==> ParseLog(wal) == Replay([], Damaged)
    ensures ParseLog(wal) == Replay([], Torn) ==> Inside(wal)
  {
    hide Word32At, Fnv, ParsePoints, Word64At, CString;
    if |wal| >= PREFIX_SIZE {
      var size := Word32At(wal, 8);
      if MIN_ENTRY_SIZE <= size <= MAX_ENTRY_SIZE && size <= |wal| {
        WordOfPrefix(wal, size, size - 4);
        assert wal[..size][..size - 4] == wal[..size - 4];
      }
    }
  }

  /** The first eight bytes of a record joined to the start of another one never begin a valid record. */
  lemma JoinedPrefix(e: Entry, tear: nat, first: Entry, more: seq<byte>)
    requires e.WellFormed() && first.WellFormed() && 1 <= tear < 8
    ensures tear <= |EntryBytes(e)|
    ensures var all := EntryBytes(e)[..tear] + (EntryBytes(first) + more);
            |all| >= PREFIX_SIZE && (Word32At(all, 0) != WAL_MAGIC || Word32At(all, 4) > 3)
  {
    hide EntryBytes, Word32At;
    SizeFits(e);
    SizeFits(first);
    var all := EntryBytes(e)[..tear] + (EntryBytes(first) + more);
    MagicBytes(e);
    MagicBytes(first);
    var m := EntryBytes(first)[..4];
    assert all[tear] == m[0] && all[tear + 1] == m[1] && all[tear + 2] == m[2] && all[tear + 3] == m[3];
    Word32Bytes(all, 0);
    Word32Bytes(all, 4);
    if tear < 4 {
      assert forall i :: 0 <= i < tear ==> all[i] == EntryBytes(e)[..4][i];
    }
  }

  lemma JoinedIsDamaged(e: Entry, tear: nat, first: Entry, more: seq<byte>)
    requires e.WellFormed() && first.WellFormed() && 1 <= tear < 8
    ensures tear <= |EntryBytes(e)|
    ensures var all := EntryBytes(e)[..tear] + (EntryBytes(first) + more);
            ParseLog(all) == Replay([], if Inside(all) then Torn else Damaged)
  {
    hide EntryBytes, Word32At, Fnv, ParsePoints, Word64At, CString;
    JoinedPrefix(e, tear, first, more);
    var all := EntryBytes(e)[..tear] + (EntryBytes(first) + more);
    UnsealedLog(all);
    if !Inside(all) {
      var size := Word32At(all, 8);
      if MIN_ENTRY_SIZE <= size <= MAX_ENTRY_SIZE {
        WordOfPrefix(all, size, 0);
        WordOfPrefix(all, size, 4);
      }
    }
  }

  /** Twelve bytes of a torn record announce its size whatever comes behind them. */
  lemma AnnouncedSize(e: Entry, tear: nat, more: seq<byte>)
    requires e.WellFormed() && PREFIX_SIZE <= tear < e.Size()
    ensures Word32At(EntryBytes(e)[..tear] + more, 8) == e.Size()
  {
    hide EntryBytes, Word32At;
    var all := EntryBytes(e)[..tear] + more;
    PrefixWords(e);
    WordOfPrefix(EntryBytes(e), tear, 8);
    WordOfPrefix(all, tear, 8);
    assert all[..tear] == EntryBytes(e)[..tear];
  }

  /**
   * Opening a log that ends in a torn record does not cut the torn bytes off, so later records are appended behind
   * them. Those records are replayed if and only if nothing was torn: otherwise the log is torn as long as all of it
   * is still inside the record that the joined bytes announce, and damaged from then on, so that the database can no
   * longer be opened. (The one exception is a checksum that agrees by accident with the joined bytes.)
   */
  lemma AppendedIsReplayedIffWhole(es: seq<Entry>, e: Entry, tear: nat, first: Entry, more: seq<byte>)
    requires AllWellFormed(es) && e.WellFormed() && first.WellFormed() && tear < e.Size()
    ensures var torn := EntryBytes(e)[..tear];
            var joined := torn + (EntryBytes(first) + more);
            && ParseLog(LogBytes(es) + torn) == Replay(es, if tear == 0 then Clean else Torn)
            && (tear == 0 ==>
                  ParseLog(LogBytes(es) + joined)
                  == Replay(es + [first] + ParseLog(more).entries, ParseLog(more).end))
            && (tear > 0 && (tear < 8 || !Sealed(joined)) ==>
                  ParseLog(LogBytes(es) + joined) == Replay(es, if Inside(joined) then Torn else Damaged))
            && (tear >= PREFIX_SIZE ==> (Inside(joined) <==> |joined| < e.Size()))
  {
    hide EntryBytes, LogBytes, ParseLog, Entry.WellFormed, Sealed;
    var torn := EntryBytes(e)[..tear];
    var joined := torn + (EntryBytes(first) + more);
    ParseAfter(es, torn);
    ParseAfter(es, joined);
    assert es + [] == es;
    if tear == 0 {
      EmptyLog();
      assert torn == [] && joined == EntryBytes(first) + more;
      ParseCons(first, more);
      Associative(es, [first], ParseLog(more).entries);
    } else {
      TornEntry(e, tear);
      UnsealedLog(joined);
      if tear < 8 {
        JoinedIsDamaged(e, tear, first, more);
      }
      if tear >= PREFIX_SIZE {
        AnnouncedSize(e, tear, EntryBytes(first) + more);
        SizeFits(e);
      }
    }
  }

  // ---------------------------------------------------------------- where the fields stand

  /** The fields of a point record. */
  lemma PointFields(name: Name, p: Point)
    ensures var s, n := EntryBytes(PointV3(name, p)), |name|;
            && |s| == 40 + n && s[..4] == Le(0x57455354, 4) && s[4..8] == Le(3, 4) && s[8..12] == Le(40 + n, 4)
            && s[12..16] == Le(1, 4) && s[16..20] == Le(n, 4)
            && s[20..28] == Le(ToU64(p.timestamp), 8) && s[28..36] == Le(p.bits, 8) && s[36..36 + n] == name
            && s[36 + n..] == Le(Fnv(s[..36 + n]), 4)
  {
    hide Le, Fnv, Body, EntryBytes;
    var e := PointV3(name, p);
    PointLayout(name, p);
    SealedEntry(e);
    var b := Body(e);
    assert EntryBytes(e)[..36 + |name|] == b;
    assert b[36..] == name && b[28..36] == Le(p.bits, 8) && b[20..28] == Le(ToU64(p.timestamp), 8);
  }

  lemma {:induction false} PointAt(ps: seq<Point>, j: nat)
    requires j < |ps|
    ensures PointBytes(ps)[16 * j..16 * j + 8] == Le(ToU64(ps[j].timestamp), 8)
    ensures PointBytes(ps)[16 * j + 8..16 * j + 16] == Le(ps[j].bits, 8)
  {
    hide Le;
    if j > 0 {
      PointAt(ps[1..], j - 1);
      var first, more := Le(ToU64(ps[0].timestamp), 8) + Le(ps[0].bits, 8), PointBytes(ps[1..]);
      assert PointBytes(ps) == first + more;
      assert (first + more)[16 * j..16 * j + 8] == more[16 * (j - 1)..16 * (j - 1) + 8];
      assert (first + more)[16 * j + 8..16 * j + 16] == more[16 * (j - 1) + 8..16 * (j - 1) + 16];
    }
  }

  /** The fields of a batch record; its points follow the name. */
  lemma BatchFields(name: Name, ps: seq<Point>)
    ensures var s, n, at := EntryBytes(BatchV3(name, ps)), |name|, 24 + |name|;
            && |s| == at + 16 * |ps| + 4 && s[..4] == Le(0x57455354, 4) && s[4..8] == Le(3, 4) && s[8..12] == Le(|s|, 4)
            && s[12..16] == Le(2, 4) && s[16..20] == Le(n, 4) && s[20..24] == Le(|ps|, 4) && s[24..at] == name
            && s[at..at + 16 * |ps|] == PointBytes(ps)
            && s[at + 16 * |ps|..] == Le(Fnv(s[..at + 16 * |ps|]), 4)
  {
    hide Le, Fnv, Body, EntryBytes, PointBytes, BatchHead;
    var e, head := BatchV3(name, ps), BatchHead(name, |ps|);
    BatchLayout(name, ps);
    HeadFields(name, |ps|);
    SealedEntry(e);
    assert EntryBytes(e)[..24 + |name| + 16 * |ps|] == Body(e);
    assert forall i, j :: 0 <= i <= j <= |head| ==> EntryBytes(e)[i..j] == head[i..j];
  }

  lemma HeadFields(name: Name, n: nat)
    ensures var s := BatchHead(name, n);
            && s[..4] == Le(0x57455354, 4) && s[4..8] == Le(3, 4) && s[8..12] == Le(28 + |name| + 16 * n, 4)
            && s[12..16] == Le(2, 4) && s[16..20] == Le(|name|, 4) && s[20..24] == Le(n, 4) && s[24..] == name
  {
    hide Le;
  }

  // ---------------------------------------------------------------- only records are read as records

  lemma {:induction false} PointsAreCanonical(s: seq<byte>, at: nat, n: nat)
    requires at + 16 * n <= |s|
    ensures PointBytes(ParsePoints(s, at, n)) == s[at..at + 16 * n]
    decreases n
  {
    hide Le, Word64At, ToI64, ToU64;
    if n > 0 {
      LeOfWord64(s, at);
      LeOfWord64(s, at + 8);
      PointsAreCanonical(s, at + 16, n - 1);
      var ps := ParsePoints(s, at, n);
      assert ps[1..] == ParsePoints(s, at + 16, n - 1);
      assert s[at..at + 16 * n] == s[at..at + 8] + (s[at + 8..at + 16] + s[at + 16..at + 16 * n]);
    }
  }

  lemma {:induction false} WholeString(s: seq<byte>)
    ensures |CString(s)| == |s| ==> CString(s) == s
  {
    if s != [] && s[0] != 0 {
      WholeString(s[1..]);
    }
  }

  lemma PrefixIsCanonical(s: seq<byte>, e: Entry)
    requires |s| >= MIN_ENTRY_SIZE && ParseEntry(s) == Some(e) && e.Size() == |s|
    ensures s[..4] == Le(WAL_MAGIC, 4) && s[4..8] == Le(if e.PointV2? then 2 else 3, 4) && s[8..12] == Le(e.Size(), 4)
    ensures s[|s| - 4..] == Le(Fnv(s[..|s| - 4]), 4)
  {
    hide Le, Word32At, Word64At, Fnv, CString, ParsePoints, ToI64;
    LeOfWord32(s, 0);
    LeOfWord32(s, 4);
    LeOfWord32(s, 8);
    LeOfWord32(s, |s| - 4);
  }

  /** What is read as a point, and where: behind the length of the name, which stands at `at`. */
  lemma PointRead(s: seq<byte>, e: Entry, at: nat)
    requires |s| >= MIN_ENTRY_SIZE && ParseEntry(s) == Some(e) && e.Size() == |s| && !e.BatchV3?
    requires at == if e.PointV2? then 12 else 16
    ensures |s| == at + 24 + |e.name| && (e.PointV3? ==> Word32At(s, 12) == RECORD_POINT)
    ensures Word32At(s, at) == |e.name| && e.name == s[at + 20..|s| - 4]
    ensures e.point == Point(ToI64(Word64At(s, at + 4)), Word64At(s, at + 12))
  {
    hide Le, Word32At, Word64At, Fnv, CString, ParsePoints, ToI64;
    WholeString(s[at + 20..at + 20 + Word32At(s, at)]);
  }

  function PointPart(name: Name, p: Point): seq<byte> {
    Le(|name|, 4) + (Le(ToU64(p.timestamp), 8) + (Le(p.bits, 8) + name))
  }

  lemma FourParts(s: seq<byte>, at: nat, name: Name, p: Point)
    requires at + 20 <= |s| && s[at..at + 4] == Le(|name|, 4) && s[at + 4..at + 12] == Le(ToU64(p.timestamp), 8)
    requires s[at + 12..at + 20] == Le(p.bits, 8) && s[at + 20..] == name
    ensures s[at..] == PointPart(name, p)
  {
    hide Le;
    assert s[at..] == s[at..at + 4] + (s[at + 4..at + 12] + (s[at + 12..at + 20] + s[at + 20..]));
  }

  lemma PointPartRead(s: seq<byte>, e: Entry, at: nat)
    requires |s| >= MIN_ENTRY_SIZE && ParseEntry(s) == Some(e) && e.Size() == |s| && !e.BatchV3?
    requires at == if e.PointV2? then 12 else 16
    ensures |s| >= at + 24 && s[at..|s| - 4] == PointPart(e.name, e.point)
    ensures e.PointV3? ==> s[12..16] == Le(RECORD_POINT, 4)
  {
    hide Le, Word32At, Word64At, ParseEntry, ToI64, ToU64, Entry.Size, PointPart;
    PointRead(s, e, at);
    LeOfWord32(s, 12);
    LeOfWord32(s, at);
    LeOfWord64(s, at + 4);
    LeOfWord64(s, at + 12);
    var b := s[..|s| - 4];
    assert b[at..at + 4] == s[at..at + 4] && b[at + 4..at + 12] == s[at + 4..at + 12];
    assert b[at + 12..at + 20] == s[at + 12..at + 20] && b[at + 20..] == s[at + 20..|s| - 4];
    FourParts(b, at, e.name, e.point);
    assert b[at..] == s[at..|s| - 4];
  }

  lemma TailOfPoint(e: Entry)
    requires !e.BatchV3?
    ensures Tail(e) == (if e.PointV2? then [] else Le(RECORD_POINT, 4)) + PointPart(e.name, e.point)
  {
    hide Le;
    assert e.PointV2? ==> [] + PointPart(e.name, e.point) == PointPart(e.name, e.point);
  }

  lemma PointTailIsCanonical(s: seq<byte>, e: Entry)
    requires |s| >= MIN_ENTRY_SIZE && ParseEntry(s) == Some(e) && e.Size() == |s| && !e.BatchV3?
    ensures s[12..|s| - 4] == Tail(e)
  {
    hide Le, Tail, PointPart, ParseEntry, Entry.Size;
    var at := if e.PointV2? then 12 else 16;
    PointPartRead(s, e, at);
    TailOfPoint(e);
    assert s[12..|s| - 4] == s[12..at] + s[at..|s| - 4];
  }

  lemma BatchTailIsCanonical(s: seq<byte>, e: Entry)
    requires |s| >= MIN_ENTRY_SIZE && ParseEntry(s) == Some(e) && e.Size() == |s| && e.BatchV3?
    ensures s[12..|s| - 4] == Tail(e)
  {
    hide Le, Word32At, Word64At, Fnv, CString, ParsePoints, PointBytes, ToI64, ToU64;
    var at := 24 + Word32At(s, 16);
    LeOfWord32(s, 12);
    LeOfWord32(s, 16);
    LeOfWord32(s, 20);
    WholeString(s[24..at]);
    PointsAreCanonical(s, at, Word32At(s, 20));
    assert s[12..|s| - 4] == s[12..16] + (s[16..20] + (s[20..24] + (s[24..at] + s[at..|s| - 4])));
  }

  lemma BodyParts(s: seq<byte>)
    requires |s| >= 16
    ensures s[..|s| - 4] == s[..4] + (s[4..8] + (s[8..12] + s[12..|s| - 4]))
  {}

  /** Nothing is read as a record but the bytes of that record, unless a zero byte cuts its name short. */
  lemma RecordIsCanonical(s: seq<byte>, e: Entry)
    requires |s| >= MIN_ENTRY_SIZE && ParseEntry(s) == Some(e) && e.Size() == |s|
    ensures EntryBytes(e) == s
  {
    hide Le, Fnv, ParseEntry, Tail, Entry.Size;
    PrefixIsCanonical(s, e);
    if e.BatchV3? {
      BatchTailIsCanonical(s, e);
    } else {
      PointTailIsCanonical(s, e);
    }
    BodyParts(s);
    assert s[..|s| - 4] == Body(e);
    SealedEntry(e);
    hide Body;
    assert s == s[..|s| - 4] + s[|s| - 4..];
  }

  // ---------------------------------------------------------------- damage to one byte

  /** The published checksums of the empty string and of "a". */
  lemma FnvKnown()
    ensures Fnv([]) == 0x811C9DC5 && Fnv([0x61]) == 0xE40C292C
  {
    hide Xor;
    assert [0x61][..0] == [];
    KnownXor();
  }

  lemma KnownXor()
    ensures Xor(0x811C9DC5, 0x61) == 0x811C9DA4
  {
    hide Xor;
    XorHalves(0x811C9DC5, 0x61);
    XorHalves(0x408E4EE2, 0x30);
    XorHalves(0x20472771, 0x18);
    XorHalves(0x102393B8, 0xC);
    XorHalves(0x811C9DC, 0x6);
    XorHalves(0x408E4EE, 0x3);
    XorHalves(0x2047277, 0x1);
    XorWithZero(0x102393B);
  }

  lemma XorCommutes(a: nat, b: nat)
    ensures Xor(a, b) == Xor(b, a)
  {}

  lemma XorWord32(a: u32, b: u32)
    ensures Xor(a, b) < 0x1_0000_0000
  {
    assert Pow2(32) == 0x1_0000_0000 by {
      assert Pow2(8) == 256;
      assert Pow2(16) == 0x1_0000;
      assert Pow2(24) == 0x100_0000;
    }
    XorBound(a, b, 32);
  }

  /** The multiplier is odd, so multiplying by it can be undone. */
  lemma TimesPrime(a: u32)
    ensures a * 16777619 % 0x1_0000_0000 * 899433627 % 0x1_0000_0000 == a
  {
    var q, r := a * 16777619 / 0x1_0000_0000, a * 16777619 % 0x1_0000_0000;
    assert r * 899433627 == a + (a * 3513497 - q * 899433627) * 0x1_0000_0000;
    RemainderIs(a, a * 3513497 - q * 899433627);
  }

  lemma RemainderIs(a: u32, n: int)
    ensures (a + n * 0x1_0000_0000) % 0x1_0000_0000 == a
  {}

  lemma FnvStepDiffers(h: u32, b: byte, h': u32, b': byte)
    requires (h == h' && b != b') || (h != h' && b == b')
    ensures Xor(h, b) * 16777619 % 0x1_0000_0000 != Xor(h', b') * 16777619 % 0x1_0000_0000
  {
    XorWord32(h, b);
    XorWord32(h', b');
    TimesPrime(Xor(h, b));
    TimesPrime(Xor(h', b'));
    XorSelfInverse(h, b);
    XorSelfInverse(h', b');
    XorCommutes(h, b);
    XorCommutes(h', b');
    XorSelfInverse(b, h);
    XorSelfInverse(b', h');
    hide Xor;
  }

  /** The checksum changes with every single byte. */
  lemma {:induction false} FnvDetectsByte(s: seq<byte>, i: nat, b: byte)
    requires i < |s| && b != s[i]
    ensures Fnv(s[i := b]) != Fnv(s)
  {
    hide Xor;
    var s', n := s[i := b], |s| - 1;
    assert s'[..n] == if i < n then s[..n][i := b] else s[..n];
    if i < n {
      FnvDetectsByte(s[..n], i, b);
    }
    FnvStepDiffers(Fnv(s[..n]), s[n], Fnv(s'[..n]), s'[n]);
  }

  /** A record with one wrong byte, wherever it is, does not check. */
  lemma OneByteDamage(e: Entry, i: nat, b: byte)
    requires e.WellFormed() && i < e.Size() && b != EntryBytes(e)[i]
    ensures !ValidEntryBytes(EntryBytes(e)[i := b])
  {
    hide Fnv, Le, EntryBytes, Body, Unle;
    var s, n := EntryBytes(e), e.Size();
    SizeFits(e);
    BodyIsPrefix(e);
    var s' := s[i := b];
    if i < n - 4 {
      FnvDetectsByte(Body(e), i, b);
      assert s'[..n - 4] == Body(e)[i := b] && s'[n - 4..n] == s[n - 4..n];
    } else {
      assert s'[..n - 4] == Body(e);
      LeUnle(s[n - 4..n]);
      LeUnle(s'[n - 4..n]);
      assert s[n - 4..n][i - (n - 4)] != s'[n - 4..n][i - (n - 4)];
    }
  }

  lemma DamagedFirst(e: Entry, i: nat, b: byte, rest: seq<byte>)
    requires e.WellFormed() && i < e.Size() && b != EntryBytes(e)[i] && (i < 8 || i >= 12)
    ensures var wal := EntryBytes(e)[i := b] + rest; ParseLog(wal) == Replay([], Damaged) && VerifyLog(wal) == None
  {
    hide EntryBytes, Word32At, ParseEntry, ValidEntryBytes;
    var s := EntryBytes(e)[i := b];
    SizeFits(e);
    PrefixWords(e);
    OneByteDamage(e, i, b);
    assert Word32At(s + rest, 8) == e.Size() by {
      assert (s + rest)[8..12] == EntryBytes(e)[8..12];
      WordsAgree(s + rest, EntryBytes(e), 8);
    }
    assert (s + rest)[..e.Size()] == s;
  }

  lemma WordsAgree(s: seq<byte>, t: seq<byte>, at: nat)
    requires at + 4 <= |s| && at + 4 <= |t| && s[at..at + 4] == t[at..at + 4]
    ensures Word32At(s, at) == Word32At(t, at)
  {}

  /**
   * One wrong byte in a record of the log, anywhere but in its size: the records in front of it are replayed, the open
   * fails, and the verifier refuses the log.
   */
  lemma {:induction false} OneByteIsDetected(before: seq<Entry>, e: Entry, i: nat, b: byte, rest: seq<byte>)
    requires AllWellFormed(before) && e.WellFormed() && i < e.Size() && b != EntryBytes(e)[i] && (i < 8 || i >= 12)
    ensures var wal := LogBytes(before) + (EntryBytes(e)[i := b] + rest);
            ParseLog(wal) == Replay(before, Damaged) && VerifyLog(wal) == None
  {
    hide EntryBytes, ParseLog, VerifyLog, Entry.WellFormed;
    var wrong := EntryBytes(e)[i := b] + rest;
    if before == [] {
      assert LogBytes(before) + wrong == wrong;
      DamagedFirst(e, i, b, rest);
    } else {
      OneByteIsDetected(before[1..], e, i, b, rest);
      Associative(EntryBytes(before[0]), LogBytes(before[1..]), wrong);
      ParseCons(before[0], LogBytes(before[1..]) + wrong);
      assert [before[0]] + before[1..] == before;
    }
  }

  /**
   * One wrong byte in the size of a record. If the size now reaches past the end of the file the record is taken for a
   * torn one, so the open succeeds without it and without all records behind it.
   */
  lemma WrongSizeHidesRecords(before: seq<Entry>, e: Entry, i: nat, b: byte, rest: seq<byte>)
    requires AllWellFormed(before) && e.WellFormed() && 8 <= i < 12 && b != EntryBytes(e)[i]
    ensures var wrong := EntryBytes(e)[i := b] + rest;
            && (Inside(wrong) ==> ParseLog(LogBytes(before) + wrong) == Replay(before, Torn))
            && (!Inside(wrong) && !Sealed(wrong) ==> ParseLog(LogBytes(before) + wrong) == Replay(before, Damaged))
  {
    hide EntryBytes, LogBytes, ParseLog, Inside, Sealed;
    var wrong := EntryBytes(e)[i := b] + rest;
    ParseAfter(before, wrong);
    UnsealedLog(wrong);
    assert before + [] == before;
  }

  /** Whatever reads a record has checked its magic number and its checksum. */
  lemma ReadIsSealed(wal: seq<byte>)
    requires ParseLog(wal).entries != [] || (wal != [] && VerifyLog(wal).Some?)
    ensures Sealed(wal) && Word32At(wal, 0) == 0x57455354
    ensures VerifyLog(wal).Some? ==> VerifyLog(wal[Word32At(wal, 8)..]).Some?
  {
    hide Fnv, ParsePoints, CString, Word64At;
    var size := Word32At(wal, 8);
    WordOfPrefix(wal, size, 0);
    WordOfPrefix(wal, size, size - 4);
    assert wal[..size][..size - 4] == wal[..size - 4];
  }

  // ---------------------------------------------------------------- imperative readers and writers

  method Checksum(data: seq<byte>) returns (hash: u32)
    ensures hash == Fnv(data)
  {
    hash := 2166136261;
    for i := 0 to |data|
      invariant hash == Fnv(data[..i])
    {
      assert data[..i + 1][..i] == data[..i];
      hash := Xor(hash, data[i]) * 16777619 % 0x1_0000_0000;
    }
    assert data[..|data|] == data;
  }

  method CopyBytes(dst: array<byte>, at: nat, src: seq<byte>)
    requires at + |src| <= dst.Length
    modifies dst
    ensures dst[..at + |src|] == old(dst[..at]) + src
  {
    forall i | 0 <= i < |src| {
      dst[at + i] := src[i];
    }
    assert dst[..at + |src|] == dst[..at] + dst[at..at + |src|];
  }

  /** Encodes a single point into a fresh record. */
  method EncodePoint(name: Name, p: Point) returns (entry: array<byte>)
    ensures fresh(entry) && entry[..] == EntryBytes(PointV3(name, p))
  {
    hide Le, Fnv, EntryBytes, Body;
    ghost var e := PointV3(name, p);
    var size := 40 + |name|;
    entry := new byte[size](_ => 0);
    WriteLe(entry, 0, WAL_MAGIC, 4);
    WriteLe(entry, 4, 3, 4);
    WriteLe(entry, 8, size, 4);
    WriteLe(entry, 12, RECORD_POINT, 4);
    WriteLe(entry, 16, |name|, 4);
    WriteLe(entry, 20, ToU64(p.timestamp), 8);
    WriteLe(entry, 28, p.bits, 8);
    CopyBytes(entry, 36, name);
    PointLayout(name, p);
    assert entry[..size - 4] == Body(e);
    SealEntry(entry, e);
  }

  lemma SealedEntry(e: Entry)
    ensures EntryBytes(e) == Body(e) + Le(Fnv(Body(e)), 4)
  {}

  /** Puts the checksum of a record behind its other bytes. */
  method SealEntry(entry: array<byte>, ghost e: Entry)
    requires entry.Length == |Body(e)| + 4 && entry[..|Body(e)|] == Body(e)
    modifies entry
    ensures entry[..] == EntryBytes(e)
  {
    hide Le, Fnv, EntryBytes, Body;
    var size := entry.Length;
    var checksum := Checksum(entry[..size - 4]);
    WriteLe(entry, size - 4, checksum, 4);
    SealedEntry(e);
    assert entry[..] == entry[..size];
  }

  lemma PointLayout(name: Name, p: Point)
    ensures Body(PointV3(name, p)) ==
            Le(WAL_MAGIC, 4) + Le(3, 4) + Le(40 + |name|, 4) + Le(RECORD_POINT, 4) + Le(|name|, 4)
            + Le(ToU64(p.timestamp), 8) + Le(p.bits, 8) + name
  {
    hide Le;
  }

  /** The bytes of a batch record in front of its points. */
  function BatchHead(name: Name, n: nat): (s: seq<byte>)
    ensures |s| == 24 + |name|
  {
    Le(WAL_MAGIC, 4) + Le(3, 4) + Le(28 + |name| + 16 * n, 4) + Le(RECORD_BATCH, 4) + Le(|name|, 4) + Le(n, 4) + name
  }

  lemma BatchLayout(name: Name, ps: seq<Point>)
    ensures Body(BatchV3(name, ps)) == BatchHead(name, |ps|) + PointBytes(ps)
    ensures |Body(BatchV3(name, ps))| == 24 + |name| + 16 * |ps|
  {
    hide Le, PointBytes;
  }

  method EncodeBatchHead(entry: array<byte>, name: Name, n: nat)
    requires 24 + |name| <= entry.Length
    modifies entry
    ensures entry[..24 + |name|] == BatchHead(name, n)
  {
    hide Le;
    WriteLe(entry, 0, WAL_MAGIC, 4);
    WriteLe(entry, 4, 3, 4);
    WriteLe(entry, 8, 28 + |name| + 16 * n, 4);
    WriteLe(entry, 12, RECORD_BATCH, 4);
    WriteLe(entry, 16, |name|, 4);
    WriteLe(entry, 20, n, 4);
    CopyBytes(entry, 24, name);
  }

  /** Encodes a batch into a fresh record, point by point. */
  method EncodeBatch(name: Name, ps: seq<Point>) returns (entry: array<byte>)
    requires 1 <= |ps| <= WAL_MAX_BATCH_POINTS
    ensures fresh(entry) && entry[..] == EntryBytes(BatchV3(name, ps))
  {
    hide Le, EntryBytes, Body, BatchHead, PointBytes;
    ghost var e := BatchV3(name, ps);
    entry := new byte[28 + |name| + 16 * |ps|](_ => 0);
    EncodeBatchHead(entry, name, |ps|);
    EncodePoints(entry, 24 + |name|, ps);
    BatchLayout(name, ps);
    SealEntry(entry, e);
  }

  method EncodePoints(entry: array<byte>, start: nat, ps: seq<Point>)
    requires start + 16 * |ps| <= entry.Length
    modifies entry
    ensures entry[..start + 16 * |ps|] == old(entry[..start]) + PointBytes(ps)
  {
    hide Le, ToU64;
    var cursor := start;
    ghost var done := entry[..start];
    assert ps[0..] == ps;
    for i := 0 to |ps|
      invariant cursor == start + 16 * i && entry[..cursor] == done
      invariant done + PointBytes(ps[i..]) == old(entry[..start]) + PointBytes(ps)
    {
      ghost var a, b := Le(ToU64(ps[i].timestamp), 8), Le(ps[i].bits, 8);
      assert ps[i..][1..] == ps[i + 1..];
      Associative(done, a, b + PointBytes(ps[i + 1..]));
      Associative(done + a, b, PointBytes(ps[i + 1..]));
      WriteLe(entry, cursor, ToU64(ps[i].timestamp), 8);
      WriteLe(entry, cursor + 8, ps[i].bits, 8);
      cursor := cursor + 16;
      done := done + a + b;
    }
    assert done + PointBytes(ps[|ps|..]) == done;
  }

  /** Reads a log with a file cursor, collecting the records that are to be applied. */
  method ReplayLog(wal: seq<byte>) returns (r: Replay)
    ensures r == ParseLog(wal)
  {
    hide ParseEntry, Word32At;
    var entries: seq<Entry> := [];
    var cursor := 0;
    assert wal[0..] == wal;
    while true
      invariant cursor <= |wal|
      invariant ParseLog(wal) == Replay(entries + ParseLog(wal[cursor..]).entries, ParseLog(wal[cursor..]).end)
      decreases |wal| - cursor
    {
      ghost var rest := wal[cursor..];
      if |wal| - cursor < PREFIX_SIZE {
        assert entries + [] == entries;
        return Replay(entries, if cursor == |wal| then Clean else Torn);
      }
      var size := Word32At(wal, cursor + 8);
      WordOfSuffix(wal, cursor);
      if size < MIN_ENTRY_SIZE || size > MAX_ENTRY_SIZE {
        assert entries + [] == entries;
        return Replay(entries, Damaged);
      }
      if |wal| - cursor < size {
        assert entries + [] == entries;
        return Replay(entries, Torn);
      }
      assert wal[cursor..cursor + size] == rest[..size];
      assert wal[cursor + size..] == rest[size..];
      var e := ParseEntry(wal[cursor..cursor + size]);
      if e.None? {
        assert entries + [] == entries;
        return Replay(entries, Damaged);
      }
      Associative(entries, [e.value], ParseLog(wal[cursor + size..]).entries);
      entries := entries + [e.value];
      cursor := cursor + size;
    }
  }

  lemma WordOfSuffix(s: seq<byte>, n: nat)
    requires n + 12 <= |s|
    ensures Word32At(s[n..], 8) == Word32At(s, n + 8)
  {
    hide Unle;
    assert s[n..][8..12] == s[n + 8..n + 12];
  }

  /** The verifier's strict scan: the number of records, or nothing for any torn or damaged one. */
  method VerifyFile(wal: seq<byte>) returns (count: Option<nat>)
    ensures count == VerifyLog(wal)
  {
    hide ValidEntryBytes, Word32At;
    var n := 0;
    var cursor := 0;
    assert wal[0..] == wal;
    while cursor < |wal|
      invariant cursor <= |wal|
      invariant VerifyLog(wal) ==
                match VerifyLog(wal[cursor..]) { case None => None case Some(m) => Some(n + m) }
    {
      ghost var rest := wal[cursor..];
      if |wal| - cursor < PREFIX_SIZE {
        return None;
      }
      var size := Word32At(wal, cursor + 8);
      WordOfSuffix(wal, cursor);
      if size < MIN_ENTRY_SIZE || size > MAX_ENTRY_SIZE || |wal| - cursor < size {
        return None;
      }
      assert wal[cursor..cursor + size] == rest[..size];
      assert wal[cursor + size..] == rest[size..];
      if !ValidEntryBytes(wal[cursor..cursor + size]) {
        return None;
      }
      n := n + 1;
      cursor := cursor + size;
    }
    count := Some(n);
  }
}
