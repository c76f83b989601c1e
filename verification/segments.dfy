/** Blocks and segment files as bytes (src/storage/block.c, segment_writer.c, segment_reader.c:53-131). */
module Segments {
  import opened Wire
  import opened Config
  import opened Codec
  import Doubles

  const BLOCK_MAGIC := 0x42455354
  const BLOCK_VERSION := 2
  const COMPRESSION_DELTA_XOR := 1
  const HEADER_SIZE := 72

  datatype Header = Header(
    pointCount: u32, compression: u32, minTimestamp: i64, maxTimestamp: i64,
    timestampSize: u32, valueSize: u32, payloadSize: u32,
    minBits: u64, maxBits: u64, sumBits: u64)

  datatype IndexEntry = IndexEntry(
    segmentId: nat, offset: nat, minTimestamp: i64, maxTimestamp: i64, pointCount: nat, payloadSize: nat)

  /** What a flush may write: a non-empty run of at most one buffer of points. */
  predicate ValidBlock(ps: seq<Point>) {
    1 <= |ps| <= BLOCK_MAX_POINTS
  }

  type Block = ps: seq<Point> | ValidBlock(ps) witness [Point(0, 0)]

  // ---------------------------------------------------------------- block statistics

  function MinTimestamp(ps: seq<Point>): i64
    requires ps != []
  {
    var last := ps[|ps| - 1].timestamp;
    if |ps| == 1 then last
    else
      var m := MinTimestamp(ps[..|ps| - 1]);
      if last < m then last else m
  }

  function MaxTimestamp(ps: seq<Point>): i64
    requires ps != []
  {
    var last := ps[|ps| - 1].timestamp;
    if |ps| == 1 then last
    else
      var m := MaxTimestamp(ps[..|ps| - 1]);
      if last > m then last else m
  }

  function MinBits(ps: seq<Point>): u64
    requires ps != []
  {
    var last := ps[|ps| - 1].bits;
    if |ps| == 1 then last
    else
      var m := MinBits(ps[..|ps| - 1]);
      if Doubles.Below(last, m) then last else m
  }

  function MaxBits(ps: seq<Point>): u64
    requires ps != []
  {
    var last := ps[|ps| - 1].bits;
    if |ps| == 1 then last
    else
      var m := MaxBits(ps[..|ps| - 1]);
      if Doubles.Below(m, last) then last else m
  }

  function SumValues(ps: seq<Point>): real {
    if ps == [] then 0.0 else SumValues(ps[..|ps| - 1]) + Doubles.Value(ps[|ps| - 1].bits)
  }

  /** The running sum of the values, rounded at every addition. */
  function SumBits(ps: seq<Point>): u64
    requires ps != []
  {
    var last := ps[|ps| - 1].bits;
    if |ps| == 1 then last else Doubles.Add(SumBits(ps[..|ps| - 1]), last)
  }

  /** All values are finite, and every sum on the way from the first to the last is a binary64 number. */
  ghost predicate ExactSums(ps: seq<Point>) {
    && (forall k :: 0 <= k < |ps| ==> Doubles.Finite(ps[k].bits))
    && (forall k :: 0 <= k <= |ps| ==> Doubles.Representable(SumValues(ps[..k])))
  }

  lemma ExactPrefix(ps: seq<Point>, k: nat)
    requires ExactSums(ps) && k <= |ps|
    ensures ExactSums(ps[..k])
  {
    hide Doubles.Finite, Doubles.Representable, SumValues;
    forall j | 0 <= j <= k
      ensures Doubles.Representable(SumValues(ps[..k][..j]))
    {
      assert ps[..k][..j] == ps[..j];
    }
  }

  lemma SumPush(ps: seq<Point>, p: Point)
    ensures SumValues(ps + [p]) == SumValues(ps) + Doubles.Value(p.bits)
  {
    hide Doubles.Value;
    assert (ps + [p])[..|ps|] == ps;
  }

  /** Where no sum on the way needs rounding, the running sum is the exact sum. */
  lemma {:induction false} SumBitsExact(ps: seq<Point>)
    requires ps != [] && ExactSums(ps)
    ensures Doubles.Finite(SumBits(ps)) && Doubles.Value(SumBits(ps)) == SumValues(ps)
  {
    hide Doubles.Finite, Doubles.Value, Doubles.Representable, Doubles.Add;
    var init, last := ps[..|ps| - 1], ps[|ps| - 1];
    assert SumValues(ps) == SumValues(init) + Doubles.Value(last.bits);
    if init == [] {
      assert SumValues(init) == 0.0;
    } else {
      ExactPrefix(ps, |ps| - 1);
      SumBitsExact(init);
      assert ps[..|ps|] == ps;
      Doubles.AddExact(SumBits(init), last.bits);
    }
  }

  /** The stored sum need not be exact: of 10^16, 1 and -10^16, whose sum is 1, it is 0. */
  lemma StoredSumCanBeInexact()
    ensures var ps := [Point(0, Doubles.BIG), Point(1, Doubles.ONE), Point(2, Doubles.NEGATIVE_BIG)];
            && SumValues(ps) == 1.0 && Doubles.Representable(SumValues(ps))
            && Doubles.Value(SumBits(ps)) == 0.0 && !ExactSums(ps)
  {
    hide Doubles.Value, Doubles.Finite, Doubles.Add, Doubles.Representable, ExactSums;
    Doubles.NamedValues();
    Doubles.OneIsLost();
    var a, b, c := Point(0, Doubles.BIG), Point(1, Doubles.ONE), Point(2, Doubles.NEGATIVE_BIG);
    SumPush([], a);
    SumPush([a], b);
    SumPush([a, b], c);
    assert [] + [a] == [a] && [a] + [b] == [a, b] && [a, b] + [c] == [a, b, c];
    assert [a, b, c][..2] == [a, b] && [a, b][..1] == [a];
    assert SumBits([a, b]) == Doubles.BIG;
    assert Doubles.Representable(1.0) by {
      OneIsRepresentable();
    }
    if ExactSums([a, b, c]) {
      SumBitsExact([a, b, c]);
    }
  }

  lemma OneIsRepresentable()
    ensures Doubles.Representable(1.0)
  {
    hide Doubles.Value, Doubles.Finite;
    Doubles.NamedValues();
  }

  /** The stored bounds are attained and enclose every timestamp, sorted or not. */
  lemma {:induction false} TimestampBounds(ps: seq<Point>)
    requires ps != []
    ensures forall p :: p in ps ==> MinTimestamp(ps) <= p.timestamp <= MaxTimestamp(ps)
    ensures exists p :: p in ps && p.timestamp == MinTimestamp(ps)
    ensures exists p :: p in ps && p.timestamp == MaxTimestamp(ps)
  {
    var last := ps[|ps| - 1];
    assert last in ps;
    if |ps| > 1 {
      var init := ps[..|ps| - 1];
      TimestampBounds(init);
      assert ps == init + [last];
    }
  }

  lemma {:induction false} ExtremesAttained(ps: seq<Point>)
    requires ps != []
    ensures exists p :: p in ps && p.bits == MinBits(ps)
    ensures exists p :: p in ps && p.bits == MaxBits(ps)
  {
    hide Doubles.Below;
    var last := ps[|ps| - 1];
    assert last in ps;
    if |ps| > 1 {
      ExtremesAttained(ps[..|ps| - 1]);
    }
  }

  /** The stored extremes are attained. They enclose all numbers unless the first value is a NaN, which then stays. */
  lemma {:induction false} ValueBounds(ps: seq<Point>)
    requires ps != []
    ensures exists p :: p in ps && p.bits == MinBits(ps)
    ensures exists p :: p in ps && p.bits == MaxBits(ps)
    ensures Doubles.IsNaN(ps[0].bits) ==> MinBits(ps) == MaxBits(ps) == ps[0].bits
    ensures !Doubles.IsNaN(ps[0].bits) ==> !Doubles.IsNaN(MinBits(ps)) && !Doubles.IsNaN(MaxBits(ps))
    ensures !Doubles.IsNaN(ps[0].bits) ==>
              forall p :: p in ps && !Doubles.IsNaN(p.bits) ==>
                Doubles.Value(MinBits(ps)) <= Doubles.Value(p.bits) <= Doubles.Value(MaxBits(ps))
  {
    hide Doubles.Value, Doubles.IsNaN;
    ExtremesAttained(ps);
    if |ps| > 1 {
      var init, last := ps[..|ps| - 1], ps[|ps| - 1];
      ValueBounds(init);
      assert ps == init + [last];
    }
  }

  // ---------------------------------------------------------------- headers

  function PayloadSize(ps: seq<Point>): nat {
    |TimestampBytes(ps)| + |ValueBytes(ps)|
  }

  /** A block of `n` points takes at most 19n payload bytes, well below the reader's limit of 32 per buffer slot. */
  lemma PayloadBound(ps: seq<Point>)
    requires ValidBlock(ps)
    ensures PayloadSize(ps) <= 19 * |ps| <= 32 * BLOCK_MAX_POINTS
    ensures |TimestampBytes(ps)| >= 8 && |ValueBytes(ps)| >= 8
  {
    TimestampBound(ps);
    ValueBound(ps);
  }

  function HeaderOf(ps: seq<Point>): Header
    requires ValidBlock(ps)
  {
    PayloadBound(ps);
    Header(|ps|, COMPRESSION_DELTA_XOR, MinTimestamp(ps), MaxTimestamp(ps),
           |TimestampBytes(ps)|, |ValueBytes(ps)|, PayloadSize(ps),
           MinBits(ps), MaxBits(ps), SumBits(ps))
  }

  predicate ValidPayloadSizes(h: Header) {
    && h.timestampSize != 0
    && h.valueSize != 0
    && h.payloadSize == h.timestampSize + h.valueSize
    && h.payloadSize <= 32 * BLOCK_MAX_POINTS
    && h.timestampSize <= 32 * BLOCK_MAX_POINTS
    && h.valueSize <= 32 * BLOCK_MAX_POINTS
  }

  /** What the reader demands of a header. */
  predicate ValidHeader(h: Header) {
    && 1 <= h.pointCount <= BLOCK_MAX_POINTS
    && h.minTimestamp <= h.maxTimestamp
    && h.compression == COMPRESSION_DELTA_XOR
    && ValidPayloadSizes(h)
  }

  lemma WrittenHeaderIsValid(ps: seq<Point>)
    requires ValidBlock(ps)
    ensures ValidHeader(HeaderOf(ps))
  {
    PayloadBound(ps);
    TimestampBounds(ps);
  }

  function HeaderBytes(h: Header): (s: seq<byte>)
    ensures |s| == HEADER_SIZE
  {
    Le(BLOCK_MAGIC, 4) + (Le(BLOCK_VERSION, 4) + (Le(h.pointCount, 4) + (Le(h.compression, 4)
    + (Le(ToU64(h.minTimestamp), 8) + (Le(ToU64(h.maxTimestamp), 8)
    + (Le(h.timestampSize, 4) + (Le(h.valueSize, 4) + (Le(h.payloadSize, 4)
    + (Le(h.minBits, 8) + (Le(h.maxBits, 8) + (Le(h.sumBits, 8) + Le(0, 4))))))))))))
  }

  function Word32At(s: seq<byte>, at: nat): u32
    requires at + 4 <= |s|
  {
    WordBound(s[at..at + 4]);
    Unle(s[at..at + 4])
  }

  function Word64At(s: seq<byte>, at: nat): u64
    requires at + 8 <= |s|
  {
    WordBound(s[at..at + 8]);
    Unle(s[at..at + 8])
  }

  function ParseHeader(buf: seq<byte>): Option<Header>
    requires |buf| == HEADER_SIZE
  {
    var h := Header(Word32At(buf, 8), Word32At(buf, 12), ToI64(Word64At(buf, 16)), ToI64(Word64At(buf, 24)),
                    Word32At(buf, 32), Word32At(buf, 36), Word32At(buf, 40),
                    Word64At(buf, 44), Word64At(buf, 52), Word64At(buf, 60));
    if Word32At(buf, 0) == BLOCK_MAGIC && Word32At(buf, 4) == BLOCK_VERSION
       && Word32At(buf, 68) == 0 && ValidHeader(h)
    then Some(h) else None
  }

  /** Steps over one 32-bit field of a byte string. */
  lemma Field32(s: seq<byte>, at: nat, v: u32, rest: seq<byte>)
    requires at <= |s| && s[at..] == Le(v, 4) + rest
    ensures at + 4 <= |s| && Word32At(s, at) == v && s[at + 4..] == rest
  {
    hide Le, Unle;
    assert s[at..at + 4] == s[at..][..4] == Le(v, 4);
    assert s[at + 4..] == s[at..][4..];
    Word32(v);
  }

  lemma Field64(s: seq<byte>, at: nat, v: u64, rest: seq<byte>)
    requires at <= |s| && s[at..] == Le(v, 8) + rest
    ensures at + 8 <= |s| && Word64At(s, at) == v && s[at + 8..] == rest
  {
    hide Le, Unle;
    assert s[at..at + 8] == s[at..][..8] == Le(v, 8);
    assert s[at + 8..] == s[at..][8..];
    Word64(v);
  }

  lemma FieldIs32(s: seq<byte>, at: nat, v: u32)
    requires at + 4 <= |s| && s[at..at + 4] == Le(v, 4)
    ensures Word32At(s, at) == v
  {
    hide Le, Unle;
    Word32(v);
  }

  lemma FieldIs64(s: seq<byte>, at: nat, v: u64)
    requires at + 8 <= |s| && s[at..at + 8] == Le(v, 8)
    ensures Word64At(s, at) == v
  {
    hide Le, Unle;
    Word64(v);
  }

  /** Reading a written header gives it back, and only valid headers are read at all. */
  lemma HeaderRoundTrip(h: Header)
    ensures ParseHeader(HeaderBytes(h)) == if ValidHeader(h) then Some(h) else None
  {
    hide Le, Word32At, Word64At, ToI64, ToU64, ValidHeader, HeaderBytes;
    var s := HeaderBytes(h);
    HeaderFields(h);
    FieldIs32(s, 0, BLOCK_MAGIC);
    FieldIs32(s, 4, BLOCK_VERSION);
    FieldIs32(s, 8, h.pointCount);
    FieldIs32(s, 12, h.compression);
    FieldIs64(s, 16, ToU64(h.minTimestamp));
    FieldIs64(s, 24, ToU64(h.maxTimestamp));
    FieldIs32(s, 32, h.timestampSize);
    FieldIs32(s, 36, h.valueSize);
    FieldIs32(s, 40, h.payloadSize);
    FieldIs64(s, 44, h.minBits);
    FieldIs64(s, 52, h.maxBits);
    FieldIs64(s, 60, h.sumBits);
    FieldIs32(s, 68, 0);
    SignedRoundTrip(h.minTimestamp);
    SignedRoundTrip(h.maxTimestamp);
  }

  /** Min, max and sum in one loop over the points; the first point seeds all of them. */
  method MakeHeader(ps: seq<Point>, timestampSize: nat, valueSize: nat) returns (h: Header)
    requires ValidBlock(ps)
    requires timestampSize == |TimestampBytes(ps)| && valueSize == |ValueBytes(ps)|
    ensures h == HeaderOf(ps)
  {
    hide Doubles.Below, Doubles.Add, TimestampBytes, ValueBytes;
    PayloadBound(ps);
    var minTs, maxTs := ps[0].timestamp, ps[0].timestamp;
    var minBits, maxBits, sum := ps[0].bits, ps[0].bits, ps[0].bits;
    assert ps[..1] == [ps[0]] && ps[..1][..0] == [];
    for i := 1 to |ps|
      invariant minTs == MinTimestamp(ps[..i]) && maxTs == MaxTimestamp(ps[..i])
      invariant minBits == MinBits(ps[..i]) && maxBits == MaxBits(ps[..i])
      invariant sum == SumBits(ps[..i])
    {
      assert ps[..i + 1][..i] == ps[..i];
      if ps[i].timestamp < minTs {
        minTs := ps[i].timestamp;
      }
      if ps[i].timestamp > maxTs {
        maxTs := ps[i].timestamp;
      }
      if Doubles.Below(ps[i].bits, minBits) {
        minBits := ps[i].bits;
      }
      if Doubles.Below(maxBits, ps[i].bits) {
        maxBits := ps[i].bits;
      }
      sum := Doubles.Add(sum, ps[i].bits);
    }
    assert ps[..|ps|] == ps;
    h := Header(|ps|, COMPRESSION_DELTA_XOR, minTs, maxTs, timestampSize, valueSize,
                timestampSize + valueSize, minBits, maxBits, sum);
  }

  /** The fields before and after offset 32, in the order they are written. */
  function LeadingFields(h: Header): (s: seq<byte>)
    ensures |s| == 32
  {
    Le(BLOCK_MAGIC, 4) + Le(BLOCK_VERSION, 4) + Le(h.pointCount, 4) + Le(h.compression, 4)
    + Le(ToU64(h.minTimestamp), 8) + Le(ToU64(h.maxTimestamp), 8)
  }

  function TrailingFields(h: Header): (s: seq<byte>)
    ensures |s| == 40
  {
    Le(h.timestampSize, 4) + Le(h.valueSize, 4) + Le(h.payloadSize, 4)
    + Le(h.minBits, 8) + Le(h.maxBits, 8) + Le(h.sumBits, 8) + Le(0, 4)
  }

  lemma HeaderLayout(h: Header)
    ensures HeaderBytes(h) == LeadingFields(h) + TrailingFields(h)
  {
    hide Le;
  }

  lemma LeOfWord32(s: seq<byte>, at: nat)
    requires at + 4 <= |s|
    ensures Le(Word32At(s, at), 4) == s[at..at + 4]
  {
    LeUnle(s[at..at + 4]);
    hide Le, Unle;
  }

  lemma LeOfWord64(s: seq<byte>, at: nat)
    requires at + 8 <= |s|
    ensures Le(Word64At(s, at), 8) == s[at..at + 8] && Le(ToU64(ToI64(Word64At(s, at))), 8) == s[at..at + 8]
  {
    LeUnle(s[at..at + 8]);
    hide Le, Unle;
  }

  /** Nothing is read as a header but the bytes of that header. */
  lemma HeaderIsCanonical(s: seq<byte>)
    requires |s| == HEADER_SIZE && ParseHeader(s).Some?
    ensures HeaderBytes(ParseHeader(s).value) == s
  {
    hide Le, Word32At, Word64At, ToI64, ToU64, ValidHeader, HeaderBytes;
    LeOfWord32(s, 0);
    LeOfWord32(s, 4);
    LeOfWord32(s, 8);
    LeOfWord32(s, 12);
    LeOfWord64(s, 16);
    LeOfWord64(s, 24);
    LeOfWord32(s, 32);
    LeOfWord32(s, 36);
    LeOfWord32(s, 40);
    LeOfWord64(s, 44);
    LeOfWord64(s, 52);
    LeOfWord64(s, 60);
    LeOfWord32(s, 68);
    var h := ParseHeader(s).value;
    HeaderLayout(h);
    assert LeadingFields(h) == s[..32] by {
      assert s[..32] == s[0..4] + s[4..8] + s[8..12] + s[12..16] + s[16..24] + s[24..32];
    }
    assert TrailingFields(h) == s[32..] by {
      assert s[32..] == s[32..36] + s[36..40] + s[40..44] + s[44..52] + s[52..60] + s[60..68] + s[68..72];
    }
  }

  /** Where the fields of a block header stand. */
  lemma HeaderFields(h: Header)
    ensures var s := HeaderBytes(h);
            && s[..4] == Le(0x42455354, 4) && s[4..8] == Le(2, 4)
            && s[8..12] == Le(h.pointCount, 4) && s[12..16] == Le(h.compression, 4)
            && s[16..24] == Le(ToU64(h.minTimestamp), 8) && s[24..32] == Le(ToU64(h.maxTimestamp), 8)
            && s[32..36] == Le(h.timestampSize, 4) && s[36..40] == Le(h.valueSize, 4)
            && s[40..44] == Le(h.payloadSize, 4)
            && s[44..52] == Le(h.minBits, 8) && s[52..60] == Le(h.maxBits, 8) && s[60..68] == Le(h.sumBits, 8)
            && s[68..] == Le(0, 4)
  {
    hide Le, HeaderBytes;
    var a, b := LeadingFields(h), TrailingFields(h);
    HeaderLayout(h);
    LeadingAt(h);
    TrailingAt(h);
    hide LeadingFields, TrailingFields;
    assert forall i, j :: 0 <= i <= j <= 32 ==> (a + b)[i..j] == a[i..j];
    assert forall i, j :: 0 <= i <= j <= 40 ==> (a + b)[32 + i..32 + j] == b[i..j];
  }

  lemma LeadingAt(h: Header)
    ensures var s := LeadingFields(h);
            && s[..4] == Le(0x42455354, 4) && s[4..8] == Le(2, 4)
            && s[8..12] == Le(h.pointCount, 4) && s[12..16] == Le(h.compression, 4)
            && s[16..24] == Le(ToU64(h.minTimestamp), 8) && s[24..32] == Le(ToU64(h.maxTimestamp), 8)
  {
    hide Le;
    assert LeadingFields(h)[24..] == Le(ToU64(h.maxTimestamp), 8);
  }

  lemma TrailingAt(h: Header)
    ensures var s := TrailingFields(h);
            && s[..4] == Le(h.timestampSize, 4) && s[4..8] == Le(h.valueSize, 4) && s[8..12] == Le(h.payloadSize, 4)
            && s[12..20] == Le(h.minBits, 8) && s[20..28] == Le(h.maxBits, 8) && s[28..36] == Le(h.sumBits, 8)
            && s[36..] == Le(0, 4)
  {
    hide Le;
  }

  /** Fills the 72-byte header field by field. */
  method WriteHeader(h: Header) returns (buf: array<byte>)
    ensures fresh(buf) && buf[..] == HeaderBytes(h)
  {
    hide Le, HeaderBytes, LeadingFields, TrailingFields;
    buf := new byte[HEADER_SIZE](_ => 0);
    WriteLeadingFields(buf, h);
    WriteTrailingFields(buf, h);
    HeaderLayout(h);
  }

  method WriteLeadingFields(buf: array<byte>, h: Header)
    requires buf.Length == HEADER_SIZE
    modifies buf
    ensures buf[..32] == LeadingFields(h)
  {
    hide Le;
    WriteLe(buf, 0, BLOCK_MAGIC, 4);
    WriteLe(buf, 4, BLOCK_VERSION, 4);
    WriteLe(buf, 8, h.pointCount, 4);
    WriteLe(buf, 12, h.compression, 4);
    WriteLe(buf, 16, ToU64(h.minTimestamp), 8);
    WriteLe(buf, 24, ToU64(h.maxTimestamp), 8);
  }

  method WriteTrailingFields(buf: array<byte>, h: Header)
    requires buf.Length == HEADER_SIZE
    modifies buf
    ensures buf[..] == old(buf[..32]) + TrailingFields(h)
  {
    hide Le;
    ghost var done := buf[..32];
    WriteLe(buf, 32, h.timestampSize, 4);
    WriteLe(buf, 36, h.valueSize, 4);
    WriteLe(buf, 40, h.payloadSize, 4);
    WriteLe(buf, 44, h.minBits, 8);
    WriteLe(buf, 52, h.maxBits, 8);
    WriteLe(buf, 60, h.sumBits, 8);
    WriteLe(buf, 68, 0, 4);
    assert buf[..] == buf[..72];
  }

  // ---------------------------------------------------------------- blocks and segments

  function BlockBytes(ps: seq<Point>): (s: seq<byte>)
    requires ValidBlock(ps)
    ensures |s| == BlockSize(ps)
  {
    HeaderBytes(HeaderOf(ps)) + (TimestampBytes(ps) + ValueBytes(ps))
  }

  function BlockSize(ps: seq<Point>): nat {
    HEADER_SIZE + PayloadSize(ps)
  }

  function SegmentSize(bs: seq<Block>): nat {
    if bs == [] then 0 else SegmentSize(bs[..|bs| - 1]) + BlockSize(bs[|bs| - 1])
  }

  function SegmentBytes(bs: seq<Block>): (s: seq<byte>)
    ensures |s| == SegmentSize(bs)
  {
    if bs == [] then [] else SegmentBytes(bs[..|bs| - 1]) + BlockBytes(bs[|bs| - 1])
  }

  function EntryFor(id: nat, offset: nat, ps: seq<Point>): IndexEntry
    requires ps != []
  {
    IndexEntry(id, offset, MinTimestamp(ps), MaxTimestamp(ps), |ps|, PayloadSize(ps))
  }

  /** The index entries of a segment's blocks, in file order. */
  function IndexOf(id: nat, bs: seq<Block>): (index: seq<IndexEntry>)
    ensures |index| == |bs|
  {
    hide EntryFor, BlockSize;
    if bs == [] then []
    else IndexOf(id, bs[..|bs| - 1]) + [EntryFor(id, SegmentSize(bs[..|bs| - 1]), bs[|bs| - 1])]
  }

  lemma {:induction false} IndexAt(id: nat, bs: seq<Block>, k: nat)
    requires k < |bs|
    ensures IndexOf(id, bs)[k] == EntryFor(id, SegmentSize(bs[..k]), bs[k])
  {
    hide EntryFor, BlockSize, SegmentSize;
    if k < |bs| - 1 {
      IndexAt(id, bs[..|bs| - 1], k);
      assert bs[..|bs| - 1][..k] == bs[..k];
    }
  }

  lemma LastBlock(bs: seq<Block>)
    requires bs != []
    ensures var init, last := bs[..|bs| - 1], bs[|bs| - 1];
            && SegmentSize(bs) == SegmentSize(init) + BlockSize(last)
            && SegmentBytes(bs) == SegmentBytes(init) + BlockBytes(last)
  {
    hide BlockBytes, BlockSize;
  }

  lemma SliceInFront<T>(s: seq<T>, t: seq<T>, i: nat, j: nat)
    requires i <= j <= |s|
    ensures (s + t)[i..j] == s[i..j]
  {}

  lemma {:induction false} BlockAt(bs: seq<Block>, k: nat)
    requires k < |bs|
    ensures SegmentSize(bs[..k + 1]) == SegmentSize(bs[..k]) + BlockSize(bs[k]) <= SegmentSize(bs)
    ensures SegmentBytes(bs)[SegmentSize(bs[..k])..SegmentSize(bs[..k + 1])] == BlockBytes(bs[k])
  {
    hide BlockBytes, BlockSize, SegmentBytes, SegmentSize;
    assert bs[..k + 1][..k] == bs[..k] && bs[..k + 1][k] == bs[k];
    LastBlock(bs[..k + 1]);
    if k == |bs| - 1 {
      assert bs[..k + 1] == bs;
    } else {
      var init := bs[..|bs| - 1];
      BlockAt(init, k);
      assert init[..k] == bs[..k] && init[..k + 1] == bs[..k + 1];
      LastBlock(bs);
      SliceInFront(SegmentBytes(init), BlockBytes(bs[|bs| - 1]), SegmentSize(bs[..k]), SegmentSize(bs[..k + 1]));
    }
  }

  datatype HeaderRead = Eof | Corrupt | Read(header: Header)

  /** One header at a file cursor; the end of the file is only recognised at a block boundary. */
  function ReadHeaderAt(file: seq<byte>, offset: nat): HeaderRead {
    if offset >= |file| then Eof
    else if |file| - offset < HEADER_SIZE then Corrupt
    else
      match ParseHeader(file[offset..offset + HEADER_SIZE])
      case None => Corrupt
      case Some(h) => Read(h)
  }

  function EntryOfHeader(id: nat, offset: nat, h: Header): IndexEntry {
    IndexEntry(id, offset, h.minTimestamp, h.maxTimestamp, h.pointCount, h.payloadSize)
  }

  /** The scan of a segment from a cursor on: headers are read, payloads are skipped by seeking. */
  function ScanFrom(file: seq<byte>, id: nat, offset: nat): Option<seq<IndexEntry>>
    decreases |file| - offset
  {
    match ReadHeaderAt(file, offset)
    case Eof => Some([])
    case Corrupt => None
    case Read(h) =>
      Prepend([EntryOfHeader(id, offset, h)], ScanFrom(file, id, offset + HEADER_SIZE + h.payloadSize))
  }

  lemma BlockPrefix(ps: seq<Point>)
    requires ValidBlock(ps)
    ensures HEADER_SIZE <= |BlockBytes(ps)| == BlockSize(ps)
    ensures BlockBytes(ps)[..HEADER_SIZE] == HeaderBytes(HeaderOf(ps))
  {
    hide HeaderBytes, HeaderOf, TimestampBytes, ValueBytes;
  }

  lemma BlockHeaderReads(bs: seq<Block>, k: nat)
    requires k < |bs|
    ensures ReadHeaderAt(SegmentBytes(bs), SegmentSize(bs[..k])) == Read(HeaderOf(bs[k]))
  {
    hide HeaderBytes, HeaderOf, ParseHeader, ValidHeader, SegmentBytes, SegmentSize, BlockBytes, BlockSize;
    var file, at := SegmentBytes(bs), SegmentSize(bs[..k]);
    BlockAt(bs, k);
    BlockPrefix(bs[k]);
    WrittenHeaderIsValid(bs[k]);
    HeaderRoundTrip(HeaderOf(bs[k]));
    SliceOfSlice(file, at, at + BlockSize(bs[k]), 0, HEADER_SIZE);
  }

  lemma ScanStep(file: seq<byte>, id: nat, offset: nat)
    ensures ScanFrom(file, id, offset) ==
            match ReadHeaderAt(file, offset)
            case Eof => Some([])
            case Corrupt => None
            case Read(h) =>
              Prepend([EntryOfHeader(id, offset, h)], ScanFrom(file, id, offset + HEADER_SIZE + h.payloadSize))
  {
    hide ReadHeaderAt;
  }

  lemma FirstOfTail<T>(s: seq<T>, k: nat)
    requires k < |s|
    ensures s[k..] == [s[k]] + s[k + 1..]
  {}

  lemma {:induction false} ScanTail(id: nat, bs: seq<Block>, k: nat)
    requires k <= |bs|
    ensures ScanFrom(SegmentBytes(bs), id, SegmentSize(bs[..k])) == Some(IndexOf(id, bs)[k..])
    decreases |bs| - k
  {
    hide BlockSize, SegmentBytes, SegmentSize, IndexOf, ReadHeaderAt, ScanFrom, HeaderOf, PayloadSize;
    ScanStep(SegmentBytes(bs), id, SegmentSize(bs[..k]));
    if k == |bs| {
      assert bs[..k] == bs && IndexOf(id, bs)[k..] == [];
      EndOfSegment(bs);
    } else {
      BlockHeaderReads(bs, k);
      BlockAt(bs, k);
      IndexAt(id, bs, k);
      BlockStep(bs[k], id, SegmentSize(bs[..k]));
      ScanTail(id, bs, k + 1);
      FirstOfTail(IndexOf(id, bs), k);
    }
  }

  lemma EndOfSegment(bs: seq<Block>)
    ensures ReadHeaderAt(SegmentBytes(bs), SegmentSize(bs)) == Eof
  {}

  lemma BlockStep(ps: seq<Point>, id: nat, offset: nat)
    requires ValidBlock(ps)
    ensures EntryOfHeader(id, offset, HeaderOf(ps)) == EntryFor(id, offset, ps)
    ensures BlockSize(ps) == HEADER_SIZE + HeaderOf(ps).payloadSize
    ensures HeaderOf(ps).pointCount == |ps| && HeaderOf(ps).timestampSize == |TimestampBytes(ps)|
    ensures HeaderOf(ps).valueSize == |ValueBytes(ps)|
    ensures HeaderOf(ps).payloadSize == HeaderOf(ps).timestampSize + HeaderOf(ps).valueSize
  {}

  /** Scanning the bytes of a segment yields the entries that were recorded when its blocks were written. */
  lemma ScanIsIndex(id: nat, bs: seq<Block>)
    ensures ScanFrom(SegmentBytes(bs), id, 0) == Some(IndexOf(id, bs))
  {
    assert bs[..0] == [];
    ScanTail(id, bs, 0);
    assert IndexOf(id, bs)[0..] == IndexOf(id, bs);
  }

  /** The two columns of a payload decoded and paired up. */
  function DecodePayload(count: nat, timestamps: seq<byte>, values: seq<byte>): Option<seq<Point>> {
    var ts, vs := DecodeTimestamps(timestamps, count), DecodeValues(values, count);
    if ts.None? || vs.None? then None else Some(Zip(ts.value, vs.value))
  }

  /** The points of the block at a cursor, or nothing when header or payload do not decode. */
  function DecodeBlockAt(file: seq<byte>, offset: nat): Option<(Header, seq<Point>)> {
    match ReadHeaderAt(file, offset)
    case Eof => None
    case Corrupt => None
    case Read(h) =>
      var at := offset + HEADER_SIZE;
      var mid := at + h.timestampSize;
      var end := mid + h.valueSize;
      if end > |file| then None
      else
        match DecodePayload(h.pointCount, file[at..mid], file[mid..end])
        case None => None
        case Some(ps) => Some((h, ps))
  }

  function Zip(ts: seq<i64>, vs: seq<u64>): seq<Point>
    requires |ts| == |vs|
  {
    seq(|ts|, i requires 0 <= i < |ts| => Point(ts[i], vs[i]))
  }

  lemma SliceOfSlice<T>(s: seq<T>, a: nat, b: nat, c: nat, d: nat)
    requires a <= b <= |s| && c <= d <= b - a
    ensures s[a..b][c..d] == s[a + c..a + d]
  {
    forall i | 0 <= i < d - c
      ensures s[a..b][c..d][i] == s[a + c..a + d][i]
    {
      assert s[a..b][c..d][i] == s[a..b][c + i] == s[a + c + i];
    }
  }

  lemma PayloadRoundTrip(ps: seq<Point>)
    ensures DecodePayload(|ps|, TimestampBytes(ps), ValueBytes(ps)) == Some(ps)
  {
    hide TimestampBytes, ValueBytes, DecodeTimestamps, DecodeValues;
    TimestampRoundTrip(ps);
    ValueRoundTrip(ps);
    assert Zip(Timestamps(ps), Patterns(ps)) == ps;
  }

  lemma BlockColumns(bs: seq<Block>, k: nat)
    requires k < |bs|
    ensures var at := SegmentSize(bs[..k]) + HEADER_SIZE;
            var mid := at + |TimestampBytes(bs[k])|;
            var end := mid + |ValueBytes(bs[k])|;
            && end <= |SegmentBytes(bs)|
            && SegmentBytes(bs)[at..mid] == TimestampBytes(bs[k])
            && SegmentBytes(bs)[mid..end] == ValueBytes(bs[k])
  {
    hide HeaderBytes, HeaderOf, SegmentBytes, SegmentSize, TimestampBytes, ValueBytes;
    var file, at := SegmentBytes(bs), SegmentSize(bs[..k]);
    BlockAt(bs, k);
    var cut := file[at..SegmentSize(bs[..k + 1])];
    var end := HEADER_SIZE + |TimestampBytes(bs[k])|;
    assert cut[HEADER_SIZE..end] == TimestampBytes(bs[k]) && cut[end..|cut|] == ValueBytes(bs[k]);
    SliceOfSlice(file, at, at + |cut|, HEADER_SIZE, end);
    SliceOfSlice(file, at, at + |cut|, end, |cut|);
  }

  /** Every written block is readable: its header and its points come back from the file. */
  lemma BlockRoundTrip(bs: seq<Block>, k: nat)
    requires k < |bs|
    ensures DecodeBlockAt(SegmentBytes(bs), SegmentSize(bs[..k])) == Some((HeaderOf(bs[k]), bs[k]))
  {
    hide SegmentBytes, SegmentSize, ReadHeaderAt, TimestampBytes, ValueBytes, DecodePayload, BlockSize, HeaderOf;
    BlockHeaderReads(bs, k);
    BlockColumns(bs, k);
    BlockStep(bs[k], 0, 0);
    PayloadRoundTrip(bs[k]);
  }

  // ---------------------------------------------------------------- file operations

  method ReadHeader(file: seq<byte>, offset: nat) returns (r: HeaderRead)
    ensures r == ReadHeaderAt(file, offset)
  {
    if offset >= |file| {
      return Eof;
    }
    if |file| - offset < HEADER_SIZE {
      return Corrupt;
    }
    r := match ParseHeader(file[offset..offset + HEADER_SIZE])
      case None => Corrupt
      case Some(h) => Read(h);
  }

  /** Builds index entries by scanning a segment file; none for a corrupt file. */
  method ScanIndex(file: seq<byte>, id: nat) returns (entries: Option<seq<IndexEntry>>)
    ensures entries == ScanFrom(file, id, 0)
  {
    hide ReadHeaderAt;
    var found: seq<IndexEntry> := [];
    var offset := 0;
    assert ScanFrom(file, id, 0) == Prepend([], ScanFrom(file, id, 0)) by {
      if ScanFrom(file, id, 0).Some? {
        assert [] + ScanFrom(file, id, 0).value == ScanFrom(file, id, 0).value;
      }
    }
    while true
      invariant ScanFrom(file, id, 0) == Prepend(found, ScanFrom(file, id, offset))
      decreases |file| - offset
    {
      var r := ReadHeader(file, offset);
      if r.Corrupt? {
        return None;
      }
      if r.Eof? {
        assert found + [] == found;
        return Some(found);
      }
      assert offset < |file| by {
        EofPastEnd(file, offset);
      }
      var next := offset + HEADER_SIZE + r.header.payloadSize;
      PrependTwice(found, [EntryOfHeader(id, offset, r.header)], ScanFrom(file, id, next));
      found := found + [EntryOfHeader(id, offset, r.header)];
      offset := next;
    }
  }

  lemma EofPastEnd(file: seq<byte>, offset: nat)
    ensures offset >= |file| ==> ReadHeaderAt(file, offset) == Eof
  {}

  /** The size used to decide about rotation, found by compressing the points once more. */
  method EstimateBlockSize(ps: seq<Point>) returns (size: nat)
    requires ValidBlock(ps)
    ensures size == BlockSize(ps)
  {
    var timestamps := CompressTimestamps(ps);
    var values := CompressValues(ps);
    assert |timestamps[..]| == timestamps.Length && |values[..]| == values.Length;
    size := HEADER_SIZE + timestamps.Length + values.Length;
  }

  /** Appends one block to a segment file and reports its index entry. */
  method AppendBlock(file: seq<byte>, id: nat, ps: seq<Point>) returns (file': seq<byte>, entry: IndexEntry)
    requires ValidBlock(ps)
    ensures file' == file + BlockBytes(ps) && entry == EntryFor(id, |file|, ps)
  {
    hide HeaderBytes, TimestampBytes, ValueBytes, HeaderOf;
    var timestamps := CompressTimestamps(ps);
    var values := CompressValues(ps);
    assert |timestamps[..]| == timestamps.Length && |values[..]| == values.Length;
    var h := MakeHeader(ps, timestamps.Length, values.Length);
    var offset := |file|;
    var header := WriteHeader(h);
    file' := file + header[..];
    file' := file' + timestamps[..];
    file' := file' + values[..];
    entry := EntryOfHeader(id, offset, h);
    BlockStep(ps, id, offset);
    assert header[..] + (timestamps[..] + values[..]) == BlockBytes(ps);
  }

  /** Reads the block at an index offset back into points. */
  method ReadBlock(file: seq<byte>, offset: nat) returns (r: Option<(Header, seq<Point>)>)
    ensures r == DecodeBlockAt(file, offset)
  {
    hide ReadHeaderAt, DecodeTimestamps, DecodeValues;
    var hr := ReadHeader(file, offset);
    if !hr.Read? {
      return None;
    }
    var h := hr.header;
    var at := offset + HEADER_SIZE;
    var mid := at + h.timestampSize;
    var end := mid + h.valueSize;
    if end > |file| {
      return None;
    }
    var timestamps := new i64[h.pointCount](_ => 0);
    var values := new u64[h.pointCount](_ => 0);
    var ok := DecompressTimestamps(file[at..mid], h.pointCount, timestamps);
    if !ok {
      return None;
    }
    ok := DecompressValues(file[mid..end], h.pointCount, values);
    if !ok {
      return None;
    }
    r := Some((h, Zip(timestamps[..], values[..])));
  }
}
