/** The two lossless column codecs of a block (src/compression/compress.c). */
module Codec {
  import opened Wire

  /** A stored point: a signed timestamp and the binary64 pattern of its value (section 3.4 of IEEE 754-2019). */
  datatype Point = Point(timestamp: i64, bits: u64)

  function Timestamps(ps: seq<Point>): seq<i64> {
    seq(|ps|, i requires 0 <= i < |ps| => ps[i].timestamp)
  }

  function Patterns(ps: seq<Point>): seq<u64> {
    seq(|ps|, i requires 0 <= i < |ps| => ps[i].bits)
  }

  function Prepend<T>(done: seq<T>, rest: Option<seq<T>>): Option<seq<T>> {
    match rest
    case None => None
    case Some(r) => Some(done + r)
  }

  lemma PrependTwice<T>(a: seq<T>, b: seq<T>, rest: Option<seq<T>>)
    ensures Prepend(a, Prepend(b, rest)) == Prepend(a + b, rest)
  {
    if rest.Some? {
      Associative(a, b, rest.value);
    }
  }

  lemma Associative<T>(a: seq<T>, b: seq<T>, c: seq<T>)
    ensures a + (b + c) == (a + b) + c
  {}

  // ---------------------------------------------------------------- timestamps

  function Delta(ps: seq<Point>, i: nat): i64
    requires 1 <= i < |ps|
  {
    Wrap(ps[i].timestamp - ps[i - 1].timestamp)
  }

  function DeltaOfDelta(ps: seq<Point>, i: nat): i64
    requires 2 <= i < |ps|
  {
    Wrap(Delta(ps, i) - Delta(ps, i - 1))
  }

  /** The varints of points `i` and later. */
  function TimestampTail(ps: seq<Point>, i: nat): seq<byte>
    requires 2 <= i
    decreases |ps| - i
  {
    if i >= |ps| then [] else Varint(ZigzagEncode(DeltaOfDelta(ps, i))) + TimestampTail(ps, i + 1)
  }

  function TimestampBytes(ps: seq<Point>): seq<byte> {
    if |ps| == 0 then []
    else if |ps| == 1 then Le(ToU64(ps[0].timestamp), 8)
    else Le(ToU64(ps[0].timestamp), 8) + Le(ToU64(Delta(ps, 1)), 8) + TimestampTail(ps, 2)
  }

  /** Decodes `n` more timestamps and demands that they end the data. */
  function DecodeTimestampTail(data: seq<byte>, cursor: nat, prev: i64, delta: i64, n: nat): (r: Option<seq<i64>>)
    ensures r.Some? ==> |r.value| == n
    decreases n
  {
    if n == 0 then if cursor == |data| then Some([]) else None
    else
      match ReadVarint(data, cursor)
      case None => None
      case Some((u, next)) =>
        var d := Wrap(delta + ZigzagDecode(u));
        var t := Wrap(prev + d);
        Prepend([t], DecodeTimestampTail(data, next, t, d, n - 1))
  }

  function ReadI64(data: seq<byte>, at: nat): i64
    requires at + 8 <= |data|
  {
    WordBound(data[at..at + 8]);
    ToI64(Unle(data[at..at + 8]))
  }

  function DecodeTimestamps(data: seq<byte>, count: nat): (r: Option<seq<i64>>)
    ensures r.Some? ==> |r.value| == count
  {
    if count == 0 then Some([])
    else if |data| < 8 then None
    else
      var first := ReadI64(data, 0);
      if count == 1 then if |data| == 8 then Some([first]) else None
      else if |data| < 16 then None
      else
        var delta := ReadI64(data, 8);
        var second := Wrap(first + delta);
        Prepend([first, second], DecodeTimestampTail(data, 16, second, delta, count - 2))
  }

  lemma {:induction false} TimestampTailDecodes(ps: seq<Point>, data: seq<byte>, cursor: nat, i: nat)
    requires 2 <= i <= |ps| && cursor <= |data| && data[cursor..] == TimestampTail(ps, i)
    ensures DecodeTimestampTail(data, cursor, ps[i - 1].timestamp, Delta(ps, i - 1), |ps| - i)
            == Some(Timestamps(ps)[i..])
    decreases |ps| - i
  {
    hide ZigzagEncode, ZigzagDecode, Wrap, Varint, ReadVarint;
    if i == |ps| {
      assert Timestamps(ps)[i..] == [];
    } else {
      var v := DeltaOfDelta(ps, i);
      var u := ZigzagEncode(v);
      var next := cursor + |Varint(u)|;
      assert data[cursor..next] == data[cursor..][..|Varint(u)|] == Varint(u);
      VarintRoundTrip(u, data, cursor);
      ZigzagRoundTrip(v, u);
      WrapCancels(Delta(ps, i), Delta(ps, i - 1));
      WrapCancels(ps[i].timestamp, ps[i - 1].timestamp);
      assert data[next..] == data[cursor..][|Varint(u)|..] == TimestampTail(ps, i + 1);
      TimestampTailDecodes(ps, data, next, i + 1);
      assert Timestamps(ps)[i..] == [ps[i].timestamp] + Timestamps(ps)[i + 1..];
    }
  }

  /** Decompressing a compressed timestamp column restores it, for every sequence of 64-bit timestamps. */
  lemma TimestampRoundTrip(ps: seq<Point>)
    ensures DecodeTimestamps(TimestampBytes(ps), |ps|) == Some(Timestamps(ps))
  {
    hide Wrap, Le, Unle, TimestampTail, DecodeTimestampTail;
    var data := TimestampBytes(ps);
    if ps == [] {
      assert Timestamps(ps) == [];
    } else {
      var first := ps[0].timestamp;
      Word64(ToU64(first));
      SignedRoundTrip(first);
      assert data[0..8] == Le(ToU64(first), 8);
      if |ps| == 1 {
        assert Timestamps(ps) == [first];
      } else {
        var delta := Delta(ps, 1);
        Word64(ToU64(delta));
        SignedRoundTrip(delta);
        assert data[8..16] == Le(ToU64(delta), 8);
        WrapCancels(ps[1].timestamp, first);
        assert data[16..] == TimestampTail(ps, 2);
        TimestampTailDecodes(ps, data, 16, 2);
        assert Timestamps(ps) == [first, ps[1].timestamp] + Timestamps(ps)[2..];
      }
    }
  }

  lemma {:induction false} TimestampTailBound(ps: seq<Point>, i: nat)
    requires 2 <= i <= |ps|
    ensures |TimestampTail(ps, i)| <= 10 * (|ps| - i)
    decreases |ps| - i
  {
    hide ZigzagEncode, DeltaOfDelta;
    if i < |ps| {
      VarintAtMostTen(ZigzagEncode(DeltaOfDelta(ps, i)));
      TimestampTailBound(ps, i + 1);
    }
  }

  lemma TimestampBound(ps: seq<Point>)
    requires ps != []
    ensures 8 <= |TimestampBytes(ps)| <= if |ps| == 1 then 8 else 10 * |ps| - 4
  {
    if |ps| >= 2 {
      TimestampTailBound(ps, 2);
    }
  }

  /** The sizing pass agrees with the encoding to the byte. */
  method TimestampSize(ps: seq<Point>) returns (size: nat)
    requires ps != []
    ensures size == |TimestampBytes(ps)|
  {
    hide ZigzagEncode, Wrap, Varint, Le;
    size := 8;
    if |ps| >= 2 {
      size := size + 8;
      var prevDelta: i64 := Wrap(ps[1].timestamp - ps[0].timestamp);
      for i := 2 to |ps|
        invariant prevDelta == Delta(ps, i - 1)
        invariant size + |TimestampTail(ps, i)| == |TimestampBytes(ps)|
      {
        var delta := Wrap(ps[i].timestamp - ps[i - 1].timestamp);
        var n := VarintSize(ZigzagEncode(Wrap(delta - prevDelta)));
        size := size + n;
        prevDelta := delta;
      }
    }
  }

  /** Two passes: the first sizes the buffer, the second fills it exactly. */
  method CompressTimestamps(ps: seq<Point>) returns (out: array<byte>)
    ensures fresh(out) && out[..] == TimestampBytes(ps)
  {
    hide ZigzagEncode, Wrap, Varint, Le;
    if |ps| == 0 {
      return new byte[0];
    }
    var size := TimestampSize(ps);
    out := new byte[size](_ => 0);
    FillTimestamps(out, ps);
  }

  lemma TimestampTailStep(ps: seq<Point>, i: nat)
    requires 2 <= i <= |ps|
    ensures TimestampTail(ps, i) ==
            if i == |ps| then [] else Varint(ZigzagEncode(DeltaOfDelta(ps, i))) + TimestampTail(ps, i + 1)
  {}

  method FillTimestamps(out: array<byte>, ps: seq<Point>)
    requires ps != [] && out.Length == |TimestampBytes(ps)|
    modifies out
    ensures out[..] == TimestampBytes(ps)
  {
    hide ZigzagEncode, Wrap, Varint, Le, TimestampTail;
    WriteLe(out, 0, ToU64(ps[0].timestamp), 8);
    if |ps| >= 2 {
      WriteLe(out, 8, ToU64(Wrap(ps[1].timestamp - ps[0].timestamp)), 8);
      FillDeltas(out, ps, 16);
    }
  }

  lemma DeltasOf(ps: seq<Point>, i: nat)
    requires 2 <= i < |ps|
    ensures Delta(ps, i) == Wrap(ps[i].timestamp - ps[i - 1].timestamp)
    ensures DeltaOfDelta(ps, i) == Wrap(Delta(ps, i) - Delta(ps, i - 1))
  {
    hide Wrap;
  }

  /** The deltas of deltas behind the first two timestamps. */
  method FillDeltas(out: array<byte>, ps: seq<Point>, start: nat)
    requires |ps| >= 2 && start + |TimestampTail(ps, 2)| == out.Length
    modifies out
    ensures out[..] == old(out[..start]) + TimestampTail(ps, 2)
  {
    hide ZigzagEncode, Wrap, Varint, TimestampTail, DeltaOfDelta;
    var cursor := start;
    var prevDelta: i64 := Wrap(ps[1].timestamp - ps[0].timestamp);
    ghost var done := out[..start];
    for i := 2 to |ps|
      invariant prevDelta == Delta(ps, i - 1)
      invariant cursor == |done| && cursor + |TimestampTail(ps, i)| == out.Length
      invariant out[..cursor] == done && done + TimestampTail(ps, i) == old(out[..start]) + TimestampTail(ps, 2)
    {
      var delta := Wrap(ps[i].timestamp - ps[i - 1].timestamp);
      DeltasOf(ps, i);
      ghost var code := Varint(ZigzagEncode(DeltaOfDelta(ps, i)));
      TimestampTailStep(ps, i);
      Associative(done, code, TimestampTail(ps, i + 1));
      cursor := WriteVarint(out, cursor, ZigzagEncode(Wrap(delta - prevDelta)));
      done := done + code;
      prevDelta := delta;
    }
    TimestampTailStep(ps, |ps|);
  }

  lemma DecodeTailStep(data: seq<byte>, cursor: nat, prev: i64, delta: i64, n: nat)
    requires n > 0
    ensures DecodeTimestampTail(data, cursor, prev, delta, n) ==
            match ReadVarint(data, cursor)
            case None => None
            case Some((u, next)) =>
              var d := Wrap(delta + ZigzagDecode(u));
              Prepend([Wrap(prev + d)], DecodeTimestampTail(data, next, Wrap(prev + d), d, n - 1))
  {}

  lemma DecodeTailEnd(data: seq<byte>, cursor: nat, prev: i64, delta: i64)
    ensures DecodeTimestampTail(data, cursor, prev, delta, 0) == if cursor == |data| then Some([]) else None
  {}

  /** Fills `out` in place; false stands for a corrupt stream. */
  method DecompressTimestamps(data: seq<byte>, count: nat, out: array<i64>) returns (ok: bool)
    requires out.Length == count
    modifies out
    ensures ok <==> DecodeTimestamps(data, count).Some?
    ensures ok ==> out[..] == DecodeTimestamps(data, count).value
  {
    hide ZigzagDecode, Wrap, ReadVarint, Unle, DecodeTimestampTail;
    if count == 0 {
      return true;
    }
    if |data| < 8 {
      return false;
    }
    out[0] := ReadI64(data, 0);
    if count == 1 {
      return |data| == 8;
    }
    if |data| < 16 {
      return false;
    }
    var delta: i64 := ReadI64(data, 8);
    out[1] := Wrap(out[0] as int + delta);
    assert out[..2] == [out[0], out[1]];
    ok := DecompressDeltas(data, 16, delta, out);
  }

  /** The timestamps behind the first two. */
  method DecompressDeltas(data: seq<byte>, start: nat, firstDelta: i64, out: array<i64>) returns (ok: bool)
    requires out.Length >= 2 && start <= |data|
    modifies out
    ensures var spec := DecodeTimestampTail(data, start, old(out[1]), firstDelta, out.Length - 2);
            (ok <==> spec.Some?) && (ok ==> out[..] == old(out[..2]) + spec.value)
  {
    hide ZigzagDecode, Wrap, ReadVarint, DecodeTimestampTail;
    var cursor: nat, prevDelta: i64 := start, firstDelta;
    ghost var done: seq<i64> := [];
    ghost var spec := DecodeTimestampTail(data, start, out[1], firstDelta, out.Length - 2);
    assert spec.Some? ==> [] + spec.value == spec.value;
    for i := 2 to out.Length
      invariant cursor <= |data| && out[..i] == old(out[..2]) + done
      invariant spec == Prepend(done, DecodeTimestampTail(data, cursor, out[i - 1], prevDelta, out.Length - i))
    {
      ghost var before := out[..i];
      DecodeTailStep(data, cursor, out[i - 1], prevDelta, out.Length - i);
      var r := ReadVarintLoop(data, cursor);
      if r.None? {
        return false;
      }
      cursor := r.value.1;
      prevDelta := Wrap(prevDelta + ZigzagDecode(r.value.0));
      out[i] := Wrap(out[i - 1] as int + prevDelta);
      PrependTwice(done, [out[i]], DecodeTimestampTail(data, cursor, out[i], prevDelta, out.Length - i - 1));
      assert out[..i + 1] == before + [out[i]];
      done := done + [out[i]];
    }
    DecodeTailEnd(data, cursor, out[out.Length - 1], prevDelta);
    assert done + [] == done;
    ok := cursor == |data|;
  }

  /** Where the first timestamp and the first delta stand. */
  lemma TimestampFields(ps: seq<Point>)
    requires ps != []
    ensures 8 <= |TimestampBytes(ps)| && TimestampBytes(ps)[..8] == Le(ToU64(ps[0].timestamp), 8)
    ensures |ps| >= 2 ==>
              && 16 <= |TimestampBytes(ps)|
              && TimestampBytes(ps)[8..16] == Le(ToU64(Wrap(ps[1].timestamp - ps[0].timestamp)), 8)
  {
    hide Le, Wrap, TimestampTail;
  }

  /** Consecutive timestamps keep their distance. */
  predicate Regular(ps: seq<Point>, d: i64) {
    forall k :: 1 <= k < |ps| ==> Wrap(ps[k].timestamp - ps[k - 1].timestamp) == d
  }

  lemma NoDelta(ps: seq<Point>, d: i64, i: nat)
    requires 2 <= i < |ps| && Regular(ps, d)
    ensures Varint(ZigzagEncode(DeltaOfDelta(ps, i))) == [0]
  {
    ZigzagValue(0);
    assert Delta(ps, i) == d && Delta(ps, i - 1) == d;
  }

  lemma {:induction false} RegularTail(ps: seq<Point>, i: nat, d: i64)
    requires 2 <= i <= |ps| && Regular(ps, d)
    ensures TimestampTail(ps, i) == Zeros(|ps| - i)
    decreases |ps| - i
  {
    hide Varint, ZigzagEncode, DeltaOfDelta, Regular;
    if i < |ps| {
      RegularTail(ps, i + 1, d);
      NoDelta(ps, d, i);
      assert Zeros(|ps| - i) == [0] + Zeros(|ps| - i - 1);
    }
  }

  /** Behind the first two, a timestamp that keeps the distance costs a single zero byte. */
  lemma RegularTimestamps(ps: seq<Point>, d: i64)
    requires |ps| >= 2 && Regular(ps, d)
    ensures TimestampBytes(ps) == Le(ToU64(ps[0].timestamp), 8) + Le(ToU64(d), 8) + Zeros(|ps| - 2)
  {
    hide Le, Wrap, TimestampTail;
    RegularTail(ps, 2, d);
  }

  // ---------------------------------------------------------------- columns of the wrong length

  lemma {:induction false} VarintStays(data: seq<byte>, more: seq<byte>, cursor: nat, shift: nat, scale: nat, acc: u64)
    requires ReadVarintFrom(data, cursor, shift, scale, acc).Some?
    ensures ReadVarintFrom(data + more, cursor, shift, scale, acc) == ReadVarintFrom(data, cursor, shift, scale, acc)
    decreases |data| - cursor
  {
    if data[cursor] >= 128 {
      VarintStays(data, more, cursor + 1, shift + 7, 128 * scale,
                  (acc + data[cursor] % 128 * scale) % TWO64);
    }
  }

  lemma {:induction false} LongerTimestampTail(data: seq<byte>, more: seq<byte>, cursor: nat, prev: i64, delta: i64,
                                               n: nat)
    requires more != [] && DecodeTimestampTail(data, cursor, prev, delta, n).Some?
    ensures DecodeTimestampTail(data + more, cursor, prev, delta, n).None?
    decreases n
  {
    hide ZigzagDecode, Wrap, ReadVarintFrom;
    if n > 0 {
      VarintStays(data, more, cursor, 0, 1, 0);
      var (u, next) := ReadVarint(data, cursor).value;
      var d := Wrap(delta + ZigzagDecode(u));
      LongerTimestampTail(data, more, next, Wrap(prev + d), d, n - 1);
    }
  }

  /** A timestamp column is refused when something is missing at its end or stands behind it. */
  lemma TimestampLength(data: seq<byte>, more: seq<byte>, count: nat)
    requires count > 0 && more != []
    ensures DecodeTimestamps(data, count).None? || DecodeTimestamps(data + more, count).None?
  {
    hide ZigzagDecode, Wrap, Unle, DecodeTimestampTail;
    if DecodeTimestamps(data, count).Some? && count > 1 {
      assert (data + more)[0..8] == data[0..8] && (data + more)[8..16] == data[8..16];
      var first: int, delta := ReadI64(data, 0), ReadI64(data, 8);
      LongerTimestampTail(data, more, 16, Wrap(first + delta), delta, count - 2);
    }
  }

  lemma ValueStays(data: seq<byte>, more: seq<byte>, cursor: nat, prev: u64)
    requires DecodeValue(data, cursor, prev).Some?
    ensures DecodeValue(data + more, cursor, prev) == DecodeValue(data, cursor, prev)
  {
    hide Xor, Unle;
    if data[cursor] == 1 {
      WindowStays(data, more, cursor + 3, data[cursor + 1], data[cursor + 2]);
    } else if data[cursor] == 2 {
      assert (data + more)[cursor + 1..cursor + 9] == data[cursor + 1..cursor + 9];
    }
  }

  lemma {:induction false} WindowStays(data: seq<byte>, more: seq<byte>, cursor: nat, leading: nat, n: nat)
    requires cursor + n <= |data| && leading + n <= 8
    ensures WindowValue(data + more, cursor, leading, n) == WindowValue(data, cursor, leading, n)
    decreases n
  {
    if n > 0 {
      WindowStays(data, more, cursor + 1, leading + 1, n - 1);
    }
  }

  lemma {:induction false} LongerValueTail(data: seq<byte>, more: seq<byte>, cursor: nat, prev: u64, n: nat)
    requires more != [] && DecodeValueTail(data, cursor, prev, n).Some?
    ensures DecodeValueTail(data + more, cursor, prev, n).None?
    decreases n
  {
    hide DecodeValue;
    if n > 0 {
      ValueStays(data, more, cursor, prev);
      var (current, next) := DecodeValue(data, cursor, prev).value;
      LongerValueTail(data, more, next, current, n - 1);
    }
  }

  /** The same for a value column. */
  lemma ValueLength(data: seq<byte>, more: seq<byte>, count: nat)
    requires count > 0 && more != []
    ensures DecodeValues(data, count).None? || DecodeValues(data + more, count).None?
  {
    hide Unle, DecodeValueTail;
    if DecodeValues(data, count).Some? {
      assert (data + more)[0..8] == data[0..8];
      WordBound(data[0..8]);
      LongerValueTail(data, more, 8, Unle(data[0..8]), count - 1);
    }
  }

  // ---------------------------------------------------------------- values

  /** Zero bytes of `x` from byte `top - 1` downwards. */
  function LeadingZeros(x: nat, top: nat): (n: nat)
    ensures n <= top
    ensures forall k :: top - n <= k < top ==> ByteAt(x, k) == 0
    ensures n < top ==> ByteAt(x, top - n - 1) != 0
  {
    if top == 0 || ByteAt(x, top - 1) != 0 then 0 else 1 + LeadingZeros(x, top - 1)
  }

  /** Zero bytes of `x` from byte `k` upwards. */
  function TrailingZeros(x: nat, k: nat): (n: nat)
    requires k <= 8
    ensures n <= 8 - k
    ensures forall j :: k <= j < k + n ==> ByteAt(x, j) == 0
    ensures n < 8 - k ==> ByteAt(x, k + n) != 0
    decreases 8 - k
  {
    if k == 8 || ByteAt(x, k) != 0 then 0 else 1 + TrailingZeros(x, k + 1)
  }

  lemma NonZeroHasDigit(x: u64)
    ensures x != 0 ==> LeadingZeros(x, 8) + TrailingZeros(x, 0) <= 7
  {
    if x != 0 && LeadingZeros(x, 8) == 8 {
      forall k | 0 <= k < 8
        ensures Le(x, 8)[k] == 0
      {
        ByteAtIsDigit(x, 8, k);
      }
      assert Le(x, 8) == Zeros(8);
      UnleZeros(8);
      Word64(x);
      assert false;
    }
  }

  /** The window of significant bytes, most significant first. */
  function Window(x: nat, leading: nat, significant: nat): (s: seq<byte>)
    requires leading + significant <= 8
    ensures |s| == significant
  {
    seq(significant, j requires 0 <= j < significant => ByteAt(x, 7 - (leading + j)))
  }

  function ValueRecord(prev: u64, current: u64): seq<byte> {
    var x := Xor(prev, current);
    XorWord(prev, current);
    if x == 0 then [0]
    else
      NonZeroHasDigit(x);
      var leading, trailing := LeadingZeros(x, 8), TrailingZeros(x, 0);
      var significant := 8 - leading - trailing;
      if significant + 3 < 9 then [1, leading, significant] + Window(x, leading, significant)
      else [2] + Le(x, 8)
  }

  /** The records of points `i` and later. */
  function ValueTail(ps: seq<Point>, i: nat): seq<byte>
    requires 1 <= i
    decreases |ps| - i
  {
    if i >= |ps| then [] else ValueRecord(ps[i - 1].bits, ps[i].bits) + ValueTail(ps, i + 1)
  }

  function ValueBytes(ps: seq<Point>): seq<byte> {
    if |ps| == 0 then [] else Le(ps[0].bits, 8) + ValueTail(ps, 1)
  }

  /** A record of the bytes of a word between the outermost ones that are not zero, the highest first. */
  predicate HoldsWindow(r: seq<byte>, bytes: seq<byte>)
    requires |bytes| == 8
  {
    && 4 <= |r| < 9 && r[0] == 1 && r[2] == |r| - 3 && r[3] != 0 && r[|r| - 1] != 0
    && var leading: nat, n: nat := r[1], r[2];
       && leading + n <= 8
       && forall k :: 0 <= k < 8 ==> bytes[k] == if 8 - leading - n <= k < 8 - leading then r[10 - leading - k] else 0
  }

  lemma WindowRecord(x: u64, leading: nat, trailing: nat)
    requires x != 0 && leading == LeadingZeros(x, 8) && trailing == TrailingZeros(x, 0) && 2 < leading + trailing < 8
    ensures var significant := 8 - leading - trailing;
            HoldsWindow([1, leading, significant] + Window(x, leading, significant), Le(x, 8))
  {
    hide Le, ByteAt, LeadingZeros, TrailingZeros;
    forall k | 0 <= k < 8
      ensures Le(x, 8)[k] == ByteAt(x, k)
    {
      ByteAtIsDigit(x, 8, k);
    }
  }

  /** At most two bytes at the ends of a word can be left out. */
  ghost predicate Wide(bytes: seq<byte>)
    requires |bytes| == 8
  {
    forall high: nat, low: nat ::
      high + low <= 8 && bytes[..low] == Zeros(low) && bytes[8 - high..] == Zeros(high) ==> high + low <= 2
  }

  lemma ZeroEnds(bytes: seq<byte>, high: nat, low: nat)
    requires |bytes| == 8 && high + low <= 8 && bytes[..low] == Zeros(low) && bytes[8 - high..] == Zeros(high)
    ensures forall k :: 0 <= k < 8 && (k < low || k >= 8 - high) ==> bytes[k] == 0
  {
    assert forall k :: 0 <= k < low ==> bytes[k] == bytes[..low][k];
    assert forall k :: 8 - high <= k < 8 ==> bytes[k] == bytes[8 - high..][k - (8 - high)];
  }

  lemma WideWord(x: u64)
    requires x != 0 && LeadingZeros(x, 8) + TrailingZeros(x, 0) <= 2
    ensures Wide(Le(x, 8))
  {
    var bytes, leading, trailing := Le(x, 8), LeadingZeros(x, 8), TrailingZeros(x, 0);
    ByteAtIsDigit(x, 8, 7 - leading);
    ByteAtIsDigit(x, 8, trailing);
    hide Le, ByteAt, LeadingZeros, TrailingZeros;
    forall high: nat, low: nat
      | high + low <= 8 && bytes[..low] == Zeros(low) && bytes[8 - high..] == Zeros(high)
      ensures high + low <= 2
    {
      ZeroEnds(bytes, high, low);
    }
  }

  /**
   * What the record of a value holds. A single zero stands for a value like the one before. Otherwise the bits that
   * differ follow: behind a 1 the bytes that are needed, with their place, or behind a 2 all of them, the lowest first,
   * when two bytes at most could be left out.
   */
  lemma RecordFields(prev: u64, current: u64)
    ensures var r, bytes := ValueRecord(prev, current), Le(Xor(prev, current), 8);
            if prev == current then r == [0] else HoldsWindow(r, bytes) || (Wide(bytes) && r == [2] + bytes)
  {
    hide Xor, Le, LeadingZeros, TrailingZeros, Window, HoldsWindow, Wide;
    var x := Xor(prev, current);
    XorWord(prev, current);
    XorZero(prev, current);
    NonZeroHasDigit(x);
    if x != 0 && 8 - LeadingZeros(x, 8) - TrailingZeros(x, 0) + 3 < 9 {
      WindowRecord(x, LeadingZeros(x, 8), TrailingZeros(x, 0));
    } else if x != 0 {
      WideWord(x);
    }
  }

  /** The number whose byte `7 - leading - j` is the j-th of `n` bytes of the stream. */
  function WindowValue(data: seq<byte>, cursor: nat, leading: nat, n: nat): (x: nat)
    requires cursor + n <= |data| && leading + n <= 8
    ensures x < Pow256(8 - leading)
    decreases n
  {
    if n == 0 then 0
    else
      ShiftByteBound(data[cursor], 7 - leading);
      ShiftByte(data[cursor], 7 - leading) + WindowValue(data, cursor + 1, leading + 1, n - 1)
  }

  lemma {:induction false} Pow256Monotone(a: nat, b: nat)
    requires a <= b
    ensures Pow256(a) <= Pow256(b)
  {
    if a < b {
      Pow256Monotone(a, b - 1);
    }
  }

  lemma WindowValueWord(data: seq<byte>, cursor: nat, leading: nat, n: nat)
    requires cursor + n <= |data| && leading + n <= 8
    ensures WindowValue(data, cursor, leading, n) < TWO64
  {
    Pow256Words();
    Pow256Monotone(8 - leading, 8);
  }

  /** One record: the pattern it stands for and the cursor behind it. */
  function DecodeValue(data: seq<byte>, cursor: nat, prev: u64): (r: Option<(u64, nat)>)
    ensures r.Some? ==> cursor < r.value.1 <= |data|
  {
    if cursor >= |data| then None
    else if data[cursor] == 1 then
      if |data| - (cursor + 1) < 2 then None
      else
        var leading, significant := data[cursor + 1], data[cursor + 2];
        if leading >= 8 || significant == 0 || significant > 8 || leading + significant > 8 then None
        else if |data| - (cursor + 3) < significant then None
        else
          WindowValueWord(data, cursor + 3, leading, significant);
          XorWord(prev, WindowValue(data, cursor + 3, leading, significant));
          Some((Xor(prev, WindowValue(data, cursor + 3, leading, significant)), cursor + 3 + significant))
    else if data[cursor] == 2 then
      if |data| - (cursor + 1) < 8 then None
      else
        WordBound(data[cursor + 1..cursor + 9]);
        XorWord(prev, Unle(data[cursor + 1..cursor + 9]));
        Some((Xor(prev, Unle(data[cursor + 1..cursor + 9])), cursor + 9))
    else if data[cursor] == 0 then Some((prev, cursor + 1))
    else None
  }

  function DecodeValueTail(data: seq<byte>, cursor: nat, prev: u64, n: nat): (r: Option<seq<u64>>)
    ensures r.Some? ==> |r.value| == n
    decreases n
  {
    if n == 0 then if cursor == |data| then Some([]) else None
    else
      match DecodeValue(data, cursor, prev)
      case None => None
      case Some((current, next)) =>
        Prepend([current], DecodeValueTail(data, next, current, n - 1))
  }

  function DecodeValues(data: seq<byte>, count: nat): (r: Option<seq<u64>>)
    ensures r.Some? ==> |r.value| == count
  {
    if count == 0 then Some([])
    else if |data| < 8 then None
    else
      WordBound(data[0..8]);
      var first := Unle(data[0..8]);
      Prepend([first], DecodeValueTail(data, 8, first, count - 1))
  }

  /** Unfolds one byte of the window. */
  lemma WindowFirst(x: u64, data: seq<byte>, cursor: nat, leading: nat, n: nat)
    requires n > 0 && cursor + n <= |data| && leading + n <= 8
    requires data[cursor..cursor + n] == Window(x, leading, n)
    ensures data[cursor] == Le(x, 8)[7 - leading]
    ensures data[cursor + 1..cursor + n] == Window(x, leading + 1, n - 1)
    ensures WindowValue(data, cursor, leading, n)
            == ShiftByte(data[cursor], 7 - leading) + WindowValue(data, cursor + 1, leading + 1, n - 1)
  {
    hide Le, ByteAt, ShiftByte;
    assert data[cursor] == data[cursor..cursor + n][0] == Window(x, leading, n)[0];
    assert data[cursor + 1..cursor + n] == data[cursor..cursor + n][1..];
    ByteAtIsDigit(x, 8, 7 - leading);
  }

  lemma WindowNone(x: u64, data: seq<byte>, cursor: nat, leading: nat)
    requires cursor <= |data| && leading <= 8
    ensures WindowValue(data, cursor, leading, 0)
            == Unle(Zeros(8 - leading) + Le(x, 8)[8 - leading..8 - leading])
  {
    hide Le, Unle;
    UnleZeros(8 - leading);
    assert Zeros(8 - leading) + Le(x, 8)[8 - leading..8 - leading] == Zeros(8 - leading);
  }

  lemma OneMoreDigit(zeros: seq<byte>, digits: seq<byte>, a: nat, b: nat)
    requires a <= b < |digits|
    ensures zeros + digits[a..b + 1] == zeros + digits[a..b] + [digits[b]]
  {}

  lemma {:induction false} WindowDigits(x: u64, data: seq<byte>, cursor: nat, leading: nat, n: nat)
    requires cursor + n <= |data| && leading + n <= 8
    requires data[cursor..cursor + n] == Window(x, leading, n)
    ensures WindowValue(data, cursor, leading, n)
            == Unle(Zeros(8 - leading - n) + Le(x, 8)[8 - leading - n..8 - leading])
    decreases n
  {
    hide Le, Unle, ShiftByte, Window, WindowValue;
    var digits := Le(x, 8);
    var low := 8 - leading - n;
    if n == 0 {
      WindowNone(x, data, cursor, leading);
    } else {
      WindowFirst(x, data, cursor, leading, n);
      WindowDigits(x, data, cursor + 1, leading + 1, n - 1);
      OneMoreDigit(Zeros(low), digits, low, 7 - leading);
      UnleSnoc(Zeros(low) + digits[low..7 - leading], digits[7 - leading]);
    }
  }

  /** The byte window between the zero ends of `x` determines `x`. */
  lemma WindowRestores(x: u64, data: seq<byte>, cursor: nat)
    requires x != 0
    requires LeadingZeros(x, 8) + TrailingZeros(x, 0) <= 7
    requires var n := 8 - LeadingZeros(x, 8) - TrailingZeros(x, 0);
             cursor + n <= |data| && data[cursor..cursor + n] == Window(x, LeadingZeros(x, 8), n)
    ensures WindowValue(data, cursor, LeadingZeros(x, 8), 8 - LeadingZeros(x, 8) - TrailingZeros(x, 0)) == x
  {
    hide WindowValue, Le, Unle, ByteAt, LeadingZeros, TrailingZeros;
    var leading, trailing, digits := LeadingZeros(x, 8), TrailingZeros(x, 0), Le(x, 8);
    WindowDigits(x, data, cursor, leading, 8 - leading - trailing);
    forall k | 0 <= k < 8
      ensures digits[k] == ByteAt(x, k)
    {
      ByteAtIsDigit(x, 8, k);
    }
    var kept := Zeros(trailing) + digits[trailing..8 - leading];
    assert digits == kept + Zeros(leading);
    UnlePadded(kept, leading);
    Word64(x);
  }

  lemma ValueRecordDecodes(prev: u64, current: u64, data: seq<byte>, cursor: nat)
    requires var code := ValueRecord(prev, current);
             cursor + |code| <= |data| && data[cursor..cursor + |code|] == code
    ensures DecodeValue(data, cursor, prev) == Some((current, cursor + |ValueRecord(prev, current)|))
  {
    hide WindowValue, Le, Unle, Xor, LeadingZeros, TrailingZeros, Window;
    var x, code := Xor(prev, current), ValueRecord(prev, current);
    XorWord(prev, current);
    XorZero(prev, current);
    XorSelfInverse(prev, current);
    assert data[cursor] == data[cursor..cursor + |code|][0] == code[0];
    if x != 0 {
      NonZeroHasDigit(x);
      var leading, trailing := LeadingZeros(x, 8), TrailingZeros(x, 0);
      var n := 8 - leading - trailing;
      if n + 3 < 9 {
        RecordBytes(data, cursor, leading, n, Window(x, leading, n));
        WindowRestores(x, data, cursor + 3);
      } else {
        assert data[cursor + 1..cursor + 9] == data[cursor..cursor + |code|][1..] == Le(x, 8);
        Word64(x);
      }
    }
  }

  lemma RecordBytes(data: seq<byte>, cursor: nat, leading: byte, n: byte, window: seq<byte>)
    requires cursor + 3 + |window| <= |data| && |window| == n
    requires data[cursor..cursor + 3 + n] == [1, leading, n] + window
    ensures data[cursor] == 1 && data[cursor + 1] == leading && data[cursor + 2] == n
    ensures data[cursor + 3..cursor + 3 + n] == window
  {
    var code := [1, leading, n] + window;
    assert data[cursor + 0] == data[cursor..cursor + 3 + n][0] == code[0];
    assert data[cursor + 1] == data[cursor..cursor + 3 + n][1] == code[1];
    assert data[cursor + 2] == data[cursor..cursor + 3 + n][2] == code[2];
    assert data[cursor + 3..cursor + 3 + n] == data[cursor..cursor + 3 + n][3..] == code[3..];
  }

  lemma {:induction false} ValueTailDecodes(ps: seq<Point>, data: seq<byte>, cursor: nat, i: nat)
    requires 1 <= i <= |ps| && cursor <= |data| && data[cursor..] == ValueTail(ps, i)
    ensures DecodeValueTail(data, cursor, ps[i - 1].bits, |ps| - i) == Some(Patterns(ps)[i..])
    decreases |ps| - i
  {
    hide ValueRecord, DecodeValue;
    if i == |ps| {
      assert Patterns(ps)[i..] == [];
    } else {
      var code := ValueRecord(ps[i - 1].bits, ps[i].bits);
      var next := cursor + |code|;
      assert data[cursor..next] == data[cursor..][..|code|] == code;
      ValueRecordDecodes(ps[i - 1].bits, ps[i].bits, data, cursor);
      assert data[next..] == data[cursor..][|code|..] == ValueTail(ps, i + 1);
      ValueTailDecodes(ps, data, next, i + 1);
      assert Patterns(ps)[i..] == [ps[i].bits] + Patterns(ps)[i + 1..];
    }
  }

  /** Decompressing a compressed value column restores every bit pattern, NaN payloads and signed zeros included. */
  lemma ValueRoundTrip(ps: seq<Point>)
    ensures DecodeValues(ValueBytes(ps), |ps|) == Some(Patterns(ps))
  {
    hide Le, Unle, ValueTail, DecodeValueTail;
    if ps == [] {
      assert Patterns(ps) == [];
    } else {
      var data := ValueBytes(ps);
      assert data[0..8] == Le(ps[0].bits, 8);
      Word64(ps[0].bits);
      assert data[8..] == ValueTail(ps, 1);
      ValueTailDecodes(ps, data, 8, 1);
      assert Patterns(ps) == [ps[0].bits] + Patterns(ps)[1..];
    }
  }

  lemma {:induction false} ValueTailBound(ps: seq<Point>, i: nat)
    requires 1 <= i <= |ps|
    ensures |ValueTail(ps, i)| <= 9 * (|ps| - i)
    decreases |ps| - i
  {
    hide ValueRecord;
    if i < |ps| {
      RecordAtMostNine(ps[i - 1].bits, ps[i].bits);
      ValueTailBound(ps, i + 1);
    }
  }

  lemma RecordAtMostNine(prev: u64, current: u64)
    ensures |ValueRecord(prev, current)| <= 9
  {
    hide Le, Xor, LeadingZeros, TrailingZeros, Window;
  }

  lemma ValueBound(ps: seq<Point>)
    requires ps != []
    ensures 8 <= |ValueBytes(ps)| <= 9 * |ps| - 1
  {
    ValueTailBound(ps, 1);
  }

  method LeadingZeroBytes(x: u64) returns (count: nat)
    ensures count == LeadingZeros(x, 8)
  {
    count := 0;
    var top := 8;
    while top > 0 && ByteAt(x, top - 1) == 0
      invariant 0 <= top <= 8 && count + LeadingZeros(x, top) == LeadingZeros(x, 8)
    {
      count := count + 1;
      top := top - 1;
    }
  }

  method TrailingZeroBytes(x: u64) returns (count: nat)
    ensures count == TrailingZeros(x, 0)
  {
    count := 0;
    while count < 8 && ByteAt(x, count) == 0
      invariant count <= 8 && count + TrailingZeros(x, count) == TrailingZeros(x, 0)
    {
      count := count + 1;
    }
  }

  /** The sizing pass agrees with the encoding to the byte, for all three markers. */
  method ValueSize(ps: seq<Point>) returns (size: nat)
    requires ps != []
    ensures size == |ValueBytes(ps)|
  {
    hide Le, Xor, LeadingZeros, TrailingZeros;
    size := 8;
    for i := 1 to |ps|
      invariant size + |ValueTail(ps, i)| == |ValueBytes(ps)|
    {
      var x := Xor(ps[i - 1].bits, ps[i].bits);
      XorWord(ps[i - 1].bits, ps[i].bits);
      if x == 0 {
        size := size + 1;
      } else {
        NonZeroHasDigit(x);
        var leading := LeadingZeroBytes(x);
        var trailing := TrailingZeroBytes(x);
        var significant := 8 - leading - trailing;
        size := size + if significant + 3 < 9 then significant + 3 else 9;
      }
    }
  }

  /** Two passes: the first sizes the buffer record by record, the second fills it exactly. */
  method CompressValues(ps: seq<Point>) returns (out: array<byte>)
    ensures fresh(out) && out[..] == ValueBytes(ps)
  {
    hide Le, ValueRecord;
    if |ps| == 0 {
      return new byte[0];
    }
    var size := ValueSize(ps);
    out := new byte[size](_ => 0);
    FillValues(out, ps);
  }

  method FillValues(out: array<byte>, ps: seq<Point>)
    requires ps != [] && out.Length == |ValueBytes(ps)|
    modifies out
    ensures out[..] == ValueBytes(ps)
  {
    hide Le, ValueRecord;
    WriteLe(out, 0, ps[0].bits, 8);
    var cursor: nat := 8;
    ghost var done := Le(ps[0].bits, 8);
    for i := 1 to |ps|
      invariant cursor == |done| && cursor + |ValueTail(ps, i)| == out.Length
      invariant out[..cursor] == done && done + ValueTail(ps, i) == ValueBytes(ps)
    {
      ghost var code := ValueRecord(ps[i - 1].bits, ps[i].bits);
      Associative(done, code, ValueTail(ps, i + 1));
      cursor := WriteRecord(out, cursor, ps[i - 1].bits, ps[i].bits);
      done := done + code;
    }
  }

  method WriteWindow(out: array<byte>, start: nat, x: u64, leading: nat, significant: nat) returns (cursor: nat)
    requires leading + significant <= 8 && start + significant <= out.Length
    modifies out
    ensures cursor == start + significant
    ensures out[..cursor] == old(out[..start]) + Window(x, leading, significant)
  {
    hide ByteAt;
    cursor := start;
    for j := 0 to significant
      invariant cursor == start + j
      invariant out[..cursor] == old(out[..start]) + Window(x, leading, significant)[..j]
    {
      ghost var done := out[..cursor];
      out[cursor] := ByteAt(x, 7 - (leading + j));
      cursor := cursor + 1;
      assert out[..cursor] == done + [Window(x, leading, significant)[j]];
    }
  }

  /** The three forms of a record: unchanged, a byte window, or the whole word. */
  lemma RecordForms(prev: u64, current: u64)
    ensures var x, code := Xor(prev, current), ValueRecord(prev, current);
            var leading, trailing := LeadingZeros(x, 8), TrailingZeros(x, 0);
            && x < TWO64
            && (x == 0 ==> code == [0])
            && (x != 0 ==>
                  && leading + trailing <= 7
                  && code == if 11 - leading - trailing < 9
                             then [1, leading, 8 - leading - trailing] + Window(x, leading, 8 - leading - trailing)
                             else [2] + Le(x, 8))
  {
    hide Le, Xor, LeadingZeros, TrailingZeros, Window;
    XorWord(prev, current);
    if Xor(prev, current) != 0 {
      NonZeroHasDigit(Xor(prev, current));
    }
  }

  method WriteRecord(out: array<byte>, start: nat, prev: u64, current: u64) returns (cursor: nat)
    requires start + |ValueRecord(prev, current)| <= out.Length
    modifies out
    ensures cursor == start + |ValueRecord(prev, current)|
    ensures out[..cursor] == old(out[..start]) + ValueRecord(prev, current)
  {
    hide Le, Xor, LeadingZeros, TrailingZeros, Window, ValueRecord;
    cursor := start;
    RecordForms(prev, current);
    var x := Xor(prev, current);
    if x == 0 {
      out[cursor] := 0;
      cursor := cursor + 1;
    } else {
      var leading := LeadingZeroBytes(x);
      var trailing := TrailingZeroBytes(x);
      var significant := 8 - leading - trailing;
      if significant + 3 < 9 {
        out[cursor], out[cursor + 1], out[cursor + 2] := 1, leading, significant;
        assert out[..cursor + 3] == old(out[..start]) + [1, leading, significant];
        cursor := WriteWindow(out, cursor + 3, x, leading, significant);
        Associative(old(out[..start]), [1, leading, significant], Window(x, leading, significant));
      } else {
        out[cursor] := 2;
        assert out[..cursor + 1] == old(out[..start]) + [2];
        WriteLe(out, cursor + 1, x, 8);
        Associative(old(out[..start]), [2], Le(x, 8));
        cursor := cursor + 9;
      }
    }
  }

  /** Fills `out` in place; false stands for a corrupt stream. */
  method DecompressValues(data: seq<byte>, count: nat, out: array<u64>) returns (ok: bool)
    requires out.Length == count
    modifies out
    ensures ok <==> DecodeValues(data, count).Some?
    ensures ok ==> out[..] == DecodeValues(data, count).value
  {
    if count == 0 {
      return true;
    }
    if |data| < 8 {
      return false;
    }
    hide Unle, DecodeValue;
    ghost var spec := DecodeValues(data, count);
    var word := ReadLe(data, 0, 8);
    WordBound(data[0..8]);
    var prev: u64 := word;
    var cursor: nat := 8;
    out[0] := prev;
    ghost var done := [prev];
    for i := 1 to count
      invariant cursor <= |data| && out[..i] == done
      invariant spec == Prepend(done, DecodeValueTail(data, cursor, prev, count - i))
    {
      var r := ReadRecord(data, cursor, prev);
      if r.None? {
        return false;
      }
      prev, cursor := r.value.0, r.value.1;
      out[i] := prev;
      PrependTwice(done, [prev], DecodeValueTail(data, cursor, prev, count - i - 1));
      done := done + [prev];
    }
    assert out[..] == out[..count] == done == done + [];
    ok := cursor == |data|;
  }

  /** Puts the bytes of a window back at their places. */
  method ReadWindow(data: seq<byte>, start: nat, leading: nat, n: nat) returns (x: nat)
    requires start + n <= |data| && leading + n <= 8
    ensures x == WindowValue(data, start, leading, n)
  {
    hide ShiftByte;
    x := 0;
    for j := 0 to n
      invariant x + WindowValue(data, start + j, leading + j, n - j) == WindowValue(data, start, leading, n)
    {
      x := x + ShiftByte(data[start + j], 7 - (leading + j));
    }
  }

  method ReadRecord(data: seq<byte>, start: nat, prev: u64) returns (r: Option<(u64, nat)>)
    ensures r == DecodeValue(data, start, prev)
  {
    hide Unle, Xor, WindowValue;
    if start >= |data| {
      return None;
    }
    var marker, cursor := data[start], start + 1;
    if marker == 1 {
      if |data| - cursor < 2 {
        return None;
      }
      var leading, significant := data[cursor], data[cursor + 1];
      cursor := cursor + 2;
      if leading >= 8 || significant == 0 || significant > 8 || leading + significant > 8 {
        return None;
      }
      if |data| - cursor < significant {
        return None;
      }
      var x := ReadWindow(data, cursor, leading, significant);
      WindowValueWord(data, cursor, leading, significant);
      XorWord(prev, x);
      r := Some((Xor(prev, x), cursor + significant));
    } else if marker == 2 {
      if |data| - cursor < 8 {
        return None;
      }
      var x := ReadLe(data, cursor, 8);
      WordBound(data[cursor..cursor + 8]);
      XorWord(prev, x);
      r := Some((Xor(prev, x), cursor + 8));
    } else if marker != 0 {
      r := None;
    } else {
      r := Some((prev, cursor));
    }
  }
}
