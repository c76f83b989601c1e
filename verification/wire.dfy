/** Fixed-width little-endian words, bitwise exclusive or, zigzag and varints (src/compression/bitstream.c). */
module Wire {

  datatype Option<+T> = None | Some(value: T)

  type byte = b: int | 0 <= b < 256
  type u32 = n: int | 0 <= n < 0x1_0000_0000
  type u64 = n: int | 0 <= n < TWO64
  type i64 = n: int | -TWO63 <= n < TWO63

  const TWO63 := 0x8000_0000_0000_0000
  const TWO64 := 0x1_0000_0000_0000_0000

  // ---------------------------------------------------------------- words

  /** The `w` low-order bytes of `v`, least significant first. */
  function Le(v: nat, w: nat): (s: seq<byte>)
    ensures |s| == w
  {
    if w == 0 then [] else [v % 256] + Le(v / 256, w - 1)
  }

  /** The number whose little-endian digits are `s`. */
  function Unle(s: seq<byte>): nat {
    if s == [] then 0 else s[0] + 256 * Unle(s[1..])
  }

  function Pow256(w: nat): (p: nat)
    ensures p >= 1
  {
    if w == 0 then 1 else 256 * Pow256(w - 1)
  }

  lemma Pow256Words()
    ensures Pow256(4) == 0x1_0000_0000 && Pow256(8) == TWO64
  {
    assert Pow256(1) == 256;
    assert Pow256(2) == 0x1_0000;
    assert Pow256(3) == 0x100_0000;
    assert Pow256(5) == 0x100_0000_0000;
    assert Pow256(6) == 0x1_0000_0000_0000;
    assert Pow256(7) == 0x100_0000_0000_0000;
  }

  lemma {:induction false} UnleLe(v: nat, w: nat)
    requires v < Pow256(w)
    ensures Unle(Le(v, w)) == v
  {
    if w > 0 {
      UnleLe(v / 256, w - 1);
      assert Le(v, w)[1..] == Le(v / 256, w - 1);
    }
  }

  lemma {:induction false} LeUnle(s: seq<byte>)
    ensures Unle(s) < Pow256(|s|) && Le(Unle(s), |s|) == s
  {
    if s != [] {
      LeUnle(s[1..]);
      assert Unle(s) % 256 == s[0] && Unle(s) / 256 == Unle(s[1..]);
    }
  }

  lemma Word32(v: u32)
    ensures Unle(Le(v, 4)) == v
  {
    Pow256Words();
    UnleLe(v, 4);
  }

  lemma Word64(v: u64)
    ensures Unle(Le(v, 8)) == v
  {
    Pow256Words();
    UnleLe(v, 8);
  }

  lemma WordBound(s: seq<byte>)
    ensures |s| == 4 ==> Unle(s) < 0x1_0000_0000
    ensures |s| == 8 ==> Unle(s) < TWO64
  {
    Pow256Words();
    LeUnle(s);
  }

  /** `(value >> 8k) & 0xff`. */
  function ByteAt(v: nat, k: nat): byte {
    if k == 0 then v % 256 else ByteAt(v / 256, k - 1)
  }

  /** `b << 8k`. */
  function ShiftByte(b: nat, k: nat): nat {
    if k == 0 then b else 256 * ShiftByte(b, k - 1)
  }

  lemma {:induction false} ByteAtIsDigit(v: nat, w: nat, k: nat)
    requires k < w
    ensures ByteAt(v, k) == Le(v, w)[k]
  {
    if k > 0 {
      ByteAtIsDigit(v / 256, w - 1, k - 1);
    }
  }

  lemma DivideTwice(v: nat, p: nat)
    requires p > 0
    ensures v / 256 / p == v / (256 * p)
  {
    var q, r := v / 256 / p, v / 256 % p;
    assert v / 256 == p * q + r;
    assert v == 256 * (p * q + r) + v % 256;
    assert 256 * (p * q) == 256 * p * q;
    assert v == 256 * p * q + (256 * r + v % 256);
    QuotientIs(v, 256 * p, q, 256 * r + v % 256);
  }

  lemma QuotientIs(v: nat, d: nat, q: nat, r: nat)
    requires r < d && v == d * q + r
    ensures v / d == q
  {
    var e := v / d - q;
    assert v == d * (v / d) + v % d;
    assert d * (v / d) == d * q + d * e;
  }

  /** The bytes of a word, its lowest eight bits first. */
  lemma {:induction false} LeDigit(v: nat, w: nat, k: nat)
    requires k < w
    ensures Le(v, w)[k] == v / Pow256(k) % 256
  {
    if k > 0 {
      LeDigit(v / 256, w - 1, k - 1);
      DivideTwice(v, Pow256(k - 1));
    }
  }

  function Zeros(n: nat): (s: seq<byte>)
    ensures |s| == n && forall i :: 0 <= i < n ==> s[i] == 0
  {
    seq(n, _ => 0)
  }

  lemma {:induction false} UnleZeros(n: nat)
    ensures Unle(Zeros(n)) == 0
  {
    if n > 0 {
      assert Zeros(n)[1..] == Zeros(n - 1);
      UnleZeros(n - 1);
    }
  }

  lemma {:induction false} UnleSnoc(s: seq<byte>, b: byte)
    ensures Unle(s + [b]) == Unle(s) + ShiftByte(b, |s|)
  {
    if s != [] {
      assert (s + [b])[1..] == s[1..] + [b];
      UnleSnoc(s[1..], b);
    }
  }

  lemma {:induction false} UnlePadded(s: seq<byte>, n: nat)
    ensures Unle(s + Zeros(n)) == Unle(s)
  {
    if s == [] {
      assert s + Zeros(n) == Zeros(n);
      UnleZeros(n);
    } else {
      assert (s + Zeros(n))[1..] == s[1..] + Zeros(n);
      UnlePadded(s[1..], n);
    }
  }

  lemma {:induction false} ShiftByteBound(b: byte, k: nat)
    ensures ShiftByte(b, k) + Pow256(k) <= Pow256(k + 1)
  {
    if k > 0 {
      ShiftByteBound(b, k - 1);
    }
  }

  /** Writes the `width`-byte little-endian form of `value` into `dst` at offset `at`. */
  method WriteLe(dst: array<byte>, at: nat, value: nat, width: nat)
    requires at + width <= dst.Length
    modifies dst
    ensures dst[..at + width] == old(dst[..at]) + Le(value, width)
    ensures dst[at + width..] == old(dst[at + width..])
  {
    var rest := value;
    for i := 0 to width
      invariant dst[..at] == old(dst[..at]) && dst[at + i..] == old(dst[at + i..])
      invariant dst[at..at + i] + Le(rest, width - i) == Le(value, width)
    {
      ghost var before := dst[at..at + i];
      ghost var suffix := Le(rest, width - i);
      dst[at + i] := rest % 256;
      rest := rest / 256;
      assert dst[at..at + i + 1] == before + [suffix[0]];
      assert suffix == [suffix[0]] + Le(rest, width - i - 1);
      assert dst[at + i + 1..] == old(dst[at + i..])[1..];
    }
    assert Le(rest, 0) == [];
    assert dst[..at + width] == dst[..at] + dst[at..at + width];
  }

  /** Reads a `width`-byte little-endian word. */
  method ReadLe(src: seq<byte>, at: nat, width: nat) returns (value: nat)
    requires at + width <= |src|
    ensures value == Unle(src[at..at + width])
  {
    value := 0;
    var i := width;
    while i > 0
      invariant 0 <= i <= width
      invariant value == Unle(src[at + i..at + width])
    {
      i := i - 1;
      value := 256 * value + src[at + i];
      assert src[at + i..at + width][1..] == src[at + i + 1..at + width];
    }
  }

  // ---------------------------------------------------------------- exclusive or

  function Pow2(n: nat): (p: nat)
    ensures p >= 1
  {
    if n == 0 then 1 else 2 * Pow2(n - 1)
  }

  lemma Pow2Word()
    ensures Pow2(64) == TWO64
  {
    assert Pow2(8) == 256;
    assert Pow2(16) == 0x1_0000;
    assert Pow2(24) == 0x100_0000;
    assert Pow2(32) == 0x1_0000_0000;
    assert Pow2(40) == 0x100_0000_0000;
    assert Pow2(48) == 0x1_0000_0000_0000;
    assert Pow2(56) == 0x100_0000_0000_0000;
  }

  /** Bitwise exclusive or of two non-negative integers. */
  function Xor(a: nat, b: nat): nat
    decreases a + b
  {
    if a == 0 && b == 0 then 0 else (a + b) % 2 + 2 * Xor(a / 2, b / 2)
  }

  lemma XorHalves(a: nat, b: nat)
    ensures Xor(a, b) == (a + b) % 2 + 2 * Xor(a / 2, b / 2)
    ensures Xor(a, b) / 2 == Xor(a / 2, b / 2) && Xor(a, b) % 2 == (a + b) % 2
  {}

  lemma HalveTwice(v: nat, p: nat)
    requires p > 0
    ensures v / 2 / p == v / (2 * p)
  {
    var q, r := v / 2 / p, v / 2 % p;
    assert v / 2 == p * q + r;
    assert v == 2 * (p * q + r) + v % 2;
    assert 2 * (p * q) == 2 * p * q;
    QuotientIs(v, 2 * p, q, 2 * r + v % 2);
  }

  /** Bit `k` is set where exactly one of the operands has it set. */
  lemma {:induction false} XorBit(a: nat, b: nat, k: nat)
    ensures Xor(a, b) / Pow2(k) % 2 == (a / Pow2(k) + b / Pow2(k)) % 2
  {
    hide Xor;
    XorHalves(a, b);
    if k == 0 {
      assert Pow2(k) == 1;
    } else {
      XorBit(a / 2, b / 2, k - 1);
      var p := Pow2(k - 1);
      assert Pow2(k) == 2 * p;
      hide Pow2;
      HalveTwice(a, p);
      HalveTwice(b, p);
      HalveTwice(Xor(a, b), p);
    }
  }

  lemma ParityCancels(a: nat, b: nat, x: nat)
    requires x % 2 == (a + b) % 2
    ensures (a + x) % 2 == b % 2
  {}

  lemma {:induction false} XorSelfInverse(a: nat, b: nat)
    ensures Xor(a, Xor(a, b)) == b
    decreases a + b
  {
    if a != 0 || b != 0 {
      XorSelfInverse(a / 2, b / 2);
      XorHalves(a, b);
      XorHalves(a, Xor(a, b));
      ParityCancels(a, b, Xor(a, b));
      hide Xor;
    }
  }

  lemma {:induction false} XorBound(a: nat, b: nat, k: nat)
    requires a < Pow2(k) && b < Pow2(k)
    ensures Xor(a, b) < Pow2(k)
  {
    if k > 0 && (a != 0 || b != 0) {
      XorBound(a / 2, b / 2, k - 1);
    }
  }

  lemma XorWord(a: u64, b: u64)
    ensures Xor(a, b) < TWO64
  {
    Pow2Word();
    XorBound(a, b, 64);
  }

  lemma {:induction false} XorZero(a: nat, b: nat)
    ensures Xor(a, b) == 0 <==> a == b
    decreases a + b
  {
    if a != 0 || b != 0 {
      XorZero(a / 2, b / 2);
    }
  }

  lemma OnesArithmetic(a: nat, p: nat)
    requires a < 2 * p
    ensures a / 2 < p && (2 * p - 1) / 2 == p - 1
    ensures (a + (2 * p - 1)) % 2 + 2 * (p - 1 - a / 2) == 2 * p - 1 - a
  {}

  lemma {:induction false} XorOnes(a: nat, k: nat)
    requires a < Pow2(k)
    ensures Xor(a, Pow2(k) - 1) == Pow2(k) - 1 - a
  {
    XorHalves(a, Pow2(k) - 1);
    if k == 0 {
      assert Xor(0, 0) == 0;
    } else {
      OnesArithmetic(a, Pow2(k - 1));
      XorOnes(a / 2, k - 1);
      hide Xor;
    }
  }

  // ---------------------------------------------------------------- signed words

  function ToU64(v: i64): u64 {
    if v < 0 then v + TWO64 else v
  }

  function ToI64(u: u64): i64 {
    if u >= TWO63 then u - TWO64 else u
  }

  /** Two's-complement reduction of an exact integer result to 64 bits. */
  function Wrap(x: int): i64 {
    ToI64(x % TWO64)
  }

  lemma SignedRoundTrip(v: i64)
    ensures ToI64(ToU64(v)) == v && Wrap(v) == v
  {
    if v < 0 {
      assert v % TWO64 == v + TWO64;
    }
  }

  /** Adding a wrapped difference to the minuend's partner gives the minuend back. */
  lemma WrapCancels(a: i64, b: i64)
    ensures Wrap(b + Wrap(a - b)) == a
  {
    var d := Wrap(a - b);
    var q := (a - b - d) / TWO64;
    assert a - b == d + q * TWO64;
    assert (b + d) % TWO64 == a % TWO64 by {
      assert b + d == a - q * TWO64;
      ModShift(a, -q);
    }
    SignedRoundTrip(a);
  }

  lemma ModShift(a: int, q: int)
    ensures (a + q * TWO64) % TWO64 == a % TWO64
  {
    var r := a % TWO64;
    var n := a / TWO64 + q;
    assert a + q * TWO64 == n * TWO64 + r;
  }

  /** `(v << 1) ^ (v >> 63)` on 64-bit words. */
  function ZigzagEncode(v: i64): u64 {
    var x := Xor((2 * ToU64(v)) % TWO64, if v < 0 then TWO64 - 1 else 0);
    XorWord((2 * ToU64(v)) % TWO64, if v < 0 then TWO64 - 1 else 0);
    x
  }

  /** `(u >> 1) ^ -(u & 1)` on 64-bit words. */
  function ZigzagDecode(u: u64): i64 {
    XorWord(u / 2, if u % 2 == 1 then TWO64 - 1 else 0);
    ToI64(Xor(u / 2, if u % 2 == 1 then TWO64 - 1 else 0))
  }

  lemma XorWithZero(a: nat)
    ensures Xor(a, 0) == a
  {
    XorSelfInverse(0, a);
    if a != 0 {
      XorWithZero(a / 2);
    }
  }

  /** Zigzag interleaves the signs: 0, -1, 1, -2, 2, ... become 0, 1, 2, 3, 4, ... */
  lemma ZigzagValue(v: i64)
    ensures ZigzagEncode(v) == if v >= 0 then 2 * v else -2 * v - 1
  {
    Pow2Word();
    if v >= 0 {
      XorWithZero(2 * v);
    } else {
      assert (2 * ToU64(v)) % TWO64 == 2 * v + TWO64;
      XorOnes(2 * v + TWO64, 64);
    }
  }

  lemma ZigzagDecodeValue(u: u64)
    ensures ZigzagDecode(u) == if u % 2 == 0 then u / 2 else -(u / 2) - 1
  {
    Pow2Word();
    if u % 2 == 0 {
      XorWithZero(u / 2);
    } else {
      XorOnes(u / 2, 64);
    }
  }

  /** Zigzag is a bijection between signed and unsigned 64-bit words. */
  lemma ZigzagRoundTrip(v: i64, u: u64)
    ensures ZigzagDecode(ZigzagEncode(v)) == v
    ensures ZigzagEncode(ZigzagDecode(u)) == u
  {
    ZigzagValue(v);
    ZigzagDecodeValue(ZigzagEncode(v));
    ZigzagDecodeValue(u);
    ZigzagValue(ZigzagDecode(u));
  }

  // ---------------------------------------------------------------- varints

  /** Unsigned LEB128 (section 7.6 of DWARF 5). */
  function Varint(v: nat): (s: seq<byte>)
    ensures |s| >= 1
  {
    if v < 128 then [v] else [v % 128 + 128] + Varint(v / 128)
  }

  /** The reader's loop: `acc` holds the payload so far; the next payload goes to bit `shift`, where scale = 2^shift. */
  function ReadVarintFrom(data: seq<byte>, cursor: nat, shift: nat, scale: nat, acc: u64): (r: Option<(u64, nat)>)
    ensures r.Some? ==> cursor < r.value.1 <= |data|
    decreases |data| - cursor
  {
    if cursor >= |data| || shift > 63 then None
    else
      var acc' := (acc + data[cursor] % 128 * scale) % TWO64;
      if data[cursor] < 128 then Some((acc', cursor + 1))
      else ReadVarintFrom(data, cursor + 1, shift + 7, 128 * scale, acc')
  }

  function ReadVarint(data: seq<byte>, cursor: nat): (r: Option<(u64, nat)>)
    ensures r.Some? ==> cursor < r.value.1 <= |data|
  {
    ReadVarintFrom(data, cursor, 0, 1, 0)
  }

  lemma SplitPayload(v: nat, p: nat)
    ensures v * p == v % 128 * p + v / 128 * (128 * p)
  {
    var r, q := v % 128, v / 128;
    assert v == r + 128 * q;
    assert (r + 128 * q) * p == r * p + q * (128 * p);
  }

  lemma ReadStep(data: seq<byte>, cursor: nat, shift: nat, scale: nat, acc: u64, payload: nat)
    requires cursor < |data| && shift <= 63
    requires payload == data[cursor] % 128 * scale && acc + payload < TWO64
    ensures ReadVarintFrom(data, cursor, shift, scale, acc) ==
            if data[cursor] < 128 then Some((acc + payload, cursor + 1))
            else ReadVarintFrom(data, cursor + 1, shift + 7, 128 * scale, acc + payload)
  {
    var sum := acc + payload;
    assert sum % TWO64 == sum;
  }

  lemma {:induction false} VarintReadFrom(v: nat, data: seq<byte>, cursor: nat, shift: nat, scale: nat, acc: u64,
                                          total: nat)
    requires cursor + |Varint(v)| <= |data| && data[cursor..cursor + |Varint(v)|] == Varint(v)
    requires total == acc + v * scale && total < TWO64 && shift + 7 * |Varint(v)| <= 70
    ensures ReadVarintFrom(data, cursor, shift, scale, acc) == Some((total, cursor + |Varint(v)|))
    decreases v
  {
    var code, q := Varint(v), v / 128;
    assert data[cursor] == data[cursor..cursor + |code|][0] == code[0];
    SplitPayload(v, scale);
    var payload: nat, higher: nat := v % 128 * scale, q * (128 * scale);
    ReadStep(data, cursor, shift, scale, acc, payload);
    if v < 128 {
      assert q == 0;
    } else {
      assert code[1..] == Varint(q);
      assert data[cursor + 1..cursor + 1 + |Varint(q)|] == data[cursor..cursor + |code|][1..];
      VarintReadFrom(q, data, cursor + 1, shift + 7, 128 * scale, acc + payload, total);
    }
  }

  /** Every 64-bit value is read back from its varint, with the cursor just behind it. */
  lemma VarintRoundTrip(v: u64, data: seq<byte>, cursor: nat)
    requires cursor + |Varint(v)| <= |data| && data[cursor..cursor + |Varint(v)|] == Varint(v)
    ensures ReadVarint(data, cursor) == Some((v, cursor + |Varint(v)|))
  {
    VarintAtMostTen(v);
    VarintReadFrom(v, data, cursor, 0, 1, 0, v);
  }

  function Pow128(k: nat): nat {
    if k == 0 then 1 else 128 * Pow128(k - 1)
  }

  lemma DivideBySeven(v: nat, p: nat)
    requires p > 0
    ensures v / 128 / p == v / (128 * p)
  {
    var q, r := v / 128 / p, v / 128 % p;
    assert v / 128 == p * q + r;
    assert v == 128 * (p * q + r) + v % 128;
    assert 128 * (p * q) == 128 * p * q;
    QuotientIs(v, 128 * p, q, 128 * r + v % 128);
  }

  lemma {:induction false} Pow128Positive(k: nat)
    ensures Pow128(k) > 0
  {
    if k > 0 {
      Pow128Positive(k - 1);
    }
  }

  /** Each byte of a varint carries seven bits, the lowest first, and all but the last have the top bit set. */
  lemma {:induction false} VarintDigit(v: nat, k: nat)
    requires k < |Varint(v)|
    ensures Pow128(k) > 0
    ensures Varint(v)[k] % 128 == v / Pow128(k) % 128 && (Varint(v)[k] >= 128 <==> k < |Varint(v)| - 1)
    decreases v
  {
    Pow128Positive(k);
    if k > 0 {
      VarintDigit(v / 128, k - 1);
      DivideBySeven(v, Pow128(k - 1));
    }
  }

  lemma {:induction false} VarintLength(v: nat, k: nat)
    requires v < Pow128(k) && k >= 1
    ensures |Varint(v)| <= k
  {
    if k > 1 && v >= 128 {
      VarintLength(v / 128, k - 1);
    }
  }

  lemma VarintAtMostTen(v: u64)
    ensures |Varint(v)| <= 10
  {
    assert Pow128(2) == 0x4000;
    assert Pow128(4) == 0x1000_0000;
    assert Pow128(6) == 0x400_0000_0000;
    assert Pow128(8) == 0x100_0000_0000_0000;
    assert Pow128(10) > TWO64;
    VarintLength(v, 10);
  }

  method VarintSize(v: u64) returns (size: nat)
    ensures size == |Varint(v)|
  {
    size := 1;
    var rest: nat := v;
    while rest >= 128
      invariant size + |Varint(rest)| == |Varint(v)| + 1
    {
      rest := rest / 128;
      size := size + 1;
    }
  }

  method WriteVarint(dst: array<byte>, cursor: nat, v: u64) returns (next: nat)
    requires cursor + |Varint(v)| <= dst.Length
    modifies dst
    ensures next == cursor + |Varint(v)|
    ensures dst[..next] == old(dst[..cursor]) + Varint(v) && dst[next..] == old(dst[next..])
  {
    next := cursor;
    var rest: nat := v;
    while rest >= 128
      invariant cursor <= next && next + |Varint(rest)| == cursor + |Varint(v)|
      invariant dst[..next] + Varint(rest) == old(dst[..cursor]) + Varint(v)
      invariant dst[next..] == old(dst[next..])
    {
      ghost var before := dst[..next];
      ghost var code := Varint(rest);
      dst[next] := rest % 128 + 128;
      rest := rest / 128;
      next := next + 1;
      assert dst[..next] == before + [code[0]];
      assert code == [code[0]] + Varint(rest);
      assert dst[next..] == old(dst[next - 1..])[1..];
    }
    ghost var before := dst[..next];
    ghost var suffix := dst[next..];
    dst[next] := rest;
    next := next + 1;
    assert dst[..next] == before + Varint(rest);
    assert dst[next..] == suffix[1..];
  }

  method ReadVarintLoop(data: seq<byte>, start: nat) returns (r: Option<(u64, nat)>)
    requires start <= |data|
    ensures r == ReadVarint(data, start)
  {
    var cursor, shift: nat, scale: nat, acc: u64 := start, 0, 1, 0;
    while cursor < |data| && shift <= 63
      invariant start <= cursor <= |data|
      invariant ReadVarint(data, start) == ReadVarintFrom(data, cursor, shift, scale, acc)
      decreases |data| - cursor
    {
      var b: nat := data[cursor];
      acc := (acc + b % 128 * scale) % TWO64;
      cursor := cursor + 1;
      if b < 128 {
        return Some((acc, cursor));
      }
      shift, scale := shift + 7, 128 * scale;
    }
    r := None;
  }
}
