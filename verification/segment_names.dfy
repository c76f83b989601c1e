/** Names of segment files (src/storage/segment_files.c:19-45). */
module SegmentNames {
  import opened Wire
  import opened Config

  const PREFIX := "segment_"
  const SUFFIX := ".tse"

  predicate IsDigit(c: char) {
    '0' <= c <= '9'
  }

  function DigitChar(d: nat): (c: char)
    requires d < 10
    ensures IsDigit(c)
  {
    '0' + d as char
  }

  predicate AllDigits(s: string) {
    forall i :: 0 <= i < |s| ==> IsDigit(s[i])
  }

  function Decimal(n: nat): (s: string)
    ensures s != [] && AllDigits(s)
  {
    if n < 10 then [DigitChar(n)] else Decimal(n / 10) + [DigitChar(n % 10)]
  }

  function Number(s: string): nat
    requires AllDigits(s)
  {
    if s == [] then 0 else 10 * Number(s[..|s| - 1]) + (s[|s| - 1] - '0') as nat
  }

  /** At least six digits, padded with zeros. */
  function Padded(n: nat): (s: string)
    ensures |s| >= 6 && AllDigits(s)
  {
    var d := Decimal(n);
    if |d| >= 6 then d else seq(6 - |d|, _ => '0') + d
  }

  function FileName(id: nat): string {
    PREFIX + Padded(id) + SUFFIX
  }

  /** The digits a string starts with, `n` at most. */
  function LeadingDigits(s: string, n: nat): (d: string)
    ensures AllDigits(d) && |d| <= n
  {
    if n == 0 || s == [] || !IsDigit(s[0]) then [] else [s[0]] + LeadingDigits(s[1..], n - 1)
  }

  /**
   * Reads at most six digits behind the prefix and accepts the name only when it is the canonical one of the number
   * read. (Blanks or a sign, which the C scanner would also take, never survive that comparison.)
   */
  function ParseName(name: string): Option<nat> {
    if |name| < |PREFIX| || name[..|PREFIX|] != PREFIX then None
    else
      var d := LeadingDigits(name[|PREFIX|..], 6);
      if d == [] || Number(d) == 0 || name != FileName(Number(d)) then None else Some(Number(d))
  }

  lemma {:induction false} DecimalNumber(n: nat)
    ensures Number(Decimal(n)) == n
  {
    if n < 10 {
      assert Decimal(n)[..0] == [];
    } else {
      DecimalNumber(n / 10);
      assert Decimal(n)[..|Decimal(n)| - 1] == Decimal(n / 10);
    }
  }

  lemma {:induction false} LeadingZero(s: string)
    requires AllDigits(s)
    ensures Number(['0'] + s) == Number(s)
  {
    if s == [] {
      assert (['0'] + s)[..0] == [];
    } else {
      LeadingZero(s[..|s| - 1]);
      assert (['0'] + s)[..|s|] == ['0'] + s[..|s| - 1];
    }
  }

  lemma {:induction false} ZeroPadding(k: nat, s: string)
    requires AllDigits(s)
    ensures AllDigits(seq(k, _ => '0') + s) && Number(seq(k, _ => '0') + s) == Number(s)
  {
    var zeros := seq(k, _ => '0');
    if k == 0 {
      assert zeros + s == s;
    } else {
      ZeroPadding(k - 1, s);
      assert zeros + s == ['0'] + (seq(k - 1, _ => '0') + s);
      LeadingZero(seq(k - 1, _ => '0') + s);
    }
  }

  lemma PaddedNumber(n: nat)
    ensures Number(Padded(n)) == n
  {
    DecimalNumber(n);
    var d := Decimal(n);
    if |d| < 6 {
      ZeroPadding(6 - |d|, d);
    }
  }

  function Pow10(k: nat): (p: nat)
    ensures p >= 1
  {
    if k == 0 then 1 else 10 * Pow10(k - 1)
  }

  lemma {:induction false} DecimalLength(n: nat, k: nat)
    requires k >= 1
    ensures |Decimal(n)| <= k <==> n < Pow10(k)
  {
    if n >= 10 {
      if k > 1 {
        DecimalLength(n / 10, k - 1);
      } else {
        assert Pow10(1) == 10 * Pow10(0);
      }
    }
  }

  lemma {:induction false} NumberBound(s: string)
    requires AllDigits(s)
    ensures Number(s) < Pow10(|s|)
  {
    if s != [] {
      NumberBound(s[..|s| - 1]);
    }
  }

  lemma {:induction false} Pow10Monotone(a: nat, b: nat)
    requires a <= b
    ensures Pow10(a) <= Pow10(b)
  {
    if a < b {
      Pow10Monotone(a, b - 1);
    }
  }

  lemma SixDigits()
    ensures Pow10(6) == MAX_SEGMENT_ID + 1
  {
    assert Pow10(2) == 100 && Pow10(4) == 10000;
  }

  lemma {:induction false} LeadingDigitsOf(s: string, t: string, n: nat)
    requires AllDigits(s) && n <= |s|
    ensures LeadingDigits(s + t, n) == s[..n]
  {
    if n > 0 {
      assert (s + t)[1..] == s[1..] + t;
      LeadingDigitsOf(s[1..], t, n - 1);
    }
  }

  /** A written name is recognised exactly when its id has at most six digits, and then gives the id back. */
  lemma NameRoundTrip(id: nat)
    ensures ParseName(FileName(id)) == if 1 <= id <= MAX_SEGMENT_ID then Some(id) else None
  {
    hide Number, LeadingDigits, Decimal;
    var name, p := FileName(id), Padded(id);
    assert name[..|PREFIX|] == PREFIX && name[|PREFIX|..] == p + SUFFIX;
    LeadingDigitsOf(p, SUFFIX, 6);
    PaddedNumber(id);
    DecimalLength(id, 6);
    SixDigits();
    if id <= MAX_SEGMENT_ID {
      assert p[..6] == p;
    } else {
      NumberBound(p[..6]);
      DecimalLength(Number(p[..6]), 6);
      assert |FileName(Number(p[..6]))| < |name|;
    }
  }

  /** Only canonical names are recognised, so no two files of a directory stand for the same segment. */
  lemma NamesAreCanonical(name: string)
    ensures match ParseName(name)
            case None => true
            case Some(id) => 1 <= id <= MAX_SEGMENT_ID && name == FileName(id)
  {
    hide Number, LeadingDigits, Padded;
    if ParseName(name).Some? {
      var d := LeadingDigits(name[|PREFIX|..], 6);
      NumberBound(d);
      Pow10Monotone(|d|, 6);
      SixDigits();
    }
  }

  lemma NamesAreDistinct(a: nat, b: nat)
    requires FileName(a) == FileName(b)
    ensures a == b
  {
    hide Number, Padded;
    PaddedNumber(a);
    PaddedNumber(b);
    var n := |Padded(a)|;
    assert |FileName(a)| == |PREFIX| + n + |SUFFIX| && |FileName(b)| == |PREFIX| + |Padded(b)| + |SUFFIX|;
    assert FileName(a)[|PREFIX|..|PREFIX| + n] == Padded(a) && FileName(b)[|PREFIX|..|PREFIX| + n] == Padded(b);
  }
}
