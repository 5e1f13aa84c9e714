/**
 * Numeric components are left-padded with zeros to eight characters so
 * that comparing the padded strings compares the numbers.
 */
module VersionKeyPadding {
  import opened Ordering
  import opened VersionKey

  function Pow10(n: nat): (r: nat)
    ensures r >= 1
  {
    if n == 0 then 1 else 10 * Pow10(n - 1)
  }

  function DigitValue(c: char): int
  {
    c as int - '0' as int
  }

  /** The number written by the digits of `a` from index `i` on. */
  function ValueFrom(a: string, i: nat): int
    requires i <= |a|
    decreases |a| - i
  {
    if i == |a| then 0 else DigitValue(a[i]) * Pow10(|a| - i - 1) + ValueFrom(a, i + 1)
  }

  /** The number a digit string writes, leading zeros and all. */
  function Value(a: string): int
  {
    ValueFrom(a, 0)
  }

  lemma {:induction false} ValueFromBound(a: string, i: nat)
    requires i <= |a| && AllDigits(a)
    ensures 0 <= ValueFrom(a, i) < Pow10(|a| - i)
    decreases |a| - i
  {
    if i < |a| {
      ValueFromBound(a, i + 1);
      var p := Pow10(|a| - i - 1);
      var d := DigitValue(a[i]);
      assert 0 <= d <= 9;
      assert d * p <= 9 * p;
    }
  }

  lemma {:induction false} ValueFromShift(z: string, d: string, j: nat)
    requires j <= |d|
    ensures ValueFrom(z + d, |z| + j) == ValueFrom(d, j)
    decreases |d| - j
  {
    if j < |d| {
      assert (z + d)[|z| + j] == d[j];
      ValueFromShift(z, d, j + 1);
    }
  }

  /** Leading zeros do not change the number. */
  lemma {:induction false} ValueFromLeadingZeros(z: string, d: string, i: nat)
    requires i <= |z|
    requires forall m :: 0 <= m < |z| ==> z[m] == '0'
    ensures ValueFrom(z + d, i) == ValueFrom(d, 0)
    decreases |z| - i
  {
    if i == |z| {
      ValueFromShift(z, d, 0);
    } else {
      assert (z + d)[i] == '0';
      ValueFromLeadingZeros(z, d, i + 1);
    }
  }

  /** A larger leading digit outweighs whatever follows it. */
  lemma LeadingDigitDominates(da: int, db: int, p: nat, ra: int, rb: int)
    requires da < db && 0 <= ra < p && 0 <= rb
    ensures da * p + ra < db * p + rb
  {
    assert db * p - da * p == (db - da) * p;
    assert (db - da) * p >= p by {
      assert db - da >= 1;
    }
  }

  /** For digit strings of one length, string order is numeric order, and string equality numeric equality. */
  lemma {:induction false} SameLengthOrder(a: string, b: string, i: nat)
    requires |a| == |b| && i <= |a| && AllDigits(a) && AllDigits(b)
    ensures StrLtFrom(a, b, i) <==> ValueFrom(a, i) < ValueFrom(b, i)
    ensures a[i..] == b[i..] <==> ValueFrom(a, i) == ValueFrom(b, i)
    decreases |a| - i
  {
    if i < |a| {
      SameLengthOrder(a, b, i + 1);
      var p := Pow10(|a| - i - 1);
      var da, db := DigitValue(a[i]), DigitValue(b[i]);
      var ra, rb := ValueFrom(a, i + 1), ValueFrom(b, i + 1);
      ValueFromBound(a, i + 1);
      ValueFromBound(b, i + 1);
      assert ValueFrom(a, i) == da * p + ra && ValueFrom(b, i) == db * p + rb;
      assert a[i..] == [a[i]] + a[i + 1..] && b[i..] == [b[i]] + b[i + 1..];
      if da < db {
        LeadingDigitDominates(da, db, p, ra, rb);
      } else if db < da {
        LeadingDigitDominates(db, da, p, rb, ra);
      } else {
        assert a[i] == b[i];
      }
    }
  }

  lemma PadValue(d: string)
    requires AllDigits(d) && |d| <= PadWidth
    ensures |Pad(d)| == PadWidth && AllDigits(Pad(d))
    ensures Value(Pad(d)) == Value(d)
  {
    var z := seq(PadWidth - |d|, _ => '0');
    assert Pad(d) == z + d;
    ValueFromLeadingZeros(z, d, 0);
    forall m | 0 <= m < |z + d|
      ensures IsDigit((z + d)[m])
    {
      if m >= |z| {
        assert (z + d)[m] == d[m - |z|];
      }
    }
  }

  /**
   * Digit runs of at most eight digits compare by their numeric value once
   * padded: leading zeros are irrelevant, and "9" sorts below "10".
   */
  lemma PaddedNumbersCompareByValue(d1: string, d2: string)
    requires AllDigits(d1) && |d1| <= PadWidth
    requires AllDigits(d2) && |d2| <= PadWidth
    ensures StrLt(Pad(d1), Pad(d2)) <==> Value(d1) < Value(d2)
    ensures Pad(d1) == Pad(d2) <==> Value(d1) == Value(d2)
  {
    PadValue(d1);
    PadValue(d2);
    var a, b := Pad(d1), Pad(d2);
    SameLengthOrder(a, b, 0);
    assert a[0..] == a && b[0..] == b;
  }
}
