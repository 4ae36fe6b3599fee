/**
 * The JavaScript string operations the generator and the year table rely on:
 * `String(n)` for integers, `padStart` with a fill character, and the
 * relational `<` on strings, which is what `Array.prototype.sort` uses when
 * no comparator is given. JavaScript compares UTF-16 code units; the model
 * compares characters (code points), which agree with it on the digit and
 * `-` strings compared here.
 */
module Decimal {

  predicate IsDigit(c: char)
  {
    '0' <= c <= '9'
  }

  predicate AllDigits(s: string)
  {
    forall i :: 0 <= i < |s| ==> IsDigit(s[i])
  }

  function DigitValue(c: char): int
  {
    c as int - '0' as int
  }

  function DigitChar(d: int): (c: char)
    requires 0 <= d < 10
    ensures IsDigit(c) && DigitValue(c) == d
  {
    (d + '0' as int) as char
  }

  function Pow10(n: nat): (r: nat)
    ensures r >= 1
  {
    if n == 0 then 1 else 10 * Pow10(n - 1)
  }

  /** The number a digit string denotes, most significant digit first; leading zeros are allowed. */
  function Value(s: string): nat
    requires AllDigits(s)
  {
    if |s| == 0 then 0 else DigitValue(s[0]) * Pow10(|s| - 1) + Value(s[1..])
  }

  /** `String(n)` for a non-negative integer: no leading zeros. */
  function NatToString(n: nat): (s: string)
    ensures |s| >= 1 && AllDigits(s)
    ensures n >= 10 ==> s[0] != '0'
    decreases n
  {
    if n < 10 then [DigitChar(n)] else NatToString(n / 10) + [DigitChar(n % 10)]
  }

  /** `String(n)` for any integer. */
  function NumberToString(n: int): (s: string)
    ensures |s| >= 1
  {
    if n < 0 then "-" + NatToString(-n) else NatToString(n)
  }

  /** `s.padStart(width, fill)` for a one-character fill string. */
  function PadStart(s: string, width: nat, fill: char): (r: string)
    ensures |r| == if |s| >= width then |s| else width
    ensures r[|r| - |s|..] == s
    ensures forall i :: 0 <= i < |r| - |s| ==> r[i] == fill
  {
    if |s| >= width then s else seq(width - |s|, _ => fill) + s
  }

  /** JavaScript `a < b` on strings: the first differing character decides, a proper prefix is smaller. */
  predicate LexLess(a: string, b: string)
    decreases |a|
  {
    |b| > 0 && (|a| == 0 || a[0] < b[0] || (a[0] == b[0] && LexLess(a[1..], b[1..])))
  }

  // ---------------------------------------------------------------------
  // Value and String(n) are inverse
  // ---------------------------------------------------------------------

  lemma {:induction false} ValueBound(s: string)
    requires AllDigits(s)
    ensures Value(s) < Pow10(|s|)
    decreases |s|
  {
    if |s| != 0 {
      ValueBound(s[1..]);
      var d := DigitValue(s[0]);
      var p := Pow10(|s| - 1);
      assert Value(s) == d * p + Value(s[1..]);
      assert Pow10(|s|) == 10 * p;
      LeadingDigitBound(d, p, Value(s[1..]));
    }
  }

  /** A leading digit `d` in front of a tail below `p` stays below `10 * p`. */
  lemma LeadingDigitBound(d: int, p: int, rest: int)
    requires 0 <= d <= 9 && 0 <= rest < p
    ensures d * p + rest < 10 * p
  {
    assert d * p <= 9 * p;
  }

  lemma {:induction false} ValueAppend(s: string, c: char)
    requires AllDigits(s) && IsDigit(c)
    ensures AllDigits(s + [c])
    ensures Value(s + [c]) == Value(s) * 10 + DigitValue(c)
    decreases |s|
  {
    var t := s + [c];
    if |s| != 0 {
      assert t[1..] == s[1..] + [c];
      ValueAppend(s[1..], c);
      var d := DigitValue(s[0]);
      var p := Pow10(|s| - 1);
      var rest := Value(s[1..]);
      assert Value(t) == d * Pow10(|s|) + rest * 10 + DigitValue(c);
      assert Pow10(|s|) == 10 * p;
      MulAssoc(d, p);
      assert Value(s) == d * p + rest;
    }
  }

  lemma MulAssoc(d: int, p: int)
    ensures d * (10 * p) == (d * p) * 10
  {
  }

  lemma LeadingDigitDecides(da: int, db: int, p: int, va: int, vb: int)
    requires da < db && 0 <= va < p && 0 <= vb
    ensures da * p + va < db * p + vb
  {
    var k := db - da;
    assert db * p == da * p + k * p;
    MulAtLeast(k, p);
  }

  lemma MulAtLeast(k: int, p: int)
    requires k >= 1 && p >= 0
    ensures k * p >= p
  {
    assert (k - 1) * p >= 0;
  }

  /** Reading back `String(n)` gives `n`. */
  lemma {:induction false} ValueOfNatToString(n: nat)
    ensures Value(NatToString(n)) == n
    decreases n
  {
    if n >= 10 {
      ValueOfNatToString(n / 10);
      ValueAppend(NatToString(n / 10), DigitChar(n % 10));
    }
  }

  /** `String(n)` has `k` digits exactly when `n` lies in `[10^(k-1), 10^k)`. */
  lemma {:induction false} NatToStringLength(n: nat, k: nat)
    requires k >= 1
    requires Pow10(k - 1) <= n < Pow10(k)
    ensures |NatToString(n)| == k
    decreases k
  {
    if k == 1 {
      assert Pow10(1) == 10;
    } else {
      assert Pow10(k) == 10 * Pow10(k - 1);
      assert Pow10(k - 1) == 10 * Pow10(k - 2);
      NatToStringLength(n / 10, k - 1);
    }
  }

  /** A leading zero does not change the value. */
  lemma LeadingZero(s: string)
    requires AllDigits(s)
    ensures AllDigits("0" + s)
    ensures Value("0" + s) == Value(s)
  {
    assert ("0" + s)[1..] == s;
  }

  /** Reading back `String(n).padStart(2, "0")` for a one- or two-digit `n` gives `n`. */
  lemma PadStart2Value(n: nat)
    requires n < 100
    ensures |PadStart(NatToString(n), 2, '0')| == 2
    ensures AllDigits(PadStart(NatToString(n), 2, '0'))
    ensures Value(PadStart(NatToString(n), 2, '0')) == n
  {
    ValueOfNatToString(n);
    var s := NatToString(n);
    if n < 10 {
      assert s == [DigitChar(n)];
      assert PadStart(s, 2, '0') == "0" + s;
      LeadingZero(s);
    } else {
      assert Pow10(2) == 100;
      NatToStringLength(n, 2);
    }
  }

  // ---------------------------------------------------------------------
  // String order
  // ---------------------------------------------------------------------

  lemma {:induction false} LexLessAsymmetric(a: string, b: string)
    ensures LexLess(a, b) ==> !LexLess(b, a)
    decreases |a|
  {
    if |a| > 0 && |b| > 0 && a[0] == b[0] {
      LexLessAsymmetric(a[1..], b[1..]);
    }
  }

  lemma {:induction false} LexLessTransitive(a: string, b: string, c: string)
    requires LexLess(a, b) && LexLess(b, c)
    ensures LexLess(a, c)
    decreases |a|
  {
    if |a| > 0 && a[0] == b[0] && b[0] == c[0] {
      LexLessTransitive(a[1..], b[1..], c[1..]);
    }
  }

  /** Any two different strings are ordered one way or the other. */
  lemma {:induction false} LexLessTotal(a: string, b: string)
    requires a != b
    ensures LexLess(a, b) || LexLess(b, a)
    decreases |a|
  {
    if |a| > 0 && |b| > 0 && a[0] == b[0] {
      assert a == [a[0]] + a[1..] && b == [b[0]] + b[1..];
      LexLessTotal(a[1..], b[1..]);
    }
  }

  /** On digit strings of one length, string order is numeric order. */
  lemma {:induction false} LexLessDigits(s: string, t: string)
    requires AllDigits(s) && AllDigits(t) && |s| == |t|
    ensures LexLess(s, t) <==> Value(s) < Value(t)
    decreases |s|
  {
    if |s| != 0 {
      var p := Pow10(|s| - 1);
      var ds, dt := DigitValue(s[0]), DigitValue(t[0]);
      ValueBound(s[1..]);
      ValueBound(t[1..]);
      LexLessDigits(s[1..], t[1..]);
      assert Value(s) == ds * p + Value(s[1..]);
      assert Value(t) == dt * p + Value(t[1..]);
      if ds < dt {
        LeadingDigitDecides(ds, dt, p, Value(s[1..]), Value(t[1..]));
      } else if dt < ds {
        LeadingDigitDecides(dt, ds, p, Value(t[1..]), Value(s[1..]));
      }
    }
  }

  /** `String(a) < String(b)` agrees with `a < b` when both have `k` digits. */
  lemma NatToStringOrder(a: nat, b: nat, k: nat)
    requires k >= 1
    requires Pow10(k - 1) <= a < Pow10(k) && Pow10(k - 1) <= b < Pow10(k)
    ensures LexLess(NatToString(a), NatToString(b)) <==> a < b
  {
    NatToStringLength(a, k);
    NatToStringLength(b, k);
    ValueOfNatToString(a);
    ValueOfNatToString(b);
    LexLessDigits(NatToString(a), NatToString(b));
  }
}
