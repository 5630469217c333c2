/**
 * Decimal text of natural numbers, as Python's `str(n)` and `f"{n}"` write them, and
 * the zero padding of the `%04d` / `{n:04d}` conversions: no sign, no leading zeros,
 * and, for the padded form, zeros prepended up to a minimum width.
 */
module DecimalText {

  /** The character of the decimal digit `d`. */
  function Digit(d: nat): (c: char)
    requires d < 10
    ensures '0' <= c <= '9'
  {
    ('0' as int + d) as char
  }

  predicate IsDigits(s: string) {
    forall i :: 0 <= i < |s| ==> '0' <= s[i] <= '9'
  }

  function DigitValue(c: char): nat
    requires '0' <= c <= '9'
  {
    c as int - '0' as int
  }

  function Pow10(k: nat): (r: nat)
    ensures r >= 1
  {
    if k == 0 then 1 else 10 * Pow10(k - 1)
  }

  /** The number a string of decimal digits denotes, most significant digit first. */
  function Value(s: string): nat
    requires IsDigits(s)
    decreases |s|
  {
    if s == [] then 0 else DigitValue(s[0]) * Pow10(|s| - 1) + Value(s[1..])
  }

  /** The shortest decimal text of `n`. */
  function Decimal(n: nat): (s: string)
    ensures IsDigits(s) && |s| >= 1
  {
    if n < 10 then [Digit(n)] else Decimal(n / 10) + [Digit(n % 10)]
  }

  function Zeros(k: nat): (s: string)
    ensures |s| == k && IsDigits(s)
    ensures forall i :: 0 <= i < k ==> s[i] == '0'
  {
    if k == 0 then [] else ['0'] + Zeros(k - 1)
  }

  /** `s` with zeros prepended until it is at least `width` long. */
  function ZeroPad(s: string, width: nat): (r: string)
  {
    if |s| >= width then s else Zeros(width - |s|) + s
  }

  /** The `%04d` conversion of a non-negative number. */
  function Padded4(n: nat): (s: string)
  {
    ZeroPad(Decimal(n), 4)
  }

  lemma Pow10Step(k: nat)
    ensures Pow10(k + 1) == 10 * Pow10(k)
  {
  }

  lemma {:induction false} Pow10Monotone(j: nat, k: nat)
    requires j <= k
    ensures Pow10(j) <= Pow10(k)
  {
    if j < k {
      Pow10Monotone(j, k - 1);
    }
  }

  /** A digit string denotes less than ten to the power of its length. */
  lemma {:induction false} ValueBound(s: string)
    requires IsDigits(s)
    ensures Value(s) < Pow10(|s|)
  {
    if s != [] {
      assert IsDigits(s[1..]);
      ValueBound(s[1..]);
      var d := DigitValue(s[0]);
      var p := Pow10(|s| - 1);
      assert Value(s) == d * p + Value(s[1..]);
      DigitTimesPower(d, p);
      Pow10Step(|s| - 1);
    }
  }

  /** Appending a digit multiplies the value by ten and adds the digit. */
  lemma {:induction false} ValueAppend(s: string, c: char)
    requires IsDigits(s) && '0' <= c <= '9'
    ensures IsDigits(s + [c])
    ensures Value(s + [c]) == 10 * Value(s) + DigitValue(c)
  {
    var t := s + [c];
    assert IsDigits(t);
    if s == [] {
      assert t[1..] == [];
    } else {
      assert t[0] == s[0];
      assert t[1..] == s[1..] + [c];
      ValueAppend(s[1..], c);
      var d := DigitValue(s[0]);
      var p := Pow10(|s| - 1);
      assert Pow10(|t| - 1) == 10 * p;
      ScaleByTen(d, p);
      assert Value(t) == d * (10 * p) + Value(t[1..]);
    }
  }

  lemma DigitTimesPower(d: nat, p: nat)
    requires d <= 9
    ensures d * p <= 9 * p
  {
  }

  lemma ScaleByTen(d: nat, p: nat)
    ensures d * (10 * p) == 10 * (d * p)
  {
  }

  /** Leading zeros do not change the value. */
  lemma {:induction false} ValueZeros(k: nat, s: string)
    requires IsDigits(s)
    ensures IsDigits(Zeros(k) + s)
    ensures Value(Zeros(k) + s) == Value(s)
  {
    var t := Zeros(k) + s;
    assert IsDigits(t) by {
      forall i | 0 <= i < |t| ensures '0' <= t[i] <= '9' {
        if i < k { assert t[i] == Zeros(k)[i]; } else { assert t[i] == s[i - k]; }
      }
    }
    if k > 0 {
      assert t[0] == '0';
      assert DigitValue(t[0]) == 0;
      assert t[1..] == Zeros(k - 1) + s;
      ValueZeros(k - 1, s);
      assert Value(t) == DigitValue(t[0]) * Pow10(|t| - 1) + Value(t[1..]);
    } else {
      assert t == s;
    }
  }

  /** `Decimal` is faithful: its text denotes `n`, and it has no superfluous digits. */
  lemma {:induction false} DecimalValue(n: nat)
    ensures Value(Decimal(n)) == n
    ensures n < Pow10(|Decimal(n)|)
    ensures |Decimal(n)| > 1 ==> Pow10(|Decimal(n)| - 1) <= n
  {
    if n < 10 {
      assert Decimal(n)[1..] == [];
    } else {
      DecimalValue(n / 10);
      ValueAppend(Decimal(n / 10), Digit(n % 10));
      var k := |Decimal(n / 10)|;
      assert |Decimal(n)| == k + 1;
      assert Pow10(k + 1) == 10 * Pow10(k);
    }
  }

  /** Different numbers have different decimal texts. */
  lemma DecimalInjective(m: nat, n: nat)
    requires Decimal(m) == Decimal(n)
    ensures m == n
  {
    DecimalValue(m);
    DecimalValue(n);
  }

  /** Numbers below 10000 have at most four digits and larger ones at least five. */
  lemma DecimalLength(n: nat)
    ensures n < 10000 <==> |Decimal(n)| <= 4
  {
    DecimalValue(n);
    var k := |Decimal(n)|;
    Pow10Monotone'(4, k - 1);
    Pow10Monotone'(k, 4);
    assert Pow10(4) == 10000;
  }

  /** `Pow10Monotone` as an implication, for use where the premise may fail. */
  lemma Pow10Monotone'(j: nat, k: nat)
    ensures j <= k ==> Pow10(j) <= Pow10(k)
  {
    if j <= k {
      Pow10Monotone(j, k);
    }
  }

  /** The longer decimal text belongs to the larger number. */
  lemma DecimalLengthMonotone(m: nat, n: nat)
    requires m <= n
    ensures |Decimal(m)| <= |Decimal(n)|
  {
    DecimalValue(m);
    DecimalValue(n);
    Pow10Monotone'(|Decimal(n)|, |Decimal(m)| - 1);
  }

  /** The `%04d` text denotes `n` and is four characters long unless `n` needs more. */
  lemma Padded4Facts(n: nat)
    ensures IsDigits(Padded4(n))
    ensures Value(Padded4(n)) == n
    ensures |Padded4(n)| == if |Decimal(n)| >= 4 then |Decimal(n)| else 4
  {
    DecimalValue(n);
    if |Decimal(n)| < 4 {
      ValueZeros(4 - |Decimal(n)|, Decimal(n));
    }
  }
}
