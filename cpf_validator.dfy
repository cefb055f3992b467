/**
 The Brazilian taxpayer number (CPF) validator: eleven digits, not one digit
 repeated, and two trailing check digits from weighted sums modulo 11.
 */
module CpfValidator {
  import opened DigitStrip

  /**
   The sum over digits 0 .. k-1 of `ds`, digit i weighted by `top - i`: the
   value of `sum` after k rounds of either check-digit loop.
   */
  function WeightedSum(ds: string, k: nat, top: int): (r: int)
    requires k <= |ds| && AllDigits(ds)
    ensures top >= k ==> r >= 0
  {
    if k == 0 then 0
    else
      var v, w := DigitValue(ds[k - 1]), top - (k - 1);
      assert w > 0 ==> v * w >= 0;
      WeightedSum(ds, k - 1, top) + v * w
  }

  /**
   The check digit over digits 0 .. n-1, weighted from n + 1 down to 2: a
   remainder below 2 gives 0, any other r gives 11 - r. With n = 9 it is the
   first check digit, with n = 10 the second.
   */
  function CheckDigit(ds: string, n: nat): (r: nat)
    requires n <= |ds| && AllDigits(ds)
    ensures r <= 9
  {
    var remainder := WeightedSum(ds, n, n + 1) % 11;
    if remainder < 2 then 0 else 11 - remainder
  }

  /**
   `/^(\d)\1{10}$/`: exactly eleven characters, one digit repeated.
   */
  predicate RepeatsOneDigit(s: string) {
    |s| == 11 && IsDigit(s[0]) && forall i :: 0 <= i < |s| ==> s[i] == s[0]
  }

  /** What `validateCPF` answers, stated over the digit projection. */
  predicate IsValidCPF(s: string) {
    var d := Digits(s);
    |d| == 11 && !RepeatsOneDigit(d)
    && DigitValue(d[9]) == CheckDigit(d, 9)
    && DigitValue(d[10]) == CheckDigit(d, 10)
  }

  /**
   The validator as written: strip, the length guard, the repeated-digit
   guard, then the two accumulating loops and their remainders.
   */
  method ValidateCPF(cpf: string) returns (valid: bool)
    ensures valid == IsValidCPF(cpf)
  {
    var cleanCPF := Digits(cpf);
    if |cleanCPF| != 11 {
      return false;
    }
    if RepeatsOneDigit(cleanCPF) {
      return false;
    }

    var sum := 0;
    for i := 0 to 9
      invariant sum == WeightedSum(cleanCPF, i, 10)
    {
      sum := sum + DigitValue(cleanCPF[i]) * (10 - i);
    }
    var remainder := sum % 11;
    var digit1 := if remainder < 2 then 0 else 11 - remainder;
    if digit1 != DigitValue(cleanCPF[9]) {
      return false;
    }

    sum := 0;
    for i := 0 to 10
      invariant sum == WeightedSum(cleanCPF, i, 11)
    {
      sum := sum + DigitValue(cleanCPF[i]) * (11 - i);
    }
    remainder := sum % 11;
    var digit2 := if remainder < 2 then 0 else 11 - remainder;
    return digit2 == DigitValue(cleanCPF[10]);
  }

  // ----- Properties of the validator -----

  /** Any projection other than eleven digits is rejected, the empty string included. */
  lemma WrongLengthRejected(s: string)
    requires |Digits(s)| != 11
    ensures !IsValidCPF(s)
  {
  }

  /**
   Eleven copies of one digit always satisfy both check-digit equations, so
   the repeated-digit guard is what rejects them.
   */
  lemma RepeatedDigitPassesChecksum(c: char)
    requires IsDigit(c)
    ensures CheckDigit(seq(11, _ => c), 9) == DigitValue(c)
    ensures CheckDigit(seq(11, _ => c), 10) == DigitValue(c)
  {
    var d := seq(11, _ => c);
    var v := DigitValue(c);
    ConstantWeightedSum(d, 9, 10, v);
    ConstantWeightedSum(d, 10, 11, v);
    assert WeightTotal(9, 10) == 54 && WeightTotal(10, 11) == 65;
    // 54 v == 11 (5 v) - v and 65 v == 11 (6 v) - v
    assert WeightedSum(d, 9, 10) == 11 * (5 * v) - v;
    assert WeightedSum(d, 10, 11) == 11 * (6 * v) - v;
    if v == 0 {
    } else {
      assert 11 * (5 * v) - v == 11 * (5 * v - 1) + (11 - v);
      assert 11 * (6 * v) - v == 11 * (6 * v - 1) + (11 - v);
    }
  }

  /** Eleven repeated digits are rejected although the checksum holds. */
  lemma RepeatedDigitRejected(c: char)
    requires IsDigit(c)
    ensures !IsValidCPF(seq(11, _ => c))
  {
    var d := seq(11, _ => c);
    DigitsOfDigitString(d);
    assert RepeatsOneDigit(d);
  }

  /** The answer depends only on the digit projection. */
  lemma ProjectionDecides(s: string, t: string)
    requires Digits(s) == Digits(t)
    ensures IsValidCPF(s) == IsValidCPF(t)
  {
  }

  /** A masked and an unmasked spelling of one number get the same answer. */
  lemma SameAsStripped(s: string)
    ensures IsValidCPF(s) == IsValidCPF(Digits(s))
  {
    DigitsOfDigitString(Digits(s));
  }

  /** Inserting a separator anywhere never changes the answer. */
  lemma SeparatorInsensitive(a: string, c: char, b: string)
    requires !IsDigit(c)
    ensures IsValidCPF(a + [c] + b) == IsValidCPF(a + b)
  {
    InsertNonDigit(a, c, b);
  }

  /**
   Accepted strings are exactly those whose projection has eleven digits, not
   one digit repeated, where digit 9 is the check digit of digits 0 .. 8 alone
   and digit 10 the check digit of digits 0 .. 9 alone.
   */
  lemma ValidIff(s: string)
    ensures IsValidCPF(s) <==>
      var d := Digits(s);
      |d| == 11 && !RepeatsOneDigit(d)
      && DigitValue(d[9]) == CheckDigit(d[..9], 9)
      && DigitValue(d[10]) == CheckDigit(d[..10], 10)
  {
    var d := Digits(s);
    if |d| == 11 {
      PrefixWeightedSum(d[..9], d, 9, 10);
      PrefixWeightedSum(d[..10], d, 10, 11);
    }
  }

  // ----- An independent formulation of the check digit -----

  /** The sum over digits 0 .. k-1, digit i weighted by `i + base`. */
  function AscendingSum(ds: string, k: nat, base: int): int
    requires k <= |ds| && AllDigits(ds)
  {
    if k == 0 then 0
    else AscendingSum(ds, k - 1, base) + DigitValue(ds[k - 1]) * ((k - 1) + base)
  }

  /** The plain sum of digits 0 .. k-1. */
  function DigitSum(ds: string, k: nat): int
    requires k <= |ds| && AllDigits(ds)
  {
    if k == 0 then 0 else DigitSum(ds, k - 1) + DigitValue(ds[k - 1])
  }

  /**
   The common textbook form of the same check digit: weights rising from
   10 - n, the sum reduced modulo 11 and then modulo 10.
   */
  function AscendingCheckDigit(ds: string, n: nat): (r: nat)
    requires n <= |ds| && AllDigits(ds)
    ensures r <= 9
  {
    AscendingSum(ds, n, 10 - n) % 11 % 10
  }

  /** Descending weights `top - i` and ascending weights `i + 11 - top` add up to 11. */
  lemma {:induction false} ComplementaryWeights(ds: string, k: nat, top: int)
    requires k <= |ds| && AllDigits(ds)
    ensures WeightedSum(ds, k, top) + AscendingSum(ds, k, 11 - top) == 11 * DigitSum(ds, k)
  {
    if k > 0 {
      ComplementaryWeights(ds, k - 1, top);
      var v := DigitValue(ds[k - 1]);
      assert v * (top - (k - 1)) + v * ((k - 1) + (11 - top)) == 11 * v;
    }
  }

  /** If S + A is a multiple of 11, the remainder of S is the complement of that of A. */
  lemma ComplementaryRemainder(s: int, a: int, m: int)
    requires s + a == 11 * m
    ensures s % 11 == (if a % 11 == 0 then 0 else 11 - a % 11)
  {
    var q := a / 11;
    var ra := a % 11;
    assert a == 11 * q + ra;
    if ra == 0 {
      assert s == 11 * (m - q);
    } else {
      assert s == 11 * (m - q - 1) + (11 - ra);
    }
  }

  /** The validator's check digit agrees with the textbook form. */
  lemma CheckDigitMatchesAscendingForm(ds: string, n: nat)
    requires n <= |ds| && AllDigits(ds)
    ensures CheckDigit(ds, n) == AscendingCheckDigit(ds, n)
  {
    ComplementaryWeights(ds, n, n + 1);
    ComplementaryRemainder(WeightedSum(ds, n, n + 1), AscendingSum(ds, n, 10 - n), DigitSum(ds, n));
  }

  // ----- Helpers about the weighted sums -----

  /** The sum over a prefix only reads that prefix. */
  lemma {:induction false} PrefixWeightedSum(p: string, ds: string, k: nat, top: int)
    requires k <= |p| <= |ds| && p == ds[..|p|] && AllDigits(ds)
    ensures AllDigits(p) && WeightedSum(p, k, top) == WeightedSum(ds, k, top)
  {
    assert forall i :: 0 <= i < |p| ==> p[i] == ds[i];
    if k > 0 {
      PrefixWeightedSum(p, ds, k - 1, top);
    }
  }

  /** The first loop written out: digits 0 .. 8 weighted 10 down to 2. */
  lemma FirstLoopSum(d: string)
    requires |d| == 11 && AllDigits(d)
    ensures WeightedSum(d, 9, 10) == 10 * DigitValue(d[0]) + 9 * DigitValue(d[1]) + 8 * DigitValue(d[2]) + 7 * DigitValue(d[3]) + 6 * DigitValue(d[4]) + 5 * DigitValue(d[5]) + 4 * DigitValue(d[6]) + 3 * DigitValue(d[7]) + 2 * DigitValue(d[8])
  {
    assert WeightedSum(d, 1, 10) == 10 * DigitValue(d[0]);
    assert WeightedSum(d, 2, 10) == 10 * DigitValue(d[0]) + 9 * DigitValue(d[1]);
    assert WeightedSum(d, 3, 10) == 10 * DigitValue(d[0]) + 9 * DigitValue(d[1]) + 8 * DigitValue(d[2]);
    assert WeightedSum(d, 4, 10) == 10 * DigitValue(d[0]) + 9 * DigitValue(d[1]) + 8 * DigitValue(d[2]) + 7 * DigitValue(d[3]);
    assert WeightedSum(d, 5, 10) == 10 * DigitValue(d[0]) + 9 * DigitValue(d[1]) + 8 * DigitValue(d[2]) + 7 * DigitValue(d[3]) + 6 * DigitValue(d[4]);
    assert WeightedSum(d, 6, 10) == 10 * DigitValue(d[0]) + 9 * DigitValue(d[1]) + 8 * DigitValue(d[2]) + 7 * DigitValue(d[3]) + 6 * DigitValue(d[4]) + 5 * DigitValue(d[5]);
    assert WeightedSum(d, 7, 10) == 10 * DigitValue(d[0]) + 9 * DigitValue(d[1]) + 8 * DigitValue(d[2]) + 7 * DigitValue(d[3]) + 6 * DigitValue(d[4]) + 5 * DigitValue(d[5]) + 4 * DigitValue(d[6]);
    assert WeightedSum(d, 8, 10) == 10 * DigitValue(d[0]) + 9 * DigitValue(d[1]) + 8 * DigitValue(d[2]) + 7 * DigitValue(d[3]) + 6 * DigitValue(d[4]) + 5 * DigitValue(d[5]) + 4 * DigitValue(d[6]) + 3 * DigitValue(d[7]);
  }

  /** The second loop written out: digits 0 .. 9 weighted 11 down to 2. */
  lemma SecondLoopSum(d: string)
    requires |d| == 11 && AllDigits(d)
    ensures WeightedSum(d, 10, 11) == 11 * DigitValue(d[0]) + 10 * DigitValue(d[1]) + 9 * DigitValue(d[2]) + 8 * DigitValue(d[3]) + 7 * DigitValue(d[4]) + 6 * DigitValue(d[5]) + 5 * DigitValue(d[6]) + 4 * DigitValue(d[7]) + 3 * DigitValue(d[8]) + 2 * DigitValue(d[9])
  {
    assert WeightedSum(d, 1, 11) == 11 * DigitValue(d[0]);
    assert WeightedSum(d, 2, 11) == 11 * DigitValue(d[0]) + 10 * DigitValue(d[1]);
    assert WeightedSum(d, 3, 11) == 11 * DigitValue(d[0]) + 10 * DigitValue(d[1]) + 9 * DigitValue(d[2]);
    assert WeightedSum(d, 4, 11) == 11 * DigitValue(d[0]) + 10 * DigitValue(d[1]) + 9 * DigitValue(d[2]) + 8 * DigitValue(d[3]);
    assert WeightedSum(d, 5, 11) == 11 * DigitValue(d[0]) + 10 * DigitValue(d[1]) + 9 * DigitValue(d[2]) + 8 * DigitValue(d[3]) + 7 * DigitValue(d[4]);
    assert WeightedSum(d, 6, 11) == 11 * DigitValue(d[0]) + 10 * DigitValue(d[1]) + 9 * DigitValue(d[2]) + 8 * DigitValue(d[3]) + 7 * DigitValue(d[4]) + 6 * DigitValue(d[5]);
    assert WeightedSum(d, 7, 11) == 11 * DigitValue(d[0]) + 10 * DigitValue(d[1]) + 9 * DigitValue(d[2]) + 8 * DigitValue(d[3]) + 7 * DigitValue(d[4]) + 6 * DigitValue(d[5]) + 5 * DigitValue(d[6]);
    assert WeightedSum(d, 8, 11) == 11 * DigitValue(d[0]) + 10 * DigitValue(d[1]) + 9 * DigitValue(d[2]) + 8 * DigitValue(d[3]) + 7 * DigitValue(d[4]) + 6 * DigitValue(d[5]) + 5 * DigitValue(d[6]) + 4 * DigitValue(d[7]);
    assert WeightedSum(d, 9, 11) == 11 * DigitValue(d[0]) + 10 * DigitValue(d[1]) + 9 * DigitValue(d[2]) + 8 * DigitValue(d[3]) + 7 * DigitValue(d[4]) + 6 * DigitValue(d[5]) + 5 * DigitValue(d[6]) + 4 * DigitValue(d[7]) + 3 * DigitValue(d[8]);
  }

  /** The total of the weights `top - i` for i in 0 .. k-1. */
  function WeightTotal(k: nat, top: int): int {
    if k == 0 then 0 else WeightTotal(k - 1, top) + (top - (k - 1))
  }

  /** Over k copies of a digit of value v the sum is v times the weight total. */
  lemma {:induction false} ConstantWeightedSum(ds: string, k: nat, top: int, v: nat)
    requires k <= |ds| && AllDigits(ds)
    requires forall i :: 0 <= i < k ==> DigitValue(ds[i]) == v
    ensures WeightedSum(ds, k, top) == v * WeightTotal(k, top)
  {
    if k > 0 {
      ConstantWeightedSum(ds, k - 1, top, v);
      assert v * WeightTotal(k, top) == v * WeightTotal(k - 1, top) + v * (top - (k - 1));
    }
  }
}
