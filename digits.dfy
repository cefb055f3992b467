/**
 The digit projection shared by the CPF validator and the two input masks:
 `value.replace(/\D/g, "")` keeps the ASCII digits of a string, in order.
 */
module DigitStrip {

  /** The class `\d` of a JavaScript regular expression: an ASCII digit. */
  predicate IsDigit(c: char) {
    '0' <= c <= '9'
  }

  predicate AllDigits(s: string) {
    forall i :: 0 <= i < |s| ==> IsDigit(s[i])
  }

  /** `parseInt` of a one-character digit string. */
  function DigitValue(c: char): (v: nat)
    requires IsDigit(c)
    ensures v <= 9
  {
    (c as int) - ('0' as int)
  }

  /**
   Every non-digit removed, the digits kept in their original order: the
   result of a global replace of `\D` by the empty string.
   */
  function Digits(s: string): (r: string)
    ensures AllDigits(r)
    ensures |r| <= |s|
  {
    if s == [] then []
    else if IsDigit(s[0]) then [s[0]] + Digits(s[1..])
    else Digits(s[1..])
  }

  /** Stripping distributes over concatenation. */
  lemma {:induction false} DigitsConcat(a: string, b: string)
    ensures Digits(a + b) == Digits(a) + Digits(b)
  {
    if a == [] {
      assert a + b == b;
    } else {
      assert (a + b)[0] == a[0];
      assert (a + b)[1..] == a[1..] + b;
      DigitsConcat(a[1..], b);
    }
  }

  /** A non-digit contributes nothing to the projection. */
  lemma NonDigitVanishes(c: char)
    requires !IsDigit(c)
    ensures Digits([c]) == []
  {
    assert [c][1..] == [];
  }

  /** Inserting a non-digit anywhere leaves the projection unchanged. */
  lemma {:induction false} InsertNonDigit(a: string, c: char, b: string)
    requires !IsDigit(c)
    ensures Digits(a + [c] + b) == Digits(a + b)
  {
    DigitsConcat(a + [c], b);
    DigitsConcat(a, [c]);
    NonDigitVanishes(c);
    assert Digits(a) + [] == Digits(a);
    DigitsConcat(a, b);
  }

  /** An all-digit string is its own projection. */
  lemma {:induction false} DigitsOfDigitString(s: string)
    requires AllDigits(s)
    ensures Digits(s) == s
  {
    if s != [] {
      DigitsOfDigitString(s[1..]);
    }
  }

  /** The projection is the identity exactly on all-digit strings. */
  lemma DigitsFixedPointIff(s: string)
    ensures Digits(s) == s <==> AllDigits(s)
  {
    if AllDigits(s) {
      DigitsOfDigitString(s);
    }
  }

  /** Appending a separator and then a run of digits extends the projection by that run. */
  lemma AppendGroup(acc: string, sep: char, group: string, known: string)
    requires Digits(acc) == known && !IsDigit(sep) && AllDigits(group)
    ensures Digits(acc + [sep] + group) == known + group
  {
    DigitsConcat(acc + [sep], group);
    DigitsConcat(acc, [sep]);
    NonDigitVanishes(sep);
    DigitsOfDigitString(group);
    assert Digits(acc) + [] == Digits(acc);
  }
}
