/**
 Reference inputs of the CPF validator and the masks, and what they give,
 worked out from the specification functions. Each input is a parameter fixed by the
 precondition, so that the proofs reason about it step by step.
 */
module CpfVectors {
  import opened DigitStrip
  import opened CpfValidator
  import opened InputMasks

  /** A valid number: the sums are 295 and 347. */
  lemma ValidVector1(d: string)
    requires d == "52998224725"
    ensures IsValidCPF(d)
  {
    assert AllDigits(d);
    DigitsOfDigitString(d);
    assert !RepeatsOneDigit(d) by { assert d[1] != d[0]; }
    assert WeightedSum(d, 9, 10) == 295 && WeightedSum(d, 10, 11) == 347 by { FirstLoopSum(d); SecondLoopSum(d); }
    assert CheckDigit(d, 9) == 2 && CheckDigit(d, 10) == 5;
  }

  /** A valid number: the sums are 162 and 204. */
  lemma ValidVector2(d: string)
    requires d == "11144477735"
    ensures IsValidCPF(d)
  {
    assert AllDigits(d);
    DigitsOfDigitString(d);
    assert !RepeatsOneDigit(d) by { assert d[3] != d[0]; }
    assert WeightedSum(d, 9, 10) == 162 && WeightedSum(d, 10, 11) == 204 by { FirstLoopSum(d); SecondLoopSum(d); }
    assert CheckDigit(d, 9) == 3 && CheckDigit(d, 10) == 5;
  }

  /** The first check digit holds but the second sum, 255, asks for 9 rather than 0. */
  lemma InvalidVectorChecksum(d: string)
    requires d == "12345678900"
    ensures AllDigits(d) && CheckDigit(d, 9) == 0 && CheckDigit(d, 10) == 9
    ensures !IsValidCPF(d)
  {
    assert AllDigits(d);
    DigitsOfDigitString(d);
    assert WeightedSum(d, 9, 10) == 210 && WeightedSum(d, 10, 11) == 255 by { FirstLoopSum(d); SecondLoopSum(d); }
  }

  /** Eleven ones and the empty string are rejected. */
  lemma InvalidVectorsShape(ones: string, empty: string)
    requires ones == "11111111111" && empty == ""
    ensures !IsValidCPF(ones) && !IsValidCPF(empty)
  {
    assert ones == seq(11, _ => '1');
    RepeatedDigitRejected('1');
  }

  /** The CPF mask shows the first vector as `529.982.247-25`. */
  lemma CpfMaskVector(typed: string, shown: string)
    requires typed == "52998224725" && shown == "529.982.247-25"
    ensures FormatCPF(typed) == shown
  {
    assert AllDigits(typed);
    DigitsOfDigitString(typed);
    FormatCPFElevenDigits(typed);
  }

  /** The first vector as the CPF mask shows it is accepted too. */
  lemma ValidVectorMasked(s: string)
    requires s == "529.982.247-25"
    ensures IsValidCPF(s)
  {
    var d := "52998224725";
    CpfMaskVector(d, s);
    ValidVector1(d);
    FormatCPFKeepsValidity(d);
  }

  /** Eleven typed digits are shown as the phone field's placeholder shape. */
  lemma PhoneVector(typed: string)
    requires typed == "11999999999"
    ensures FormatPhone(typed) == "(11) 99999-9999"
    ensures IsPhoneFormat(FormatPhone(typed))
  {
    assert AllDigits(typed);
    DigitsOfDigitString(typed);
    FormatPhoneElevenDigits(typed);
  }
}
