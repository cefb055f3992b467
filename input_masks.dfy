/**
 The two display masks of the registration form and the phone pattern the
 form checks. Each mask strips the input to its digits and then rewrites the
 first match of a digit-group pattern; on an all-digit string an unanchored,
 non-global pattern can only match at position 0, and only when enough
 digits exist, so the rest of the digits is kept after the rewritten part.
 */
module InputMasks {
  import opened DigitStrip
  import opened CpfValidator

  // ----- Patterns -----

  /**
   `\s` of an ECMAScript regular expression: the WhiteSpace characters
   (tab, vertical tab, form feed, space, no-break space, every space
   separator, the byte order mark) and the LineTerminator characters.
   */
  predicate IsRegexSpace(c: char) {
    c == '\t' || c == '\n' || c == '\U{000B}' || c == '\U{000C}' || c == '\r'
    || c == ' ' || c == '\U{00A0}' || c == '\U{1680}'
    || ('\U{2000}' <= c <= '\U{200A}')
    || c == '\U{2028}' || c == '\U{2029}' || c == '\U{202F}' || c == '\U{205F}'
    || c == '\U{3000}' || c == '\U{FEFF}'
  }

  /** `/^\(\d{2}\)\s\d{4,5}-\d{4}$/`, the phone field's pattern. */
  predicate IsPhoneFormat(s: string) {
    (|s| == 14 || |s| == 15)
    && s[0] == '(' && IsDigit(s[1]) && IsDigit(s[2]) && s[3] == ')'
    && IsRegexSpace(s[4])
    && AllDigits(s[5..|s| - 5]) && s[|s| - 5] == '-' && AllDigits(s[|s| - 4..])
  }

  /** The shape `ddd.ddd.ddd-dd` of the CPF field's placeholder. */
  predicate IsMaskedCPF(s: string) {
    |s| == 14
    && AllDigits(s[..3]) && s[3] == '.' && AllDigits(s[4..7]) && s[7] == '.'
    && AllDigits(s[8..11]) && s[11] == '-' && AllDigits(s[12..])
  }

  // ----- The masks -----

  /**
   `formatCPF`: the digits, with `(\d{3})(\d{3})(\d{3})(\d{2})` rewritten to
   `$1.$2.$3-$4` when at least eleven digits exist.
   */
  function FormatCPF(value: string): (r: string)
    ensures |Digits(value)| < 11 ==> r == Digits(value)
    ensures |Digits(value)| >= 11 ==> |r| == |Digits(value)| + 3
  {
    var numbers := Digits(value);
    if |numbers| >= 11 then
      numbers[..3] + "." + numbers[3..6] + "." + numbers[6..9] + "-" + numbers[9..11] + numbers[11..]
    else
      numbers
  }

  /**
   `formatPhone`: up to ten digits go through `(\d{2})(\d{4})(\d{4})`, more
   through `(\d{2})(\d{5})(\d{4})`, each rewritten to `($1) $2-$3`.
   */
  function FormatPhone(value: string): (r: string)
    ensures |Digits(value)| < 10 ==> r == Digits(value)
    ensures |Digits(value)| == 10 ==> |r| == 14
    ensures |Digits(value)| >= 11 ==> |r| == |Digits(value)| + 4
  {
    var numbers := Digits(value);
    if |numbers| <= 10 then
      if |numbers| == 10 then
        "(" + numbers[..2] + ") " + numbers[2..6] + "-" + numbers[6..10]
      else
        numbers
    else
      "(" + numbers[..2] + ") " + numbers[2..7] + "-" + numbers[7..11] + numbers[11..]
  }

  // ----- Both masks keep the digits -----

  /** The CPF mask's rewrite of eleven or more digits keeps them, in order. */
  lemma CpfMaskDigits(n: string)
    requires AllDigits(n) && |n| >= 11
    ensures Digits(n[..3] + "." + n[3..6] + "." + n[6..9] + "-" + n[9..11] + n[11..]) == n
  {
    DigitsOfDigitString(n[..3]);
    var t1 := n[..3] + "." + n[3..6];
    assert Digits(t1) == n[..6] by {
      AppendGroup(n[..3], '.', n[3..6], n[..3]);
      assert n[..3] + n[3..6] == n[..6];
    }
    var t2 := t1 + "." + n[6..9];
    assert Digits(t2) == n[..9] by {
      AppendGroup(t1, '.', n[6..9], n[..6]);
      assert n[..6] + n[6..9] == n[..9];
    }
    var t3 := t2 + "-" + n[9..11];
    assert Digits(t3) == n[..11] by {
      AppendGroup(t2, '-', n[9..11], n[..9]);
      assert n[..9] + n[9..11] == n[..11];
    }
    DigitsOfDigitString(n[11..]);
    DigitsConcat(t3, n[11..]);
    assert n[..11] + n[11..] == n;
  }

  /** The area code in parentheses and the middle group keep their digits. */
  lemma PhoneHeadDigits(n: string, k: nat)
    requires AllDigits(n) && |n| >= 2 + k
    ensures Digits("(" + n[..2] + ") " + n[2..2 + k]) == n[..2 + k]
  {
    var t0 := "(" + n[..2];
    assert Digits(t0) == n[..2] by {
      AppendGroup([], '(', n[..2], []);
      assert [] + "(" + n[..2] == t0;
    }
    var t1 := t0 + ")" + [];
    assert Digits(t1) == n[..2] by {
      AppendGroup(t0, ')', [], n[..2]);
      assert n[..2] + [] == n[..2];
    }
    AppendGroup(t1, ' ', n[2..2 + k], n[..2]);
    assert n[..2] + n[2..2 + k] == n[..2 + k];
    assert t1 + " " + n[2..2 + k] == "(" + n[..2] + ") " + n[2..2 + k];
  }

  /**
   The phone mask's rewrite, with a middle group of k digits (4 or 5),
   keeps all the digits in order.
   */
  lemma PhoneMaskDigits(n: string, k: nat)
    requires AllDigits(n) && (k == 4 || k == 5) && |n| >= 6 + k
    ensures Digits("(" + n[..2] + ") " + n[2..2 + k] + "-" + n[2 + k..6 + k] + n[6 + k..]) == n
  {
    var t2 := "(" + n[..2] + ") " + n[2..2 + k];
    PhoneHeadDigits(n, k);
    var t3 := t2 + "-" + n[2 + k..6 + k];
    assert Digits(t3) == n[..6 + k] by {
      AppendGroup(t2, '-', n[2 + k..6 + k], n[..2 + k]);
      assert n[..2 + k] + n[2 + k..6 + k] == n[..6 + k];
    }
    DigitsOfDigitString(n[6 + k..]);
    DigitsConcat(t3, n[6 + k..]);
    assert n[..6 + k] + n[6 + k..] == n;
  }

  /** The CPF mask adds only separators: its digits are the input's digits. */
  lemma FormatCPFKeepsDigits(value: string)
    ensures Digits(FormatCPF(value)) == Digits(value)
  {
    if |Digits(value)| >= 11 {
      CpfMaskDigits(Digits(value));
    } else {
      DigitsOfDigitString(Digits(value));
    }
  }

  /** The phone mask adds only separators: its digits are the input's digits. */
  lemma FormatPhoneKeepsDigits(value: string)
    ensures Digits(FormatPhone(value)) == Digits(value)
  {
    var n := Digits(value);
    if |n| == 10 {
      PhoneMaskDigits(n, 4);
      assert n[10..] == [];
      assert FormatPhone(value) == "(" + n[..2] + ") " + n[2..6] + "-" + n[6..10] + n[10..];
    } else if |n| >= 11 {
      PhoneMaskDigits(n, 5);
    } else {
      DigitsOfDigitString(n);
    }
  }

  // ----- What the masks produce -----

  /** Exactly eleven digits become `ddd.ddd.ddd-dd`, fourteen characters. */
  lemma FormatCPFElevenDigits(value: string)
    requires |Digits(value)| == 11
    ensures var n := Digits(value);
      FormatCPF(value) == n[..3] + "." + n[3..6] + "." + n[6..9] + "-" + n[9..]
    ensures IsMaskedCPF(FormatCPF(value))
  {
    var n, r := Digits(value), FormatCPF(value);
    assert n[11..] == [];
    assert r[..3] == n[..3] && r[4..7] == n[3..6] && r[8..11] == n[6..9] && r[12..] == n[9..];
  }

  /** The CPF mask yields the placeholder shape exactly when there are eleven digits. */
  lemma FormatCPFMaskedIff(value: string)
    ensures IsMaskedCPF(FormatCPF(value)) <==> |Digits(value)| == 11
  {
    if |Digits(value)| == 11 {
      FormatCPFElevenDigits(value);
    }
  }

  /** Exactly ten digits become `(dd) dddd-dddd`, which the phone pattern accepts. */
  lemma FormatPhoneTenDigits(value: string)
    requires |Digits(value)| == 10
    ensures var n := Digits(value);
      FormatPhone(value) == "(" + n[..2] + ") " + n[2..6] + "-" + n[6..]
    ensures IsPhoneFormat(FormatPhone(value))
  {
    var n, r := Digits(value), FormatPhone(value);
    assert r[5..9] == n[2..6] && r[10..] == n[6..];
  }

  /** Exactly eleven digits become `(dd) ddddd-dddd`, which the phone pattern accepts. */
  lemma FormatPhoneElevenDigits(value: string)
    requires |Digits(value)| == 11
    ensures var n := Digits(value);
      FormatPhone(value) == "(" + n[..2] + ") " + n[2..7] + "-" + n[7..]
    ensures IsPhoneFormat(FormatPhone(value))
  {
    var n, r := Digits(value), FormatPhone(value);
    assert n[11..] == [];
    assert r[5..10] == n[2..7] && r[11..] == n[7..];
  }

  /** The phone mask satisfies the phone pattern exactly when there are ten or eleven digits. */
  lemma FormatPhoneAcceptedIff(value: string)
    ensures IsPhoneFormat(FormatPhone(value)) <==> (|Digits(value)| == 10 || |Digits(value)| == 11)
  {
    var n, r := Digits(value), FormatPhone(value);
    if |n| == 10 {
      FormatPhoneTenDigits(value);
    } else if |n| == 11 {
      FormatPhoneElevenDigits(value);
    } else if |n| < 10 {
      // too short for the pattern
      assert |r| < 14;
    } else {
      // twelve or more digits make the string longer than the pattern allows
      assert |r| >= 16;
    }
  }

  // ----- Masks compose with themselves and with the validator -----

  /** Re-masking on every keystroke is harmless: the CPF mask is idempotent. */
  lemma FormatCPFIdempotent(value: string)
    ensures FormatCPF(FormatCPF(value)) == FormatCPF(value)
  {
    FormatCPFKeepsDigits(value);
  }

  /** The phone mask is idempotent. */
  lemma FormatPhoneIdempotent(value: string)
    ensures FormatPhone(FormatPhone(value)) == FormatPhone(value)
  {
    FormatPhoneKeepsDigits(value);
  }

  /** Masking the CPF field never changes the validator's answer. */
  lemma FormatCPFKeepsValidity(value: string)
    ensures IsValidCPF(FormatCPF(value)) == IsValidCPF(value)
  {
    FormatCPFKeepsDigits(value);
  }

  /** A value already in the placeholder shape is left as it is. */
  lemma MaskedCPFIsFixedPoint(s: string)
    requires IsMaskedCPF(s)
    ensures FormatCPF(s) == s
  {
    var n := s[..3] + s[4..7] + s[8..11] + s[12..];
    assert AllDigits(n) && |n| == 11;
    assert n[..3] == s[..3] && n[3..6] == s[4..7] && n[6..9] == s[8..11] && n[9..11] == s[12..];
    assert s == n[..3] + "." + n[3..6] + "." + n[6..9] + "-" + n[9..11] + n[11..];
    CpfMaskDigits(n);
    FormatCPFElevenDigits(s);
  }

  /** A phone number already in the pattern, with a plain space, is left as it is. */
  lemma FormattedPhoneIsFixedPoint(s: string)
    requires IsPhoneFormat(s) && s[4] == ' '
    ensures FormatPhone(s) == s
  {
    var k := |s| - 10;
    var n := s[1..3] + s[5..5 + k] + s[5 + k + 1..];
    assert AllDigits(n) && |n| == 6 + k;
    assert n[..2] == s[1..3] && n[2..2 + k] == s[5..5 + k] && n[2 + k..6 + k] == s[5 + k + 1..];
    assert n[6 + k..] == [];
    assert s == "(" + n[..2] + ") " + n[2..2 + k] + "-" + n[2 + k..6 + k] + n[6 + k..];
    PhoneMaskDigits(n, k);
    if k == 4 {
      FormatPhoneTenDigits(s);
    } else {
      FormatPhoneElevenDigits(s);
    }
  }
}
