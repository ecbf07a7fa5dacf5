/** Decimal integers as Go prints and parses them (strconv, base 10, 64 bits). */
module Decimal {
  import opened Documents

  const MIN_INT64 := -0x8000_0000_0000_0000
  const MAX_INT64 := 0x7FFF_FFFF_FFFF_FFFF

  predicate IsDigit(ch: char) { '0' <= ch <= '9' }

  predicate AllDigits(s: string) { forall i | 0 <= i < |s| :: IsDigit(s[i]) }

  function DigitChar(d: nat): char
    requires d < 10
  {
    ('0' as int + d) as char
  }

  function FormatNat(n: nat): (s: string)
    ensures |s| >= 1 && AllDigits(s)
  {
    if n < 10 then [DigitChar(n)] else FormatNat(n / 10) + [DigitChar(n % 10)]
  }

  /** %d */
  function Format(n: int): string {
    if n < 0 then "-" + FormatNat(-n) else FormatNat(n)
  }

  function Digits(s: string): nat
    requires AllDigits(s)
  {
    if |s| == 0 then 0 else Digits(s[..|s|-1]) * 10 + (s[|s|-1] as int - '0' as int)
  }

  /** strconv.ParseInt(s, 10, 64): an optional sign, at least one digit, in range. */
  function ParseInt(s: string): Option<int> {
    var signed := |s| > 0 && (s[0] == '-' || s[0] == '+');
    var digits := if signed then s[1..] else s;
    if |digits| == 0 || !AllDigits(digits) then None
    else
      var magnitude: int := Digits(digits);
      var n := if signed && s[0] == '-' then -magnitude else magnitude;
      if MIN_INT64 <= n <= MAX_INT64 then Some(n) else None
  }

  lemma {:induction false} DigitsOfFormat(n: nat)
    ensures Digits(FormatNat(n)) == n
  {
    if n >= 10 {
      DigitsOfFormat(n / 10);
      var s := FormatNat(n);
      assert s[..|s|-1] == FormatNat(n / 10);
    } else {
      assert FormatNat(n)[..0] == "";
    }
  }

  /** What %d prints, ParseInt reads back. */
  lemma FormatRoundTrip(n: int)
    requires MIN_INT64 <= n <= MAX_INT64
    ensures ParseInt(Format(n)) == Some(n)
  {
    if n < 0 {
      DigitsOfFormat(-n);
      assert Format(n)[1..] == FormatNat(-n);
    } else {
      DigitsOfFormat(n);
      assert IsDigit(Format(n)[0]);
    }
  }

  // ---------------------------------------------------------------- every string

  function Zeros(k: nat): string { seq(k, _ => '0') }

  /** Digits are leading zeros and then a printed number. */
  lemma {:induction false} DigitsAreNumber(s: string) returns (k: nat)
    requires AllDigits(s) && |s| > 0
    ensures s == Zeros(k) + FormatNat(Digits(s))
    decreases |s|
  {
    var init, last := s[..|s|-1], s[|s|-1];
    assert s == init + [last] && IsDigit(last) && [DigitChar(last as int - '0' as int)] == [last];
    if init == "" {
      assert Digits(init) == 0;
      k := 0;
    } else {
      k := DigitsAreNumber(init);
      if Digits(init) == 0 {
        k := k + 1;
        assert init == Zeros(k);
      }
    }
  }

  lemma {:induction false} LeadingZeros(k: nat, s: string)
    requires AllDigits(s)
    ensures AllDigits(Zeros(k) + s) && Digits(Zeros(k) + s) == Digits(s)
    decreases k + |s|
  {
    var padded := Zeros(k) + s;
    if s != "" {
      LeadingZeros(k, s[..|s|-1]);
      assert padded[..|padded|-1] == Zeros(k) + s[..|s|-1];
    } else if k > 0 {
      LeadingZeros(k - 1, s);
      assert padded[..k - 1] == Zeros(k - 1) + s;
    }
  }

  /** `s` spells `n`: a sign that fits, leading zeros, and the number as it is printed. */
  ghost predicate Spells(s: string, n: int, sign: string, zeros: nat) {
    && s == sign + (Zeros(zeros) + FormatNat(if n < 0 then -n else n))
    && ((sign == "-" && n <= 0) || ((sign == "" || sign == "+") && n >= 0))
  }

  /** For every string: ParseInt reads exactly the spellings of the integers in range. */
  lemma ParseIntIff(s: string, n: int)
    ensures ParseInt(s) == Some(n) <==> MIN_INT64 <= n <= MAX_INT64 && exists sign, zeros :: Spells(s, n, sign, zeros)
  {
    if ParseInt(s) == Some(n) {
      var signed := s[0] == '-' || s[0] == '+';
      var sign, digits := if signed then s[..1] else "", if signed then s[1..] else s;
      var k := DigitsAreNumber(digits);
      assert s == sign + digits;
      assert Spells(s, n, sign, k);
    }
    if sign, zeros :| Spells(s, n, sign, zeros) {
      SpellingIsRead(s, n, sign, zeros);
    }
  }

  lemma SignedIsRead(sign: string, digits: string)
    requires sign in {"", "+", "-"} && |digits| > 0 && AllDigits(digits)
    ensures var n := if sign == "-" then -(Digits(digits) as int) else Digits(digits);
      ParseInt(sign + digits) == if MIN_INT64 <= n <= MAX_INT64 then Some(n) else None
  {
    var s := sign + digits;
    if sign == "" {
      assert s == digits && IsDigit(s[0]);
    } else {
      assert s[0] == sign[0] && s[1..] == digits;
    }
  }

  lemma SpellingIsRead(s: string, n: int, sign: string, zeros: nat)
    requires Spells(s, n, sign, zeros)
    ensures ParseInt(s) == if MIN_INT64 <= n <= MAX_INT64 then Some(n) else None
  {
    var m := if n < 0 then -n else n;
    LeadingZeros(zeros, FormatNat(m));
    DigitsOfFormat(m);
    SignedIsRead(sign, Zeros(zeros) + FormatNat(m));
  }

  /** A printed number has no leading zero. */
  lemma {:induction false} NoLeadingZero(n: nat)
    ensures FormatNat(n)[0] == '0' ==> n == 0
  {
    if n >= 10 { NoLeadingZero(n / 10); }
  }

  /** A printed integer has no other characters than digits and a minus sign. */
  lemma FormatChars(n: int)
    ensures forall i | 0 <= i < |Format(n)| :: IsDigit(Format(n)[i]) || Format(n)[i] == '-'
  {
  }
}
