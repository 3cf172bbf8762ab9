/** The C library's strtol in base 10 on a 64-bit long, and the cast of its result to int. */
module Numbers {
  const LONG_MAX := 0x7fff_ffff_ffff_ffff
  const LONG_MIN := -0x8000_0000_0000_0000

  predicate IsSpace(c: char) {
    c == ' ' || '\t' <= c <= '\r'
  }

  predicate IsDigit(c: char) {
    '0' <= c <= '9'
  }

  function SkipSpaces(s: string, i: nat): (end: nat)
    requires i <= |s|
    ensures i <= end <= |s|
    decreases |s| - i
  {
    if i < |s| && IsSpace(s[i]) then SkipSpaces(s, i + 1) else i
  }

  function DigitsEnd(s: string, i: nat): (end: nat)
    requires i <= |s|
    ensures i <= end <= |s|
    ensures forall k | i <= k < end :: IsDigit(s[k])
    decreases |s| - i
  {
    if i < |s| && IsDigit(s[i]) then DigitsEnd(s, i + 1) else i
  }

  function DigitsValue(digits: string): nat
    requires forall k | 0 <= k < |digits| :: IsDigit(digits[k])
  {
    if digits == "" then 0
    else
      assert IsDigit(digits[|digits| - 1]);
      10 * DigitsValue(digits[..|digits| - 1]) + (digits[|digits| - 1] as int - '0' as int)
  }

  function Saturate(v: int): int {
    if v > LONG_MAX then LONG_MAX else if v < LONG_MIN then LONG_MIN else v
  }

  /** The value and the index of the first character that is not part of the number. */
  function StrToLong(s: string): (int, nat) {
    var i := SkipSpaces(s, 0);
    var negative := i < |s| && s[i] == '-';
    var j := if i < |s| && (s[i] == '-' || s[i] == '+') then i + 1 else i;
    var end := DigitsEnd(s, j);
    if end == j then (0, 0)
    else
      var magnitude: int := DigitsValue(s[j..end]);
      (Saturate(if negative then -magnitude else magnitude), end)
  }

  /** The number a whole argument denotes, if all of it was consumed. */
  function WholeNumber(s: string): (int, bool) {
    var (value, end) := StrToLong(s);
    (value, end == |s|)
  }

  /** The cast of a long to a 32-bit int. */
  function AsInt(v: int): int {
    var low := v % 0x1_0000_0000;
    if low < 0x8000_0000 then low else low - 0x1_0000_0000
  }

  // How numbers are written, independently of how they are read

  const DIGITS := "0123456789"

  function Decimal(n: nat): (s: string)
    ensures s != ""
  {
    if n < 10 then [DIGITS[n]] else Decimal(n / 10) + [DIGITS[n % 10]]
  }

  ghost predicate AllDigits(s: string) {
    forall k | 0 <= k < |s| :: '0' <= s[k] <= '9'
  }

  ghost predicate AllSpaces(s: string) {
    forall k | 0 <= k < |s| :: s[k] == ' ' || '\t' <= s[k] <= '\r'
  }

  ghost predicate AllZeros(s: string) {
    forall k | 0 <= k < |s| :: s[k] == '0'
  }

  predicate IsSign(sign: string) {
    sign == "" || sign == "+" || sign == "-"
  }

  lemma OneDigit(d: nat)
    requires d < 10
    ensures AllDigits([DIGITS[d]]) && DigitsValue([DIGITS[d]]) == d
  {
    assert DIGITS[d] as int == '0' as int + d;
    assert [DIGITS[d]][..0] == "";
  }

  lemma DigitBehind(digits: string, d: nat)
    requires AllDigits(digits) && d < 10
    ensures AllDigits(digits + [DIGITS[d]])
    ensures DigitsValue(digits + [DIGITS[d]]) == 10 * DigitsValue(digits) + d
  {
    assert DIGITS[d] as int == '0' as int + d;
    assert (digits + [DIGITS[d]])[..|digits|] == digits;
  }

  lemma {:induction false} DecimalDenotes(n: nat)
    ensures AllDigits(Decimal(n)) && DigitsValue(Decimal(n)) == n
  {
    if n < 10 {
      OneDigit(n);
    } else {
      DecimalDenotes(n / 10);
      DigitBehind(Decimal(n / 10), n % 10);
    }
  }

  lemma {:induction false} ZerosDenoteNothing(zeros: string)
    requires AllZeros(zeros)
    ensures AllDigits(zeros) && DigitsValue(zeros) == 0
  {
    if zeros != "" {
      ZerosDenoteNothing(zeros[..|zeros| - 1]);
    }
  }

  lemma {:induction false} LeadingZeros(zeros: string, digits: string)
    requires AllZeros(zeros) && AllDigits(digits)
    ensures AllDigits(zeros + digits) && DigitsValue(zeros + digits) == DigitsValue(digits)
    decreases |digits|
  {
    ZerosDenoteNothing(zeros);
    if digits == "" {
      assert zeros + digits == zeros;
    } else {
      var n := |digits| - 1;
      LeadingZeros(zeros, digits[..n]);
      assert (zeros + digits)[..|zeros| + n] == zeros + digits[..n];
      assert (zeros + digits)[|zeros| + n] == digits[n];
    }
  }

  lemma {:induction false} SpacesEnd(s: string, i: nat, end: nat)
    requires i <= end <= |s| && forall k | i <= k < end :: IsSpace(s[k])
    requires end == |s| || !IsSpace(s[end])
    ensures SkipSpaces(s, i) == end
    decreases end - i
  {
    if i < end {
      SpacesEnd(s, i + 1, end);
    }
  }

  lemma {:induction false} DigitsStop(s: string, i: nat)
    requires i <= |s| && forall k | i <= k < |s| :: IsDigit(s[k])
    ensures DigitsEnd(s, i) == |s|
    decreases |s| - i
  {
    if i < |s| {
      DigitsStop(s, i + 1);
    }
  }

  /** The number in a string whose parts lie at i and j. */
  lemma ReadAt(s: string, i: nat, j: nat, digits: string)
    requires i <= j < |s| && digits == s[j..] && AllDigits(digits)
    requires forall k | 0 <= k < i :: IsSpace(s[k])
    requires j == i || (j == i + 1 && (s[i] == '+' || s[i] == '-'))
    ensures var v: int := DigitsValue(digits);
      StrToLong(s) == (Saturate(if s[i] == '-' then -v else v), |s|)
  {
    forall k | j <= k < |s| ensures IsDigit(s[k]) {
      assert s[k] == digits[k - j];
    }
    SpacesEnd(s, 0, i);
    DigitsStop(s, j);
    assert s[j..|s|] == digits;
  }

  /** White space, a sign and digits are read as a whole. */
  lemma DigitsAreRead(spaces: string, sign: string, digits: string)
    requires AllSpaces(spaces) && IsSign(sign) && AllDigits(digits) && digits != ""
    ensures var v: int := DigitsValue(digits);
      WholeNumber(spaces + sign + digits) == (Saturate(if sign == "-" then -v else v), true)
  {
    var s, i, j := spaces + sign + digits, |spaces|, |spaces| + |sign|;
    assert s[j..] == digits && s[j] == digits[0];
    assert forall k | 0 <= k < i :: s[k] == spaces[k];
    assert sign != "" ==> s[i] == sign[0];
    ReadAt(s, i, j, digits);
  }

  /** Every number up to the ends of a long is read back from its decimal notation, with any
      white space and any zeros in front; beyond them the nearest end is read. */
  lemma NumeralIsRead(spaces: string, sign: string, zeros: string, n: nat)
    requires AllSpaces(spaces) && IsSign(sign) && AllZeros(zeros)
    ensures var (value, whole) := WholeNumber(spaces + sign + (zeros + Decimal(n)));
      && whole
      && (n <= 0x7fff_ffff_ffff_ffff ==> value == (if sign == "-" then -1 else 1) * n)
      && (n > 0x7fff_ffff_ffff_ffff ==>
            value == if sign == "-" then -0x8000_0000_0000_0000 else 0x7fff_ffff_ffff_ffff)
  {
    DecimalDenotes(n);
    LeadingZeros(zeros, Decimal(n));
    DigitsAreRead(spaces, sign, zeros + Decimal(n));
  }

  lemma DecimalIsRead(n: nat)
    requires n < 0x8000_0000_0000_0000
    ensures WholeNumber(Decimal(n)) == (n, true)
  {
    NumeralIsRead("", "", "", n);
    assert "" + "" + ("" + Decimal(n)) == Decimal(n);
  }

  /** The form of what is consumed as a whole: nothing at all, or white space, a sign and at
      least one digit. */
  ghost predicate IsNumeral(s: string) {
    s == "" || exists spaces, sign, digits ::
      AllSpaces(spaces) && IsSign(sign) && AllDigits(digits) && digits != "" && s == spaces + sign + digits
  }

  lemma {:induction false} SpacesSkipped(s: string, i: nat)
    requires i <= |s|
    ensures forall k | i <= k < SkipSpaces(s, i) :: IsSpace(s[k])
    decreases |s| - i
  {
    if i < |s| && IsSpace(s[i]) {
      SpacesSkipped(s, i + 1);
    }
  }

  lemma WholeIsNumeral(s: string)
    requires WholeNumber(s).1 && s != ""
    ensures IsNumeral(s)
  {
    var i := SkipSpaces(s, 0);
    SpacesSkipped(s, 0);
    var j := if i < |s| && (s[i] == '-' || s[i] == '+') then i + 1 else i;
    assert DigitsEnd(s, j) == |s| && j < |s|;
    PartsAreNumeral(s, i, j);
  }

  lemma PartsAreNumeral(s: string, i: nat, j: nat)
    requires i <= j < |s| && (j == i || (j == i + 1 && (s[i] == '-' || s[i] == '+')))
    requires forall k | 0 <= k < i :: IsSpace(s[k])
    requires forall k | j <= k < |s| :: IsDigit(s[k])
    ensures IsNumeral(s)
  {
    var spaces, sign, digits := s[..i], s[i..j], s[j..];
    assert AllSpaces(spaces) && AllDigits(digits);
    assert sign == if j == i then "" else [s[i]];
    assert s == spaces + sign + digits;
  }

  lemma WholeExactly(s: string)
    ensures WholeNumber(s).1 <==> IsNumeral(s)
  {
    if WholeNumber(s).1 && s != "" {
      WholeIsNumeral(s);
    }
    if spaces, sign, digits :|
      AllSpaces(spaces) && IsSign(sign) && AllDigits(digits) && digits != "" && s == spaces + sign + digits
    {
      DigitsAreRead(spaces, sign, digits);
    }
  }

  /** A text that is a decimal numeral, perhaps with white space, a plus sign and zeros in
      front. */
  ghost predicate Denotes(text: string, n: nat) {
    exists spaces, sign, zeros :: AllSpaces(spaces) && (sign == "" || sign == "+") && AllZeros(zeros)
      && text == spaces + sign + (zeros + Decimal(n))
  }

  lemma DecimalDenotesItself(n: nat)
    ensures Denotes(Decimal(n), n)
  {
    assert Decimal(n) == "" + "" + ("" + Decimal(n));
    assert AllSpaces("") && AllZeros("");
  }

  /** What strtol reads of a numeral: the number, or the greatest long. */
  function ReadAs(n: nat): nat {
    if n < 0x8000_0000_0000_0000 then n else 0x7fff_ffff_ffff_ffff
  }

  lemma NumeralDenotes(text: string, n: nat)
    requires Denotes(text, n)
    ensures WholeNumber(text) == (ReadAs(n), true) && text != ""
  {
    var spaces, sign, zeros :| AllSpaces(spaces) && (sign == "" || sign == "+") && AllZeros(zeros)
      && text == spaces + sign + (zeros + Decimal(n));
    assert "+"[0] == '+' && "-"[0] == '-';
    NumeralIsRead(spaces, sign, zeros, n);
  }
}
