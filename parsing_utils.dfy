// Minimal models of the character-level primitives the GEO importer relies on:
// the '\0'-terminated line buffer, SkipSpaces, the unsigned decimal reader
// strtoul10, the real-number reader fast_atoreal_move (the decimal a token
// spells and the positions it consumes) and the printf conversions %d and %X.
module ParsingUtils {

  /** One line of the text buffer, as the line splitter hands it over: no line-end characters. */
  type Line = seq<char>

  const UINT32_MODULUS: nat := 0x1_0000_0000

  /** The character at position i of a line held in a '\0'-terminated buffer. */
  function At(s: seq<char>, i: int): char
  {
    if 0 <= i < |s| then s[i] else '\0'
  }

  predicate IsDigit(c: char) { '0' <= c <= '9' }

  predicate IsHexDigit(c: char) { IsDigit(c) || 'a' <= c <= 'f' || 'A' <= c <= 'F' }

  /** SkipSpaces only steps over blanks and tabs. */
  predicate IsSpaceOrTab(c: char) { c == ' ' || c == '\t' }

  /** The value of a decimal digit (the readers only apply it to digits; anything else counts 0). */
  function DigitValue(c: char): nat
  {
    if IsDigit(c) then c as nat - '0' as nat else 0
  }

  /** The value of a hexadecimal digit (likewise 0 for anything else). */
  function HexDigitValue(c: char): nat
  {
    if IsDigit(c) then DigitValue(c)
    else if 'a' <= c <= 'f' then c as nat - 'a' as nat + 10
    else if 'A' <= c <= 'F' then c as nat - 'A' as nat + 10
    else 0
  }

  predicate AllDigits(ds: seq<char>) { forall k :: 0 <= k < |ds| ==> IsDigit(ds[k]) }

  predicate AllHexDigits(ds: seq<char>) { forall k :: 0 <= k < |ds| ==> IsHexDigit(ds[k]) }

  /** The number a run of decimal digits denotes (most significant digit first). */
  function DecimalValue(ds: seq<char>): nat
  {
    if |ds| == 0 then 0 else DecimalValue(ds[..|ds| - 1]) * 10 + DigitValue(ds[|ds| - 1])
  }

  /** The number a run of hexadecimal digits denotes (most significant digit first). */
  function HexValue(ds: seq<char>): nat
  {
    if |ds| == 0 then 0 else HexValue(ds[..|ds| - 1]) * 16 + HexDigitValue(ds[|ds| - 1])
  }

  /**
   * base followed by the decimal digits s[i..j]: what an accumulator that
   * starts at base and takes in those digits one by one ends with.
   */
  function DigitsValue(s: seq<char>, i: nat, j: nat, base: nat): nat
    requires i <= j <= |s|
    decreases j - i
  {
    if i == j then base else DigitsValue(s, i, j - 1, base) * 10 + DigitValue(s[j - 1])
  }

  /** The hexadecimal counterpart of DigitsValue, from 0. */
  function HexDigitsValue(s: seq<char>, i: nat, j: nat): nat
    requires i <= j <= |s|
    decreases j - i
  {
    if i == j then 0 else HexDigitsValue(s, i, j - 1) * 16 + HexDigitValue(s[j - 1])
  }

  lemma {:induction false} DigitsValueIsDecimalValue(s: seq<char>, i: nat, j: nat)
    requires i <= j <= |s|
    ensures DigitsValue(s, i, j, 0) == DecimalValue(s[i..j])
    decreases j - i
  {
    if i < j {
      DigitsValueIsDecimalValue(s, i, j - 1);
      assert s[i..j][..j - 1 - i] == s[i..j - 1];
    }
  }

  lemma {:induction false} HexDigitsValueIsHexValue(s: seq<char>, i: nat, j: nat)
    requires i <= j <= |s|
    ensures HexDigitsValue(s, i, j) == HexValue(s[i..j])
    decreases j - i
  {
    if i < j {
      HexDigitsValueIsHexValue(s, i, j - 1);
      assert s[i..j][..j - 1 - i] == s[i..j - 1];
    }
  }

  /** The end of the longest run of decimal digits starting at i. */
  function DigitsEnd(s: seq<char>, i: nat): (j: nat)
    requires i <= |s|
    ensures i <= j <= |s|
    decreases |s| - i
  {
    if i < |s| && IsDigit(s[i]) then DigitsEnd(s, i + 1) else i
  }

  /** The end of the longest run of hexadecimal digits starting at i. */
  function HexDigitsEnd(s: seq<char>, i: nat): (j: nat)
    requires i <= |s|
    ensures i <= j <= |s|
    decreases |s| - i
  {
    if i < |s| && IsHexDigit(s[i]) then HexDigitsEnd(s, i + 1) else i
  }

  /** SkipSpaces: the first position at or after i that is not a blank or a tab. */
  function SkipSpaces(s: seq<char>, i: nat): (j: nat)
    requires i <= |s|
    ensures i <= j <= |s|
    decreases |s| - i
  {
    if i < |s| && IsSpaceOrTab(s[i]) then SkipSpaces(s, i + 1) else i
  }

  /** A value read from a line and the position just after it. */
  datatype Scan = Scan(value: nat, end: nat)

  /**
   * strtoul10: reads the decimal digits at i (no sign, no leading blanks) into
   * an unsigned 32-bit accumulator; returns the value and the end position.
   */
  function Strtoul10(s: seq<char>, i: nat): Scan
    requires i <= |s|
  {
    var j := DigitsEnd(s, i);
    Scan(DigitsValue(s, i, j, 0) % UINT32_MODULUS, j)
  }

  /** The leading unsigned integer of a line, as strtoul10 reads it from its first character. */
  function LeadingNumber(l: Line): nat
  {
    Strtoul10(l, 0).value
  }

  /** The exact decimal number mantissa * 10^exponent. */
  datatype Decimal = Decimal(mantissa: int, exponent: int)

  /** A real read from a line and the position just after it. */
  datatype RealScan = RealScan(value: Decimal, end: nat)

  /**
   * fast_atoreal_move at i: an optional sign, the integer digits, a fraction
   * introduced by '.' (or by ',' before a digit) and an exponent introduced by
   * 'e' or 'E' with an optional sign. The value is the decimal the token
   * spells, digits of the fraction included; the rounding to a float is not
   * modelled.
   */
  function ReadReal(s: seq<char>, i: nat): (r: RealScan)
    requires i <= |s|
    ensures i <= r.end <= |s|
  {
    var negative := At(s, i) == '-';
    var j0 := if negative || At(s, i) == '+' then i + 1 else i;
    var j1 := DigitsEnd(s, j0);
    var whole := DigitsValue(s, j0, j1, 0);
    var hasFraction := At(s, j1) == '.' || (At(s, j1) == ',' && IsDigit(At(s, j1 + 1)));
    var j2 := if hasFraction then DigitsEnd(s, j1 + 1) else j1;
    // the fraction digits continue the mantissa; each one lowers the exponent
    var magnitude := if hasFraction then DigitsValue(s, j1 + 1, j2, whole) else whole;
    var fractionDigits := if hasFraction then j2 - (j1 + 1) else 0;
    var hasExponent := At(s, j2) == 'e' || At(s, j2) == 'E';
    var negativeExponent := hasExponent && At(s, j2 + 1) == '-';
    var k := if !hasExponent then j2
             else if negativeExponent || At(s, j2 + 1) == '+' then j2 + 2
             else j2 + 1;
    var j3 := if hasExponent then DigitsEnd(s, k) else j2;
    var e := if hasExponent then DigitsValue(s, k, j3, 0) else 0;
    RealScan(Decimal(if negative then -magnitude else magnitude,
                     (if negativeExponent then -e else e) - fractionDigits),
             j3)
  }

  // ---------------------------------------------------------------------
  // printf conversions used to synthesise lamp names

  const DECIMAL_DIGITS: seq<char> := "0123456789"
  const UPPER_HEX_DIGITS: seq<char> := "0123456789ABCDEF"

  /** %d of a natural number: its decimal digits without leading zeros. */
  function FormatDecimal(n: nat): (s: seq<char>)
    decreases n
  {
    if n < 10 then [DECIMAL_DIGITS[n]] else FormatDecimal(n / 10) + [DECIMAL_DIGITS[n % 10]]
  }

  /** %X of a natural number: its upper-case hexadecimal digits without leading zeros. */
  function FormatHex(n: nat): (s: seq<char>)
    decreases n
  {
    if n < 16 then [UPPER_HEX_DIGITS[n]] else FormatHex(n / 16) + [UPPER_HEX_DIGITS[n % 16]]
  }

  /** The number of decimal digits of n, without leading zeros. */
  function DecimalDigitCount(n: nat): nat
  {
    if n < 10 then 1 else 1 + DecimalDigitCount(n / 10)
  }

  /** The number of hexadecimal digits of n, without leading zeros. */
  function HexDigitCount(n: nat): nat
  {
    if n < 16 then 1 else 1 + HexDigitCount(n / 16)
  }

  /** The 0 flag with a field width: pads with leading zeros up to the width. */
  function PadZeros(s: seq<char>, width: nat): (r: seq<char>)
    ensures |r| == if |s| >= width then |s| else width
  {
    if |s| >= width then s else ['0'] + PadZeros(s, width - 1)
  }

  // ---------------------------------------------------------------------
  // Properties of the readers and the conversions

  lemma {:induction false} DecimalValueLeadingZero(s: seq<char>)
    requires AllDigits(s)
    ensures AllDigits(['0'] + s) && DecimalValue(['0'] + s) == DecimalValue(s)
  {
    if |s| > 0 {
      assert (['0'] + s)[..|s|] == ['0'] + s[..|s| - 1];
      DecimalValueLeadingZero(s[..|s| - 1]);
    }
  }

  lemma {:induction false} HexValueLeadingZero(s: seq<char>)
    requires AllHexDigits(s)
    ensures AllHexDigits(['0'] + s) && HexValue(['0'] + s) == HexValue(s)
  {
    if |s| > 0 {
      assert (['0'] + s)[..|s|] == ['0'] + s[..|s| - 1];
      HexValueLeadingZero(s[..|s| - 1]);
    }
  }

  /** Leading zeros never change the value of a digit run. */
  lemma {:induction false} DecimalValueZeroPadded(s: seq<char>, width: nat)
    requires AllDigits(s)
    ensures AllDigits(PadZeros(s, width)) && DecimalValue(PadZeros(s, width)) == DecimalValue(s)
    decreases width
  {
    if |s| < width {
      DecimalValueZeroPadded(s, width - 1);
      DecimalValueLeadingZero(PadZeros(s, width - 1));
    }
  }

  lemma {:induction false} HexValueZeroPadded(s: seq<char>, width: nat)
    requires AllHexDigits(s)
    ensures AllHexDigits(PadZeros(s, width)) && HexValue(PadZeros(s, width)) == HexValue(s)
    decreases width
  {
    if |s| < width {
      HexValueZeroPadded(s, width - 1);
      HexValueLeadingZero(PadZeros(s, width - 1));
    }
  }

  /** %d prints one character per decimal digit. */
  lemma {:induction false} FormatDecimalLength(n: nat)
    ensures |FormatDecimal(n)| == DecimalDigitCount(n)
    decreases n
  {
    if n >= 10 {
      FormatDecimalLength(n / 10);
    }
  }

  /** %X prints one character per hexadecimal digit. */
  lemma {:induction false} FormatHexLength(n: nat)
    ensures |FormatHex(n)| == HexDigitCount(n)
    decreases n
  {
    if n >= 16 {
      FormatHexLength(n / 16);
    }
  }

  /** Reading back what %d printed gives the number printed. */
  lemma {:induction false} FormatDecimalRoundTrip(n: nat)
    ensures AllDigits(FormatDecimal(n)) && DecimalValue(FormatDecimal(n)) == n
    decreases n
  {
    DecimalDigitValue(n % 10);
    if n >= 10 {
      FormatDecimalRoundTrip(n / 10);
      var s := FormatDecimal(n);
      assert s[..|s| - 1] == FormatDecimal(n / 10);
      assert DecimalValue(s) == DecimalValue(FormatDecimal(n / 10)) * 10 + n % 10;
    }
  }

  /** The digit %d prints for a value below 10 denotes that value. */
  lemma DecimalDigitValue(d: nat)
    requires d < 10
    ensures IsDigit(DECIMAL_DIGITS[d]) && DigitValue(DECIMAL_DIGITS[d]) == d
  {
  }

  /** Reading back what %X printed gives the number printed. */
  lemma {:induction false} FormatHexRoundTrip(n: nat)
    ensures AllHexDigits(FormatHex(n)) && HexValue(FormatHex(n)) == n
    decreases n
  {
    UpperHexDigitValue(n % 16);
    if n >= 16 {
      FormatHexRoundTrip(n / 16);
      var s := FormatHex(n);
      assert s[..|s| - 1] == FormatHex(n / 16);
      assert HexValue(s) == HexValue(FormatHex(n / 16)) * 16 + n % 16;
    }
  }

  /** The digit %X prints for a value below 16 denotes that value. */
  lemma UpperHexDigitValue(d: nat)
    requires d < 16
    ensures IsHexDigit(UPPER_HEX_DIGITS[d]) && HexDigitValue(UPPER_HEX_DIGITS[d]) == d
  {
  }

  /** A number printed with %d reads back through strtoul10, when it fits in 32 bits. */
  lemma Strtoul10ReadsFormattedDecimal(n: nat, rest: seq<char>)
    requires n < UINT32_MODULUS
    requires !IsDigit(At(rest, 0))
    ensures Strtoul10(FormatDecimal(n) + rest, 0) == Scan(n, |FormatDecimal(n)|)
  {
    var d := FormatDecimal(n);
    var s := d + rest;
    FormatDecimalRoundTrip(n);
    DigitsEndOfRun(s, 0, |d|);
    assert s[0..|d|] == d;
    DigitsValueIsDecimalValue(s, 0, |d|);
  }

  /** The digit reader stops exactly at the end of a run of digits. */
  lemma {:induction false} DigitsEndOfRun(s: seq<char>, i: nat, j: nat)
    requires i <= j <= |s|
    requires forall k :: i <= k < j ==> IsDigit(s[k])
    requires !IsDigit(At(s, j))
    ensures DigitsEnd(s, i) == j
    decreases j - i
  {
    if i < j {
      DigitsEndOfRun(s, i + 1, j);
    }
  }

  /** A run of digits denotes 0 exactly when every digit in it is '0'. */
  lemma {:induction false} DecimalValueZero(ds: seq<char>)
    requires AllDigits(ds)
    ensures DecimalValue(ds) == 0 <==> forall k :: 0 <= k < |ds| ==> ds[k] == '0'
  {
    if |ds| > 0 {
      DecimalValueZero(ds[..|ds| - 1]);
      assert forall k :: 0 <= k < |ds| - 1 ==> ds[..|ds| - 1][k] == ds[k];
    }
  }
}
