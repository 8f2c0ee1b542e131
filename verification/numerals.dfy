/** The integer conversions of C's `printf` family used by the render
    functions — `%u` (unsigned decimal), `%x` (lower-case hexadecimal, no
    prefix, no padding) and `%d` (signed decimal) — together with readers
    that recover the number, so that each conversion has a proved inverse. */
module Numerals {
  import opened Wrappers

  predicate IsDecDigit(c: char) {
    '0' <= c <= '9'
  }

  predicate IsHexDigit(c: char) {
    IsDecDigit(c) || 'a' <= c <= 'f'
  }

  predicate IsDigitIn(c: char, base: nat) {
    IsHexDigit(c) && (base == 10 ==> IsDecDigit(c))
  }

  predicate IsBase(base: nat) {
    base == 10 || base == 16
  }

  /** The digit character for `d`, lower case above nine as `%x` prints it. */
  function DigitChar(d: nat): (c: char)
    requires d < 16
    ensures IsHexDigit(c)
    ensures d < 10 ==> IsDecDigit(c)
  {
    "0123456789abcdef"[d]
  }

  function DigitValue(c: char): (d: nat)
    requires IsHexDigit(c)
    ensures d < 16
    ensures IsDecDigit(c) ==> d < 10
  {
    if IsDecDigit(c) then (c - '0') as nat else (c - 'a') as nat + 10
  }

  lemma DigitValueOfDigitChar(d: nat)
    requires d < 16
    ensures DigitValue(DigitChar(d)) == d
  {
  }

  /** The digits of `n` in `base`, most significant first, without leading
      zeros (zero itself is the single digit "0"). */
  function Digits(n: nat, base: nat): (s: string)
    requires IsBase(base)
    ensures |s| > 0
    ensures forall i :: 0 <= i < |s| ==> IsDigitIn(s[i], base)
    ensures s[0] == '0' ==> n == 0
    decreases n
  {
    if n < base then [DigitChar(n)] else Digits(n / base, base) + [DigitChar(n % base)]
  }

  /** The number a non-empty digit string denotes in `base`. */
  function ValueOf(s: string, base: nat): nat
    requires IsBase(base)
    requires forall i :: 0 <= i < |s| ==> IsDigitIn(s[i], base)
    decreases |s|
  {
    if |s| == 0 then 0
    else
      assert IsDigitIn(s[|s| - 1], base);
      ValueOf(s[..|s| - 1], base) * base + DigitValue(s[|s| - 1])
  }

  lemma {:induction false} ValueOfDigits(n: nat, base: nat)
    requires IsBase(base)
    ensures ValueOf(Digits(n, base), base) == n
    decreases n
  {
    var s := Digits(n, base);
    if n < base {
      assert s[..|s| - 1] == [];
      DigitValueOfDigitChar(n);
    } else {
      var p := Digits(n / base, base);
      assert s[..|s| - 1] == p;
      ValueOfDigits(n / base, base);
      DigitValueOfDigitChar(n % base);
    }
  }

  /** `%u`. */
  function Decimal(n: nat): string {
    Digits(n, 10)
  }

  /** `%x`. */
  function Hex(n: nat): string {
    Digits(n, 16)
  }

  /** `%d`: a minus sign before the magnitude of a negative value. */
  function SignedDecimal(i: int): string {
    if i < 0 then "-" + Decimal(-i) else Decimal(i)
  }

  function ParseDigits(s: string, base: nat): Option<nat>
    requires IsBase(base)
  {
    if |s| > 0 && forall i :: 0 <= i < |s| ==> IsDigitIn(s[i], base)
    then Some(ValueOf(s, base))
    else None
  }

  function ParseDecimal(s: string): Option<nat> {
    ParseDigits(s, 10)
  }

  function ParseHex(s: string): Option<nat> {
    ParseDigits(s, 16)
  }

  function ParseSignedDecimal(s: string): Option<int> {
    if |s| > 0 && s[0] == '-' then
      match ParseDecimal(s[1..])
      case Some(n) => if n > 0 then Some(0 - n as int) else None
      case None => None
    else ParseDecimal(s)
  }

  /** `%u` has an inverse: its output reads back as the printed number. */
  lemma DecimalRoundTrip(n: nat)
    ensures ParseDecimal(Decimal(n)) == Some(n)
    ensures forall i :: 0 <= i < |Decimal(n)| ==> IsDecDigit(Decimal(n)[i])
  {
    ValueOfDigits(n, 10);
  }

  /** `%x` has an inverse, and prints only lower-case hexadecimal digits. */
  lemma HexRoundTrip(n: nat)
    ensures ParseHex(Hex(n)) == Some(n)
    ensures forall i :: 0 <= i < |Hex(n)| ==> IsHexDigit(Hex(n)[i]) && !('A' <= Hex(n)[i] <= 'Z')
  {
    ValueOfDigits(n, 16);
  }

  /** `%d` has an inverse over every integer, negative ones included. */
  lemma SignedDecimalRoundTrip(i: int)
    ensures ParseSignedDecimal(SignedDecimal(i)) == Some(i)
  {
    if i < 0 {
      var s := SignedDecimal(i);
      assert s[1..] == Decimal(-i);
      DecimalRoundTrip(-i);
    } else {
      DecimalRoundTrip(i);
    }
  }

  /** Printed numbers contain no punctuation besides a leading minus, so a
      separator such as ',' after them is found where the number ends. */
  lemma NumbersHaveNoSeparator(i: int, n: nat, sep: char)
    requires !IsHexDigit(sep) && sep != '-'
    ensures sep !in SignedDecimal(i)
    ensures sep !in Hex(n)
    ensures sep !in Decimal(n)
  {
    DecimalRoundTrip(if i < 0 then -i else i);
    HexRoundTrip(n);
    DecimalRoundTrip(n);
    if i < 0 {
      assert SignedDecimal(i) == "-" + Decimal(-i);
      assert sep !in Decimal(-i);
    }
  }

  /** Worked values at the top of the signed range and the bottom of the
      upper half of the 32-bit range, built a few digits at a time. */
  lemma DecimalOf214()
    ensures Digits(214, 10) == "214"
  {
  }

  lemma DecimalOf214748()
    ensures Digits(214748, 10) == "214748"
  {
    DecimalOf214();
  }

  lemma DecimalOfSignedMax()
    ensures Decimal(0x7FFF_FFFF) == "2147483647"
  {
    DecimalOf214748();
  }

  lemma HexOf8000()
    ensures Digits(0x8000, 16) == "8000"
  {
  }

  lemma HexOfHighBit()
    ensures Hex(0x8000_0000) == "80000000"
  {
    HexOf8000();
  }
}
