/**
 * Bytes and the C-locale (ASCII) meaning of the <cctype> classification and
 * case-mapping functions the editor uses, plus std::to_string on unsigned
 * integers.  Every line of the buffer is a sequence of these bytes.
 */
module Ascii {

  type byte = bv8

  /** A std::string, byte by byte. */
  type Text = seq<byte>

  /** isprint: space through tilde. */
  predicate IsPrint(c: byte) { 0x20 <= c <= 0x7E }

  predicate IsUpper(c: byte) { 0x41 <= c <= 0x5A }

  predicate IsLower(c: byte) { 0x61 <= c <= 0x7A }

  /** isalpha */
  predicate IsAlpha(c: byte) { IsUpper(c) || IsLower(c) }

  /** isdigit */
  predicate IsDigit(c: byte) { 0x30 <= c <= 0x39 }

  /** isalnum */
  predicate IsAlnum(c: byte) { IsAlpha(c) || IsDigit(c) }

  /** isspace: space, \t, \n, \v, \f and \r. */
  predicate IsSpace(c: byte) { c == 0x20 || 0x09 <= c <= 0x0D }

  /** toupper: maps exactly the lower-case letters, keeps every class. */
  function UpperByte(c: byte): (r: byte)
    ensures !IsLower(r)
    ensures IsAlpha(r) == IsAlpha(c) && IsSpace(r) == IsSpace(c) && IsAlnum(r) == IsAlnum(c)
    ensures !IsLower(c) ==> r == c
  {
    if IsLower(c) then c - 0x20 else c
  }

  /** tolower: maps exactly the upper-case letters, keeps every class. */
  function LowerByte(c: byte): (r: byte)
    ensures !IsUpper(r)
    ensures IsAlpha(r) == IsAlpha(c) && IsSpace(r) == IsSpace(c) && IsAlnum(r) == IsAlnum(c)
    ensures !IsUpper(c) ==> r == c
  {
    if IsUpper(c) then c + 0x20 else c
  }

  /** Upper-casing ignores the case the letter had, and so does lower-casing. */
  lemma CaseMapsForgetCase(c: byte)
    ensures UpperByte(LowerByte(c)) == UpperByte(c)
    ensures LowerByte(UpperByte(c)) == LowerByte(c)
  {
  }

  /** The ASCII digit for d. */
  function DigitByte(d: nat): (r: byte)
    requires d < 10
    ensures IsDigit(r)
  {
    (0x30 + d) as byte
  }

  /** The value of an ASCII digit. */
  function DigitValue(c: byte): (d: nat)
    requires IsDigit(c)
    ensures d < 10 && DigitByte(d) == c
    ensures forall e :: 0 <= e < 10 && DigitByte(e) == c ==> e == d
  {
    (c - 0x30) as nat
  }

  /** std::to_string(n) for an unsigned n: decimal digits, most significant first, no leading zero. */
  function DecimalString(n: nat): (r: Text)
    ensures 0 < |r|
    ensures forall i :: 0 <= i < |r| ==> IsDigit(r[i])
    ensures (r[0] == 0x30) == (n == 0)
  {
    if n < 10 then [DigitByte(n)] else DecimalString(n / 10) + [DigitByte(n % 10)]
  }

  /** The number a string of decimal digits denotes. */
  function DecimalValue(s: Text): nat
    requires forall i :: 0 <= i < |s| ==> IsDigit(s[i])
  {
    if s == [] then 0 else DecimalValue(s[..|s| - 1]) * 10 + DigitValue(s[|s| - 1])
  }

  /** Reading back what to_string wrote gives the number. */
  lemma {:induction false} DecimalRoundTrip(n: nat)
    ensures DecimalValue(DecimalString(n)) == n
  {
    var r := DecimalString(n);
    if n < 10 {
      assert r[..0] == [];
    } else {
      DecimalRoundTrip(n / 10);
      assert r[..|r| - 1] == DecimalString(n / 10);
      assert DigitValue(r[|r| - 1]) == n % 10;
      assert n == (n / 10) * 10 + n % 10;
    }
  }
}
