/** Bytes of the wire format and the decimal notation the decoders read. */
module Ascii {

  /** A buffer byte, seen unsigned (`b & 0xFF` in Java). Comparisons against
      the ASCII constants below give the same answers for Java's signed bytes,
      since all of them are below 128. */
  type byte = b: int | 0 <= b < 256

  const SOH: byte := 1
  const EQUALS: byte := '=' as int
  const MINUS: byte := '-' as int
  const PLUS: byte := '+' as int
  const ZERO: byte := '0' as int
  const NINE: byte := '9' as int

  predicate IsDigit(b: byte) {
    ZERO <= b <= NINE
  }

  function DigitValue(b: byte): (d: nat)
    requires IsDigit(b)
    ensures d < 10
  {
    b - ZERO
  }

  function DigitByte(d: nat): (b: byte)
    requires d < 10
    ensures IsDigit(b) && DigitValue(b) == d
  {
    ZERO + d
  }

  predicate AllDigits(s: seq<byte>) {
    forall i :: 0 <= i < |s| ==> IsDigit(s[i])
  }

  /** The value of a string of decimal digits, most significant first. */
  function Decimal(s: seq<byte>): nat
    requires AllDigits(s)
  {
    if |s| == 0 then 0 else 10 * Decimal(s[..|s| - 1]) + DigitValue(s[|s| - 1])
  }

  /** Appending a digit shifts the value one decimal place. */
  lemma DecimalAppend(s: seq<byte>, b: byte)
    requires AllDigits(s) && IsDigit(b)
    ensures AllDigits(s + [b]) && Decimal(s + [b]) == 10 * Decimal(s) + DigitValue(b)
  {
    assert (s + [b])[..|s|] == s;
  }

  /** The shortest decimal notation of `n` (the way a tag number is written). */
  function DecimalText(n: nat): (s: seq<byte>)
    ensures |s| > 0 && AllDigits(s)
  {
    if n < 10 then [DigitByte(n)] else DecimalText(n / 10) + [DigitByte(n % 10)]
  }

  /** Reading back the notation of `n` gives `n`. */
  lemma {:induction false} DecimalTextRoundTrip(n: nat)
    ensures Decimal(DecimalText(n)) == n
    decreases n
  {
    var s := DecimalText(n);
    if n >= 10 {
      DecimalTextRoundTrip(n / 10);
      assert s[..|s| - 1] == DecimalText(n / 10);
    }
  }

  /** A numeral consists of digits only, so it never holds an '=', a sign or
      the delimiter. */
  lemma DigitsAreNotSeparators(s: seq<byte>)
    requires AllDigits(s)
    ensures forall i :: 0 <= i < |s| ==> s[i] != EQUALS && s[i] != SOH && s[i] != MINUS && s[i] != PLUS
  {
  }

  /** The bytes of an ASCII string. */
  function Bytes(s: string): (b: seq<byte>)
    requires forall i :: 0 <= i < |s| ==> s[i] as int < 256
    ensures |b| == |s| && forall i :: 0 <= i < |s| ==> b[i] == s[i] as int
  {
    seq(|s|, i requires 0 <= i < |s| => s[i] as int)
  }
}
