/** Small shared vocabulary: bytes, optional values, results and decimal text. */
module Basics {

  /** A Go `byte`. */
  type byte = x: int | 0 <= x < 256

  datatype Option<+T> = None | Some(value: T)

  /** A value or the error the Go code returns beside it. */
  datatype Result<+R, +E> = Success(value: R) | Failure(error: E)

  predicate IsDecimalDigit(c: char) {
    '0' <= c <= '9'
  }

  /** The ASCII digit for 0 <= d < 10. */
  function DigitChar(d: int): (c: char)
    requires 0 <= d < 10
    ensures IsDecimalDigit(c) && c as int - '0' as int == d
  {
    ('0' as int + d) as char
  }

  /** Base-10 text of a natural number, as Go's strconv.FormatInt prints it. */
  function Decimal(n: nat): (s: string)
    ensures |s| > 0
    ensures forall i :: 0 <= i < |s| ==> IsDecimalDigit(s[i])
    ensures n > 0 ==> s[0] != '0'
  {
    if n < 10 then [DigitChar(n)] else Decimal(n / 10) + [DigitChar(n % 10)]
  }

  /** The number a text of decimal digits stands for, most significant digit first. */
  function DigitsValue(s: string): int
    requires forall i :: 0 <= i < |s| ==> IsDecimalDigit(s[i])
  {
    if s == [] then 0 else 10 * DigitsValue(s[..|s| - 1]) + (s[|s| - 1] as int - '0' as int)
  }

  /** Decimal text reads back as the number it was made from. */
  lemma {:induction false} DecimalValue(n: nat)
    ensures DigitsValue(Decimal(n)) == n
  {
    if n >= 10 {
      DecimalValue(n / 10);
      var s := Decimal(n);
      assert s[..|s| - 1] == Decimal(n / 10);
    }
  }
}
