/** Decimal and hexadecimal text over bytes, as std::to_chars writes it and std::from_chars reads it. */
module Decimal {

  newtype byte = x: int | 0 <= x < 256

  type Bytes = seq<byte>

  datatype Option<+T> = None | Some(value: T)

  const ZERO: byte := 48
  const MINUS: byte := 45
  const INT64_MAX: int := 0x7fff_ffff_ffff_ffff
  const INT64_MIN: int := -0x8000_0000_0000_0000

  predicate IsBase(base: nat) { base == 10 || base == 16 }

  /** The character of one digit: 0-9, then a-f. */
  function Digit(d: nat, base: nat): (b: byte)
    requires IsBase(base) && d < base
    ensures DigitValue(b, base) == Some(d)
  {
    if d < 10 then ZERO + d as byte else 87 + d as byte
  }

  function DigitValue(b: byte, base: nat): Option<nat>
    requires IsBase(base)
  {
    if ZERO <= b < ZERO + 10 then Some((b - ZERO) as nat)
    else if base == 16 && 97 <= b < 103 then Some((b - 87) as nat)
    else None
  }

  /** std::to_chars of an unsigned number: no leading zero except for zero itself. */
  function Digits(n: nat, base: nat): (s: Bytes)
    requires IsBase(base)
    ensures |s| > 0
  {
    if n < base then [Digit(n, base)] else Digits(n / base, base) + [Digit(n % base, base)]
  }

  function FormatInt(n: int): Bytes {
    if n < 0 then [MINUS] + Digits(-n, 10) else Digits(n, 10)
  }

  predicate AllDigits(s: Bytes, base: nat)
    requires IsBase(base)
  {
    forall i :: 0 <= i < |s| ==> DigitValue(s[i], base).Some?
  }

  /** The number a digit string denotes, most significant digit first. */
  function DigitsValue(s: Bytes, base: nat): nat
    requires IsBase(base) && AllDigits(s, base)
  {
    if s == [] then 0
    else DigitsValue(s[..|s| - 1], base) * base + DigitValue(s[|s| - 1], base).value
  }

  /** std::from_chars into a signed 64-bit integer, the whole text required: an optional minus sign, at least
      one digit, nothing else, and no overflow. */
  function ParseInt(s: Bytes): Option<int> {
    var negative := |s| > 0 && s[0] == MINUS;
    var body := if negative then s[1..] else s;
    if body == [] || !AllDigits(body, 10) then None else
      var v: int := if negative then 0 - DigitsValue(body, 10) else DigitsValue(body, 10);
      if INT64_MIN <= v <= INT64_MAX then Some(v) else None
  }

  lemma {:induction false} DigitsRoundTrip(n: nat, base: nat)
    requires IsBase(base)
    ensures AllDigits(Digits(n, base), base) && DigitsValue(Digits(n, base), base) == n
  {
    var s := Digits(n, base);
    if n >= base {
      DigitsRoundTrip(n / base, base);
      assert s[..|s| - 1] == Digits(n / base, base);
    } else {
      assert s[..|s| - 1] == [];
    }
  }

  /** Every 64-bit integer survives being written and read back. */
  lemma IntRoundTrip(n: int)
    requires INT64_MIN <= n <= INT64_MAX
    ensures ParseInt(FormatInt(n)) == Some(n)
  {
    if n < 0 {
      DigitsRoundTrip(-n, 10);
      assert FormatInt(n)[1..] == Digits(-n, 10);
    } else {
      DigitsRoundTrip(n, 10);
    }
  }

  /** No formatted number contains a carriage return. */
  lemma FormatIntPlain(n: int)
    ensures forall i :: 0 <= i < |FormatInt(n)| ==> FormatInt(n)[i] != 13
  {
    if n < 0 { DigitsRoundTrip(-n, 10); } else { DigitsRoundTrip(n, 10); }
  }

  /** Distinct numbers have distinct texts. */
  lemma DigitsInjective(m: nat, n: nat, base: nat)
    requires IsBase(base) && Digits(m, base) == Digits(n, base)
    ensures m == n
  {
    DigitsRoundTrip(m, base);
    DigitsRoundTrip(n, base);
  }
}
