/** The fixed-width names and payloads of the benchmarks: benchmarks/hset_benchmark.cpp, benchmarks/zset_benchmark.py
    and benchmarks/collection_benchmark_worker.cpp. */
module Tokens {
  import opened Decimal

  const RANDOM_DIGITS: nat := 12
  const RENDER_BYTES: nat := 96

  function Power(base: nat, width: nat): nat { if width == 0 then 1 else base * Power(base, width - 1) }

  function Zeros(n: nat): (s: Bytes)
    ensures |s| == n && forall i :: 0 <= i < n ==> s[i] == ZERO
  {
    seq(n, _ => ZERO)
  }

  /** `value` in `base`, filled up with zeros on the left; it fails when the digits exceed the width. */
  function ZeroPadded(value: nat, width: nat, base: nat): Option<Bytes>
    requires IsBase(base)
  {
    var digits := Digits(value, base);
    if |digits| > width then None else Some(Zeros(width - |digits|) + digits)
  }

  /** Marker and padded digits: the values of the hash benchmark and the tokens of the collection worker. */
  function FixedToken(value: nat, width: nat, marker: byte): Option<Bytes> {
    if width < 2 then None else
      match ZeroPadded(value, width - 1, 16)
      case None => None
      case Some(s) => Some([marker] + s)
  }

  const FIELD: Bytes := [102, 105, 101, 108, 100, 58]  // "field:"
  const RANDOM: Bytes := [95, 95, 114, 97, 110, 100, 95, 105, 110, 116, 95, 95]  // "__rand_int__"

  function LargeField(item: nat): Option<Bytes> {
    match ZeroPadded(item, RANDOM_DIGITS, 10)
    case None => None
    case Some(s) => Some(FIELD + s)
  }

  // ---- padding does not change the number ------------------------------------------------------------

  lemma {:induction false} PaddedValue(n: nat, digits: Bytes, base: nat)
    requires IsBase(base) && AllDigits(digits, base)
    ensures AllDigits(Zeros(n) + digits, base) && DigitsValue(Zeros(n) + digits, base) == DigitsValue(digits, base)
    decreases |digits|, n
  {
    var s := Zeros(n) + digits;
    if digits == [] {
      if n > 0 {
        assert s[..|s| - 1] == Zeros(n - 1) + digits;
        PaddedValue(n - 1, digits, base);
      } else {
        assert s == digits;
      }
    } else {
      assert s[..|s| - 1] == Zeros(n) + digits[..|digits| - 1];
      PaddedValue(n, digits[..|digits| - 1], base);
    }
  }

  /** A padded number has exactly the requested width and reads back as the number. */
  lemma ZeroPaddedReads(value: nat, width: nat, base: nat)
    requires IsBase(base) && ZeroPadded(value, width, base).Some?
    ensures var s := ZeroPadded(value, width, base).value;
      |s| == width && AllDigits(s, base) && DigitsValue(s, base) == value
  {
    DigitsRoundTrip(value, base);
    PaddedValue(width - |Digits(value, base)|, Digits(value, base), base);
  }

  lemma {:induction false} DigitsFit(value: nat, width: nat, base: nat)
    requires IsBase(base) && width > 0
    ensures |Digits(value, base)| <= width <==> value < Power(base, width)
  {
    if width == 1 {
      assert Power(base, 1) == base * Power(base, 0);
    } else if value >= base {
      DigitsFit(value / base, width - 1, base);
      DividedBelow(value, base, Power(base, width - 1));
    } else {
      PowerGrows(base, width);
    }
  }

  lemma DividedBelow(value: nat, base: nat, bound: nat)
    requires base > 0
    ensures value / base < bound <==> value < base * bound
  {
    assert value == base * (value / base) + value % base;
    if value / base < bound {
      assert base * (value / base + 1) <= base * bound;
    }
  }

  lemma {:induction false} PowerGrows(base: nat, width: nat)
    requires base >= 1 && width > 0
    ensures Power(base, width) >= base && Power(base, width - 1) >= 1
  {
    if width > 1 { PowerGrows(base, width - 1); }
  }

  /** Padding succeeds exactly for the numbers below base to the width. */
  lemma ZeroPaddedExactly(value: nat, width: nat, base: nat)
    requires IsBase(base) && width > 0
    ensures ZeroPadded(value, width, base).Some? <==> value < Power(base, width)
  {
    DigitsFit(value, width, base);
  }

  // ---- text order is number order --------------------------------------------------------------------

  /** Byte-wise comparison of texts of one length. */
  predicate Below(s: Bytes, t: Bytes)
    requires |s| == |t|
  {
    s != [] && (s[0] < t[0] || (s[0] == t[0] && Below(s[1..], t[1..])))
  }

  lemma Shifted(d: nat, p: nat, rest: nat, last: nat, base: nat)
    requires rest < p && last < base
    ensures (d * p + rest) * base + last == d * (base * p) + (rest * base + last)
    ensures rest * base + last < base * p
  {
    assert (rest + 1) * base <= p * base;
  }

  lemma LeadingDecides(a: nat, b: nat, p: nat, x: nat, y: nat)
    requires x < p && y < p
    ensures a * p + x < b * p + y <==> a < b || (a == b && x < y)
  {
    if a < b {
      assert (a + 1) * p <= b * p;
    } else if b < a {
      assert (b + 1) * p <= a * p;
    }
  }

  /** The first digit weighs more than all that follow. */
  lemma {:induction false} LeadingDigit(s: Bytes, base: nat)
    requires IsBase(base) && AllDigits(s, base) && s != []
    ensures DigitsValue(s, base) == DigitValue(s[0], base).value * Power(base, |s| - 1) + DigitsValue(s[1..], base)
    ensures DigitsValue(s[1..], base) < Power(base, |s| - 1)
  {
    if |s| == 1 {
      assert s[..0] == [] && s[1..] == [];
    } else {
      var front, last := s[..|s| - 1], DigitValue(s[|s| - 1], base).value;
      LeadingDigit(front, base);
      var d, p, rest := DigitValue(s[0], base).value, Power(base, |s| - 2), DigitsValue(front[1..], base);
      assert s[1..][..|s| - 2] == front[1..];
      assert DigitsValue(s[1..], base) == rest * base + last;
      assert DigitsValue(s, base) == DigitsValue(front, base) * base + last;
      Shifted(d, p, rest, last, base);
    }
  }

  lemma DigitOrder(a: byte, b: byte, base: nat)
    requires IsBase(base) && DigitValue(a, base).Some? && DigitValue(b, base).Some?
    ensures a < b <==> DigitValue(a, base).value < DigitValue(b, base).value
    ensures a == b <==> DigitValue(a, base).value == DigitValue(b, base).value
  {
  }

  lemma {:induction false} OrderAgrees(s: Bytes, t: Bytes, base: nat)
    requires IsBase(base) && |s| == |t| && AllDigits(s, base) && AllDigits(t, base)
    ensures Below(s, t) <==> DigitsValue(s, base) < DigitsValue(t, base)
  {
    if s != [] {
      LeadingDigit(s, base);
      LeadingDigit(t, base);
      DigitOrder(s[0], t[0], base);
      OrderAgrees(s[1..], t[1..], base);
      LeadingDecides(DigitValue(s[0], base).value, DigitValue(t[0], base).value, Power(base, |s| - 1),
                     DigitsValue(s[1..], base), DigitsValue(t[1..], base));
    }
  }

  /** There is a token exactly when a marker and a digit fit and the digits do; it starts with the marker. */
  lemma TokenExactly(value: nat, width: nat, marker: byte)
    ensures FixedToken(value, width, marker).Some? <==> width >= 2 && value < Power(16, width - 1)
    ensures FixedToken(value, width, marker).Some? ==> FixedToken(value, width, marker).value[0] == marker
  {
    if width >= 2 {
      ZeroPaddedExactly(value, width - 1, 16);
    }
  }

  /** Tokens of one width and marker are ordered like, and equal exactly for equal, numbers. */
  lemma TokensOrdered(m: nat, n: nat, width: nat, marker: byte)
    requires FixedToken(m, width, marker).Some? && FixedToken(n, width, marker).Some?
    ensures var s, t := FixedToken(m, width, marker).value, FixedToken(n, width, marker).value;
      |s| == |t| == width && (Below(s, t) <==> m < n) && (s == t <==> m == n)
  {
    ZeroPaddedReads(m, width - 1, 16);
    ZeroPaddedReads(n, width - 1, 16);
    var s, t := FixedToken(m, width, marker).value, FixedToken(n, width, marker).value;
    var u, v := ZeroPadded(m, width - 1, 16).value, ZeroPadded(n, width - 1, 16).value;
    assert s[1..] == u && t[1..] == v;
    OrderAgrees(u, v, 16);
  }

  lemma FieldsDistinct(m: nat, n: nat)
    requires LargeField(m).Some? && LargeField(m) == LargeField(n)
    ensures m == n
  {
    ZeroPaddedReads(m, RANDOM_DIGITS, 10);
    ZeroPaddedReads(n, RANDOM_DIGITS, 10);
    assert LargeField(m).value[|FIELD|..] == ZeroPadded(m, RANDOM_DIGITS, 10).value;
    assert LargeField(n).value[|FIELD|..] == ZeroPadded(n, RANDOM_DIGITS, 10).value;
  }

  // ---- rendering a random token into a buffer --------------------------------------------------------

  predicate At(s: Bytes, t: Bytes, i: int) { 0 <= i && i + |t| <= |s| && s[i..i + |t|] == t }

  function FindText(s: Bytes, t: Bytes, from: nat): (r: Option<nat>)
    requires from <= |s|
    ensures r.Some? ==> r.value >= from && At(s, t, r.value) && forall j :: from <= j < r.value ==> !At(s, t, j)
    ensures r.None? ==> forall j :: from <= j ==> !At(s, t, j)
    decreases |s| - from
  {
    if At(s, t, from) then Some(from) else if from == |s| then None else FindText(s, t, from + 1)
  }

  /** The pattern with its first placeholder replaced by twelve digits; none when that fails. */
  function Rendered(pattern: Bytes, value: nat): Option<Bytes> {
    match FindText(pattern, RANDOM, 0)
    case None => Some(pattern)
    case Some(p) =>
      match ZeroPadded(value, RANDOM_DIGITS, 10)
      case None => None
      case Some(digits) =>
        if |pattern| - |RANDOM| + RANDOM_DIGITS > RENDER_BYTES then None
        else Some(pattern[..p] + digits + pattern[p + |RANDOM|..])
  }

  /** Fill `output` piece by piece and return the text: the pattern itself when it has no placeholder. */
  method RenderRandomToken(pattern: Bytes, value: nat, output: array<byte>) returns (text: Option<Bytes>)
    requires output.Length == RENDER_BYTES
    modifies output
    ensures text == Rendered(pattern, value)
  {
    var position := FindText(pattern, RANDOM, 0);
    if position.None? {
      return Some(pattern);
    }
    var p := position.value;
    if |pattern| - |RANDOM| + RANDOM_DIGITS > output.Length {
      return None;
    }
    forall i | 0 <= i < p {
      output[i] := pattern[i];
    }
    var digits := Digits(value, 10);
    if |digits| > RANDOM_DIGITS {
      return None;
    }
    var zeroes := RANDOM_DIGITS - |digits|;
    forall i | 0 <= i < zeroes {
      output[p + i] := ZERO;
    }
    forall i | 0 <= i < |digits| {
      output[p + zeroes + i] := digits[i];
    }
    var suffix := pattern[p + |RANDOM|..];
    forall i | 0 <= i < |suffix| {
      output[p + RANDOM_DIGITS + i] := suffix[i];
    }
    assert output[..p] == pattern[..p];
    assert output[p..p + RANDOM_DIGITS] == Zeros(zeroes) + digits;
    text := Some(output[..p + RANDOM_DIGITS + |suffix|]);
    assert text.value == output[..p] + output[p..p + RANDOM_DIGITS] + suffix;
  }

  /** Rendering the benchmark's field pattern names exactly the loaded field, so a probe below the number of loaded
      fields always hits. */
  lemma ProbesHitFields(value: nat)
    ensures Rendered(FIELD + RANDOM, value) == LargeField(value)
  {
    var pattern := FIELD + RANDOM;
    assert At(pattern, RANDOM, 6);
    forall j | 0 <= j < 6 ensures !At(pattern, RANDOM, j) {
      assert pattern[j..j + |RANDOM|][0] == FIELD[j] != RANDOM[0];
    }
    assert FindText(pattern, RANDOM, 0) == Some(6);
    if ZeroPadded(value, RANDOM_DIGITS, 10).Some? {
      var digits := ZeroPadded(value, RANDOM_DIGITS, 10).value;
      assert pattern[..6] + digits + pattern[18..] == FIELD + digits;
    }
  }

  // ---- leaderboard members ---------------------------------------------------------------------------

  const MEMBER: Bytes := [109, 101, 109, 98, 101, 114, 58]  // "member:"

  /** At least ten digits, more when the number needs them. */
  function MemberFor(id: nat): Bytes {
    var digits := Digits(id, 10);
    MEMBER + (if |digits| < 10 then Zeros(10 - |digits|) else []) + digits
  }

  lemma MembersDistinct(m: nat, n: nat)
    requires MemberFor(m) == MemberFor(n)
    ensures m == n
  {
    MemberReads(m);
    MemberReads(n);
  }

  /** The name ends in at least ten digits that read back as the id; more only when it needs them. */
  lemma MemberReads(id: nat)
    ensures var s := MemberFor(id)[|MEMBER|..];
      AllDigits(s, 10) && DigitsValue(s, 10) == id && |s| >= 10 && (|s| > 10 ==> s == Digits(id, 10))
  {
    var digits := Digits(id, 10);
    DigitsRoundTrip(id, 10);
    PaddedValue(if |digits| < 10 then 10 - |digits| else 0, digits, 10);
    assert MemberFor(id)[|MEMBER|..] == (if |digits| < 10 then Zeros(10 - |digits|) else []) + digits;
    assert Zeros(0) + digits == digits == [] + digits;
  }
}
