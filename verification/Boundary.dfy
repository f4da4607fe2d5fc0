/** The latency client of benchmarks/latency_shootout.cpp. It never builds a value: it only finds where a reply
    ends, with `strtol` for the sizes and no check of anything else. */
module Boundary {
  import opened Decimal
  import opened Resp
  import opened Connection

  const PLUS: byte := 43

  predicate IsSpace(b: byte) { b == 32 || 9 <= b <= 13 }

  function SkipSpaces(s: Bytes): Bytes {
    if s != [] && IsSpace(s[0]) then SkipSpaces(s[1..]) else s
  }

  /** The length of the longest run of decimal digits at the front. */
  function DigitRun(s: Bytes): (n: nat)
    ensures n <= |s| && AllDigits(s[..n], 10) && (n < |s| ==> DigitValue(s[n], 10).None?)
  {
    if s == [] || DigitValue(s[0], 10).None? then 0 else
      var n := DigitRun(s[1..]);
      assert s[..n + 1] == [s[0]] + s[1..][..n];
      n + 1
  }

  /** std::strtol, base 10, on the buffer from some position to its end: it skips white space, line breaks
      included, takes an optional sign and digits, and saturates. */
  function Strtol(s: Bytes): int {
    var t := SkipSpaces(s);
    var negative := t != [] && t[0] == MINUS;
    var body := if t != [] && (t[0] == MINUS || t[0] == PLUS) then t[1..] else t;
    var magnitude: int := DigitsValue(body[..DigitRun(body)], 10);
    var v := if negative then -magnitude else magnitude;
    if v < INT64_MIN then INT64_MIN else if v > INT64_MAX then INT64_MAX else v
  }

  lemma {:induction false} DigitRunIs(text: Bytes, rest: Bytes)
    requires AllDigits(text, 10) && (rest != [] ==> DigitValue(rest[0], 10).None?)
    ensures DigitRun(text + rest) == |text|
  {
    if text == [] {
      assert text + rest == rest;
    } else {
      assert (text + rest)[1..] == text[1..] + rest;
      DigitRunIs(text[1..], rest);
    }
  }

  /** On a header that is a number, `strtol` reads that number, however much of the stream lies behind it. */
  lemma StrtolAgrees(header: Bytes, more: Bytes)
    requires ParseInt(header).Some? && more != [] && more[0] == CR
    ensures Strtol(header + more) == ParseInt(header).value
  {
    var s := header + more;
    var negative := header[0] == MINUS;
    var body := if negative then header[1..] else header;
    assert !IsSpace(s[0]) by {
      assert negative || DigitValue(header[0], 10).Some?;
    }
    assert SkipSpaces(s) == s;
    assert (if negative then s[1..] else s) == body + more;
    assert negative || s[0] != PLUS by {
      assert negative || DigitValue(header[0], 10).Some?;
    }
    DigitRunIs(body, more);
    assert (body + more)[..|body|] == body;
  }

  predicate AllSpace(s: Bytes) { forall i :: 0 <= i < |s| ==> IsSpace(s[i]) }

  lemma {:induction false} SkipAllSpace(s: Bytes, rest: Bytes)
    requires AllSpace(s)
    ensures SkipSpaces(s + rest) == SkipSpaces(rest)
  {
    if s == [] {
      assert s + rest == rest;
    } else {
      SkipAllSpace(s[1..], rest);
      assert (s + rest)[1..] == s[1..] + rest;
    }
  }

  lemma {:induction false} SkipStops(s: Bytes, rest: Bytes)
    requires !AllSpace(s)
    ensures SkipSpaces(s + rest) == SkipSpaces(s) + rest && SkipSpaces(s) != []
  {
    if IsSpace(s[0]) {
      SkipStops(s[1..], rest);
      assert (s + rest)[1..] == s[1..] + rest;
    }
  }

  /** A digit run that ends inside `s`, or right behind it at a non-digit, ignores what follows. */
  lemma {:induction false} DigitRunStops(s: Bytes, rest: Bytes)
    requires rest != [] && DigitValue(rest[0], 10).None?
    ensures DigitRun(s + rest) == DigitRun(s) && (s + rest)[..DigitRun(s)] == s[..DigitRun(s)]
  {
    if s == [] {
      assert s + rest == rest;
    } else {
      DigitRunStops(s[1..], rest);
      assert (s + rest)[1..] == s[1..] + rest;
    }
  }

  /** A header with anything but white space in it decides the answer by itself. */
  lemma StrtolStops(header: Bytes, more: Bytes)
    requires !AllSpace(header) && more != [] && more[0] == CR
    ensures Strtol(header + more) == Strtol(header)
  {
    SkipStops(header, more);
    var t := SkipSpaces(header);
    var signed := t[0] == MINUS || t[0] == PLUS;
    var body := if signed then t[1..] else t;
    assert (if signed then (t + more)[1..] else t + more) == body + more;
    DigitRunStops(body, more);
  }

  /** A header of white space only does not: what is read is what comes behind the line. */
  lemma StrtolReadsOn(header: Bytes, x: Bytes)
    requires AllSpace(header)
    ensures Strtol(header + CRLF + x) == Strtol(x)
  {
    SkipAllSpace(header + CRLF, x);
  }

  lemma StrtolOfSeven()
    ensures Strtol([]) == 0 && Strtol([ZERO + 7]) == 7
  {
    var seven: Bytes := [ZERO + 7];
    DigitRunIs(seven, []);
    assert seven + [] == seven && seven[..1] == seven && seven[..0] == [];
  }

  /** How much of the stream has arrived behind the header line changes the answer exactly when the header holds
      nothing but white space. */
  lemma StrtolStableExactly(header: Bytes)
    ensures (forall x, y :: Strtol(header + CRLF + x) == Strtol(header + CRLF + y)) <==> !AllSpace(header)
  {
    if AllSpace(header) {
      StrtolReadsOn(header, []);
      StrtolReadsOn(header, [ZERO + 7]);
      StrtolOfSeven();
    } else {
      forall x ensures Strtol(header + CRLF + x) == Strtol(header) {
        assert header + CRLF + x == header + (CRLF + x);
        StrtolStops(header, CRLF + x);
      }
    }
  }

  /** The header of an acceptable reply is the text between its kind and the first line break. */
  lemma HeaderAt(s: Bytes)
    requires s != [] && FindCrlf(s).Some? && DecodeValue(s).Good?
    ensures var e := FindCrlf(s).value;
      e > 0 && DecodeValue(s) == DecodeBody(s[0], s[1..e], s[e + 2..])
  {
    var e := FindCrlf(s).value;
    assert s[0] != CR;
    assert CrlfAt(s[1..], e - 1);
    forall j | 0 <= j < e - 1 ensures !CrlfAt(s[1..], j) {
      assert !CrlfAt(s, j + 1);
    }
    FindCrlfIs(s[1..], e - 1);
    assert s[1..][..e - 1] == s[1..e] && s[1..][e - 1 + 2..] == s[e + 2..];
  }

  lemma NoLineNoValue(s: Bytes)
    requires FindCrlf(s).None?
    ensures DecodeValue(s).Bad?
  {
  }

  lemma EolArrived(have: Bytes, total: Bytes, pos: nat)
    requires have <= total && pos <= |have| && FindCrlf(have[pos..]).Some?
    ensures FindCrlf(total[pos..]) == FindCrlf(have[pos..])
  {
    FoundEarly(have[pos..], total[|have|..]);
    assert total[pos..] == have[pos..] + total[|have|..];
  }

  lemma GoodHasNumber(kind: byte, header: Bytes, s: Bytes)
    requires (kind == BULK || IsGroupKind(kind)) && DecodeBody(kind, header, s).Good?
    ensures ParseInt(header).Some?
  {
  }

  /** `d` ends where a reply of this kind and size ends when its body starts with `s`. */
  ghost predicate EndsAs(d: Decoded<RespValue>, kind: byte, size: int, s: Bytes) {
    && d.Good?
    && if kind == BULK then DecodeBulk(size, s).Good? && d.rest == DecodeBulk(size, s).rest
       else if IsGroupKind(kind) then
         DecodeMany(GroupSize(kind, size), s).Good? && d.rest == DecodeMany(GroupSize(kind, size), s).rest
       else d.rest == s
  }

  lemma BodyEnds(kind: byte, header: Bytes, size: int, s: Bytes)
    requires DecodeBody(kind, header, s).Good?
    requires kind == BULK || IsGroupKind(kind) ==> ParseInt(header) == Some(size)
    ensures EndsAs(DecodeBody(kind, header, s), kind, size, s)
  {
  }

  lemma NumberAt(s: Bytes, e: nat)
    requires s != [] && FindCrlf(s) == Some(e) && DecodeValue(s).Good?
    requires s[0] == BULK || IsGroupKind(s[0])
    ensures e > 0 && ParseInt(s[1..e]).Some?
  {
    HeaderAt(s);
    GoodHasNumber(s[0], s[1..e], s[e + 2..]);
  }

  /** What `strtol` makes of the header of an acceptable reply, wherever the buffer ends behind its line. */
  lemma SizeAt(have: Bytes, s: Bytes, e: nat)
    requires have <= s && 0 < e < |have| && have[e] == CR && ParseInt(s[1..e]).Some?
    ensures ParseInt(s[1..e]) == Some(Strtol(have[1..]))
  {
    assert have[1..] == s[1..e] + have[e..];
    StrtolAgrees(s[1..e], have[e..]);
  }

  /** Where an acceptable reply ends, in terms of the number in its header. */
  lemma EndOf(s: Bytes, e: nat, size: int)
    requires s != [] && FindCrlf(s) == Some(e) && DecodeValue(s).Good?
    requires s[0] == BULK || IsGroupKind(s[0]) ==> e > 0 && ParseInt(s[1..e]) == Some(size)
    ensures EndsAs(DecodeValue(s), s[0], size, s[e + 2..])
  {
    HeaderAt(s);
    BodyEnds(s[0], s[1..e], size, s[e + 2..]);
  }

  datatype HeaderLine = HeaderLine(kind: byte, size: int, after: nat)

  class RespConn {
    var buf: Bytes
    /** What the peer will still send; `recv` hands it over in pieces of its own choosing. */
    var stream: Bytes

    ghost function Total(): Bytes
      reads this
    {
      buf + stream
    }

    constructor (bytes: Bytes)
      ensures Total() == bytes
    {
      buf, stream := [], bytes;
    }

    method Fill() returns (ok: bool)
      modifies this
      ensures Total() == old(Total()) && old(buf) <= buf
      ensures ok ==> |stream| < |old(stream)|
      ensures !ok ==> stream == [] && buf == old(buf)
    {
      if stream == [] {
        return false;
      }
      var received :| 0 < received <= |stream| && received <= 8192 by {
        assert 0 < 1 <= |stream| && 1 <= 8192;
      }
      buf := buf + stream[..received];
      stream := stream[received..];
      return true;
    }

    /** Read until the buffer holds `bytes` bytes. */
    method Await(bytes: nat) returns (ok: bool)
      modifies this
      ensures Total() == old(Total()) && old(buf) <= buf
      ensures ok <==> bytes <= |Total()|
      ensures ok ==> bytes <= |buf|
    {
      while |buf| < bytes
        invariant Total() == old(Total()) && old(buf) <= buf
        decreases |stream|
      {
        ok := Fill();
        if !ok {
          return;
        }
      }
      return true;
    }

    /** Read until the buffer holds the end of the line that starts at `pos`, and return it. */
    method AwaitLine(pos: nat) returns (eol: Option<nat>)
      requires pos < |buf|
      modifies this
      ensures Total() == old(Total()) && old(buf) <= buf
      ensures eol.Some? ==> eol == FindCrlf(buf[pos..]) == FindCrlf(Total()[pos..])
      ensures eol.None? ==> DecodeValue(Total()[pos..]).Bad?
    {
      eol := FindCrlf(buf[pos..]);
      while eol.None?
        invariant Total() == old(Total()) && old(buf) <= buf
        invariant eol == FindCrlf(buf[pos..])
        decreases |stream|
      {
        var ok := Fill();
        if !ok {
          assert Total() == buf;
          NoLineNoValue(buf[pos..]);
          return;
        }
        eol := FindCrlf(buf[pos..]);
      }
      EolArrived(buf, Total(), pos);
    }

    /** The number behind the kind of the reply at `pos`, whose header line is `e` bytes long. */
    method Size(pos: nat, e: nat) returns (size: int)
      requires pos < |buf| && FindCrlf(buf[pos..]) == FindCrlf(Total()[pos..]) == Some(e)
      ensures var d := DecodeValue(Total()[pos..]);
        d.Good? ==> EndsAs(d, buf[pos], size, Total()[pos + e + 2..])
    {
      size := Strtol(buf[pos + 1..]);
      ghost var have, s := buf[pos..], Total()[pos..];
      if DecodeValue(s).Good? {
        if s[0] == BULK || IsGroupKind(s[0]) {
          assert have[1..] == buf[pos + 1..];
          NumberAt(s, e);
          SizeAt(have, s, e);
        }
        EndOf(s, e, size);
        assert s[e + 2..] == Total()[pos + e + 2..];
      }
    }

    /** The offset just past the reply at `pos`: whenever the checking reader accepts the stream, this one finds
        the same boundary, under every way of cutting the stream. */
    method Parse(pos: nat) returns (end: Option<nat>)
      requires pos <= |buf|
      modifies this
      ensures Total() == old(Total()) && old(buf) <= buf
      ensures end.Some? ==> pos < end.value <= |buf|
      ensures var d := DecodeValue(Total()[pos..]);
        d.Good? ==> end.Some? && Total()[end.value..] == d.rest
      decreases |Total()| - pos, 0
    {
      ghost var d := DecodeValue(Total()[pos..]);
      var header := ParseHeader(pos);
      if header.None? {
        return None;
      }
      var HeaderLine(kind, size, after) := header.value;
      end := ParseAfter(kind, size, after, d);
    }

    /** Kind and announced size of the reply at `pos`, and where its header line ends. */
    method ParseHeader(pos: nat) returns (h: Option<HeaderLine>)
      requires pos <= |buf|
      modifies this
      ensures Total() == old(Total()) && old(buf) <= buf
      ensures h.Some? ==> pos < h.value.after <= |buf|
      ensures var d := DecodeValue(Total()[pos..]);
        d.Good? ==> h.Some? && EndsAs(d, h.value.kind, h.value.size, Total()[h.value.after..])
    {
      var ok := Await(pos + 1);
      if !ok {
        assert Total()[pos..] == [];
        return None;
      }
      var kind := buf[pos];
      var eol := AwaitLine(pos);
      if eol.None? {
        return None;
      }
      var size := Size(pos, eol.value);
      return Some(HeaderLine(kind, size, pos + eol.value + 2));
    }

    /** The reply whose header line announced `size` and ended at `after`; `d` is what the checking reader
        makes of it. */
    method ParseAfter(kind: byte, size: int, after: nat, ghost d: Decoded<RespValue>) returns (end: Option<nat>)
      requires after <= |buf|
      requires d.Good? ==> EndsAs(d, kind, size, Total()[after..])
      modifies this
      ensures Total() == old(Total()) && old(buf) <= buf
      ensures end.Some? ==> after <= end.value <= |buf|
      ensures d.Good? ==> end.Some? && Total()[end.value..] == d.rest
      decreases |Total()| - after, 2
    {
      if kind == BULK {
        end := ParseBulk(after, size);
      } else if IsGroupKind(kind) {
        end := ParseElements(after, GroupSize(kind, size));
      } else {
        end := Some(after);
      }
    }

    method ParseBulk(after: nat, length: int) returns (end: Option<nat>)
      requires after <= |buf|
      modifies this
      ensures Total() == old(Total()) && old(buf) <= buf
      ensures end.Some? ==> after <= end.value <= |buf|
      ensures var d := DecodeBulk(length, Total()[after..]);
        d.Good? ==> end.Some? && Total()[end.value..] == d.rest
    {
      if length < 0 {
        return Some(after);
      }
      var need := after + length + 2;
      var ok := Await(need);
      if !ok {
        return None;
      }
      assert Total()[after..][length + 2..] == Total()[need..];
      return Some(need);
    }

    method ParseElements(start: nat, n: nat) returns (end: Option<nat>)
      requires start <= |buf|
      modifies this
      ensures Total() == old(Total()) && old(buf) <= buf
      ensures end.Some? ==> start <= end.value <= |buf|
      ensures var d := DecodeMany(n, Total()[start..]);
        d.Good? ==> end.Some? && Total()[end.value..] == d.rest
      decreases |Total()| - start, 1
    {
      var cur := start;
      ghost var d := DecodeMany(n, Total()[start..]);
      for i := 0 to n
        invariant start <= cur <= |buf|
        invariant Total() == old(Total()) && old(buf) <= buf
        invariant d.Good? ==> var r := DecodeMany(n - i, Total()[cur..]); r.Good? && r.rest == d.rest
      {
        end := Parse(cur);
        if end.None? {
          return;
        }
        cur := end.value;
      }
      return Some(cur);
    }

    /** One command: find the end of the reply, keep its kind, drop its bytes. */
    method Command() returns (kind: Option<byte>)
      modifies this
      ensures var d := DecodeValue(old(Total()));
        d.Good? ==> kind == Some(d.value.kind) && Total() == d.rest
    {
      assert Total()[0..] == Total();
      var end := Parse(0);
      if end.None? {
        return None;
      }
      assert Total()[end.value..] == buf[end.value..] + stream;
      kind := Some(buf[0]);
      buf := buf[end.value..];
    }
  }
}
