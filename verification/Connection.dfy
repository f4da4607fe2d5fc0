/** The Pub/Sub connection of benchmarks/pubsub_benchmark.cpp: a buffer that grows by whatever `recv` happens to
    deliver, a recursive parser that runs ahead of it, and a compaction that drops what was consumed. */
module Connection {
  import opened Decimal
  import opened Resp

  const RECV_BYTES: nat := 64 * 1024
  const COMPACT_AT: nat := 1024 * 1024

  /** What a call returns or throws. */
  datatype Outcome<+T> = Returned(value: T) | Raised(error: Error)

  /** A value and the cursor behind it, or the exception raised. */
  datatype Parsed<+T> = Ok(value: T, cursor: nat) | Fail(error: Error)

  /** Outcome `p` of parsing the buffered and still unreceived bytes `total` is the outcome `d` of decoding them. */
  ghost predicate Refines<T>(p: Parsed<T>, d: Decoded<T>, total: Bytes) {
    match d
    case Bad(e) => p == Fail(e)
    case Good(v, rest) => p.Ok? && p.value == v && p.cursor <= |total| && rest == total[p.cursor..]
  }

  ghost function Prepend(vs: seq<RespValue>, d: Decoded<seq<RespValue>>): Decoded<seq<RespValue>> {
    match d
    case Bad(e) => Bad(e)
    case Good(ws, rest) => Good(vs + ws, rest)
  }

  /** A line break found in what has arrived is the one the whole stream has. */
  lemma FoundEarly(s: Bytes, more: Bytes)
    requires FindCrlf(s).Some?
    ensures FindCrlf(s + more) == FindCrlf(s)
  {
    var i := FindCrlf(s).value;
    assert forall j :: 0 <= j <= i ==> (CrlfAt(s + more, j) <==> CrlfAt(s, j));
    FindCrlfIs(s + more, i);
  }

  /** The line at `cursor`, once its end is among the bytes `have` that arrived. */
  lemma LineArrived(have: Bytes, total: Bytes, cursor: nat)
    requires have <= total && cursor <= |have| && FindCrlf(have[cursor..]).Some?
    ensures var end := FindCrlf(have[cursor..]).value;
      DecodeLine(total[cursor..]) == Good(have[cursor..cursor + end], total[cursor + end + 2..])
  {
    var end := FindCrlf(have[cursor..]).value;
    var s := total[cursor..];
    assert s == have[cursor..] + total[|have|..];
    FoundEarly(have[cursor..], total[|have|..]);
    assert s[..end] == have[cursor..cursor + end];
    assert s[end + 2..] == total[cursor + end + 2..];
  }

  lemma PrependNone(d: Decoded<seq<RespValue>>)
    ensures Prepend([], d) == d
  {
    if d.Good? { assert [] + d.value == d.value; }
  }

  lemma PrependAll(vs: seq<RespValue>, s: Bytes)
    ensures Prepend(vs, DecodeMany(0, s)) == Good(vs, s)
  {
    assert vs + [] == vs;
  }

  lemma OneMore(vs: seq<RespValue>, n: nat, s: Bytes)
    requires n > 0
    ensures Prepend(vs, DecodeMany(n, s)) ==
      match DecodeValue(s)
      case Bad(e) => Bad(e)
      case Good(v, rest) => Prepend(vs + [v], DecodeMany(n - 1, rest))
  {
    if DecodeValue(s).Good? && DecodeMany(n - 1, DecodeValue(s).rest).Good? {
      var v := DecodeValue(s).value;
      var ws := DecodeMany(n - 1, DecodeValue(s).rest).value;
      assert vs + ([v] + ws) == vs + [v] + ws;
    }
  }

  class RespConnection {
    var input: Bytes
    var offset: nat
    /** What the peer will still send before it closes; `recv` hands it over in pieces of its own choosing. */
    var stream: Bytes

    ghost predicate Valid()
      reads this
    {
      offset <= |input|
    }

    ghost function Total(): Bytes
      reads this
    {
      input + stream
    }

    /** The bytes no value has consumed yet. */
    ghost function Unread(): Bytes
      reads this
      requires Valid()
    {
      Total()[offset..]
    }

    constructor (bytes: Bytes)
      ensures Valid() && Unread() == bytes
    {
      input, offset, stream := [], 0, bytes;
    }

    method Fill() returns (ok: bool)
      modifies this`input, this`stream
      ensures Total() == old(Total()) && old(input) <= input
      ensures ok <==> old(stream) != []
      ensures ok ==> |stream| < |old(stream)|
      ensures !ok ==> stream == [] && input == old(input)
    {
      if stream == [] {
        return false;
      }
      var received :| 0 < received <= |stream| && received <= RECV_BYTES by {
        assert 0 < 1 <= |stream| && 1 <= RECV_BYTES;
      }
      input := input + stream[..received];
      stream := stream[received..];
      return true;
    }

    method Ensure(bytes: nat) returns (ok: bool)
      modifies this`input, this`stream
      ensures Total() == old(Total()) && old(input) <= input
      ensures ok <==> bytes <= |Total()|
      ensures ok ==> bytes <= |input|
    {
      ok := true;
      while |input| < bytes
        invariant Total() == old(Total()) && old(input) <= input
        decreases |stream|
      {
        ok := Fill();
        if !ok {
          return;
        }
      }
    }

    method Line(cursor: nat) returns (p: Parsed<Bytes>)
      requires cursor <= |input|
      modifies this`input, this`stream
      ensures Total() == old(Total()) && old(input) <= input
      ensures Refines(p, DecodeLine(Total()[cursor..]), Total())
      ensures p.Ok? ==> p.cursor <= |input|
    {
      while true
        invariant Total() == old(Total()) && old(input) <= input
        decreases |stream|
      {
        var end := FindCrlf(input[cursor..]);
        if end.Some? {
          LineArrived(input, Total(), cursor);
          return Ok(input[cursor..cursor + end.value], cursor + end.value + 2);
        }
        var ok := Fill();
        if !ok {
          assert Total() == input;
          return Fail(Closed);
        }
      }
    }

    method ParseBulk(cursor: nat, length: int) returns (p: Parsed<RespValue>)
      requires cursor <= |input|
      modifies this`input, this`stream
      ensures Total() == old(Total()) && old(input) <= input
      ensures Refines(p, DecodeBulk(length, Total()[cursor..]), Total())
      ensures p.Ok? ==> p.cursor <= |input|
    {
      if length < 0 {
        return Ok(RespValue(BULK, 0, [], []), cursor);
      }
      var ok := Ensure(cursor + length + 2);
      if !ok {
        return Fail(Closed);
      }
      ghost var s := Total()[cursor..];
      assert s[..length] == input[cursor..cursor + length];
      assert s[length..length + 2] == input[cursor + length..cursor + length + 2];
      assert s[length + 2..] == Total()[cursor + length + 2..];
      if input[cursor + length..cursor + length + 2] != CRLF {
        return Fail(BadTerminator);
      }
      return Ok(RespValue(BULK, 0, input[cursor..cursor + length], []), cursor + length + 2);
    }

    /** One value from `cursor` on: the outcome depends on the bytes alone, not on how they arrive. */
    method ParseValue(cursor: nat) returns (p: Parsed<RespValue>)
      requires cursor <= |input|
      modifies this`input, this`stream
      ensures Total() == old(Total()) && old(input) <= input
      ensures Refines(p, DecodeValue(Total()[cursor..]), Total())
      ensures p.Ok? ==> cursor < p.cursor <= |input|
      decreases |Total()| - cursor, 0
    {
      var ok := Ensure(cursor + 1);
      if !ok {
        return Fail(Closed);
      }
      var kind := input[cursor];
      assert Total()[cursor..][1..] == Total()[cursor + 1..];
      var line := Line(cursor + 1);
      if line.Fail? {
        return Fail(line.error);
      }
      p := ParseBody(kind, line.value, line.cursor);
    }

    /** What follows the header line, by the kind of the value. */
    method ParseBody(kind: byte, header: Bytes, cursor: nat) returns (p: Parsed<RespValue>)
      requires cursor <= |input|
      modifies this`input, this`stream
      ensures Total() == old(Total()) && old(input) <= input
      ensures Refines(p, DecodeBody(kind, header, Total()[cursor..]), Total())
      ensures p.Ok? ==> cursor <= p.cursor <= |input|
      decreases |Total()| - cursor, 2
    {
      if IsLineKind(kind) {
        return Ok(RespValue(kind, 0, header, []), cursor);
      }
      if kind == NULL {
        return Ok(RespValue(kind, 0, [], []), cursor);
      }
      if kind != NUMBER && kind != BULK && !IsGroupKind(kind) {
        return Fail(BadKind);
      }
      var number := ParseInt(header);
      if number.None? {
        return Fail(BadInteger);
      }
      if kind == NUMBER {
        return Ok(RespValue(kind, number.value, [], []), cursor);
      }
      if kind == BULK {
        p := ParseBulk(cursor, number.value);
        return;
      }
      var elements := ParseElements(cursor, GroupSize(kind, number.value));
      if elements.Fail? {
        return Fail(elements.error);
      }
      return Ok(RespValue(kind, 0, [], elements.value), elements.cursor);
    }

    method ParseElements(start: nat, n: nat) returns (p: Parsed<seq<RespValue>>)
      requires start <= |input|
      modifies this`input, this`stream
      ensures Total() == old(Total()) && old(input) <= input
      ensures Refines(p, DecodeMany(n, Total()[start..]), Total())
      ensures p.Ok? ==> start <= p.cursor <= |input|
      decreases |Total()| - start, 1
    {
      var cursor := start;
      var values: seq<RespValue> := [];
      var i := 0;
      PrependNone(DecodeMany(n, Total()[start..]));
      while i < n
        invariant 0 <= i <= n && start <= cursor <= |input|
        invariant Total() == old(Total()) && old(input) <= input
        invariant DecodeMany(n, Total()[start..]) == Prepend(values, DecodeMany(n - i, Total()[cursor..]))
      {
        OneMore(values, n - i, Total()[cursor..]);
        var element := ParseValue(cursor);
        if element.Fail? {
          return Fail(element.error);
        }
        values, cursor, i := values + [element.value], element.cursor, i + 1;
      }
      PrependAll(values, Total()[cursor..]);
      return Ok(values, cursor);
    }

    /** Read one value: exactly what the unread bytes decode to, leaving exactly the bytes behind it unread,
        whatever pieces the stream came in and whether or not the buffer was cleared or compacted. */
    method ReadValue() returns (r: Outcome<RespValue>)
      requires Valid()
      modifies this
      ensures Valid()
      ensures match DecodeValue(old(Unread()))
              case Bad(e) => r == Raised(e)
              case Good(v, rest) => r == Returned(v) && Unread() == rest
    {
      var p := ParseValue(offset);
      if p.Fail? {
        return Raised(p.error);
      }
      r := Returned(p.value);
      offset := p.cursor;
      if offset == |input| {
        input, offset := [], 0;
      } else if offset >= COMPACT_AT {
        input, offset := input[offset..], 0;
      }
    }

    /** Repeated reading returns the values of the stream in order. */
    method ReadMany(n: nat) returns (r: Outcome<seq<RespValue>>)
      requires Valid()
      modifies this
      ensures Valid()
      ensures match DecodeMany(n, old(Unread()))
              case Bad(e) => r == Raised(e)
              case Good(vs, rest) => r == Returned(vs) && Unread() == rest
    {
      var values: seq<RespValue> := [];
      ghost var start := Unread();
      var i := 0;
      PrependNone(DecodeMany(n, start));
      while i < n
        invariant 0 <= i <= n && Valid()
        invariant DecodeMany(n, start) == Prepend(values, DecodeMany(n - i, Unread()))
      {
        OneMore(values, n - i, Unread());
        var v := ReadValue();
        if v.Raised? {
          return Raised(v.error);
        }
        values, i := values + [v.value], i + 1;
      }
      PrependAll(values, Unread());
      return Returned(values);
    }
  }
}
