/** The pipelined client of benchmarks/collection_benchmark_worker.cpp and benchmarks/external_logging_recovery.cpp:
    a fixed window into one array that is slid to the front, doubled and refilled in place, read one byte or one
    run at a time. It understands simple strings, errors, integers, bulks and arrays only. */
module Client {
  import opened Decimal
  import opened Resp
  import opened Connection

  datatype Reply = Nil | Text(text: Bytes) | Integer(value: int) | Items(items: seq<Reply>)

  // ---- the meaning of a byte stream ------------------------------------------------------------------

  function FindCr(s: Bytes): (r: Option<nat>)
    ensures r.Some? ==> r.value < |s| && s[r.value] == CR && CR !in s[..r.value]
    ensures r.None? ==> CR !in s
  {
    if s == [] then None
    else if s[0] == CR then Some(0)
    else
      match FindCr(s[1..])
      case None => None
      case Some(i) => assert s[..i + 1] == [s[0]] + s[1..][..i]; Some(i + 1)
  }

  /** A line here ends at the first carriage return, which a line feed must follow. */
  function StrictLine(s: Bytes): (d: Decoded<Bytes>)
    ensures d.Good? ==> |d.rest| < |s|
  {
    match FindCr(s)
    case None => Bad(Closed)
    case Some(i) =>
      if i + 1 == |s| then Bad(Closed)
      else if s[i + 1] != LF then Bad(BadLine)
      else Good(s[..i], s[i + 2..])
  }

  function DecodeText(n: nat, s: Bytes): (d: Decoded<Reply>)
    ensures d.Good? ==> |d.rest| <= |s|
  {
    if |s| < n + 2 then Bad(Closed)
    else if s[n..n + 2] != CRLF then Bad(BadTerminator)
    else Good(Text(s[..n]), s[n + 2..])
  }

  function DecodeReply(s: Bytes): (d: Decoded<Reply>)
    ensures d.Good? ==> |d.rest| < |s|
    decreases |s|, 0
  {
    if s == [] then Bad(Closed)
    else if s[0] != SIMPLE && s[0] != ERROR && s[0] != NUMBER && s[0] != BULK && s[0] != ARRAY then Bad(BadKind)
    else
      match StrictLine(s[1..])
      case Bad(e) => Bad(e)
      case Good(header, rest) => DecodeRest(s[0], header, rest)
  }

  function DecodeRest(kind: byte, header: Bytes, s: Bytes): (d: Decoded<Reply>)
    ensures d.Good? ==> |d.rest| <= |s|
    decreases |s|, 2
  {
    if kind == SIMPLE then Good(Text(header), s)
    else if kind == ERROR then Bad(ServerError)
    else
      match ParseInt(header)
      case None => Bad(BadInteger)
      case Some(n) =>
        if kind == NUMBER then Good(Integer(n), s)
        else if n < 0 then Good(Nil, s)
        else if kind == BULK then DecodeText(n, s)
        else
          match DecodeReplies(n, s)
          case Bad(e) => Bad(e)
          case Good(items, rest) => Good(Items(items), rest)
  }

  function DecodeReplies(n: nat, s: Bytes): (d: Decoded<seq<Reply>>)
    ensures d.Good? ==> |d.rest| <= |s| && |d.value| == n
    decreases |s|, 1
  {
    if n == 0 then Good([], s) else
      match DecodeReply(s)
      case Bad(e) => Bad(e)
      case Good(v, rest) =>
        match DecodeReplies(n - 1, rest)
        case Bad(e) => Bad(e)
        case Good(vs, tail) => Good([v] + vs, tail)
  }

  /** An error line never becomes a reply, whatever it says. */
  lemma ErrorRaises(text: Bytes, rest: Bytes)
    requires CR !in text
    ensures DecodeReply([ERROR] + text + CRLF + rest) == Bad(ServerError)
  {
    assert ([ERROR] + text + CRLF + rest)[1..] == text + CRLF + rest;
    StrictLineExactly(text, rest);
  }

  ghost function Joined(vs: seq<Reply>, d: Decoded<seq<Reply>>): Decoded<seq<Reply>> {
    match d
    case Bad(e) => Bad(e)
    case Good(ws, rest) => Good(vs + ws, rest)
  }

  lemma JoinedNone(d: Decoded<seq<Reply>>)
    ensures Joined([], d) == d
  {
    if d.Good? { assert [] + d.value == d.value; }
  }

  lemma JoinedAll(vs: seq<Reply>, s: Bytes)
    ensures Joined(vs, DecodeReplies(0, s)) == Good(vs, s)
  {
    assert vs + [] == vs;
  }

  lemma JoinedNext(vs: seq<Reply>, n: nat, s: Bytes)
    requires n > 0
    ensures Joined(vs, DecodeReplies(n, s)) ==
      match DecodeReply(s)
      case Bad(e) => Bad(e)
      case Good(v, rest) => Joined(vs + [v], DecodeReplies(n - 1, rest))
  {
    if DecodeReply(s).Good? && DecodeReplies(n - 1, DecodeReply(s).rest).Good? {
      var v := DecodeReply(s).value;
      var ws := DecodeReplies(n - 1, DecodeReply(s).rest).value;
      assert vs + ([v] + ws) == vs + [v] + ws;
    }
  }

  /** A call ended as decoding said it would, with exactly the decoded bytes consumed. */
  ghost predicate Ends<T>(r: Outcome<T>, d: Decoded<T>, unread: Bytes) {
    match d
    case Bad(e) => r == Raised(e)
    case Good(v, rest) => r == Returned(v) && unread == rest
  }

  /** The first byte decides how the line goes on. */
  lemma LineStep(s: Bytes)
    requires s != []
    ensures s[0] != CR ==> StrictLine(s) == match StrictLine(s[1..])
                                            case Bad(e) => Bad(e)
                                            case Good(text, rest) => Good([s[0]] + text, rest)
  {
    if s[0] != CR && FindCr(s[1..]).Some? {
      var i := FindCr(s[1..]).value;
      assert s[..i + 1] == [s[0]] + s[1..][..i];
      if i + 2 < |s| { assert s[1..][i + 2..] == s[i + 3..]; }
    }
  }

  ghost function Longer(text: Bytes, d: Decoded<Bytes>): Decoded<Bytes> {
    match d
    case Bad(e) => Bad(e)
    case Good(t, rest) => Good(text + t, rest)
  }

  lemma LongerNext(text: Bytes, s: Bytes)
    requires s != [] && s[0] != CR
    ensures Longer(text, StrictLine(s)) == Longer(text + [s[0]], StrictLine(s[1..]))
  {
    LineStep(s);
    var d := StrictLine(s[1..]);
    if d.Good? { assert text + ([s[0]] + d.value) == text + [s[0]] + d.value; }
  }

  class RespClient {
    var buffer: array<byte>
    var pos: nat
    var size: nat
    /** What the peer will still send; `recv` hands it over in pieces of its own choosing. */
    var stream: Bytes

    ghost predicate Valid()
      reads this
    {
      pos <= size <= buffer.Length && buffer.Length > 0
    }

    ghost function Unread(): Bytes
      reads this, buffer
      requires Valid()
    {
      buffer[pos..size] + stream
    }

    constructor (capacity: nat, bytes: Bytes)
      ensures Valid() && fresh(buffer) && Unread() == bytes
    {
      buffer := new byte[if capacity < 4096 then 4096 else capacity];
      pos, size, stream := 0, 0, bytes;
    }

    /** Slide the unread window to the front. */
    method Slide()
      requires Valid()
      modifies this`pos, this`size, buffer
      ensures Valid() && Unread() == old(Unread())
      ensures pos == 0
    {
      if pos != 0 && pos != size {
        ghost var window := buffer[pos..size];
        forall i | 0 <= i < size - pos {
          buffer[i] := buffer[pos + i];
        }
        size, pos := size - pos, 0;
        assert buffer[pos..size] == window;
      } else if pos == size {
        pos, size := 0, 0;
      }
    }

    method Grow()
      requires Valid()
      modifies this`buffer
      ensures Valid() && Unread() == old(Unread()) && size < buffer.Length
      ensures buffer == old(buffer) || fresh(buffer)
    {
      if size == buffer.Length {
        var larger := new byte[buffer.Length * 2];
        forall i | 0 <= i < size {
          larger[i] := buffer[i];
        }
        assert larger[pos..size] == buffer[pos..size];
        buffer := larger;
      }
    }

    method ReceiveMore() returns (ok: bool)
      requires Valid()
      modifies this, buffer
      ensures Valid() && Unread() == old(Unread())
      ensures buffer == old(buffer) || fresh(buffer)
      ensures ok <==> old(stream) != []
      ensures ok ==> pos < size && |stream| < |old(stream)|
    {
      Slide();
      Grow();
      if stream == [] {
        return false;
      }
      var count :| 0 < count <= |stream| && count <= buffer.Length - size by {
        assert 0 < 1 <= |stream| && 1 <= buffer.Length - size;
      }
      Receive(count);
      return true;
    }

    /** `recv` hands over `count` bytes behind the window. */
    method Receive(count: nat)
      requires Valid() && count <= |stream| && count <= buffer.Length - size
      modifies this`size, this`stream, buffer
      ensures Valid() && Unread() == old(Unread())
      ensures size == old(size) + count && |stream| == |old(stream)| - count
    {
      ghost var window := buffer[pos..size];
      forall i | 0 <= i < count {
        buffer[size + i] := stream[i];
      }
      assert buffer[pos..size + count] == window + stream[..count];
      size, stream := size + count, stream[count..];
    }

    method ReadChar() returns (c: Option<byte>)
      requires Valid()
      modifies this, buffer
      ensures Valid() && (buffer == old(buffer) || fresh(buffer))
      ensures old(Unread()) == [] ==> c == None && Unread() == []
      ensures old(Unread()) != [] ==> c == Some(old(Unread())[0]) && Unread() == old(Unread())[1..]
    {
      if pos == size {
        var ok := ReceiveMore();
        if !ok {
          return None;
        }
      }
      c := Some(buffer[pos]);
      pos := pos + 1;
    }

    method ReadLine() returns (r: Outcome<Bytes>)
      requires Valid()
      modifies this, buffer
      ensures Valid() && (buffer == old(buffer) || fresh(buffer))
      ensures Ends(r, StrictLine(old(Unread())), Unread())
    {
      var result: Bytes := [];
      ghost var start := StrictLine(Unread());
      if start.Good? { assert [] + start.value == start.value; }
      while true
        invariant Valid() && (buffer == old(buffer) || fresh(buffer))
        invariant start == Longer(result, StrictLine(Unread()))
        decreases |Unread()|
      {
        ghost var s := Unread();
        var c := ReadChar();
        if c.None? {
          return Raised(Closed);
        }
        if c.value == CR {
          var d := ReadChar();
          if d.None? {
            return Raised(Closed);
          }
          if d.value != LF {
            return Raised(BadLine);
          }
          assert result + s[..0] == result && s[1..][1..] == s[2..];
          return Returned(result);
        }
        LongerNext(result, s);
        result := result + [c.value];
      }
    }

    /** Bytes already in the window. */
    method Take(count: nat) returns (taken: Bytes)
      requires Valid() && count <= size - pos
      modifies this`pos
      ensures Valid() && old(Unread()) == taken + Unread() && |taken| == count
    {
      taken := buffer[pos..pos + count];
      assert buffer[pos..size] == taken + buffer[pos + count..size];
      pos := pos + count;
    }

    method ReadBytes(count: nat) returns (r: Outcome<Bytes>)
      requires Valid()
      modifies this, buffer
      ensures Valid() && (buffer == old(buffer) || fresh(buffer))
      ensures var s := old(Unread());
        if count <= |s| then r == Returned(s[..count]) && Unread() == s[count..] else r == Raised(Closed)
    {
      var result: Bytes := [];
      var left: nat := count;
      ghost var s := Unread();
      assert s == [] + s;
      while left != 0
        invariant Valid() && (buffer == old(buffer) || fresh(buffer))
        invariant left + |result| == count
        invariant s == result + Unread()
        decreases left
      {
        if pos == size {
          assert Unread() == stream;
          var ok := ReceiveMore();
          if !ok {
            return Raised(Closed);
          }
        }
        var available := if left < size - pos then left else size - pos;
        var taken := Take(available);
        Regroup(result, taken, Unread());
        result := result + taken;
        left := left - available;
      }
      assert s[..count] == result && s[count..] == Unread();
      return Returned(result);
    }

    method ReadText(length: nat) returns (r: Outcome<Reply>)
      requires Valid()
      modifies this, buffer
      ensures Valid() && (buffer == old(buffer) || fresh(buffer))
      ensures Ends(r, DecodeText(length, old(Unread())), Unread())
    {
      ghost var s := Unread();
      var text := ReadBytes(length);
      if text.Raised? {
        return Raised(text.error);
      }
      var terminator := ReadBytes(2);
      if terminator.Raised? {
        return Raised(terminator.error);
      }
      assert s[length..][..2] == s[length..length + 2] && s[length..][2..] == s[length + 2..];
      if terminator.value != CRLF {
        return Raised(BadTerminator);
      }
      return Returned(Text(text.value));
    }

    /** One reply, exactly as the unread bytes decode, whatever pieces they came in and however often the buffer
        was slid or doubled meanwhile. */
    method ReadResponse() returns (r: Outcome<Reply>)
      requires Valid()
      modifies this, buffer
      ensures Valid() && (buffer == old(buffer) || fresh(buffer))
      ensures Ends(r, DecodeReply(old(Unread())), Unread())
      decreases |Unread()|, 0
    {
      var prefix := ReadChar();
      if prefix.None? {
        return Raised(Closed);
      }
      var kind := prefix.value;
      if kind != SIMPLE && kind != ERROR && kind != NUMBER && kind != BULK && kind != ARRAY {
        return Raised(BadKind);
      }
      var line := ReadLine();
      if line.Raised? {
        return Raised(line.error);
      }
      r := ReadRest(kind, line.value);
    }

    method ReadRest(kind: byte, header: Bytes) returns (r: Outcome<Reply>)
      requires Valid()
      modifies this, buffer
      ensures Valid() && (buffer == old(buffer) || fresh(buffer))
      ensures Ends(r, DecodeRest(kind, header, old(Unread())), Unread())
      decreases |Unread()|, 2
    {
      if kind == SIMPLE {
        return Returned(Text(header));
      }
      if kind == ERROR {
        return Raised(ServerError);
      }
      var number := ParseInt(header);
      if number.None? {
        return Raised(BadInteger);
      }
      if kind == NUMBER {
        return Returned(Integer(number.value));
      }
      if number.value < 0 {
        return Returned(Nil);
      }
      if kind == BULK {
        r := ReadText(number.value);
        return;
      }
      var items := ReadItems(number.value);
      if items.Raised? {
        return Raised(items.error);
      }
      return Returned(Items(items.value));
    }

    method ReadItems(n: nat) returns (r: Outcome<seq<Reply>>)
      requires Valid()
      modifies this, buffer
      ensures Valid() && (buffer == old(buffer) || fresh(buffer))
      ensures Ends(r, DecodeReplies(n, old(Unread())), Unread())
      decreases |Unread()|, 1
    {
      var items: seq<Reply> := [];
      ghost var start := Unread();
      JoinedNone(DecodeReplies(n, start));
      for i := 0 to n
        invariant Valid() && (buffer == old(buffer) || fresh(buffer))
        invariant |Unread()| <= |start|
        invariant DecodeReplies(n, start) == Joined(items, DecodeReplies(n - i, Unread()))
      {
        JoinedNext(items, n - i, Unread());
        var item := ReadResponse();
        if item.Raised? {
          return Raised(item.error);
        }
        items := items + [item.value];
      }
      JoinedAll(items, Unread());
      return Returned(items);
    }
  }

  // ---- agreement with the writer ---------------------------------------------------------------------

  /** The replies this client understands: no errors, no newer kinds, and no carriage return in a line. */
  predicate Plain(w: Wire) {
    match w
    case Line(kind, text) => kind == SIMPLE && CR !in text
    case Number(_) => true
    case Null => false
    case Bulk(_) => true
    case NilBulk => true
    case Group(kind, elements) => kind == ARRAY && forall i :: 0 <= i < |elements| ==> Plain(elements[i])
    case NilGroup(kind) => kind == ARRAY
  }

  function ReplyOf(w: Wire): Reply
    requires Plain(w)
  {
    match w
    case Line(_, text) => Text(text)
    case Number(value) => Integer(value)
    case Bulk(text) => Text(text)
    case NilBulk => Nil
    case Group(_, elements) => Items(RepliesOf(elements))
    case NilGroup(_) => Nil
  }

  function RepliesOf(ws: seq<Wire>): (rs: seq<Reply>)
    requires forall i :: 0 <= i < |ws| ==> Plain(ws[i])
    ensures |rs| == |ws|
  {
    if ws == [] then [] else [ReplyOf(ws[0])] + RepliesOf(ws[1..])
  }

  /** A header line is read back exactly when it holds no carriage return. */
  lemma StrictLineExactly(text: Bytes, rest: Bytes)
    ensures StrictLine(text + CRLF + rest) == Good(text, rest) <==> CR !in text
  {
    var s := text + CRLF + rest;
    var i := FindCr(s);
    assert s[|text|] == CR && s[|text| + 1] == LF && s[..|text|] == text && s[|text| + 2..] == rest;
    assert CR !in text ==> forall j :: 0 <= j < |text| ==> s[j] != CR;
    assert CR in text ==> exists j :: 0 <= j < |text| && s[j] == CR;
    assert i.Some? && i.value <= |text| by {
      assert CR in s;
      assert forall j :: 0 <= j < i.value ==> s[..i.value][j] == s[j] && s[j] != CR;
    }
  }

  lemma ReplyHeader(kind: byte, text: Bytes, rest: Bytes)
    requires kind == SIMPLE || kind == NUMBER || kind == BULK || kind == ARRAY
    requires CR !in text
    ensures DecodeReply([kind] + text + CRLF + rest) == DecodeRest(kind, text, rest)
  {
    StrictLineExactly(text, rest);
    assert ([kind] + text + CRLF + rest)[1..] == text + CRLF + rest;
  }

  lemma NumberHeader(kind: byte, n: int, rest: Bytes)
    requires kind == NUMBER || kind == BULK || kind == ARRAY
    requires INT64_MIN <= n <= INT64_MAX
    ensures DecodeReply(Header(kind, n) + rest) == DecodeRest(kind, FormatInt(n), rest)
    ensures ParseInt(FormatInt(n)) == Some(n)
  {
    IntRoundTrip(n);
    FormatIntPlain(n);
    ReplyHeader(kind, FormatInt(n), rest);
  }

  lemma TextRoundTrip(text: Bytes, rest: Bytes)
    requires |text| <= INT64_MAX
    ensures DecodeReply(Encode(Bulk(text)) + rest) == Good(Text(text), rest)
  {
    var header, s := Header(BULK, |text|), text + CRLF + rest;
    NumberHeader(BULK, |text|, s);
    assert s[|text|..|text| + 2] == CRLF && s[..|text|] == text && s[|text| + 2..] == rest;
    Regroup(header, text, CRLF);
    Regroup(header, text + CRLF, rest);
  }

  lemma ItemsBody(header: Bytes, n: nat, s: Bytes)
    requires ParseInt(header) == Some(n) && DecodeReplies(n, s).Good?
    ensures var d := DecodeReplies(n, s); DecodeRest(ARRAY, header, s) == Good(Items(d.value), d.rest)
  {
  }

  /** Every well-formed reply of the kinds this client knows is read back, nil and empty kept apart. */
  lemma {:induction false} ReplyRoundTrip(w: Wire, rest: Bytes)
    requires WellFormed(w) && Plain(w)
    ensures DecodeReply(Encode(w) + rest) == Good(ReplyOf(w), rest)
    decreases w, 1
  {
    match w
    case Line(kind, text) => ReplyHeader(kind, text, rest);
    case Number(value) => NumberHeader(NUMBER, value, rest);
    case Bulk(text) => TextRoundTrip(text, rest);
    case NilBulk => NumberHeader(BULK, -1, rest);
    case NilGroup(kind) => NumberHeader(kind, -1, rest);
    case Group(kind, elements) =>
      var inner := EncodeAll(elements);
      RepliesRoundTrip(elements, rest);
      NumberHeader(ARRAY, |elements|, inner + rest);
      ItemsBody(FormatInt(|elements|), |elements|, inner + rest);
      Regroup(Header(ARRAY, |elements|), inner, rest);
  }

  lemma {:induction false} RepliesRoundTrip(ws: seq<Wire>, rest: Bytes)
    requires forall i :: 0 <= i < |ws| ==> WellFormed(ws[i]) && Plain(ws[i])
    ensures DecodeReplies(|ws|, EncodeAll(ws) + rest) == Good(RepliesOf(ws), rest)
    decreases ws, 0
  {
    if ws == [] {
      assert EncodeAll(ws) + rest == rest;
    } else {
      Regroup(Encode(ws[0]), EncodeAll(ws[1..]), rest);
      ReplyRoundTrip(ws[0], EncodeAll(ws[1..]) + rest);
      RepliesRoundTrip(ws[1..], rest);
    }
  }
}
