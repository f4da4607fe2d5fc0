/** The Redis serialization protocol as the benchmark clients read and write it.

    `DecodeValue` is the whole-stream meaning of `RespConnection::parse_value` in
    benchmarks/pubsub_benchmark.cpp, for every byte stream: well formed, malformed or cut short.
    `Encode` is the writer side. Nothing here knows about sockets; the connection classes refine it.
 */
module Resp {
  import opened Decimal

  const CR: byte := 13
  const LF: byte := 10
  const CRLF: Bytes := [CR, LF]

  const SIMPLE: byte := 43   // +
  const ERROR: byte := 45    // -
  const DOUBLE: byte := 44   // ,
  const BIGNUM: byte := 40   // (
  const BOOLEAN: byte := 35  // #
  const NUMBER: byte := 58   // :
  const NULL: byte := 95     // _
  const BULK: byte := 36     // $
  const ARRAY: byte := 42    // *
  const PUSH: byte := 62     // >
  const SET: byte := 126     // ~
  const MAP: byte := 37      // %

  predicate IsLineKind(k: byte) { k == SIMPLE || k == ERROR || k == DOUBLE || k == BIGNUM || k == BOOLEAN }

  predicate IsGroupKind(k: byte) { k == ARRAY || k == PUSH || k == SET || k == MAP }

  /** What the client hands to its caller. A nil bulk and an empty bulk both carry no text, and a nil array
      and an empty one both carry no elements. */
  datatype RespValue = RespValue(kind: byte, integer: int, text: Bytes, elements: seq<RespValue>)

  datatype Error = Closed | BadInteger | BadTerminator | BadKind | BadLine | ServerError

  /** A value and the bytes after it, or the exception that reading it raises. */
  datatype Decoded<+T> = Good(value: T, rest: Bytes) | Bad(error: Error)

  // ---- reading ---------------------------------------------------------------------------------------

  predicate CrlfAt(s: Bytes, i: int) { 0 <= i && i + 1 < |s| && s[i] == CR && s[i + 1] == LF }

  /** The first carriage return that a line feed follows. */
  function FindCrlf(s: Bytes): (r: Option<nat>)
    ensures r.Some? ==> CrlfAt(s, r.value) && forall j :: 0 <= j < r.value ==> !CrlfAt(s, j)
    ensures r.None? ==> forall j :: !CrlfAt(s, j)
  {
    if |s| < 2 then None
    else if s[0] == CR && s[1] == LF then Some(0)
    else
      assert forall j :: j > 0 && CrlfAt(s, j) ==> CrlfAt(s[1..], j - 1);
      match FindCrlf(s[1..])
      case None => None
      case Some(i) => Some(i + 1)
  }

  function DecodeLine(s: Bytes): (d: Decoded<Bytes>)
    ensures d.Good? ==> |d.rest| < |s|
  {
    match FindCrlf(s)
    case None => Bad(Closed)
    case Some(i) => Good(s[..i], s[i + 2..])
  }

  function DecodeBulk(n: int, s: Bytes): (d: Decoded<RespValue>)
    ensures d.Good? ==> |d.rest| <= |s|
  {
    if n < 0 then Good(RespValue(BULK, 0, [], []), s)
    else if |s| < n + 2 then Bad(Closed)
    else if s[n..n + 2] != CRLF then Bad(BadTerminator)
    else Good(RespValue(BULK, 0, s[..n], []), s[n + 2..])
  }

  function GroupSize(kind: byte, count: int): nat {
    if count < 0 then 0 else if kind == MAP then 2 * count else count
  }

  function DecodeValue(s: Bytes): (d: Decoded<RespValue>)
    ensures d.Good? ==> |d.rest| < |s|
    decreases |s|, 0
  {
    if s == [] then Bad(Closed) else
      match DecodeLine(s[1..])
      case Bad(e) => Bad(e)
      case Good(header, rest) => DecodeBody(s[0], header, rest)
  }

  function DecodeBody(kind: byte, header: Bytes, s: Bytes): (d: Decoded<RespValue>)
    ensures d.Good? ==> |d.rest| <= |s|
    decreases |s|, 2
  {
    if IsLineKind(kind) then Good(RespValue(kind, 0, header, []), s)
    else if kind == NULL then Good(RespValue(kind, 0, [], []), s)
    else if kind != NUMBER && kind != BULK && !IsGroupKind(kind) then Bad(BadKind)
    else
      match ParseInt(header)
      case None => Bad(BadInteger)
      case Some(n) =>
        if kind == NUMBER then Good(RespValue(kind, n, [], []), s)
        else if kind == BULK then DecodeBulk(n, s)
        else
          match DecodeMany(GroupSize(kind, n), s)
          case Bad(e) => Bad(e)
          case Good(elements, rest) => Good(RespValue(kind, 0, [], elements), rest)
  }

  /** `n` values one after the other. */
  function DecodeMany(n: nat, s: Bytes): (d: Decoded<seq<RespValue>>)
    ensures d.Good? ==> |d.rest| <= |s| && |d.value| == n
    decreases |s|, 1
  {
    if n == 0 then Good([], s) else
      match DecodeValue(s)
      case Bad(e) => Bad(e)
      case Good(v, rest) =>
        match DecodeMany(n - 1, rest)
        case Bad(e) => Bad(e)
        case Good(vs, tail) => Good([v] + vs, tail)
  }

  lemma {:induction false} ManyTakeBytes(n: nat, s: Bytes)
    requires DecodeMany(n, s).Good?
    ensures |DecodeMany(n, s).rest| + 3 * n <= |s|
    decreases n
  {
    if n > 0 {
      ManyTakeBytes(n - 1, DecodeValue(s).rest);
    }
  }

  /** A group that announces more elements than the bytes behind it can hold is a failure, so a count that no memory can
      be reserved for never stands for a value. */
  lemma HugeGroupFails(kind: byte, header: Bytes, s: Bytes)
    requires IsGroupKind(kind) && ParseInt(header).Some? && 3 * GroupSize(kind, ParseInt(header).value) > |s|
    ensures DecodeBody(kind, header, s).Bad?
  {
    var n := GroupSize(kind, ParseInt(header).value);
    if DecodeMany(n, s).Good? {
      ManyTakeBytes(n, s);
    }
  }

  // ---- writing ---------------------------------------------------------------------------------------

  /** A reply on the wire, with nil and empty told apart as the protocol does. */
  datatype Wire =
    | Line(kind: byte, text: Bytes)
    | Number(value: int)
    | Null
    | Bulk(text: Bytes)
    | NilBulk
    | Group(kind: byte, elements: seq<Wire>)
    | NilGroup(kind: byte)

  function Header(kind: byte, n: int): Bytes { [kind] + FormatInt(n) + CRLF }

  function Encode(w: Wire): Bytes {
    match w
    case Line(kind, text) => [kind] + text + CRLF
    case Number(value) => Header(NUMBER, value)
    case Null => [NULL] + CRLF
    case Bulk(text) => Header(BULK, |text|) + text + CRLF
    case NilBulk => Header(BULK, -1)
    case Group(kind, elements) =>
      Header(kind, if kind == MAP then |elements| / 2 else |elements|) + EncodeAll(elements)
    case NilGroup(kind) => Header(kind, -1)
  }

  function EncodeAll(ws: seq<Wire>): Bytes {
    if ws == [] then [] else Encode(ws[0]) + EncodeAll(ws[1..])
  }

  /** What the protocol allows on the wire: line texts without a line break, 64-bit numbers and sizes, an even
      number of map entries. Bulk texts are arbitrary bytes. */
  predicate WellFormed(w: Wire) {
    match w
    case Line(kind, text) => IsLineKind(kind) && FindCrlf(text).None?
    case Number(value) => INT64_MIN <= value <= INT64_MAX
    case Null => true
    case Bulk(text) => |text| <= INT64_MAX
    case NilBulk => true
    case Group(kind, elements) =>
      && IsGroupKind(kind) && |elements| <= INT64_MAX
      && (kind == MAP ==> |elements| % 2 == 0)
      && forall i :: 0 <= i < |elements| ==> WellFormed(elements[i])
    case NilGroup(kind) => IsGroupKind(kind)
  }

  /** What the client makes of a reply. */
  function Value(w: Wire): RespValue {
    match w
    case Line(kind, text) => RespValue(kind, 0, text, [])
    case Number(value) => RespValue(NUMBER, value, [], [])
    case Null => RespValue(NULL, 0, [], [])
    case Bulk(text) => RespValue(BULK, 0, text, [])
    case NilBulk => RespValue(BULK, 0, [], [])
    case Group(kind, elements) => RespValue(kind, 0, [], Values(elements))
    case NilGroup(kind) => RespValue(kind, 0, [], [])
  }

  function Values(ws: seq<Wire>): (vs: seq<RespValue>)
    ensures |vs| == |ws|
  {
    if ws == [] then [] else [Value(ws[0])] + Values(ws[1..])
  }

  // ---- the round trip --------------------------------------------------------------------------------

  lemma FindCrlfIs(s: Bytes, i: nat)
    requires CrlfAt(s, i) && forall j :: 0 <= j < i ==> !CrlfAt(s, j)
    ensures FindCrlf(s) == Some(i)
  {
  }

  /** A text without a line break is read back up to its terminator, whatever follows. */
  lemma LineRoundTrip(text: Bytes, rest: Bytes)
    requires FindCrlf(text).None?
    ensures DecodeLine(text + CRLF + rest) == Good(text, rest)
  {
    var s := text + CRLF + rest;
    forall j | 0 <= j < |text| ensures !CrlfAt(s, j) {
      assert !CrlfAt(text, j);
      assert s[j] == text[j];
    }
    assert s[|text|] == CR && s[|text| + 1] == LF;
    FindCrlfIs(s, |text|);
    assert s[..|text|] == text && s[|text| + 2..] == rest;
  }

  /** A kind byte and a header line hand over to the rest of the value. */
  lemma HeaderDecodes(kind: byte, text: Bytes, rest: Bytes)
    requires FindCrlf(text).None?
    ensures DecodeValue([kind] + text + CRLF + rest) == DecodeBody(kind, text, rest)
  {
    LineRoundTrip(text, rest);
    assert ([kind] + text + CRLF + rest)[1..] == text + CRLF + rest;
  }

  lemma NumbersHaveNoBreak(n: int)
    ensures FindCrlf(FormatInt(n)).None?
  {
    FormatIntPlain(n);
    var text := FormatInt(n);
    assert forall j :: !CrlfAt(text, j);
  }

  lemma HeaderRoundTrip(kind: byte, n: int, rest: Bytes)
    requires INT64_MIN <= n <= INT64_MAX
    ensures DecodeValue(Header(kind, n) + rest) == DecodeBody(kind, FormatInt(n), rest)
    ensures ParseInt(FormatInt(n)) == Some(n)
  {
    IntRoundTrip(n);
    NumbersHaveNoBreak(n);
    HeaderDecodes(kind, FormatInt(n), rest);
  }

  lemma LinesRoundTrip(w: Wire, rest: Bytes)
    requires WellFormed(w) && (w.Line? || w.Null?)
    ensures DecodeValue(Encode(w) + rest) == Good(Value(w), rest)
  {
    if w.Line? {
      HeaderDecodes(w.kind, w.text, rest);
    } else {
      HeaderDecodes(NULL, [], rest);
      assert [NULL] + [] + CRLF == [NULL] + CRLF;
    }
  }

  lemma Regroup(a: Bytes, b: Bytes, c: Bytes)
    ensures a + b + c == a + (b + c)
  {
  }

  lemma BulkBody(text: Bytes, rest: Bytes)
    ensures DecodeBulk(|text|, text + CRLF + rest) == Good(RespValue(BULK, 0, text, []), rest)
  {
    var s := text + CRLF + rest;
    assert s[|text|..|text| + 2] == CRLF && s[..|text|] == text && s[|text| + 2..] == rest;
  }

  lemma BulkRoundTrip(text: Bytes, rest: Bytes)
    requires |text| <= INT64_MAX
    ensures DecodeValue(Encode(Bulk(text)) + rest) == Good(Value(Bulk(text)), rest)
  {
    var header := Header(BULK, |text|);
    HeaderRoundTrip(BULK, |text|, text + CRLF + rest);
    BulkBody(text, rest);
    Regroup(header, text, CRLF);
    Regroup(header, text + CRLF, rest);
  }

  lemma GroupBody(kind: byte, header: Bytes, count: int, s: Bytes)
    requires IsGroupKind(kind) && ParseInt(header) == Some(count) && DecodeMany(GroupSize(kind, count), s).Good?
    ensures var d := DecodeMany(GroupSize(kind, count), s);
      DecodeBody(kind, header, s) == Good(RespValue(kind, 0, [], d.value), d.rest)
  {
  }

  /** A group header in front of `inner`, once the elements in `inner` are known to read back as `vs`. */
  lemma GroupRoundTrip(kind: byte, count: nat, inner: Bytes, vs: seq<RespValue>, rest: Bytes)
    requires IsGroupKind(kind) && count <= INT64_MAX
    requires DecodeMany(GroupSize(kind, count), inner + rest) == Good(vs, rest)
    ensures DecodeValue(Header(kind, count) + inner + rest) == Good(RespValue(kind, 0, [], vs), rest)
  {
    var header := FormatInt(count);
    HeaderRoundTrip(kind, count, inner + rest);
    GroupBody(kind, header, count, inner + rest);
    Regroup(Header(kind, count), inner, rest);
  }

  /** Reading what was written gives it back and leaves the bytes behind it alone. */
  lemma {:induction false} RoundTrip(w: Wire, rest: Bytes)
    requires WellFormed(w)
    ensures DecodeValue(Encode(w) + rest) == Good(Value(w), rest)
    decreases w, 1
  {
    match w
    case Line(_, _) => LinesRoundTrip(w, rest);
    case Null => LinesRoundTrip(w, rest);
    case Number(value) => HeaderRoundTrip(NUMBER, value, rest);
    case Bulk(text) => BulkRoundTrip(text, rest);
    case NilBulk => HeaderRoundTrip(BULK, -1, rest);
    case NilGroup(kind) => HeaderRoundTrip(kind, -1, rest);
    case Group(kind, elements) =>
      RoundTripAll(elements, rest);
      var count := if kind == MAP then |elements| / 2 else |elements|;
      assert GroupSize(kind, count) == |elements|;
      GroupRoundTrip(kind, count, EncodeAll(elements), Values(elements), rest);
  }

  /** Any sequence of replies is read back in order. */
  lemma {:induction false} RoundTripAll(ws: seq<Wire>, rest: Bytes)
    requires forall i :: 0 <= i < |ws| ==> WellFormed(ws[i])
    ensures DecodeMany(|ws|, EncodeAll(ws) + rest) == Good(Values(ws), rest)
    decreases ws, 0
  {
    if ws == [] {
      assert EncodeAll(ws) + rest == rest;
    } else {
      assert EncodeAll(ws) + rest == Encode(ws[0]) + (EncodeAll(ws[1..]) + rest);
      RoundTrip(ws[0], EncodeAll(ws[1..]) + rest);
      RoundTripAll(ws[1..], rest);
    }
  }

  // ---- what the client cannot tell apart -------------------------------------------------------------

  /** A reply with every nil replaced by the empty value of its kind. */
  function Canon(w: Wire): Wire {
    match w
    case NilBulk => Bulk([])
    case NilGroup(kind) => Group(kind, [])
    case Group(kind, elements) => Group(kind, CanonAll(elements))
    case _ => w
  }

  function CanonAll(ws: seq<Wire>): (cs: seq<Wire>)
    ensures |cs| == |ws|
  {
    if ws == [] then [] else [Canon(ws[0])] + CanonAll(ws[1..])
  }

  /** Two well-formed replies decode to the same value exactly when they differ only in nil against empty. */
  lemma {:induction false} SameValueExactly(v: Wire, w: Wire)
    requires WellFormed(v) && WellFormed(w)
    ensures Value(v) == Value(w) <==> Canon(v) == Canon(w)
    decreases v, 1
  {
    if v.Group? && w.Group? {
      SameValuesExactly(v.elements, w.elements);
    }
  }

  lemma {:induction false} SameValuesExactly(vs: seq<Wire>, ws: seq<Wire>)
    requires forall i :: 0 <= i < |vs| ==> WellFormed(vs[i])
    requires forall i :: 0 <= i < |ws| ==> WellFormed(ws[i])
    ensures Values(vs) == Values(ws) <==> CanonAll(vs) == CanonAll(ws)
    decreases vs, 0
  {
    if |vs| != |ws| {
      assert |Values(vs)| != |Values(ws)| && |CanonAll(vs)| != |CanonAll(ws)|;
    } else if vs != [] {
      SameValueExactly(vs[0], ws[0]);
      SameValuesExactly(vs[1..], ws[1..]);
      assert Values(vs)[0] == Value(vs[0]) && Values(vs)[1..] == Values(vs[1..]);
      assert Values(ws)[0] == Value(ws[0]) && Values(ws)[1..] == Values(ws[1..]);
      assert CanonAll(vs)[0] == Canon(vs[0]) && CanonAll(vs)[1..] == CanonAll(vs[1..]);
      assert CanonAll(ws)[0] == Canon(ws[0]) && CanonAll(ws)[1..] == CanonAll(ws[1..]);
    }
  }

  // ---- commands --------------------------------------------------------------------------------------

  function Bulks(args: seq<Bytes>): (ws: seq<Wire>)
    ensures |ws| == |args| && forall i :: 0 <= i < |args| ==> ws[i] == Bulk(args[i])
  {
    seq(|args|, i requires 0 <= i < |args| => Bulk(args[i]))
  }

  lemma {:induction false} EncodeAllAppend(ws: seq<Wire>, w: Wire)
    ensures EncodeAll(ws + [w]) == EncodeAll(ws) + Encode(w)
  {
    if ws == [] {
      assert [w][1..] == [] && EncodeAll([w]) == Encode(w) + [];
    } else {
      assert (ws + [w])[1..] == ws[1..] + [w];
      EncodeAllAppend(ws[1..], w);
    }
  }

  /** One more bulk string at the end of an output buffer. */
  method AppendBulk(buffer: Bytes, text: Bytes) returns (out: Bytes)
    ensures out == buffer + Encode(Bulk(text))
  {
    out := buffer + [BULK] + FormatInt(|text|) + CRLF;
    assert out == buffer + Header(BULK, |text|);
    out := out + text + CRLF;
    Regroup(buffer, Header(BULK, |text|), text);
    Regroup(buffer, Header(BULK, |text|) + text, CRLF);
  }

  lemma CommandGrows(header: Bytes, args: seq<Bytes>, i: nat)
    requires i < |args|
    ensures header + EncodeAll(Bulks(args[..i])) + Encode(Bulk(args[i])) == header + EncodeAll(Bulks(args[..i + 1]))
  {
    assert Bulks(args[..i + 1]) == Bulks(args[..i]) + [Bulk(args[i])];
    EncodeAllAppend(Bulks(args[..i]), Bulk(args[i]));
    Regroup(header, EncodeAll(Bulks(args[..i])), Encode(Bulk(args[i])));
  }

  /** The command writer: an array header, then one bulk per argument, appended to one buffer. */
  method EncodeCommand(args: seq<Bytes>) returns (out: Bytes)
    ensures out == Encode(Group(ARRAY, Bulks(args)))
  {
    var header := Header(ARRAY, |args|);
    out := header;
    for i := 0 to |args|
      invariant out == header + EncodeAll(Bulks(args[..i]))
    {
      CommandGrows(header, args, i);
      out := AppendBulk(out, args[i]);
    }
    assert args[..|args|] == args;
  }

  /** Whatever bytes the arguments hold, line breaks included, a written command reads back as its arguments. */
  lemma CommandRoundTrip(args: seq<Bytes>, rest: Bytes)
    requires |args| <= INT64_MAX && forall i :: 0 <= i < |args| ==> |args[i]| <= INT64_MAX
    ensures var d := DecodeValue(Encode(Group(ARRAY, Bulks(args))) + rest);
      && d.Good? && d.rest == rest && d.value.kind == ARRAY && |d.value.elements| == |args|
      && forall i :: 0 <= i < |args| ==> d.value.elements[i] == RespValue(BULK, 0, args[i], [])
  {
    RoundTrip(Group(ARRAY, Bulks(args)), rest);
    ValuesAt(Bulks(args));
  }

  lemma {:induction false} ValuesAt(ws: seq<Wire>)
    ensures forall i :: 0 <= i < |ws| ==> Values(ws)[i] == Value(ws[i])
  {
    if ws != [] {
      ValuesAt(ws[1..]);
      forall i | 0 <= i < |ws| ensures Values(ws)[i] == Value(ws[i]) {
        if i > 0 { assert Values(ws)[i] == Values(ws[1..])[i - 1]; }
      }
    }
  }
}
