/** The recovery check of benchmarks/external_logging_recovery.cpp: a client that fills six kinds of dataset through
    pipelined batches, checks every reply, and later decides from reads and a cardinality whether a restarted server
    still holds exactly what was written. The server is a model of the commands the client sends. */
module Recovery {
  import opened Decimal
  import opened Client
  import opened Collections

  // ---- the server -------------------------------------------------------------------------------------

  datatype Kind = KString | KHash | KSet | KZset | KList | KArray

  /** A sorted-set score: a whole number, or one that prints with a decimal point. */
  datatype Score = Whole(number: int) | Fractional(part: int, fraction: Bytes)

  datatype Object =
    | StringObject(content: Bytes)
    | HashObject(fields: map<Bytes, Bytes>)
    | SetObject(members: set<Bytes>)
    | ZsetObject(scores: map<Bytes, Score>)
    | ListObject(elements: seq<Bytes>)
    | ArrayObject(cells: map<nat, Bytes>)

  type Db = map<Bytes, Object>

  /** One command of the client: `Write` is SET, HSET, SADD, ZADD, RPUSH or ARSET, `Read` is GET, HGET, SISMEMBER,
      ZSCORE, LINDEX or ARGET, `Count` is HLEN, SCARD, ZCARD, LLEN or ARLEN. */
  datatype Request =
    | Write(kind: Kind, key: Bytes, decimal: Bytes)
    | Read(kind: Kind, key: Bytes, decimal: Bytes)
    | Count(kind: Kind, key: Bytes)
    | Del(keys: seq<Bytes>)

  /** A reply, or an error line, which the client turns into an exception. */
  datatype Answer = Replied(reply: Reply) | Refused

  const OK: Bytes := [79, 75]
  const POINT: byte := 46

  function ScoreText(s: Score): Bytes {
    match s
    case Whole(n) => FormatInt(n)
    case Fractional(n, f) => FormatInt(n) + [POINT] + f
  }

  predicate OfKind(o: Object, kind: Kind) {
    match kind
    case KString => o.StringObject?
    case KHash => o.HashObject?
    case KSet => o.SetObject?
    case KZset => o.ZsetObject?
    case KList => o.ListObject?
    case KArray => o.ArrayObject?
  }

  function EmptyObject(kind: Kind): (o: Object)
    ensures OfKind(o, kind)
  {
    match kind
    case KString => StringObject([])
    case KHash => HashObject(map[])
    case KSet => SetObject({})
    case KZset => ZsetObject(map[])
    case KList => ListObject([])
    case KArray => ArrayObject(map[])
  }

  /** What a command of this kind finds under a key: a missing key reads as an empty collection. */
  function Found(db: Db, kind: Kind, key: Bytes): Object { if key in db then db[key] else EmptyObject(kind) }

  /** One element added, and the integer the server answers. */
  function Added(o: Object, decimal: Bytes): (Object, Answer) {
    match o
    case StringObject(_) => (StringObject(decimal), Replied(Text(OK)))
    case HashObject(m) => (HashObject(m[decimal := decimal]), Replied(Integer(if decimal in m then 0 else 1)))
    case SetObject(s) => (SetObject(s + {decimal}), Replied(Integer(if decimal in s then 0 else 1)))
    case ZsetObject(m) =>
      (match ParseInt(decimal)
       case Some(n) => (ZsetObject(m[decimal := Whole(n)]), Replied(Integer(if decimal in m then 0 else 1)))
       case None => (o, Refused))
    case ListObject(l) => (ListObject(l + [decimal]), Replied(Integer(|l| + 1)))
    case ArrayObject(c) =>
      match ParseInt(decimal)
      case Some(n) => if n < 0 then (o, Refused) else (ArrayObject(c[n := decimal]), Replied(Integer(1)))
      case None => (o, Refused)
  }

  function Looked(o: Object, decimal: Bytes): Answer {
    match o
    case StringObject(t) => Replied(Text(t))
    case HashObject(m) => Replied(if decimal in m then Text(m[decimal]) else Nil)
    case SetObject(s) => Replied(Integer(if decimal in s then 1 else 0))
    case ZsetObject(m) => Replied(if decimal in m then Text(ScoreText(m[decimal])) else Nil)
    case ListObject(l) =>
      (match ParseInt(decimal)
       case Some(n) => Replied(if 0 <= n < |l| then Text(l[n]) else if 0 <= n + |l| < |l| then Text(l[n + |l|]) else Nil)
       case None => Refused)
    case ArrayObject(c) =>
      match ParseInt(decimal)
      case Some(n) => if n < 0 then Refused else Replied(if n in c then Text(c[n]) else Nil)
      case None => Refused
  }

  lemma {:induction false} SomeTop(s: set<nat>)
    requires s != {}
    ensures exists i :: i in s && forall j :: j in s ==> j <= i
  {
    var x :| x in s;
    var rest := s - {x};
    if rest == {} {
      assert s == {x};
    } else {
      SomeTop(rest);
      var i :| i in rest && forall j :: j in rest ==> j <= i;
      var top := if x > i then x else i;
      assert forall j :: j in s ==> j == x || j in rest;
      assert top in s && forall j :: j in s ==> j <= top;
    }
  }

  /** One past the largest index in use. */
  function ArrayLength(used: set<nat>): (n: nat)
    ensures forall i :: i in used ==> i < n
    ensures n > 0 ==> n - 1 in used
  {
    if used == {} then 0 else SomeTop(used); var i :| i in used && forall j :: j in used ==> j <= i; i + 1
  }

  function Cardinality(o: Object): nat {
    match o
    case StringObject(t) => |t|
    case HashObject(m) => |m|
    case SetObject(s) => |s|
    case ZsetObject(m) => |m|
    case ListObject(l) => |l|
    case ArrayObject(c) => ArrayLength(c.Keys)
  }

  /** SET replaces whatever the key holds; every other command refuses a key of another kind. */
  function Serve(db: Db, request: Request): (Db, Answer) {
    match request
    case Write(kind, key, decimal) =>
      if kind == KString then (db[key := StringObject(decimal)], Replied(Text(OK)))
      else if !OfKind(Found(db, kind, key), kind) then (db, Refused)
      else
        var (o, answer) := Added(Found(db, kind, key), decimal);
        (if answer == Refused then db else db[key := o], answer)
    case Read(kind, key, decimal) =>
      if kind == KString && key !in db then (db, Replied(Nil))
      else if !OfKind(Found(db, kind, key), kind) then (db, Refused)
      else (db, Looked(Found(db, kind, key), decimal))
    case Count(kind, key) =>
      if !OfKind(Found(db, kind, key), kind) then (db, Refused)
      else (db, Replied(Integer(Cardinality(Found(db, kind, key)))))
    case Del(keys) =>
      var gone := set key | key in keys && key in db;
      (db - gone, Replied(Integer(|gone|)))
  }

  type Server = (Db, Request) -> (Db, Answer)

  /** What a server makes of a sequence of requests: where it ends, and what it answered. */
  datatype Ran = Ran(db: Db, answers: seq<Answer>)

  function Run(server: Server, db: Db, requests: seq<Request>): (r: Ran)
    ensures |r.answers| == |requests|
    decreases |requests|
  {
    if requests == [] then Ran(db, [])
    else
      var before := Run(server, db, requests[..|requests| - 1]);
      var last := server(before.db, requests[|requests| - 1]);
      Ran(last.0, before.answers + [last.1])
  }

  // ---- the dataset ------------------------------------------------------------------------------------

  function Dec(i: nat): Bytes { Digits(i, 10) }

  const COLON: byte := 58

  function KindName(kind: Kind): Bytes {
    match kind
    case KString => [115, 116, 114, 105, 110, 103]
    case KHash => [104, 97, 115, 104]
    case KSet => [115, 101, 116]
    case KZset => [122, 115, 101, 116]
    case KList => [108, 105, 115, 116]
    case KArray => [97, 114, 114, 97, 121]
  }

  function CollectionKey(prefix: Bytes, kind: Kind): Bytes { prefix + [COLON] + KindName(kind) }

  function StringKey(prefix: Bytes, decimal: Bytes): Bytes { prefix + [COLON] + KindName(KString) + [COLON] + decimal }

  function KeyOf(prefix: Bytes, kind: Kind, decimal: Bytes): Bytes {
    if kind == KString then StringKey(prefix, decimal) else CollectionKey(prefix, kind)
  }

  /** The decimal texts of the ordinals below `n`. */
  function Decs(n: nat): set<Bytes> { if n == 0 then {} else Decs(n - 1) + {Dec(n - 1)} }

  function DecMap(n: nat): (m: map<Bytes, Bytes>)
    ensures m.Keys == Decs(n)
  {
    if n == 0 then map[] else DecMap(n - 1)[Dec(n - 1) := Dec(n - 1)]
  }

  function ScoreMap(n: nat): (m: map<Bytes, Score>)
    ensures m.Keys == Decs(n)
  {
    if n == 0 then map[] else ScoreMap(n - 1)[Dec(n - 1) := Whole(n - 1)]
  }

  function CellMap(n: nat): (m: map<nat, Bytes>)
    ensures forall i: nat :: i in m <==> i < n
    ensures forall i: nat :: i in m ==> m[i] == Dec(i)
  {
    if n == 0 then map[] else CellMap(n - 1)[n - 1 := Dec(n - 1)]
  }

  /** The collection that maps every ordinal below `n` to itself, and nothing else. */
  function Dataset(kind: Kind, n: nat): (o: Object)
    requires kind != KString
    ensures OfKind(o, kind)
  {
    match kind
    case KHash => HashObject(DecMap(n))
    case KSet => SetObject(Decs(n))
    case KZset => ZsetObject(ScoreMap(n))
    case KList => ListObject(seq(n, i requires i >= 0 => Dec(i)))
    case KArray => ArrayObject(CellMap(n))
  }

  /** The server holds exactly the first `n` ordinals; for strings, the first `n` keys hold their own ordinals. */
  ghost predicate Exact(db: Db, prefix: Bytes, kind: Kind, n: nat) {
    if kind == KString then
      forall i: nat :: i < n ==> StringKey(prefix, Dec(i)) in db && db[StringKey(prefix, Dec(i))] == StringObject(Dec(i))
    else Found(db, kind, CollectionKey(prefix, kind)) == Dataset(kind, n)
  }

  lemma SameText(i: nat, j: nat)
    ensures Dec(i) == Dec(j) <==> i == j
  {
    if Dec(i) == Dec(j) {
      DigitsInjective(i, j, 10);
    }
  }

  lemma TextRead(i: nat)
    requires i <= INT64_MAX
    ensures ParseInt(Dec(i)) == Some(i)
  {
    IntRoundTrip(i);
    assert FormatInt(i) == Dec(i);
  }

  lemma {:induction false} DecsHas(n: nat, i: nat)
    ensures Dec(i) in Decs(n) <==> i < n
  {
    if n > 0 {
      DecsHas(n - 1, i);
      SameText(i, n - 1);
    }
  }

  lemma {:induction false} DecsOnly(n: nat, d: Bytes)
    ensures d in Decs(n) <==> exists i: nat :: i < n && d == Dec(i)
  {
    if n > 0 {
      DecsOnly(n - 1, d);
      if d == Dec(n - 1) {
        assert n - 1 < n;
      } else if i: nat :| i < n && d == Dec(i) {
        assert i < n - 1;
      }
    }
  }

  lemma OneMore(s: set<Bytes>, d: Bytes)
    requires d !in s
    ensures |s + {d}| == |s| + 1
  {
  }

  lemma {:induction false} DecsSize(n: nat)
    ensures |Decs(n)| == n
  {
    if n > 0 {
      DecsSize(n - 1);
      DecsHas(n - 1, n - 1);
      OneMore(Decs(n - 1), Dec(n - 1));
    }
  }

  lemma {:induction false} DecMapValue(n: nat, i: nat)
    requires i < n
    ensures Dec(i) in DecMap(n) && DecMap(n)[Dec(i)] == Dec(i)
  {
    if i < n - 1 {
      DecMapValue(n - 1, i);
      SelfMapped(DecMap(n - 1), Dec(n - 1), Dec(i));
    }
  }

  lemma SelfMapped(m: map<Bytes, Bytes>, added: Bytes, d: Bytes)
    requires d in m && m[d] == d
    ensures var more := m[added := added]; d in more && more[d] == d
  {
  }

  lemma {:induction false} ScoreMapValue(n: nat, i: nat)
    requires i < n
    ensures Dec(i) in ScoreMap(n) && ScoreMap(n)[Dec(i)] == Whole(i)
  {
    if i < n - 1 {
      ScoreMapValue(n - 1, i);
      SameText(i, n - 1);
    }
  }

  // ---- populating: what a run of writes does ----------------------------------------------------------

  function WriteOf(prefix: Bytes, kind: Kind, i: nat): Request { Write(kind, KeyOf(prefix, kind, Dec(i)), Dec(i)) }

  function ReadOf(prefix: Bytes, kind: Kind, i: nat): Request { Read(kind, KeyOf(prefix, kind, Dec(i)), Dec(i)) }

  function Writes(prefix: Bytes, kind: Kind, begin: nat, end: nat): (r: seq<Request>)
    requires begin <= end
    ensures |r| == end - begin
  {
    if begin == end then [] else Writes(prefix, kind, begin, end - 1) + [WriteOf(prefix, kind, end - 1)]
  }

  function Reads(prefix: Bytes, kind: Kind, begin: nat, end: nat): (r: seq<Request>)
    requires begin <= end
    ensures |r| == end - begin
  {
    if begin == end then [] else Reads(prefix, kind, begin, end - 1) + [ReadOf(prefix, kind, end - 1)]
  }

  function ExpectedReply(kind: Kind, i: nat): Reply {
    if kind == KString then Text(OK) else Integer(if kind == KList then i + 1 else 1)
  }

  /** Every answer to the writes from `begin` on is the one the client expects. */
  predicate AllExpected(kind: Kind, begin: nat, answers: seq<Answer>) {
    forall i :: 0 <= i < |answers| ==> answers[i] == Replied(ExpectedReply(kind, begin + i))
  }

  /** The keys a run over this kind may touch. */
  ghost predicate Touches(prefix: Bytes, kind: Kind, key: Bytes) {
    if kind == KString then exists i: nat :: key == StringKey(prefix, Dec(i)) else key == CollectionKey(prefix, kind)
  }

  ghost predicate SameElsewhere(prefix: Bytes, kind: Kind, before: Db, after: Db) {
    forall key :: !Touches(prefix, kind, key) ==> (key in before <==> key in after) && (key in before ==> before[key] == after[key])
  }

  lemma StringKeyInjective(prefix: Bytes, i: nat, j: nat)
    requires StringKey(prefix, Dec(i)) == StringKey(prefix, Dec(j))
    ensures i == j
  {
    var head := prefix + [COLON] + KindName(KString) + [COLON];
    assert StringKey(prefix, Dec(i))[|head|..] == Dec(i) && StringKey(prefix, Dec(j))[|head|..] == Dec(j);
    DigitsInjective(i, j, 10);
  }

  /** Adding the next ordinal to the exact dataset gives the next exact dataset and the reply the client expects. */
  lemma NextElement(kind: Kind, i: nat)
    requires kind != KString && i <= INT64_MAX
    ensures Added(Dataset(kind, i), Dec(i)) == (Dataset(kind, i + 1), Replied(ExpectedReply(kind, i)))
  {
    match kind
    case KHash => NextField(i);
    case KSet => NextMember(i);
    case KZset => NextScore(i);
    case KList => NextListed(i);
    case KArray => NextIndexed(i);
  }

  /** The collection has room for ordinal `i`: it is a new element, or for a list the next one. */
  predicate Unused(o: Object, i: nat) {
    match o
    case StringObject(_) => true
    case HashObject(m) => Dec(i) !in m
    case SetObject(s) => Dec(i) !in s
    case ZsetObject(m) => Dec(i) !in m
    case ListObject(l) => |l| == i
    case ArrayObject(_) => true
  }

  /** Into any collection, a write draws the expected reply exactly when the ordinal was unused: populating notices a
      stray element of every kind but strings and arrays. */
  lemma WriteNoticesExactly(o: Object, kind: Kind, i: nat)
    requires OfKind(o, kind) && i <= INT64_MAX
    ensures Added(o, Dec(i)).1 == Replied(ExpectedReply(kind, i)) <==> Unused(o, i)
  {
    TextRead(i);
  }

  lemma NextField(i: nat)
    ensures Added(HashObject(DecMap(i)), Dec(i)) == (HashObject(DecMap(i + 1)), Replied(Integer(1)))
  {
    DecsHas(i, i);
  }

  lemma NextMember(i: nat)
    ensures Added(SetObject(Decs(i)), Dec(i)) == (SetObject(Decs(i + 1)), Replied(Integer(1)))
  {
    DecsHas(i, i);
  }

  lemma NextScore(i: nat)
    requires i <= INT64_MAX
    ensures Added(ZsetObject(ScoreMap(i)), Dec(i)) == (ZsetObject(ScoreMap(i + 1)), Replied(Integer(1)))
  {
    DecsHas(i, i);
    TextRead(i);
  }

  lemma NextIndexed(i: nat)
    requires i <= INT64_MAX
    ensures Added(ArrayObject(CellMap(i)), Dec(i)) == (ArrayObject(CellMap(i + 1)), Replied(Integer(1)))
  {
    TextRead(i);
    NextCell(i);
  }

  lemma NextCell(i: nat)
    ensures CellMap(i)[i := Dec(i)] == CellMap(i + 1)
  {
  }

  lemma NextListed(i: nat)
    ensures Dataset(KList, i).elements + [Dec(i)] == Dataset(KList, i + 1).elements
  {
  }

  /** One write takes the exact first `i` ordinals to the exact first `i + 1`. */
  ghost predicate Extends(server: Server, db: Db, prefix: Bytes, kind: Kind, i: nat) {
    var next := server(db, WriteOf(prefix, kind, i));
    && next.1 == Replied(ExpectedReply(kind, i))
    && Exact(next.0, prefix, kind, i + 1)
    && SameElsewhere(prefix, kind, db, next.0)
  }

  lemma WriteStep(db: Db, prefix: Bytes, kind: Kind, i: nat)
    requires Exact(db, prefix, kind, i) && i <= INT64_MAX
    ensures Extends(Serve, db, prefix, kind, i)
  {
    if kind == KString {
      var after := Serve(db, WriteOf(prefix, kind, i)).0;
      forall j: nat | j < i ensures after[StringKey(prefix, Dec(j))] == StringObject(Dec(j)) {
        if StringKey(prefix, Dec(i)) == StringKey(prefix, Dec(j)) {
          StringKeyInjective(prefix, i, j);
        }
      }
    } else {
      NextElement(kind, i);
    }
  }

  lemma RunLast(server: Server, db: Db, requests: seq<Request>, last: Request)
    ensures var before := Run(server, db, requests);
            var next := server(before.db, last);
            Run(server, db, requests + [last]) == Ran(next.0, before.answers + [next.1])
  {
  }

  /** A run of writes over `[begin, end)` from `db` drew the expected replies and left the exact first `end`. */
  ghost predicate Grew(prefix: Bytes, kind: Kind, begin: nat, end: nat, db: Db, r: Ran) {
    && begin + |r.answers| == end
    && AllExpected(kind, begin, r.answers)
    && Exact(r.db, prefix, kind, end)
    && SameElsewhere(prefix, kind, db, r.db)
  }

  /** Every write below `end` extends every exact state it meets. */
  ghost predicate AlwaysExtends(server: Server, prefix: Bytes, kind: Kind, end: nat) {
    forall d: Db, i: nat {:trigger Extends(server, d, prefix, kind, i)} ::
      i < end && Exact(d, prefix, kind, i) ==> Extends(server, d, prefix, kind, i)
  }

  lemma ExtendsBelow(server: Server, prefix: Bytes, kind: Kind, end: nat)
    requires end > 0 && AlwaysExtends(server, prefix, kind, end)
    ensures AlwaysExtends(server, prefix, kind, end - 1)
  {
  }

  lemma GrewStep(server: Server, prefix: Bytes, kind: Kind, begin: nat, end: nat, db: Db, r: Ran)
    requires Grew(prefix, kind, begin, end, db, r) && AlwaysExtends(server, prefix, kind, end + 1)
    ensures var next := server(r.db, WriteOf(prefix, kind, end));
            Grew(prefix, kind, begin, end + 1, db, Ran(next.0, r.answers + [next.1]))
  {
    assert Extends(server, r.db, prefix, kind, end);
  }

  lemma GrewMore(server: Server, prefix: Bytes, kind: Kind, begin: nat, end: nat, db: Db, requests: seq<Request>)
    requires Grew(prefix, kind, begin, end, db, Run(server, db, requests)) && AlwaysExtends(server, prefix, kind, end + 1)
    ensures Grew(prefix, kind, begin, end + 1, db, Run(server, db, requests + [WriteOf(prefix, kind, end)]))
  {
    GrewStep(server, prefix, kind, begin, end, db, Run(server, db, requests));
    RunLast(server, db, requests, WriteOf(prefix, kind, end));
  }

  lemma WritesNext(prefix: Bytes, kind: Kind, begin: nat, end: nat)
    requires begin <= end
    ensures Writes(prefix, kind, begin, end + 1) == Writes(prefix, kind, begin, end) + [WriteOf(prefix, kind, end)]
  {
  }

  lemma {:induction false} PopulateBy(server: Server, db: Db, prefix: Bytes, kind: Kind, begin: nat, end: nat)
    requires begin <= end && Grew(prefix, kind, begin, begin, db, Ran(db, [])) && AlwaysExtends(server, prefix, kind, end)
    ensures Grew(prefix, kind, begin, end, db, Run(server, db, Writes(prefix, kind, begin, end)))
    decreases end
  {
    if begin < end {
      ExtendsBelow(server, prefix, kind, end);
      PopulateBy(server, db, prefix, kind, begin, end - 1);
      GrewMore(server, prefix, kind, begin, end - 1, db, Writes(prefix, kind, begin, end - 1));
      WritesNext(prefix, kind, begin, end - 1);
    }
  }

  lemma GrewNothing(db: Db, prefix: Bytes, kind: Kind, begin: nat)
    requires Exact(db, prefix, kind, begin)
    ensures Grew(prefix, kind, begin, begin, db, Ran(db, []))
  {
  }

  lemma ServeExtends(prefix: Bytes, kind: Kind, end: nat)
    requires end <= INT64_MAX
    ensures AlwaysExtends(Serve, prefix, kind, end)
  {
    forall d: Db, i: nat | i < end && Exact(d, prefix, kind, i) ensures Extends(Serve, d, prefix, kind, i) {
      WriteStep(d, prefix, kind, i);
    }
  }

  /** Populating `[begin, end)` on top of the exact first `begin` ordinals draws exactly the expected replies and leaves
      the exact first `end`, and no other key changes. */
  lemma PopulateExact(db: Db, prefix: Bytes, kind: Kind, begin: nat, end: nat)
    requires begin <= end <= INT64_MAX && Exact(db, prefix, kind, begin)
    ensures Grew(prefix, kind, begin, end, db, Run(Serve, db, Writes(prefix, kind, begin, end)))
  {
    GrewNothing(db, prefix, kind, begin);
    ServeExtends(prefix, kind, end);
    PopulateBy(Serve, db, prefix, kind, begin, end);
  }

  // ---- verifying: what the reads and the cardinality can tell -----------------------------------------

  datatype Verification = Verification(matched: nat, missing: nat, mismatched: nat)

  predicate Matches(kind: Kind, decimal: Bytes, reply: Reply) {
    if kind == KSet then reply == Integer(1) else reply == Text(decimal)
  }

  /** One reply added to the tally. */
  function Judged(kind: Kind, decimal: Bytes, reply: Reply, v: Verification): Verification {
    if reply == Nil then v.(missing := v.missing + 1)
    else if Matches(kind, decimal, reply) then v.(matched := v.matched + 1)
    else v.(mismatched := v.mismatched + 1)
  }

  /** The client knows no array reply: it ends the run like an error. */
  predicate Unreadable(answer: Answer) { answer.Refused? || answer.reply.Items? }

  /** The tally of the answers to the reads from `begin` on, or nothing when one is unreadable. */
  function Tally(kind: Kind, begin: nat, answers: seq<Answer>): Option<Verification>
    decreases |answers|
  {
    if answers == [] then Some(Verification(0, 0, 0))
    else
      var last := |answers| - 1;
      match Tally(kind, begin, answers[..last])
      case None => None
      case Some(v) =>
        if Unreadable(answers[last]) then None else Some(Judged(kind, Dec(begin + last), answers[last].reply, v))
  }

  predicate AnswerMatches(kind: Kind, decimal: Bytes, answer: Answer) {
    answer.Replied? && Matches(kind, decimal, answer.reply)
  }

  /** The tally counts every answer once. */
  lemma {:induction false} TallyCounts(kind: Kind, begin: nat, answers: seq<Answer>)
    requires Tally(kind, begin, answers).Some?
    ensures var v := Tally(kind, begin, answers).value; v.matched + v.missing + v.mismatched == |answers|
    decreases |answers|
  {
    if answers != [] {
      TallyCounts(kind, begin, answers[..|answers| - 1]);
    }
  }

  ghost predicate AllMatch(kind: Kind, begin: nat, answers: seq<Answer>) {
    forall i :: 0 <= i < |answers| ==> AnswerMatches(kind, Dec(begin + i), answers[i])
  }

  /** The tally so far carries on with the next answer, and a refusal anywhere is a refusal of the whole. */
  lemma TallyNext(kind: Kind, begin: nat, seen: seq<Answer>, answer: Answer)
    requires Tally(kind, begin, seen).Some?
    ensures Tally(kind, begin, seen + [answer])
            == if Unreadable(answer) then None
               else Some(Judged(kind, Dec(begin + |seen|), answer.reply, Tally(kind, begin, seen).value))
  {
  }

  /** What the dataset should answer to the read of an ordinal. */
  function RightReply(kind: Kind, i: nat): Reply { if kind == KSet then Integer(1) else Text(Dec(i)) }

  /** How many of the answers are nil. */
  function NilAnswers(answers: seq<Answer>): nat {
    if answers == [] then 0
    else NilAnswers(answers[..|answers| - 1]) + if answers[|answers| - 1] == Replied(Nil) then 1 else 0
  }

  /** How many are what the dataset should answer, the first read being that of ordinal `begin`. */
  function RightAnswers(kind: Kind, begin: nat, answers: seq<Answer>): nat {
    if answers == [] then 0
    else
      var last := |answers| - 1;
      RightAnswers(kind, begin, answers[..last]) + if answers[last] == Replied(RightReply(kind, begin + last)) then 1 else 0
  }

  /** How many are neither. */
  function WrongAnswers(kind: Kind, begin: nat, answers: seq<Answer>): nat {
    if answers == [] then 0
    else
      var last := |answers| - 1;
      WrongAnswers(kind, begin, answers[..last])
      + if answers[last] != Replied(Nil) && answers[last] != Replied(RightReply(kind, begin + last)) then 1 else 0
  }

  /** The tally says how many answers were right, how many nil, and how many neither. */
  lemma {:induction false} TallyTells(kind: Kind, begin: nat, answers: seq<Answer>)
    requires Tally(kind, begin, answers).Some?
    ensures Tally(kind, begin, answers).value
            == Verification(RightAnswers(kind, begin, answers), NilAnswers(answers), WrongAnswers(kind, begin, answers))
    decreases |answers|
  {
    if answers != [] {
      TallyTells(kind, begin, answers[..|answers| - 1]);
    }
  }

  /** There is a tally exactly when the client can read every answer. */
  lemma {:induction false} TallyExists(kind: Kind, begin: nat, answers: seq<Answer>)
    ensures Tally(kind, begin, answers).Some?
            <==> forall i :: 0 <= i < |answers| ==> answers[i].Replied? && !answers[i].reply.Items?
    decreases |answers|
  {
    if answers != [] {
      TallyExists(kind, begin, answers[..|answers| - 1]);
    }
  }

  /** It counts them all as matched exactly when they all match. */
  lemma {:induction false} TallyFull(kind: Kind, begin: nat, answers: seq<Answer>)
    ensures Tally(kind, begin, answers) == Some(Verification(|answers|, 0, 0)) <==> AllMatch(kind, begin, answers)
    decreases |answers|
  {
    if answers != [] {
      var front, last := answers[..|answers| - 1], answers[|answers| - 1];
      TallyFull(kind, begin, front);
      AllMatchLast(kind, begin, front, last);
      assert answers == front + [last];
      if Tally(kind, begin, front).Some? {
        TallyCounts(kind, begin, front);
        TallyNext(kind, begin, front, last);
        if !Unreadable(last) {
          JudgedFull(kind, Dec(begin + |front|), last.reply, Tally(kind, begin, front).value, |front|);
        }
      }
    }
  }

  lemma JudgedFull(kind: Kind, decimal: Bytes, reply: Reply, v: Verification, n: nat)
    requires v.matched + v.missing + v.mismatched == n
    ensures Judged(kind, decimal, reply, v) == Verification(n + 1, 0, 0)
            <==> v == Verification(n, 0, 0) && Matches(kind, decimal, reply)
  {
  }

  lemma AllMatchLast(kind: Kind, begin: nat, front: seq<Answer>, last: Answer)
    ensures AllMatch(kind, begin, front + [last])
            <==> AllMatch(kind, begin, front) && AnswerMatches(kind, Dec(begin + |front|), last)
  {
    var all := front + [last];
    assert forall i :: 0 <= i < |front| ==> all[i] == front[i];
    assert all[|front|] == last;
  }

  /** Requests that change nothing each answer from the same state. */
  lemma {:induction false} ReadsAnswer(server: Server, db: Db, requests: seq<Request>)
    requires forall r :: r in requests ==> server(db, r).0 == db
    ensures Run(server, db, requests).db == db
    ensures forall i :: 0 <= i < |requests| ==> Run(server, db, requests).answers[i] == server(db, requests[i]).1
    decreases |requests|
  {
    if requests != [] {
      ReadsAnswer(server, db, requests[..|requests| - 1]);
      assert requests[|requests| - 1] in requests;
    }
  }

  lemma {:induction false} ReadsAt(prefix: Bytes, kind: Kind, begin: nat, end: nat)
    requires begin <= end
    ensures forall i :: 0 <= i < end - begin ==> Reads(prefix, kind, begin, end)[i] == ReadOf(prefix, kind, begin + i)
    decreases end
  {
    if begin < end {
      ReadsAt(prefix, kind, begin, end - 1);
    }
  }

  /** The decision of the check for one kind: the cardinality is right and every read matches. */
  predicate Passes(db: Db, prefix: Bytes, kind: Kind, n: nat) {
    && (kind == KString || Serve(db, Count(kind, CollectionKey(prefix, kind))).1 == Replied(Integer(n)))
    && Tally(kind, 0, Run(Serve, db, Reads(prefix, kind, 0, n)).answers) == Some(Verification(n, 0, 0))
  }

  // ---- the check decides exactly ----------------------------------------------------------------------

  /** A set of `n` texts that has the first `n` ordinals has nothing else. */
  lemma Pigeonhole(s: set<Bytes>, n: nat)
    requires |s| == n && forall i: nat :: i < n ==> Dec(i) in s
    ensures s == Decs(n)
  {
    DecsSize(n);
    forall d | d in Decs(n) ensures d in s {
      DecsOnly(n, d);
    }
    SameSizeSubset(Decs(n), s);
  }

  /** The object holds ordinal `i` the way the dataset does. */
  predicate HoldsAt(o: Object, i: nat) {
    match o
    case StringObject(t) => t == Dec(i)
    case HashObject(m) => Dec(i) in m && m[Dec(i)] == Dec(i)
    case SetObject(s) => Dec(i) in s
    case ZsetObject(m) => Dec(i) in m && m[Dec(i)] == Whole(i)
    case ListObject(l) => i < |l| && l[i] == Dec(i)
    case ArrayObject(c) => i in c && c[i] == Dec(i)
  }

  lemma HashExactly(m: map<Bytes, Bytes>, n: nat)
    ensures (|m| == n && forall i: nat :: i < n ==> HoldsAt(HashObject(m), i)) <==> m == DecMap(n)
  {
    DecsSize(n);
    assert |m| == |m.Keys| && |DecMap(n)| == |DecMap(n).Keys|;
    forall i: nat | i < n ensures HoldsAt(HashObject(DecMap(n)), i) {
      DecMapValue(n, i);
    }
    if |m| == n && forall i: nat :: i < n ==> HoldsAt(HashObject(m), i) {
      forall i: nat | i < n ensures Dec(i) in m.Keys {
        assert HoldsAt(HashObject(m), i);
      }
      Pigeonhole(m.Keys, n);
      forall d | d in m ensures m[d] == DecMap(n)[d] {
        DecsOnly(n, d);
        var i: nat :| i < n && d == Dec(i);
        assert HoldsAt(HashObject(m), i) && HoldsAt(HashObject(DecMap(n)), i);
      }
    }
  }

  lemma SetExactly(s: set<Bytes>, n: nat)
    ensures (|s| == n && forall i: nat :: i < n ==> HoldsAt(SetObject(s), i)) <==> s == Decs(n)
  {
    DecsSize(n);
    if |s| == n && forall i: nat :: i < n ==> HoldsAt(SetObject(s), i) {
      forall i: nat | i < n ensures Dec(i) in s {
        assert HoldsAt(SetObject(s), i);
      }
      Pigeonhole(s, n);
    }
    forall i: nat ensures i < n ==> Dec(i) in Decs(n) {
      DecsHas(n, i);
    }
  }

  /** Only the score that is the ordinal prints as the ordinal. */
  lemma ScoreTextExactly(s: Score, i: nat)
    ensures ScoreText(s) == Dec(i) <==> s == Whole(i)
  {
    DigitsRoundTrip(i, 10);
    match s
    case Whole(n) =>
      if n >= 0 {
        if Digits(n, 10) == Dec(i) {
          DigitsInjective(n, i, 10);
        }
      } else {
        assert FormatInt(n)[0] == MINUS;
        assert DigitValue(Dec(i)[0], 10).Some?;
      }
    case Fractional(n, f) =>
      var text := FormatInt(n) + [POINT] + f;
      assert text[|FormatInt(n)|] == POINT;
      assert DigitValue(POINT, 10).None?;
  }

  lemma ZsetExactly(m: map<Bytes, Score>, n: nat)
    ensures (|m| == n && forall i: nat :: i < n ==> HoldsAt(ZsetObject(m), i)) <==> m == ScoreMap(n)
  {
    DecsSize(n);
    assert |m| == |m.Keys| && |ScoreMap(n)| == |ScoreMap(n).Keys|;
    forall i: nat | i < n ensures HoldsAt(ZsetObject(ScoreMap(n)), i) {
      ScoreMapValue(n, i);
    }
    if |m| == n && forall i: nat :: i < n ==> HoldsAt(ZsetObject(m), i) {
      forall i: nat | i < n ensures Dec(i) in m.Keys {
        assert HoldsAt(ZsetObject(m), i);
      }
      Pigeonhole(m.Keys, n);
      forall d | d in m ensures m[d] == ScoreMap(n)[d] {
        DecsOnly(n, d);
        var i: nat :| i < n && d == Dec(i);
        assert HoldsAt(ZsetObject(m), i) && HoldsAt(ZsetObject(ScoreMap(n)), i);
      }
    }
  }

  lemma ArrayHolds(c: map<nat, Bytes>, n: nat)
    requires ArrayLength(c.Keys) == n && forall i: nat :: i < n ==> HoldsAt(ArrayObject(c), i)
    ensures c == CellMap(n)
  {
    forall i: nat ensures i in c <==> i in CellMap(n) {
      assert i < n ==> HoldsAt(ArrayObject(c), i);
      assert i in c.Keys ==> i < n;
    }
    forall i: nat | i in c ensures c[i] == CellMap(n)[i] {
      assert HoldsAt(ArrayObject(c), i);
    }
  }

  lemma ArrayOf(n: nat)
    ensures ArrayLength(CellMap(n).Keys) == n && forall i: nat :: i < n ==> HoldsAt(ArrayObject(CellMap(n)), i)
  {
    assert forall i: nat :: i in CellMap(n).Keys <==> i < n;
  }

  lemma ArrayExactly(c: map<nat, Bytes>, n: nat)
    ensures (ArrayLength(c.Keys) == n && forall i: nat :: i < n ==> HoldsAt(ArrayObject(c), i)) <==> c == CellMap(n)
  {
    ArrayOf(n);
    if ArrayLength(c.Keys) == n && forall i: nat :: i < n ==> HoldsAt(ArrayObject(c), i) {
      ArrayHolds(c, n);
    }
  }

  lemma LookedExactly(o: Object, kind: Kind, i: nat)
    requires OfKind(o, kind) && i <= INT64_MAX
    ensures AnswerMatches(kind, Dec(i), Looked(o, Dec(i))) <==> HoldsAt(o, i)
  {
    TextRead(i);
    if o.ZsetObject? && Dec(i) in o.scores {
      ScoreTextExactly(o.scores[Dec(i)], i);
    }
  }

  lemma HoldsExactly(o: Object, kind: Kind, n: nat)
    requires kind != KString && OfKind(o, kind)
    ensures (Cardinality(o) == n && forall i: nat :: i < n ==> HoldsAt(o, i)) <==> o == Dataset(kind, n)
  {
    match o
    case HashObject(m) => HashExactly(m, n);
    case SetObject(s) => SetExactly(s, n);
    case ZsetObject(m) => ZsetExactly(m, n);
    case ListObject(l) => ListExactly(l, n);
    case ArrayObject(c) => ArrayExactly(c, n);
  }

  lemma ListExactly(l: seq<Bytes>, n: nat)
    ensures (|l| == n && forall i: nat :: i < n ==> HoldsAt(ListObject(l), i)) <==> ListObject(l) == Dataset(KList, n)
  {
    if |l| == n && forall i: nat :: i < n ==> HoldsAt(ListObject(l), i) {
      forall i: nat | i < n ensures l[i] == Dataset(KList, n).elements[i] {
        assert HoldsAt(ListObject(l), i);
      }
    }
  }

  predicate ReadMatches(server: Server, db: Db, prefix: Bytes, kind: Kind, i: nat) {
    AnswerMatches(kind, Dec(i), server(db, ReadOf(prefix, kind, i)).1)
  }

  lemma TallyMeans(server: Server, db: Db, prefix: Bytes, kind: Kind, n: nat)
    requires forall r: Request :: r.Read? ==> server(db, r).0 == db
    ensures Tally(kind, 0, Run(server, db, Reads(prefix, kind, 0, n)).answers) == Some(Verification(n, 0, 0))
            <==> forall i: nat :: i < n ==> ReadMatches(server, db, prefix, kind, i)
  {
    var requests := Reads(prefix, kind, 0, n);
    ReadsAt(prefix, kind, 0, n);
    ReadsAnswer(server, db, requests);
    TallyFull(kind, 0, Run(server, db, requests).answers);
    AnswersMean(server, db, prefix, kind, requests, Run(server, db, requests).answers);
  }

  lemma AnswersMean(server: Server, db: Db, prefix: Bytes, kind: Kind, requests: seq<Request>, answers: seq<Answer>)
    requires |requests| == |answers|
    requires forall i :: 0 <= i < |requests| ==> requests[i] == ReadOf(prefix, kind, i)
    requires forall i :: 0 <= i < |answers| ==> answers[i] == server(db, requests[i]).1
    ensures AllMatch(kind, 0, answers) <==> forall i: nat :: i < |answers| ==> ReadMatches(server, db, prefix, kind, i)
  {
    forall i: nat | i < |answers| ensures ReadMatches(server, db, prefix, kind, i) <==> AnswerMatches(kind, Dec(0 + i), answers[i]) {
    }
  }

  lemma ReadOfObject(db: Db, prefix: Bytes, kind: Kind, i: nat)
    requires i <= INT64_MAX && kind != KString
    ensures var o := Found(db, kind, CollectionKey(prefix, kind));
            ReadMatches(Serve, db, prefix, kind, i) <==> OfKind(o, kind) && HoldsAt(o, i)
  {
    var o := Found(db, kind, CollectionKey(prefix, kind));
    if OfKind(o, kind) {
      LookedExactly(o, kind, i);
    }
  }

  lemma ReadOfString(db: Db, prefix: Bytes, i: nat)
    ensures var key := StringKey(prefix, Dec(i));
            ReadMatches(Serve, db, prefix, KString, i) <==> key in db && db[key] == StringObject(Dec(i))
  {
  }

  /** The check passes exactly when the server holds exactly the dataset. */
  lemma VerifyExactly(db: Db, prefix: Bytes, kind: Kind, n: nat)
    requires n <= INT64_MAX
    ensures Passes(db, prefix, kind, n) <==> Exact(db, prefix, kind, n)
  {
    TallyMeans(Serve, db, prefix, kind, n);
    if kind == KString {
      StringsExactly(db, prefix, n);
    } else {
      CollectionExactly(db, prefix, kind, n);
    }
  }

  lemma StringsExactly(db: Db, prefix: Bytes, n: nat)
    ensures (forall i: nat :: i < n ==> ReadMatches(Serve, db, prefix, KString, i)) <==> Exact(db, prefix, KString, n)
  {
    forall i: nat ensures ReadMatches(Serve, db, prefix, KString, i)
                          <==> StringKey(prefix, Dec(i)) in db && db[StringKey(prefix, Dec(i))] == StringObject(Dec(i))
    {
      ReadOfString(db, prefix, i);
    }
  }

  lemma CollectionExactly(db: Db, prefix: Bytes, kind: Kind, n: nat)
    requires n <= INT64_MAX && kind != KString
    ensures (Serve(db, Count(kind, CollectionKey(prefix, kind))).1 == Replied(Integer(n))
             && forall i: nat :: i < n ==> ReadMatches(Serve, db, prefix, kind, i))
            <==> Found(db, kind, CollectionKey(prefix, kind)) == Dataset(kind, n)
  {
    var o := Found(db, kind, CollectionKey(prefix, kind));
    forall i: nat | i < n ensures ReadMatches(Serve, db, prefix, kind, i) <==> OfKind(o, kind) && HoldsAt(o, i) {
      ReadOfObject(db, prefix, kind, i);
    }
    CountOfObject(db, prefix, kind, n);
    if OfKind(o, kind) {
      HoldsExactly(o, kind, n);
    }
  }

  lemma ExactCount(db: Db, prefix: Bytes, kind: Kind, n: nat)
    requires n <= INT64_MAX && Exact(db, prefix, kind, n)
    ensures kind != KString ==> Serve(db, Count(kind, CollectionKey(prefix, kind))) == (db, Replied(Integer(n)))
  {
    if kind != KString {
      CollectionExactly(db, prefix, kind, n);
    }
  }

  lemma CountOfObject(db: Db, prefix: Bytes, kind: Kind, n: nat)
    ensures var o := Found(db, kind, CollectionKey(prefix, kind));
            Serve(db, Count(kind, CollectionKey(prefix, kind))).1 == Replied(Integer(n)) <==> OfKind(o, kind) && Cardinality(o) == n
  {
  }

  // ---- the client's batches ---------------------------------------------------------------------------

  lemma {:induction false} RunJoin(server: Server, db: Db, xs: seq<Request>, ys: seq<Request>)
    ensures var first := Run(server, db, xs);
            var second := Run(server, first.db, ys);
            Run(server, db, xs + ys) == Ran(second.db, first.answers + second.answers)
    decreases |ys|
  {
    if ys == [] {
      assert xs + ys == xs;
    } else {
      var front, last := ys[..|ys| - 1], ys[|ys| - 1];
      var first := Run(server, db, xs);
      var second := Run(server, first.db, front);
      RunJoin(server, db, xs, front);
      RunLast(server, db, xs + front, last);
      RunLast(server, first.db, front, last);
      assert front + [last] == ys && (xs + front) + [last] == xs + ys;
      var answer := server(second.db, last).1;
      assert (first.answers + second.answers) + [answer] == first.answers + (second.answers + [answer]);
    }
  }

  lemma {:induction false} WritesJoin(prefix: Bytes, kind: Kind, a: nat, b: nat, c: nat)
    requires a <= b <= c
    ensures Writes(prefix, kind, a, c) == Writes(prefix, kind, a, b) + Writes(prefix, kind, b, c)
    decreases c
  {
    if b < c {
      WritesJoin(prefix, kind, a, b, c - 1);
    }
  }

  lemma {:induction false} ReadsJoin(prefix: Bytes, kind: Kind, a: nat, b: nat, c: nat)
    requires a <= b <= c
    ensures Reads(prefix, kind, a, c) == Reads(prefix, kind, a, b) + Reads(prefix, kind, b, c)
    decreases c
  {
    if b < c {
      ReadsJoin(prefix, kind, a, b, c - 1);
    }
  }

  /** The answers to the writes of `[begin, at)` and of the next batch start the answers to them all. */
  lemma BatchOfWrites(server: Server, db: Db, prefix: Bytes, kind: Kind, begin: nat, at: nat, stop: nat, end: nat)
    requires begin <= at <= stop <= end
    ensures var before := Run(server, db, Writes(prefix, kind, begin, at));
            var batch := Run(server, before.db, Writes(prefix, kind, at, stop));
            && Run(server, db, Writes(prefix, kind, begin, stop)) == Ran(batch.db, before.answers + batch.answers)
            && before.answers + batch.answers <= Run(server, db, Writes(prefix, kind, begin, end)).answers
  {
    WritesJoin(prefix, kind, begin, at, stop);
    WritesJoin(prefix, kind, begin, stop, end);
    RunJoin(server, db, Writes(prefix, kind, begin, at), Writes(prefix, kind, at, stop));
    RunJoin(server, db, Writes(prefix, kind, begin, stop), Writes(prefix, kind, stop, end));
  }

  lemma AllExpectedStart(kind: Kind, begin: nat, at: nat, xs: seq<Answer>, ys: seq<Answer>, all: seq<Answer>)
    requires begin + |xs| == at && xs + ys <= all && AllExpected(kind, begin, xs)
    ensures AllExpected(kind, begin, xs + ys) <==> AllExpected(kind, at, ys)
    ensures AllExpected(kind, begin, all) ==> AllExpected(kind, at, ys)
  {
    assert forall i :: 0 <= i < |ys| ==> ys[i] == (xs + ys)[|xs| + i] == all[|xs| + i];
    assert forall i :: |xs| <= i < |xs + ys| ==> (xs + ys)[i] == ys[i - |xs|];
  }

  lemma {:induction false} TallyRefused(kind: Kind, begin: nat, seen: seq<Answer>, all: seq<Answer>)
    requires seen <= all && Tally(kind, begin, seen).None?
    ensures Tally(kind, begin, all).None?
    decreases |all|
  {
    if |seen| < |all| {
      TallyRefused(kind, begin, seen, all[..|all| - 1]);
    } else {
      assert seen == all;
    }
  }

  lemma BatchOfReads(server: Server, db: Db, prefix: Bytes, kind: Kind, begin: nat, at: nat, stop: nat, end: nat)
    requires begin <= at <= stop <= end
    ensures var before := Run(server, db, Reads(prefix, kind, begin, at));
            var batch := Run(server, before.db, Reads(prefix, kind, at, stop));
            && Run(server, db, Reads(prefix, kind, begin, stop)) == Ran(batch.db, before.answers + batch.answers)
            && before.answers + batch.answers <= Run(server, db, Reads(prefix, kind, begin, end)).answers
  {
    ReadsJoin(prefix, kind, begin, at, stop);
    ReadsJoin(prefix, kind, begin, stop, end);
    RunJoin(server, db, Reads(prefix, kind, begin, at), Reads(prefix, kind, at, stop));
    RunJoin(server, db, Reads(prefix, kind, begin, stop), Reads(prefix, kind, stop, end));
  }

  /** Where a run of reads over `[begin, at)` from `start` stands. */
  ghost predicate Tallied(server: Server, start: Db, prefix: Bytes, kind: Kind, begin: nat, at: nat, db: Db, v: Verification)
    requires begin <= at
  {
    var r := Run(server, start, Reads(prefix, kind, begin, at));
    db == r.db && Tally(kind, begin, r.answers) == Some(v)
  }

  lemma NothingTallied(server: Server, db: Db, prefix: Bytes, kind: Kind, begin: nat)
    ensures Tallied(server, db, prefix, kind, begin, begin, db, Verification(0, 0, 0))
  {
  }

  lemma TalliedStep(server: Server, start: Db, prefix: Bytes, kind: Kind, begin: nat, at: nat, stop: nat, end: nat, db: Db)
    requires begin <= at <= stop <= end && db == Run(server, start, Reads(prefix, kind, begin, at)).db
    ensures var seen := Run(server, start, Reads(prefix, kind, begin, at)).answers;
            var batch := Run(server, db, Reads(prefix, kind, at, stop));
            match Tally(kind, begin, seen + batch.answers)
            case Some(v) => Tallied(server, start, prefix, kind, begin, stop, batch.db, v)
            case None => Tally(kind, begin, Run(server, start, Reads(prefix, kind, begin, end)).answers).None?
  {
    BatchOfReads(server, start, prefix, kind, begin, at, stop, end);
    var seen := Run(server, start, Reads(prefix, kind, begin, at)).answers;
    var batch := Run(server, db, Reads(prefix, kind, at, stop));
    if Tally(kind, begin, seen + batch.answers).None? {
      TallyRefused(kind, begin, seen + batch.answers, Run(server, start, Reads(prefix, kind, begin, end)).answers);
    }
  }

  /** Where a run of writes over `[begin, at)` from `start` stands if every reply so far was the expected one. */
  ghost predicate Filled(server: Server, start: Db, prefix: Bytes, kind: Kind, begin: nat, at: nat, db: Db)
    requires begin <= at
  {
    var r := Run(server, start, Writes(prefix, kind, begin, at));
    db == r.db && AllExpected(kind, begin, r.answers)
  }

  lemma FilledStep(server: Server, start: Db, prefix: Bytes, kind: Kind, begin: nat, at: nat, stop: nat, end: nat, db: Db)
    requires begin <= at <= stop <= end && Filled(server, start, prefix, kind, begin, at, db)
    ensures var r := Run(server, db, Writes(prefix, kind, at, stop));
            if AllExpected(kind, at, r.answers) then Filled(server, start, prefix, kind, begin, stop, r.db)
            else !AllExpected(kind, begin, Run(server, start, Writes(prefix, kind, begin, end)).answers)
  {
    BatchOfWrites(server, start, prefix, kind, begin, at, stop, end);
    AllExpectedStart(kind, begin, at, Run(server, start, Writes(prefix, kind, begin, at)).answers,
                     Run(server, db, Writes(prefix, kind, at, stop)).answers,
                     Run(server, start, Writes(prefix, kind, begin, end)).answers);
  }

  // ---- the three phases -------------------------------------------------------------------------------

  lemma KeyLetters(prefix: Bytes, kind: Kind, key: Bytes)
    requires Touches(prefix, kind, key)
    ensures |key| > |prefix| + 2 && key[|prefix| + 1] == KindName(kind)[0] && key[|prefix| + 2] == KindName(kind)[1]
  {
  }

  /** Datasets of different kinds share no key, so work on one leaves the others exact. */
  lemma ExactKept(prefix: Bytes, kind: Kind, n: nat, worked: Kind, before: Db, after: Db)
    requires kind != worked && SameElsewhere(prefix, worked, before, after) && Exact(before, prefix, kind, n)
    ensures Exact(after, prefix, kind, n)
  {
    forall key | Touches(prefix, kind, key) ensures !Touches(prefix, worked, key) {
      KeyLetters(prefix, kind, key);
      if Touches(prefix, worked, key) {
        KeyLetters(prefix, worked, key);
      }
    }
    if kind == KString {
      forall i: nat | i < n ensures StringKey(prefix, Dec(i)) in after && after[StringKey(prefix, Dec(i))] == StringObject(Dec(i)) {
        assert Touches(prefix, kind, StringKey(prefix, Dec(i)));
      }
    } else {
      assert Touches(prefix, kind, CollectionKey(prefix, kind));
    }
  }

  ghost predicate AllExact(db: Db, prefix: Bytes, kinds: seq<Kind>, n: nat) {
    forall i :: 0 <= i < |kinds| ==> Exact(db, prefix, kinds[i], n)
  }

  /** Deleting one dataset makes it the empty one and keeps the others that were. */
  lemma Removed(before: Db, after: Db, prefix: Bytes, kinds: seq<Kind>, i: nat)
    requires i < |kinds| && Distinct(kinds) && AllExact(before, prefix, kinds[..i], 0)
    requires SameElsewhere(prefix, kinds[i], before, after)
    requires kinds[i] != KString ==> CollectionKey(prefix, kinds[i]) !in after
    ensures AllExact(after, prefix, kinds[..i + 1], 0)
  {
    forall j | 0 <= j < i ensures Exact(after, prefix, kinds[j], 0) {
      assert kinds[..i][j] == kinds[j];
      ExactKept(prefix, kinds[j], 0, kinds[i], before, after);
    }
    Nothing(after, prefix, kinds[i]);
  }

  lemma Nothing(db: Db, prefix: Bytes, kind: Kind)
    requires kind != KString ==> CollectionKey(prefix, kind) !in db
    ensures Exact(db, prefix, kind, 0)
  {
  }

  lemma AllKept(before: Db, after: Db, prefix: Bytes, kinds: seq<Kind>, i: nat, begin: nat, end: nat)
    requires i < |kinds| && Distinct(kinds) && SameElsewhere(prefix, kinds[i], before, after)
    requires AllExact(before, prefix, kinds[..i], end) && AllExact(before, prefix, kinds[i..], begin)
    requires Exact(after, prefix, kinds[i], end)
    ensures AllExact(after, prefix, kinds[..i + 1], end) && AllExact(after, prefix, kinds[i + 1..], begin)
  {
    forall j | 0 <= j < i ensures Exact(after, prefix, kinds[j], end) {
      assert kinds[..i][j] == kinds[j];
      ExactKept(prefix, kinds[j], end, kinds[i], before, after);
    }
    var rest := kinds[i + 1..];
    forall j | 0 <= j < |rest| ensures Exact(after, prefix, rest[j], begin) {
      assert kinds[i..][j + 1] == rest[j];
      ExactKept(prefix, rest[j], begin, kinds[i], before, after);
    }
  }

  /** What the read of ordinal `i` draws from a server that holds the first `m` only. */
  function TailReply(kind: Kind, m: nat, i: nat): Reply {
    if i < m then RightReply(kind, i) else if kind == KSet then Integer(0) else Nil
  }

  lemma TailLooked(kind: Kind, m: nat, i: nat)
    requires kind != KString && i <= INT64_MAX
    ensures Looked(Dataset(kind, m), Dec(i)) == Replied(TailReply(kind, m, i))
  {
    TextRead(i);
    DecsHas(m, i);
    if i < m {
      DecMapValue(m, i);
      ScoreMapValue(m, i);
    }
  }

  lemma TailRead(db: Db, prefix: Bytes, kind: Kind, m: nat, i: nat)
    requires Exact(db, prefix, kind, m) && i <= INT64_MAX
    requires kind == KString && m <= i ==> StringKey(prefix, Dec(i)) !in db
    ensures TailServed(Serve, db, prefix, kind, m, i)
  {
    if kind != KString {
      TailLooked(kind, m, i);
    }
  }

  function TailVerdict(kind: Kind, kept: nat, lost: nat): Verification {
    if kind == KSet then Verification(kept, 0, lost) else Verification(kept, lost, 0)
  }

  predicate TailAnswers(kind: Kind, m: nat, answers: seq<Answer>) {
    forall i :: 0 <= i < |answers| ==> answers[i] == Replied(TailReply(kind, m, i))
  }

  lemma {:induction false} TailTally(kind: Kind, m: nat, answers: seq<Answer>)
    requires TailAnswers(kind, m, answers)
    ensures Tally(kind, 0, answers)
            == Some(if |answers| < m then TailVerdict(kind, |answers|, 0) else TailVerdict(kind, m, |answers| - m))
    decreases |answers|
  {
    if answers != [] {
      TailTally(kind, m, answers[..|answers| - 1]);
    }
  }

  lemma TailNext(kind: Kind, m: nat, answers: seq<Answer>, answer: Answer)
    requires TailAnswers(kind, m, answers) && answer == Replied(TailReply(kind, m, |answers|))
    ensures TailAnswers(kind, m, answers + [answer])
  {
  }

  /** The read of `i` leaves the server as it is and draws that reply. */
  predicate TailServed(server: Server, db: Db, prefix: Bytes, kind: Kind, m: nat, i: nat) {
    server(db, ReadOf(prefix, kind, i)) == (db, Replied(TailReply(kind, m, i)))
  }

  lemma {:induction false} TailRun(server: Server, db: Db, prefix: Bytes, kind: Kind, m: nat, n: nat)
    requires forall i: nat :: i < n ==> TailServed(server, db, prefix, kind, m, i)
    ensures Run(server, db, Reads(prefix, kind, 0, n)).db == db
    ensures TailAnswers(kind, m, Run(server, db, Reads(prefix, kind, 0, n)).answers)
  {
    if n > 0 {
      var requests := Reads(prefix, kind, 0, n - 1);
      TailRun(server, db, prefix, kind, m, n - 1);
      assert TailServed(server, db, prefix, kind, m, n - 1);
      RunLast(server, db, requests, ReadOf(prefix, kind, n - 1));
      TailNext(kind, m, Run(server, db, requests).answers, Replied(TailReply(kind, m, n - 1)));
    }
  }

  lemma TailCounted(server: Server, db: Db, prefix: Bytes, kind: Kind, m: nat, n: nat, answers: seq<Answer>)
    requires m <= n && forall i: nat :: i < n ==> TailServed(server, db, prefix, kind, m, i)
    requires answers == Run(server, db, Reads(prefix, kind, 0, n)).answers
    ensures Tally(kind, 0, answers) == Some(TailVerdict(kind, m, n - m))
  {
    TailRun(server, db, prefix, kind, m, n);
    assert |answers| == n && TailAnswers(kind, m, answers);
    TailTally(kind, m, answers);
  }

  /** After a recovery that kept the first `m` ordinals and lost the others, the tally says so: `m` matched, the rest
      missing. A set answers 0 and not nil, so there the rest counts as mismatched. */
  lemma LostTailTallied(db: Db, prefix: Bytes, kind: Kind, m: nat, n: nat)
    requires Exact(db, prefix, kind, m) && m <= n <= INT64_MAX
    requires kind == KString ==> forall i: nat :: m <= i < n ==> StringKey(prefix, Dec(i)) !in db
    ensures Tally(kind, 0, Run(Serve, db, Reads(prefix, kind, 0, n)).answers)
            == Some(if kind == KSet then Verification(m, 0, n - m) else Verification(m, n - m, 0))
  {
    forall i: nat | i < n ensures TailServed(Serve, db, prefix, kind, m, i) {
      TailRead(db, prefix, kind, m, i);
    }
    TailCounted(Serve, db, prefix, kind, m, n, Run(Serve, db, Reads(prefix, kind, 0, n)).answers);
  }

  lemma ReadsStay(db: Db, prefix: Bytes, kind: Kind, n: nat)
    ensures Run(Serve, db, Reads(prefix, kind, 0, n)).db == db
  {
    ReadsAt(prefix, kind, 0, n);
    ReadsAnswer(Serve, db, Reads(prefix, kind, 0, n));
  }

  lemma DelStep(db: Db, keys: seq<Bytes>)
    ensures var (after, answer) := Serve(db, Del(keys));
            && answer.Replied? && answer.reply.Integer? && answer.reply.value == |db| - |after|
            && (forall key :: key in after <==> key in db && key !in keys)
            && (forall key :: key in after ==> after[key] == db[key])
  {
  }

  /** The connection: the server behind it and the answers not read yet. */
  class Session {
    const server: Server
    var db: Db
    var pending: seq<Answer>

    constructor (server: Server, db: Db)
      ensures this.server == server && this.db == db && pending == []
    {
      this.server, this.db, pending := server, db, [];
    }

    method SendAll(requests: seq<Request>)
      modifies this`db, this`pending
      ensures db == Run(server, old(db), requests).db
      ensures pending == old(pending) + Run(server, old(db), requests).answers
    {
      for i := 0 to |requests|
        invariant db == Run(server, old(db), requests[..i]).db
        invariant pending == old(pending) + Run(server, old(db), requests[..i]).answers
      {
        RunLast(server, old(db), requests[..i], requests[i]);
        assert requests[..i + 1] == requests[..i] + [requests[i]];
        var next := server(db, requests[i]);
        db, pending := next.0, pending + [next.1];
      }
      assert requests[..|requests|] == requests;
    }

    method ReadResponse() returns (answer: Answer)
      requires pending != []
      modifies this`pending
      ensures answer == old(pending)[0] && pending == old(pending)[1..]
    {
      answer := pending[0];
      pending := pending[1..];
    }

    method Command(request: Request) returns (answer: Answer)
      requires pending == []
      modifies this`db, this`pending
      ensures db == server(old(db), request).0 && answer == server(old(db), request).1 && pending == []
    {
      SendAll([request]);
      RunLast(server, old(db), [], request);
      assert [] + [request] == [request];
      assert pending == [server(old(db), request).1];
      answer := ReadResponse();
    }

    method WriteBatch(prefix: Bytes, kind: Kind, at: nat, stop: nat) returns (ok: bool)
      requires at <= stop && pending == []
      modifies this`db, this`pending
      ensures ok <==> AllExpected(kind, at, Run(server, old(db), Writes(prefix, kind, at, stop)).answers)
      ensures ok ==> db == Run(server, old(db), Writes(prefix, kind, at, stop)).db && pending == []
    {
      var output: seq<Request> := [];
      for ordinal := at to stop
        invariant output == Writes(prefix, kind, at, ordinal)
      {
        output := output + [WriteOf(prefix, kind, ordinal)];
      }
      SendAll(output);
      assert pending == Run(server, old(db), output).answers;
      ok := CheckReplies(kind, at, stop);
    }

    /** Read one reply for each ordinal and compare it with the expected one. */
    method CheckReplies(kind: Kind, at: nat, stop: nat) returns (ok: bool)
      requires at <= stop && |pending| == stop - at
      modifies this`pending
      ensures ok <==> AllExpected(kind, at, old(pending))
      ensures ok ==> pending == []
    {
      ghost var answers := pending;
      for ordinal := at to stop
        invariant pending == answers[ordinal - at..]
        invariant forall i :: 0 <= i < ordinal - at ==> answers[i] == Replied(ExpectedReply(kind, at + i))
      {
        var answer := ReadResponse();
        assert answer == answers[ordinal - at];
        if answer != Replied(ExpectedReply(kind, ordinal)) { return false; }
      }
      return true;
    }

    /** Write `[begin, end)` in batches: whatever the batch size, the outcome is that of writing them one by one. */
    method PopulateRange(prefix: Bytes, kind: Kind, begin: nat, end: nat, pipeline: nat) returns (ok: bool)
      requires begin <= end && pipeline > 0 && pending == []
      modifies this`db, this`pending
      ensures ok <==> AllExpected(kind, begin, Run(server, old(db), Writes(prefix, kind, begin, end)).answers)
      ensures ok ==> db == Run(server, old(db), Writes(prefix, kind, begin, end)).db && pending == []
    {
      ghost var start := db;
      var at := begin;
      while at < end
        invariant begin <= at <= end && pending == [] && Filled(server, start, prefix, kind, begin, at, db)
      {
        var stop: nat := if end < at + pipeline then end else at + pipeline;
        FilledStep(server, start, prefix, kind, begin, at, stop, end, db);
        ok := WriteBatch(prefix, kind, at, stop);
        if !ok { return false; }
        at := stop;
      }
      return true;
    }

    method ReadBatch(prefix: Bytes, kind: Kind, at: nat, stop: nat)
      requires at <= stop && pending == []
      modifies this`db, this`pending
      ensures db == Run(server, old(db), Reads(prefix, kind, at, stop)).db
      ensures pending == Run(server, old(db), Reads(prefix, kind, at, stop)).answers
    {
      var output: seq<Request> := [];
      for ordinal := at to stop
        invariant output == Reads(prefix, kind, at, ordinal)
      {
        output := output + [ReadOf(prefix, kind, ordinal)];
      }
      SendAll(output);
    }

    /** Read one reply for each ordinal and add it to the tally of those before. */
    method TallyReplies(kind: Kind, begin: nat, at: nat, stop: nat, ghost seen: seq<Answer>, before: Verification)
      returns (result: Option<Verification>)
      requires begin <= at <= stop && |pending| == stop - at && |seen| == at - begin
      requires Tally(kind, begin, seen) == Some(before)
      modifies this`pending
      ensures result == Tally(kind, begin, seen + old(pending))
      ensures result.Some? ==> pending == []
    {
      ghost var answers := pending;
      var v := before;
      assert seen + answers[..0] == seen;
      for ordinal := at to stop
        invariant pending == answers[ordinal - at..]
        invariant Tally(kind, begin, seen + answers[..ordinal - at]) == Some(v)
      {
        ghost var done := seen + answers[..ordinal - at];
        var answer := ReadResponse();
        TallyNext(kind, begin, done, answer);
        assert done + [answer] == seen + answers[..ordinal - at + 1];
        if Unreadable(answer) {
          TallyRefused(kind, begin, done + [answer], seen + answers);
          return None;
        }
        v := Judged(kind, Dec(ordinal), answer.reply, v);
      }
      assert answers[..stop - at] == answers;
      return Some(v);
    }

    method VerifyBatch(prefix: Bytes, kind: Kind, begin: nat, at: nat, stop: nat, v: Verification, ghost start: Db, ghost end: nat)
      returns (result: Option<Verification>)
      requires begin <= at <= stop <= end && pending == [] && Tallied(server, start, prefix, kind, begin, at, db, v)
      modifies this`db, this`pending
      ensures result.Some? ==> pending == [] && Tallied(server, start, prefix, kind, begin, stop, db, result.value)
      ensures result.None? ==> Tally(kind, begin, Run(server, start, Reads(prefix, kind, begin, end)).answers).None?
    {
      TalliedStep(server, start, prefix, kind, begin, at, stop, end, db);
      ghost var seen := Run(server, start, Reads(prefix, kind, begin, at)).answers;
      ReadBatch(prefix, kind, at, stop);
      result := TallyReplies(kind, begin, at, stop, seen, v);
    }

    /** Read `[begin, end)` in batches: whatever the batch size, the result is the tally of all the answers. */
    method VerifyRange(prefix: Bytes, kind: Kind, begin: nat, end: nat, pipeline: nat) returns (result: Option<Verification>)
      requires begin <= end && pipeline > 0 && pending == []
      modifies this`db, this`pending
      ensures result == Tally(kind, begin, Run(server, old(db), Reads(prefix, kind, begin, end)).answers)
      ensures result.Some? ==> db == Run(server, old(db), Reads(prefix, kind, begin, end)).db && pending == []
    {
      result := VerifyBatches(prefix, kind, begin, end, pipeline);
    }

    method VerifyBatches(prefix: Bytes, kind: Kind, begin: nat, end: nat, pipeline: nat) returns (result: Option<Verification>)
      requires begin <= end && pipeline > 0 && pending == []
      modifies this`db, this`pending
      ensures result.Some? ==> pending == [] && Tallied(server, old(db), prefix, kind, begin, end, db, result.value)
      ensures result.None? ==> Tally(kind, begin, Run(server, old(db), Reads(prefix, kind, begin, end)).answers).None?
    {
      ghost var start := db;
      var v, at := Verification(0, 0, 0), begin;
      NothingTallied(server, db, prefix, kind, begin);
      while at < end
        invariant begin <= at <= end && pending == [] && Tallied(server, start, prefix, kind, begin, at, db, v)
      {
        var stop: nat := if end < at + pipeline then end else at + pipeline;
        result := VerifyBatch(prefix, kind, begin, at, stop, v, start, end);
        if result.None? { return; }
        v, at := result.value, stop;
      }
      return Some(v);
    }

    method RequireCardinality(prefix: Bytes, kind: Kind, expected: nat) returns (ok: bool)
      requires pending == []
      modifies this`db, this`pending
      ensures pending == []
      ensures kind == KString ==> ok && db == old(db)
      ensures kind != KString ==>
                var r := server(old(db), Count(kind, CollectionKey(prefix, kind)));
                db == r.0 && (ok <==> r.1 == Replied(Integer(expected)))
    {
      if kind == KString { return true; }
      var answer := Command(Count(kind, CollectionKey(prefix, kind)));
      return answer == Replied(Integer(expected));
    }

    /** Delete a dataset: nothing of it is left, nothing else is touched, and the total is what disappeared. */
    method RemoveDataset(prefix: Bytes, kind: Kind, count: nat, batch: nat) returns (removed: int)
      requires server == Serve && batch > 0 && pending == []
      modifies this`db, this`pending
      ensures pending == [] && removed == |old(db)| - |db| && SameElsewhere(prefix, kind, old(db), db)
      ensures if kind == KString then forall i: nat :: i < count ==> StringKey(prefix, Dec(i)) !in db
              else CollectionKey(prefix, kind) !in db
    {
      if kind != KString {
        DelStep(db, [CollectionKey(prefix, kind)]);
        var answer := Command(Del([CollectionKey(prefix, kind)]));
        return answer.reply.value;
      }
      removed := 0;
      var begin := 0;
      while begin < count
        invariant 0 <= begin <= count && pending == [] && removed == |old(db)| - |db|
        invariant SameElsewhere(prefix, kind, old(db), db)
        invariant forall i: nat :: i < begin ==> StringKey(prefix, Dec(i)) !in db
      {
        var end := if count < begin + batch then count else begin + batch;
        var keys := StringKeys(prefix, begin, end);
        DelStep(db, keys);
        var answer := Command(Del(keys));
        removed := removed + answer.reply.value;
        begin := end;
      }
    }

    method StringKeys(prefix: Bytes, begin: nat, end: nat) returns (keys: seq<Bytes>)
      requires begin <= end
      ensures |keys| == end - begin && forall i: nat :: begin <= i < end ==> keys[i - begin] == StringKey(prefix, Dec(i))
      ensures forall key :: key in keys ==> Touches(prefix, KString, key)
    {
      keys := [];
      for ordinal := begin to end
        invariant |keys| == ordinal - begin
        invariant forall i: nat :: begin <= i < ordinal ==> keys[i - begin] == StringKey(prefix, Dec(i))
        invariant forall key :: key in keys ==> Touches(prefix, KString, key)
      {
        keys := keys + [StringKey(prefix, Dec(ordinal))];
      }
    }

    /** Populating on top of an exact dataset always succeeds, passes the cardinality check and is exact again. */
    method Fill(prefix: Bytes, kind: Kind, begin: nat, end: nat, pipeline: nat) returns (ok: bool)
      requires server == Serve && pipeline > 0 && pending == []
      requires begin <= end <= INT64_MAX && Exact(db, prefix, kind, begin)
      modifies this`db, this`pending
      ensures ok && pending == [] && Exact(db, prefix, kind, end) && SameElsewhere(prefix, kind, old(db), db)
    {
      PopulateExact(db, prefix, kind, begin, end);
      ok := PopulateRange(prefix, kind, begin, end, pipeline);
      ExactCount(db, prefix, kind, end);
      ok := RequireCardinality(prefix, kind, end);
    }

    /** The reads and the cardinality accept exactly the exact dataset. */
    method Check(prefix: Bytes, kind: Kind, n: nat, pipeline: nat) returns (ok: bool)
      requires server == Serve && pipeline > 0 && pending == [] && n <= INT64_MAX
      modifies this`db, this`pending
      ensures ok <==> Exact(old(db), prefix, kind, n)
      ensures ok ==> db == old(db) && pending == []
    {
      VerifyExactly(db, prefix, kind, n);
      ok := RequireCardinality(prefix, kind, n);
      if !ok { return; }
      assert db == old(db);
      ReadsStay(db, prefix, kind, n);
      var result := VerifyRange(prefix, kind, 0, n, pipeline);
      ok := result == Some(Verification(n, 0, 0));
    }

    /** From any state whatever, preparing never fails and leaves every selected dataset exact at the snapshot size. */
    method Prepare(kinds: seq<Kind>, prefix: Bytes, snapshotAt: nat, count: nat, pipeline: nat) returns (ok: bool)
      requires server == Serve && pipeline > 0 && pending == [] && Distinct(kinds) && snapshotAt <= count <= INT64_MAX
      modifies this`db, this`pending
      ensures ok && pending == [] && AllExact(db, prefix, kinds, snapshotAt)
    {
      for i := 0 to |kinds|
        invariant pending == [] && AllExact(db, prefix, kinds[..i], 0)
      {
        ghost var before := db;
        var removed := RemoveDataset(prefix, kinds[i], count, pipeline);
        Removed(before, db, prefix, kinds, i);
      }
      assert kinds[..|kinds|] == kinds;
      ok := FillAll(kinds, prefix, 0, snapshotAt, pipeline);
    }

    method FillAll(kinds: seq<Kind>, prefix: Bytes, begin: nat, end: nat, pipeline: nat) returns (ok: bool)
      requires server == Serve && pipeline > 0 && pending == [] && Distinct(kinds) && begin <= end <= INT64_MAX
      requires AllExact(db, prefix, kinds, begin)
      modifies this`db, this`pending
      ensures ok && pending == [] && AllExact(db, prefix, kinds, end)
    {
      for i := 0 to |kinds|
        invariant pending == []
        invariant AllExact(db, prefix, kinds[..i], end) && AllExact(db, prefix, kinds[i..], begin)
      {
        ghost var before := db;
        assert kinds[i..][0] == kinds[i];
        ok := Fill(prefix, kinds[i], begin, end, pipeline);
        AllKept(before, db, prefix, kinds, i, begin, end);
      }
      assert kinds[..|kinds|] == kinds;
      return true;
    }

    /** After a restart into any state: continuing accepts exactly the states that hold every selected dataset at the
        snapshot size, and then always succeeds in completing them. */
    method ContinueAfterRecovery(kinds: seq<Kind>, prefix: Bytes, snapshotAt: nat, count: nat, pipeline: nat)
      returns (ok: bool)
      requires server == Serve && pipeline > 0 && pending == [] && Distinct(kinds) && snapshotAt <= count <= INT64_MAX
      modifies this`db, this`pending
      ensures ok <==> AllExact(old(db), prefix, kinds, snapshotAt)
      ensures ok ==> pending == [] && AllExact(db, prefix, kinds, count)
    {
      ok := VerifyAll(kinds, prefix, snapshotAt, pipeline);
      if ok {
        ok := FillAll(kinds, prefix, snapshotAt, count, pipeline);
      }
    }

    /** The final verdict is positive exactly on the states that hold every selected dataset. */
    method VerifyAll(kinds: seq<Kind>, prefix: Bytes, count: nat, pipeline: nat) returns (ok: bool)
      requires server == Serve && pipeline > 0 && pending == [] && count <= INT64_MAX
      modifies this`db, this`pending
      ensures ok <==> AllExact(old(db), prefix, kinds, count)
      ensures ok ==> db == old(db) && pending == []
    {
      for i := 0 to |kinds|
        invariant pending == [] && db == old(db)
        invariant forall j :: 0 <= j < i ==> Exact(old(db), prefix, kinds[j], count)
      {
        ok := Check(prefix, kinds[i], count, pipeline);
        if !ok { return; }
      }
      return true;
    }
  }
}
