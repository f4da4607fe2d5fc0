/** The set workload of benchmarks/collection_benchmark_worker.cpp: commands computed from an ordinal, sent in pipelined
    batches, and a 64-bit checksum over the replies. */
module Churn {
  import opened Collections
  import opened Decimal
  import opened Tokens

  const TWO64: nat := 0x1_0000_0000_0000_0000

  // ---- the server's set -------------------------------------------------------------------------------

  datatype Command =
    | SAdd(tokens: seq<Bytes>)
    | SRem(token: Bytes)
    | SIsMember(token: Bytes)
    | SMIsMember(tokens: seq<Bytes>)
    | SCard

  datatype Reply = Integer(value: nat) | Items(values: seq<nat>)

  function AsSet(tokens: seq<Bytes>): set<Bytes> {
    if tokens == [] then {} else AsSet(tokens[..|tokens| - 1]) + {tokens[|tokens| - 1]}
  }

  function After(s: set<Bytes>, c: Command): set<Bytes> {
    match c
    case SAdd(tokens) => s + AsSet(tokens)
    case SRem(token) => s - {token}
    case _ => s
  }

  function Answer(s: set<Bytes>, c: Command): Reply {
    match c
    case SAdd(tokens) => Integer(|AsSet(tokens) - s|)
    case SRem(token) => Integer(if token in s then 1 else 0)
    case SIsMember(token) => Integer(if token in s then 1 else 0)
    case SMIsMember(tokens) => Items(seq(|tokens|, i requires 0 <= i < |tokens| => if tokens[i] in s then 1 else 0))
    case SCard => Integer(|s|)
  }

  function Sum(values: seq<nat>): nat {
    if values == [] then 0 else Sum(values[..|values| - 1]) + values[|values| - 1] + 17
  }

  function ReplyChecksum(r: Reply): nat {
    match r
    case Integer(n) => n + 17
    case Items(values) => |values| + 47 + Sum(values)
  }

  // ---- one command after another ----------------------------------------------------------------------

  /** A server fed by ordinals: what command number `i` does to the set and what it answers. */
  datatype Machine = Machine(after: (set<Bytes>, nat) -> set<Bytes>, answer: (set<Bytes>, nat) -> Reply)

  /** The set after the first `n` commands. */
  function Reached(m: Machine, start: set<Bytes>, n: nat): set<Bytes> {
    if n == 0 then start else m.after(Reached(m, start, n - 1), n - 1)
  }

  /** The reply to command `i`. */
  function ReplyAt(m: Machine, start: set<Bytes>, i: nat): Reply { m.answer(Reached(m, start, i), i) }

  /** The checksums of the first `n` replies, added up without any bound. */
  function Checksum(m: Machine, start: set<Bytes>, n: nat): nat {
    if n == 0 then 0 else Checksum(m, start, n - 1) + ReplyChecksum(ReplyAt(m, start, n - 1))
  }

  /** The same sum kept in an unsigned 64-bit variable. */
  function Wrapped(m: Machine, start: set<Bytes>, n: nat): nat {
    if n == 0 then 0 else AddWrap(Wrapped(m, start, n - 1), ReplyChecksum(ReplyAt(m, start, n - 1)))
  }

  function AddWrap(a: nat, b: nat): nat { (a + b) % TWO64 }

  lemma WrapAdd(a: nat, b: nat)
    ensures AddWrap(a % TWO64, b) == (a + b) % TWO64
  {
  }

  lemma {:induction false} WrappedExactly(m: Machine, start: set<Bytes>, n: nat)
    ensures Wrapped(m, start, n) == Checksum(m, start, n) % TWO64
  {
    if n > 0 {
      WrappedExactly(m, start, n - 1);
      WrapAdd(Checksum(m, start, n - 1), ReplyChecksum(ReplyAt(m, start, n - 1)));
    }
  }

  // ---- the pipelined client ---------------------------------------------------------------------------

  class Worker {
    const server: Machine
    var members: set<Bytes>
    var pending: seq<Reply>

    constructor (server: Machine, start: set<Bytes>)
      ensures this.server == server && members == start && pending == []
    {
      this.server, members, pending := server, start, [];
    }

    method ReadResponse() returns (r: Reply)
      requires pending != []
      modifies this`pending
      ensures r == old(pending)[0] && pending == old(pending)[1..]
    {
      r := pending[0];
      pending := pending[1..];
    }

    method SendBatch(ghost start: set<Bytes>, begin: nat, commands: nat)
      requires members == Reached(server, start, begin) && pending == []
      modifies this`members, this`pending
      ensures members == Reached(server, start, begin + commands) && |pending| == commands
      ensures forall i :: 0 <= i < commands ==> pending[i] == ReplyAt(server, start, begin + i)
    {
      for offset := 0 to commands
        invariant members == Reached(server, start, begin + offset) && |pending| == offset
        invariant forall i :: 0 <= i < offset ==> pending[i] == ReplyAt(server, start, begin + i)
      {
        pending := pending + [server.answer(members, begin + offset)];
        members := server.after(members, begin + offset);
      }
    }

    method ReadBatch(ghost start: set<Bytes>, begin: nat, commands: nat, before: nat) returns (checksum: nat)
      requires |pending| == commands && before == Wrapped(server, start, begin)
      requires forall i :: 0 <= i < commands ==> pending[i] == ReplyAt(server, start, begin + i)
      modifies this`pending
      ensures pending == [] && checksum == Wrapped(server, start, begin + commands)
    {
      ghost var replies := pending;
      checksum := before;
      for offset := 0 to commands
        invariant pending == replies[offset..] && checksum == Wrapped(server, start, begin + offset)
      {
        var r := ReadResponse();
        assert r == ReplyAt(server, start, begin + offset);
        checksum := AddWrap(checksum, ReplyChecksum(r));
      }
    }

    /** Whatever the depth, the set ends where the commands sent one by one would leave it, and the checksum is the
        unbounded sum over the replies they would draw, modulo 2^64. */
    method Pipeline(count: nat, depth: nat) returns (checksum: nat)
      requires depth > 0 && pending == []
      modifies this`members, this`pending
      ensures pending == [] && members == Reached(server, old(members), count)
      ensures checksum == Checksum(server, old(members), count) % TWO64
    {
      checksum := 0;
      var begin := 0;
      while begin < count
        invariant 0 <= begin <= count && pending == [] && members == Reached(server, old(members), begin)
        invariant checksum == Wrapped(server, old(members), begin)
      {
        var commands := if depth < count - begin then depth else count - begin;
        SendBatch(old(members), begin, commands);
        checksum := ReadBatch(old(members), begin, commands, checksum);
        begin := begin + commands;
      }
      WrappedExactly(server, old(members), count);
    }
  }

  // ---- what the actions send --------------------------------------------------------------------------

  datatype Config = Config(members: nat, batch: nat, requests: nat)

  predicate ValidConfig(c: Config) { c.members > 0 && c.batch > 0 && c.requests > 0 }

  datatype Action = Load | MemberHit | MemberMiss | MultiMember | Card | Churn

  type Naming = nat -> Bytes

  function Min(a: int, b: int): int { if a < b then a else b }

  /** The tokens of `[begin, end)`, in order. */
  function TokensOf(token: Naming, begin: nat, end: nat): (ts: seq<Bytes>)
    requires begin <= end
    ensures |ts| == end - begin && forall i :: 0 <= i < end - begin ==> ts[i] == token(begin + i)
  {
    seq(end - begin, i requires 0 <= i < end - begin => token(begin + i))
  }

  /** `token` names the members, `stranger` the names that were never loaded. */
  function CommandAt(action: Action, c: Config, token: Naming, stranger: Naming, ordinal: nat): Command
    requires ValidConfig(c)
  {
    match action
    case Load =>
      var begin := ordinal * c.batch;
      if begin >= c.members then SAdd([]) else SAdd(TokensOf(token, begin, begin + Min(c.batch, c.members - begin)))
    case MemberHit => SIsMember(token(ordinal % c.members))
    case MemberMiss => SIsMember(stranger(c.members + ordinal % c.members))
    case MultiMember =>
      var m := ordinal % c.members;
      SMIsMember([token(m), token((m + 1) % c.members), token((m + 2) % c.members), token((m + 3) % c.members)])
    case Card => SCard
    case Churn =>
      var t := token(ordinal / 2 % c.members);
      if ordinal % 2 == 0 then SRem(t) else SAdd([t])
  }

  function CommandCount(action: Action, c: Config): nat
    requires ValidConfig(c)
  {
    match action
    case Load => (c.members + c.batch - 1) / c.batch
    case Churn => c.requests * 2
    case _ => c.requests
  }

  lemma ProbeNames(c: Config, token: Naming, stranger: Naming, ordinal: nat, t: nat)
    requires ValidConfig(c) && ordinal % c.members == t
    ensures CommandAt(MemberHit, c, token, stranger, ordinal) == SIsMember(token(t))
    ensures CommandAt(MemberMiss, c, token, stranger, ordinal) == SIsMember(stranger(c.members + t))
    ensures CommandAt(MultiMember, c, token, stranger, ordinal)
            == SMIsMember([token(t), token((t + 1) % c.members), token((t + 2) % c.members), token((t + 3) % c.members)])
  {
  }

  /** Probe `t` of every pass over the members: the hit names member `t`, the miss the stranger of that number, and the
      multi-member probe four members from `t` on, around the end. So each pass names every member once. */
  lemma PassProbes(c: Config, token: Naming, stranger: Naming, pass: nat, t: nat)
    requires ValidConfig(c) && t < c.members
    ensures var ordinal := pass * c.members + t;
      && CommandAt(MemberHit, c, token, stranger, ordinal) == SIsMember(token(t))
      && CommandAt(MemberMiss, c, token, stranger, ordinal) == SIsMember(stranger(c.members + t))
      && (t + 3 < c.members ==>
            CommandAt(MultiMember, c, token, stranger, ordinal) == SMIsMember([token(t), token(t + 1), token(t + 2), token(t + 3)]))
  {
    Remainder(pass, t, c.members);
    ProbeNames(c, token, stranger, pass * c.members + t, t);
    if t + 3 < c.members {
      Remainder(0, t + 1, c.members);
      Remainder(0, t + 2, c.members);
      Remainder(0, t + 3, c.members);
    }
  }

  /** The loaded set. */
  function Loaded(token: Naming, n: nat): set<Bytes> { if n == 0 then {} else Loaded(token, n - 1) + {token(n - 1)} }

  lemma {:induction false} LoadedHas(token: Naming, n: nat, i: nat)
    requires i < n
    ensures token(i) in Loaded(token, n)
  {
    if i < n - 1 {
      LoadedHas(token, n - 1, i);
    }
  }

  /** The server when it is fed the commands of one action. */
  function Fed(action: Action, c: Config, token: Naming, stranger: Naming): Machine
    requires ValidConfig(c)
  {
    Machine((s: set<Bytes>, i: nat) => After(s, CommandAt(action, c, token, stranger, i)),
            (s: set<Bytes>, i: nat) => Answer(s, CommandAt(action, c, token, stranger, i)))
  }

  /** The first `n` commands take the set from `start` to `end` and their replies add up to `total`. */
  ghost predicate Leads(m: Machine, n: nat, start: set<Bytes>, end: set<Bytes>, total: nat) {
    Reached(m, start, n) == end && Checksum(m, start, n) == total
  }

  /** The whole action does. */
  ghost predicate Predicts(action: Action, c: Config, token: Naming, stranger: Naming, start: set<Bytes>, end: set<Bytes>, total: nat)
    requires ValidConfig(c)
  {
    Leads(Fed(action, c, token, stranger), CommandCount(action, c), start, end, total)
  }

  // ---- churn restores the set -------------------------------------------------------------------------

  /** Commands `2 * i` and `2 * i + 1` undo each other and answer 1 each. */
  ghost predicate Undoes(m: Machine, start: set<Bytes>, i: nat) {
    && m.after(m.after(start, 2 * i), 2 * i + 1) == start
    && m.answer(start, 2 * i) == Integer(1)
    && m.answer(m.after(start, 2 * i), 2 * i + 1) == Integer(1)
  }

  ghost predicate AlwaysUndoes(m: Machine, start: set<Bytes>) { forall i: nat :: Undoes(m, start, i) }

  lemma {:induction false} PairsRestore(m: Machine, start: set<Bytes>, pairs: nat)
    requires AlwaysUndoes(m, start)
    ensures Leads(m, 2 * pairs, start, start, 36 * pairs)
  {
    if pairs > 0 {
      var i := pairs - 1;
      PairsRestore(m, start, i);
      assert Undoes(m, start, i);
      assert Reached(m, start, 2 * i + 1) == m.after(start, 2 * i);
      assert Reached(m, start, 2 * i + 2) == start;
      assert Checksum(m, start, 2 * i + 1) == Checksum(m, start, 2 * i) + 18;
    }
  }

  lemma PairUndone(start: set<Bytes>, t: Bytes)
    requires t in start
    ensures After(After(start, SRem(t)), SAdd([t])) == start
    ensures Answer(start, SRem(t)) == Integer(1) && Answer(After(start, SRem(t)), SAdd([t])) == Integer(1)
  {
    assert AsSet([t]) == {t};
    assert start - {t} + {t} == start;
    assert {t} - (start - {t}) == {t};
  }

  lemma ChurnCommands(c: Config, token: Naming, stranger: Naming, i: nat)
    requires ValidConfig(c)
    ensures CommandAt(Churn, c, token, stranger, 2 * i) == SRem(token(i % c.members))
    ensures CommandAt(Churn, c, token, stranger, 2 * i + 1) == SAdd([token(i % c.members)])
  {
  }

  lemma ChurnUndoes(c: Config, token: Naming, stranger: Naming, start: set<Bytes>, i: nat)
    requires ValidConfig(c) && token(i % c.members) in start
    ensures Undoes(Fed(Churn, c, token, stranger), start, i)
  {
    ChurnCommands(c, token, stranger, i);
    PairUndone(start, token(i % c.members));
  }

  /** Churn ends on the set it started from, having drawn a 1 for every command, for any number of requests. */
  lemma ChurnRestores(c: Config, token: Naming, stranger: Naming, start: set<Bytes>)
    requires ValidConfig(c) && forall i: nat :: i < c.members ==> token(i) in start
    ensures Predicts(Churn, c, token, stranger, start, start, 36 * c.requests)
  {
    ChurnAlwaysUndoes(c, token, stranger, start);
    PairsLead(Fed(Churn, c, token, stranger), start, c.requests, CommandCount(Churn, c), 36 * c.requests);
  }

  lemma PairsLead(m: Machine, start: set<Bytes>, pairs: nat, n: nat, total: nat)
    requires AlwaysUndoes(m, start) && n == 2 * pairs && total == 36 * pairs
    ensures Leads(m, n, start, start, total)
  {
    PairsRestore(m, start, pairs);
  }

  lemma ChurnAlwaysUndoes(c: Config, token: Naming, stranger: Naming, start: set<Bytes>)
    requires ValidConfig(c) && forall i: nat :: i < c.members ==> token(i) in start
    ensures AlwaysUndoes(Fed(Churn, c, token, stranger), start)
  {
    forall i: nat ensures Undoes(Fed(Churn, c, token, stranger), start, i) {
      var turn := i % c.members;
      assert token(turn) in start;
      ChurnUndoes(c, token, stranger, start, i);
    }
  }

  // ---- loading sends every token once -----------------------------------------------------------------

  /** How many members the first `k` load commands have covered. */
  function LoadEnd(c: Config, k: nat): nat { Min(k * c.batch, c.members) }

  lemma LoadCommand(c: Config, token: Naming, stranger: Naming, k: nat)
    requires ValidConfig(c)
    ensures LoadEnd(c, k) <= LoadEnd(c, k + 1)
    ensures CommandAt(Load, c, token, stranger, k) == SAdd(TokensOf(token, LoadEnd(c, k), LoadEnd(c, k + 1)))
  {
  }

  lemma LoadCovers(c: Config)
    requires ValidConfig(c)
    ensures LoadEnd(c, CommandCount(Load, c)) == c.members
  {
  }

  /** The arguments of the first `k` load commands, in the order they are sent. */
  function Sent(c: Config, token: Naming, stranger: Naming, k: nat): seq<Bytes>
    requires ValidConfig(c)
  {
    if k == 0 then [] else Sent(c, token, stranger, k - 1) + CommandAt(Load, c, token, stranger, k - 1).tokens
  }

  lemma {:induction false} SentSoFar(c: Config, token: Naming, stranger: Naming, k: nat)
    requires ValidConfig(c)
    ensures Sent(c, token, stranger, k) == TokensOf(token, 0, LoadEnd(c, k))
  {
    if k > 0 {
      SentSoFar(c, token, stranger, k - 1);
      LoadCommand(c, token, stranger, k - 1);
      TokensJoin(token, LoadEnd(c, k - 1), LoadEnd(c, k));
    } else {
      assert LoadEnd(c, 0) == 0;
    }
  }

  lemma TokensJoin(token: Naming, a: nat, b: nat)
    requires a <= b
    ensures TokensOf(token, 0, a) + TokensOf(token, a, b) == TokensOf(token, 0, b)
  {
  }

  /** No load command is empty and none is longer than a batch. */
  lemma LoadBatches(c: Config, token: Naming, stranger: Naming, ordinal: nat)
    requires ValidConfig(c) && ordinal < CommandCount(Load, c)
    ensures 0 < |CommandAt(Load, c, token, stranger, ordinal).tokens| <= c.batch
  {
    var count := CommandCount(Load, c);
    Scale(ordinal + 1, count, c.batch);
    assert count * c.batch <= c.members + c.batch - 1;
  }

  /** For every batch size, loading sends each of the members exactly once, in order. */
  lemma LoadSendsEachOnce(c: Config, token: Naming, stranger: Naming)
    requires ValidConfig(c)
    ensures Sent(c, token, stranger, CommandCount(Load, c)) == TokensOf(token, 0, c.members)
  {
    SentSoFar(c, token, stranger, CommandCount(Load, c));
    LoadCovers(c);
  }

  lemma AsSetLast(ts: seq<Bytes>, t: Bytes)
    ensures AsSet(ts + [t]) == AsSet(ts) + {t}
  {
  }

  lemma TokensNext(token: Naming, a: nat, b: nat)
    requires a <= b
    ensures AsSet(TokensOf(token, a, b + 1)) == AsSet(TokensOf(token, a, b)) + {token(b)}
  {
    assert TokensOf(token, a, b + 1) == TokensOf(token, a, b) + [token(b)];
    AsSetLast(TokensOf(token, a, b), token(b));
  }

  /** The first `n` tokens are different from one another. */
  predicate Different(token: Naming, n: nat) { n == 0 || (token(n - 1) !in Loaded(token, n - 1) && Different(token, n - 1)) }

  lemma {:induction false} DifferentBelow(token: Naming, m: nat, n: nat)
    requires m <= n && Different(token, n)
    ensures Different(token, m)
  {
    if m < n {
      DifferentBelow(token, m, n - 1);
    }
  }

  /** The tokens of `[a, b)` as a set. */
  function Stretch(token: Naming, a: nat, b: nat): set<Bytes>
    requires a <= b
  {
    if a == b then {} else Stretch(token, a, b - 1) + {token(b - 1)}
  }

  lemma {:induction false} StretchIs(token: Naming, a: nat, b: nat)
    requires a <= b
    ensures AsSet(TokensOf(token, a, b)) == Stretch(token, a, b)
    decreases b
  {
    if a < b {
      StretchIs(token, a, b - 1);
      TokensNext(token, a, b - 1);
    }
  }

  lemma {:induction false} StretchJoins(token: Naming, a: nat, b: nat)
    requires a <= b
    ensures Loaded(token, a) + Stretch(token, a, b) == Loaded(token, b)
    decreases b
  {
    if a < b {
      StretchJoins(token, a, b - 1);
    }
  }

  lemma {:induction false} StretchNew(token: Naming, a: nat, b: nat)
    requires a <= b && Different(token, b)
    ensures Stretch(token, a, b) - Loaded(token, a) == Stretch(token, a, b)
    ensures |Stretch(token, a, b)| == b - a
    decreases b
  {
    if a < b {
      StretchNew(token, a, b - 1);
      StretchJoins(token, a, b - 1);
      OneNew(Loaded(token, a), Stretch(token, a, b - 1), token(b - 1));
    }
  }

  lemma OneNew(before: set<Bytes>, s: set<Bytes>, t: Bytes)
    requires s - before == s && t !in before + s
    ensures s + {t} - before == s + {t} && |s + {t}| == |s| + 1
  {
  }

  /** Command `i` takes the loaded set from `a` members to `b` and says so. */
  ghost predicate Adds(m: Machine, token: Naming, i: nat, a: nat, b: nat) {
    a <= b && m.after(Loaded(token, a), i) == Loaded(token, b) && m.answer(Loaded(token, a), i) == Integer(b - a)
  }

  lemma {:induction false} LoadBy(m: Machine, token: Naming, end: nat -> nat, k: nat)
    requires end(0) == 0 && forall i: nat :: Adds(m, token, i, end(i), end(i + 1))
    ensures Reached(m, {}, k) == Loaded(token, end(k)) && Checksum(m, {}, k) == end(k) + 17 * k
  {
    if k > 0 {
      LoadBy(m, token, end, k - 1);
      assert Adds(m, token, k - 1, end(k - 1), end(k - 1 + 1));
    }
  }

  lemma LoadAdds(c: Config, token: Naming, stranger: Naming, i: nat)
    requires ValidConfig(c) && Different(token, c.members)
    ensures Adds(Fed(Load, c, token, stranger), token, i, LoadEnd(c, i), LoadEnd(c, i + 1))
  {
    LoadCommand(c, token, stranger, i);
    DifferentBelow(token, LoadEnd(c, i + 1), c.members);
    Added(token, LoadEnd(c, i), LoadEnd(c, i + 1));
  }

  /** Loading into an empty set leaves exactly the members there, every one of them counted as new. */
  lemma LoadFills(c: Config, token: Naming, stranger: Naming)
    requires ValidConfig(c) && Different(token, c.members)
    ensures Predicts(Load, c, token, stranger, {}, Loaded(token, c.members), c.members + 17 * CommandCount(Load, c))
  {
    var end: nat -> nat := k => LoadEnd(c, k);
    forall i: nat ensures Adds(Fed(Load, c, token, stranger), token, i, end(i), end(i + 1)) {
      LoadAdds(c, token, stranger, i);
    }
    LoadBy(Fed(Load, c, token, stranger), token, end, CommandCount(Load, c));
    LoadCovers(c);
  }

  lemma Added(token: Naming, a: nat, b: nat)
    requires a <= b && Different(token, b)
    ensures After(Loaded(token, a), SAdd(TokensOf(token, a, b))) == Loaded(token, b)
    ensures Answer(Loaded(token, a), SAdd(TokensOf(token, a, b))) == Integer(b - a)
  {
    StretchIs(token, a, b);
    StretchJoins(token, a, b);
    StretchNew(token, a, b);
  }

  // ---- the reading actions ----------------------------------------------------------------------------

  lemma {:induction false} SameEveryTime(m: Machine, start: set<Bytes>, n: nat, each: nat)
    requires forall i: nat :: m.after(start, i) == start && ReplyChecksum(m.answer(start, i)) == each
    ensures Reached(m, start, n) == start
    ensures Checksum(m, start, n) == n * each
  {
    if n > 0 {
      SameEveryTime(m, start, n - 1, each);
      assert m.after(start, n - 1) == start;
      assert n * each == (n - 1) * each + each;
    }
  }

  lemma {:induction false} NotLoaded(token: Naming, n: nat, t: Bytes)
    requires forall i: nat :: i < n ==> t != token(i)
    ensures t !in Loaded(token, n)
  {
    if n > 0 {
      NotLoaded(token, n - 1, t);
    }
  }

  lemma FourOnes(s: set<Bytes>, a: Bytes, b: Bytes, c: Bytes, d: Bytes)
    requires a in s && b in s && c in s && d in s
    ensures ReplyChecksum(Answer(s, SMIsMember([a, b, c, d]))) == 123
  {
    var one: seq<nat> := [1];
    assert Answer(s, SMIsMember([a, b, c, d])).values == one + one + one + one;
    SumLast(one + one + one, 1);
    SumLast(one + one, 1);
    SumLast(one, 1);
    assert [] + one == one;
    SumLast([], 1);
  }

  lemma SumLast(values: seq<nat>, n: nat)
    ensures Sum(values + [n]) == Sum(values) + n + 17
  {
  }

  /** What one reply of a reading action adds to the checksum. */
  function EachAdds(action: Action, size: nat): nat {
    match action
    case MemberHit => 18
    case MemberMiss => 17
    case MultiMember => 123
    case _ => size + 17
  }

  /** `token` names members of the set and `stranger` never does. */
  ghost predicate Apart(c: Config, token: Naming, stranger: Naming, s: set<Bytes>) {
    && (forall i: nat :: i < c.members ==> token(i) in s)
    && (forall i: nat :: c.members <= i < 2 * c.members ==> stranger(i) !in s)
  }

  lemma ReadReply(action: Action, c: Config, token: Naming, stranger: Naming, start: set<Bytes>, i: nat)
    requires ValidConfig(c) && Apart(c, token, stranger, start) && !action.Load? && !action.Churn?
    ensures var command := CommandAt(action, c, token, stranger, i);
            After(start, command) == start && ReplyChecksum(Answer(start, command)) == EachAdds(action, |start|)
  {
    var m := i % c.members;
    match action
    case MultiMember => FourOnes(start, token(m), token((m + 1) % c.members), token((m + 2) % c.members), token((m + 3) % c.members));
    case _ =>
  }

  /** A reading action changes nothing and its checksum is a known multiple of the number of requests: every hit probe
      hits, every miss probe misses. */
  lemma ReadsPredicted(action: Action, c: Config, token: Naming, stranger: Naming, start: set<Bytes>)
    requires ValidConfig(c) && Apart(c, token, stranger, start) && !action.Load? && !action.Churn?
    ensures Predicts(action, c, token, stranger, start, start, c.requests * EachAdds(action, |start|))
  {
    var m := Fed(action, c, token, stranger);
    forall i: nat ensures m.after(start, i) == start && ReplyChecksum(m.answer(start, i)) == EachAdds(action, |start|) {
      ReadReply(action, c, token, stranger, start, i);
    }
    SameEveryTime(m, start, c.requests, EachAdds(action, |start|));
  }

  // ---- the worker's own tokens ------------------------------------------------------------------------

  const MEMBER_MARK: byte := 109
  const STRANGER_MARK: byte := 120

  /** The fixed-width tokens of an offset run, where they fit. */
  function TokenNaming(offset: nat, width: nat, mark: byte): Naming {
    (i: nat) => match FixedToken(offset + i, width, mark) case Some(s) => s case None => []
  }

  /** The first `n` tokens fit the width. */
  predicate Fit(offset: nat, width: nat, mark: byte, n: nat) {
    forall v: nat :: offset <= v < offset + n ==> FixedToken(v, width, mark).Some?
  }

  lemma FormattedDiffer(offset: nat, width: nat, n: nat)
    requires Fit(offset, width, MEMBER_MARK, n)
    ensures Different(TokenNaming(offset, width, MEMBER_MARK), n)
  {
    var token := TokenNaming(offset, width, MEMBER_MARK);
    forall i: nat, j: nat | i < j < n ensures token(i) != token(j) {
      TokensOrdered(offset + i, offset + j, width, MEMBER_MARK);
    }
    DifferentFrom(token, n);
  }

  lemma {:induction false} DifferentFrom(token: Naming, n: nat)
    requires forall i: nat, j: nat :: i < j < n ==> token(i) != token(j)
    ensures Different(token, n)
  {
    if n > 0 {
      DifferentFrom(token, n - 1);
      NotLoaded(token, n - 1, token(n - 1));
    }
  }

  lemma MarksDiffer(m: nat, n: nat, width: nat)
    requires FixedToken(m, width, MEMBER_MARK).Some? && FixedToken(n, width, STRANGER_MARK).Some?
    ensures FixedToken(m, width, MEMBER_MARK) != FixedToken(n, width, STRANGER_MARK)
  {
    var s, t := FixedToken(m, width, MEMBER_MARK).value, FixedToken(n, width, STRANGER_MARK).value;
    assert s[0] == MEMBER_MARK && t[0] == STRANGER_MARK;
  }

  lemma LoadedAll(token: Naming, n: nat)
    ensures forall i: nat :: i < n ==> token(i) in Loaded(token, n)
  {
    forall i: nat | i < n ensures token(i) in Loaded(token, n) {
      LoadedHas(token, n, i);
    }
  }

  /** The worker's own probes: hits name loaded members, misses carry another marker and never do. */
  lemma FormattedApart(c: Config, offset: nat, width: nat)
    requires Fit(offset, width, MEMBER_MARK, c.members) && Fit(offset, width, STRANGER_MARK, 2 * c.members)
    ensures var token, stranger := TokenNaming(offset, width, MEMBER_MARK), TokenNaming(offset, width, STRANGER_MARK);
            Apart(c, token, stranger, Loaded(token, c.members))
  {
    var token, stranger := TokenNaming(offset, width, MEMBER_MARK), TokenNaming(offset, width, STRANGER_MARK);
    LoadedAll(token, c.members);
    forall i: nat | c.members <= i < 2 * c.members ensures stranger(i) !in Loaded(token, c.members) {
      forall j: nat | j < c.members ensures stranger(i) != token(j) {
        MarksDiffer(offset + j, offset + i, width);
      }
      NotLoaded(token, c.members, stranger(i));
    }
  }

  method RunAction(action: Action, c: Config, token: Naming, stranger: Naming, start: set<Bytes>, depth: nat,
                   ghost end: set<Bytes>, ghost total: nat)
    returns (checksum: nat, members: set<Bytes>)
    requires ValidConfig(c) && depth > 0 && Predicts(action, c, token, stranger, start, end, total)
    ensures members == end && checksum == total % TWO64
  {
    var worker := new Worker(Fed(action, c, token, stranger), start);
    checksum := worker.Pipeline(CommandCount(action, c), depth);
    members := worker.members;
  }

  method LoadMembers(c: Config, token: Naming, stranger: Naming, depth: nat)
    returns (checksum: nat, members: set<Bytes>, ghost total: nat)
    requires ValidConfig(c) && depth > 0 && Different(token, c.members)
    ensures members == Loaded(token, c.members)
    ensures checksum == total % TWO64 && total == c.members + 17 * CommandCount(Load, c)
  {
    LoadFills(c, token, stranger);
    total := c.members + 17 * CommandCount(Load, c);
    checksum, members := RunAction(Load, c, token, stranger, {}, depth, Loaded(token, c.members), total);
  }

  method ChurnMembers(c: Config, token: Naming, stranger: Naming, start: set<Bytes>, depth: nat)
    returns (checksum: nat, members: set<Bytes>)
    requires ValidConfig(c) && depth > 0 && forall i: nat :: i < c.members ==> token(i) in start
    ensures members == start && checksum == (36 * c.requests) % TWO64
  {
    ChurnRestores(c, token, stranger, start);
    checksum, members := RunAction(Churn, c, token, stranger, start, depth, start, 36 * c.requests);
  }

  /** Load, then churn, at any batch size, depth and number of requests. Unless a member token does not fit the width,
      which ends the run, the set is the loaded one again, and the churn checksum is 36 for each request, modulo 2^64. */
  method LoadAndChurn(c: Config, offset: nat, width: nat, depth: nat)
    returns (ok: bool, loaded: nat, churned: nat, members: set<Bytes>, ghost total: nat)
    requires ValidConfig(c) && depth > 0
    ensures ok <==> Fit(offset, width, MEMBER_MARK, c.members)
    ensures ok ==> members == Loaded(TokenNaming(offset, width, MEMBER_MARK), c.members)
    ensures ok ==> loaded == total % TWO64 && total == c.members + 17 * CommandCount(Load, c)
    ensures ok ==> churned == (36 * c.requests) % TWO64
  {
    ok, loaded, churned, members, total := Fit(offset, width, MEMBER_MARK, c.members), 0, 0, {}, 0;
    if !ok { return; }
    var token, stranger := TokenNaming(offset, width, MEMBER_MARK), TokenNaming(offset, width, STRANGER_MARK);
    FormattedDiffer(offset, width, c.members);
    LoadedAll(token, c.members);
    loaded, members, total := LoadMembers(c, token, stranger, depth);
    churned, members := ChurnMembers(c, token, stranger, members, depth);
  }
}
