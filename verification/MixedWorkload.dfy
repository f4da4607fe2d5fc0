/** The mixed sorted-set workload of benchmarks/mixed_leaderboard_benchmark.py: a generator that keeps a table of live
    member ids, and the claim that a sorted set running its commands always holds exactly those members. */
module MixedWorkload {
  import opened Collections
  import opened Decimal
  import opened Tokens

  // ---- the sorted set ---------------------------------------------------------------------------------

  type Board = map<Bytes, real>

  datatype Command =
    | ZScore(member: Bytes)
    | ZRank(member: Bytes)
    | ZRevRank(member: Bytes)
    | ZRange(last: nat, withScores: bool)
    | ZAdd(score: real, member: Bytes)
    | ZRem(member: Bytes)

  datatype Reply = ScoreIs(score: real) | RankIs(rank: nat) | Listed(items: nat) | Changed(count: nat) | Missing

  /** Byte-wise order of names, which breaks ties between equal scores. */
  predicate Less(a: Bytes, b: Bytes) {
    if b == [] then false
    else if a == [] then true
    else a[0] < b[0] || (a[0] == b[0] && Less(a[1..], b[1..]))
  }

  predicate Precedes(board: Board, a: Bytes, b: Bytes)
    requires a in board && b in board
  {
    board[a] < board[b] || (board[a] == board[b] && Less(a, b))
  }

  function Rank(board: Board, member: Bytes): nat
    requires member in board
  {
    |set m | m in board && Precedes(board, m, member)|
  }

  function RevRank(board: Board, member: Bytes): nat
    requires member in board
  {
    |set m | m in board && Precedes(board, member, m)|
  }

  lemma {:induction false} LessTotal(a: Bytes, b: Bytes)
    ensures (Less(a, b) || Less(b, a)) <==> a != b
    ensures !(Less(a, b) && Less(b, a))
  {
    if a != [] && b != [] && a[0] == b[0] {
      LessTotal(a[1..], b[1..]);
      assert a == [a[0]] + a[1..] && b == [b[0]] + b[1..];
    }
  }

  /** The two rank reads see one strict order from its two ends. */
  lemma RanksComplement(board: Board, member: Bytes)
    requires member in board
    ensures Rank(board, member) + RevRank(board, member) + 1 == |board|
  {
    var before := set m | m in board && Precedes(board, m, member);
    var behind := set m | m in board && Precedes(board, member, m);
    forall m | m in board ensures m in before + behind + {member} && (m == member ==> m !in before + behind)
                                  && !(m in before && m in behind)
    {
      LessTotal(m, member);
    }
    assert board.Keys == before + behind + {member};
    assert |before + behind + {member}| == |before| + |behind| + 1;
  }

  function Serve(board: Board, c: Command): (Board, Reply) {
    match c
    case ZScore(m) => (board, if m in board then ScoreIs(board[m]) else Missing)
    case ZRank(m) => (board, if m in board then RankIs(Rank(board, m)) else Missing)
    case ZRevRank(m) => (board, if m in board then RankIs(RevRank(board, m)) else Missing)
    case ZRange(last, withScores) =>
      var n := if |board| <= last then |board| else last + 1;
      (board, if n == 0 then Missing else Listed(if withScores then 2 * n else n))
    case ZAdd(score, m) => (board[m := score], Changed(if m in board then 0 else 1))
    case ZRem(m) => (board - {m}, Changed(if m in board then 1 else 0))
  }

  lemma {:induction false} LessTransitive(a: Bytes, b: Bytes, c: Bytes)
    requires Less(a, b) && Less(b, c)
    ensures Less(a, c)
  {
    if a != [] && a[0] == b[0] == c[0] {
      LessTransitive(a[1..], b[1..], c[1..]);
    }
  }

  /** Ranks follow the order of the board. */
  lemma RanksRise(board: Board, a: Bytes, b: Bytes)
    requires a in board && b in board && Precedes(board, a, b)
    ensures Rank(board, a) < Rank(board, b)
  {
    var before := set m | m in board && Precedes(board, m, a);
    var further := set m | m in board && Precedes(board, m, b);
    forall m | m in before ensures m in further {
      if Less(m, a) && Less(a, b) {
        LessTransitive(m, a, b);
      }
    }
    LessTotal(a, a);
    SubsetSmaller(before, further - {a});
  }

  /** No two members share a rank. */
  lemma RanksDiffer(board: Board, a: Bytes, b: Bytes)
    requires a in board && b in board && a != b
    ensures Rank(board, a) != Rank(board, b)
  {
    LessTotal(a, b);
    if Precedes(board, a, b) {
      RanksRise(board, a, b);
    } else {
      RanksRise(board, b, a);
    }
  }

  /** The members that rank no higher than `last`. */
  function UpTo(board: Board, last: nat): set<Bytes> { set m | m in board && Rank(board, m) <= last }

  /** The ranks number the members, from zero on. */
  lemma RanksNumber(board: Board, rank: Bytes -> nat)
    requires forall m :: m in board ==> rank(m) == Rank(board, m)
    ensures NumberedApart(board.Keys, rank) && Under(board.Keys, rank, |board.Keys|) == board.Keys
  {
    forall m | m in board ensures Rank(board, m) < |board.Keys| {
      RanksComplement(board, m);
    }
    forall a, b | a in board && b in board && a != b ensures Rank(board, a) != Rank(board, b) {
      RanksDiffer(board, a, b);
    }
  }

  lemma UpToIsUnder(board: Board, rank: Bytes -> nat, last: nat)
    requires forall m :: m in board ==> rank(m) == Rank(board, m)
    ensures UpTo(board, last) == Under(board.Keys, rank, last + 1)
  {
    forall m ensures m in UpTo(board, last) <==> m in Under(board.Keys, rank, last + 1) {
    }
  }

  lemma UpToSize(board: Board, rank: Bytes -> nat, last: nat)
    requires forall m :: m in board ==> rank(m) == Rank(board, m)
    ensures |UpTo(board, last)| == if last + 1 < |board.Keys| then last + 1 else |board.Keys|
  {
    RanksNumber(board, rank);
    NumberedUnder(board.Keys, rank, last + 1);
    UpToIsUnder(board, rank, last);
  }

  /** A range lists the members that rank no higher than its last index: that many names, or names and scores, come back,
      and nothing from an empty board. */
  lemma RangeListsRanks(board: Board, last: nat, withScores: bool)
    ensures var listed := |UpTo(board, last)|;
      Serve(board, ZRange(last, withScores)).1 ==
        if |board| == 0 then Missing else Listed(if withScores then listed + listed else listed)
  {
    UpToSize(board, m => if m in board then Rank(board, m) else 0, last);
  }

  /** The generator's events: a read, an update of a live member, or a removal followed by a fresh member. */
  datatype Event = Read(command: Command) | Update(score: real, member: Bytes) | Replace(removed: Bytes, score: real, added: Bytes)

  function After(board: Board, e: Event): Board {
    match e
    case Read(c) => Serve(board, c).0
    case Update(score, m) => Serve(board, ZAdd(score, m)).0
    case Replace(removed, score, added) => Serve(Serve(board, ZRem(removed)).0, ZAdd(score, added)).0
  }

  /** The replies the event means to draw: no read misses, an update adds nobody, a replacement removes one member and
      adds one. */
  predicate Answered(board: Board, e: Event) {
    match e
    case Read(c) => (c.ZScore? || c.ZRank? || c.ZRevRank? || c.ZRange?) && Serve(board, c).1 != Missing
    case Update(score, m) => Serve(board, ZAdd(score, m)).1 == Changed(0)
    case Replace(removed, score, added) =>
      && Serve(board, ZRem(removed)).1 == Changed(1)
      && Serve(Serve(board, ZRem(removed)).0, ZAdd(score, added)).1 == Changed(1)
  }

  function Run(board: Board, events: seq<Event>): Board
    decreases |events|
  {
    if events == [] then board else After(Run(board, events[..|events| - 1]), events[|events| - 1])
  }

  /** Every event of the run, each from the state the earlier ones left, draws the replies it means to draw. */
  predicate AllAnswered(board: Board, events: seq<Event>)
    decreases |events|
  {
    events == [] || (
      && AllAnswered(board, events[..|events| - 1])
      && Answered(Run(board, events[..|events| - 1]), events[|events| - 1]))
  }

  lemma RunLast(board: Board, events: seq<Event>, e: Event)
    ensures Run(board, events + [e]) == After(Run(board, events), e)
    ensures AllAnswered(board, events + [e]) <==> AllAnswered(board, events) && Answered(Run(board, events), e)
  {
  }

  // ---- the table of live ids --------------------------------------------------------------------------

  type Naming = nat -> Bytes

  ghost predicate Injective(name: Naming) { forall m, n :: name(m) == name(n) ==> m == n }

  lemma MembersInjective()
    ensures Injective(MemberFor)
  {
    forall m: nat, n: nat | MemberFor(m) == MemberFor(n) ensures m == n {
      MembersDistinct(m, n);
    }
  }

  function Names(name: Naming, ids: seq<nat>): set<Bytes> {
    if ids == [] then {} else Names(name, ids[..|ids| - 1]) + {name(ids[|ids| - 1])}
  }

  /** The sorted set holds exactly the members named by the table. */
  ghost predicate Mirrors(name: Naming, ids: seq<nat>, board: Board) { board.Keys == Names(name, ids) }

  lemma {:induction false} NamesHave(name: Naming, ids: seq<nat>, m: Bytes)
    ensures m in Names(name, ids) <==> exists i :: 0 <= i < |ids| && m == name(ids[i])
  {
    if ids != [] {
      var last := |ids| - 1;
      NamesHave(name, ids[..last], m);
      if m == name(ids[last]) {
      } else if i :| 0 <= i < |ids| && m == name(ids[i]) {
        assert ids[..last][i] == ids[i];
      }
    }
  }

  lemma {:induction false} NamesSize(name: Naming, ids: seq<nat>)
    requires Injective(name) && Distinct(ids)
    ensures |Names(name, ids)| == |ids|
  {
    if ids != [] {
      var last := |ids| - 1;
      NamesSize(name, ids[..last]);
      NamesHave(name, ids[..last], name(ids[last]));
    }
  }

  ghost predicate Good(name: Naming, ids: seq<nat>, next: nat, board: Board) {
    && Injective(name) && Distinct(ids) && ids != []
    && (forall i :: 0 <= i < |ids| ==> ids[i] < next)
    && Mirrors(name, ids, board)
  }

  lemma ReadAnswered(name: Naming, ids: seq<nat>, next: nat, board: Board, i: nat, c: Command)
    requires Good(name, ids, next, board) && i < |ids|
    requires c == ZScore(name(ids[i])) || c == ZRank(name(ids[i])) || c == ZRevRank(name(ids[i]))
    ensures Answered(board, Read(c)) && After(board, Read(c)) == board
  {
    NamesHave(name, ids, name(ids[i]));
  }

  lemma RangeAnswered(name: Naming, ids: seq<nat>, next: nat, board: Board, last: nat, withScores: bool)
    requires Good(name, ids, next, board)
    ensures Answered(board, Read(ZRange(last, withScores))) && After(board, Read(ZRange(last, withScores))) == board
  {
  }

  lemma UpdateAnswered(name: Naming, ids: seq<nat>, next: nat, board: Board, i: nat, score: real)
    requires Good(name, ids, next, board) && i < |ids|
    ensures var e := Update(score, name(ids[i])); Answered(board, e) && Good(name, ids, next, After(board, e))
  {
    NamesHave(name, ids, name(ids[i]));
    assert board[name(ids[i]) := score].Keys == board.Keys;
  }

  lemma FreshName(name: Naming, ids: seq<nat>, next: nat, board: Board)
    requires Good(name, ids, next, board)
    ensures name(next) !in board
  {
    NamesHave(name, ids, name(next));
  }

  /** Replacing one id by the next unused one is what the removal and the addition do to the set. */
  lemma ReplaceAnswered(name: Naming, ids: seq<nat>, next: nat, board: Board, i: nat, score: real)
    requires Good(name, ids, next, board) && i < |ids|
    ensures var e := Replace(name(ids[i]), score, name(next));
            Answered(board, e) && Good(name, ids[i := next], next + 1, After(board, e))
  {
    FreshName(name, ids, next, board);
    NamesHave(name, ids, name(ids[i]));
    NamesReplaced(name, ids, next, i);
  }

  lemma NamesReplaced(name: Naming, ids: seq<nat>, next: nat, i: nat)
    requires Injective(name) && Distinct(ids) && i < |ids| && forall j :: 0 <= j < |ids| ==> ids[j] < next
    ensures Names(name, ids[i := next]) == Names(name, ids) - {name(ids[i])} + {name(next)}
  {
    var table := ids[i := next];
    forall m ensures m in Names(name, table) <==> m in Names(name, ids) - {name(ids[i])} + {name(next)} {
      NamesHave(name, table, m);
      NamesHave(name, ids, m);
      if j :| 0 <= j < |ids| && m == name(ids[j]) && j != i {
        assert m == name(table[j]);
      }
      if m == name(next) {
        assert m == name(table[i]);
      }
    }
  }

  /** The set as it is loaded: one member for each id below `members`. */
  function Loaded(name: Naming, members: nat, score: nat -> real): Board {
    if members == 0 then map[] else Loaded(name, members - 1, score)[name(members - 1) := score(members - 1)]
  }

  lemma {:induction false} LoadedMirrors(name: Naming, members: nat, score: nat -> real)
    ensures Mirrors(name, seq(members, i requires i >= 0 => i), Loaded(name, members, score))
  {
    if members > 0 {
      LoadedMirrors(name, members - 1, score);
      var ids := seq(members, i requires i >= 0 => i);
      assert ids[..members - 1] == seq(members - 1, i requires i >= 0 => i);
    }
  }

  // ---- the generator ----------------------------------------------------------------------------------

  /** Operations in the order of the weight table. */
  const OPERATIONS: nat := 7

  /** The operation whose stretch of the number line holds the drawn number: each is drawn by exactly as many numbers
      as it weighs. */
  method ChooseOperation(weights: seq<nat>, selected: nat) returns (op: nat)
    requires selected < Total(weights)
    ensures op < |weights| && Total(weights[..op]) <= selected < Total(weights[..op]) + weights[op]
  {
    var running := 0;
    op := 0;
    assert weights != [] && weights[..|weights|] == weights;
    while running + weights[op] <= selected
      invariant 0 <= op < |weights| && running == Total(weights[..op]) <= selected
      decreases |weights| - op
    {
      TotalNext(weights, op);
      running, op := running + weights[op], op + 1;
    }
  }

  lemma {:induction false} TotalZeros(n: nat)
    ensures Total(seq(n, _ => 0)) == 0
  {
    if n > 0 {
      TotalZeros(n - 1);
      assert seq<nat>(n, _ => 0)[..n - 1] == seq<nat>(n - 1, _ => 0);
    }
  }

  lemma {:induction false} TotalCounts(counts: seq<nat>, op: nat)
    requires op < |counts|
    ensures Total(counts[op := counts[op] + 1]) == Total(counts) + 1
    decreases |counts|
  {
    var more, last := counts[op := counts[op] + 1], |counts| - 1;
    if op < last {
      TotalCounts(counts[..last], op);
      assert more[..last] == counts[..last][op := counts[op] + 1];
    } else {
      assert more[..last] == counts[..last];
    }
  }

  /** The kind of event an operation number stands for. */
  predicate Stands(op: nat, e: Event) {
    match op
    case 0 => e.Read? && e.command.ZScore?
    case 1 => e.Read? && e.command.ZRank?
    case 2 => e.Read? && e.command.ZRevRank?
    case 3 => e.Read? && e.command.ZRange? && !e.command.withScores
    case 4 => e.Read? && e.command.ZRange? && e.command.withScores
    case 5 => e.Update?
    case _ => e.Replace?
  }

  /** What an event puts on the wire: reads, updates and removals name the picked live member, an update carries the score
      for this event, a fresh member its own name and score, and a range starts at zero and lists `rangeSize` entries. */
  predicate Sends(e: Event, picked: Bytes, updated: real, newcomer: Bytes, score: real, rangeSize: nat) {
    match e
    case Read(c) => if c.ZRange? then c.last + 1 == rangeSize else (c.ZScore? || c.ZRank? || c.ZRevRank?) && c.member == picked
    case Update(s, m) => s == updated && m == picked
    case Replace(removed, s, added) => removed == picked && s == score && added == newcomer
  }

  class Workload {
    const name: Naming
    const weights: seq<nat>
    const rangeSize: nat
    var liveIds: seq<nat>
    var nextMemberId: nat
    var counts: seq<nat>
    var eventIndex: nat

    ghost predicate Valid()
      reads this
    {
      && |weights| == |counts| == OPERATIONS && Total(weights) > 0 && rangeSize > 0
      && Total(counts) == eventIndex
      && (forall i :: 0 <= i < OPERATIONS && counts[i] > 0 ==> weights[i] > 0)
    }

    constructor (members: nat, weights: seq<nat>, rangeSize: nat, ghost score: nat -> real)
      requires members > 0 && |weights| == OPERATIONS && Total(weights) > 0 && rangeSize > 0
      ensures Valid() && |liveIds| == members && eventIndex == 0 && name == MemberFor
      ensures Good(name, liveIds, nextMemberId, Loaded(name, members, score))
    {
      this.name, this.weights, this.rangeSize := MemberFor, weights, rangeSize;
      liveIds := seq(members, i requires i >= 0 => i);
      nextMemberId := members;
      counts := seq(OPERATIONS, _ => 0);
      eventIndex := 0;
      new;
      TotalZeros(OPERATIONS);
      MembersInjective();
      LoadedMirrors(name, members, score);
    }

    method Tick(op: nat)
      requires Valid() && op < OPERATIONS && weights[op] > 0
      modifies this`counts, this`eventIndex
      ensures Valid() && eventIndex == old(eventIndex) + 1 && counts == old(counts)[op := old(counts)[op] + 1]
    {
      TotalCounts(counts, op);
      counts := counts[op := counts[op] + 1];
      eventIndex := eventIndex + 1;
    }

    /** One event, for any pair of random numbers: the operation is the one whose stretch holds `selected`, the set that
        mirrors the table answers as meant, and afterwards it mirrors the new table. */
    method NextEvent(selected: nat, pick: nat, ghost board: Board, scoreFor: nat -> real, updateScore: (nat, nat) -> real)
      returns (e: Event, op: nat)
      requires Valid() && Good(name, liveIds, nextMemberId, board) && selected < Total(weights) && pick < |liveIds|
      modifies this
      ensures Valid() && Good(name, liveIds, nextMemberId, After(board, e)) && Answered(board, e)
      ensures op < OPERATIONS && Total(weights[..op]) <= selected < Total(weights[..op]) + weights[op] && Stands(op, e)
      ensures eventIndex == old(eventIndex) + 1 && counts == old(counts)[op := old(counts)[op] + 1]
      ensures liveIds == if e.Replace? then old(liveIds)[pick := old(nextMemberId)] else old(liveIds)
      ensures Sends(e, name(old(liveIds)[pick]), updateScore(old(liveIds)[pick], eventIndex),
                    name(old(nextMemberId)), scoreFor(old(nextMemberId)), rangeSize)
    {
      op := ChooseOperation(weights, selected);
      Tick(op);
      e := MakeEvent(op, pick, board, scoreFor, updateScore);
    }

    method MakeEvent(op: nat, pick: nat, ghost board: Board, scoreFor: nat -> real, updateScore: (nat, nat) -> real)
      returns (e: Event)
      requires rangeSize > 0 && op < OPERATIONS && Good(name, liveIds, nextMemberId, board) && pick < |liveIds|
      modifies this`liveIds, this`nextMemberId
      ensures Good(name, liveIds, nextMemberId, After(board, e)) && Answered(board, e) && Stands(op, e)
      ensures liveIds == if e.Replace? then old(liveIds)[pick := old(nextMemberId)] else old(liveIds)
      ensures Sends(e, name(old(liveIds)[pick]), updateScore(old(liveIds)[pick], eventIndex),
                    name(old(nextMemberId)), scoreFor(old(nextMemberId)), rangeSize)
    {
      if op == 3 || op == 4 {
        RangeAnswered(name, liveIds, nextMemberId, board, rangeSize - 1, op == 4);
        return Read(ZRange(rangeSize - 1, op == 4));
      }
      var member := name(liveIds[pick]);
      if op < 3 {
        var c := if op == 0 then ZScore(member) else if op == 1 then ZRank(member) else ZRevRank(member);
        ReadAnswered(name, liveIds, nextMemberId, board, pick, c);
        return Read(c);
      } else if op == 5 {
        var score := updateScore(liveIds[pick], eventIndex);
        UpdateAnswered(name, liveIds, nextMemberId, board, pick, score);
        return Update(score, member);
      }
      var added := nextMemberId;
      ReplaceAnswered(name, liveIds, nextMemberId, board, pick, scoreFor(added));
      nextMemberId := nextMemberId + 1;
      liveIds := liveIds[pick := added];
      return Replace(member, scoreFor(added), name(added));
    }

    /** A whole run over the set it mirrors, for every sequence of draws: every event draws the replies it means to, the set
        mirrors the table at the end, the table never changes size, and the counts add up to the number of events. */
    method Events(draws: seq<(nat, nat)>, ghost start: Board, scoreFor: nat -> real, updateScore: (nat, nat) -> real)
      returns (events: seq<Event>)
      requires Valid() && Good(name, liveIds, nextMemberId, start)
      requires forall i :: 0 <= i < |draws| ==> draws[i].0 < Total(weights) && draws[i].1 < |liveIds|
      modifies this
      ensures |events| == |draws| && AllAnswered(start, events)
      ensures Valid() && Good(name, liveIds, nextMemberId, Run(start, events))
      ensures |liveIds| == |old(liveIds)| && Total(counts) == old(Total(counts)) + |draws|
    {
      events := [];
      for i := 0 to |draws|
        invariant |events| == i && AllAnswered(start, events)
        invariant Valid() && Good(name, liveIds, nextMemberId, Run(start, events))
        invariant |liveIds| == |old(liveIds)| && eventIndex == old(eventIndex) + i
      {
        ghost var board := Run(start, events);
        var e, op := NextEvent(draws[i].0, draws[i].1, board, scoreFor, updateScore);
        RunLast(start, events, e);
        events := events + [e];
      }
    }
  }
}
