/** The time-decay rescore of benchmarks/leaderboard_rescore_benchmark.py: a bounded array kept sorted by insertion,
    fed with every member of a sorted set under one of three recency weights. */
module Leaderboard {
  datatype Entry = Entry(name: string, weight: real)

  // ---- what the array should hold --------------------------------------------------------------------

  predicate Descending(es: seq<Entry>) { forall i, j :: 0 <= i <= j < |es| ==> es[i].weight >= es[j].weight }

  /** Put `e` behind every entry that weighs at least as much. */
  function Insert(es: seq<Entry>, e: Entry): (r: seq<Entry>)
    ensures |r| == |es| + 1
  {
    if es == [] then [e]
    else if es[|es| - 1].weight >= e.weight then es + [e]
    else Insert(es[..|es| - 1], e) + [es[|es| - 1]]
  }

  /** The stable descending sort, by insertion in input order. */
  function Sorted(es: seq<Entry>): (r: seq<Entry>)
    ensures |r| == |es|
  {
    if es == [] then [] else Insert(Sorted(es[..|es| - 1]), es[|es| - 1])
  }

  function Size(k: int): nat { if k < 0 then 0 else k }

  function Take(es: seq<Entry>, k: nat): seq<Entry> { if |es| <= k then es else es[..k] }

  lemma {:induction false} InsertDescending(es: seq<Entry>, e: Entry)
    requires Descending(es)
    ensures Descending(Insert(es, e))
    ensures forall i :: 0 <= i < |es| + 1 ==> Insert(es, e)[i] == e || Insert(es, e)[i] in es
  {
    if es != [] && es[|es| - 1].weight < e.weight {
      var front, last := es[..|es| - 1], es[|es| - 1];
      InsertDescending(front, e);
      assert forall x :: x in front ==> x.weight >= last.weight;
    }
  }

  lemma {:induction false} SortedDescending(es: seq<Entry>)
    ensures Descending(Sorted(es))
  {
    if es != [] {
      SortedDescending(es[..|es| - 1]);
      InsertDescending(Sorted(es[..|es| - 1]), es[|es| - 1]);
    }
  }

  /** Cutting at `k` before an insertion loses nothing that a cut after it would keep. */
  lemma {:induction false} InsertTake(es: seq<Entry>, e: Entry, k: nat)
    requires Descending(es)
    ensures Take(Insert(Take(es, k), e), k) == Take(Insert(es, e), k)
  {
    if |es| > k {
      var front, last := es[..|es| - 1], es[|es| - 1];
      InsertTake(front, e, k);
      assert Take(front, k) == Take(es, k) by {
        if |front| > k { assert front[..k] == es[..k]; }
      }
      var r := Insert(front, e);
      if last.weight >= e.weight {
        InsertLast(front, e);
        assert Insert(es, e) == front + [last] + [e] && r == front + [e];
        assert Insert(es, e)[..k] == r[..k];
      } else {
        assert Insert(es, e)[..k] == r[..k];
      }
    }
  }

  lemma InsertLast(es: seq<Entry>, e: Entry)
    requires es != [] ==> es[|es| - 1].weight >= e.weight
    ensures Insert(es, e) == es + [e]
  {
  }

  // ---- `Sorted` is the stable descending sort, and nothing else is -----------------------------------

  /** The entries of one weight, in order. */
  function Weighing(es: seq<Entry>, w: real): seq<Entry> {
    if es == [] then [] else (if es[0].weight == w then [es[0]] else []) + Weighing(es[1..], w)
  }

  lemma {:induction false} WeighingAppend(es: seq<Entry>, fs: seq<Entry>, w: real)
    ensures Weighing(es + fs, w) == Weighing(es, w) + Weighing(fs, w)
  {
    if es == [] {
      assert es + fs == fs;
    } else {
      var e, rest := es[0], es[1..];
      WeighingAppend(rest, fs, w);
      WeighingFirst(e, rest, w);
      WeighingFirst(e, rest + fs, w);
      assert [e] + rest == es && [e] + (rest + fs) == es + fs;
      var head, a, b := if e.weight == w then [e] else [], Weighing(rest, w), Weighing(fs, w);
      assert head + (a + b) == (head + a) + b;
    }
  }

  lemma WeighingFirst(e: Entry, rest: seq<Entry>, w: real)
    ensures Weighing([e] + rest, w) == (if e.weight == w then [e] else []) + Weighing(rest, w)
  {
  }

  lemma {:induction false} WeighingInsert(es: seq<Entry>, e: Entry, w: real)
    requires Descending(es)
    ensures Weighing(Insert(es, e), w) == Weighing(es, w) + Weighing([e], w)
  {
    if es == [] {
      assert Weighing([e], w) == [] + Weighing([e], w);
    } else if es[|es| - 1].weight >= e.weight {
      WeighingAppend(es, [e], w);
    } else {
      var front, last := es[..|es| - 1], es[|es| - 1];
      WeighingInsert(front, e, w);
      WeighingAppend(Insert(front, e), [last], w);
      WeighingAppend(front, [last], w);
      assert front + [last] == es;
      assert Weighing([e], w) == [] || Weighing([last], w) == [];
    }
  }

  /** The sort only reorders entries of different weight: equal ones stay in input order. */
  lemma {:induction false} SortedStable(es: seq<Entry>, w: real)
    ensures Weighing(Sorted(es), w) == Weighing(es, w)
  {
    if es != [] {
      var front, last := es[..|es| - 1], es[|es| - 1];
      SortedStable(front, w);
      SortedDescending(front);
      WeighingInsert(Sorted(front), last, w);
      WeighingAppend(front, [last], w);
      assert front + [last] == es;
    }
  }

  lemma {:induction false} WeighingMember(es: seq<Entry>, w: real)
    ensures Weighing(es, w) != [] <==> exists i :: 0 <= i < |es| && es[i].weight == w
  {
    if es != [] {
      WeighingMember(es[1..], w);
      if i :| 0 <= i < |es| && es[i].weight == w {
        assert i > 0 ==> es[1..][i - 1].weight == w;
      }
    }
  }

  /** A descending sequence is determined by its entries of each weight. */
  lemma {:induction false} StableSortUnique(r: seq<Entry>, t: seq<Entry>)
    requires Descending(r) && Descending(t) && forall w :: Weighing(r, w) == Weighing(t, w)
    ensures r == t
  {
    assert t != [] ==> Weighing(t, t[0].weight) != [];
    if r != [] {
      var w := r[0].weight;
      assert Weighing(t, w) == Weighing(r, w) != [];
      WeighingMember(t, w);
      assert t[0].weight >= w;
      WeighingMember(r, t[0].weight);
      assert Weighing(r, t[0].weight) == Weighing(t, t[0].weight);
      assert t[0].weight == w;
      assert r[0] == Weighing(r, w)[0] == Weighing(t, w)[0] == t[0];
      forall v ensures Weighing(r[1..], v) == Weighing(t[1..], v) {
        assert Weighing(r, v) == Weighing(t, v);
        var first := if v == w then [r[0]] else [];
        assert Weighing(r, v)[|first|..] == Weighing(r[1..], v) && Weighing(t, v)[|first|..] == Weighing(t[1..], v);
      }
      StableSortUnique(r[1..], t[1..]);
      assert r == [r[0]] + r[1..] && t == [t[0]] + t[1..];
    }
  }

  // ---- the insertion in place ------------------------------------------------------------------------

  function Zip(names: seq<string>, scores: seq<real>): (es: seq<Entry>)
    requires |names| == |scores|
    ensures |es| == |names| && forall i :: 0 <= i < |es| ==> es[i] == Entry(names[i], scores[i])
  {
    seq(|names|, i requires 0 <= i < |names| => Entry(names[i], scores[i]))
  }

  lemma ZipAppend(names: seq<string>, scores: seq<real>, name: string, s: real)
    requires |names| == |scores|
    ensures Zip(names + [name], scores + [s]) == Zip(names, scores) + [Entry(name, s)]
  {
  }

  lemma ZipReplaceLast(names: seq<string>, scores: seq<real>, name: string, s: real)
    requires |names| == |scores| > 0
    ensures var last := |names| - 1;
            Zip(names[last := name], scores[last := s]) == Zip(names, scores)[..last] + [Entry(name, s)]
  {
  }

  /** `e` on its way up: it has passed everything from `j` on, all of it lighter. */
  ghost predicate Sifting(now: seq<Entry>, before: seq<Entry>, e: Entry, j: nat) {
    && j <= |before|
    && now == before[..j] + [e] + before[j..]
    && Insert(before, e) == Insert(before[..j], e) + before[j..]
  }

  lemma SiftStep(before: seq<Entry>, e: Entry, j: nat)
    requires 0 < j <= |before| && e.weight > before[j - 1].weight
    requires Insert(before, e) == Insert(before[..j], e) + before[j..]
    ensures Insert(before, e) == Insert(before[..j - 1], e) + before[j - 1..]
  {
    assert before[..j][..j - 1] == before[..j - 1];
    assert Insert(before[..j], e) == Insert(before[..j - 1], e) + [before[j - 1]];
    assert [before[j - 1]] + before[j..] == before[j - 1..];
  }

  /** A full board and an entry that beats its last one: the entry takes that place before it moves up. */
  lemma Replaced(es: seq<Entry>, e: Entry, k: nat)
    requires |es| == k > 0 && e.weight > es[k - 1].weight
    ensures Take(Insert(es, e), k) == Insert(es[..k - 1], e)
  {
  }

  /** A full board and an entry that does not: nothing changes. */
  lemma Rejected(es: seq<Entry>, e: Entry, k: nat)
    requires |es| == k && (k > 0 ==> e.weight <= es[k - 1].weight)
    ensures Take(Insert(es, e), k) == es
  {
  }

  lemma SiftSwap(names: seq<string>, scores: seq<real>, before: seq<Entry>, e: Entry, j: nat)
    requires 0 < j < |names| == |scores| == |before| + 1 && scores[j] > scores[j - 1]
    requires Sifting(Zip(names, scores), before, e, j)
    ensures Sifting(Zip(names[j := names[j - 1]][j - 1 := names[j]], scores[j := scores[j - 1]][j - 1 := scores[j]]),
                    before, e, j - 1)
  {
    var now := Zip(names, scores);
    assert now[j] == e && now[j - 1] == before[j - 1];
    SiftStep(before, e, j);
    var next := Zip(names[j := names[j - 1]][j - 1 := names[j]], scores[j := scores[j - 1]][j - 1 := scores[j]]);
    assert next == now[j := now[j - 1]][j - 1 := now[j]];
    assert next == before[..j - 1] + [e] + before[j - 1..];
  }

  lemma SiftDone(now: seq<Entry>, before: seq<Entry>, e: Entry, j: nat)
    requires Sifting(now, before, e, j) && (j > 0 ==> now[j].weight <= now[j - 1].weight)
    ensures now == Insert(before, e)
  {
  }

  /** The two parallel lists of the script and its bound. */
  class Board {
    const k: int
    var names: seq<string>
    var scores: seq<real>

    ghost predicate Valid()
      reads this
    {
      && |names| == |scores| && |names| <= (if k < 0 then 0 else k)
      && Descending(Zip(names, scores))
    }

    ghost function Entries(): seq<Entry>
      reads this
      requires Valid()
    {
      Zip(names, scores)
    }

    constructor (bound: int)
      ensures Valid() && Entries() == [] && k == bound
    {
      k, names, scores := bound, [], [];
    }

    /** Swap the last entry upwards while it is heavier than its neighbour. */
    method Sift(ghost before: seq<Entry>, ghost e: Entry)
      requires |names| == |scores| > 0 && Descending(before)
      requires Zip(names, scores) == before + [e]
      modifies this`names, this`scores
      ensures |names| == |scores| && Zip(names, scores) == Insert(before, e)
    {
      var j := |names| - 1;
      assert before[..j] == before && before[j..] == [];
      while j > 0 && scores[j] > scores[j - 1]
        invariant 0 <= j < |names| == |scores| == |before| + 1
        invariant Sifting(Zip(names, scores), before, e, j)
      {
        SiftSwap(names, scores, before, e, j);
        names := names[j := names[j - 1]][j - 1 := names[j]];
        scores := scores[j := scores[j - 1]][j - 1 := scores[j]];
        j := j - 1;
      }
      SiftDone(Zip(names, scores), before, e, j);
    }

    method Append(name: string, s: real)
      requires Valid() && |names| < k
      modifies this`names, this`scores
      ensures Valid() && Entries() == Insert(old(Entries()), Entry(name, s))
    {
      ghost var es, e := Entries(), Entry(name, s);
      InsertDescending(es, e);
      ZipAppend(names, scores, name, s);
      names, scores := names + [name], scores + [s];
      Sift(es, e);
    }

    method ReplaceLast(name: string, s: real)
      requires Valid() && |names| == k > 0
      modifies this`names, this`scores
      ensures Valid() && Entries() == Insert(old(Entries())[..k - 1], Entry(name, s))
    {
      ghost var front, e := Entries()[..k - 1], Entry(name, s);
      InsertDescending(front, e);
      ZipReplaceLast(names, scores, name, s);
      names, scores := names[k - 1 := name], scores[k - 1 := s];
      Sift(front, e);
    }

    /** The Python form: the board keeps the first `k` of the descending order of what it held and the new entry. */
    method Push(name: string, s: real)
      requires Valid()
      modifies this`names, this`scores
      ensures Valid()
      ensures Entries() == Take(Insert(old(Entries()), Entry(name, s)), Size(k))
    {
      ghost var es, e := Entries(), Entry(name, s);
      if |names| < k {
        Append(name, s);
      } else if k > 0 && s > scores[k - 1] {
        Replaced(es, e, k);
        ReplaceLast(name, s);
      } else {
        Rejected(es, e, Size(k));
      }
    }
  }

  // ---- the three weightings ---------------------------------------------------------------------------

  datatype Member = Member(name: string, ts: real)

  datatype Mode = Linear | Exp | Step | Other

  datatype Reply = Ranked(entries: seq<Entry>) | BadMode | Raised

  function LinearWeight(now: real, hl: real, ts: real): real {
    if hl == 0.0 || 1.0 + (now - ts) / hl == 0.0 then 0.0 else 1.0 / (1.0 + (now - ts) / hl)
  }

  /** `half` stands for the power of one half. */
  function ExpWeight(half: real -> real, now: real, hl: real, ts: real): real {
    if hl == 0.0 then 0.0 else half((now - ts) / hl)
  }

  function StepWeight(now: real, hl: real, ts: real): real { if ts >= now - hl then 1.0 else 0.0 }

  function Weighted(ms: seq<Member>, w: real -> real): (es: seq<Entry>)
    ensures |es| == |ms| && forall i :: 0 <= i < |ms| ==> es[i] == Entry(ms[i].name, w(ms[i].ts))
  {
    seq(|ms|, i requires 0 <= i < |ms| => Entry(ms[i].name, w(ms[i].ts)))
  }

  /** One member sits on the pole of the linear weight, where the division is by zero. */
  predicate OnPole(ms: seq<Member>, now: real, hl: real)
    requires hl != 0.0
  {
    exists i :: 0 <= i < |ms| && 1.0 + (now - ms[i].ts) / hl == 0.0
  }

  lemma PushedNext(ms: seq<Member>, w: real -> real, i: nat, k: nat)
    requires i < |ms|
    ensures Take(Insert(Take(Sorted(Weighted(ms[..i], w)), k), Entry(ms[i].name, w(ms[i].ts))), k)
            == Take(Sorted(Weighted(ms[..i + 1], w)), k)
  {
    var done, e := Weighted(ms[..i], w), Entry(ms[i].name, w(ms[i].ts));
    assert Weighted(ms[..i + 1], w)[..i] == done;
    SortedDescending(done);
    InsertTake(Sorted(done), e, k);
  }

  method PushMember(board: Board, ms: seq<Member>, w: real -> real, i: nat)
    requires board.Valid() && i < |ms| && board.Entries() == Take(Sorted(Weighted(ms[..i], w)), Size(board.k))
    modifies board
    ensures board.Valid() && board.Entries() == Take(Sorted(Weighted(ms[..i + 1], w)), Size(board.k))
  {
    PushedNext(ms, w, i, Size(board.k));
    board.Push(ms[i].name, w(ms[i].ts));
  }

  /** The first member on which the weight cannot be computed ends the loop. */
  predicate Stops(ms: seq<Member>, raises: real -> bool) { exists i :: 0 <= i < |ms| && raises(ms[i].ts) }

  /** Feed a stream of weighted members to a fresh board: unless a weight raises, it ends with the head of the stable
      descending sort. */
  method PushAll(ms: seq<Member>, w: real -> real, raises: real -> bool, k: int) returns (r: Reply)
    ensures r == if Stops(ms, raises) then Raised else Ranked(Take(Sorted(Weighted(ms, w)), Size(k)))
  {
    var board := new Board(k);
    var i := 0;
    while i < |ms|
      invariant 0 <= i <= |ms| && board.Valid() && board.k == k
      invariant board.Entries() == Take(Sorted(Weighted(ms[..i], w)), Size(k))
      invariant forall j :: 0 <= j < i ==> !raises(ms[j].ts)
      modifies board
    {
      if raises(ms[i].ts) { return Raised; }
      PushMember(board, ms, w, i);
      i := i + 1;
    }
    assert ms[..i] == ms;
    return Ranked(Zip(board.names, board.scores));
  }

  /** The weight of each mode. */
  function WeightOf(mode: Mode, half: real -> real, now: real, hl: real): real -> real {
    match mode
    case Linear => ts => LinearWeight(now, hl, ts)
    case Exp => ts => ExpWeight(half, now, hl, ts)
    case _ => ts => StepWeight(now, hl, ts)
  }

  function Never(): real -> bool { ts => false }

  function AtPole(now: real, hl: real): real -> bool
    requires hl != 0.0
  {
    ts => 1.0 + (now - ts) / hl == 0.0
  }

  /** The reply of the Python script: a mode it does not know, a division by zero, or the head of the stable descending
      sort by the weight of the mode. */
  function PythonReply(flat: seq<Member>, now: real, hl: real, k: int, mode: Mode, half: real -> real): Reply {
    if mode.Other? then BadMode
    else if !mode.Step? && hl == 0.0 then Raised
    else if mode.Linear? && OnPole(flat, now, hl) then Raised
    else Ranked(Take(Sorted(Weighted(flat, WeightOf(mode, half, now, hl))), Size(k)))
  }

  method Rescore(flat: seq<Member>, now: real, hl: real, k: int, mode: Mode, half: real -> real) returns (r: Reply)
    ensures r == PythonReply(flat, now, hl, k, mode, half)
  {
    match mode
    case Linear =>
      if hl == 0.0 { return Raised; }
      r := PushAll(flat, WeightOf(mode, half, now, hl), AtPole(now, hl), k);
      assert Stops(flat, AtPole(now, hl)) <==> OnPole(flat, now, hl);
    case Exp =>
      if hl == 0.0 { return Raised; }
      r := PushAll(flat, WeightOf(mode, half, now, hl), Never(), k);
    case Step =>
      r := PushAll(flat, WeightOf(mode, half, now, hl), Never(), k);
    case Other =>
      return BadMode;
  }

  // ---- what the weightings rank: members in an order of their own -------------------------------------

  function InsertBy(ms: seq<Member>, m: Member, w: real -> real): (r: seq<Member>)
    ensures |r| == |ms| + 1
  {
    if ms == [] then [m]
    else if w(ms[|ms| - 1].ts) >= w(m.ts) then ms + [m]
    else InsertBy(ms[..|ms| - 1], m, w) + [ms[|ms| - 1]]
  }

  function SortedBy(ms: seq<Member>, w: real -> real): (r: seq<Member>)
    ensures |r| == |ms|
  {
    if ms == [] then [] else InsertBy(SortedBy(ms[..|ms| - 1], w), ms[|ms| - 1], w)
  }

  lemma {:induction false} InsertByWeighted(ms: seq<Member>, m: Member, w: real -> real)
    ensures Insert(Weighted(ms, w), Entry(m.name, w(m.ts))) == Weighted(InsertBy(ms, m, w), w)
  {
    if ms != [] && w(ms[|ms| - 1].ts) < w(m.ts) {
      var front := ms[..|ms| - 1];
      InsertByWeighted(front, m, w);
      assert Weighted(ms, w)[..|ms| - 1] == Weighted(front, w);
    }
  }

  /** Ranking weighted entries is ranking the members. */
  lemma {:induction false} SortedByWeighted(ms: seq<Member>, w: real -> real)
    ensures Sorted(Weighted(ms, w)) == Weighted(SortedBy(ms, w), w)
  {
    if ms != [] {
      var front := ms[..|ms| - 1];
      SortedByWeighted(front, w);
      InsertByWeighted(SortedBy(front, w), ms[|ms| - 1], w);
      assert Weighted(ms, w)[..|ms| - 1] == Weighted(front, w);
    }
  }

  /** Two weightings compare these members alike. */
  ghost predicate SameOrder(ms: seq<Member>, v: real -> real, w: real -> real) {
    forall a, b :: a in ms && b in ms ==> (v(a.ts) >= v(b.ts) <==> w(a.ts) >= w(b.ts))
  }

  lemma {:induction false} InsertByMembers(ms: seq<Member>, m: Member, w: real -> real)
    ensures forall x :: x in InsertBy(ms, m, w) <==> x == m || x in ms
  {
    if ms != [] && w(ms[|ms| - 1].ts) < w(m.ts) {
      var front, last := ms[..|ms| - 1], ms[|ms| - 1];
      InsertByMembers(front, m, w);
      assert ms == front + [last];
    }
  }

  lemma {:induction false} SortedByMembers(ms: seq<Member>, w: real -> real)
    ensures forall x :: x in SortedBy(ms, w) <==> x in ms
  {
    if ms != [] {
      var front, last := ms[..|ms| - 1], ms[|ms| - 1];
      SortedByMembers(front, w);
      InsertByMembers(SortedBy(front, w), last, w);
      assert ms == front + [last];
    }
  }

  lemma {:induction false} InsertByAgrees(ms: seq<Member>, m: Member, v: real -> real, w: real -> real)
    requires SameOrder(ms + [m], v, w)
    ensures InsertBy(ms, m, v) == InsertBy(ms, m, w)
  {
    if ms != [] {
      var front, last := ms[..|ms| - 1], ms[|ms| - 1];
      assert last in ms + [m] && m in ms + [m];
      assert forall x :: x in front + [m] ==> x in ms + [m];
      InsertByAgrees(front, m, v, w);
    }
  }

  /** Weightings that compare alike rank alike: only the order of the weights matters. */
  lemma {:induction false} SameRanking(ms: seq<Member>, v: real -> real, w: real -> real)
    requires SameOrder(ms, v, w)
    ensures SortedBy(ms, v) == SortedBy(ms, w)
  {
    if ms != [] {
      var front, last := ms[..|ms| - 1], ms[|ms| - 1];
      assert ms == front + [last];
      SameRanking(front, v, w);
      SortedByMembers(front, v);
      InsertByAgrees(SortedBy(front, v), last, v, w);
    }
  }

  // ---- a weighting that puts one class of members ahead of the rest -----------------------------------

  /** The members whose timestamp satisfies `p`, in order. */
  function Where(ms: seq<Member>, p: real -> bool): (r: seq<Member>)
    ensures forall x :: x in r ==> p(x.ts) && x in ms
  {
    if ms == [] then []
    else Where(ms[..|ms| - 1], p) + (if p(ms[|ms| - 1].ts) then [ms[|ms| - 1]] else [])
  }

  function Not(p: real -> bool): real -> bool { ts => !p(ts) }

  lemma {:induction false} InsertAhead(xs: seq<Member>, ys: seq<Member>, m: Member, w: real -> real)
    requires forall y :: y in ys ==> w(y.ts) < w(m.ts)
    ensures InsertBy(xs + ys, m, w) == InsertBy(xs, m, w) + ys
  {
    if ys == [] {
      assert xs + ys == xs;
    } else {
      var front, last := ys[..|ys| - 1], ys[|ys| - 1];
      InsertAhead(xs, front, m, w);
      assert (xs + ys)[..|xs + ys| - 1] == xs + front;
      assert InsertBy(xs, m, w) + front + [last] == InsertBy(xs, m, w) + ys;
    }
  }

  lemma {:induction false} InsertBehind(xs: seq<Member>, ys: seq<Member>, m: Member, w: real -> real)
    requires forall x :: x in xs ==> w(x.ts) >= w(m.ts)
    ensures InsertBy(xs + ys, m, w) == xs + InsertBy(ys, m, w)
  {
    if ys == [] {
      assert xs + ys == xs;
    } else {
      var front, last := ys[..|ys| - 1], ys[|ys| - 1];
      InsertBehind(xs, front, m, w);
      assert (xs + ys)[..|xs + ys| - 1] == xs + front;
    }
  }

  /** If every member with `p` outweighs every member without, the ranking is theirs followed by the others'. */
  lemma {:induction false} Partition(ms: seq<Member>, p: real -> bool, w: real -> real)
    requires forall a, b :: a in ms && b in ms && p(a.ts) && !p(b.ts) ==> w(a.ts) > w(b.ts)
    ensures SortedBy(ms, w) == SortedBy(Where(ms, p), w) + SortedBy(Where(ms, Not(p)), w)
  {
    if ms != [] {
      var front, m := ms[..|ms| - 1], ms[|ms| - 1];
      assert ms == front + [m];
      Partition(front, p, w);
      Distributed(front, m, p, w);
    }
  }

  lemma WhereLast(front: seq<Member>, m: Member, p: real -> bool)
    ensures Where(front + [m], p) == Where(front, p) + if p(m.ts) then [m] else []
  {
  }

  lemma SortedByLast(front: seq<Member>, m: Member, w: real -> real)
    ensures SortedBy(front + [m], w) == InsertBy(SortedBy(front, w), m, w)
  {
  }

  /** One more member goes into its own class. */
  lemma Distributed(front: seq<Member>, m: Member, p: real -> bool, w: real -> real)
    requires forall x :: x in front && p(x.ts) && !p(m.ts) ==> w(x.ts) > w(m.ts)
    requires forall x :: x in front && !p(x.ts) && p(m.ts) ==> w(x.ts) < w(m.ts)
    requires SortedBy(front, w) == SortedBy(Where(front, p), w) + SortedBy(Where(front, Not(p)), w)
    ensures SortedBy(front + [m], w) == SortedBy(Where(front + [m], p), w) + SortedBy(Where(front + [m], Not(p)), w)
  {
    var xs, ys := Where(front, p), Where(front, Not(p));
    WhereLast(front, m, p);
    WhereLast(front, m, Not(p));
    SortedByLast(front, m, w);
    if p(m.ts) {
      SortedByMembers(ys, w);
      InsertAhead(SortedBy(xs, w), SortedBy(ys, w), m, w);
      SortedByLast(xs, m, w);
      assert ys + [] == ys;
    } else {
      SortedByMembers(xs, w);
      InsertBehind(SortedBy(xs, w), SortedBy(ys, w), m, w);
      SortedByLast(ys, m, w);
      assert xs + [] == xs;
    }
  }

  lemma {:induction false} EqualWeightsKeepOrder(ms: seq<Member>, w: real -> real)
    requires forall a, b :: a in ms && b in ms ==> w(a.ts) == w(b.ts)
    ensures SortedBy(ms, w) == ms
  {
    if ms != [] {
      var front, m := ms[..|ms| - 1], ms[|ms| - 1];
      assert ms == front + [m];
      EqualWeightsKeepOrder(front, w);
    }
  }

  // ---- what each mode ranks ---------------------------------------------------------------------------

  function Recency(): real -> real { ts => ts }

  lemma TwoLevels(ms: seq<Member>, p: real -> bool, w: real -> real)
    requires forall ts :: w(ts) == if p(ts) then 1.0 else 0.0
    ensures SortedBy(ms, w) == Where(ms, p) + Where(ms, Not(p))
  {
    Partition(ms, p, w);
    EqualWeightsKeepOrder(Where(ms, p), w);
    EqualWeightsKeepOrder(Where(ms, Not(p)), w);
  }

  /** STEP lists the members inside the window in input order, then those outside in input order. */
  lemma StepRanking(ms: seq<Member>, now: real, hl: real)
    ensures var recent: real -> bool := ts => ts >= now - hl;
            SortedBy(ms, ts => StepWeight(now, hl, ts)) == Where(ms, recent) + Where(ms, Not(recent))
  {
    var recent: real -> bool := ts => ts >= now - hl;
    var w: real -> real := ts => StepWeight(now, hl, ts);
    TwoLevels(ms, recent, w);
  }

  /** EXP ranks by recency, for any base function that strictly decreases and any positive half-life. */
  lemma ExpRanking(ms: seq<Member>, half: real -> real, now: real, hl: real)
    requires hl > 0.0 && forall x, y :: x < y ==> half(x) > half(y)
    ensures SortedBy(ms, ts => ExpWeight(half, now, hl, ts)) == SortedBy(ms, Recency())
  {
    var w: real -> real := ts => ExpWeight(half, now, hl, ts);
    forall a, b | a in ms && b in ms ensures w(a.ts) >= w(b.ts) <==> a.ts >= b.ts {
      var x, y := (now - a.ts) / hl, (now - b.ts) / hl;
      assert a.ts < b.ts ==> x > y;
      assert a.ts > b.ts ==> x < y;
    }
    SameRanking(ms, w, Recency());
  }

  lemma LinearValue(now: real, hl: real, ts: real)
    requires hl > 0.0 && ts != now + hl
    ensures LinearWeight(now, hl, ts) == hl / (now + hl - ts)
  {
  }

  lemma LinearCompare(now: real, hl: real, a: real, b: real)
    requires hl > 0.0 && a != now + hl && b != now + hl && a < b
    ensures LinearWeight(now, hl, a) < LinearWeight(now, hl, b) <==> (a < now + hl <==> b < now + hl)
    ensures LinearWeight(now, hl, a) > LinearWeight(now, hl, b) <==> a < now + hl < b
  {
    LinearValue(now, hl, a);
    LinearValue(now, hl, b);
    Quotients(hl, now + hl - a, now + hl - b);
  }

  lemma Quotients(h: real, x: real, y: real)
    requires h > 0.0 && x > y && x != 0.0 && y != 0.0
    ensures h / x < h / y <==> (x > 0.0 <==> y > 0.0)
    ensures h / x > h / y <==> x > 0.0 > y
  {
  }

  /** LINEAR ranks by recency up to its pole, one half-life past `now`, and puts everything later behind that. */
  lemma LinearRanking(ms: seq<Member>, now: real, hl: real)
    requires hl > 0.0 && !OnPole(ms, now, hl)
    ensures var early: real -> bool := ts => ts < now + hl;
            SortedBy(ms, ts => LinearWeight(now, hl, ts))
            == SortedBy(Where(ms, early), Recency()) + SortedBy(Where(ms, Not(early)), Recency())
  {
    var early: real -> bool := ts => ts < now + hl;
    var w: real -> real := ts => LinearWeight(now, hl, ts);
    OffPole(ms, now, hl);
    forall a, b | a in ms && b in ms && early(a.ts) && !early(b.ts) ensures w(a.ts) > w(b.ts) {
      LinearCompare(now, hl, a.ts, b.ts);
    }
    Partition(ms, early, w);
    LinearOneSide(Where(ms, early), now, hl);
    LinearOneSide(Where(ms, Not(early)), now, hl);
  }

  lemma OffPole(ms: seq<Member>, now: real, hl: real)
    requires hl > 0.0 && !OnPole(ms, now, hl)
    ensures forall m :: m in ms ==> m.ts != now + hl
  {
  }

  lemma LinearOneSide(ms: seq<Member>, now: real, hl: real)
    requires hl > 0.0 && forall m :: m in ms ==> m.ts != now + hl
    requires forall a, b :: a in ms && b in ms ==> (a.ts < now + hl <==> b.ts < now + hl)
    ensures SortedBy(ms, ts => LinearWeight(now, hl, ts)) == SortedBy(ms, Recency())
  {
    var w: real -> real := ts => LinearWeight(now, hl, ts);
    forall a, b | a in ms && b in ms ensures w(a.ts) >= w(b.ts) <==> a.ts >= b.ts {
      if a.ts < b.ts {
        LinearCompare(now, hl, a.ts, b.ts);
      } else if b.ts < a.ts {
        LinearCompare(now, hl, b.ts, a.ts);
      }
    }
    SameRanking(ms, w, Recency());
  }

  lemma Placed(ms: seq<Member>, w: real -> real, a: Member, b: Member) returns (i: nat, j: nat)
    requires a in ms && b in ms && w(a.ts) > w(b.ts)
    ensures i < j < |ms| && SortedBy(ms, w)[i] == a && SortedBy(ms, w)[j] == b
    ensures forall x, y :: 0 <= x <= y < |ms| ==> w(SortedBy(ms, w)[x].ts) >= w(SortedBy(ms, w)[y].ts)
  {
    var r := SortedBy(ms, w);
    SortedByMembers(ms, w);
    SortedByWeighted(ms, w);
    SortedDescending(Weighted(ms, w));
    forall x, y | 0 <= x <= y < |ms| ensures w(r[x].ts) >= w(r[y].ts) {
      assert Weighted(r, w)[x].weight >= Weighted(r, w)[y].weight;
    }
    i :| 0 <= i < |r| && r[i] == a;
    j :| 0 <= j < |r| && r[j] == b;
  }

  /** LINEAR is a recency ranking exactly when no two members lie on opposite sides of its pole. */
  lemma LinearIsRecencyExactly(ms: seq<Member>, now: real, hl: real)
    requires hl > 0.0 && !OnPole(ms, now, hl)
    ensures SortedBy(ms, ts => LinearWeight(now, hl, ts)) == SortedBy(ms, Recency())
            <==> !exists a, b :: a in ms && b in ms && a.ts < now + hl < b.ts
  {
    var w: real -> real := ts => LinearWeight(now, hl, ts);
    OffPole(ms, now, hl);
    if a, b :| a in ms && b in ms && a.ts < now + hl < b.ts {
      LinearCompare(now, hl, a.ts, b.ts);
      var i, j := Placed(ms, w, a, b);
      var x, y := Placed(ms, Recency(), b, a);
      assert SortedBy(ms, w)[j].ts > SortedBy(ms, w)[i].ts;
    } else {
      LinearOneSide(ms, now, hl);
    }
  }

  function NamesOf(es: seq<Entry>): (names: seq<string>)
    ensures |names| == |es| && forall i :: 0 <= i < |es| ==> names[i] == es[i].name
  {
    seq(|es|, i requires 0 <= i < |es| => es[i].name)
  }

  lemma NamesCut(r: seq<Member>, v: real -> real, w: real -> real, k: nat)
    ensures NamesOf(Take(Weighted(r, v), k)) == NamesOf(Take(Weighted(r, w), k))
  {
  }

  /** With nothing past the pole LINEAR and EXP return the same names in the same order, whatever the bound. */
  lemma LinearMatchesExp(ms: seq<Member>, half: real -> real, now: real, hl: real, k: nat)
    requires hl > 0.0 && (forall x, y :: x < y ==> half(x) > half(y)) && forall m :: m in ms ==> m.ts < now + hl
    ensures NamesOf(Take(Sorted(Weighted(ms, ts => LinearWeight(now, hl, ts))), k))
            == NamesOf(Take(Sorted(Weighted(ms, ts => ExpWeight(half, now, hl, ts))), k))
  {
    var v: real -> real := ts => LinearWeight(now, hl, ts);
    var w: real -> real := ts => ExpWeight(half, now, hl, ts);
    LinearOneSide(ms, now, hl);
    ExpRanking(ms, half, now, hl);
    SortedByWeighted(ms, v);
    SortedByWeighted(ms, w);
    NamesCut(SortedBy(ms, v), v, w, k);
  }

  /** A STEP reply: members inside the window, then those outside, each in input order, cut at the bound. */
  lemma StepReply(ms: seq<Member>, now: real, hl: real, k: nat)
    ensures var recent: real -> bool := ts => ts >= now - hl;
            var w: real -> real := ts => StepWeight(now, hl, ts);
            Take(Sorted(Weighted(ms, w)), k) == Take(Weighted(Where(ms, recent) + Where(ms, Not(recent)), w), k)
  {
    StepRanking(ms, now, hl);
    SortedByWeighted(ms, ts => StepWeight(now, hl, ts));
  }

  /** The weights decay by the half-life: a member of this moment weighs one; EXP halves with every half-life of age, LINEAR
      falls to a half at the first and to 1 / (1 + n) at the n-th. */
  lemma HalfLife(half: real -> real, now: real, hl: real, ts: real, n: nat)
    requires hl > 0.0 && half(0.0) == 1.0 && half((now - ts) / hl + 1.0) == half((now - ts) / hl) / 2.0
    ensures ExpWeight(half, now, hl, now) == 1.0 && ExpWeight(half, now, hl, ts - hl) == ExpWeight(half, now, hl, ts) / 2.0
    ensures LinearWeight(now, hl, now - n as real * hl) == 1.0 / (1.0 + n as real)
  {
    var age := (now - ts) / hl;
    Ratio(now - (ts - hl), age + 1.0, hl);
    Ratio(now - (now - n as real * hl), n as real, hl);
    Ratio(now - now, 0.0, hl);
  }

  lemma Ratio(z: real, x: real, y: real)
    requires y != 0.0 && z == x * y
    ensures z / y == x
  {
  }

  lemma RankedBy(flat: seq<Member>, w: real -> real, v: real -> real, ranking: seq<Member>, k: nat)
    requires (forall ts :: w(ts) == v(ts)) && SortedBy(flat, v) == ranking
    ensures Take(Sorted(Weighted(flat, w)), k) == Take(Weighted(ranking, w), k)
  {
    SameRanking(flat, w, v);
    SortedByWeighted(flat, w);
  }

  /** The whole EXP reply: the most recent members first, equally recent ones in input order, cut at the bound. */
  lemma ExpReply(flat: seq<Member>, half: real -> real, now: real, hl: real, k: int)
    requires hl > 0.0 && forall x, y :: x < y ==> half(x) > half(y)
    ensures PythonReply(flat, now, hl, k, Exp, half)
            == Ranked(Take(Weighted(SortedBy(flat, Recency()), WeightOf(Exp, half, now, hl)), Size(k)))
  {
    ExpRanking(flat, half, now, hl);
    RankedBy(flat, WeightOf(Exp, half, now, hl), ts => ExpWeight(half, now, hl, ts), SortedBy(flat, Recency()), Size(k));
  }

  /** The whole LINEAR reply: it fails exactly when a member is one half-life ahead of `now`, and otherwise lists the earlier
      members by recency, then the later ones by recency, cut at the bound. */
  lemma LinearReply(flat: seq<Member>, half: real -> real, now: real, hl: real, k: int)
    requires hl > 0.0
    ensures var early: real -> bool := ts => ts < now + hl;
      PythonReply(flat, now, hl, k, Linear, half)
      == if exists m :: m in flat && m.ts == now + hl then Raised
         else Ranked(Take(Weighted(SortedBy(Where(flat, early), Recency()) + SortedBy(Where(flat, Not(early)), Recency()),
                                   WeightOf(Linear, half, now, hl)), Size(k)))
  {
    PoleExactly(flat, now, hl);
    if !OnPole(flat, now, hl) {
      var early: real -> bool := ts => ts < now + hl;
      LinearRanking(flat, now, hl);
      RankedBy(flat, WeightOf(Linear, half, now, hl), ts => LinearWeight(now, hl, ts),
               SortedBy(Where(flat, early), Recency()) + SortedBy(Where(flat, Not(early)), Recency()), Size(k));
    }
  }

  lemma PoleExactly(ms: seq<Member>, now: real, hl: real)
    requires hl > 0.0
    ensures OnPole(ms, now, hl) <==> exists m :: m in ms && m.ts == now + hl
  {
    if m :| m in ms && m.ts == now + hl {
      var i :| 0 <= i < |ms| && ms[i] == m;
      assert (now - ms[i].ts) / hl == -1.0;
    }
  }
}
