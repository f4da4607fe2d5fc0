/** The Lua form of the rescore in benchmarks/leaderboard_rescore_benchmark.py: one-based tables with a counter, numbers
    that overflow into infinities instead of raising, and a comparison that fails on a missing score. */
module LuaLeaderboard {
  import opened Leaderboard

  // ---- Lua numbers ------------------------------------------------------------------------------------

  /** A Lua number without rounding: real, infinite, or the result of an undefined operation. */
  datatype Num = Finite(value: real) | Infinite | MinusInfinite | Undefined

  /** `a > b`, which an undefined operand makes false. */
  predicate Outweighs(a: Num, b: Num) {
    match a
    case Finite(x) => b.MinusInfinite? || (b.Finite? && x > b.value)
    case Infinite => b.Finite? || b.MinusInfinite?
    case MinusInfinite => false
    case Undefined => false
  }

  function Inverse(hl: real): Num { if hl == 0.0 then Infinite else Finite(1.0 / hl) }

  function Times(x: real, y: Num): Num {
    match y
    case Finite(v) => Finite(x * v)
    case Infinite => if x > 0.0 then Infinite else if x < 0.0 then MinusInfinite else Undefined
    case MinusInfinite => if x > 0.0 then MinusInfinite else if x < 0.0 then Infinite else Undefined
    case Undefined => Undefined
  }

  /** `1.0 / (1.0 + x)`. */
  function OneOverOnePlus(x: Num): Num {
    match x
    case Finite(v) => if 1.0 + v == 0.0 then Infinite else Finite(1.0 / (1.0 + v))
    case Infinite => Finite(0.0)
    case MinusInfinite => Finite(0.0)
    case Undefined => Undefined
  }

  /** The power of one half: `half` on reals, with its limits at the infinities. */
  function HalfPower(half: real -> real, x: Num): Num {
    match x
    case Finite(v) => Finite(half(v))
    case Infinite => Finite(0.0)
    case MinusInfinite => Infinite
    case Undefined => Undefined
  }

  function LuaWeight(mode: Mode, half: real -> real, now: real, hl: real, ts: real): Num {
    match mode
    case Linear => OneOverOnePlus(Times(now - ts, Inverse(hl)))
    case Exp => HalfPower(half, Times(now - ts, Inverse(hl)))
    case _ => Finite(StepWeight(now, hl, ts))
  }

  // ---- what the tables should hold --------------------------------------------------------------------

  datatype Rated = Rated(name: string, weight: Num)

  /** Put `e` behind the last entry it does not outweigh. */
  function Place(es: seq<Rated>, e: Rated): (r: seq<Rated>)
    ensures |r| == |es| + 1
  {
    if es == [] || !Outweighs(e.weight, es[|es| - 1].weight) then es + [e]
    else Place(es[..|es| - 1], e) + [es[|es| - 1]]
  }

  /** One push onto at most `k` entries. */
  function Keep(es: seq<Rated>, e: Rated, k: nat): (r: seq<Rated>)
    ensures |es| <= k ==> |r| <= k
  {
    if |es| < k then Place(es, e)
    else if 0 < k <= |es| && Outweighs(e.weight, es[k - 1].weight) then Place(es[..k - 1], e)
    else es
  }

  function KeepAll(es: seq<Rated>, k: nat): (r: seq<Rated>)
    ensures |r| <= k
  {
    if es == [] then [] else Keep(KeepAll(es[..|es| - 1], k), es[|es| - 1], k)
  }

  // ---- the tables -------------------------------------------------------------------------------------

  ghost predicate IsTable<T>(t: map<int, T>, n: int) { forall i :: i in t <==> 1 <= i <= n }

  ghost function Listed(names: map<int, string>, scores: map<int, Num>, n: nat): (es: seq<Rated>)
    requires IsTable(names, n) && IsTable(scores, n)
    ensures |es| == n && forall i :: 0 <= i < n ==> es[i] == Rated(names[i + 1], scores[i + 1])
  {
    seq(n, i requires 0 <= i < n => Rated(names[i + 1], scores[i + 1]))
  }

  /** `e` on its way up: it has passed everything from position `j` on. */
  ghost predicate Rising(now: seq<Rated>, before: seq<Rated>, e: Rated, j: int) {
    && 0 <= j <= |before|
    && now == before[..j] + [e] + before[j..]
    && Place(before, e) == Place(before[..j], e) + before[j..]
  }

  lemma RiseStep(now: seq<Rated>, before: seq<Rated>, e: Rated, j: int)
    requires Rising(now, before, e, j) && j > 0 && Outweighs(now[j].weight, now[j - 1].weight)
    ensures Rising(now[j := now[j - 1]][j - 1 := now[j]], before, e, j - 1)
  {
    assert now[j] == e && now[j - 1] == before[j - 1];
    assert before[..j][..j - 1] == before[..j - 1];
    assert [before[j - 1]] + before[j..] == before[j - 1..];
    assert now[j := now[j - 1]][j - 1 := now[j]] == before[..j - 1] + [e] + before[j - 1..];
  }

  lemma RiseDone(now: seq<Rated>, before: seq<Rated>, e: Rated, j: int)
    requires Rising(now, before, e, j) && (j > 0 ==> !Outweighs(now[j].weight, now[j - 1].weight))
    ensures now == Place(before, e)
  {
    assert now[j] == e;
    assert j > 0 ==> now[j - 1] == before[..j][j - 1];
  }

  lemma ListedSwap(names: map<int, string>, scores: map<int, Num>, n: nat, j: int)
    requires IsTable(names, n) && IsTable(scores, n) && 1 < j <= n
    ensures var swapped := names[j := names[j - 1]][j - 1 := names[j]];
            var scored := scores[j := scores[j - 1]][j - 1 := scores[j]];
            && IsTable(swapped, n) && IsTable(scored, n)
            && var es := Listed(names, scores, n);
               Listed(swapped, scored, n) == es[j - 1 := es[j - 2]][j - 2 := es[j - 1]]
  {
  }

  /** The tables after `names[i], scores[i] = name, s`, for the last position or the one behind it. */
  lemma ListedSet(names: map<int, string>, scores: map<int, Num>, n: nat, i: int, name: string, s: Num)
    requires IsTable(names, n) && IsTable(scores, n) && 1 <= i && n <= i <= n + 1
    ensures IsTable(names[i := name], i) && IsTable(scores[i := s], i)
    ensures Rising(Listed(names[i := name], scores[i := s], i), Listed(names, scores, n)[..i - 1], Rated(name, s), i - 1)
  {
    var es, e := Listed(names, scores, n)[..i - 1], Rated(name, s);
    assert es[..i - 1] == es && es[i - 1..] == [];
    assert Listed(names[i := name], scores[i := s], i) == es + [e] + [];
    assert Place(es, e) + [] == Place(es, e);
  }

  /** The tables of the script, their counter and the bound. */
  class LuaBoard {
    const k: int
    var names: map<int, string>
    var scores: map<int, Num>
    var n: nat

    ghost predicate Valid()
      reads this
    {
      IsTable(names, n) && IsTable(scores, n) && n <= Size(k)
    }

    ghost function Entries(): seq<Rated>
      reads this
      requires Valid()
    {
      Listed(names, scores, n)
    }

    constructor (bound: int)
      ensures Valid() && Entries() == [] && k == bound
    {
      k, names, scores, n := bound, map[], map[], 0;
    }

    /** Exchange positions `j - 1` and `j`: the entry on its way up passes one more. */
    method Exchange(j: int, ghost before: seq<Rated>, ghost e: Rated)
      requires IsTable(names, n) && IsTable(scores, n) && 1 < j <= n == |before| + 1
      requires Rising(Listed(names, scores, n), before, e, j - 1) && Outweighs(scores[j], scores[j - 1])
      modifies this`names, this`scores
      ensures IsTable(names, n) && IsTable(scores, n) && Rising(Listed(names, scores, n), before, e, j - 2)
    {
      ListedSwap(names, scores, n, j);
      RiseStep(Listed(names, scores, n), before, e, j - 1);
      names := names[j := names[j - 1]][j - 1 := names[j]];
      scores := scores[j := scores[j - 1]][j - 1 := scores[j]];
    }

    /** The loop both branches end in: swap the entry at `start` upwards while it outweighs its neighbour. */
    method Rise(start: int, ghost before: seq<Rated>, ghost e: Rated)
      requires IsTable(names, n) && IsTable(scores, n) && start == n == |before| + 1
      requires Rising(Listed(names, scores, n), before, e, start - 1)
      modifies this`names, this`scores
      ensures IsTable(names, n) && IsTable(scores, n) && Listed(names, scores, n) == Place(before, e)
    {
      var j := start;
      while j > 1 && Outweighs(scores[j], scores[j - 1])
        invariant 1 <= j <= n && IsTable(names, n) && IsTable(scores, n)
        invariant Rising(Listed(names, scores, n), before, e, j - 1)
      {
        Exchange(j, before, e);
        j := j - 1;
      }
      RiseDone(Listed(names, scores, n), before, e, j - 1);
    }

    /** The first branch: append at `n + 1`, then swap upwards. */
    method PushBehind(name: string, s: Num)
      requires Valid() && n < k
      modifies this`names, this`scores, this`n
      ensures Valid() && Entries() == Place(old(Entries()), Rated(name, s))
    {
      ghost var es := Entries();
      ListedSet(names, scores, n, n + 1, name, s);
      assert es[..n] == es;
      n := n + 1;
      names, scores := names[n := name], scores[n := s];
      Rise(n, es, Rated(name, s));
    }

    /** The second branch: overwrite position `k`, then swap upwards. */
    method PushOver(name: string, s: Num)
      requires Valid() && n == k >= 1
      modifies this`names, this`scores
      ensures Valid() && Entries() == Place(old(Entries())[..k - 1], Rated(name, s))
    {
      ghost var front := Entries()[..k - 1];
      ListedSet(names, scores, n, k, name, s);
      names, scores := names[k := name], scores[k := s];
      Rise(k, front, Rated(name, s));
    }

    /** Comparing with a score that is not there is an error: that happens exactly for a bound below one. */
    method Push(name: string, s: Num) returns (ok: bool)
      requires Valid()
      modifies this`names, this`scores, this`n
      ensures Valid() && (ok <==> k >= 1)
      ensures Entries() == if ok then Keep(old(Entries()), Rated(name, s), Size(k)) else old(Entries())
    {
      if n < k {
        PushBehind(name, s);
      } else if k !in scores {
        return false;
      } else if Outweighs(s, scores[k]) {
        PushOver(name, s);
      }
      return true;
    }

    method Collect() returns (out: seq<Rated>)
      requires Valid()
      ensures out == Entries()
    {
      out := [];
      for i := 1 to n + 1
        invariant out == Entries()[..i - 1]
      {
        out := out + [Rated(names[i], scores[i])];
      }
    }
  }

  // ---- the stream -------------------------------------------------------------------------------------

  datatype LuaReply = LuaRanked(entries: seq<Rated>) | LuaBadMode | LuaFailed

  function RatedAll(ms: seq<Member>, w: real -> Num): (es: seq<Rated>)
    ensures |es| == |ms| && forall i :: 0 <= i < |ms| ==> es[i] == Rated(ms[i].name, w(ms[i].ts))
  {
    seq(|ms|, i requires 0 <= i < |ms| => Rated(ms[i].name, w(ms[i].ts)))
  }

  /** The reply of the Lua script on every input, infinities and undefined weights included. */
  function LuaReplyOf(flat: seq<Member>, now: real, hl: real, k: int, mode: Mode, half: real -> real): LuaReply {
    if mode.Other? then LuaBadMode
    else if k < 1 && flat != [] then LuaFailed
    else LuaRanked(KeepAll(RatedAll(flat, ts => LuaWeight(mode, half, now, hl, ts)), Size(k)))
  }

  lemma KeptNext(ms: seq<Member>, w: real -> Num, i: nat, k: nat)
    requires i < |ms|
    ensures Keep(KeepAll(RatedAll(ms[..i], w), k), Rated(ms[i].name, w(ms[i].ts)), k) == KeepAll(RatedAll(ms[..i + 1], w), k)
  {
    assert RatedAll(ms[..i + 1], w)[..i] == RatedAll(ms[..i], w);
  }

  method PushRated(ms: seq<Member>, w: real -> Num, k: int) returns (r: LuaReply)
    ensures r == if k < 1 && ms != [] then LuaFailed else LuaRanked(KeepAll(RatedAll(ms, w), Size(k)))
  {
    var board := new LuaBoard(k);
    var i := 0;
    while i < |ms|
      invariant 0 <= i <= |ms| && board.Valid() && board.k == k && (i > 0 ==> k >= 1)
      invariant board.Entries() == KeepAll(RatedAll(ms[..i], w), Size(k))
      modifies board
    {
      KeptNext(ms, w, i, Size(k));
      var ok := board.Push(ms[i].name, w(ms[i].ts));
      if !ok { return LuaFailed; }
      i := i + 1;
    }
    assert ms[..i] == ms;
    var out := board.Collect();
    return LuaRanked(out);
  }

  method LuaRescore(flat: seq<Member>, now: real, hl: real, k: int, mode: Mode, half: real -> real) returns (r: LuaReply)
    ensures r == LuaReplyOf(flat, now, hl, k, mode, half)
  {
    if mode == Other { return LuaBadMode; }
    r := PushRated(flat, ts => LuaWeight(mode, half, now, hl, ts), k);
  }

  // ---- where the two scripts agree --------------------------------------------------------------------

  /** The same entries with their weights as Lua numbers. */
  function Lifted(es: seq<Entry>): (rs: seq<Rated>)
    ensures |rs| == |es| && forall i :: 0 <= i < |es| ==> rs[i] == Rated(es[i].name, Finite(es[i].weight))
  {
    seq(|es|, i requires 0 <= i < |es| => Rated(es[i].name, Finite(es[i].weight)))
  }

  lemma {:induction false} PlaceLifted(es: seq<Entry>, e: Entry)
    ensures Place(Lifted(es), Rated(e.name, Finite(e.weight))) == Lifted(Insert(es, e))
  {
    if es != [] && es[|es| - 1].weight < e.weight {
      PlaceLifted(es[..|es| - 1], e);
      assert Lifted(es)[..|es| - 1] == Lifted(es[..|es| - 1]);
    }
  }

  lemma LiftedCut(es: seq<Entry>, k: nat)
    requires k <= |es|
    ensures Lifted(es[..k]) == Lifted(es)[..k]
  {
  }

  lemma KeepReplaces(es: seq<Entry>, e: Entry, k: nat)
    requires |es| == k > 0 && e.weight > es[k - 1].weight
    ensures Keep(Lifted(es), Rated(e.name, Finite(e.weight)), k) == Lifted(Take(Insert(es, e), k))
  {
    Replaced(es, e, k);
    PlaceLifted(es[..k - 1], e);
    LiftedCut(es, k - 1);
  }

  lemma KeepAppends(es: seq<Entry>, e: Entry, k: nat)
    requires |es| < k
    ensures Keep(Lifted(es), Rated(e.name, Finite(e.weight)), k) == Lifted(Take(Insert(es, e), k))
  {
    PlaceLifted(es, e);
  }

  lemma KeepRejects(es: seq<Entry>, e: Entry, k: nat)
    requires |es| == k && (k > 0 ==> e.weight <= es[k - 1].weight)
    ensures Keep(Lifted(es), Rated(e.name, Finite(e.weight)), k) == Lifted(Take(Insert(es, e), k))
  {
    Rejected(es, e, k);
  }

  /** On real weights one push of either script is the same cut insertion. */
  lemma KeepLifted(es: seq<Entry>, e: Entry, k: nat)
    requires |es| <= k
    ensures Keep(Lifted(es), Rated(e.name, Finite(e.weight)), k) == Lifted(Take(Insert(es, e), k))
  {
    if |es| < k {
      KeepAppends(es, e, k);
    } else if k > 0 && e.weight > es[k - 1].weight {
      KeepReplaces(es, e, k);
    } else {
      KeepRejects(es, e, k);
    }
  }

  lemma SortedNext(front: seq<Entry>, last: Entry, k: nat)
    ensures Take(Insert(Take(Sorted(front), k), last), k) == Take(Sorted(front + [last]), k)
  {
    SortedDescending(front);
    InsertTake(Sorted(front), last, k);
    assert (front + [last])[..|front|] == front;
  }

  lemma LiftedLast(front: seq<Entry>, last: Entry)
    ensures Lifted(front + [last]) == Lifted(front) + [Rated(last.name, Finite(last.weight))]
  {
  }

  lemma KeepAllNext(front: seq<Rated>, last: Rated, k: nat)
    ensures KeepAll(front + [last], k) == Keep(KeepAll(front, k), last, k)
  {
    assert (front + [last])[..|front|] == front;
  }

  lemma {:induction false} KeepAllLifted(es: seq<Entry>, k: nat)
    ensures KeepAll(Lifted(es), k) == Lifted(Take(Sorted(es), k))
  {
    if es != [] {
      var front, last := es[..|es| - 1], es[|es| - 1];
      assert es == front + [last];
      KeepAllLifted(front, k);
      LiftedLast(front, last);
      KeepAllNext(Lifted(front), Rated(last.name, Finite(last.weight)), k);
      KeepLifted(Take(Sorted(front), k), last, k);
      SortedNext(front, last, k);
    }
  }

  lemma QuotientIsProduct(x: real, hl: real)
    requires hl != 0.0
    ensures x * (1.0 / hl) == x / hl
  {
  }

  lemma FiniteWeight(mode: Mode, half: real -> real, now: real, hl: real, ts: real)
    requires mode.Step? || (mode.Exp? && hl != 0.0) || (mode.Linear? && hl != 0.0 && 1.0 + (now - ts) / hl != 0.0)
    ensures LuaWeight(mode, half, now, hl, ts) == Finite(WeightOf(mode, half, now, hl)(ts))
  {
    if !mode.Step? {
      QuotientIsProduct(now - ts, hl);
      assert Times(now - ts, Inverse(hl)) == Finite((now - ts) / hl);
    }
    match mode
    case Linear => assert WeightOf(mode, half, now, hl)(ts) == LinearWeight(now, hl, ts);
    case Exp => assert WeightOf(mode, half, now, hl)(ts) == ExpWeight(half, now, hl, ts);
    case _ =>
  }

  /** The same reply: an unknown mode, or the same names with the same weights in the same order. */
  predicate Agree(p: Reply, l: LuaReply) {
    (p.BadMode? && l.LuaBadMode?) || (p.Ranked? && l.LuaRanked? && l.entries == Lifted(p.entries))
  }

  lemma AgreeWhenFinite(flat: seq<Member>, now: real, hl: real, k: int, mode: Mode, half: real -> real)
    requires k >= 1 || flat == []
    requires mode.Step? || (mode.Exp? && hl != 0.0) || (mode.Linear? && hl != 0.0 && !OnPole(flat, now, hl))
    ensures Agree(PythonReply(flat, now, hl, k, mode, half), LuaReplyOf(flat, now, hl, k, mode, half))
  {
    var w: real -> Num := ts => LuaWeight(mode, half, now, hl, ts);
    var es := Weighted(flat, WeightOf(mode, half, now, hl));
    forall i | 0 <= i < |flat| ensures RatedAll(flat, w)[i] == Lifted(es)[i] {
      FiniteWeight(mode, half, now, hl, flat[i].ts);
    }
    assert RatedAll(flat, w) == Lifted(es);
    KeepAllLifted(es, Size(k));
  }

  /** The Python and the Lua script give the same reply exactly when the mode is unknown to both, or the bound is at
      least one or there is nothing to rank, and no weight divides by zero. */
  lemma ScriptsAgreeExactly(flat: seq<Member>, now: real, hl: real, k: int, mode: Mode, half: real -> real)
    ensures Agree(PythonReply(flat, now, hl, k, mode, half), LuaReplyOf(flat, now, hl, k, mode, half))
            <==> mode.Other? || ((k >= 1 || flat == []) && (mode.Step? || hl != 0.0)
                                 && (mode.Linear? && hl != 0.0 ==> !OnPole(flat, now, hl)))
  {
    if (k >= 1 || flat == []) && !mode.Other? && (mode.Step? || hl != 0.0) && (mode.Linear? ==> !OnPole(flat, now, hl)) {
      AgreeWhenFinite(flat, now, hl, k, mode, half);
    }
  }

  lemma PlaceLast(es: seq<Rated>, e: Rated, k: nat)
    requires |es| <= k && (es != [] ==> !Outweighs(e.weight, es[|es| - 1].weight))
    ensures Keep(es, e, k) == if |es| < k then es + [e] else es
  {
  }

  function Cut(es: seq<Rated>, k: nat): seq<Rated> { if |es| <= k then es else es[..k] }

  lemma CutNext(front: seq<Rated>, last: Rated, k: nat)
    ensures Cut(front + [last], k) == if |Cut(front, k)| < k then Cut(front, k) + [last] else Cut(front, k)
  {
  }

  lemma {:induction false} NothingOutweighs(es: seq<Rated>, k: nat)
    requires forall i, j :: 0 <= i < |es| && 0 <= j < |es| ==> !Outweighs(es[i].weight, es[j].weight)
    ensures KeepAll(es, k) == Cut(es, k)
  {
    if es != [] {
      var front, last := es[..|es| - 1], es[|es| - 1];
      NothingOutweighs(front, k);
      assert es == front + [last];
      KeepAllNext(front, last, k);
      PlaceLast(Cut(front, k), last, k);
      CutNext(front, last, k);
    }
  }

  /** With a half-life of zero Python raises before it looks at a member, while LINEAR in Lua finds no member heavier
      than another and returns the first ones in input order. */
  lemma ZeroHalfLife(flat: seq<Member>, now: real, k: int, half: real -> real)
    requires k >= 1
    ensures PythonReply(flat, now, 0.0, k, Linear, half) == Raised
    ensures var es := RatedAll(flat, ts => LuaWeight(Linear, half, now, 0.0, ts));
            LuaReplyOf(flat, now, 0.0, k, Linear, half) == LuaRanked(Cut(es, k))
  {
    NothingOutweighs(RatedAll(flat, ts => LuaWeight(Linear, half, now, 0.0, ts)), k);
  }

  /** A member on the pole makes Python raise, while Lua ranks it with an infinite weight. */
  lemma PoleInLua(name: string, now: real, hl: real, half: real -> real)
    requires hl > 0.0
    ensures var flat := [Member(name, now + hl)];
            && PythonReply(flat, now, hl, 1, Linear, half) == Raised
            && LuaReplyOf(flat, now, hl, 1, Linear, half) == LuaRanked([Rated(name, Infinite)])
  {
    var flat := [Member(name, now + hl)];
    var es := RatedAll(flat, ts => LuaWeight(Linear, half, now, hl, ts));
    QuotientIsProduct(now - (now + hl), hl);
    assert (now - (now + hl)) / hl == -1.0;
    assert 1.0 + (now - flat[0].ts) / hl == 0.0;
    assert es == [Rated(name, Infinite)];
    NothingOutweighs(es, 1);
  }
}
