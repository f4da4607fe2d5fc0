/** The counting idioms of benchmarks/idiom_native_vs_lua.py: bounded increment, decrement-if-positive and
    set-if-greater. Numbers are integers small enough to be exact in the scripts' double arithmetic. */
module Counters {
  import opened Decimal

  datatype Step = IncrBound(delta: int, max: int) | DecrPos

  /** A counter key; an absent one reads as zero. */
  function Read(c: Option<int>): int { if c.Some? then c.value else 0 }

  function Apply(c: Option<int>, step: Step): (Option<int>, int) {
    match step
    case IncrBound(delta, max) =>
      if Read(c) + delta <= max then (Some(Read(c) + delta), Read(c) + delta) else (c, -1)
    case DecrPos => if Read(c) > 0 then (Some(Read(c) - 1), Read(c) - 1) else (c, -1)
  }

  /** The scripts' calls on one key: a counter, or the one hash field of set-if-greater. */
  class Cell {
    var value: Option<int>

    method CallGet() returns (v: Option<int>)
      ensures v == value
    {
      v := value;
    }

    method CallIncrBy(delta: int) returns (n: int)
      modifies this
      ensures value == Some(Read(old(value)) + delta) && n == Read(old(value)) + delta
    {
      n := (if value.Some? then value.value else 0) + delta;
      value := Some(n);
    }

    method ScriptIncrBound(delta: int, max: int) returns (reply: int)
      modifies this
      ensures (value, reply) == Apply(old(value), IncrBound(delta, max))
    {
      var got := CallGet();
      var v := if got.Some? then got.value else 0;
      if v + delta <= max {
        reply := CallIncrBy(delta);
        return;
      }
      return -1;
    }

    method ScriptDecrPos() returns (reply: int)
      modifies this
      ensures (value, reply) == Apply(old(value), DecrPos)
    {
      var got := CallGet();
      var v := if got.Some? then got.value else 0;
      if v > 0 {
        reply := CallIncrBy(-1);
        return;
      }
      return -1;
    }

    /** An absent field compares below everything. */
    method ScriptSetGreater(submitted: int) returns (reply: int)
      modifies this
      ensures (value, reply) == Raise(old(value), submitted)
    {
      var current := CallGet();
      if current.None? || submitted > current.value {
        value := Some(submitted);
        return 1;
      }
      return 0;
    }
  }

  function Run(c: Option<int>, steps: seq<Step>): Option<int>
    decreases |steps|
  {
    if steps == [] then c else Run(Apply(c, steps[0]).0, steps[1..])
  }

  /** What the callers learn: the sum of the increments that were not answered -1, less the decrements that were
      not. */
  function Net(c: Option<int>, steps: seq<Step>): int
    decreases |steps|
  {
    if steps == [] then 0 else
      var (next, reply) := Apply(c, steps[0]);
      (if reply == -1 then 0 else if steps[0].DecrPos? then -1 else steps[0].delta) + Net(next, steps[1..])
  }

  /** Every run of one quota stays within it, and the callers' replies account for it exactly. */
  lemma {:induction false} QuotaHolds(c: Option<int>, steps: seq<Step>, ceiling: int)
    requires 0 <= Read(c) <= ceiling
    requires forall i :: 0 <= i < |steps| && steps[i].IncrBound? ==> steps[i].delta >= 0 && steps[i].max == ceiling
    ensures 0 <= Read(Run(c, steps)) <= ceiling
    ensures Read(Run(c, steps)) == Read(c) + Net(c, steps)
    decreases |steps|
  {
    if steps != [] {
      QuotaHolds(Apply(c, steps[0]).0, steps[1..], ceiling);
    }
  }

  /** Refunds, that is negative deltas, never break the ceiling either. */
  lemma {:induction false} CeilingHolds(c: Option<int>, steps: seq<Step>, ceiling: int)
    requires Read(c) <= ceiling
    requires forall i :: 0 <= i < |steps| && steps[i].IncrBound? ==> steps[i].max == ceiling
    ensures Read(Run(c, steps)) <= ceiling
    decreases |steps|
  {
    if steps != [] {
      CeilingHolds(Apply(c, steps[0]).0, steps[1..], ceiling);
    }
  }

  /** The increments that were granted but answered -1, because they landed on it: their callers read a denial. */
  function Misread(c: Option<int>, steps: seq<Step>): int
    decreases |steps|
  {
    if steps == [] then 0 else
      (if steps[0].IncrBound? && Read(c) + steps[0].delta == -1 && steps[0].max >= -1 then steps[0].delta else 0)
      + Misread(Apply(c, steps[0]).0, steps[1..])
  }

  lemma {:induction false} MisreadIsMissing(c: Option<int>, steps: seq<Step>)
    ensures Read(Run(c, steps)) == Read(c) + Net(c, steps) + Misread(c, steps)
    decreases |steps|
  {
    if steps != [] {
      MisreadIsMissing(Apply(c, steps[0]).0, steps[1..]);
    }
  }

  /** Over any run of any increments and decrements the callers' replies account for the counter exactly when the
      increments misread as denials cancel out. */
  lemma RepliesAccountExactly(c: Option<int>, steps: seq<Step>)
    ensures Read(Run(c, steps)) == Read(c) + Net(c, steps) <==> Misread(c, steps) == 0
  {
    MisreadIsMissing(c, steps);
  }

  /** A refund of one from zero is granted and answered -1: the counter has moved, the replies say it has not. */
  lemma RefundMisread(c: Option<int>, ceiling: int)
    requires Read(c) == 0 && ceiling >= -1
    ensures var steps := [IncrBound(-1, ceiling)]; Read(Run(c, steps)) == -1 && Net(c, steps) == 0
  {
    var steps := [IncrBound(-1, ceiling)];
    assert Run(Apply(c, steps[0]).0, steps[1..]) == Apply(c, steps[0]).0;
  }

  // ---- what a run of equal calls grants ---------------------------------------------------------------

  /** The replies of a run, in order. */
  function Replies(c: Option<int>, steps: seq<Step>): (r: seq<int>)
    ensures |r| == |steps|
    decreases |steps|
  {
    if steps == [] then [] else [Apply(c, steps[0]).1] + Replies(Apply(c, steps[0]).0, steps[1..])
  }

  function Times(step: Step, m: nat): (steps: seq<Step>)
    ensures |steps| == m
  {
    if m == 0 then [] else [step] + Times(step, m - 1)
  }

  function Min(a: int, b: int): int { if a < b then a else b }

  /** `m` decrements of a counter at `n` take it down to zero and no further: the first min(n, m) of them are granted and
      answer n - 1, n - 2 and so on, the others answer -1. */
  lemma {:induction false} DecrementsExactly(c: Option<int>, n: nat, m: nat)
    requires Read(c) == n
    ensures Read(Run(c, Times(DecrPos, m))) == n - Min(n, m)
    ensures forall i :: 0 <= i < m ==> Replies(c, Times(DecrPos, m))[i] == if i < n then n - 1 - i else -1
    decreases m
  {
    if m > 0 {
      DecrementsExactly(Apply(c, DecrPos).0, if n > 0 then n - 1 else 0, m - 1);
    }
  }

  /** `k` times `delta`. */
  function Multiple(delta: nat, k: nat): nat { if k == 0 then 0 else Multiple(delta, k - 1) + delta }

  lemma {:induction false} MultipleIs(delta: nat, k: nat)
    ensures Multiple(delta, k) == delta * k
  {
    if k > 0 {
      MultipleIs(delta, k - 1);
      assert delta * k == delta * (k - 1) + delta;
    }
  }

  lemma {:induction false} ClimbExactly(c: Option<int>, delta: nat, ceiling: int, room: nat, m: nat)
    requires delta > 0 && Read(c) + Multiple(delta, room) <= ceiling < Read(c) + Multiple(delta, room + 1)
    ensures Read(Run(c, Times(IncrBound(delta, ceiling), m))) == Read(c) + Multiple(delta, Min(room, m))
    ensures forall i :: 0 <= i < m ==>
              Replies(c, Times(IncrBound(delta, ceiling), m))[i] == if i < room then Read(c) + Multiple(delta, i + 1) else -1
    decreases m
  {
    if m > 0 {
      ClimbExactly(Apply(c, IncrBound(delta, ceiling)).0, delta, ceiling, if room > 0 then room - 1 else 0, m - 1);
    }
  }

  /** `m` increments by `delta` of a counter that has room for `room` of them: the first min(room, m) are granted and answer
      the running value, the others answer -1. */
  lemma IncrementsExactly(c: Option<int>, delta: nat, ceiling: int, room: nat, m: nat)
    requires delta > 0 && Read(c) + delta * room <= ceiling < Read(c) + delta * (room + 1)
    ensures Read(Run(c, Times(IncrBound(delta, ceiling), m))) == Read(c) + delta * Min(room, m)
    ensures forall i :: 0 <= i < m ==>
              Replies(c, Times(IncrBound(delta, ceiling), m))[i] == if i < room then Read(c) + delta * (i + 1) else -1
  {
    forall k: nat ensures Multiple(delta, k) == delta * k {
      MultipleIs(delta, k);
    }
    ClimbExactly(c, delta, ceiling, room, m);
  }

  /** Unit increments end at the ceiling or at the number of calls; those of an absent counter start from zero. */
  lemma UnitIncrements(c: Option<int>, ceiling: int, m: nat)
    requires 0 <= Read(c) <= ceiling
    ensures Read(Run(c, Times(IncrBound(1, ceiling), m))) == Min(ceiling, Read(c) + m)
    ensures c == None ==> forall i :: 0 <= i < Min(ceiling, m) ==> Replies(c, Times(IncrBound(1, ceiling), m))[i] == i + 1
  {
    IncrementsExactly(c, 1, ceiling, ceiling - Read(c), m);
  }

  // ---- set-if-greater --------------------------------------------------------------------------------

  function Raise(c: Option<int>, v: int): (Option<int>, int) {
    if c.None? || v > c.value then (Some(v), 1) else (c, 0)
  }

  function RaiseAll(c: Option<int>, vs: seq<int>): Option<int>
    decreases |vs|
  {
    if vs == [] then c else RaiseAll(Raise(c, vs[0]).0, vs[1..])
  }

  /** `m` is the largest of the initial value, if any, and the submitted ones. */
  ghost predicate IsMax(m: Option<int>, c: Option<int>, vs: seq<int>) {
    && (m.None? <==> c.None? && vs == [])
    && (m.Some? ==> m == c || m.value in vs)
    && (m.Some? && c.Some? ==> c.value <= m.value)
    && (m.Some? ==> forall v :: v in vs ==> v <= m.value)
  }

  lemma {:induction false} WatermarkIsMax(c: Option<int>, vs: seq<int>)
    ensures IsMax(RaiseAll(c, vs), c, vs)
    decreases |vs|
  {
    if vs != [] {
      WatermarkIsMax(Raise(c, vs[0]).0, vs[1..]);
      assert forall v :: v in vs <==> v == vs[0] || v in vs[1..];
    }
  }

  /** A submission is answered 1 exactly when it is a new record: greater than the initial value, if there is one, and
      than everything submitted before it. */
  lemma RecordsAnswered(c: Option<int>, vs: seq<int>, i: nat)
    requires i < |vs|
    ensures var reply := Raise(RaiseAll(c, vs[..i]), vs[i]).1;
      && (reply == 1 <==> (c.Some? ==> vs[i] > c.value) && forall j :: 0 <= j < i ==> vs[i] > vs[j])
      && (reply == 1 || reply == 0)
  {
    WatermarkIsMax(c, vs[..i]);
    assert forall j :: 0 <= j < i ==> vs[j] in vs[..i];
    var m := RaiseAll(c, vs[..i]);
    if m.Some? && m != c {
      var j :| 0 <= j < i && vs[..i][j] == m.value;
      assert vs[j] == m.value;
    }
  }

  /** Racing writers converge: the same submissions in any order leave the same value. */
  lemma WatermarkOrderFree(c: Option<int>, vs: seq<int>, ws: seq<int>)
    requires multiset(vs) == multiset(ws)
    ensures RaiseAll(c, vs) == RaiseAll(c, ws)
  {
    WatermarkIsMax(c, vs);
    WatermarkIsMax(c, ws);
    assert forall v :: v in vs <==> v in multiset(vs);
    assert forall v :: v in ws <==> v in multiset(ws);
    assert vs == [] <==> ws == [] by {
      assert |multiset(vs)| == |vs| && |multiset(ws)| == |ws|;
    }
  }
}
