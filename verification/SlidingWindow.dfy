/** The sliding-window limiter of benchmarks/idiom_native_vs_lua.py and its native form in src/store.cpp: a sorted
    set of members scored by the time of their admission, under a time to live that every admission re-arms. */
module SlidingWindow {
  import opened Collections
  import opened Decimal

  type Member = string

  /** One limiter key. `entries` is empty exactly when the key does not exist; `deadline` is the clock reading
      from which it no longer does. */
  datatype Limiter = Limiter(clock: int, entries: map<Member, int>, deadline: Option<int>)

  predicate Dead(s: Limiter) { s.deadline.Some? && s.deadline.value <= s.clock }

  /** What the server works on: a dead key reads as absent. */
  function Current(s: Limiter): map<Member, int> { if Dead(s) then map[] else s.entries }

  function Above(entries: map<Member, int>, cutoff: int): map<Member, int> {
    map m | m in entries && entries[m] > cutoff :: entries[m]
  }

  /** ZREMRANGEBYSCORE from 0 to `cutoff`: entries with a negative score stay. */
  function LuaKept(entries: map<Member, int>, cutoff: int): map<Member, int> {
    map m | m in entries && !(0 <= entries[m] <= cutoff) :: entries[m]
  }

  /** ZADD and EXPIRE on what was kept; a window that is not positive expires the key at once. */
  function Admit(s: Limiter, kept: map<Member, int>, now: int, window: int, member: Member): Limiter {
    if window <= 0 then Limiter(s.clock, map[], None)
    else Limiter(s.clock, kept[member := now], Some(s.clock + window))
  }

  function Reject(s: Limiter, kept: map<Member, int>): Limiter {
    Limiter(s.clock, kept, if kept == map[] then None else s.deadline)
  }

  /** The script, given what the eviction kept. */
  function Decide(s: Limiter, kept: map<Member, int>, now: int, window: int, limit: int, member: Member)
    : (Limiter, int)
  {
    if |kept| < limit then (Admit(s, kept, now, window, member), 1) else (Reject(s, kept), 0)
  }

  function LuaStep(s: Limiter, now: int, window: int, limit: int, member: Member): (Limiter, int) {
    Decide(s, LuaKept(Current(s), now - window), now, window, limit, member)
  }

  /** The native command evicts from minus infinity. */
  function NativeStep(s: Limiter, now: int, window: int, limit: int, member: Member): (Limiter, int) {
    Decide(s, Above(Current(s), now - window), now, window, limit, member)
  }

  // ---- the script, call by call ----------------------------------------------------------------------

  class SortedSetKey {
    var clock: int
    var entries: map<Member, int>
    var deadline: Option<int>

    function State(): Limiter
      reads this
    {
      Limiter(clock, entries, deadline)
    }

    method CallZremRangeByScore(low: int, high: int)
      modifies this`entries, this`deadline
      ensures entries == map m | m in Current(old(State())) && !(low <= Current(old(State()))[m] <= high)
                         :: Current(old(State()))[m]
      ensures deadline == if entries == map[] then None else old(deadline)
    {
      var current := if deadline.Some? && deadline.value <= clock then map[] else entries;
      entries := map m | m in current && !(low <= current[m] <= high) :: current[m];
      if entries == map[] {
        deadline := None;
      }
    }

    method CallZadd(score: int, member: Member)
      modifies this`entries
      ensures entries == old(entries)[member := score]
    {
      entries := entries[member := score];
    }

    method CallExpire(seconds: int)
      modifies this`entries, this`deadline
      ensures if seconds <= 0 then entries == map[] && deadline == None
              else entries == old(entries) && deadline == Some(clock + seconds)
    {
      if seconds <= 0 {
        entries, deadline := map[], None;
      } else {
        deadline := Some(clock + seconds);
      }
    }

    method ScriptZwindow(now: int, window: int, limit: int, member: Member) returns (reply: int)
      modifies this`entries, this`deadline
      ensures (State(), reply) == LuaStep(old(State()), now, window, limit, member)
    {
      CallZremRangeByScore(0, now - window);
      assert entries == LuaKept(Current(old(State())), now - window);
      if |entries| < limit {
        CallZadd(now, member);
        CallExpire(window);
        return 1;
      }
      return 0;
    }
  }

  // ---- the two implementations -----------------------------------------------------------------------

  /** The native command and the script are interchangeable, state and reply, for every limit and member exactly
      when no entry due for eviction has a negative score. */
  lemma NativeMatchesScriptExactly(s: Limiter, now: int, window: int)
    ensures (forall limit, member :: NativeStep(s, now, window, limit, member) == LuaStep(s, now, window, limit, member))
       <==> (forall m :: m in Current(s) && Current(s)[m] < 0 ==> Current(s)[m] > now - window)
  {
    var lua, native := LuaKept(Current(s), now - window), Above(Current(s), now - window);
    if forall m :: m in Current(s) && Current(s)[m] < 0 ==> Current(s)[m] > now - window {
      assert lua == native;
    } else {
      var m :| m in Current(s) && Current(s)[m] < 0 && Current(s)[m] <= now - window;
      assert m in lua && m !in native;
      assert NativeStep(s, now, window, 0, m).0.entries != LuaStep(s, now, window, 0, m).0.entries;
    }
  }

  /** A rejection is not without effect: it leaves the set as it was exactly when nothing was due for eviction. */
  lemma RejectedUnchangedExactly(s: Limiter, now: int, window: int, limit: int, member: Member)
    ensures var (t, reply) := NativeStep(s, now, window, limit, member);
      reply == 0 ==> (t.entries == Current(s) <==> forall m :: m in Current(s) ==> Current(s)[m] > now - window)
    ensures var (t, reply) := LuaStep(s, now, window, limit, member);
      reply == 0 ==> (t.entries == Current(s) <==> forall m :: m in Current(s) ==> !(0 <= Current(s)[m] <= now - window))
  {
    var all, native, lua := Current(s), Above(Current(s), now - window), LuaKept(Current(s), now - window);
    if native == all {
      assert forall m :: m in all ==> m in native;
    }
    if lua == all {
      assert forall m :: m in all ==> m in lua;
    }
  }

  /** A rejected request that evicts. */
  lemma RejectionEvicts()
    ensures var s := Limiter(100, map["a" := 0, "b" := 99], None);
      && NativeStep(s, 100, 10, 1, "c") == (Limiter(100, map["b" := 99], None), 0)
      && LuaStep(s, 100, 10, 1, "c") == (Limiter(100, map["b" := 99], None), 0)
  {
    var all := map["a" := 0, "b" := 99];
    assert Above(all, 90) == map["b" := 99] == LuaKept(all, 90);
  }

  // ---- runs ------------------------------------------------------------------------------------------

  /** A request carries the server's clock as its `now`; `Reap` is the server removing a dead key. */
  datatype Step = Advance(elapsed: nat) | Reap | Request(member: Member)

  datatype Rule = Rule(window: int, limit: int)

  predicate ValidRule(r: Rule) { r.window > 0 && r.limit >= 0 }

  function Apply(s: Limiter, r: Rule, step: Step): (Limiter, int) {
    match step
    case Advance(elapsed) => (s.(clock := s.clock + elapsed), 0)
    case Reap => (if Dead(s) then Limiter(s.clock, map[], None) else s, 0)
    case Request(member) => LuaStep(s, s.clock, r.window, r.limit, member)
  }

  datatype Admission = Admission(member: Member, time: int)

  /** The requests of a run that were granted, in order. */
  function Granted(s: Limiter, r: Rule, steps: seq<Step>): seq<Admission>
    decreases |steps|
  {
    if steps == [] then [] else
      var (t, reply) := Apply(s, r, steps[0]);
      (if reply == 1 then [Admission(steps[0].member, s.clock)] else []) + Granted(t, r, steps[1..])
  }

  /** The limiter after a run. */
  function Reached(s: Limiter, r: Rule, steps: seq<Step>): Limiter
    decreases |steps|
  {
    if steps == [] then s else Reached(Apply(s, r, steps[0]).0, r, steps[1..])
  }

  /** The time a run lets pass. */
  function Elapsed(steps: seq<Step>): nat {
    if steps == [] then 0 else Elapsed(steps[1..]) + if steps[0].Advance? then steps[0].elapsed else 0
  }

  lemma {:induction false} ClockTellsTime(s: Limiter, r: Rule, steps: seq<Step>)
    ensures Reached(s, r, steps).clock == s.clock + Elapsed(steps)
    decreases |steps|
  {
    if steps != [] {
      ClockTellsTime(Apply(s, r, steps[0]).0, r, steps[1..]);
    }
  }

  lemma {:induction false} EmptyStays(s: Limiter, r: Rule, steps: seq<Step>)
    requires s.entries == map[] && Granted(s, r, steps) == []
    ensures Current(Reached(s, r, steps)) == map[]
    decreases |steps|
  {
    if steps != [] {
      EmptyStays(Apply(s, r, steps[0]).0, r, steps[1..]);
    }
  }

  lemma {:induction false} HeldUntil(s: Limiter, r: Rule, steps: seq<Step>, m: Member)
    requires ValidRule(r) && Granted(s, r, steps) == []
    requires m in s.entries && 0 <= s.entries[m] && s.deadline == Some(s.entries[m] + r.window)
    ensures var left := Current(Reached(s, r, steps));
      if s.clock + Elapsed(steps) < s.entries[m] + r.window then m in left else left == map[]
    decreases |steps|
  {
    if steps != [] {
      var t := Apply(s, r, steps[0]).0;
      if m in t.entries {
        HeldUntil(t, r, steps[1..], m);
      } else {
        assert t.entries == map[];
        EmptyStays(t, r, steps[1..]);
      }
    }
  }

  /** Every admission re-arms the key's time to live: with no further grant the member is held for a window, through any
      rejections, and when the window has passed the key is gone. */
  lemma GrantHeldForWindow(s: Limiter, r: Rule, member: Member, steps: seq<Step>)
    requires ValidRule(r) && s.clock >= 0
    requires Apply(s, r, Request(member)).1 == 1 && Granted(Apply(s, r, Request(member)).0, r, steps) == []
    ensures var left := Current(Reached(Apply(s, r, Request(member)).0, r, steps));
      if Elapsed(steps) < r.window then member in left else left == map[]
  {
    HeldUntil(Apply(s, r, Request(member)).0, r, steps, member);
  }

  /** The members granted in the half-open interval of length `window` that ends at `t`. */
  function Within(h: seq<Admission>, window: int, t: int): set<Member> {
    set i | 0 <= i < |h| && t - window < h[i].time <= t :: h[i].member
  }

  /** What every reachable limiter satisfies, `h` being the grants so far. */
  predicate Inv(s: Limiter, r: Rule, h: seq<Admission>) {
    && s.clock >= 0
    && |s.entries| <= r.limit
    && (forall m :: m in s.entries ==> 0 <= s.entries[m] <= s.clock)
    && (s.deadline.Some? ==> forall m :: m in s.entries ==> s.entries[m] + r.window <= s.deadline.value)
    && (forall i :: 0 <= i < |h| ==> h[i].time <= s.clock)
    && (forall i :: 0 <= i < |h| && h[i].time > s.clock - r.window ==>
          h[i].member in s.entries && h[i].time <= s.entries[h[i].member])
  }

  /** Every stored entry is a grant. */
  predicate Recorded(s: Limiter, h: seq<Admission>) { forall m :: m in s.entries ==> Admission(m, s.entries[m]) in h }

  ghost predicate NeverOver(h: seq<Admission>, r: Rule) {
    forall t :: |Within(h, r.window, t)| <= r.limit
  }

  /** Once the key is dead every entry is out of the window anyway. */
  lemma DeadIsStale(s: Limiter, r: Rule, h: seq<Admission>)
    requires ValidRule(r) && Inv(s, r, h) && Dead(s)
    ensures Above(s.entries, s.clock - r.window) == map[]
  {
  }

  lemma KeptIsAbove(s: Limiter, r: Rule, h: seq<Admission>)
    requires ValidRule(r) && Inv(s, r, h)
    ensures LuaKept(Current(s), s.clock - r.window) == Above(s.entries, s.clock - r.window)
  {
  }

  lemma FilterSmaller(entries: map<Member, int>, cutoff: int)
    ensures |Above(entries, cutoff)| <= |entries|
  {
    var kept := Above(entries, cutoff);
    assert kept.Keys <= entries.Keys;
    SubsetSmaller(kept.Keys, entries.Keys);
  }

  function Extended(s: Limiter, r: Rule, h: seq<Admission>, step: Step): seq<Admission> {
    if step.Request? && Apply(s, r, step).1 == 1 then h + [Admission(step.member, s.clock)] else h
  }

  lemma RequestKeeps(s: Limiter, r: Rule, h: seq<Admission>, member: Member)
    requires ValidRule(r) && Inv(s, r, h)
    ensures Inv(Apply(s, r, Request(member)).0, r, Extended(s, r, h, Request(member)))
  {
    KeptIsAbove(s, r, h);
    var kept := Above(s.entries, s.clock - r.window);
    FilterSmaller(s.entries, s.clock - r.window);
    assert |kept[member := s.clock]| <= |kept| + 1;
  }

  lemma StepKeeps(s: Limiter, r: Rule, h: seq<Admission>, step: Step)
    requires ValidRule(r) && Inv(s, r, h)
    ensures Inv(Apply(s, r, step).0, r, Extended(s, r, h, step))
  {
    if step.Request? {
      RequestKeeps(s, r, h, step.member);
    } else if step.Reap? && Dead(s) {
      DeadIsStale(s, r, h);
    }
  }

  lemma LaterGrantOutside(h: seq<Admission>, a: Admission, window: int, t: int)
    requires t < a.time
    ensures Within(h + [a], window, t) == Within(h, window, t)
  {
    var g := h + [a];
    forall m ensures m in Within(g, window, t) <==> m in Within(h, window, t) {
      if m in Within(g, window, t) {
        var i :| 0 <= i < |g| && t - window < g[i].time <= t && g[i].member == m;
        assert h[i] == g[i];
      }
      if m in Within(h, window, t) {
        var i :| 0 <= i < |h| && t - window < h[i].time <= t && h[i].member == m;
        assert g[i] == h[i];
      }
    }
  }

  /** A grant puts at most `limit` members into any window. */
  lemma GrantKeepsBound(s: Limiter, r: Rule, h: seq<Admission>, member: Member)
    requires ValidRule(r) && Inv(s, r, h) && NeverOver(h, r)
    ensures NeverOver(Extended(s, r, h, Request(member)), r)
  {
    var t := Apply(s, r, Request(member)).0;
    var g := Extended(s, r, h, Request(member));
    RequestKeeps(s, r, h, member);
    forall u ensures |Within(g, r.window, u)| <= r.limit {
      if g != h && u < s.clock {
        LaterGrantOutside(h, Admission(member, s.clock), r.window, u);
      } else if g != h {
        assert Within(g, r.window, u) <= t.entries.Keys;
        SubsetSmaller(Within(g, r.window, u), t.entries.Keys);
      }
    }
  }

  lemma Regroup(a: seq<Admission>, b: seq<Admission>, c: seq<Admission>)
    ensures a + (b + c) == (a + b) + c
  {
  }

  lemma FirstGrant(s: Limiter, r: Rule, steps: seq<Step>)
    requires steps != []
    ensures Granted(s, r, steps) == Extended(s, r, [], steps[0]) + Granted(Apply(s, r, steps[0]).0, r, steps[1..])
  {
  }

  lemma ExtendedIs(s: Limiter, r: Rule, h: seq<Admission>, step: Step)
    ensures Extended(s, r, h, step) == h + Extended(s, r, [], step)
  {
  }

  lemma GrantedStep(s: Limiter, r: Rule, h: seq<Admission>, steps: seq<Step>)
    requires steps != []
    ensures h + Granted(s, r, steps)
         == Extended(s, r, h, steps[0]) + Granted(Apply(s, r, steps[0]).0, r, steps[1..])
  {
    FirstGrant(s, r, steps);
    ExtendedIs(s, r, h, steps[0]);
    Regroup(h, Extended(s, r, [], steps[0]), Granted(Apply(s, r, steps[0]).0, r, steps[1..]));
  }

  lemma {:induction false} RunNeverOver(s: Limiter, r: Rule, h: seq<Admission>, steps: seq<Step>)
    requires ValidRule(r) && Inv(s, r, h) && NeverOver(h, r)
    ensures NeverOver(h + Granted(s, r, steps), r)
    decreases |steps|
  {
    if steps == [] {
      assert h + [] == h;
    } else {
      var t, g := Apply(s, r, steps[0]).0, Extended(s, r, h, steps[0]);
      StepKeeps(s, r, h, steps[0]);
      if steps[0].Request? {
        GrantKeepsBound(s, r, h, steps[0].member);
      }
      RunNeverOver(t, r, g, steps[1..]);
      GrantedStep(s, r, h, steps);
    }
  }

  /** From an absent key, in every run, any interval of length `window` holds grants to at most `limit` different
      members, whenever the server removes dead keys. */
  lemma LimitHolds(clock: nat, r: Rule, steps: seq<Step>, t: int)
    requires ValidRule(r)
    ensures |Within(Granted(Limiter(clock, map[], None), r, steps), r.window, t)| <= r.limit
  {
    var s := Limiter(clock, map[], None);
    forall u ensures |Within([], r.window, u)| <= r.limit {
      assert Within([], r.window, u) == {};
    }
    RunNeverOver(s, r, [], steps);
    assert [] + Granted(s, r, steps) == Granted(s, r, steps);
  }

  predicate FreshMembers(h: seq<Admission>) {
    forall i, j :: 0 <= i < j < |h| ==> h[i].member != h[j].member
  }

  lemma {:induction false} DistinctMembers(h: seq<Admission>)
    requires FreshMembers(h)
    ensures |set a | a in h :: a.member| == |h|
  {
    if h != [] {
      var front, last := h[..|h| - 1], h[|h| - 1];
      DistinctMembers(front);
      assert h == front + [last];
      assert (set a | a in h :: a.member) == (set a | a in front :: a.member) + {last.member};
    }
  }

  /** With a fresh member per request no block of grants that spans less than `window` is longer than `limit`. */
  lemma LimitHoldsForRequests(clock: nat, r: Rule, steps: seq<Step>, i: nat, j: nat)
    requires ValidRule(r)
    requires var h := Granted(Limiter(clock, map[], None), r, steps);
      FreshMembers(h) && i <= j < |h| && h[j].time - h[i].time < r.window
    ensures j - i + 1 <= r.limit
  {
    var s := Limiter(clock, map[], None);
    var h := Granted(s, r, steps);
    var block := h[i..j + 1];
    GrantsInOrder(s, r, steps);
    LimitHolds(clock, r, steps, h[j].time);
    DistinctMembers(block);
    var members := set a | a in block :: a.member;
    forall m | m in members ensures m in Within(h, r.window, h[j].time) {
      var a :| a in block && a.member == m;
      var x :| 0 <= x < |block| && block[x] == a;
      assert h[i + x] == a && h[i].time <= h[i + x].time <= h[j].time;
    }
    SubsetSmaller(members, Within(h, r.window, h[j].time));
  }

  predicate InOrder(h: seq<Admission>, from: int) {
    && (forall i :: 0 <= i < |h| ==> from <= h[i].time)
    && (forall i, j :: 0 <= i <= j < |h| ==> h[i].time <= h[j].time)
  }

  lemma InOrderJoin(first: seq<Admission>, tail: seq<Admission>, now: int, later: int)
    requires InOrder(tail, later) && now <= later && |first| <= 1 && (first != [] ==> first[0].time == now)
    ensures InOrder(first + tail, now)
  {
  }

  lemma StepTakesTime(s: Limiter, r: Rule, step: Step)
    ensures s.clock <= Apply(s, r, step).0.clock
    ensures var first := Extended(s, r, [], step); |first| <= 1 && (first != [] ==> first[0].time == s.clock)
  {
  }

  lemma {:induction false} GrantsInOrder(s: Limiter, r: Rule, steps: seq<Step>)
    ensures InOrder(Granted(s, r, steps), s.clock)
    decreases |steps|
  {
    if steps != [] {
      var t, first := Apply(s, r, steps[0]).0, Extended(s, r, [], steps[0]);
      GrantsInOrder(t, r, steps[1..]);
      StepTakesTime(s, r, steps[0]);
      InOrderJoin(first, Granted(t, r, steps[1..]), s.clock, t.clock);
      GrantedStep(s, r, [], steps);
      assert [] + Granted(s, r, steps) == Granted(s, r, steps);
    }
  }

  lemma StepRecords(s: Limiter, r: Rule, h: seq<Admission>, step: Step)
    requires Recorded(s, h)
    ensures Recorded(Apply(s, r, step).0, Extended(s, r, h, step))
  {
    var t, g := Apply(s, r, step).0, Extended(s, r, h, step);
    forall m | m in t.entries ensures Admission(m, t.entries[m]) in g {
      if m in s.entries && t.entries[m] == s.entries[m] {
        assert Admission(m, s.entries[m]) in h;
      } else {
        assert g[|g| - 1] == Admission(m, t.entries[m]);
      }
    }
  }

  lemma {:induction false} RunKeeps(s: Limiter, r: Rule, h: seq<Admission>, steps: seq<Step>)
    requires ValidRule(r) && Inv(s, r, h) && Recorded(s, h)
    ensures Inv(Reached(s, r, steps), r, h + Granted(s, r, steps)) && Recorded(Reached(s, r, steps), h + Granted(s, r, steps))
    decreases |steps|
  {
    if steps == [] {
      assert h + [] == h;
    } else {
      StepKeeps(s, r, h, steps[0]);
      StepRecords(s, r, h, steps[0]);
      RunKeeps(Apply(s, r, steps[0]).0, r, Extended(s, r, h, steps[0]), steps[1..]);
      GrantedStep(s, r, h, steps);
    }
  }

  /** What the server keeps is the grants of the current window. */
  lemma KeptIsWithin(s: Limiter, r: Rule, h: seq<Admission>)
    requires ValidRule(r) && Inv(s, r, h) && Recorded(s, h)
    ensures Above(s.entries, s.clock - r.window).Keys == Within(h, r.window, s.clock)
  {
    var kept := Above(s.entries, s.clock - r.window);
    forall m ensures m in kept <==> m in Within(h, r.window, s.clock) {
      if m in kept {
        var i :| 0 <= i < |h| && h[i] == Admission(m, s.entries[m]);
      }
      if m in Within(h, r.window, s.clock) {
        var i :| 0 <= i < |h| && s.clock - r.window < h[i].time <= s.clock && h[i].member == m;
        assert h[i].member in s.entries;
      }
    }
  }

  /** In every state a run reaches, script and native command do the same. */
  lemma SameWhenReached(s: Limiter, r: Rule, h: seq<Admission>, member: Member)
    requires ValidRule(r) && Inv(s, r, h)
    ensures NativeStep(s, s.clock, r.window, r.limit, member) == LuaStep(s, s.clock, r.window, r.limit, member)
  {
    NativeMatchesScriptExactly(s, s.clock, r.window);
  }

  function NativeApply(s: Limiter, r: Rule, step: Step): (Limiter, int) {
    if step.Request? then NativeStep(s, s.clock, r.window, r.limit, step.member) else Apply(s, r, step)
  }

  function NativeReached(s: Limiter, r: Rule, steps: seq<Step>): Limiter
    decreases |steps|
  {
    if steps == [] then s else NativeReached(NativeApply(s, r, steps[0]).0, r, steps[1..])
  }

  function NativeReplies(s: Limiter, r: Rule, steps: seq<Step>): seq<int>
    decreases |steps|
  {
    if steps == [] then [] else
      var (t, reply) := NativeApply(s, r, steps[0]);
      (if steps[0].Request? then [reply] else []) + NativeReplies(t, r, steps[1..])
  }

  /** So a whole run of the native command is the run of the script, reply by reply. */
  lemma {:induction false} NativeRunsAlike(s: Limiter, r: Rule, h: seq<Admission>, steps: seq<Step>)
    requires ValidRule(r) && Inv(s, r, h)
    ensures NativeReached(s, r, steps) == Reached(s, r, steps) && NativeReplies(s, r, steps) == Replies(s, r, steps)
    decreases |steps|
  {
    if steps != [] {
      if steps[0].Request? {
        SameWhenReached(s, r, h, steps[0].member);
      }
      StepKeeps(s, r, h, steps[0]);
      NativeRunsAlike(Apply(s, r, steps[0]).0, r, Extended(s, r, h, steps[0]), steps[1..]);
    }
  }

  lemma GrantedNow(s: Limiter, r: Rule, h: seq<Admission>, member: Member)
    requires ValidRule(r) && Inv(s, r, h) && Recorded(s, h)
    ensures LuaStep(s, s.clock, r.window, r.limit, member).1 == 1 <==> |Within(h, r.window, s.clock)| < r.limit
  {
    KeptIsAbove(s, r, h);
    KeptIsWithin(s, r, h);
    var kept := Above(s.entries, s.clock - r.window);
    assert |kept| == |kept.Keys|;
  }

  /** At any point of any run a request, to the script or to the native command, is granted exactly when fewer than
      `limit` members were granted in the window that ends now; that the caller is one of them does not help it. */
  lemma GrantedExactly(clock: nat, r: Rule, steps: seq<Step>, member: Member)
    requires ValidRule(r)
    ensures var s := Reached(Limiter(clock, map[], None), r, steps);
      var held := Within(Granted(Limiter(clock, map[], None), r, steps), r.window, s.clock);
      && (LuaStep(s, s.clock, r.window, r.limit, member).1 == 1 <==> |held| < r.limit)
      && s == NativeReached(Limiter(clock, map[], None), r, steps)
      && (NativeStep(s, s.clock, r.window, r.limit, member).1 == 1 <==> |held| < r.limit)
  {
    var start := Limiter(clock, map[], None);
    var s, h := Reached(start, r, steps), Granted(start, r, steps);
    RunKeeps(start, r, [], steps);
    assert [] + h == h;
    GrantedNow(s, r, h, member);
    SameWhenReached(s, r, h, member);
    NativeRunsAlike(start, r, [], steps);
  }

  /** So with capacity one the holder cannot renew its own lease, although the command's documentation says that
      calling again with its own member does so. */
  lemma HolderCannotRenew(clock: nat, window: int, elapsed: nat, member: Member)
    requires elapsed < window
    ensures var (held, first) := NativeStep(Limiter(clock, map[], None), clock, window, 1, member);
      first == 1 && NativeStep(held.(clock := clock + elapsed), clock + elapsed, window, 1, member).1 == 0
    ensures var (held, first) := LuaStep(Limiter(clock, map[], None), clock, window, 1, member);
      first == 1 && LuaStep(held.(clock := clock + elapsed), clock + elapsed, window, 1, member).1 == 0
  {
  }

  // ---- a negative score ------------------------------------------------------------------------------

  /** The script never evicts an entry with a negative score: through any run it fills a window of capacity one, and
      every request is rejected. */
  lemma {:induction false} NegativeScoreBlocksScript(s: Limiter, window: int, steps: seq<Step>, m: Member)
    requires m in s.entries && s.entries[m] < 0 && s.deadline.None?
    ensures forall i :: 0 <= i < |Replies(s, Rule(window, 1), steps)| ==> Replies(s, Rule(window, 1), steps)[i] == 0
    decreases |steps|
  {
    if steps != [] {
      var r := Rule(window, 1);
      var t := Apply(s, r, steps[0]).0;
      NegativeStays(s, r, steps[0], m);
      NegativeScoreBlocksScript(t, window, steps[1..], m);
    }
  }

  lemma NegativeStays(s: Limiter, r: Rule, step: Step, m: Member)
    requires m in s.entries && s.entries[m] < 0 && s.deadline.None? && r.limit == 1
    ensures var (t, reply) := Apply(s, r, step);
      reply == 0 && m in t.entries && t.entries[m] < 0 && t.deadline.None?
  {
    if step.Request? {
      var kept := LuaKept(s.entries, s.clock - r.window);
      assert m in kept;
      assert |kept| >= 1;
    }
  }

  /** The native command evicts it like any other: once it is out of the window it no longer counts. */
  lemma NegativeScoreFreesNative(clock: int, window: int, m: Member, score: int, member: Member)
    requires score < 0 && score <= clock - window
    ensures NativeStep(Limiter(clock, map[m := score], None), clock, window, 1, member).1 == 1
  {
  }

  // ---- expiry is invisible ---------------------------------------------------------------------------

  function Replies(s: Limiter, r: Rule, steps: seq<Step>): seq<int>
    decreases |steps|
  {
    if steps == [] then [] else
      var (t, reply) := Apply(s, r, steps[0]);
      (if steps[0].Request? then [reply] else []) + Replies(t, r, steps[1..])
  }

  /** The same rule without any time to live: the key never dies. */
  function Forever(s: Limiter, r: Rule, step: Step): (Limiter, int) {
    match step
    case Reap => (s, 0)
    case _ => var (t, reply) := Apply(s.(deadline := None), r, step); (t.(deadline := None), reply)
  }

  function ForeverReplies(s: Limiter, r: Rule, steps: seq<Step>): seq<int>
    decreases |steps|
  {
    if steps == [] then [] else
      var (t, reply) := Forever(s, r, steps[0]);
      (if steps[0].Request? then [reply] else []) + ForeverReplies(t, r, steps[1..])
  }

  /** Both hold the same entries inside the window. */
  predicate Alike(s: Limiter, t: Limiter, r: Rule) {
    s.clock == t.clock && Above(s.entries, s.clock - r.window) == Above(t.entries, t.clock - r.window)
  }

  lemma AlikeAdvance(s: Limiter, t: Limiter, r: Rule, elapsed: nat)
    requires Alike(s, t, r)
    ensures Alike(s.(clock := s.clock + elapsed), t.(clock := t.clock + elapsed), r)
  {
    var cutoff := s.clock - r.window;
    forall m ensures m in Above(s.entries, cutoff + elapsed) <==> m in Above(t.entries, cutoff + elapsed)
      ensures m in Above(s.entries, cutoff + elapsed) ==> s.entries[m] == t.entries[m]
    {
      assert m in Above(s.entries, cutoff) <==> m in Above(t.entries, cutoff);
      assert m in Above(s.entries, cutoff) ==> Above(s.entries, cutoff)[m] == Above(t.entries, cutoff)[m];
    }
  }

  lemma AlikeRequest(s: Limiter, t: Limiter, r: Rule, h: seq<Admission>, g: seq<Admission>, member: Member)
    requires ValidRule(r) && Inv(s, r, h) && Inv(t, r, g) && t.deadline.None? && Alike(s, t, r)
    ensures var (s', a) := Apply(s, r, Request(member));
      var (t', b) := Apply(t, r, Request(member));
      s'.clock == t'.clock && s'.entries == t'.entries && a == b
  {
    KeptIsAbove(s, r, h);
    KeptIsAbove(t, r, g);
  }

  lemma AlikeStep(s: Limiter, t: Limiter, r: Rule, h: seq<Admission>, g: seq<Admission>, step: Step)
    requires ValidRule(r) && Inv(s, r, h) && Inv(t, r, g) && t.deadline.None? && Alike(s, t, r)
    ensures Alike(Apply(s, r, step).0, Forever(t, r, step).0, r)
    ensures Apply(s, r, step).1 == Forever(t, r, step).1
  {
    match step
    case Advance(elapsed) => AlikeAdvance(s, t, r, elapsed);
    case Reap => if Dead(s) { DeadIsStale(s, r, h); }
    case Request(member) =>
      AlikeRequest(s, t, r, h, g, member);
      assert t.(deadline := None) == t;
  }

  /** Every reply is the reply of a limiter without any time to live: neither the re-armed deadline nor the moment
      the server removes the dead key can be observed. */
  lemma {:induction false} ExpiryInvisible(s: Limiter, t: Limiter, r: Rule, h: seq<Admission>, g: seq<Admission>,
                                           steps: seq<Step>)
    requires ValidRule(r) && Inv(s, r, h) && Inv(t, r, g) && t.deadline.None? && Alike(s, t, r)
    ensures Replies(s, r, steps) == ForeverReplies(t, r, steps)
    decreases |steps|
  {
    if steps != [] {
      AlikeStep(s, t, r, h, g, steps[0]);
      StepKeeps(s, r, h, steps[0]);
      var g' := if steps[0].Reap? then g else Extended(t, r, g, steps[0]);
      StepKeeps(t, r, g, steps[0]);
      ExpiryInvisible(Apply(s, r, steps[0]).0, Forever(t, r, steps[0]).0, r, Extended(s, r, h, steps[0]), g', steps[1..]);
    }
  }
}
