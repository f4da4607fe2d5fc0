/** The lock and idempotency idioms of benchmarks/idiom_native_vs_lua.py and benchmarks/cad_benchmark.py:
    compare-and-delete, compare-and-expire, compare-and-set and claim. A script is one atomic step over a key
    space whose entries carry a token and an optional deadline. */
module Leases {
  import opened Decimal

  type Key = string
  type Token = string

  /** `deadline` is the clock reading, in milliseconds, from which the entry no longer exists. */
  datatype Entry = Entry(token: Token, deadline: Option<nat>)

  datatype Server = Server(clock: nat, data: map<Key, Entry>)

  datatype Reply = Number(value: int) | Claimed | Swapped | Stored(token: Token) | Absent | BadExpiry

  function Deadline(clock: nat, ms: nat): Option<nat> { Some(clock + ms) }

  predicate LiveEntry(clock: nat, e: Entry) { e.deadline.None? || clock < e.deadline.value }

  predicate Live(s: Server, k: Key) { k in s.data && LiveEntry(s.clock, s.data[k]) }

  /** The entries a client can observe. */
  function View(s: Server): map<Key, Entry> { map k | k in s.data && LiveEntry(s.clock, s.data[k]) :: s.data[k] }

  function Get(s: Server, k: Key): Option<Token> { if Live(s, k) then Some(s.data[k].token) else None }

  /** The requests of the clients; `Advance` lets time pass, `Reap` is the server removing a dead entry, and `Del`
      is the unconditional delete that only the two-step unlock issues. */
  datatype Step =
    | Advance(elapsed: nat)
    | Reap(key: Key)
    | Cad(key: Key, token: Token)
    | CaExpire(key: Key, token: Token, ms: int)
    | Cas(key: Key, token: Token, next: Token)
    | Claim(key: Key, result: Key, token: Token, seconds: int)
    | Del(key: Key)

  function Apply(s: Server, step: Step): (Server, Reply) {
    match step
    case Advance(elapsed) => (s.(clock := s.clock + elapsed), Absent)
    case Reap(k) => (if Live(s, k) then s else s.(data := s.data - {k}), Absent)
    case Cad(k, token) =>
      if Get(s, k) == Some(token) then (s.(data := s.data - {k}), Number(1)) else (s, Number(0))
    case CaExpire(k, token, ms) =>
      if Get(s, k) != Some(token) then (s, Number(0))
      else if ms <= 0 then (s.(data := s.data - {k}), Number(1))
      else (s.(data := s.data[k := Entry(token, Deadline(s.clock, ms))]), Number(1))
    case Cas(k, token, next) =>
      if Get(s, k) == Some(token)
      then (s.(data := s.data[k := Entry(next, s.data[k].deadline)]), Swapped) else (s, Number(0))
    case Claim(k, result, token, seconds) =>
      if seconds <= 0 then (s, BadExpiry)
      else if !Live(s, k) then (s.(data := s.data[k := Entry(token, Deadline(s.clock, 1000 * seconds))]), Claimed)
      else (s, match Get(s, result) case Some(t) => Stored(t) case None => Absent)
    case Del(k) => if Live(s, k) then (s.(data := s.data - {k}), Number(1)) else (s, Number(0))
  }

  function Run(s: Server, steps: seq<Step>): Server
    decreases |steps|
  {
    if steps == [] then s else Run(Apply(s, steps[0]).0, steps[1..])
  }

  // ---- the scripts, call by call ---------------------------------------------------------------------

  /** The key space with the `redis.call` primitives the scripts are made of. */
  class KeySpace {
    var clock: nat
    var data: map<Key, Entry>

    function State(): Server
      reads this
    {
      Server(clock, data)
    }

    method CallGet(k: Key) returns (v: Option<Token>)
      ensures v == Get(State(), k)
    {
      v := if k in data && LiveEntry(clock, data[k]) then Some(data[k].token) else None;
    }

    method CallDel(k: Key) returns (n: int)
      modifies this`data
      ensures (State(), Number(n)) == Apply(old(State()), Del(k))
    {
      if k in data && LiveEntry(clock, data[k]) {
        data := data - {k};
        return 1;
      }
      return 0;
    }

    method CallPexpire(k: Key, ms: int) returns (n: int)
      modifies this`data
      ensures !Live(old(State()), k) ==> n == 0 && data == old(data)
      ensures Live(old(State()), k) && ms <= 0 ==> n == 1 && data == old(data) - {k}
      ensures Live(old(State()), k) && ms > 0 ==>
        n == 1 && data == old(data)[k := Entry(old(data)[k].token, Deadline(clock, ms))]
    {
      if k !in data || !LiveEntry(clock, data[k]) {
        return 0;
      }
      data := if ms <= 0 then data - {k} else data[k := Entry(data[k].token, Deadline(clock, ms))];
      return 1;
    }

    /** SET with KEEPTTL on a key that exists. */
    method CallSetKeepTtl(k: Key, v: Token)
      requires Live(State(), k)
      modifies this`data
      ensures data == old(data)[k := Entry(v, old(data)[k].deadline)]
    {
      data := data[k := Entry(v, data[k].deadline)];
    }

    /** SET with NX and EX. */
    method CallSetNxEx(k: Key, v: Token, seconds: nat) returns (ok: bool)
      modifies this`data
      ensures ok <==> !Live(old(State()), k)
      ensures data == if ok then old(data)[k := Entry(v, Deadline(clock, 1000 * seconds))] else old(data)
    {
      ok := !(k in data && LiveEntry(clock, data[k]));
      if ok {
        data := data[k := Entry(v, Deadline(clock, 1000 * seconds))];
      }
    }

    method ScriptCad(k: Key, token: Token) returns (r: Reply)
      modifies this`data
      ensures (State(), r) == Apply(old(State()), Cad(k, token))
    {
      var current := CallGet(k);
      if current == Some(token) {
        var n := CallDel(k);
        return Number(n);
      }
      return Number(0);
    }

    method ScriptCaExpire(k: Key, token: Token, ms: int) returns (r: Reply)
      modifies this`data
      ensures (State(), r) == Apply(old(State()), CaExpire(k, token, ms))
    {
      var current := CallGet(k);
      if current == Some(token) {
        var n := CallPexpire(k, ms);
        return Number(n);
      }
      return Number(0);
    }

    method ScriptCas(k: Key, token: Token, next: Token) returns (r: Reply)
      modifies this`data
      ensures (State(), r) == Apply(old(State()), Cas(k, token, next))
    {
      var current := CallGet(k);
      if current == Some(token) {
        CallSetKeepTtl(k, next);
        return Swapped;
      }
      return Number(0);
    }

    method ScriptClaim(k: Key, result: Key, token: Token, seconds: int) returns (r: Reply)
      modifies this`data
      ensures (State(), r) == Apply(old(State()), Claim(k, result, token, seconds))
    {
      if seconds <= 0 {
        return BadExpiry;
      }
      var won := CallSetNxEx(k, token, seconds);
      if won {
        return Claimed;
      }
      var stored := CallGet(result);
      r := match stored case Some(t) => Stored(t) case None => Absent;
    }

    /** One request of another client, the passing of time or the removal of a dead entry. */
    method Perform(step: Step)
      modifies this
      ensures State() == Apply(old(State()), step).0
    {
      match step
      case Advance(elapsed) => clock := clock + elapsed;
      case Reap(k) => if k in data && !LiveEntry(clock, data[k]) { data := data - {k}; }
      case Cad(k, token) => var _ := ScriptCad(k, token);
      case CaExpire(k, token, ms) => var _ := ScriptCaExpire(k, token, ms);
      case Cas(k, token, next) => var _ := ScriptCas(k, token, next);
      case Claim(k, result, token, seconds) => var _ := ScriptClaim(k, result, token, seconds);
      case Del(k) => var _ := CallDel(k);
    }

    /** The unlock in two round trips, with the requests that reach the server between them. */
    method GetDelOp(k: Key, token: Token, between: seq<Step>) returns (r: Reply)
      modifies this
      ensures (State(), r) == SplitUnlock(old(State()), k, token, between)
    {
      var current := CallGet(k);
      for i := 0 to |between|
        invariant Run(State(), between[i..]) == Run(old(State()), between)
      {
        Perform(between[i]);
        assert between[i..][1..] == between[i + 1..];
      }
      if current == Some(token) {
        var n := CallDel(k);
        return Number(n);
      }
      return Number(0);
    }
  }

  // ---- who can end a lease ---------------------------------------------------------------------------

  /** The request shows `token` for key `k`. */
  predicate Presents(step: Step, k: Key, token: Token) {
    match step
    case Cad(key, t) => key == k && t == token
    case CaExpire(key, t, _) => key == k && t == token
    case Cas(key, t, _) => key == k && t == token
    case _ => false
  }

  predicate Unconditional(step: Step, k: Key) { step == Del(k) }

  /** One step changes a held entry only if it shows the current token, or time passes its deadline. */
  lemma HeldUnlessPresented(s: Server, step: Step, k: Key)
    requires Live(s, k)
    ensures var t := Apply(s, step).0;
      || (Live(t, k) && t.data[k] == s.data[k])
      || Presents(step, k, s.data[k].token)
      || Unconditional(step, k)
      || (step.Advance? && !LiveEntry(t.clock, s.data[k]))
  {
  }

  /** A swap never moves a deadline, and a successful one leaves exactly the new token. */
  lemma SwapKeepsDeadline(s: Server, k: Key, token: Token, next: Token, other: Key)
    requires other in s.data
    ensures var (t, r) := Apply(s, Cas(k, token, next));
      && other in t.data && t.data[other].deadline == s.data[other].deadline
      && (r == Swapped <==> Get(s, k) == Some(token))
      && (r == Swapped ==> Get(t, k) == Some(next))
  {
  }

  lemma {:induction false} ClockRises(s: Server, steps: seq<Step>)
    ensures s.clock <= Run(s, steps).clock
    decreases |steps|
  {
    if steps != [] {
      ClockRises(Apply(s, steps[0]).0, steps[1..]);
    }
  }

  /** Through any run in which nobody shows its token, a held entry stays exactly as it is until its deadline. */
  lemma {:induction false} HeldThroughRun(s: Server, steps: seq<Step>, k: Key)
    requires Live(s, k) && LiveEntry(Run(s, steps).clock, s.data[k])
    requires forall i :: 0 <= i < |steps| ==>
      !Presents(steps[i], k, s.data[k].token) && !Unconditional(steps[i], k)
    ensures Live(Run(s, steps), k) && Run(s, steps).data[k] == s.data[k]
    decreases |steps|
  {
    if steps != [] {
      var t := Apply(s, steps[0]).0;
      ClockRises(t, steps[1..]);
      HeldUnlessPresented(s, steps[0], k);
      HeldThroughRun(t, steps[1..], k);
    }
  }

  /** The step ends the live entry of `k`: a release or an expiry at once showing its current token, an unconditional
      delete, or time passing its current deadline. */
  predicate Ends(s: Server, step: Step, k: Key)
    requires Live(s, k)
  {
    match step
    case Cad(key, t) => key == k && t == s.data[k].token
    case CaExpire(key, t, ms) => key == k && t == s.data[k].token && ms <= 0
    case Advance(elapsed) => !LiveEntry(s.clock + elapsed, s.data[k])
    case Del(key) => key == k
    case _ => false
  }

  /** One step takes a live key away exactly when it ends its entry; a renewal or a swap never does. */
  lemma EndedExactly(s: Server, step: Step, k: Key)
    requires Live(s, k)
    ensures !Live(Apply(s, step).0, k) <==> Ends(s, step, k)
  {
  }

  /** The first step of a run that takes away a key that was live at its start. */
  lemma {:induction false} FirstEnd(s: Server, steps: seq<Step>, k: Key) returns (i: nat)
    requires Live(s, k) && !Live(Run(s, steps), k)
    ensures i < |steps| && Live(Run(s, steps[..i]), k) && Ends(Run(s, steps[..i]), steps[i], k)
    decreases |steps|
  {
    var next := Apply(s, steps[0]).0;
    EndedExactly(s, steps[0], k);
    if Ends(s, steps[0], k) {
      i := 0;
    } else {
      var j := FirstEnd(next, steps[1..], k);
      i := j + 1;
      assert steps[..i][1..] == steps[1..][..j];
    }
  }

  /** At most one claim per lease: between two grants of one key some step finds the key live and ends its entry, by
      showing the token that is current then, deleting unconditionally, or passing the deadline that is current then. */
  lemma OneClaimPerLease(s: Server, k: Key, r1: Key, t1: Token, seconds1: int, between: seq<Step>,
                         r2: Key, t2: Token, seconds2: int)
    requires Apply(s, Claim(k, r1, t1, seconds1)).1 == Claimed
    requires var mid := Run(Apply(s, Claim(k, r1, t1, seconds1)).0, between);
      Apply(mid, Claim(k, r2, t2, seconds2)).1 == Claimed
    ensures var held := Apply(s, Claim(k, r1, t1, seconds1)).0;
      exists i :: 0 <= i < |between| && Live(Run(held, between[..i]), k) && Ends(Run(held, between[..i]), between[i], k)
  {
    var i := FirstEnd(Apply(s, Claim(k, r1, t1, seconds1)).0, between, k);
  }

  /** The milliseconds a run lets pass. */
  function Elapsed(steps: seq<Step>): nat {
    if steps == [] then 0 else Elapsed(steps[1..]) + if steps[0].Advance? then steps[0].elapsed else 0
  }

  lemma {:induction false} ClockTellsTime(s: Server, steps: seq<Step>)
    ensures Run(s, steps).clock == s.clock + Elapsed(steps)
    decreases |steps|
  {
    if steps != [] {
      ClockTellsTime(Apply(s, steps[0]).0, steps[1..]);
    }
  }

  // ---- how long a lease lasts, in plain time ---------------------------------------------------------

  /** The step shows `token` for `k` or puts it there. */
  predicate Mentions(step: Step, k: Key, token: Token) {
    match step
    case Claim(key, _, t, _) => key == k && t == token
    case Cas(key, t, next) => key == k && (t == token || next == token)
    case Del(key) => key == k
    case _ => Presents(step, k, token)
  }

  predicate NobodyMentions(steps: seq<Step>, k: Key, token: Token) {
    forall i :: 0 <= i < |steps| ==> !Mentions(steps[i], k, token)
  }

  /** A key comes to read as a token only by a step that names it. */
  lemma ReadsOnlyIfMentioned(s: Server, step: Step, k: Key, token: Token)
    requires Get(s, k) != Some(token) && !Mentions(step, k, token)
    ensures Get(Apply(s, step).0, k) != Some(token)
  {
  }

  lemma {:induction false} NeverReads(s: Server, steps: seq<Step>, k: Key, token: Token)
    requires Get(s, k) != Some(token) && NobodyMentions(steps, k, token)
    ensures Get(Run(s, steps), k) != Some(token)
    decreases |steps|
  {
    if steps != [] {
      ReadsOnlyIfMentioned(s, steps[0], k, token);
      NeverReads(Apply(s, steps[0]).0, steps[1..], k, token);
    }
  }

  /** An entry nobody mentions reads as its token exactly until its deadline. */
  lemma {:induction false} ReadsUntil(s: Server, steps: seq<Step>, k: Key, token: Token, until: nat)
    requires k in s.data && s.data[k] == Entry(token, Some(until)) && NobodyMentions(steps, k, token)
    ensures Get(Run(s, steps), k) == Some(token) <==> Run(s, steps).clock < until
    decreases |steps|
  {
    ClockRises(s, steps);
    if !Live(s, k) {
      NeverReads(s, steps, k, token);
    } else if steps != [] {
      ReadsUntil(Apply(s, steps[0]).0, steps[1..], k, token, until);
    }
  }

  /** After a granted claim of n seconds that nobody shows the token of, the key reads as the token exactly while less than
      1000 * n milliseconds have passed. */
  lemma ClaimLasts(s: Server, k: Key, result: Key, token: Token, seconds: int, steps: seq<Step>)
    requires Apply(s, Claim(k, result, token, seconds)).1 == Claimed && NobodyMentions(steps, k, token)
    ensures var t := Run(Apply(s, Claim(k, result, token, seconds)).0, steps);
      Get(t, k) == Some(token) <==> Elapsed(steps) < 1000 * seconds
  {
    ClockTellsTime(Apply(s, Claim(k, result, token, seconds)).0, steps);
    ReadsUntil(Apply(s, Claim(k, result, token, seconds)).0, steps, k, token, s.clock + 1000 * seconds);
  }

  /** After a compare-and-expire that showed the token, the key reads as it exactly while less than `ms` milliseconds have
      passed, and not at all if `ms` is not positive. */
  lemma RenewalLasts(s: Server, k: Key, token: Token, ms: int, steps: seq<Step>)
    requires Get(s, k) == Some(token) && NobodyMentions(steps, k, token)
    ensures var t := Run(Apply(s, CaExpire(k, token, ms)).0, steps);
      Get(t, k) == Some(token) <==> Elapsed(steps) < ms
  {
    var next := Apply(s, CaExpire(k, token, ms)).0;
    ClockTellsTime(next, steps);
    if ms <= 0 {
      NeverReads(next, steps, k, token);
    } else {
      ReadsUntil(next, steps, k, token, s.clock + ms);
    }
  }

  /** What the clients are told, in terms of what the key reads as before and after. */
  lemma Told(s: Server, k: Key, token: Token)
    ensures var (t, r) := Apply(s, Cad(k, token));
      if Get(s, k) == Some(token) then r == Number(1) && Get(t, k) == None else r == Number(0) && t == s
    ensures forall ms :: var (t, r) := Apply(s, CaExpire(k, token, ms));
      if Get(s, k) == Some(token) then r == Number(1) && (ms <= 0 ==> Get(t, k) == None) else r == Number(0) && t == s
    ensures forall result, seconds :: var (t, r) := Apply(s, Claim(k, result, token, seconds));
      if seconds <= 0 then r == BadExpiry && t == s
      else if Get(s, k) == None then r == Claimed && Get(t, k) == Some(token)
      else t == s && r == if Get(s, result) == None then Absent else Stored(Get(s, result).value)
    ensures forall next :: var (t, r) := Apply(s, Cas(k, token, next));
      if Get(s, k) == Some(token) then r == Swapped && Get(t, k) == Some(next) else r == Number(0) && t == s
  {
  }

  /** A step on one key leaves what every other key reads as. */
  lemma OthersUntouched(s: Server, step: Step, k: Key)
    requires !step.Advance? && step.key != k
    ensures Get(Apply(s, step).0, k) == Get(s, k)
  {
  }

  // ---- when dead entries are removed does not matter -------------------------------------------------

  function Replies(s: Server, steps: seq<Step>): seq<Reply>
    decreases |steps|
  {
    if steps == [] then []
    else if steps[0].Reap? then Replies(Apply(s, steps[0]).0, steps[1..])
    else [Apply(s, steps[0]).1] + Replies(Apply(s, steps[0]).0, steps[1..])
  }

  function WithoutReaps(steps: seq<Step>): seq<Step> {
    if steps == [] then []
    else if steps[0].Reap? then WithoutReaps(steps[1..])
    else [steps[0]] + WithoutReaps(steps[1..])
  }

  predicate Same(s: Server, t: Server) { s.clock == t.clock && View(s) == View(t) }

  lemma SameLive(s: Server, t: Server, k: Key)
    requires Same(s, t)
    ensures Live(s, k) <==> Live(t, k)
    ensures Live(s, k) ==> s.data[k] == t.data[k]
  {
    assert Live(s, k) <==> k in View(s);
    assert Live(t, k) <==> k in View(t);
  }

  /** A request sees and leaves only what is observable. */
  lemma SameStep(s: Server, t: Server, step: Step)
    requires Same(s, t)
    ensures Same(Apply(s, step).0, Apply(t, step).0) && Apply(s, step).1 == Apply(t, step).1
  {
    var s', t' := Apply(s, step).0, Apply(t, step).0;
    if step.Claim? { SameLive(s, t, step.result); }
    if !step.Advance? { SameLive(s, t, step.key); }
    forall k ensures k in View(s') <==> k in View(t')
      ensures k in View(s') ==> View(s')[k] == View(t')[k]
    {
      SameLive(s, t, k);
    }
  }

  lemma ReapSame(s: Server, k: Key)
    ensures Same(s, Apply(s, Reap(k)).0)
  {
  }

  /** Whenever and whichever dead entries the server removes, the clients see the same replies. */
  lemma {:induction false} ReapsInvisible(s: Server, t: Server, steps: seq<Step>)
    requires Same(s, t)
    ensures Replies(s, steps) == Replies(t, WithoutReaps(steps))
    decreases |steps|
  {
    if steps != [] {
      var next := Apply(s, steps[0]).0;
      if steps[0].Reap? {
        ReapSame(s, steps[0].key);
        ReapsInvisible(next, t, steps[1..]);
      } else {
        SameStep(s, t, steps[0]);
        ReapsInvisible(next, Apply(t, steps[0]).0, steps[1..]);
        assert WithoutReaps(steps)[1..] == WithoutReaps(steps[1..]);
      }
    }
  }

  // ---- the unlock in two steps -----------------------------------------------------------------------

  /** The unlock in two requests: a read at `s`, the requests `between` of the other clients, and the delete if the read
      matched. */
  function SplitUnlock(s: Server, k: Key, token: Token, between: seq<Step>): (Server, Reply) {
    var t := Run(s, between);
    if Get(s, k) == Some(token) then Apply(t, Del(k)) else (t, Number(0))
  }

  /** The token a step puts under `k`: that of a granted claim or of a successful swap. */
  function Installs(s: Server, step: Step, k: Key): Option<Token> {
    match step
    case Claim(key, _, token, _) => if key == k && Apply(s, step).1 == Claimed then Some(token) else None
    case Cas(key, _, next) => if key == k && Apply(s, step).1 == Swapped then Some(next) else None
    case _ => None
  }

  /** The entry of `k` is live now and throughout the run, and no step of it installs another. */
  predicate Lasts(s: Server, steps: seq<Step>, k: Key)
    decreases |steps|
  {
    Live(s, k) && (steps != [] ==> Installs(s, steps[0], k).None? && Lasts(Apply(s, steps[0]).0, steps[1..], k))
  }

  /** Step `i` installs another owner's token, and that entry is still there when the run ends. */
  predicate TakenAt(s: Server, steps: seq<Step>, k: Key, token: Token, i: nat)
    requires i < |steps|
  {
    var u := Run(s, steps[..i]);
    var owner := Installs(u, steps[i], k);
    owner.Some? && owner.value != token && Lasts(Apply(u, steps[i]).0, steps[i + 1..], k)
  }

  lemma {:induction false} LastsToEnd(s: Server, steps: seq<Step>, k: Key)
    requires Lasts(s, steps, k)
    ensures Live(Run(s, steps), k) && Run(s, steps).data[k].token == s.data[k].token
    decreases |steps|
  {
    if steps != [] {
      LastsToEnd(Apply(s, steps[0]).0, steps[1..], k);
    }
  }

  /** If the entry at the start does not last, what the key holds at the end was installed on the way. */
  lemma {:induction false} LastInstalled(s: Server, steps: seq<Step>, k: Key, token: Token) returns (i: nat)
    requires Live(Run(s, steps), k) && Run(s, steps).data[k].token != token && !Lasts(s, steps, k)
    ensures i < |steps| && TakenAt(s, steps, k, token, i)
    decreases |steps|
  {
    var next, rest := Apply(s, steps[0]).0, steps[1..];
    if Lasts(next, rest, k) {
      LastsToEnd(next, rest, k);
      i := 0;
      assert steps[..0] == [];
    } else {
      var j := LastInstalled(next, rest, k, token);
      i := j + 1;
      assert steps[..i][1..] == rest[..j] && steps[i + 1..] == rest[j + 1..];
    }
  }

  lemma {:induction false} RunSplit(s: Server, steps: seq<Step>, i: nat)
    requires i < |steps|
    ensures Run(s, steps) == Run(Apply(Run(s, steps[..i]), steps[i]).0, steps[i + 1..])
    decreases |steps|
  {
    if i > 0 {
      RunSplit(Apply(s, steps[0]).0, steps[1..], i - 1);
      assert steps[1..][..i - 1] == steps[..i][1..] && steps[1..][i..] == steps[i + 1..];
    }
  }

  lemma TakenIsOther(s: Server, k: Key, token: Token, between: seq<Step>, i: nat)
    requires i < |between| && TakenAt(s, between, k, token, i)
    ensures var t := Run(s, between); Live(t, k) && t.data[k].token != token
  {
    RunSplit(s, between, i);
    LastsToEnd(Apply(Run(s, between[..i]), between[i]).0, between[i + 1..], k);
  }

  lemma OtherIsTaken(s: Server, k: Key, token: Token, between: seq<Step>) returns (i: nat)
    requires Get(s, k) == Some(token)
    requires var t := Run(s, between); Live(t, k) && t.data[k].token != token
    ensures i < |between| && TakenAt(s, between, k, token, i)
  {
    if Lasts(s, between, k) {
      LastsToEnd(s, between, k);
    }
    i := LastInstalled(s, between, k, token);
  }

  /** On one state the delete and the release differ exactly over another owner's entry. */
  lemma DeleteDiffers(t: Server, k: Key, token: Token)
    ensures Apply(t, Del(k)) != Apply(t, Cad(k, token)) <==> Live(t, k) && t.data[k].token != token
  {
  }

  /** After a matching read the delete hits another owner's entry exactly when some request in between was a granted
      claim or a successful swap to another token whose entry is still there; exactly then the two-step unlock differs
      from an atomic release at the moment of the delete. */
  lemma SplitUnlockExactly(s: Server, k: Key, token: Token, between: seq<Step>)
    requires Get(s, k) == Some(token)
    ensures var t := Run(s, between);
      var taken := exists i :: 0 <= i < |between| && TakenAt(s, between, k, token, i);
      && (taken <==> Live(t, k) && t.data[k].token != token)
      && (taken <==> SplitUnlock(s, k, token, between) != Apply(t, Cad(k, token)))
  {
    var t := Run(s, between);
    DeleteDiffers(t, k, token);
    if i :| 0 <= i < |between| && TakenAt(s, between, k, token, i) {
      TakenIsOther(s, k, token, between, i);
    }
    if Live(t, k) && t.data[k].token != token {
      var i := OtherIsTaken(s, k, token, between);
    }
  }

  /** A caller whose read matched may still delete as long as its lease covers the delete and nobody showed its
      token in between. */
  lemma SplitUnlockWithinLease(s: Server, k: Key, token: Token, between: seq<Step>)
    requires Get(s, k) == Some(token) && LiveEntry(Run(s, between).clock, s.data[k])
    requires forall i :: 0 <= i < |between| ==> !Presents(between[i], k, token) && !Unconditional(between[i], k)
    ensures SplitUnlock(s, k, token, between) == Apply(Run(s, between), Cad(k, token))
  {
    HeldThroughRun(s, between, k);
  }

  /** Otherwise it can delete another owner's key: the first owner reads its token, its lease runs out, the second
      owner claims, the first deletes, and a third is granted the key inside the second owner's lease. */
  lemma SplitUnlockRace(k: Key, r: Key, a: Token, b: Token, c: Token)
    requires a != b
    ensures var s0 := Apply(Server(0, map[]), Claim(k, r, a, 1)).0;
      var s1 := Run(s0, [Advance(1000), Claim(k, r, b, 10)]);
      var (s2, deleted) := SplitUnlock(s0, k, a, [Advance(1000), Claim(k, r, b, 10)]);
      && Get(s0, k) == Some(a)
      && Get(s1, k) == Some(b)
      && deleted == Number(1)
      && Apply(s2, Claim(k, r, c, 10)).1 == Claimed
      && LiveEntry(s2.clock, s1.data[k])
  {
    var s0 := Apply(Server(0, map[]), Claim(k, r, a, 1)).0;
    var steps := [Advance(1000), Claim(k, r, b, 10)];
    var mid := Apply(s0, steps[0]).0;
    assert steps[1..] == [Claim(k, r, b, 10)] && steps[1..][1..] == [];
    assert Run(s0, steps) == Run(mid, steps[1..]) == Apply(mid, steps[1]).0;
  }
}
