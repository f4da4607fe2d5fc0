/** The fan-out delivery measurement of benchmarks/pubsub_benchmark.cpp.

    One publisher and N reader threads share four atomics: `ready` and `go` for start-up, `arrived` and
    `lastTick` for every round. Each transition below is one atomic operation of one thread (or one delivery
    by the server, or one advance of the hardware tick counter), under sequential consistency.
    A schedule is a sequence of transitions; every theorem holds for every schedule.
 */
module Barrier {

  const WORD: nat := 0x1_0000_0000_0000_0000

  /** Where a reader thread stands. `Load` .. `Arrive` carry the tick it is folding into `lastTick`;
      `Swap` also carries the `current` local of the compare-exchange loop. */
  datatype ReaderPc =
    | Announce
    | AwaitGo
    | Read
    | Sample
    | Load(value: nat)
    | Swap(value: nat, current: nat)
    | Arrive(value: nat)
    | Joined

  /** `flight` counts messages the server still owes this subscriber, `inbox` those waiting in its socket.
      `ticks` is the history of the hardware ticks this reader sampled, one per iteration. */
  datatype Reader = Reader(pc: ReaderPc, iteration: nat, flight: nat, inbox: nat, ticks: seq<nat>)

  datatype PublisherPc =
    | AwaitReady
    | OpenGate
    | Head
    | ResetTick
    | SampleStart
    | Publish
    | AwaitAck
    | Spin
    | Collect
    | Finished

  datatype Config = Config(warmup: nat, samples: nat)

  datatype State = State(
    readers: seq<Reader>,
    pc: PublisherPc,
    iteration: nat,
    ready: nat,
    go: bool,
    arrived: nat,
    lastTick: nat,
    clock: nat,
    starts: seq<nat>,
    acks: seq<nat>,
    ackTicks: seq<nat>,
    deliveryTicks: seq<nat>)

  /** `Thread` is one step of a reader; `spurious` makes its compare-exchange fail even on a match. */
  datatype Step =
    | Advance(ticks: nat)
    | Deliver(index: nat)
    | Thread(index: nat, spurious: bool)
    | Publisher

  function Iterations(c: Config): nat { c.warmup + c.samples }

  function Init(count: nat): State {
    State(seq(count, _ => Reader(Announce, 0, 0, 0, [])), AwaitReady, 0, 0, false, 0, 0, 0, [], [], [], [])
  }

  /** Unsigned 64-bit subtraction, as `completed - start` computes it. */
  function Sub64(a: nat, b: nat): nat { (a - b) % WORD }

  /** The value a publisher local was last assigned, read off its history. */
  function Last(history: seq<nat>): nat { if history == [] then 0 else history[|history| - 1] }

  // ---- the transitions -------------------------------------------------------------------------------

  predicate ReaderEnabled(s: State, r: Reader) {
    match r.pc
    case AwaitGo => s.go
    case Read => r.inbox > 0
    case Joined => false
    case _ => true
  }

  predicate PublisherEnabled(s: State, c: Config) {
    match s.pc
    case AwaitReady => s.ready == |s.readers|
    case Head => s.iteration < Iterations(c) || forall i :: 0 <= i < |s.readers| ==> s.readers[i].pc.Joined?
    case Spin => s.arrived == |s.readers|
    case Finished => false
    case _ => true
  }

  predicate Enabled(s: State, c: Config, step: Step) {
    match step
    case Advance(ticks) => s.clock + ticks < WORD
    case Deliver(i) => i < |s.readers| && s.readers[i].flight > 0
    case Thread(i, _) => i < |s.readers| && ReaderEnabled(s, s.readers[i])
    case Publisher => PublisherEnabled(s, c)
  }

  function LoopHead(c: Config, iteration: nat): ReaderPc {
    if iteration < Iterations(c) then Read else Joined
  }

  /** One atomic step of reader `r`: its new local state and the new shared `ready`, `arrived`, `lastTick`. */
  function ReaderStep(s: State, c: Config, r: Reader, spurious: bool): (Reader, nat, nat, nat)
    requires ReaderEnabled(s, r)
  {
    match r.pc
    case Announce => (r.(pc := AwaitGo), s.ready + 1, s.arrived, s.lastTick)
    case AwaitGo => (r.(pc := LoopHead(c, 0)), s.ready, s.arrived, s.lastTick)
    case Read => (r.(pc := Sample, inbox := r.inbox - 1), s.ready, s.arrived, s.lastTick)
    case Sample => (r.(pc := Load(s.clock), ticks := r.ticks + [s.clock]), s.ready, s.arrived, s.lastTick)
    case Load(v) => (r.(pc := Swap(v, s.lastTick)), s.ready, s.arrived, s.lastTick)
    case Swap(v, current) =>
      if v <= current then (r.(pc := Arrive(v)), s.ready, s.arrived, s.lastTick)
      else if s.lastTick == current && !spurious then (r.(pc := Arrive(v)), s.ready, s.arrived, v)
      else (r.(pc := Swap(v, s.lastTick)), s.ready, s.arrived, s.lastTick)
    case Arrive(_) =>
      (r.(pc := LoopHead(c, r.iteration + 1), iteration := r.iteration + 1), s.ready, s.arrived + 1, s.lastTick)
  }

  function PublisherStep(s: State, c: Config): State
    requires PublisherEnabled(s, c)
  {
    match s.pc
    case AwaitReady => s.(pc := OpenGate)
    case OpenGate => s.(pc := Head, go := true)
    case Head =>
      if s.iteration < Iterations(c) then s.(pc := ResetTick, arrived := 0) else s.(pc := Finished)
    case ResetTick => s.(pc := SampleStart, lastTick := 0)
    case SampleStart => s.(pc := Publish, starts := s.starts + [s.clock])
    case Publish =>
      s.(pc := AwaitAck,
         readers := seq(|s.readers|, i requires 0 <= i < |s.readers| =>
           s.readers[i].(flight := s.readers[i].flight + 1)))
    case AwaitAck => s.(pc := Spin, acks := s.acks + [s.clock])
    case Spin => s.(pc := Collect)
    case Collect =>
      var next := s.(pc := Head, iteration := s.iteration + 1);
      if s.iteration < c.warmup then next else
        next.(ackTicks := s.ackTicks + [Sub64(Last(s.acks), Last(s.starts))],
              deliveryTicks := s.deliveryTicks + [Sub64(s.lastTick, Last(s.starts))])
  }

  function Apply(s: State, c: Config, step: Step): State
    requires Enabled(s, c, step)
  {
    match step
    case Advance(ticks) => s.(clock := s.clock + ticks)
    case Deliver(i) =>
      s.(readers := s.readers[i := s.readers[i].(flight := s.readers[i].flight - 1,
                                                 inbox := s.readers[i].inbox + 1)])
    case Thread(i, spurious) =>
      var (r, ready, arrived, lastTick) := ReaderStep(s, c, s.readers[i], spurious);
      s.(readers := s.readers[i := r], ready := ready, arrived := arrived, lastTick := lastTick)
    case Publisher => PublisherStep(s, c)
  }

  /** Every transition of the schedule can happen when its turn comes. */
  predicate Legal(s: State, c: Config, steps: seq<Step>)
    decreases |steps|
  {
    steps == [] || (Enabled(s, c, steps[0]) && Legal(Apply(s, c, steps[0]), c, steps[1..]))
  }

  function Run(s: State, c: Config, steps: seq<Step>): State
    requires Legal(s, c, steps)
    decreases |steps|
  {
    if steps == [] then s else Run(Apply(s, c, steps[0]), c, steps[1..])
  }

  // ---- the inductive invariant -----------------------------------------------------------------------

  /** How many readers satisfy `p`. */
  function Count(rs: seq<Reader>, p: Reader -> bool): (n: nat)
    ensures n <= |rs|
  {
    if rs == [] then 0 else (if p(rs[0]) then 1 else 0) + Count(rs[1..], p)
  }

  function Announced(): Reader -> bool { (r: Reader) => !r.pc.Announce? }

  function Past(iteration: nat): Reader -> bool { (r: Reader) => r.iteration > iteration }

  lemma {:induction false} CountUpdate(rs: seq<Reader>, i: nat, r: Reader, p: Reader -> bool)
    requires i < |rs|
    ensures Count(rs[i := r], p) == Count(rs, p) - (if p(rs[i]) then 1 else 0) + (if p(r) then 1 else 0)
  {
    if i == 0 {
      assert rs[0 := r][1..] == rs[1..];
    } else {
      assert rs[i := r][1..] == rs[1..][i - 1 := r];
      CountUpdate(rs[1..], i - 1, r, p);
    }
  }

  lemma {:induction false} CountFull(rs: seq<Reader>, p: Reader -> bool)
    ensures Count(rs, p) == |rs| <==> forall i :: 0 <= i < |rs| ==> p(rs[i])
  {
    if rs != [] {
      CountFull(rs[1..], p);
      assert forall i :: 0 <= i < |rs| - 1 ==> rs[1..][i] == rs[i + 1];
      if forall i :: 0 <= i < |rs| - 1 ==> p(rs[1..][i]) {
        assert forall i :: 0 < i < |rs| ==> rs[i] == rs[1..][i - 1];
      }
    }
  }

  lemma {:induction false} CountNone(rs: seq<Reader>, p: Reader -> bool)
    requires forall i :: 0 <= i < |rs| ==> !p(rs[i])
    ensures Count(rs, p) == 0
  {
    if rs != [] {
      CountNone(rs[1..], p);
    }
  }

  lemma {:induction false} CountSame(rs: seq<Reader>, qs: seq<Reader>, p: Reader -> bool)
    requires |rs| == |qs| && forall i :: 0 <= i < |rs| ==> p(rs[i]) == p(qs[i])
    ensures Count(rs, p) == Count(qs, p)
  {
    if rs != [] {
      CountSame(rs[1..], qs[1..], p);
    }
  }

  /** A round is open from the publication until its completed tick has been collected. */
  predicate Open(pc: PublisherPc) { pc.AwaitAck? || pc.Spin? || pc.Collect? }

  /** The reader holds the tick of its present iteration. */
  predicate Sampled(r: Reader) { r.pc.Load? || r.pc.Swap? || r.pc.Arrive? }

  /** The reader has not taken a message of its present iteration. */
  predicate Idle(r: Reader) { !r.pc.Sample? && !Sampled(r) }

  /** The reader's tick for round `k` is already accounted for in `lastTick`. */
  predicate Landed(r: Reader, k: nat) { r.iteration > k || r.pc.Arrive? }

  predicate ReaderShape(r: Reader, c: Config) {
    && r.iteration <= Iterations(c)
    && (r.pc.Announce? || r.pc.AwaitGo? ==> r.iteration == 0)
    && (!r.pc.Announce? && !r.pc.AwaitGo? ==> (r.pc.Joined? <==> r.iteration == Iterations(c)))
    && |r.ticks| == r.iteration + (if Sampled(r) then 1 else 0)
    && (r.pc.Load? ==> r.pc.value == r.ticks[r.iteration])
    && (r.pc.Swap? ==> r.pc.value == r.ticks[r.iteration])
    && (r.pc.Arrive? ==> r.pc.value == r.ticks[r.iteration])
  }

  /** Where reader `r` may stand relative to the publisher's round. */
  predicate InStep(s: State, r: Reader) {
    if Open(s.pc) then
      || (r.iteration == s.iteration && r.flight + r.inbox == (if Idle(r) then 1 else 0))
      || (r.iteration == s.iteration + 1 && r.flight + r.inbox == 0 && Idle(r))
    else
      r.iteration == s.iteration && r.flight + r.inbox == 0 && Idle(r)
  }

  /** The tick of round `k` lies between the publisher's start of that round and the clock. */
  predicate TickBounds(s: State, r: Reader) {
    && |r.ticks| <= |s.starts|
    && forall k :: 0 <= k < |r.ticks| ==> s.starts[k] <= r.ticks[k] <= s.clock
  }

  /** Every landed tick of the open round is at most `lastTick`, and a compare-exchange never holds a
      `current` that `lastTick` has not reached. */
  predicate BelowMax(s: State, r: Reader) {
    && (Landed(r, s.iteration) ==> |r.ticks| > s.iteration && r.ticks[s.iteration] <= s.lastTick)
    && (r.pc.Swap? ==> r.pc.current <= s.lastTick)
  }

  predicate ReaderInv(s: State, c: Config, r: Reader) {
    && ReaderShape(r, c)
    && InStep(s, r)
    && TickBounds(s, r)
    && (Open(s.pc) ==> BelowMax(s, r))
    && (r.pc.Announce? ==> s.pc.AwaitReady?)
    && (!r.pc.Announce? && !r.pc.AwaitGo? ==> s.go)
  }

  /** `lastTick` is zero or the landed tick of some reader. */
  predicate Attained(s: State) {
    s.lastTick == 0
    || exists i :: 0 <= i < |s.readers| && Landed(s.readers[i], s.iteration)
                   && |s.readers[i].ticks| > s.iteration && s.readers[i].ticks[s.iteration] == s.lastTick
  }

  /** The largest tick any reader sampled in round `k`. */
  function MaxTick(rs: seq<Reader>, k: nat): (m: nat)
    requires forall i :: 0 <= i < |rs| ==> k < |rs[i].ticks|
  {
    if rs == [] then 0 else
      var rest := MaxTick(rs[1..], k);
      if rs[0].ticks[k] > rest then rs[0].ticks[k] else rest
  }

  /** Round `k` is over: every reader sampled a tick for it. */
  predicate Complete(rs: seq<Reader>, k: nat) {
    forall i :: 0 <= i < |rs| ==> k < |rs[i].ticks|
  }

  /** What was recorded for round `k`: the time from its start to the acknowledgement, and to the last
      reader's tick, both exact. */
  predicate RecordedExactly(s: State, c: Config, k: nat) {
    && c.warmup <= k < |s.starts| && k < |s.acks|
    && k - c.warmup < |s.ackTicks| && k - c.warmup < |s.deliveryTicks|
    && Complete(s.readers, k)
    && s.starts[k] <= s.acks[k]
    && s.ackTicks[k - c.warmup] == s.acks[k] - s.starts[k]
    && s.starts[k] <= MaxTick(s.readers, k)
    && s.deliveryTicks[k - c.warmup] == MaxTick(s.readers, k) - s.starts[k]
  }

  function Over(a: nat, b: nat): nat { if a > b then a - b else 0 }

  predicate Histories(s: State, c: Config) {
    && |s.starts| == s.iteration + (if Open(s.pc) || s.pc.Publish? then 1 else 0)
    && |s.acks| == s.iteration + (if s.pc.Spin? || s.pc.Collect? then 1 else 0)
    && (forall k :: 0 <= k < |s.starts| ==> s.starts[k] <= s.clock)
    && (forall k :: 0 <= k < |s.acks| ==> s.starts[k] <= s.acks[k] <= s.clock)
    && |s.deliveryTicks| == |s.ackTicks| == Over(s.iteration, c.warmup)
  }

  predicate Records(s: State, c: Config) {
    forall k :: c.warmup <= k < s.iteration ==> RecordedExactly(s, c, k)
  }

  predicate Shared(s: State, c: Config) {
    && |s.readers| > 0
    && s.clock < WORD
    && s.lastTick <= s.clock
    && s.iteration <= Iterations(c)
    && (s.iteration == Iterations(c) ==> !Open(s.pc) && !s.pc.ResetTick? && !s.pc.SampleStart? && !s.pc.Publish?)
    && (s.pc.Finished? ==> s.iteration == Iterations(c))
    && (s.pc.AwaitReady? || s.pc.OpenGate? ==> s.iteration == 0 && !s.go)
    && (!s.pc.AwaitReady? && !s.pc.OpenGate? ==> s.go)
    && s.ready == Count(s.readers, Announced())
    && (s.pc.ResetTick? || s.pc.SampleStart? || s.pc.Publish? ==> s.arrived == 0)
    && (s.pc.SampleStart? || s.pc.Publish? ==> s.lastTick == 0)
    && (Open(s.pc) ==> s.arrived == Count(s.readers, Past(s.iteration)) && Attained(s))
    && (s.pc.Collect? ==> s.arrived == |s.readers|)
    && (s.pc.Finished? ==> forall i :: 0 <= i < |s.readers| ==> s.readers[i].pc.Joined?)
  }

  predicate Inv(s: State, c: Config) {
    && Shared(s, c)
    && (forall i :: 0 <= i < |s.readers| ==> ReaderInv(s, c, s.readers[i]))
    && Histories(s, c)
    && Records(s, c)
  }

  // ---- every transition keeps it ---------------------------------------------------------------------

  lemma {:induction false} MaxTickSame(rs: seq<Reader>, qs: seq<Reader>, k: nat)
    requires |rs| == |qs| && Complete(rs, k) && Complete(qs, k)
    requires forall i :: 0 <= i < |rs| ==> rs[i].ticks[k] == qs[i].ticks[k]
    ensures MaxTick(rs, k) == MaxTick(qs, k)
  {
    if rs != [] {
      MaxTickSame(rs[1..], qs[1..], k);
    }
  }

  /** A bound that every tick respects and some tick attains is the maximum. */
  lemma {:induction false} MaxTickIs(rs: seq<Reader>, k: nat, m: nat)
    requires Complete(rs, k)
    requires forall i :: 0 <= i < |rs| ==> rs[i].ticks[k] <= m
    ensures MaxTick(rs, k) <= m
    ensures (exists i :: 0 <= i < |rs| && rs[i].ticks[k] == m) ==> MaxTick(rs, k) == m
  {
    if rs != [] {
      MaxTickIs(rs[1..], k, m);
      if i :| 0 <= i < |rs| && rs[i].ticks[k] == m {
        assert i > 0 ==> rs[1..][i - 1].ticks[k] == m;
      }
    }
  }

  /** Records of closed rounds survive any change that only extends the histories. */
  lemma RecordsSurvive(s: State, t: State, c: Config)
    requires Histories(s, c) && Records(s, c) && |t.readers| == |s.readers|
    requires s.starts <= t.starts && s.acks <= t.acks
    requires s.ackTicks <= t.ackTicks && s.deliveryTicks <= t.deliveryTicks
    requires forall i :: 0 <= i < |s.readers| ==> s.readers[i].ticks <= t.readers[i].ticks
    ensures forall k :: c.warmup <= k < s.iteration ==> RecordedExactly(t, c, k)
  {
    forall k | c.warmup <= k < s.iteration ensures RecordedExactly(t, c, k) {
      assert RecordedExactly(s, c, k);
      MaxTickSame(s.readers, t.readers, k);
    }
  }

  lemma InitHolds(count: nat, c: Config)
    requires count > 0
    ensures Inv(Init(count), c)
  {
    CountNone(Init(count).readers, Announced());
  }

  /** A reader that does not move keeps its place while the clock and `lastTick` only rise. */
  lemma BystanderKept(s: State, t: State, c: Config, r: Reader)
    requires ReaderInv(s, c, r)
    requires t.pc == s.pc && t.iteration == s.iteration && t.starts == s.starts && t.go == s.go
    requires s.clock <= t.clock && s.lastTick <= t.lastTick
    ensures ReaderInv(t, c, r)
  {
  }

  lemma AdvanceKeeps(s: State, c: Config, ticks: nat)
    requires Inv(s, c) && Enabled(s, c, Advance(ticks))
    ensures Inv(Apply(s, c, Advance(ticks)), c)
  {
    var t := Apply(s, c, Advance(ticks));
    RecordsSurvive(s, t, c);
    AttainedSurvives(s, t);
    forall i | 0 <= i < |t.readers| ensures ReaderInv(t, c, t.readers[i]) {
      BystanderKept(s, t, c, s.readers[i]);
    }
  }

  lemma DeliverKeepsReaders(s: State, c: Config, i: nat)
    requires Inv(s, c) && Enabled(s, c, Deliver(i))
    ensures var t := Apply(s, c, Deliver(i));
      forall j :: 0 <= j < |t.readers| ==> ReaderInv(t, c, t.readers[j])
  {
    var t := Apply(s, c, Deliver(i));
    forall j | 0 <= j < |t.readers| ensures ReaderInv(t, c, t.readers[j]) {
      if j == i {
        assert ReaderInv(s, c, s.readers[i]);
      } else {
        BystanderKept(s, t, c, s.readers[j]);
      }
    }
  }

  lemma DeliverKeeps(s: State, c: Config, i: nat)
    requires Inv(s, c) && Enabled(s, c, Deliver(i))
    ensures Inv(Apply(s, c, Deliver(i)), c)
  {
    var t := Apply(s, c, Deliver(i));
    DeliverKeepsReaders(s, c, i);
    RecordsSurvive(s, t, c);
    CountSame(s.readers, t.readers, Announced());
    CountSame(s.readers, t.readers, Past(s.iteration));
    AttainedSurvives(s, t);
  }

  /** The witness of `lastTick` stays a witness when readers only move forward. */
  lemma AttainedSurvives(s: State, t: State)
    requires t.lastTick == s.lastTick && t.iteration == s.iteration && |t.readers| == |s.readers|
    requires forall i :: 0 <= i < |s.readers| ==>
      && s.readers[i].ticks <= t.readers[i].ticks
      && (Landed(s.readers[i], s.iteration) ==> Landed(t.readers[i], s.iteration))
    ensures Attained(s) ==> Attained(t)
  {
  }

  lemma MoverShape(s: State, c: Config, r: Reader, spurious: bool)
    requires ReaderShape(r, c) && ReaderEnabled(s, r)
    ensures ReaderShape(ReaderStep(s, c, r, spurious).0, c)
  {
  }

  lemma MoverInStep(s: State, c: Config, r: Reader, spurious: bool)
    requires Shared(s, c) && ReaderInv(s, c, r) && ReaderEnabled(s, r)
    ensures var (q, ready, arrived, lastTick) := ReaderStep(s, c, r, spurious);
      InStep(s.(ready := ready, arrived := arrived, lastTick := lastTick), q)
  {
  }

  /** The stepping reader itself still fits the invariant. */
  lemma MoverKept(s: State, c: Config, r: Reader, spurious: bool)
    requires Shared(s, c) && ReaderInv(s, c, r) && ReaderEnabled(s, r) && Histories(s, c)
    ensures var (q, ready, arrived, lastTick) := ReaderStep(s, c, r, spurious);
      && s.lastTick <= lastTick
      && ReaderInv(s.(ready := ready, arrived := arrived, lastTick := lastTick), c, q)
  {
    MoverShape(s, c, r, spurious);
    MoverInStep(s, c, r, spurious);
  }

  lemma ThreadKeepsReaders(s: State, c: Config, i: nat, spurious: bool)
    requires Inv(s, c) && Enabled(s, c, Thread(i, spurious))
    ensures var t := Apply(s, c, Thread(i, spurious));
      forall j :: 0 <= j < |t.readers| ==> ReaderInv(t, c, t.readers[j])
  {
    var t := Apply(s, c, Thread(i, spurious));
    MoverKept(s, c, s.readers[i], spurious);
    var u := s.(ready := t.ready, arrived := t.arrived, lastTick := t.lastTick);
    forall j | 0 <= j < |t.readers| ensures ReaderInv(t, c, t.readers[j]) {
      if j == i {
        BystanderKept(u, t, c, t.readers[i]);
      } else {
        BystanderKept(s, t, c, s.readers[j]);
      }
    }
  }

  lemma ThreadKeepsRecords(s: State, c: Config, i: nat, spurious: bool)
    requires Histories(s, c) && Records(s, c) && Enabled(s, c, Thread(i, spurious))
    ensures var t := Apply(s, c, Thread(i, spurious)); Histories(t, c) && Records(t, c)
  {
    RecordsSurvive(s, Apply(s, c, Thread(i, spurious)), c);
  }

  lemma ThreadKeepsAttained(s: State, c: Config, i: nat, spurious: bool)
    requires Inv(s, c) && Enabled(s, c, Thread(i, spurious)) && Open(s.pc)
    ensures Attained(Apply(s, c, Thread(i, spurious)))
  {
    var t := Apply(s, c, Thread(i, spurious));
    var r := s.readers[i];
    assert ReaderInv(s, c, r);
    if t.lastTick == s.lastTick {
      AttainedSurvives(s, t);
    } else {
      assert r.pc.Swap? && t.readers[i].pc.Arrive? && t.readers[i].ticks[s.iteration] == t.lastTick;
    }
  }

  lemma ThreadKeepsShared(s: State, c: Config, i: nat, spurious: bool)
    requires Inv(s, c) && Enabled(s, c, Thread(i, spurious))
    ensures Shared(Apply(s, c, Thread(i, spurious)), c)
  {
    var t := Apply(s, c, Thread(i, spurious));
    assert ReaderInv(s, c, s.readers[i]);
    CountUpdate(s.readers, i, t.readers[i], Announced());
    CountUpdate(s.readers, i, t.readers[i], Past(s.iteration));
    if Open(s.pc) {
      ThreadKeepsAttained(s, c, i, spurious);
    }
    if s.pc.Collect? {
      CountFull(s.readers, Past(s.iteration));
    }
  }

  lemma ThreadKeeps(s: State, c: Config, i: nat, spurious: bool)
    requires Inv(s, c) && Enabled(s, c, Thread(i, spurious))
    ensures Inv(Apply(s, c, Thread(i, spurious)), c)
  {
    ThreadKeepsShared(s, c, i, spurious);
    ThreadKeepsReaders(s, c, i, spurious);
    ThreadKeepsRecords(s, c, i, spurious);
  }

  /** When every reader has arrived, the round is over and `lastTick` is its true maximum. */
  lemma RoundClosed(s: State, c: Config)
    requires Inv(s, c) && Open(s.pc) && s.arrived == |s.readers|
    ensures forall i :: 0 <= i < |s.readers| ==> var r := s.readers[i];
      r.iteration == s.iteration + 1 && r.flight + r.inbox == 0 && Idle(r)
    ensures Complete(s.readers, s.iteration)
    ensures s.lastTick == MaxTick(s.readers, s.iteration)
    ensures s.starts[s.iteration] <= s.lastTick
  {
    var k := s.iteration;
    CountFull(s.readers, Past(k));
    forall i | 0 <= i < |s.readers|
      ensures s.readers[i].iteration == k + 1 && s.readers[i].flight + s.readers[i].inbox == 0
      ensures Idle(s.readers[i]) && k < |s.readers[i].ticks|
      ensures s.starts[k] <= s.readers[i].ticks[k] <= s.lastTick
    {
      assert ReaderInv(s, c, s.readers[i]) && Past(k)(s.readers[i]);
    }
    if s.lastTick == 0 {
      assert s.readers[0].ticks[k] == 0;
    }
    MaxTickIs(s.readers, k, s.lastTick);
  }

  lemma PublisherKeepsShared(s: State, c: Config)
    requires Inv(s, c) && Enabled(s, c, Publisher)
    ensures Shared(Apply(s, c, Publisher), c)
  {
    var t := Apply(s, c, Publisher);
    if s.pc.Publish? {
      CountSame(s.readers, t.readers, Announced());
      CountNone(t.readers, Past(s.iteration));
    }
  }

  /** How the publisher's step looks to one reader. */
  lemma PublisherKeepsReader(s: State, c: Config, j: nat)
    requires Inv(s, c) && Enabled(s, c, Publisher) && j < |s.readers|
    requires s.pc.Collect? ==> var r := s.readers[j];
      r.iteration == s.iteration + 1 && r.flight + r.inbox == 0 && Idle(r)
    requires s.pc.AwaitReady? ==> !s.readers[j].pc.Announce?
    ensures var t := Apply(s, c, Publisher); ReaderInv(t, c, t.readers[j])
  {
    assert ReaderInv(s, c, s.readers[j]);
  }

  lemma PublisherKeepsReaders(s: State, c: Config)
    requires Inv(s, c) && Enabled(s, c, Publisher)
    ensures var t := Apply(s, c, Publisher);
      forall j :: 0 <= j < |t.readers| ==> ReaderInv(t, c, t.readers[j])
  {
    var t := Apply(s, c, Publisher);
    if s.pc.Collect? {
      RoundClosed(s, c);
    }
    CountFull(s.readers, Announced());
    forall j | 0 <= j < |t.readers| ensures ReaderInv(t, c, t.readers[j]) {
      assert s.pc.AwaitReady? ==> Announced()(s.readers[j]);
      PublisherKeepsReader(s, c, j);
    }
  }

  lemma PublisherKeepsTimes(s: State, c: Config)
    requires Histories(s, c) && Enabled(s, c, Publisher)
    ensures var t := Apply(s, c, Publisher);
      && (forall k :: 0 <= k < |t.starts| ==> t.starts[k] <= t.clock)
      && (forall k :: 0 <= k < |t.acks| ==> k < |t.starts| && t.starts[k] <= t.acks[k] <= t.clock)
  {
  }

  lemma PublisherKeepsHistories(s: State, c: Config)
    requires Histories(s, c) && Enabled(s, c, Publisher)
    ensures Histories(Apply(s, c, Publisher), c)
  {
    PublisherKeepsTimes(s, c);
  }

  /** Collecting a closed round records it exactly. */
  lemma CollectRecords(s: State, c: Config)
    requires Histories(s, c) && s.pc.Collect? && c.warmup <= s.iteration && s.clock < WORD && s.lastTick <= s.clock
    requires Complete(s.readers, s.iteration)
    requires s.starts[s.iteration] <= s.lastTick == MaxTick(s.readers, s.iteration)
    ensures RecordedExactly(PublisherStep(s, c), c, s.iteration)
  {
    var k := s.iteration;
    assert Last(s.starts) == s.starts[k] && Last(s.acks) == s.acks[k];
    assert Sub64(s.acks[k], s.starts[k]) == s.acks[k] - s.starts[k];
    assert Sub64(s.lastTick, s.starts[k]) == s.lastTick - s.starts[k];
  }

  lemma PublisherKeepsRecords(s: State, c: Config)
    requires Histories(s, c) && Records(s, c) && Enabled(s, c, Publisher)
    requires s.pc.Collect? && c.warmup <= s.iteration ==> RecordedExactly(PublisherStep(s, c), c, s.iteration)
    ensures Records(Apply(s, c, Publisher), c)
  {
    RecordsSurvive(s, PublisherStep(s, c), c);
  }

  lemma PublisherKeeps(s: State, c: Config)
    requires Inv(s, c) && Enabled(s, c, Publisher)
    ensures Inv(Apply(s, c, Publisher), c)
  {
    PublisherKeepsShared(s, c);
    PublisherKeepsReaders(s, c);
    PublisherKeepsHistories(s, c);
    if s.pc.Collect? && c.warmup <= s.iteration {
      RoundClosed(s, c);
      CollectRecords(s, c);
    }
    PublisherKeepsRecords(s, c);
  }

  // ---- what holds of every schedule ------------------------------------------------------------------

  lemma StepKeeps(s: State, c: Config, step: Step)
    requires Inv(s, c) && Enabled(s, c, step)
    ensures Inv(Apply(s, c, step), c)
  {
    match step
    case Advance(ticks) => AdvanceKeeps(s, c, ticks);
    case Deliver(i) => DeliverKeeps(s, c, i);
    case Thread(i, spurious) => ThreadKeeps(s, c, i, spurious);
    case Publisher => PublisherKeeps(s, c);
  }

  lemma {:induction false} RunKeeps(s: State, c: Config, steps: seq<Step>)
    requires Inv(s, c) && Legal(s, c, steps)
    ensures Inv(Run(s, c, steps), c)
    decreases |steps|
  {
    if steps != [] {
      StepKeeps(s, c, steps[0]);
      RunKeeps(Apply(s, c, steps[0]), c, steps[1..]);
    }
  }

  /** Whenever the publisher leaves its spin loop, all N readers have finished exactly this iteration, no
      message is outstanding, and `lastTick` is the true maximum of the ticks sampled in it, never before its
      start. */
  lemma BarrierHolds(count: nat, c: Config, steps: seq<Step>)
    requires count > 0 && Legal(Init(count), c, steps)
    ensures var s := Run(Init(count), c, steps);
      s.pc.Spin? && Enabled(s, c, Publisher) ==>
        && |s.readers| == count && |s.starts| == s.iteration + 1
        && (forall i :: 0 <= i < count ==>
              && s.readers[i].iteration == s.iteration + 1 && |s.readers[i].ticks| == s.iteration + 1
              && s.readers[i].flight == s.readers[i].inbox == 0)
        && s.starts[s.iteration] <= s.lastTick == MaxTick(s.readers, s.iteration)
  {
    InitHolds(count, c);
    RunKeeps(Init(count), c, steps);
    RunSize(Init(count), c, steps);
    var s := Run(Init(count), c, steps);
    if s.pc.Spin? && Enabled(s, c, Publisher) {
      RoundClosed(s, c);
      assert forall i :: 0 <= i < count ==> ReaderInv(s, c, s.readers[i]);
    }
  }

  /** From the moment a round is collected until the next publication no reader can touch `arrived` or
      `lastTick`: a late compare-exchange or increment never lands after a reset. */
  lemma NoLateWrite(count: nat, c: Config, steps: seq<Step>, i: nat, spurious: bool)
    requires count > 0 && Legal(Init(count), c, steps)
    ensures var s := Run(Init(count), c, steps);
      !Open(s.pc) && Enabled(s, c, Thread(i, spurious)) ==>
        var t := Apply(s, c, Thread(i, spurious));
        t.arrived == s.arrived && t.lastTick == s.lastTick && t.readers[i].iteration == s.readers[i].iteration
  {
    InitHolds(count, c);
    RunKeeps(Init(count), c, steps);
    var s := Run(Init(count), c, steps);
    if !Open(s.pc) && Enabled(s, c, Thread(i, spurious)) {
      assert ReaderInv(s, c, s.readers[i]);
    }
  }

  /** A finished measurement recorded one acknowledgement and one delivery per sample, and each is exactly the
      distance from that round's start: no subtraction ever wrapped around. */
  lemma MeasurementExact(count: nat, c: Config, steps: seq<Step>)
    requires count > 0 && Legal(Init(count), c, steps)
    requires Run(Init(count), c, steps).pc.Finished?
    ensures var s := Run(Init(count), c, steps);
      && |s.deliveryTicks| == |s.ackTicks| == c.samples
      && (forall k :: c.warmup <= k < Iterations(c) ==> RecordedExactly(s, c, k))
      && (forall i :: 0 <= i < |s.readers| ==> s.readers[i].pc.Joined?)
  {
    InitHolds(count, c);
    RunKeeps(Init(count), c, steps);
  }

  // ---- where the recorded ticks come from -------------------------------------------------------------

  lemma {:induction false} Prefix(s: State, c: Config, steps: seq<Step>)
    requires steps != [] && Legal(s, c, steps)
    ensures var last := |steps| - 1;
      && Legal(s, c, steps[..last])
      && Enabled(Run(s, c, steps[..last]), c, steps[last])
      && Run(s, c, steps) == Apply(Run(s, c, steps[..last]), c, steps[last])
    decreases |steps|
  {
    if |steps| > 1 {
      var last := |steps| - 1;
      Prefix(Apply(s, c, steps[0]), c, steps[1..]);
      assert steps[..last][1..] == steps[1..][..last - 1];
    }
  }

  /** The time the schedule lets pass. */
  function Elapsed(steps: seq<Step>): nat {
    if steps == [] then 0 else Elapsed(steps[1..]) + if steps[0].Advance? then steps[0].ticks else 0
  }

  lemma {:induction false} ClockTellsTime(s: State, c: Config, steps: seq<Step>)
    requires Legal(s, c, steps)
    ensures Run(s, c, steps).clock == s.clock + Elapsed(steps)
    decreases |steps|
  {
    if steps != [] {
      ClockTellsTime(Apply(s, c, steps[0]), c, steps[1..]);
    }
  }

  /** One step adds to a reader's ticks only by that reader reading the clock, after it took its message. */
  lemma TickStep(s: State, c: Config, step: Step, i: nat)
    requires Enabled(s, c, step) && i < |s.readers|
    ensures var t := Apply(s, c, step);
      && |t.readers| == |s.readers|
      && (t.readers[i].ticks == s.readers[i].ticks
          || (step.Thread? && step.index == i && s.readers[i].pc.Sample?
              && t.readers[i].ticks == s.readers[i].ticks + [s.clock]))
  {
  }

  /** Every tick in a reader's history is a reading of the clock: the schedule has a moment at which the reader, with the
      message of that round in hand and no tick of it yet, read the clock, and the tick is what it read. */
  lemma {:induction false} TicksAreReadings(count: nat, c: Config, steps: seq<Step>, i: nat, k: nat) returns (m: nat)
    requires count > 0 && Legal(Init(count), c, steps) && i < |Run(Init(count), c, steps).readers|
    requires k < |Run(Init(count), c, steps).readers[i].ticks|
    ensures m < |steps| && Legal(Init(count), c, steps[..m]) && steps[m].Thread? && steps[m].index == i
    ensures var u := Run(Init(count), c, steps[..m]);
      && u.iteration == k && Open(u.pc) && |u.readers| == count && i < count
      && u.readers[i].pc.Sample? && u.readers[i].iteration == k && |u.readers[i].ticks| == k
      && Run(Init(count), c, steps).readers[i].ticks[k] == u.clock
    decreases |steps|
  {
    var last := |steps| - 1;
    Prefix(Init(count), c, steps);
    var u := Run(Init(count), c, steps[..last]);
    RunSize(Init(count), c, steps);
    RunSize(Init(count), c, steps[..last]);
    TickStep(u, c, steps[last], i);
    if k < |u.readers[i].ticks| {
      m := TicksAreReadings(count, c, steps[..last], i, k);
      assert steps[..last][..m] == steps[..m];
    } else {
      m := last;
      InitHolds(count, c);
      RunKeeps(Init(count), c, steps[..last]);
      assert ReaderInv(u, c, u.readers[i]);
    }
  }

  /** One step adds to the publisher's starts and acknowledgements only by reading the clock, before the publication and
      after its acknowledgement. */
  lemma PublisherTickStep(s: State, c: Config, step: Step)
    requires Enabled(s, c, step)
    ensures var t := Apply(s, c, step);
      && (t.starts == s.starts || (step.Publisher? && s.pc.SampleStart? && t.starts == s.starts + [s.clock]))
      && (t.acks == s.acks || (step.Publisher? && s.pc.AwaitAck? && t.acks == s.acks + [s.clock]))
  {
  }

  /** So is every start: it was read in its round before anything was published. */
  lemma {:induction false} StartsAreReadings(count: nat, c: Config, steps: seq<Step>, k: nat) returns (m: nat)
    requires count > 0 && Legal(Init(count), c, steps) && k < |Run(Init(count), c, steps).starts|
    ensures m < |steps| && Legal(Init(count), c, steps[..m]) && steps[m].Publisher?
    ensures var u := Run(Init(count), c, steps[..m]);
      && u.iteration == k && u.pc.SampleStart? && Run(Init(count), c, steps).starts[k] == u.clock
    decreases |steps|
  {
    var last := |steps| - 1;
    Prefix(Init(count), c, steps);
    var u := Run(Init(count), c, steps[..last]);
    PublisherTickStep(u, c, steps[last]);
    if k < |u.starts| {
      m := StartsAreReadings(count, c, steps[..last], k);
      assert steps[..last][..m] == steps[..m];
    } else {
      m := last;
      InitHolds(count, c);
      RunKeeps(Init(count), c, steps[..last]);
    }
  }

  /** And every acknowledgement: it was read in its round after the publication. */
  lemma {:induction false} AcksAreReadings(count: nat, c: Config, steps: seq<Step>, k: nat) returns (m: nat)
    requires count > 0 && Legal(Init(count), c, steps) && k < |Run(Init(count), c, steps).acks|
    ensures m < |steps| && Legal(Init(count), c, steps[..m]) && steps[m].Publisher?
    ensures var u := Run(Init(count), c, steps[..m]);
      && u.iteration == k && u.pc.AwaitAck? && Run(Init(count), c, steps).acks[k] == u.clock
    decreases |steps|
  {
    var last := |steps| - 1;
    Prefix(Init(count), c, steps);
    var u := Run(Init(count), c, steps[..last]);
    PublisherTickStep(u, c, steps[last]);
    if k < |u.acks| {
      m := AcksAreReadings(count, c, steps[..last], k);
      assert steps[..last][..m] == steps[..m];
    } else {
      m := last;
      InitHolds(count, c);
      RunKeeps(Init(count), c, steps[..last]);
    }
  }

  lemma {:induction false} RunSize(s: State, c: Config, steps: seq<Step>)
    requires Legal(s, c, steps)
    ensures |Run(s, c, steps).readers| == |s.readers|
    decreases |steps|
  {
    if steps != [] {
      RunSize(Apply(s, c, steps[0]), c, steps[1..]);
    }
  }

  // ---- the measurement always finishes ---------------------------------------------------------------

  /** Every thread step, delivery and publisher step, except a compare-exchange that fails spuriously. */
  predicate Productive(s: State, c: Config, step: Step) {
    && Enabled(s, c, step)
    && !step.Advance?
    && (step.Thread? ==> var pc := s.readers[step.index].pc;
          !(pc.Swap? && pc.current < pc.value && pc.current == s.lastTick && step.spurious))
  }

  /** Why a reader can be unable to move: it waits for the gate or for a later round. */
  lemma BlockedReader(s: State, c: Config, r: Reader)
    requires ReaderInv(s, c, r) && !ReaderEnabled(s, r) && r.flight == 0
    requires Open(s.pc) ==> s.iteration < Iterations(c)
    ensures !r.pc.Announce?
    ensures s.go && Open(s.pc) ==> r.iteration > s.iteration
    ensures s.go && !Open(s.pc) && s.iteration == Iterations(c) ==> r.pc.Joined?
  {
  }

  /** If no reader and no delivery can move, the publisher can. */
  lemma PublisherNotStuck(s: State, c: Config)
    requires Shared(s, c) && !s.pc.Finished?
    requires forall i :: 0 <= i < |s.readers| ==> var r := s.readers[i];
      && !r.pc.Announce?
      && (s.go && Open(s.pc) ==> r.iteration > s.iteration)
      && (s.go && !Open(s.pc) && s.iteration == Iterations(c) ==> r.pc.Joined?)
    ensures Productive(s, c, Publisher)
  {
    CountFull(s.readers, Announced());
    CountFull(s.readers, Past(s.iteration));
  }

  /** Only a finished measurement has nothing left to do: there is no deadlock. */
  lemma NeverStuck(s: State, c: Config)
    requires Inv(s, c) && !s.pc.Finished?
    ensures exists step :: Productive(s, c, step)
  {
    if i :| 0 <= i < |s.readers| && ReaderEnabled(s, s.readers[i]) {
      assert Productive(s, c, Thread(i, false));
    } else if i :| 0 <= i < |s.readers| && s.readers[i].flight > 0 {
      assert Productive(s, c, Deliver(i));
    } else {
      forall i | 0 <= i < |s.readers|
        ensures var r := s.readers[i];
          && !r.pc.Announce?
          && (s.go && Open(s.pc) ==> r.iteration > s.iteration)
          && (s.go && !Open(s.pc) && s.iteration == Iterations(c) ==> r.pc.Joined?)
      {
        BlockedReader(s, c, s.readers[i]);
      }
      PublisherNotStuck(s, c);
    }
  }

  /** `k` rounds of `x` steps each. */
  function Times(k: nat, x: nat): nat { if k == 0 then 0 else x + Times(k - 1, x) }

  /** Steps reader `r` of `n` still owes, counting the retry that a success of another reader forces on it
      once `current` no longer equals `tick`. */
  function Debt(c: Config, n: nat, tick: nat, r: Reader): int {
    Times(Over(Iterations(c), r.iteration), n + 6) + 2 * r.flight + r.inbox +
    match r.pc
    case Announce => 2
    case AwaitGo => 1
    case Read => 0
    case Sample => -1
    case Load(_) => -2
    case Swap(_, current) => if current == tick then -4 else -3
    case Arrive(_) => -5 - n
    case Joined => 0
  }

  function Debts(c: Config, n: nat, tick: nat, rs: seq<Reader>): int {
    if rs == [] then 0 else Debt(c, n, tick, rs[0]) + Debts(c, n, tick, rs[1..])
  }

  function PublisherDebt(c: Config, n: nat, pc: PublisherPc, iteration: nat): int {
    Times(Over(Iterations(c), iteration), 2 * n + 7) +
    match pc
    case AwaitReady => 3
    case OpenGate => 2
    case Head => 1
    case ResetTick => 0
    case SampleStart => -1
    case Publish => -2
    case AwaitAck => -2 * n - 3
    case Spin => -2 * n - 4
    case Collect => -2 * n - 5
    case Finished => 0
  }

  function Work(s: State, c: Config): int {
    PublisherDebt(c, |s.readers|, s.pc, s.iteration) + Debts(c, |s.readers|, s.lastTick, s.readers)
  }

  /** One reader changes, and a new `tick` makes every other debt rise by at most one. */
  lemma {:induction false} DebtsUpdate(c: Config, n: nat, tick: nat, tick': nat, rs: seq<Reader>, i: nat, q: Reader)
    requires i < |rs|
    ensures Debts(c, n, tick', rs[i := q]) - Debts(c, n, tick, rs)
         <= Debt(c, n, tick', q) - Debt(c, n, tick, rs[i]) + (if tick == tick' then 0 else |rs| - 1)
  {
    if i == 0 {
      assert rs[0 := q][1..] == rs[1..];
      DebtsBound(c, n, tick, tick', rs[1..]);
    } else {
      assert rs[i := q][1..] == rs[1..][i - 1 := q];
      DebtsUpdate(c, n, tick, tick', rs[1..], i - 1, q);
    }
  }

  lemma {:induction false} DebtsBound(c: Config, n: nat, tick: nat, tick': nat, rs: seq<Reader>)
    ensures Debts(c, n, tick', rs) <= Debts(c, n, tick, rs) + (if tick == tick' then 0 else |rs|)
  {
    if rs != [] {
      DebtsBound(c, n, tick, tick', rs[1..]);
    }
  }

  /** Outside the compare-exchange loop `tick` does not matter. */
  lemma {:induction false} DebtsReset(c: Config, n: nat, tick: nat, tick': nat, rs: seq<Reader>)
    requires forall j :: 0 <= j < |rs| ==> Idle(rs[j])
    ensures Debts(c, n, tick', rs) == Debts(c, n, tick, rs)
  {
    if rs != [] {
      DebtsReset(c, n, tick, tick', rs[1..]);
    }
  }

  lemma {:induction false} DebtsPublished(c: Config, n: nat, tick: nat, rs: seq<Reader>, qs: seq<Reader>)
    requires |rs| == |qs|
    requires forall j :: 0 <= j < |rs| ==> qs[j] == rs[j].(flight := rs[j].flight + 1)
    ensures Debts(c, n, tick, qs) == Debts(c, n, tick, rs) + 2 * |rs|
  {
    if rs != [] {
      DebtsPublished(c, n, tick, rs[1..], qs[1..]);
    }
  }

  lemma {:induction false} DebtsNonNegative(c: Config, n: nat, tick: nat, rs: seq<Reader>)
    requires forall j :: 0 <= j < |rs| ==> ReaderShape(rs[j], c)
    ensures Debts(c, n, tick, rs) >= 0
  {
    if rs != [] {
      assert ReaderShape(rs[0], c);
      DebtsNonNegative(c, n, tick, rs[1..]);
    }
  }

  lemma WorkNonNegative(s: State, c: Config)
    requires Inv(s, c)
    ensures Work(s, c) >= 0
  {
    forall j | 0 <= j < |s.readers| ensures ReaderShape(s.readers[j], c) {
      assert ReaderInv(s, c, s.readers[j]);
    }
    DebtsNonNegative(c, |s.readers|, s.lastTick, s.readers);
  }

  /** A reader's own step pays for the retries it may force on all others. */
  lemma ReaderPays(s: State, c: Config, r: Reader, spurious: bool)
    requires ReaderEnabled(s, r) && ReaderShape(r, c) && |s.readers| > 0
    requires !(r.pc.Swap? && r.pc.current < r.pc.value && r.pc.current == s.lastTick && spurious)
    ensures var (q, _, _, tick) := ReaderStep(s, c, r, spurious);
      var n := |s.readers|;
      Debt(c, n, tick, q) < Debt(c, n, s.lastTick, r) - (if tick == s.lastTick then 0 else n - 1)
  {
  }

  lemma ThreadWorks(s: State, c: Config, i: nat, spurious: bool)
    requires i < |s.readers| && ReaderShape(s.readers[i], c) && Productive(s, c, Thread(i, spurious))
    ensures Work(Apply(s, c, Thread(i, spurious)), c) < Work(s, c)
  {
    var (q, _, _, tick) := ReaderStep(s, c, s.readers[i], spurious);
    ReaderPays(s, c, s.readers[i], spurious);
    DebtsUpdate(c, |s.readers|, s.lastTick, tick, s.readers, i, q);
  }

  lemma PublisherWorks(s: State, c: Config)
    requires Enabled(s, c, Publisher) && s.iteration <= Iterations(c) && (Open(s.pc) ==> s.iteration < Iterations(c))
    requires s.pc.ResetTick? ==> forall j :: 0 <= j < |s.readers| ==> Idle(s.readers[j])
    ensures Work(Apply(s, c, Publisher), c) < Work(s, c)
  {
    var t := PublisherStep(s, c);
    if s.pc.Publish? {
      DebtsPublished(c, |s.readers|, s.lastTick, s.readers, t.readers);
    } else if s.pc.ResetTick? {
      DebtsReset(c, |s.readers|, s.lastTick, t.lastTick, s.readers);
    }
  }

  lemma StepWorks(s: State, c: Config, step: Step)
    requires Inv(s, c) && Productive(s, c, step)
    ensures Work(Apply(s, c, step), c) < Work(s, c)
  {
    match step
    case Deliver(i) =>
      var t := Apply(s, c, step);
      DebtsUpdate(c, |s.readers|, s.lastTick, s.lastTick, s.readers, i, t.readers[i]);
    case Thread(i, spurious) =>
      assert ReaderInv(s, c, s.readers[i]);
      ThreadWorks(s, c, i, spurious);
    case Publisher =>
      forall j | s.pc.ResetTick? && 0 <= j < |s.readers| ensures Idle(s.readers[j]) {
        assert ReaderInv(s, c, s.readers[j]);
      }
      PublisherWorks(s, c);
  }

  /** How many steps of a schedule are productive. */
  function ProductiveSteps(s: State, c: Config, steps: seq<Step>): nat
    requires Legal(s, c, steps)
    decreases |steps|
  {
    if steps == [] then 0 else
      (if Productive(s, c, steps[0]) then 1 else 0) + ProductiveSteps(Apply(s, c, steps[0]), c, steps[1..])
  }

  /** A spurious failure or an idle clock costs nothing. */
  lemma IdleKeepsWork(s: State, c: Config, step: Step)
    requires Inv(s, c) && Enabled(s, c, step) && !Productive(s, c, step)
    ensures Work(Apply(s, c, step), c) == Work(s, c)
  {
    if step.Thread? {
      var r := s.readers[step.index];
      assert ReaderStep(s, c, r, step.spurious).0 == r;
      assert s.readers[step.index := r] == s.readers;
    }
  }

  lemma {:induction false} WorkBoundsRun(s: State, c: Config, steps: seq<Step>)
    requires Inv(s, c) && Legal(s, c, steps)
    ensures Inv(Run(s, c, steps), c)
    ensures ProductiveSteps(s, c, steps) <= Work(s, c) - Work(Run(s, c, steps), c)
    decreases |steps|
  {
    if steps != [] {
      StepKeeps(s, c, steps[0]);
      if Productive(s, c, steps[0]) {
        StepWorks(s, c, steps[0]);
      } else {
        IdleKeepsWork(s, c, steps[0]);
      }
      WorkBoundsRun(Apply(s, c, steps[0]), c, steps[1..]);
    }
  }

  /** No schedule is endless or stuck: apart from the passing of time and spurious compare-exchange failures
      it takes a bounded number of steps, and while the publisher has not finished there is one more to take. */
  lemma AlwaysFinishes(count: nat, c: Config, steps: seq<Step>)
    requires count > 0 && Legal(Init(count), c, steps)
    ensures ProductiveSteps(Init(count), c, steps) <= Work(Init(count), c)
    ensures var s := Run(Init(count), c, steps);
      s.pc.Finished? || exists step :: Productive(s, c, step)
  {
    InitHolds(count, c);
    WorkBoundsRun(Init(count), c, steps);
    WorkNonNegative(Run(Init(count), c, steps), c);
    if !Run(Init(count), c, steps).pc.Finished? {
      NeverStuck(Run(Init(count), c, steps), c);
    }
  }
}
