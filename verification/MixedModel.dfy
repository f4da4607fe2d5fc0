/** The mixed hash workload of benchmarks/hset_benchmark.cpp: a generator that predicts every server reply from two
    dense sets with inverse indexes, and the claim that a plain map answers as predicted. */
module MixedModel {
  import opened Collections

  function SwapRemove(s: seq<nat>, p: nat): seq<nat>
    requires p < |s|
  {
    if p == |s| - 1 then s[..p] else s[..|s| - 1][p := s[|s| - 1]]
  }

  lemma SwapRemoveContents(s: seq<nat>, p: nat, v: nat)
    requires p < |s| && Distinct(s)
    ensures v in SwapRemove(s, p) <==> v in s && v != s[p]
  {
  }

  // ---- dense sets ------------------------------------------------------------------------------------

  /** `values` in no particular order, and for every value its position in them, or -1. */
  class DenseSet {
    var values: seq<nat>
    var positions: seq<int>

    /** `positions` is the exact inverse of `values`; so no value occurs twice. */
    ghost predicate Valid()
      reads this
    {
      && (forall i :: 0 <= i < |values| ==> 0 <= values[i] < |positions| && positions[values[i]] == i)
      && (forall v :: 0 <= v < |positions| && positions[v] != -1 ==>
            0 <= positions[v] < |values| && values[positions[v]] == v)
    }

    constructor (capacity: nat)
      ensures Valid() && values == [] && |positions| == capacity
    {
      values := [];
      positions := seq(capacity, _ => -1);
    }

    method Append(value: nat)
      requires Valid() && value !in values
      modifies this
      ensures Valid() && values == old(values) + [value]
      ensures |positions| == if value < |old(positions)| then |old(positions)| else value + 1
    {
      assert value < |positions| ==> positions[value] == -1;
      if value >= |positions| {
        positions := positions + seq(value + 1 - |positions|, _ => -1);
      }
      positions := positions[value := |values|];
      values := values + [value];
    }

    /** Removal moves the last value into the gap. Like dense_remove it fails on an absent value. */
    method Remove(value: nat) returns (ok: bool)
      requires Valid()
      modifies this
      ensures Valid() && |positions| == |old(positions)|
      ensures ok <==> value in old(values)
      ensures forall v :: v in values <==> v in old(values) && v != value
      ensures |values| == |old(values)| - (if ok then 1 else 0)
      ensures !ok ==> values == old(values)
    {
      if value >= |positions| || positions[value] < 0 {
        return false;
      }
      ok := true;
      var position := positions[value];
      var last := values[|values| - 1];
      forall v ensures v in SwapRemove(values, position) <==> v in values && v != value {
        SwapRemoveContents(values, position, v);
      }
      values := values[..|values| - 1];
      positions := positions[value := -1];
      if position < |values| {
        values := values[position := last];
        positions := positions[last := position];
      }
      assert values == SwapRemove(old(values), position);
    }
  }

  // ---- commands and the server they run on -----------------------------------------------------------

  datatype Operation = Insert | Update | Delete | Grow

  datatype Command = Command(operation: Operation, item: nat, bytes: int, expected: int)

  /** A hash as the workload sees it: for every item present, the width of its value. */
  type Hash = map<nat, int>

  /** HDEL answers how many fields it removed, HSET how many it created. */
  function Execute(h: Hash, c: Command): (Hash, int) {
    if c.operation.Delete? then (h - {c.item}, if c.item in h then 1 else 0)
    else (h[c.item := c.bytes], if c.item in h then 0 else 1)
  }

  function Replay(h: Hash, commands: seq<Command>): Hash
    decreases |commands|
  {
    if commands == [] then h else Execute(Replay(h, commands[..|commands| - 1]), commands[|commands| - 1]).0
  }

  /** What the workload promises of one command on the hash it meets: the reply is the predicted one, an insert
      meets a new field, an update keeps the stored width, growing enlarges it, and the hash stays populated. */
  predicate Fits(h: Hash, c: Command) {
    && Execute(h, c).1 == c.expected
    && (c.operation.Insert? <==> c.item !in h)
    && (c.operation.Update? ==> c.item in h && h[c.item] == c.bytes)
    && (c.operation.Grow? ==> c.item in h && h[c.item] < c.bytes)
    && Execute(h, c).0 != map[]
  }

  predicate AllFit(h: Hash, commands: seq<Command>) {
    forall i :: 0 <= i < |commands| ==> Fits(Replay(h, commands[..i]), commands[i])
  }

  lemma ReplayAppend(h: Hash, commands: seq<Command>, c: Command)
    requires AllFit(h, commands) && Fits(Replay(h, commands), c)
    ensures AllFit(h, commands + [c]) && Replay(h, commands + [c]) == Execute(Replay(h, commands), c).0
  {
    var all := commands + [c];
    assert all[..|all| - 1] == commands;
    forall i | 0 <= i < |all| ensures Fits(Replay(h, all[..i]), all[i]) {
      assert i < |commands| ==> all[..i] == commands[..i];
    }
  }

  // ---- the generator ---------------------------------------------------------------------------------

  datatype Config = Config(fields: nat, commands: nat, weights: seq<nat>, bytes: int, grownBytes: int)

  /** What the command line checks before the workload is built. */
  predicate ValidConfig(c: Config) {
    c.fields > 0 && |c.weights| == 4 && Total(c.weights) > 0 && 1 < c.bytes < c.grownBytes
  }

  /** The loaded hash: items 0 to `fields` - 1, all of the short width. */
  function Loaded(fields: nat, bytes: int): (h: Hash)
    ensures forall i: nat :: i in h <==> i < fields
    ensures forall i: nat :: i in h ==> h[i] == bytes
  {
    if fields == 0 then map[] else Loaded(fields - 1, bytes)[fields - 1 := bytes]
  }

  /** The operation whose stretch of the numbers from 1 to the total holds `choice`, in the order of the weights. */
  function DrawnOperation(weights: seq<nat>, choice: nat): Operation
    requires |weights| == 4
  {
    if choice <= weights[0] then Insert
    else if choice <= weights[0] + weights[1] then Update
    else if choice <= weights[0] + weights[1] + weights[2] then Delete
    else Grow
  }

  function OperationNumber(o: Operation): nat {
    match o
    case Insert => 0
    case Update => 1
    case Delete => 2
    case Grow => 3
  }

  /** Walk down the weights: each operation is drawn by exactly as many numbers as it weighs. */
  method Draw(weights: seq<nat>, choice: nat) returns (operation: nat)
    requires |weights| == 4 && 1 <= choice <= Total(weights)
    ensures operation < 4 && Total(weights[..operation]) < choice <= Total(weights[..operation]) + weights[operation]
    ensures operation == OperationNumber(DrawnOperation(weights, choice))
  {
    TotalNext(weights, 0);
    TotalNext(weights, 1);
    TotalNext(weights, 2);
    TotalNext(weights, 3);
    assert weights[..4] == weights;
    var rest := choice;
    operation := 0;
    while operation < 3 && rest > weights[operation]
      invariant 0 <= operation <= 3 && 1 <= rest && rest + Total(weights[..operation]) == choice
    {
      rest, operation := rest - weights[operation], operation + 1;
    }
  }

  /** What the generator means by a drawn number on the hash it has produced: the drawn operation, except that a delete
      that would empty the hash becomes an insert and a growth with nothing short left becomes an update. */
  predicate Meant(c: Config, h: Hash, choice: nat, o: Operation)
    requires |c.weights| == 4
  {
    var drawn := DrawnOperation(c.weights, choice);
    o == if drawn.Delete? && |h| <= 1 then Insert
         else if drawn.Grow? && forall id :: id in h ==> h[id] != c.bytes then Update
         else drawn
  }

  /** The generator's tables agree with the hash its commands have produced. */
  ghost predicate Tracks(c: Config, h: Hash, live: DenseSet, short: DenseSet, grown: seq<bool>, nextId: nat)
    reads live, short
  {
    && live != short && live.Valid() && short.Valid()
    && nextId <= |grown| == |live.positions| == |short.positions|
    && (forall id :: id in h <==> id in live.values)
    && (forall id :: id in live.values ==> id < nextId)
    && (forall id :: id in short.values ==> id in live.values)
    && (forall id :: 0 <= id < |grown| ==> (grown[id] <==> id in live.values && id !in short.values))
    && (forall id :: id in h ==> h[id] == if id in short.values then c.bytes else c.grownBytes)
    && |live.values| > 0
  }

  method Insertion(c: Config, ghost h: Hash, live: DenseSet, short: DenseSet, grown: seq<bool>, nextId: nat)
    returns (command: Command)
    requires ValidConfig(c) && nextId < |grown| && Tracks(c, h, live, short, grown, nextId)
    modifies live, short
    ensures Fits(h, command) && command.operation == Insert && command.item == nextId
    ensures Tracks(c, Execute(h, command).0, live, short, grown, nextId + 1)
  {
    assert nextId !in h;
    live.Append(nextId);
    short.Append(nextId);
    command := Command(Insert, nextId, c.bytes, 1);
    assert nextId in Execute(h, command).0;
  }

  method Updating(c: Config, ghost h: Hash, live: DenseSet, short: DenseSet, grown: seq<bool>, ghost nextId: nat)
    returns (command: Command)
    requires ValidConfig(c) && Tracks(c, h, live, short, grown, nextId)
    ensures Fits(h, command) && command.operation == Update
    ensures Tracks(c, Execute(h, command).0, live, short, grown, nextId)
  {
    var pick :| 0 <= pick < |live.values|;
    var item := live.values[pick];
    assert item in live.values && item in h;
    command := Command(Update, item, if grown[item] then c.grownBytes else c.bytes, 0);
    assert item in Execute(h, command).0;
  }

  method Growing(c: Config, ghost h: Hash, live: DenseSet, short: DenseSet, grown: seq<bool>, ghost nextId: nat)
    returns (command: Command, marked: seq<bool>)
    requires ValidConfig(c) && Tracks(c, h, live, short, grown, nextId) && |short.values| > 0
    modifies short
    ensures Fits(h, command) && command.operation == Grow && |marked| == |grown|
    ensures Tracks(c, Execute(h, command).0, live, short, marked, nextId)
  {
    var pick :| 0 <= pick < |short.values|;
    var item := short.values[pick];
    assert item in live.values && item in h;
    var ok := short.Remove(item);
    marked := grown[item := true];
    command := Command(Grow, item, c.grownBytes, 0);
    assert item in Execute(h, command).0;
  }

  method Deletion(c: Config, ghost h: Hash, live: DenseSet, short: DenseSet, grown: seq<bool>, ghost nextId: nat)
    returns (command: Command, marked: seq<bool>)
    requires ValidConfig(c) && Tracks(c, h, live, short, grown, nextId) && |live.values| > 1
    modifies live, short
    ensures Fits(h, command) && command.operation == Delete && |marked| == |grown|
    ensures Tracks(c, Execute(h, command).0, live, short, marked, nextId)
  {
    var pick :| 0 <= pick < |live.values|;
    var item := live.values[pick];
    assert item in live.values && item in h;
    var removed := live.Remove(item);
    ghost var other := live.values[0];
    assert other in live.values && other in h && other != item;
    if short.positions[item] >= 0 {
      var ok := short.Remove(item);
    }
    marked := grown[item := false];
    command := Command(Delete, item, 0, 1);
    assert other in Execute(h, command).0;
  }

  /** The tables' sizes are those of the hash. */
  lemma TableSizes(c: Config, h: Hash, live: DenseSet, short: DenseSet, grown: seq<bool>, nextId: nat)
    requires ValidConfig(c) && Tracks(c, h, live, short, grown, nextId)
    ensures |h| == |live.values|
    ensures short.values == [] <==> forall id :: id in h ==> h[id] != c.bytes
  {
    DistinctSize(live.values, h.Keys);
    if short.values != [] {
      assert short.values[0] in short.values;
    }
  }

  /** One command of the workload, for whatever the generator draws: it is the meant one, inserts take the next id, the
      command fits, and the tables follow. */
  method Next(c: Config, choice: nat, ghost h: Hash, live: DenseSet, short: DenseSet, grown: seq<bool>, nextId: nat)
    returns (command: Command, marked: seq<bool>, next: nat)
    requires ValidConfig(c) && nextId < |grown| && Tracks(c, h, live, short, grown, nextId)
    requires 1 <= choice <= Total(c.weights)
    modifies live, short
    ensures Fits(h, command) && |marked| == |grown| && Meant(c, h, choice, command.operation)
    ensures next == nextId + (if command.operation.Insert? then 1 else 0)
    ensures command.operation.Insert? ==> command.item == nextId
    ensures Tracks(c, Execute(h, command).0, live, short, marked, next)
  {
    var operation := Draw(c.weights, choice);
    TableSizes(c, h, live, short, grown, nextId);
    if operation == 2 && |live.values| <= 1 {
      operation := 0;
    }
    if operation == 3 && short.values == [] {
      operation := 1;
    }
    marked, next := grown, nextId;
    if operation == 0 {
      command := Insertion(c, h, live, short, grown, nextId);
      next := nextId + 1;
    } else if operation == 2 {
      command, marked := Deletion(c, h, live, short, grown, nextId);
    } else if operation == 3 {
      command, marked := Growing(c, h, live, short, grown, nextId);
    } else {
      command := Updating(c, h, live, short, grown, nextId);
    }
  }

  method LoadTables(c: Config) returns (live: DenseSet, short: DenseSet, grown: seq<bool>)
    requires ValidConfig(c)
    ensures fresh(live) && fresh(short) && |grown| == c.fields + c.commands + 1
    ensures Tracks(c, Loaded(c.fields, c.bytes), live, short, grown, c.fields)
  {
    var maximum := c.fields + c.commands + 1;
    live := new DenseSet(maximum);
    short := new DenseSet(maximum);
    grown := seq(maximum, _ => false);
    for id := 0 to c.fields
      invariant fresh(live) && fresh(short) && live != short && live.Valid() && short.Valid()
      invariant live.values == short.values && |live.values| == id
      invariant |live.positions| == |short.positions| == maximum
      invariant forall v :: v in live.values <==> 0 <= v < id
    {
      live.Append(id);
      short.Append(id);
    }
  }

  lemma {:induction false} DistinctSize(s: seq<nat>, h: set<nat>)
    requires Distinct(s) && forall v :: v in h <==> v in s
    ensures |h| == |s|
  {
    if s == [] {
      assert h == {};
    } else {
      var last, front := s[|s| - 1], s[..|s| - 1];
      assert forall v :: v in s <==> v in front || v == last;
      assert last !in front;
      DistinctSize(front, h - {last});
    }
  }

  function InsertsIn(commands: seq<Command>): nat {
    if commands == [] then 0
    else InsertsIn(commands[..|commands| - 1]) + if commands[|commands| - 1].operation.Insert? then 1 else 0
  }

  /** Every command is the one its draw meant on the hash so far, and inserts number their items on. */
  predicate AllMeant(c: Config, start: Hash, draws: seq<nat>, commands: seq<Command>)
    requires |c.weights| == 4 && |commands| <= |draws|
  {
    forall i :: 0 <= i < |commands| ==>
      && Meant(c, Replay(start, commands[..i]), draws[i], commands[i].operation)
      && (commands[i].operation.Insert? ==> commands[i].item == c.fields + InsertsIn(commands[..i]))
  }

  lemma MeantAppend(c: Config, start: Hash, draws: seq<nat>, commands: seq<Command>, next: Command)
    requires |c.weights| == 4 && |commands| < |draws| && AllMeant(c, start, draws, commands)
    requires Meant(c, Replay(start, commands), draws[|commands|], next.operation)
    requires next.operation.Insert? ==> next.item == c.fields + InsertsIn(commands)
    ensures AllMeant(c, start, draws, commands + [next])
    ensures InsertsIn(commands + [next]) == InsertsIn(commands) + if next.operation.Insert? then 1 else 0
  {
    var all := commands + [next];
    assert all[..|commands|] == commands;
    forall i | 0 <= i < |all|
      ensures Meant(c, Replay(start, all[..i]), draws[i], all[i].operation)
      ensures all[i].operation.Insert? ==> all[i].item == c.fields + InsertsIn(all[..i])
    {
      assert i < |commands| ==> all[..i] == commands[..i];
    }
  }

  /** For every sequence of draws: each command is the one its draw meant, replayed on the loaded hash every command fits,
      and the final size is the predicted one. */
  method BuildMixedModel(c: Config, draws: seq<nat>) returns (commands: seq<Command>, finalFields: nat)
    requires ValidConfig(c) && |draws| == c.commands
    requires forall i :: 0 <= i < |draws| ==> 1 <= draws[i] <= Total(c.weights)
    ensures |commands| == c.commands
    ensures AllMeant(c, Loaded(c.fields, c.bytes), draws, commands)
    ensures AllFit(Loaded(c.fields, c.bytes), commands)
    ensures finalFields == |Replay(Loaded(c.fields, c.bytes), commands)|
  {
    ghost var start := Loaded(c.fields, c.bytes);
    var live, short, grown := LoadTables(c);
    var nextId: nat := c.fields;
    commands := [];
    for i := 0 to c.commands
      invariant |commands| == i && |grown| == c.fields + c.commands + 1
      invariant nextId == c.fields + InsertsIn(commands) <= c.fields + i
      invariant fresh(live) && fresh(short)
      invariant AllMeant(c, start, draws, commands) && AllFit(start, commands)
      invariant Tracks(c, Replay(start, commands), live, short, grown, nextId)
    {
      var command;
      ghost var h := Replay(start, commands);
      command, grown, nextId := Next(c, draws[i], h, live, short, grown, nextId);
      MeantAppend(c, start, draws, commands, command);
      ReplayAppend(start, commands, command);
      commands := commands + [command];
    }
    finalFields := |live.values|;
    TableSizes(c, Replay(start, commands), live, short, grown, nextId);
  }
}
