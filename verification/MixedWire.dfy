/** The wire form of the mixed hash workload of benchmarks/hset_benchmark.cpp: a hash of byte strings that runs the HSET
    and HDEL commands answers what the generator predicted from ids and widths. */
module MixedWire {
  import opened Collections
  import opened Decimal
  import opened Tokens
  import opened MixedModel

  type Fields = map<Bytes, Bytes>

  datatype Wire = HDel(field: Bytes) | HSet(field: Bytes, value: Bytes)

  /** The marker the generator gives each kind of command: v, u, g. */
  function Marker(operation: Operation): byte {
    match operation
    case Insert => 118
    case Update => 117
    case Delete => 118
    case Grow => 103
  }

  /** The wire command, unless its field or value does not fit the fixed width, which ends the run. */
  function WireCommand(c: Command): Option<Wire> {
    match LargeField(c.item)
    case None => None
    case Some(field) =>
      if c.operation.Delete? then Some(HDel(field))
      else if c.bytes < 0 then None
      else
        match FixedToken(c.item, c.bytes, Marker(c.operation))
        case None => None
        case Some(value) => Some(HSet(field, value))
  }

  function Serve(fields: Fields, w: Wire): (Fields, int) {
    match w
    case HDel(field) => (fields - {field}, if field in fields then 1 else 0)
    case HSet(field, value) => (fields[field := value], if field in fields then 0 else 1)
  }

  predicate Encodable(commands: seq<Command>) {
    forall i :: 0 <= i < |commands| ==> WireCommand(commands[i]).Some?
  }

  function WireReplay(fields: Fields, commands: seq<Command>): Fields
    requires Encodable(commands)
    decreases |commands|
  {
    if commands == [] then fields
    else
      var last := |commands| - 1;
      Serve(WireReplay(fields, commands[..last]), WireCommand(commands[last]).value).0
  }

  /** The byte hash holds a field for exactly the items of the model, with a value of the width the model says, and
      nothing else. */
  ghost predicate Holds(fields: Fields, h: Hash) {
    && |fields| == |h|
    && (forall i: nat :: LargeField(i).Some? ==> (LargeField(i).value in fields <==> i in h))
    && (forall i: nat :: LargeField(i).Some? && i in h ==> |fields[LargeField(i).value]| == h[i])
  }

  lemma SameField(i: nat, j: nat)
    requires LargeField(i).Some? && LargeField(j).Some?
    ensures LargeField(i).value == LargeField(j).value <==> i == j
  {
    if LargeField(i).value == LargeField(j).value {
      FieldsDistinct(i, j);
    }
  }

  lemma ValueWidth(item: nat, width: nat, marker: byte)
    requires FixedToken(item, width, marker).Some?
    ensures |FixedToken(item, width, marker).value| == width
  {
    TokensOrdered(item, item, width, marker);
  }

  lemma Sizes<K>(a: set<K>, b: K)
    ensures |a + {b}| == |a| + (if b in a then 0 else 1) && |a - {b}| == |a| - (if b in a then 1 else 0)
  {
    if b in a {
      assert a + {b} == a;
    }
  }

  lemma KeysOfDelete<K, V>(m: map<K, V>, k: K)
    ensures |m - {k}| == |m| - (if k in m then 1 else 0)
  {
    Sizes(m.Keys, k);
    assert (m - {k}).Keys == m.Keys - {k};
  }

  lemma KeysOfUpdate<K, V>(m: map<K, V>, k: K, v: V)
    ensures |m[k := v]| == |m| + (if k in m then 0 else 1)
  {
    Sizes(m.Keys, k);
    assert m[k := v].Keys == m.Keys + {k};
  }

  lemma HoldsDelete(fields: Fields, h: Hash, item: nat)
    requires Holds(fields, h) && LargeField(item).Some?
    ensures Holds(fields - {LargeField(item).value}, h - {item})
  {
    KeysOfDelete(fields, LargeField(item).value);
    KeysOfDelete(h, item);
    forall i: nat | LargeField(i).Some? ensures LargeField(i).value == LargeField(item).value <==> i == item {
      SameField(i, item);
    }
  }

  lemma HoldsUpdate(fields: Fields, h: Hash, item: nat, value: Bytes)
    requires Holds(fields, h) && LargeField(item).Some?
    ensures Holds(fields[LargeField(item).value := value], h[item := |value|])
  {
    KeysOfUpdate(fields, LargeField(item).value, value);
    KeysOfUpdate(h, item, |value|);
    forall i: nat | LargeField(i).Some? ensures LargeField(i).value == LargeField(item).value <==> i == item {
      SameField(i, item);
    }
  }

  /** One command on the wire draws the reply of the model and leaves what the model says. */
  lemma WireStep(fields: Fields, h: Hash, c: Command)
    requires Holds(fields, h) && WireCommand(c).Some?
    ensures Serve(fields, WireCommand(c).value).1 == Execute(h, c).1
    ensures Holds(Serve(fields, WireCommand(c).value).0, Execute(h, c).0)
  {
    if c.operation.Delete? {
      HoldsDelete(fields, h, c.item);
    } else {
      ValueWidth(c.item, c.bytes, Marker(c.operation));
      HoldsUpdate(fields, h, c.item, FixedToken(c.item, c.bytes, Marker(c.operation)).value);
    }
  }

  /** Replayed on the wire, the commands leave the byte hash where the model says, field by field. */
  lemma {:induction false} WireHolds(fields: Fields, h: Hash, commands: seq<Command>)
    requires Holds(fields, h) && Encodable(commands)
    ensures Holds(WireReplay(fields, commands), Replay(h, commands))
    decreases |commands|
  {
    if commands != [] {
      var front, last := commands[..|commands| - 1], commands[|commands| - 1];
      WireHolds(fields, h, front);
      WireStep(WireReplay(fields, front), Replay(h, front), last);
    }
  }

  /** Commands that fit the model draw on the wire exactly the replies it predicted. */
  lemma WireReplies(fields: Fields, h: Hash, commands: seq<Command>, i: nat)
    requires Holds(fields, h) && AllFit(h, commands) && Encodable(commands) && i < |commands|
    ensures Serve(WireReplay(fields, commands[..i]), WireCommand(commands[i]).value).1 == commands[i].expected
  {
    WireHolds(fields, h, commands[..i]);
    WireStep(WireReplay(fields, commands[..i]), Replay(h, commands[..i]), commands[i]);
    assert Fits(Replay(h, commands[..i]), commands[i]);
  }

  /** The load phase: one insert for each item. */
  function Inserts(n: nat, bytes: int): seq<Command> {
    if n == 0 then [] else Inserts(n - 1, bytes) + [Command(Insert, n - 1, bytes, 1)]
  }

  lemma {:induction false} InsertsLoad(n: nat, bytes: int)
    ensures Replay(map[], Inserts(n, bytes)) == Loaded(n, bytes)
  {
    if n > 0 {
      InsertsLoad(n - 1, bytes);
      assert Inserts(n, bytes)[..|Inserts(n, bytes)| - 1] == Inserts(n - 1, bytes);
    }
  }

  /** The loaded byte hash is the one the generator starts from. */
  lemma LoadHolds(n: nat, bytes: int)
    requires Encodable(Inserts(n, bytes))
    ensures Holds(WireReplay(map[], Inserts(n, bytes)), Loaded(n, bytes))
  {
    InsertsLoad(n, bytes);
    WireHolds(map[], map[], Inserts(n, bytes));
  }

  /** A whole run for every sequence of draws: unless a field or value does not fit its width, which ends the run, every
      reply on the wire is the predicted one and the hash ends with the predicted number of fields. */
  method RunMixed(c: Config, draws: seq<nat>) returns (commands: seq<Command>, finalFields: nat)
    requires ValidConfig(c) && |draws| == c.commands
    requires forall i :: 0 <= i < |draws| ==> 1 <= draws[i] <= Total(c.weights)
    ensures |commands| == c.commands && AllMeant(c, Loaded(c.fields, c.bytes), draws, commands)
    ensures Encodable(Inserts(c.fields, c.bytes)) && Encodable(commands) ==>
              var loaded := WireReplay(map[], Inserts(c.fields, c.bytes));
              && |WireReplay(loaded, commands)| == finalFields
              && forall i :: 0 <= i < |commands| ==>
                   Serve(WireReplay(loaded, commands[..i]), WireCommand(commands[i]).value).1 == commands[i].expected
  {
    commands, finalFields := BuildMixedModel(c, draws);
    if Encodable(Inserts(c.fields, c.bytes)) && Encodable(commands) {
      LoadHolds(c.fields, c.bytes);
      ghost var loaded := WireReplay(map[], Inserts(c.fields, c.bytes));
      WireHolds(loaded, Loaded(c.fields, c.bytes), commands);
      forall i: nat | i < |commands|
        ensures Serve(WireReplay(loaded, commands[..i]), WireCommand(commands[i]).value).1 == commands[i].expected
      {
        WireReplies(loaded, Loaded(c.fields, c.bytes), commands, i);
      }
    }
  }
}
