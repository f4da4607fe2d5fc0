/** The parallel channel scan of benchmarks/pubsub_jsonl_channels.py: a file is cut into byte ranges, every worker
    aligns itself to a record and reads whole lines, and the results are merged in order of completion. */
module Shards {
  import opened Collections
  import opened Decimal

  const NEWLINE: byte := 10

  /** What one record yields: its channel, or the error that fails the whole scan. */
  datatype Record = Channel(name: string) | Invalid

  /** How a line is read: JSON decoding, left abstract. */
  type Decoder = Bytes -> Record

  // ---- records ---------------------------------------------------------------------------------------

  /** Where the line at `p` ends: just past its newline, or at the end of the file. */
  function LineEnd(f: Bytes, p: nat): (e: nat)
    requires p <= |f|
    ensures p <= e <= |f|
    ensures p < |f| ==> p < e
    ensures forall i :: p <= i < e - 1 ==> f[i] != NEWLINE
    ensures p < e < |f| ==> f[e - 1] == NEWLINE
    decreases |f| - p
  {
    if p == |f| then p else if f[p] == NEWLINE then p + 1 else LineEnd(f, p + 1)
  }

  /** A record starts at the front of the file and behind every newline. */
  predicate IsStart(f: Bytes, p: int) { 0 <= p < |f| && (p == 0 || f[p - 1] == NEWLINE) }

  /** The records whose first byte lies in the range. */
  function Starts(f: Bytes, from: int, to: int): set<int> {
    set p | from <= p < to && IsStart(f, p)
  }

  function RecordAt(f: Bytes, p: nat, decode: Decoder): Record
    requires p <= |f|
  {
    decode(f[p..LineEnd(f, p)])
  }

  function Names(f: Bytes, starts: set<int>, decode: Decoder): set<string>
    requires forall p :: p in starts ==> 0 <= p < |f|
  {
    set p | p in starts && RecordAt(f, p, decode).Channel? :: RecordAt(f, p, decode).name
  }

  predicate AllValid(f: Bytes, starts: set<int>, decode: Decoder)
    requires forall p :: p in starts ==> 0 <= p < |f|
  {
    forall p :: p in starts ==> RecordAt(f, p, decode).Channel?
  }

  /** The result of a scan: how many records and which channels, or a failure. */
  datatype Scan = Scanned(records: nat, channels: set<string>) | Failed

  /** What scanning the records that start in a range should give. */
  function Expected(f: Bytes, from: int, to: int, decode: Decoder): Scan {
    var starts := Starts(f, from, to);
    if AllValid(f, starts, decode) then Scanned(|starts|, Names(f, starts, decode)) else Failed
  }

  /** Disjoint sets of records scan separately. */
  lemma ScansJoin(f: Bytes, a: set<int>, b: set<int>, decode: Decoder)
    requires a !! b && forall p :: p in a + b ==> 0 <= p < |f|
    ensures |a + b| == |a| + |b|
    ensures AllValid(f, a + b, decode) <==> AllValid(f, a, decode) && AllValid(f, b, decode)
    ensures Names(f, a + b, decode) == Names(f, a, decode) + Names(f, b, decode)
  {
  }

  // ---- one worker ------------------------------------------------------------------------------------

  lemma LineHoldsOneStart(f: Bytes, p: nat, to: int)
    requires IsStart(f, p) && p < to
    ensures Starts(f, p, to) == {p} + Starts(f, LineEnd(f, p), to) && p !in Starts(f, LineEnd(f, p), to)
    ensures LineEnd(f, p) < |f| ==> IsStart(f, LineEnd(f, p))
  {
  }

  /** Move to the first record that starts at or behind `start`; a position past the end stays past it. */
  method Align(f: Bytes, start: nat) returns (pos: nat)
    ensures pos < |f| ==> start <= pos && IsStart(f, pos)
    ensures forall p :: start <= p < pos ==> !IsStart(f, p)
  {
    if start == 0 {
      return 0;
    }
    pos := start - 1;
    if pos >= |f| {
      return;
    }
    if f[pos] == NEWLINE {
      return start;
    }
    pos := LineEnd(f, start);
    forall p | start <= p < pos ensures !IsStart(f, p) {
      assert f[p - 1] != NEWLINE;
    }
  }

  /** The records in `done` have been scanned with this result. */
  ghost predicate Summed(f: Bytes, done: set<int>, records: nat, channels: set<string>, decode: Decoder) {
    && (forall p :: p in done ==> 0 <= p < |f|)
    && AllValid(f, done, decode) && records == |done| && channels == Names(f, done, decode)
  }

  /** What is left of the range starts at `pos`. */
  ghost predicate Remaining(f: Bytes, start: int, end: int, pos: int, done: set<int>) {
    Starts(f, start, end) == done + Starts(f, pos, end) && done !! Starts(f, pos, end)
  }

  lemma OneMoreRecord(f: Bytes, start: int, end: int, pos: nat, done: set<int>)
    requires Remaining(f, start, end, pos, done) && IsStart(f, pos) && pos < end
    ensures Remaining(f, start, end, LineEnd(f, pos), done + {pos}) && pos !in done
  {
  }

  lemma OneMoreSummed(f: Bytes, done: set<int>, pos: nat, records: nat, channels: set<string>, decode: Decoder)
    requires Summed(f, done, records, channels, decode) && pos !in done && pos < |f|
    requires RecordAt(f, pos, decode).Channel?
    ensures Summed(f, done + {pos}, records + 1, channels + {RecordAt(f, pos, decode).name}, decode)
  {
  }

  lemma NothingSummed(f: Bytes, decode: Decoder)
    ensures Summed(f, {}, 0, {}, decode)
  {
  }

  lemma SummedExpected(f: Bytes, from: int, to: int, records: nat, channels: set<string>, decode: Decoder)
    requires Summed(f, Starts(f, from, to), records, channels, decode)
    ensures Expected(f, from, to, decode) == Scanned(records, channels)
  {
  }

  lemma FailureExpected(f: Bytes, from: int, to: int, p: int, decode: Decoder)
    requires p in Starts(f, from, to) && RecordAt(f, p, decode).Invalid?
    ensures Expected(f, from, to, decode) == Failed
  {
  }

  /** Read lines while the position is inside the range: exactly the records that start in it. */
  method ScanRange(f: Bytes, start: nat, end: nat, decode: Decoder) returns (r: Scan)
    ensures r == Expected(f, start, end, decode)
  {
    var pos := Align(f, start);
    var records: nat, channels: set<string> := 0, {};
    ghost var done: set<int> := {};
    assert Starts(f, start, end) == Starts(f, pos, end);
    NothingSummed(f, decode);
    while pos < end
      invariant pos < |f| ==> IsStart(f, pos)
      invariant Remaining(f, start, end, pos, done)
      invariant Summed(f, done, records, channels, decode)
      decreases |f| - pos
    {
      if pos >= |f| {
        break;
      }
      var e := LineEnd(f, pos);
      OneMoreRecord(f, start, end, pos, done);
      match decode(f[pos..e])
      case Invalid =>
        FailureExpected(f, start, end, pos, decode);
        return Failed;
      case Channel(name) =>
        OneMoreSummed(f, done, pos, records, channels, decode);
        LineHoldsOneStart(f, pos, end);
        records, channels := records + 1, channels + {name};
        done := done + {pos};
        pos := e;
    }
    assert Starts(f, pos, end) == {} && done == Starts(f, start, end);
    SummedExpected(f, start, end, records, channels, decode);
    r := Scanned(records, channels);
  }

  // ---- all workers -----------------------------------------------------------------------------------

  /** Where range `i` of `tasks` begins. */
  function Cut(size: nat, tasks: nat, i: nat): nat
    requires tasks > 0
  {
    i * size / tasks
  }

  lemma CutsAscend(size: nat, tasks: nat, i: nat, j: nat)
    requires tasks > 0 && i <= j
    ensures Cut(size, tasks, i) <= Cut(size, tasks, j)
  {
    assert i * size <= j * size;
    DivideAscends(i * size, j * size, tasks);
  }

  lemma DivideAscends(a: nat, b: nat, d: nat)
    requires d > 0 && a <= b
    ensures a / d <= b / d
  {
    assert a == d * (a / d) + a % d && b == d * (b / d) + b % d;
    if a / d > b / d {
      NotSmall(a / d - b / d, d);
      assert false;
    }
  }

  lemma NotSmall(k: int, d: nat)
    requires k != 0
    ensures k * d >= d || k * d <= 0 - d
  {
  }

  lemma MultipleDivides(size: nat, d: nat)
    requires d > 0
    ensures d * size / d == size
  {
    var q := d * size / d;
    assert d * size == d * q + (d * size) % d;
    assert (size - q) * d == d * size - d * q;
    if size != q {
      NotSmall(size - q, d);
      assert false;
    }
  }

  lemma LastCut(size: nat, tasks: nat)
    requires tasks > 0
    ensures Cut(size, tasks, 0) == 0 && Cut(size, tasks, tasks) == size
  {
    MultipleDivides(size, tasks);
  }

  function RangeStarts(f: Bytes, tasks: nat, i: nat): set<int>
    requires tasks > 0
  {
    Starts(f, Cut(|f|, tasks, i), Cut(|f|, tasks, i + 1))
  }

  /** The records of all the ranges whose index is in `indices`. */
  ghost function Covered(f: Bytes, tasks: nat, indices: set<nat>): set<int>
    requires tasks > 0
  {
    set p | p in Starts(f, 0, |f|) && InSome(f, tasks, indices, p)
  }

  ghost predicate InSome(f: Bytes, tasks: nat, indices: set<nat>, p: int)
    requires tasks > 0
  {
    exists i :: i in indices && p in RangeStarts(f, tasks, i)
  }

  lemma RangesDisjoint(f: Bytes, tasks: nat, i: nat, j: nat)
    requires tasks > 0 && i != j
    ensures RangeStarts(f, tasks, i) !! RangeStarts(f, tasks, j)
  {
    if i < j { CutsAscend(|f|, tasks, i + 1, j); } else { CutsAscend(|f|, tasks, j + 1, i); }
  }

  lemma CoverOneMore(f: Bytes, tasks: nat, indices: set<nat>, i: nat)
    requires tasks > 0 && i !in indices
    ensures Covered(f, tasks, indices + {i}) == Covered(f, tasks, indices) + RangeStarts(f, tasks, i)
    ensures Covered(f, tasks, indices) !! RangeStarts(f, tasks, i)
  {
    forall j | j in indices ensures RangeStarts(f, tasks, j) !! RangeStarts(f, tasks, i) {
      RangesDisjoint(f, tasks, j, i);
    }
    forall p | p in Covered(f, tasks, indices) + RangeStarts(f, tasks, i)
      ensures p in Covered(f, tasks, indices + {i})
    {
      if p in RangeStarts(f, tasks, i) {
        assert i in indices + {i};
      } else {
        var j :| j in indices && p in RangeStarts(f, tasks, j);
        assert j in indices + {i};
      }
    }
  }

  /** Every record start lies in one of the ranges below `i` if it lies before their end. */
  lemma {:induction false} Located(f: Bytes, tasks: nat, p: int, i: nat)
    requires tasks > 0 && IsStart(f, p) && p < Cut(|f|, tasks, i)
    ensures exists j :: 0 <= j < i && p in RangeStarts(f, tasks, j)
  {
    LastCut(|f|, tasks);
    if p < Cut(|f|, tasks, i - 1) {
      Located(f, tasks, p, i - 1);
      var j :| 0 <= j < i - 1 && p in RangeStarts(f, tasks, j);
    } else {
      assert p in RangeStarts(f, tasks, i - 1);
    }
  }

  lemma AllCovered(f: Bytes, tasks: nat, indices: set<nat>)
    requires tasks > 0 && forall i :: 0 <= i < tasks ==> i in indices
    ensures Covered(f, tasks, indices) == Starts(f, 0, |f|)
  {
    LastCut(|f|, tasks);
    forall p | p in Starts(f, 0, |f|) ensures p in Covered(f, tasks, indices) {
      Located(f, tasks, p, tasks);
    }
  }

  /** An order in which the workers may complete: every index below `tasks` once. */
  predicate IsOrder(order: seq<nat>, tasks: nat) {
    && |order| == tasks
    && (forall k :: 0 <= k < tasks ==> order[k] < tasks)
    && (forall j, k :: 0 <= j < k < tasks ==> order[j] != order[k])
  }

  function Elements(s: seq<nat>): (e: set<nat>)
    ensures forall x :: x in e <==> x in s
    ensures |e| <= |s|
    ensures (forall j, k :: 0 <= j < k < |s| ==> s[j] != s[k]) ==> |e| == |s|
  {
    if s == [] then {} else
      assert s == s[..|s| - 1] + [s[|s| - 1]];
      Elements(s[..|s| - 1]) + {s[|s| - 1]}
  }

  function Below(n: nat): (s: set<nat>)
    ensures |s| == n && forall i :: i in s <==> 0 <= i < n
  {
    if n == 0 then {} else Below(n - 1) + {n - 1}
  }

  lemma OrderCoversAll(order: seq<nat>, tasks: nat)
    requires IsOrder(order, tasks)
    ensures Elements(order) == Below(tasks)
  {
    SameSizeSubset(Elements(order), Below(tasks));
  }

  lemma MergeOne(f: Bytes, tasks: nat, indices: set<nat>, i: nat, records: nat, channels: set<string>, part: Scan,
                 decode: Decoder)
    requires tasks > 0 && i !in indices && Summed(f, Covered(f, tasks, indices), records, channels, decode)
    requires part.Scanned? && Summed(f, RangeStarts(f, tasks, i), part.records, part.channels, decode)
    ensures Summed(f, Covered(f, tasks, indices + {i}), records + part.records, channels + part.channels, decode)
  {
    CoverOneMore(f, tasks, indices, i);
    ScansJoin(f, Covered(f, tasks, indices), RangeStarts(f, tasks, i), decode);
  }

  /** One worker's range. */
  method ScanTask(f: Bytes, tasks: nat, i: nat, decode: Decoder) returns (part: Scan)
    requires i < tasks
    ensures part.Scanned? ==> Summed(f, RangeStarts(f, tasks, i), part.records, part.channels, decode)
    ensures part.Failed? ==> Expected(f, 0, |f|, decode).Failed?
  {
    part := ScanRange(f, Cut(|f|, tasks, i), Cut(|f|, tasks, i + 1), decode);
    if part.Failed? {
      PartFailed(f, tasks, i, decode);
    }
  }

  lemma PartFailed(f: Bytes, tasks: nat, i: nat, decode: Decoder)
    requires tasks > 0 && i < tasks
    requires Expected(f, Cut(|f|, tasks, i), Cut(|f|, tasks, i + 1), decode).Failed?
    ensures Expected(f, 0, |f|, decode).Failed?
  {
  }

  lemma NextIndexNew(order: seq<nat>, k: nat)
    requires k < |order| && IsOrder(order, |order|)
    ensures order[k] !in Elements(order[..k])
    ensures Elements(order[..k + 1]) == Elements(order[..k]) + {order[k]}
  {
    assert order[..k + 1][..k] == order[..k];
  }

  /** Merge the results as they complete. */
  method Merge(f: Bytes, tasks: nat, order: seq<nat>, decode: Decoder) returns (r: Scan)
    requires tasks > 0 && IsOrder(order, tasks)
    ensures r.Scanned? ==> Summed(f, Covered(f, tasks, Elements(order)), r.records, r.channels, decode)
    ensures r.Failed? ==> Expected(f, 0, |f|, decode).Failed?
  {
    var records: nat, channels: set<string> := 0, {};
    ghost var indices: set<nat> := {};
    assert Covered(f, tasks, {}) == {};
    NothingSummed(f, decode);
    for k := 0 to tasks
      invariant indices == Elements(order[..k])
      invariant Summed(f, Covered(f, tasks, indices), records, channels, decode)
    {
      var i := order[k];
      var part := ScanTask(f, tasks, i, decode);
      if part.Failed? {
        return Failed;
      }
      NextIndexNew(order, k);
      MergeOne(f, tasks, indices, i, records, channels, part, decode);
      records, channels := records + part.records, channels + part.channels;
      indices := indices + {i};
    }
    assert order[..tasks] == order;
    r := Scanned(records, channels);
  }

  /** Scan the ranges in parallel: for every file, every number of tasks and every order of completion the result is
      that of the whole file, each record counted once. */
  method ParallelScan(f: Bytes, tasks: nat, order: seq<nat>, decode: Decoder) returns (r: Scan)
    requires tasks > 0 && IsOrder(order, tasks)
    ensures r == Expected(f, 0, |f|, decode)
  {
    r := Merge(f, tasks, order, decode);
    if r.Scanned? {
      OrderCoversAll(order, tasks);
      AllCovered(f, tasks, Elements(order));
      SummedExpected(f, 0, |f|, r.records, r.channels, decode);
    }
  }
}
