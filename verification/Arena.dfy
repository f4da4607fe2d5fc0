/** The reserved byte arena of the realtime arrays (include/goblin/core/array_storage.hpp) and the reservation that
    benchmarks/collection_benchmarks.py computes for it: values are packed one after another, none across a chunk
    boundary, and an append beyond the reservation is an error. */
module Arena {
  import opened Collections
  import opened Decimal

  const MIN_CHUNK: nat := 65536

  // ---- the arena --------------------------------------------------------------------------------------

  datatype Extent = Extent(start: nat, size: nat)

  /** Where a value of `n` bytes goes: at the cursor, or at the next chunk if it would straddle the boundary. */
  function Placed(next: nat, n: nat, chunk: nat): (at: nat)
    requires chunk > 0
    ensures at >= next
  {
    var offset := next % chunk;
    if offset + n > chunk then next + (chunk - offset) else next
  }

  /** All the bytes of the extent lie in one chunk. */
  ghost predicate InOneChunk(e: Extent, chunk: nat)
    requires chunk > 0
  {
    e.start % chunk + e.size <= chunk
  }

  ghost predicate Packed(extents: seq<Extent>, chunk: nat, end: nat)
    requires chunk > 0
  {
    && (forall i :: 0 <= i < |extents| ==> InOneChunk(extents[i], chunk) && extents[i].start + extents[i].size <= end)
    && (forall i, j :: 0 <= i < j < |extents| ==> extents[i].start + extents[i].size <= extents[j].start)
  }

  lemma PlacedFits(next: nat, n: nat, chunk: nat)
    requires 0 < chunk && n <= chunk
    ensures InOneChunk(Extent(Placed(next, n, chunk), n), chunk)
  {
    var offset := next % chunk;
    if offset + n > chunk {
      NextChunk(next, chunk);
    }
  }

  lemma NextChunk(next: nat, chunk: nat)
    requires chunk > 0
    ensures (next + (chunk - next % chunk)) % chunk == 0
    ensures next + (chunk - next % chunk) == (next / chunk + 1) * chunk
  {
    var q := next / chunk;
    assert next == q * chunk + next % chunk;
    assert next + (chunk - next % chunk) == (q + 1) * chunk;
    MultipleOf(q + 1, chunk);
  }

  lemma MultipleOf(k: nat, chunk: nat)
    requires chunk > 0
    ensures (k * chunk) % chunk == 0
  {
    Remainder(k, 0, chunk);
  }

  lemma OneMore(i: nat, size: nat, chunk: nat)
    requires chunk > 0
    ensures Cursor(i + 1, size, chunk) == Placed(Cursor(i, size, chunk), size, chunk) + size
    ensures (i + 1) * size == i * size + size
  {
  }

  class ReservedArena {
    const chunk: nat
    const reserved: nat
    var next: nat
    var used: nat
    ghost var extents: seq<Extent>

    ghost predicate Valid()
      reads this
    {
      chunk > 0 && Packed(extents, chunk, next)
    }

    constructor (chunk: nat, reserved: nat)
      requires chunk > 0
      ensures Valid() && next == 0 && used == 0 && extents == [] && this.chunk == chunk && this.reserved == reserved
    {
      this.chunk, this.reserved, next, used, extents := chunk, reserved, 0, 0, [];
    }

    /** Append a value. It is stored exactly when it ends within the reservation; then it lies in one chunk, after and
        apart from every earlier value. */
    method Append(n: nat) returns (offset: Option<nat>)
      requires Valid() && n <= chunk
      modifies this
      ensures Valid()
      ensures offset.Some? <==> Placed(old(next), n, chunk) + n <= reserved
      ensures offset.Some? ==>
                && offset.value == Placed(old(next), n, chunk) && next == offset.value + n
                && used == old(used) + n && extents == old(extents) + [Extent(offset.value, n)]
      ensures offset.None? ==> extents == old(extents) && used == old(used)
    {
      PlacedFits(next, n, chunk);
      var within := next % chunk;
      if within + n > chunk {
        next := next + (chunk - within);
      }
      if next > reserved || n > reserved - next { return None; }
      offset := Some(next);
      extents := extents + [Extent(next, n)];
      used := used + n;
      next := next + n;
    }

    /** Append `count` values of `size` bytes; all of them are stored exactly when the packing of them all fits. */
    method AppendAll(count: nat, size: nat) returns (ok: bool)
      requires Valid() && next == 0 && extents == [] && used == 0 && size <= chunk
      modifies this
      ensures ok <==> Cursor(count, size, chunk) <= reserved
      ensures ok ==> Valid() && |extents| == count && next == Cursor(count, size, chunk) && used == count * size
    {
      var i := 0;
      while i < count
        invariant 0 <= i <= count && Valid() && |extents| == i
        invariant next == Cursor(i, size, chunk) <= reserved && used == i * size
      {
        CursorGrows(i + 1, count, size, chunk);
        OneMore(i, size, chunk);
        var offset := Append(size);
        if offset.None? { return false; }
        i := i + 1;
      }
      return true;
    }
  }

  // ---- how much a packing takes -----------------------------------------------------------------------

  /** The cursor after `count` values of one size. */
  function Cursor(count: nat, size: nat, chunk: nat): nat
    requires chunk > 0
  {
    if count == 0 then 0 else Placed(Cursor(count - 1, size, chunk), size, chunk) + size
  }

  lemma {:induction false} CursorGrows(a: nat, b: nat, size: nat, chunk: nat)
    requires chunk > 0 && a <= b
    ensures Cursor(a, size, chunk) <= Cursor(b, size, chunk)
    decreases b
  {
    if a < b {
      CursorGrows(a, b - 1, size, chunk);
    }
  }

  /** How many values of this size a chunk holds, and the bytes it then wastes. */
  function PerChunk(size: nat, chunk: nat): nat
    requires 0 < size <= chunk
  {
    chunk / size
  }

  function Waste(size: nat, chunk: nat): nat
    requires 0 < size <= chunk
  {
    chunk % size
  }

  lemma ChunkSplit(size: nat, chunk: nat)
    requires 0 < size <= chunk
    ensures PerChunk(size, chunk) > 0 && Waste(size, chunk) < size
    ensures chunk == PerChunk(size, chunk) * size + Waste(size, chunk)
  {
  }

  lemma StaysInChunk(f: nat, filled: nat, size: nat, chunk: nat)
    requires 0 < size && filled + size <= chunk
    ensures Placed(f * chunk + filled, size, chunk) == f * chunk + filled
  {
    Remainder(f, filled, chunk);
  }

  lemma MovesOn(f: nat, filled: nat, size: nat, chunk: nat)
    requires 0 < size <= chunk && filled <= chunk < filled + size
    ensures Placed(f * chunk + filled, size, chunk) == (f + 1) * chunk
  {
    if filled == chunk {
      assert f * chunk + filled == (f + 1) * chunk;
      MultipleOf(f + 1, chunk);
    } else {
      Remainder(f, filled, chunk);
      NextChunk(f * chunk + filled, chunk);
    }
  }

  lemma StepIn(n: nat, f: nat, filled: nat, size: nat, chunk: nat)
    requires 0 < size && filled + size <= chunk && Cursor(n, size, chunk) == f * chunk + filled
    ensures Cursor(n + 1, size, chunk) == f * chunk + filled + size
  {
    StaysInChunk(f, filled, size, chunk);
  }

  lemma StepOver(n: nat, f: nat, filled: nat, size: nat, chunk: nat)
    requires 0 < size <= chunk && filled <= chunk < filled + size && Cursor(n, size, chunk) == f * chunk + filled
    ensures Cursor(n + 1, size, chunk) == (f + 1) * chunk + size
  {
    MovesOn(f, filled, size, chunk);
  }

  lemma Next(k: nat, d: nat)
    ensures (k + 1) * d == k * d + d
  {
  }

  /** The cursor in closed form: after `f` full chunks of `q` values and `r + 1` values of the next chunk. */
  lemma {:induction false} CursorAt(n: nat, f: nat, r: nat, q: nat, size: nat, chunk: nat)
    requires n == f * q + r + 1 && r < q && 0 < size && q * size <= chunk < q * size + size
    ensures Cursor(n, size, chunk) == f * chunk + (r + 1) * size
    decreases n
  {
    if r > 0 {
      CursorAt(n - 1, f, r - 1, q, size, chunk);
      Scale(r + 1, q, size);
      Next(r, size);
      StepIn(n - 1, f, r * size, size, chunk);
    } else if f > 0 {
      Next(f - 1, q);
      CursorAt(n - 1, f - 1, q - 1, q, size, chunk);
      Scale(1, q, size);
      StepOver(n - 1, f - 1, q * size, size, chunk);
    } else {
      Scale(1, q, size);
      StepIn(0, 0, 0, size, chunk);
    }
  }

  /** A packing takes the values themselves and the waste of every chunk it has left. */
  lemma CursorExact(n: nat, size: nat, chunk: nat)
    requires 0 < size <= chunk && n > 0
    ensures Cursor(n, size, chunk) == n * size + (n - 1) / PerChunk(size, chunk) * Waste(size, chunk)
  {
    ChunkSplit(size, chunk);
    var q, w := PerChunk(size, chunk), Waste(size, chunk);
    Divide(n - 1, q);
    var f, r := (n - 1) / q, (n - 1) % q;
    CursorAt(n, f, r, q, size, chunk);
    Spread(f, q, r, size, w);
  }

  lemma Divide(n: nat, d: nat)
    requires d > 0
    ensures n == n / d * d + n % d
  {
  }

  lemma Spread(f: nat, q: nat, r: nat, size: nat, w: nat)
    ensures f * (q * size + w) + (r + 1) * size == (f * q + r + 1) * size + f * w
  {
  }

  // ---- the reservation --------------------------------------------------------------------------------

  function ReserveBytes(writes: nat, size: nat): nat
    requires size > 0
  {
    writes * size + (writes * size / MIN_CHUNK + 1) * (size - 1)
  }

  /** What a caller can check about one value size and one chunk size. */
  predicate WasteCovered(size: nat, chunk: nat)
    requires 0 < size <= chunk
  {
    Waste(size, chunk) * MIN_CHUNK <= (chunk - Waste(size, chunk)) * (size - 1)
  }

  lemma Grow(k: nat, a: int, b: int)
    requires a <= b
    ensures k * a <= k * b
  {
  }

  lemma Chain(f: nat, w: nat, q: nat, e: nat, n: nat, g: nat)
    requires e > 0 && w * MIN_CHUNK <= (q * e) * (e - 1) && f * q <= n && n * e <= g * MIN_CHUNK
    ensures f * w <= g * (e - 1)
  {
    var d := e - 1;
    var a, b, c := f * w, g * d, (e * d) * n;
    assert a * MIN_CHUNK <= c by {
      Grow(f, w * MIN_CHUNK, (q * e) * d);
      Regroup(f, q, e);
      Grow(e * d, f * q, n);
      Associate(f, w, MIN_CHUNK);
    }
    assert c <= b * MIN_CHUNK by {
      Grow(d, n * e, g * MIN_CHUNK);
      Associate(d, n, e);
      Associate(d, g, MIN_CHUNK);
      Associate(n, e, d);
    }
  }

  lemma Associate(a: nat, b: nat, c: nat)
    ensures a * (b * c) == (a * b) * c && (a * b) * c == (b * c) * a == (c * a) * b
  {
  }

  lemma Regroup(f: nat, q: nat, e: nat)
    requires e > 0
    ensures f * ((q * e) * (e - 1)) == (e * (e - 1)) * (f * q)
  {
  }

  lemma WastedAtLeast(f: nat, w: nat, q: nat, e: nat)
    requires e > 0 && w * MIN_CHUNK >= (q * e) * (e - 1) + 1
    ensures (f * w) * MIN_CHUNK >= (e * (e - 1)) * (f * q) + f
  {
    var x := (q * e) * (e - 1);
    Grow(f, x + 1, w * MIN_CHUNK);
    assert f * (x + 1) == f * x + f;
    assert f * x == (e * (e - 1)) * (f * q) by { Regroup(f, q, e); }
    assert f * (w * MIN_CHUNK) == (f * w) * MIN_CHUNK by { Associate(f, w, MIN_CHUNK); }
  }

  lemma AllowedAtMost(m: nat, e: nat, g: nat)
    requires e > 0 && g * MIN_CHUNK <= (m + 1) * e + MIN_CHUNK
    ensures (g * (e - 1)) * MIN_CHUNK <= (e * (e - 1)) * m + (e + MIN_CHUNK) * (e - 1)
  {
    var d := e - 1;
    Grow(d, g * MIN_CHUNK, (m + 1) * e + MIN_CHUNK);
    Associate(d, g, MIN_CHUNK);
    Next(m, e);
    Distribute(d, m, e);
  }

  lemma Distribute(d: nat, m: nat, e: nat)
    ensures d * (m * e + e + MIN_CHUNK) == (e * d) * m + (e + MIN_CHUNK) * d
  {
  }

  lemma ChainBack(f: nat, w: nat, q: nat, e: nat, g: nat)
    requires e > 0 && w * MIN_CHUNK >= (q * e) * (e - 1) + 1
    requires g * MIN_CHUNK <= (f * q + 1) * e + MIN_CHUNK && f == (e + MIN_CHUNK) * (e - 1) + 1
    ensures f * w > g * (e - 1)
  {
    WastedAtLeast(f, w, q, e);
    AllowedAtMost(f * q, e, g);
  }

  lemma Covered(n: nat, q: nat, w: nat, size: nat)
    requires n > 0 && size > 0 && q > 0 && w * MIN_CHUNK <= (q * size) * (size - 1)
    ensures (n - 1) / q * w <= (n * size / MIN_CHUNK + 1) * (size - 1)
  {
    Divide(n - 1, q);
    Divide(n * size, MIN_CHUNK);
    Chain((n - 1) / q, w, q, size, n, n * size / MIN_CHUNK + 1);
  }

  /** If the waste is covered, the reservation is enough for any number of values. */
  lemma ReserveSuffices(n: nat, size: nat, chunk: nat)
    requires 0 < size <= chunk && WasteCovered(size, chunk)
    ensures Cursor(n, size, chunk) <= ReserveBytes(n, size)
  {
    if n > 0 {
      var q, w := PerChunk(size, chunk), Waste(size, chunk);
      var f, g := (n - 1) / q, n * size / MIN_CHUNK + 1;
      CursorExact(n, size, chunk);
      ChunkSplit(size, chunk);
      Covered(n, q, w, size);
    }
  }

  /** If it is not, the reservation is too small from some number of values on. */
  lemma ReserveFails(size: nat, chunk: nat) returns (n: nat)
    requires 0 < size <= chunk && !WasteCovered(size, chunk)
    ensures Cursor(n, size, chunk) > ReserveBytes(n, size)
  {
    var q, w := PerChunk(size, chunk), Waste(size, chunk);
    ChunkSplit(size, chunk);
    var f := (size + MIN_CHUNK) * (size - 1) + 1;
    n := f * q + 1;
    CursorExact(n, size, chunk);
    Remainder(f, 0, q);
    Divide(n * size, MIN_CHUNK);
    ChainBack(f, w, q, size, n * size / MIN_CHUNK + 1);
  }

  /** The reservation is enough for every number of values exactly when the waste of a chunk is covered. */
  lemma ReserveExactly(size: nat, chunk: nat)
    requires 0 < size <= chunk
    ensures (forall n: nat :: Cursor(n, size, chunk) <= ReserveBytes(n, size)) <==> WasteCovered(size, chunk)
  {
    if WasteCovered(size, chunk) {
      forall n: nat ensures Cursor(n, size, chunk) <= ReserveBytes(n, size) {
        ReserveSuffices(n, size, chunk);
      }
    } else {
      var n := ReserveFails(size, chunk);
    }
  }

  /** It is covered for every value of up to 64 KiB as soon as a chunk is larger than the minimum. */
  lemma CoveredInLargeChunks(size: nat, chunk: nat)
    requires 0 < size <= MIN_CHUNK + 1 && chunk >= 2 * MIN_CHUNK
    ensures WasteCovered(size, chunk)
  {
    var w := Waste(size, chunk);
    ChunkSplit(size, chunk);
    Grow(MIN_CHUNK, w, size - 1);
    Grow(size - 1, MIN_CHUNK, chunk - w);
  }

  /** In chunks of the minimum size it is covered for every value of up to 257 bytes. */
  lemma CoveredInMinimumChunks(size: nat)
    requires 0 < size <= 257
    ensures WasteCovered(size, MIN_CHUNK)
  {
    ChunkSplit(size, MIN_CHUNK);
    if size > 1 {
      NeverOneShort(size, PerChunk(size, MIN_CHUNK), Waste(size, MIN_CHUNK));
      SmallWaste(size, Waste(size, MIN_CHUNK));
    }
  }

  lemma NoSmallDivisor(q: nat, d: nat)
    requires 2 <= d <= 257
    ensures q * d != 65537
  {
  }

  /** A minimum chunk never falls one byte short of another value. */
  lemma NeverOneShort(size: nat, q: nat, w: nat)
    requires 2 <= size <= 257 && MIN_CHUNK == q * size + w
    ensures w != size - 1
  {
    NoSmallDivisor(q + 1, size);
    Next(q, size);
  }

  lemma SmallWaste(size: nat, w: nat)
    requires 2 <= size <= 257 && w <= size - 2
    ensures w * MIN_CHUNK <= (MIN_CHUNK - w) * (size - 1)
  {
  }

  /** Beyond that it can fail: 10923-byte values fill a minimum chunk five at a time and waste almost a sixth. */
  lemma NotCovered()
    ensures !WasteCovered(10923, MIN_CHUNK)
    ensures exists n: nat :: Cursor(n, 10923, MIN_CHUNK) > ReserveBytes(n, 10923)
  {
    var n := ReserveFails(10923, MIN_CHUNK);
  }
}
