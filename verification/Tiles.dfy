// How a buffer is cut into tiles, and which positions of the current buffer a
// tile may read.
module Tiles {

  const INT64_MAX: int := 0x7fff_ffff_ffff_ffff

  // The longest buffer of 8-byte elements an allocation can hold.
  const MAX_LENGTH: int := 0x1fff_ffff_ffff_ffff

  // ---- tiles --------------------------------------------------------------

  function PartitionCount(length: nat, width: nat): nat
    requires width > 0
  {
    if length == 0 then 0 else 1 + (length - 1) / width
  }

  function TileLo(partition: nat, width: nat): nat { partition * width }

  function TileHi(partition: nat, width: nat, length: nat): int
  {
    var lo := TileLo(partition, width);
    if length - lo < width then length else lo + width
  }

  lemma DivBounds(i: nat, width: nat)
    requires width > 0
    ensures (i / width) * width <= i < (i / width) * width + width
  {}

  lemma {:induction false} MulMono(a: nat, b: nat, width: nat)
    requires a <= b
    ensures a * width <= b * width
  {
    assert b * width == a * width + (b - a) * width;
  }

  lemma TileUnique(p: nat, q: nat, i: nat, width: nat)
    requires p * width <= i < p * width + width
    requires q * width <= i < q * width + width
    ensures p == q
  {
    assert (p + 1) * width == p * width + width && (q + 1) * width == q * width + width;
    if p < q { MulMono(p + 1, q, width); }
    if q < p { MulMono(q + 1, p, width); }
  }

  // The tiles cut 0..length into consecutive non-empty ranges: every position
  // is in the tile i / width and in no other.
  lemma TilesPartition(length: nat, width: nat, i: nat, p: nat)
    requires width > 0 && i < length && p < PartitionCount(length, width)
    ensures i / width < PartitionCount(length, width)
    ensures TileLo(p, width) <= i < TileHi(p, width, length) <==> p == i / width
  {
    DivBounds(i, width);
    DivBounds(length - 1, width);
    var q := i / width;
    QuotientBound(q, width, length - 1);
    if TileLo(p, width) <= i < TileHi(p, width, length) { TileUnique(p, q, i, width); }
  }

  // A tile of the job is a non-empty range inside the buffer, and neither its
  // product nor its end overflows 64 bits, so the overflow status of the
  // partition runner is never taken.
  lemma TileInside(length: nat, width: nat, p: nat)
    requires width > 0 && length <= INT64_MAX && p < PartitionCount(length, width)
    ensures 0 <= TileLo(p, width) < TileHi(p, width, length) <= length
    ensures p <= INT64_MAX / width
    ensures TileHi(p, width, length) - TileLo(p, width) <= width
  {
    DivBounds(length - 1, width);
    MulMono(p, (length - 1) / width, width);
    QuotientBound(p, width, INT64_MAX);
  }

  lemma QuotientBound(p: nat, width: nat, limit: nat)
    requires width > 0 && p * width <= limit
    ensures p <= limit / width
  {
    DivBounds(limit, width);
    var q := limit / width;
    assert (q + 1) * width == q * width + width;
    if p > q { MulMono(q + 1, p, width); }
  }

  // ---- read windows -------------------------------------------------------

  datatype Boundary = Bounded | Periodic

  // Two half-open windows [lo0, hi0) and [lo1, hi1).
  datatype Windows = Windows(lo0: int, hi0: int, lo1: int, hi1: int)

  predicate Reads(w: Windows, x: int) {
    w.lo0 <= x < w.hi0 || w.lo1 <= x < w.hi1
  }

  function AddClamped(value: int, amount: int, limit: int): int {
    if amount > limit - value then limit else value + amount
  }

  function PartitionAccess(boundary: Boundary, length: int, left: int, right: int, lo: int, hi: int): Windows {
    if boundary.Bounded? || length == 0 then
      Windows(if left > lo then 0 else lo - left, AddClamped(hi, right, length), 0, 0)
    else
      var spanLo := lo - left;
      var spanHi := AddClamped(hi, right, INT64_MAX);
      if left >= length || right >= length || left + right >= length - (hi - lo) then Windows(0, length, 0, 0)
      else if spanLo < 0 then Windows(0, spanHi, length + spanLo, length)
      else if spanHi > length then Windows(spanLo, length, 0, spanHi - length)
      else Windows(spanLo, spanHi, 0, 0)
  }

  // What the step checks before it dispatches.
  predicate HaloOk(length: int, width: int, left: int, right: int) {
    && 0 <= length <= MAX_LENGTH && 0 < width <= INT64_MAX
    && 0 <= left && 0 <= right && left <= INT64_MAX - right
    && (length > 0 ==> left + right <= INT64_MAX - width)
  }

  predicate Int64(x: int) { -INT64_MAX - 1 <= x <= INT64_MAX }

  // Cell i of the tile looks d places to its side.
  predicate InHalo(left: int, right: int, lo: int, hi: int, i: int, d: int) {
    lo <= i < hi && -left <= d <= right
  }

  // A cell x is wanted when some cell of the tile looks at it, at some offset
  // of the halo.
  ghost predicate WantedBounded(length: int, left: int, right: int, lo: int, hi: int, x: int) {
    0 <= x < length && exists i, d :: InHalo(left, right, lo, hi, i, d) && i + d == x
  }

  ghost predicate WantedPeriodic(length: int, left: int, right: int, lo: int, hi: int, x: int)
    requires length > 0
  {
    0 <= x < length && exists i, d :: InHalo(left, right, lo, hi, i, d) && (i + d) % length == x
  }

  // A position of the tile's span, as a tile cell and an offset.
  lemma SpanPoint(left: int, right: int, lo: int, hi: int, y: int) returns (i: int, d: int)
    requires 0 <= left && 0 <= right && lo < hi && lo - left <= y < hi + right
    ensures InHalo(left, right, lo, hi, i, d) && i + d == y
  {
    i := if y < lo then lo else if y >= hi then hi - 1 else y;
    d := y - i;
  }

  lemma BoundedWindowsExact(length: int, left: int, right: int, lo: int, hi: int, x: int)
    requires HaloOk(length, hi - lo, left, right) && 0 <= lo < hi <= length
    ensures var w := PartitionAccess(Bounded, length, left, right, lo, hi);
      Reads(w, x) <==> WantedBounded(length, left, right, lo, hi, x)
  {
    if lo - left <= x < hi + right {
      var i, d := SpanPoint(left, right, lo, hi, x);
    }
  }

  // Two numbers in one period with the same residue are the same.
  lemma SameResidue(y: int, x: int, q: int, length: int)
    requires length > 0 && 0 <= x < length && y == x + q * length
    ensures y % length == x
  {
    var k := y / length - q;
    assert y == (y / length) * length + y % length;
    assert x - y % length == (y / length) * length - q * length == k * length;
    SmallMultiple(k, length);
  }

  lemma SmallMultiple(k: int, length: int)
    requires length > 0 && -length < k * length < length
    ensures k == 0
  {}

  lemma ModSpan(y: int, length: int)
    requires length > 0 && -length <= y < 2 * length
    ensures y % length == if y < 0 then y + length else if y < length then y else y - length
  {
    if y < 0 {
      SameResidue(y, y + length, -1, length);
    } else if y < length {
      SameResidue(y, y, 0, length);
    } else {
      SameResidue(y, y - length, 1, length);
    }
  }

  // The point of a span of a whole period that lies over x.
  lemma PointOver(from: int, length: int, x: int) returns (y: int)
    requires length > 0 && 0 <= x < length
    ensures from <= y < from + length && y % length == x
  {
    var q := (x - from) / length;
    var r := (x - from) % length;
    assert x - from == q * length + r;
    y := from + r;
    assert y == x + (-q) * length;
    SameResidue(y, x, -q, length);
  }

  // Periodic windows are exactly the cells the halo needs, taken modulo the
  // length, and the two windows never overlap.
  lemma PeriodicWindowsExact(length: int, left: int, right: int, lo: int, hi: int, x: int)
    requires HaloOk(length, hi - lo, left, right) && 0 <= lo < hi <= length
    ensures var w := PartitionAccess(Periodic, length, left, right, lo, hi);
      && (Reads(w, x) <==> WantedPeriodic(length, left, right, lo, hi, x))
      && !(w.lo0 <= x < w.hi0 && w.lo1 <= x < w.hi1)
  {
    if left >= length || right >= length || left + right >= length - (hi - lo) {
      if 0 <= x < length { WholePeriod(length, left, right, lo, hi, x); }
    } else {
      SpanIsWindows(length, left, right, lo, hi, x);
      if 0 <= x < length { SpanIsWanted(length, left, right, lo, hi, x); }
    }
  }

  // A span of a whole period wants every cell.
  lemma WholePeriod(length: int, left: int, right: int, lo: int, hi: int, x: int)
    requires 0 <= left && 0 <= right && 0 <= lo < hi <= length && 0 <= x < length
    requires left >= length || right >= length || left + right >= length - (hi - lo)
    ensures WantedPeriodic(length, left, right, lo, hi, x)
  {
    var from := if left >= length then lo - length + 1 else if right >= length then lo else lo - left;
    var y := PointOver(from, length, x);
    var i, d := SpanPoint(left, right, lo, hi, y);
  }

  // The position of the span over x, when the span is shorter than the period.
  predicate OverSpan(length: int, left: int, right: int, lo: int, hi: int, x: int) {
    lo - left <= x < hi + right || lo - left <= x - length < hi + right || lo - left <= x + length < hi + right
  }

  lemma SpanIsWindows(length: int, left: int, right: int, lo: int, hi: int, x: int)
    requires HaloOk(length, hi - lo, left, right) && 0 <= lo < hi <= length
    requires left < length && right < length && left + right < length - (hi - lo)
    ensures var w := PartitionAccess(Periodic, length, left, right, lo, hi);
      && (Reads(w, x) <==> 0 <= x < length && OverSpan(length, left, right, lo, hi, x))
      && !(w.lo0 <= x < w.hi0 && w.lo1 <= x < w.hi1)
  {}

  lemma SpanIsWanted(length: int, left: int, right: int, lo: int, hi: int, x: int)
    requires 0 <= left && 0 <= right && 0 <= lo < hi <= length && 0 <= x < length
    requires left < length && right < length
    ensures OverSpan(length, left, right, lo, hi, x) <==> WantedPeriodic(length, left, right, lo, hi, x)
  {
    if OverSpan(length, left, right, lo, hi, x) {
      var q := if lo - left <= x < hi + right then 0 else if lo - left <= x - length < hi + right then -1 else 1;
      var y := x + q * length;
      SameResidue(y, x, q, length);
      var i, d := SpanPoint(left, right, lo, hi, y);
    }
    if WantedPeriodic(length, left, right, lo, hi, x) {
      var i, d :| InHalo(left, right, lo, hi, i, d) && (i + d) % length == x;
      ModSpan(i + d, length);
    }
  }

  // No intermediate of the window computation leaves 64 bits, and the clamp at
  // the top of the range is never reached on a path that uses its result.
  lemma WindowsFit(boundary: Boundary, length: int, left: int, right: int, lo: int, hi: int)
    requires HaloOk(length, hi - lo, left, right) && 0 <= lo < hi <= length
    ensures Int64(lo - left) && Int64(left + right) && Int64(length - (hi - lo))
    ensures var w := PartitionAccess(boundary, length, left, right, lo, hi);
      && 0 <= w.lo0 <= w.hi0 <= length && 0 <= w.lo1 <= w.hi1 <= length
    ensures right < length ==> AddClamped(hi, right, INT64_MAX) == hi + right
  {}
}
