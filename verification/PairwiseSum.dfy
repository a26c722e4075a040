// The reduction: per-tile sums, folded in place pair by pair.
module PairwiseSum {
  import opened Tiles
  import opened WorkerPool
  import opened TiledStep

  // ---- the balanced tree --------------------------------------------------

  // The largest power of two below n.
  function Half(n: nat): (h: nat)
    requires n >= 2
    ensures 1 <= h < n <= 2 * h
  {
    if n == 2 then 1 else 2 * Half((n + 1) / 2)
  }

  lemma HalfEven(n: nat)
    requires n > 2
    ensures Half(n) == 2 * Half((n + 1) / 2)
  {}

  // The fixed tree over n leaves: a full left subtree, and the rest.
  function Tree<V>(op: (V, V) -> V, s: seq<V>): V
    requires |s| > 0
    decreases |s|
  {
    if |s| == 1 then s[0]
    else op(Tree(op, s[..Half(|s|)]), Tree(op, s[Half(|s|)..]))
  }

  // One round: neighbours combined, an odd last element kept.
  function PairUp<V>(op: (V, V) -> V, s: seq<V>): (r: seq<V>)
    ensures |r| == (|s| + 1) / 2
  {
    if |s| == 0 then []
    else if |s| == 1 then [s[0]]
    else [op(s[0], s[1])] + PairUp(op, s[2..])
  }

  lemma {:induction false} PairUpAt<V>(op: (V, V) -> V, s: seq<V>, i: nat)
    requires i < (|s| + 1) / 2
    ensures PairUp(op, s)[i] == if 2 * i + 1 < |s| then op(s[2 * i], s[2 * i + 1]) else s[2 * i]
  {
    if i > 0 { PairUpAt(op, s[2..], i - 1); }
  }

  lemma {:induction false} PairUpConcat<V>(op: (V, V) -> V, a: seq<V>, b: seq<V>)
    requires |a| % 2 == 0
    ensures PairUp(op, a + b) == PairUp(op, a) + PairUp(op, b)
  {
    if a == [] {
      assert a + b == b;
    } else {
      assert (a + b)[2..] == a[2..] + b;
      PairUpConcat(op, a[2..], b);
    }
  }

  lemma TreeUnfold<V>(op: (V, V) -> V, s: seq<V>, h: nat)
    requires |s| > 1 && h == Half(|s|)
    ensures Tree(op, s) == op(Tree(op, s[..h]), Tree(op, s[h..]))
  {
    hide Half;
  }

  lemma TreeJoin<V>(op: (V, V) -> V, a: seq<V>, b: seq<V>)
    requires |a| > 0 && |b| > 0 && |a| == Half(|a| + |b|)
    ensures Tree(op, a + b) == op(Tree(op, a), Tree(op, b))
  {
    hide Tree, Half;
    TreeUnfold(op, a + b, |a|);
    assert (a + b)[..|a|] == a && (a + b)[|a|..] == b;
  }

  lemma PairsOfFew<V>(op: (V, V) -> V, s: seq<V>)
    requires 1 <= |s| <= 2
    ensures Tree(op, PairUp(op, s)) == Tree(op, s)
  {
    if |s| == 2 {
      assert s[2..] == [] && s[..1] == [s[0]] && s[1..] == [s[1]];
      assert PairUp(op, s) == [op(s[0], s[1])];
    }
  }

  // A round of pairing leaves the tree's value unchanged.
  lemma {:induction false} TreeOfPairs<V>(op: (V, V) -> V, s: seq<V>)
    requires |s| > 0
    ensures Tree(op, PairUp(op, s)) == Tree(op, s)
    decreases |s|
  {
    hide Tree, PairUp, Half;
    if |s| <= 2 {
      PairsOfFew(op, s);
    } else {
      var h := Half(|s|);
      HalfEven(|s|);
      var a, b := s[..h], s[h..];
      TreeOfPairs(op, a);
      TreeOfPairs(op, b);
      PairUpConcat(op, a, b);
      assert s == a + b;
      TreeJoin(op, a, b);
      PairLengths(|a|, |b|);
      TreeJoin(op, PairUp(op, a), PairUp(op, b));
    }
  }

  lemma PairLengths(a: nat, b: nat)
    requires a % 2 == 0
    ensures (a + 1) / 2 == a / 2 && (a + 1) / 2 + (b + 1) / 2 == (a + b + 1) / 2
  {}

  // One round, written over the front of the array it reads.
  method PairInPlace<V>(op: (V, V) -> V, partials: array<V>, active: nat) returns (write: nat)
    requires 1 < active <= partials.Length
    modifies partials
    ensures write == (active + 1) / 2 && partials[..write] == PairUp(op, old(partials[..active]))
  {
    hide PairUp;
    ghost var before := partials[..active];
    var read := 0;
    write := 0;
    while read < active
      invariant read == 2 * write && 2 * write <= active + 1
      invariant forall j | 0 <= j < write :: partials[j] == PairUp(op, before)[j]
      invariant forall j | read <= j < active :: partials[j] == before[j]
      decreases active + 1 - read
    {
      PairUpAt(op, before, write);
      if read + 1 < active {
        partials[write] := op(partials[read], partials[read + 1]);
      } else {
        partials[write] := partials[read];
      }
      write := write + 1;
      read := read + 2;
    }
  }

  // The in-place reduction of the partial sums, round after round.
  method ReduceInPlace<V>(op: (V, V) -> V, partials: array<V>, count: nat) returns (result: V)
    requires 0 < count <= partials.Length
    modifies partials
    ensures result == Tree(op, old(partials[..count]))
  {
    hide Tree, PairUp;
    var active := count;
    while active > 1
      invariant 1 <= active <= count
      invariant Tree(op, partials[..active]) == Tree(op, old(partials[..count]))
      decreases active
    {
      ghost var before := partials[..active];
      active := PairInPlace(op, partials, active);
      TreeOfPairs(op, before);
    }
    result := partials[0];
    assert partials[..1] == [partials[0]];
    TreeOfOne(op, partials[..1]);
  }

  lemma TreeOfOne<V>(op: (V, V) -> V, s: seq<V>)
    requires |s| == 1
    ensures Tree(op, s) == s[0]
  {}

  // ---- associative sums ---------------------------------------------------

  function FoldFrom<V>(op: (V, V) -> V, acc: V, s: seq<V>): V {
    if s == [] then acc else FoldFrom(op, op(acc, s[0]), s[1..])
  }

  ghost predicate Associative<V(!new)>(op: (V, V) -> V) {
    forall a, b, c :: op(op(a, b), c) == op(a, op(b, c))
  }

  lemma {:induction false} FoldShift<V(!new)>(op: (V, V) -> V, a: V, b: V, s: seq<V>)
    requires Associative(op)
    ensures FoldFrom(op, op(a, b), s) == op(a, FoldFrom(op, b, s))
  {
    if s != [] {
      FoldShift(op, a, op(b, s[0]), s[1..]);
      assert op(op(a, b), s[0]) == op(a, op(b, s[0]));
    }
  }

  lemma {:induction false} FoldConcat<V>(op: (V, V) -> V, acc: V, a: seq<V>, b: seq<V>)
    ensures FoldFrom(op, acc, a + b) == FoldFrom(op, FoldFrom(op, acc, a), b)
  {
    if a == [] {
      assert a + b == b;
    } else {
      assert (a + b)[1..] == a[1..] + b;
      FoldConcat(op, op(acc, a[0]), a[1..], b);
    }
  }

  // For an associative operation the tree is the left fold.
  lemma {:induction false} TreeIsFold<V(!new)>(op: (V, V) -> V, s: seq<V>)
    requires Associative(op) && |s| > 0
    ensures Tree(op, s) == FoldFrom(op, s[0], s[1..])
    decreases |s|
  {
    hide *;
    if |s| == 1 {
      TreeOfOne(op, s);
      FoldOfNone(op, s);
    } else {
      var h := Half(|s|);
      TreeUnfold(op, s, h);
      TreeIsFold(op, s[..h]);
      TreeIsFold(op, s[h..]);
      FoldJoin(op, s, h);
    }
  }

  lemma FoldOfNone<V>(op: (V, V) -> V, s: seq<V>)
    requires |s| == 1
    ensures FoldFrom(op, s[0], s[1..]) == s[0]
  {}

  lemma FoldJoin<V(!new)>(op: (V, V) -> V, s: seq<V>, h: nat)
    requires Associative(op) && 0 < h < |s|
    ensures FoldFrom(op, s[0], s[1..])
         == op(FoldFrom(op, s[..h][0], s[..h][1..]), FoldFrom(op, s[h..][0], s[h..][1..]))
  {
    hide Associative;
    var a, b := s[..h], s[h..];
    assert s[1..] == a[1..] + b;
    FoldConcat(op, s[0], a[1..], b);
    var left := FoldFrom(op, s[0], a[1..]);
    assert FoldFrom(op, left, b) == FoldFrom(op, op(left, b[0]), b[1..]);
    FoldShift(op, left, b[0], b[1..]);
  }

  // ---- the sum of a buffer ------------------------------------------------

  function TileCells<V>(source: seq<V>, width: nat, p: nat): seq<V>
    requires width > 0 && p < PartitionCount(|source|, width) && |source| <= INT64_MAX
  {
    TileInside(|source|, width, p);
    source[TileLo(p, width)..TileHi(p, width, |source|)]
  }

  // The partial sum a worker stores for one partition.
  method TilePartial<V>(op: (V, V) -> V, zero: V, source: array<V>, width: nat, p: nat) returns (partial: V)
    requires width > 0 && source.Length <= INT64_MAX && p < PartitionCount(source.Length, width)
    ensures partial == FoldFrom(op, zero, TileCells(source[..], width, p))
  {
    TileInside(source.Length, width, p);
    var lo, hi := TileLo(p, width), TileHi(p, width, source.Length);
    partial := zero;
    for index := lo to hi
      invariant FoldFrom(op, partial, source[index..hi]) == FoldFrom(op, zero, source[lo..hi])
    {
      assert source[index..hi][1..] == source[index + 1..hi];
      partial := op(partial, source[index]);
    }
    assert source[..][lo..hi] == source[lo..hi];
  }

  function Partials<V>(op: (V, V) -> V, zero: V, source: seq<V>, width: nat): (r: seq<V>)
    requires width > 0 && |source| <= INT64_MAX
    ensures |r| == PartitionCount(|source|, width)
    ensures forall p | 0 <= p < |r| :: r[p] == FoldFrom(op, zero, TileCells(source, width, p))
  {
    seq(PartitionCount(|source|, width), p requires 0 <= p < PartitionCount(|source|, width) =>
          FoldFrom(op, zero, TileCells(source, width, p)))
  }

  // The sum job: every partition writes its own partial and nothing else.
  function SumJob<V>(op: (V, V) -> V, zero: V, source: seq<V>, width: nat, partials0: seq<V>): Job<V>
    requires width > 0 && |source| <= INT64_MAX && |partials0| == PartitionCount(|source|, width)
  {
    Job(|partials0|, 1,
        (p: nat) => Exec(if p < |partials0| then [(p, Partials(op, zero, source, width)[p])] else [], 0), partials0)
  }

  // Whatever the workers and the schedule, a done sum job has filled the
  // partials with the tile sums, so the reduced result depends only on the
  // cells and the tile width.
  lemma SumJobPartials<V>(op: (V, V) -> V, zero: V, source: seq<V>, width: nat, partials0: seq<V>, s: State<V>)
    requires width > 0 && |source| <= INT64_MAX && |partials0| == PartitionCount(|source|, width)
    requires s.job == SumJob(op, zero, source, width, partials0)
    requires Inv(s) && s.caller.Woken? && s.JobDone()
    ensures s.lowest == -1
    ensures s.shadow == Partials(op, zero, source, width)
  {
    ReportIsExact(s);
    forall p: nat | p < |partials0|
      ensures s.shadow[p] == Partials(op, zero, source, width)[p]
    {
      assert s.job.Legal(p, p);
      assert CellAt(s, p, p, |s.job.Writes(p)|);
      assert s.job.Writes(p)[..1] == s.job.Writes(p);
    }
  }

  // The sum job fails nowhere and covers every partial.
  lemma SumJobMeans<V>(op: (V, V) -> V, zero: V, source: seq<V>, width: nat, partials0: seq<V>)
    requires width > 0 && |source| <= INT64_MAX && |partials0| == PartitionCount(|source|, width)
    ensures var job := SumJob(op, zero, source, width, partials0);
      && job.Valid() && job.Count() == job.length && KernelLegal(job) && LeastFailure(job, -1)
      && (forall i: nat | i < job.length :: Covered(job, i))
      && InOrder(job, job.Count()) == Partials(op, zero, source, width)
  {
    var job := SumJob(op, zero, source, width, partials0);
    forall p: nat | p < job.length
      ensures job.Writes(p) == [(p, Partials(op, zero, source, width)[p])] && Touched(job.Writes(p), p)
    {
      assert job.Writes(p)[..0] == [];
    }
    SumJobCells(job, Partials(op, zero, source, width));
  }

  // A job of one-cell tiles in which each writes its own cell.
  lemma SumJobCells<V>(job: Job<V>, values: seq<V>)
    requires job.Valid() && job.width == 1 && |values| == job.length
    requires forall p: nat | p < job.length :: job.Writes(p) == [(p, values[p])]
    ensures KernelLegal(job) && InOrder(job, job.Count()) == values
  {
    forall i: nat | i < job.length
      ensures InOrder(job, job.Count())[i] == values[i]
    {
      InOrderCell(job, job.Count(), i, i);
      assert job.Writes(i)[..0] == [];
    }
  }

  // A whole sum call, on any schedule and any number of workers: once it has
  // returned and was not cancelled, the partials hold the tile sums.
  lemma SumCallMeans<V>(op: (V, V) -> V, zero: V, source: seq<V>, width: nat, partials0: seq<V>,
      s: State<V>, actions: seq<Action<V>>, t: State<V>)
    requires width > 0 && |source| <= INT64_MAX && |partials0| == PartitionCount(|source|, width)
    requires var job := SumJob(op, zero, source, width, partials0);
      && Inv(s) && Enabled(s, Call(job)) && !s.cancelNext
      && Reaches(Step(s, Call(job)), actions, t) && t.generation == s.generation + 1 && !t.trapped && t.caller.Free?
    ensures t.report.Finished? && t.shadow == Partials(op, zero, source, width)
  {
    var job := SumJob(op, zero, source, width, partials0);
    hide Inv, Enabled, Reaches, Step, Partials, SumJob;
    SumJobMeans(op, zero, source, width, partials0);
    CallMeans(s, job, actions, t, partials0);
    SumAnswered(job, t, partials0);
  }

  // A job that fails nowhere and covers all answers with its cells.
  lemma SumAnswered<V>(job: Job<V>, t: State<V>, next: seq<V>)
    requires job.Valid() && t.job.Valid() && LeastFailure(job, -1) && |next| == job.length
    requires (forall i: nat | i < job.length :: Covered(job, i)) && Answered(t, job, next, false)
    ensures t.report.Finished? && t.shadow == InOrder(job, job.Count())
  {
    hide Covered, InOrder, KernelLegal;
  }

  // Folding one more part is combining with its own fold.
  lemma FoldAppend<V(!new)>(op: (V, V) -> V, zero: V, a: seq<V>, b: seq<V>)
    requires Associative(op) && (forall x :: op(zero, x) == x && op(x, zero) == x)
    ensures FoldFrom(op, zero, a + b) == op(FoldFrom(op, zero, a), FoldFrom(op, zero, b))
  {
    FoldConcat(op, zero, a, b);
    FoldShift(op, FoldFrom(op, zero, a), zero, b);
  }

  lemma FoldOne<V>(op: (V, V) -> V, zero: V, x: V)
    ensures FoldFrom(op, zero, [x]) == op(zero, x)
  {
    assert [x][1..] == [];
  }

  // The cells of the first n tiles, in order, are a prefix of the buffer.
  lemma {:induction false} PartialsFold<V(!new)>(op: (V, V) -> V, zero: V, source: seq<V>, width: nat, n: nat)
    requires Associative(op) && (forall a :: op(zero, a) == a && op(a, zero) == a)
    requires width > 0 && |source| <= INT64_MAX && 0 < n <= PartitionCount(|source|, width)
    ensures 0 <= TileHi(n - 1, width, |source|) <= |source|
    ensures FoldFrom(op, zero, Partials(op, zero, source, width)[..n])
      == FoldFrom(op, zero, source[..TileHi(n - 1, width, |source|)])
  {
    var ps := Partials(op, zero, source, width);
    TileInside(|source|, width, n - 1);
    var lo, hi := TileLo(n - 1, width), TileHi(n - 1, width, |source|);
    if n > 1 {
      PartialsFold(op, zero, source, width, n - 1);
      TileFollows(|source|, width, n - 1);
    } else {
      assert source[..lo] == [] && ps[..n - 1] == [];
    }
    PartialsStep(op, zero, ps[..n - 1], ps[n - 1], source, lo, hi);
    assert ps[..n] == ps[..n - 1] + [ps[n - 1]];
  }

  lemma TileFollows(length: nat, width: nat, p: nat)
    requires width > 0 && length <= INT64_MAX && 0 < p < PartitionCount(length, width)
    ensures TileHi(p - 1, width, length) == TileLo(p, width)
  {
    TileInside(length, width, p);
    assert TileLo(p, width) == TileLo(p - 1, width) + width;
  }

  lemma PartialsStep<V(!new)>(op: (V, V) -> V, zero: V, ps: seq<V>, last: V, source: seq<V>, lo: nat, hi: nat)
    requires Associative(op) && (forall a :: op(zero, a) == a && op(a, zero) == a)
    requires lo <= hi <= |source| && last == FoldFrom(op, zero, source[lo..hi])
    requires FoldFrom(op, zero, ps) == FoldFrom(op, zero, source[..lo])
    ensures FoldFrom(op, zero, ps + [last]) == FoldFrom(op, zero, source[..hi])
  {
    hide FoldFrom;
    FoldAppend(op, zero, ps, [last]);
    FoldOne(op, zero, last);
    assert source[..hi] == source[..lo] + source[lo..hi];
    FoldAppend(op, zero, source[..lo], source[lo..hi]);
  }

  // For an associative operation with a neutral zero, the reduction of a
  // non-empty buffer is the plain left-to-right sum, for every tile width.
  lemma SumIsFold<V(!new)>(op: (V, V) -> V, zero: V, source: seq<V>, width: nat)
    requires Associative(op) && (forall a :: op(zero, a) == a && op(a, zero) == a)
    requires width > 0 && 0 < |source| <= INT64_MAX
    ensures |Partials(op, zero, source, width)| > 0
    ensures Tree(op, Partials(op, zero, source, width)) == FoldFrom(op, zero, source)
  {
    hide *;
    var ps := Partials(op, zero, source, width);
    var n := PartitionCount(|source|, width);
    SomePartials(op, zero, source, width);
    TreeIsFold(op, ps);
    FoldFirst(op, zero, ps);
    PartialsFold(op, zero, source, width, n);
    LastTile(|source|, width);
    assert ps[..n] == ps && source[..|source|] == source;
  }

  lemma SomePartials<V(!new)>(op: (V, V) -> V, zero: V, source: seq<V>, width: nat)
    requires width > 0 && 0 < |source| <= INT64_MAX
    ensures |Partials(op, zero, source, width)| == PartitionCount(|source|, width) > 0
  {
    TilesPartition(|source|, width, |source| - 1, PartitionCount(|source|, width) - 1);
  }

  lemma FoldFirst<V(!new)>(op: (V, V) -> V, zero: V, ps: seq<V>)
    requires ps != [] && forall a :: op(zero, a) == a && op(a, zero) == a
    ensures FoldFrom(op, zero, ps) == FoldFrom(op, ps[0], ps[1..])
  {
    assert op(zero, ps[0]) == ps[0];
  }

  // The last tile ends where the buffer ends.
  lemma LastTile(length: nat, width: nat)
    requires width > 0 && length > 0
    ensures TileHi(PartitionCount(length, width) - 1, width, length) == length
  {
    DivBounds(length - 1, width);
  }

  // ---- a whole sum call ---------------------------------------------------

  // The sum of a whole buffer, whatever happened on the way: zero for an empty
  // one, else the balanced tree over the tile sums the pool has left, and so the
  // plain left-to-right sum where the operation allows it.
  method SumCall<V(!new)>(op: (V, V) -> V, zero: V, ghost source: seq<V>, ghost width: nat, ghost partials0: seq<V>,
      ghost s: State<V>, ghost actions: seq<Action<V>>, ghost t: State<V>, partials: array<V>, count: nat)
    returns (result: V)
    requires width > 0 && |source| <= INT64_MAX && count == |partials0| == PartitionCount(|source|, width)
    requires var job := SumJob(op, zero, source, width, partials0);
      && Inv(s) && Enabled(s, Call(job)) && !s.cancelNext
      && Reaches(Step(s, Call(job)), actions, t) && t.generation == s.generation + 1 && !t.trapped && t.caller.Free?
    requires count <= partials.Length && partials[..count] == t.shadow
    modifies partials
    ensures source == [] ==> result == zero
    ensures source != [] ==>
      |Partials(op, zero, source, width)| > 0 && result == Tree(op, Partials(op, zero, source, width))
    ensures Associative(op) && (forall x :: op(zero, x) == x && op(x, zero) == x) ==>
      result == FoldFrom(op, zero, source)
  {
    hide *;
    SumCallMeans(op, zero, source, width, partials0, s, actions, t);
    if source != [] {
      SomePartials(op, zero, source, width);
      if Associative(op) && forall x :: op(zero, x) == x && op(x, zero) == x { SumIsFold(op, zero, source, width); }
    }
    NoCells(op, zero, width);
    if count == 0 {
      result := zero;
    } else {
      result := ReduceInPlace(op, partials, count);
    }
  }

  lemma NoCells<V>(op: (V, V) -> V, zero: V, width: nat)
    requires width > 0
    ensures PartitionCount(0, width) == 0 && FoldFrom(op, zero, []) == zero
  {}
}
