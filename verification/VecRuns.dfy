// Whole runs of vector operations over any live headers and builders, against
// runs over plain sequences that are never changed once made.
module VecRuns {
  import opened Options
  import opened NativeVec

  // Operations name vectors and builders by the order they were handed out.
  datatype Op<T> =
    | New(capacity: nat)
    | Foreign(xs: seq<T>)
    | Assoc(v: nat, i: nat, x: T)
    | Push(v: nat, x: T)
    | Slice(v: nat, start: nat, end: nat)
    | Concat(v: nat, w: nat)
    | Reverse(v: nat)
    | Build(v: nat)
    | Grow(b: nat, x: T)
    | Freeze(b: nat)

  // The sequence every header holds, and every builder until it is frozen.
  datatype World<T> = World(vecs: seq<seq<T>>, builders: seq<Option<seq<T>>>)

  predicate Allowed<T>(s: World<T>, op: Op<T>) {
    match op
    case New(_) => true
    case Foreign(_) => true
    case Assoc(v, i, _) => v < |s.vecs| && i < |s.vecs[v]|
    case Push(v, _) => v < |s.vecs|
    case Slice(v, start, end) => v < |s.vecs| && start <= end <= |s.vecs[v]|
    case Concat(v, w) => v < |s.vecs| && w < |s.vecs|
    case Reverse(v) => v < |s.vecs|
    case Build(v) => v < |s.vecs|
    case Grow(b, _) => b < |s.builders| && s.builders[b].Some?
    case Freeze(b) => b < |s.builders| && s.builders[b].Some?
  }

  predicate OnBuilder<T>(op: Op<T>) {
    op.Build? || op.Grow? || op.Freeze?
  }

  // The sequence an operation on vectors makes.
  function Made<T>(s: World<T>, op: Op<T>): seq<T>
    requires Allowed(s, op) && !OnBuilder(op)
  {
    match op
    case New(_) => []
    case Foreign(xs) => xs
    case Assoc(v, i, x) => s.vecs[v][i := x]
    case Push(v, x) => s.vecs[v] + [x]
    case Slice(v, start, end) => s.vecs[v][start..end]
    case Concat(v, w) => s.vecs[v] + s.vecs[w]
    case Reverse(v) => Reversed(s.vecs[v])
  }

  function Step<T>(s: World<T>, op: Op<T>): World<T>
    requires Allowed(s, op)
  {
    match op
    case Build(v) => s.(builders := s.builders + [Some(s.vecs[v])])
    case Grow(b, x) => s.(builders := s.builders[b := Some(s.builders[b].value + [x])])
    case Freeze(b) => World(s.vecs + [s.builders[b].value], s.builders[b := None])
    case _ => s.(vecs := s.vecs + [Made(s, op)])
  }

  predicate AllAllowed<T>(s: World<T>, ops: seq<Op<T>>)
    decreases |ops|
  {
    ops == [] || (Allowed(s, ops[0]) && AllAllowed(Step(s, ops[0]), ops[1..]))
  }

  function Run<T>(s: World<T>, ops: seq<Op<T>>): World<T>
    requires AllAllowed(s, ops)
    decreases |ops|
  {
    if ops == [] then s else Run(Step(s, ops[0]), ops[1..])
  }

  // Once made, a vector is the same after any run.
  lemma {:induction false} VectorsForever<T>(s: World<T>, ops: seq<Op<T>>)
    requires AllAllowed(s, ops)
    ensures s.vecs <= Run(s, ops).vecs
    decreases |ops|
  {
    if ops != [] { VectorsForever(Step(s, ops[0]), ops[1..]); }
  }

  // ---- running on the heap ------------------------------------------------

  ghost predicate Tracks<T(0)>(a: Arena<T>, vs: seq<Vec<T>>, bs: seq<Builder<T>>, s: World<T>)
    reads a, a.live, a.builders, a.Footprint()
  {
    && a.Valid() && |vs| == |s.vecs| && |bs| == |s.builders|
    && (forall i | 0 <= i < |vs| :: vs[i] in a.live && vs[i].Contents() == s.vecs[i])
    && (forall i | 0 <= i < |bs| && s.builders[i].Some? :: BuilderHolds(a, bs[i], s.builders[i].value))
    && Distinct(bs, s.builders)
  }

  ghost predicate Distinct<T(0)>(bs: seq<Builder<T>>, contents: seq<Option<seq<T>>>)
    requires |bs| == |contents|
  {
    forall i, j | 0 <= i < j < |bs| && contents[i].Some? && contents[j].Some? :: bs[i] != bs[j]
  }

  lemma DistinctRest<T(0)>(bs: seq<Builder<T>>, contents: seq<Option<seq<T>>>, b: nat, x: Option<seq<T>>)
    requires |bs| == |contents| && Distinct(bs, contents) && b < |bs| && contents[b].Some?
    ensures Distinct(bs, contents[b := x])
    ensures forall i | 0 <= i < |bs| && i != b && contents[i].Some? :: bs[i] != bs[b]
  {}

  ghost predicate BuilderHolds<T(0)>(a: Arena<T>, b: Builder<T>, xs: seq<T>)
    requires a.Valid()
    reads a, a.live, a.builders, a.Footprint()
  {
    b in a.builders && b.Contents() == xs
  }

  method Make<T(0)>(a: Arena<T>, vs: seq<Vec<T>>, ghost bs: seq<Builder<T>>, ghost s: World<T>, op: Op<T>)
        returns (r: Vec<T>)
    requires Tracks(a, vs, bs, s) && Allowed(s, op) && !OnBuilder(op)
    modifies a, a.Footprint()
    ensures old(a.Valid()) && a.Valid() && a.Kept(null) && a.live == old(a.live) + {r}
    ensures r.Contents() == Made(s, op)
  {
    hide Arena.Kept, Reversed;
    match op
    case New(capacity) =>
      r := a.New(capacity);
    case Foreign(xs) =>
      r := a.Foreign(xs);
    case Assoc(v, i, x) =>
      r := a.Assoc(vs[v], i, x);
    case Push(v, x) =>
      r := a.Push(vs[v], x);
    case Slice(v, start, end) =>
      r := a.Slice(vs[v], start, end);
    case Concat(v, w) =>
      r := a.Concat(vs[v], vs[w]);
    case Reverse(v) =>
      r := a.Reverse(vs[v]);
  }

  // The lists of headers and builders after one operation: the old ones, and
  // what the operation adds to them.
  method Perform<T(0)>(a: Arena<T>, vs: seq<Vec<T>>, bs: seq<Builder<T>>, ghost s: World<T>, op: Op<T>)
    returns (vs': seq<Vec<T>>, bs': seq<Builder<T>>)
    requires Tracks(a, vs, bs, s) && Allowed(s, op)
    modifies a, a.Footprint()
    ensures Tracks(a, vs', bs', Step(s, op)) && vs <= vs' && bs <= bs'
    ensures forall o | o in a.Footprint() :: o in old(a.Footprint()) || fresh(o)
  {
    hide *;
    match op
    case Build(_) =>
      bs' := PerformBuild(a, vs, bs, s, op);
      vs' := vs;
    case Grow(_, _) =>
      PerformGrow(a, vs, bs, s, op);
      vs', bs' := vs, bs;
    case Freeze(_) =>
      vs' := PerformFreeze(a, vs, bs, s, op);
      bs' := bs;
    case _ =>
      vs' := PerformMake(a, vs, bs, s, op);
      bs' := bs;
  }

  method PerformMake<T(0)>(a: Arena<T>, vs: seq<Vec<T>>, ghost bs: seq<Builder<T>>, ghost s: World<T>, op: Op<T>)
    returns (vs': seq<Vec<T>>)
    requires Tracks(a, vs, bs, s) && Allowed(s, op) && !op.Build? && !op.Grow? && !op.Freeze?
    modifies a, a.Footprint()
    ensures Tracks(a, vs', bs, Step(s, op)) && fresh(a.Footprint() - old(a.Footprint())) && vs <= vs'
  {
    hide Made, Arena.Footprint, Matched;
    var r := Make(a, vs, bs, s, op);
    vs' := vs + [r];
  }

  method PerformBuild<T(0)>(a: Arena<T>, vs: seq<Vec<T>>, bs: seq<Builder<T>>, ghost s: World<T>, op: Op<T>)
    returns (bs': seq<Builder<T>>)
    requires Tracks(a, vs, bs, s) && Allowed(s, op) && op.Build?
    modifies a, a.Footprint()
    ensures Tracks(a, vs, bs', Step(s, op)) && fresh(a.Footprint() - old(a.Footprint())) && bs <= bs'
  {
    hide Made, Arena.Footprint, Matched;
    var b := a.TransientNew(vs[op.v]);
    bs' := bs + [b];
  }

  lemma HeldTracks<T(0)>(a: Arena<T>, vs: seq<Vec<T>>, bs: seq<Builder<T>>, s: World<T>)
    requires a.Valid() && |vs| == |s.vecs| && |bs| == |s.builders| && Distinct(bs, s.builders)
    requires forall i | 0 <= i < |vs| :: vs[i] in a.live && vs[i].Contents() == s.vecs[i]
    requires forall i | 0 <= i < |bs| && s.builders[i].Some? :: BuilderHolds(a, bs[i], s.builders[i].value)
    ensures Tracks(a, vs, bs, s)
  {
    hide Matched, Distinct, BuilderHolds, Arena.Footprint;
  }

  // What a push to builder b leaves of everything else.
  method GrowOne<T(0)>(a: Arena<T>, ghost vs: seq<Vec<T>>, bs: seq<Builder<T>>, ghost s: World<T>, b: nat, x: T)
    requires Tracks(a, vs, bs, s) && b < |bs| && s.builders[b].Some?
    modifies a, a.Footprint()
    ensures a.Valid() && fresh(a.Footprint() - old(a.Footprint()))
    ensures forall i | 0 <= i < |vs| :: vs[i] in a.live && vs[i].Contents() == s.vecs[i]
    ensures forall i | 0 <= i < |bs| && i != b && s.builders[i].Some? :: BuilderHolds(a, bs[i], s.builders[i].value)
    ensures BuilderHolds(a, bs[b], s.builders[b].value + [x])
  {
    DistinctRest(bs, s.builders, b, None);
    hide Matched, Distinct;
    a.TransientPush(bs[b], x);
    forall i | 0 <= i < |bs| && i != b && s.builders[i].Some?
      ensures BuilderHolds(a, bs[i], s.builders[i].value)
    {
      assert bs[i] in old(a.builders);
    }
  }

  method PerformGrow<T(0)>(a: Arena<T>, ghost vs: seq<Vec<T>>, bs: seq<Builder<T>>, ghost s: World<T>, op: Op<T>)
    requires Tracks(a, vs, bs, s) && Allowed(s, op) && op.Grow?
    modifies a, a.Footprint()
    ensures Tracks(a, vs, bs, Step(s, op)) && fresh(a.Footprint() - old(a.Footprint()))
  {
    ghost var grown := Some(s.builders[op.b].value + [op.x]);
    DistinctRest(bs, s.builders, op.b, grown);
    hide Made, Matched, Distinct, BuilderHolds, Arena.Valid, Arena.Footprint;
    GrowOne(a, vs, bs, s, op.b, op.x);
    HeldTracks(a, vs, bs, World(s.vecs, s.builders[op.b := grown]));
  }

  // What freezing builder b leaves of everything else.
  method FreezeOne<T(0)>(a: Arena<T>, vs: seq<Vec<T>>, bs: seq<Builder<T>>, ghost s: World<T>, b: nat)
    returns (r: Vec<T>)
    requires Tracks(a, vs, bs, s) && b < |bs| && s.builders[b].Some?
    modifies a, a.Footprint()
    ensures a.Valid() && fresh(a.Footprint() - old(a.Footprint()))
    ensures forall i | 0 <= i < |vs| :: vs[i] in a.live && vs[i].Contents() == s.vecs[i]
    ensures forall i | 0 <= i < |bs| && i != b && s.builders[i].Some? :: BuilderHolds(a, bs[i], s.builders[i].value)
    ensures r in a.live && r.Contents() == s.builders[b].value
  {
    DistinctRest(bs, s.builders, b, None);
    hide Matched, Distinct;
    r := a.TransientFreeze(bs[b]);
    forall i | 0 <= i < |bs| && i != b && s.builders[i].Some?
      ensures BuilderHolds(a, bs[i], s.builders[i].value)
    {
      assert bs[i] in old(a.builders);
    }
  }

  method PerformFreeze<T(0)>(a: Arena<T>, vs: seq<Vec<T>>, bs: seq<Builder<T>>, ghost s: World<T>, op: Op<T>)
    returns (vs': seq<Vec<T>>)
    requires Tracks(a, vs, bs, s) && Allowed(s, op) && op.Freeze?
    modifies a, a.Footprint()
    ensures Tracks(a, vs', bs, Step(s, op)) && fresh(a.Footprint() - old(a.Footprint())) && vs <= vs'
  {
    DistinctRest(bs, s.builders, op.b, None);
    hide Made, Matched, Distinct, BuilderHolds, Arena.Valid, Arena.Footprint;
    var r := FreezeOne(a, vs, bs, s, op.b);
    vs' := vs + [r];
    HeldTracks(a, vs', bs, World(s.vecs + [s.builders[op.b].value], s.builders[op.b := None]));
  }

  lemma OneStep<T>(s: World<T>, ops: seq<Op<T>>, i: nat)
    requires i < |ops| && AllAllowed(s, ops[i..])
    ensures Allowed(s, ops[i]) && AllAllowed(Step(s, ops[i]), ops[i + 1..])
    ensures Run(s, ops[i..]) == Run(Step(s, ops[i]), ops[i + 1..])
  {
    assert ops[i..][0] == ops[i] && ops[i..][1..] == ops[i + 1..];
  }

  lemma RunEnds<T>(s: World<T>, ops: seq<Op<T>>)
    ensures AllAllowed(s, ops[|ops|..]) && Run(s, ops[|ops|..]) == s
  {}

  lemma Start<T(0)>(a: Arena<T>, ops: seq<Op<T>>)
    requires a.Valid() && a.live == {} && a.builders == {}
    ensures Tracks(a, [], [], World([], [])) && a.Footprint() == {} && ops[0..] == ops
  {}

  lemma TracksContents<T(0)>(a: Arena<T>, vs: seq<Vec<T>>, bs: seq<Builder<T>>, s: World<T>)
    requires Tracks(a, vs, bs, s)
    ensures a.Valid() && |vs| == |s.vecs|
    ensures forall i | 0 <= i < |vs| :: vs[i].Ok() && vs[i].Contents() == s.vecs[i]
  {}

  // One operation after another.
  method RunEach<T(0)>(a: Arena<T>, vs0: seq<Vec<T>>, bs0: seq<Builder<T>>, ghost s0: World<T>, ops: seq<Op<T>>)
    returns (vs: seq<Vec<T>>, bs: seq<Builder<T>>)
    requires Tracks(a, vs0, bs0, s0) && AllAllowed(s0, ops)
    modifies a, a.Footprint()
    ensures Tracks(a, vs, bs, Run(s0, ops)) && vs0 <= vs && bs0 <= bs && fresh(a.Footprint() - old(a.Footprint()))
  {
    hide *;
    ghost var base := a.Footprint();
    vs, bs := vs0, bs0;
    ghost var s := s0;
    assert ops[0..] == ops;
    for i := 0 to |ops|
      invariant Tracks(a, vs, bs, s) && vs0 <= vs && bs0 <= bs
      invariant forall o | o in a.Footprint() :: o in base || fresh(o)
      invariant AllAllowed(s, ops[i..]) && Run(s, ops[i..]) == Run(s0, ops)
    {
      OneStep(s, ops, i);
      vs, bs := Perform(a, vs, bs, s, ops[i]);
      s := Step(s, ops[i]);
    }
    RunEnds(s, ops);
  }

  // A whole run over any live headers and builders. Every header is still the
  // same object and still holds the elements it held, and the new ones hold what
  // the run over plain sequences makes.
  method RunFrom<T(0)>(a: Arena<T>, vs0: seq<Vec<T>>, bs0: seq<Builder<T>>, ghost s0: World<T>, ops: seq<Op<T>>)
    returns (vs: seq<Vec<T>>, bs: seq<Builder<T>>)
    requires Tracks(a, vs0, bs0, s0) && AllAllowed(s0, ops)
    modifies a, a.Footprint()
    ensures Tracks(a, vs, bs, Run(s0, ops)) && vs0 <= vs && bs0 <= bs && fresh(a.Footprint() - old(a.Footprint()))
    ensures forall i | 0 <= i < |vs0| :: old(vs0[i].Ok()) && vs0[i].Ok() && vs0[i].Contents() == old(vs0[i].Contents())
  {
    hide *;
    TracksContents(a, vs0, bs0, s0);
    vs, bs := RunEach(a, vs0, bs0, s0, ops);
    VectorsForever(s0, ops);
    TracksContents(a, vs, bs, Run(s0, ops));
  }

  // The same from an empty arena.
  method RunAll<T(0)>(ops: seq<Op<T>>) returns (a: Arena<T>, vs: seq<Vec<T>>, bs: seq<Builder<T>>)
    requires AllAllowed(World([], []), ops)
    ensures Tracks(a, vs, bs, Run(World([], []), ops))
  {
    hide *;
    a := new Arena();
    Start(a, ops);
    vs, bs := RunFrom(a, [], [], World([], []), ops);
  }
}
