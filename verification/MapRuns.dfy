// Whole runs of native map operations over any number of live maps, against
// runs over plain entry lists.
module MapRuns {
  import opened AssocList
  import opened NativeMap

  // Operations name maps by the order in which they were handed out.
  datatype Op<K, V> =
    | Build(pairs: seq<(K, V)>)
    | Open(m: nat)
    | Put(m: nat, k: K, v: V)
    | Close(m: nat)
    | With(m: nat, k: K, v: V)
    | Without(m: nat, k: K)

  // What a handle stands for: a state and its entries.
  datatype Handle<K, V> = Handle(state: State, entries: seq<(K, V)>)

  // The operation meets the demands of the map it names.
  predicate Allowed<K, V>(hs: seq<Handle<K, V>>, op: Op<K, V>) {
    match op
    case Build(_) => true
    case Open(m) => m < |hs| && hs[m].state == Persistent && hs[m].entries == []
    case Put(m, _, _) => m < |hs| && hs[m].state == Transient
    case Close(m) => m < |hs| && hs[m].state == Transient
    case With(m, _, _) => m < |hs| && hs[m].state == Persistent
    case Without(m, _) => m < |hs| && hs[m].state == Persistent
  }

  ghost function Step<K(!new), V>(e: Equality<K>, hs: seq<Handle<K, V>>, op: Op<K, V>): seq<Handle<K, V>>
    requires Allowed(hs, op)
  {
    match op
    case Build(pairs) => hs + [Handle(Persistent, AssocList.FromPairs(e, pairs))]
    case Open(m) => hs + [Handle(Transient, [])]
    case Put(m, k, v) => hs[m := Handle(Transient, Assoc(e, hs[m].entries, k, v))]
    case Close(m) => hs[m := hs[m].(state := Retired)] + [Handle(Persistent, hs[m].entries)]
    case With(m, k, v) => hs + [Handle(Persistent, Assoc(e, hs[m].entries, k, v))]
    case Without(m, k) => hs + [Handle(Persistent, Dissoc(e, hs[m].entries, k))]
  }

  ghost predicate AllAllowed<K(!new), V>(e: Equality<K>, hs: seq<Handle<K, V>>, ops: seq<Op<K, V>>)
    decreases |ops|
  {
    ops == [] || (Allowed(hs, ops[0]) && AllAllowed(e, Step(e, hs, ops[0]), ops[1..]))
  }

  ghost function Run<K(!new), V>(e: Equality<K>, hs: seq<Handle<K, V>>, ops: seq<Op<K, V>>): seq<Handle<K, V>>
    requires AllAllowed(e, hs, ops)
    decreases |ops|
  {
    if ops == [] then hs else Run(e, Step(e, hs, ops[0]), ops[1..])
  }

  // A persistent map has the same entries after any run whatsoever.
  lemma {:induction false} PersistentForever<K(!new), V>(e: Equality<K>, hs: seq<Handle<K, V>>, ops: seq<Op<K, V>>,
        i: nat)
    requires AllAllowed(e, hs, ops) && i < |hs| && hs[i].state == Persistent
    ensures i < |Run(e, hs, ops)| && Run(e, hs, ops)[i] == hs[i]
    decreases |ops|
  {
    if ops != [] { PersistentForever(e, Step(e, hs, ops[0]), ops[1..], i); }
  }

  // No handle ever holds two equal keys.
  lemma {:induction false} RunKeepsEntries<K(!new), V>(e: Equality<K>, hs: seq<Handle<K, V>>, ops: seq<Op<K, V>>)
    requires e.Lawful() && AllAllowed(e, hs, ops)
    requires forall i | 0 <= i < |hs| :: Entries(e, hs[i].entries)
    ensures forall i | 0 <= i < |Run(e, hs, ops)| :: Entries(e, Run(e, hs, ops)[i].entries)
    decreases |ops|
  {
    if ops != [] {
      var hs' := Step(e, hs, ops[0]);
      StepKeepsEntries(e, hs, ops[0]);
      RunKeepsEntries(e, hs', ops[1..]);
    }
  }

  lemma StepKeepsEntries<K(!new), V>(e: Equality<K>, hs: seq<Handle<K, V>>, op: Op<K, V>)
    requires e.Lawful() && Allowed(hs, op)
    requires forall i | 0 <= i < |hs| :: Entries(e, hs[i].entries)
    ensures forall i | 0 <= i < |Step(e, hs, op)| :: Entries(e, Step(e, hs, op)[i].entries)
  {
    match op
    case Build(pairs) =>
      FromPairsEntries(e, pairs);
    case Open(m) =>
    case Put(m, k, v) =>
      AssocEntries(e, hs[m].entries, k, v);
    case Close(m) =>
    case With(m, k, v) =>
      AssocEntries(e, hs[m].entries, k, v);
    case Without(m, k) =>
      DissocEntries(e, hs[m].entries, k);
  }

  // ---- running on the heap ------------------------------------------------

  // The maps of the arena hold what the handles say. No two live handles name
  // one transient.
  ghost predicate Tracks<K(!new, 0), V(0)>(a: Arena<K, V>, maps: seq<Map<K, V>>, hs: seq<Handle<K, V>>)
    reads a, a.maps, a.Footprint()
  {
    && a.Valid() && |maps| == |hs|
    && (forall i | 0 <= i < |hs| && hs[i].state != Retired :: Holds(a, maps[i], hs[i]))
    && Separate(maps, hs)
  }

  ghost predicate Separate<K(!new, 0), V(0)>(maps: seq<Map<K, V>>, hs: seq<Handle<K, V>>)
    requires |maps| == |hs|
  {
    forall i, j | 0 <= i < |hs| && 0 <= j < |hs| && i != j && hs[i].state == Transient && hs[j].state != Retired ::
      maps[i] != maps[j]
  }

  lemma SeparateAdd<K(!new, 0), V(0)>(maps: seq<Map<K, V>>, hs: seq<Handle<K, V>>, r: Map<K, V>, h: Handle<K, V>)
    requires |maps| == |hs| && Separate(maps, hs)
    requires forall i | 0 <= i < |hs| && hs[i].state != Retired ::
      maps[i] != r || (hs[i].state == h.state == Persistent)
    ensures Separate(maps + [r], hs + [h])
  {}

  ghost predicate Holds<K(!new, 0), V(0)>(a: Arena<K, V>, m: Map<K, V>, h: Handle<K, V>)
    requires a.Valid()
    reads a, a.maps, a.Footprint()
  {
    m in a.maps && m.state == h.state && m.Contents() == h.entries
  }

  // The handle an operation adds, of a map that existed before or of a new one.
  ghost function Added<K(!new), V>(e: Equality<K>, hs: seq<Handle<K, V>>, op: Op<K, V>): Handle<K, V>
    requires Allowed(hs, op) && !op.Put? && !op.Close?
  {
    Step(e, hs, op)[|hs|]
  }

  lemma StepAdds<K(!new), V>(e: Equality<K>, hs: seq<Handle<K, V>>, op: Op<K, V>)
    requires Allowed(hs, op) && !op.Put? && !op.Close?
    ensures Step(e, hs, op) == hs + [Added(e, hs, op)] && Added(e, hs, op).state != Retired
    ensures Added(e, hs, op).state == Transient ==> op.Open?
  {}

  method Make<K(!new, 0), V(0)>(a: Arena<K, V>, maps: seq<Map<K, V>>, ghost hs: seq<Handle<K, V>>, op: Op<K, V>)
    returns (r: Map<K, V>)
    requires Tracks(a, maps, hs) && Allowed(hs, op) && !op.Put? && !op.Close?
    modifies a
    ensures old(a.Valid()) && a.Valid() && a.Kept(null)
    ensures Holds(a, r, Added(a.c.e, hs, op))
    ensures fresh(r) || (r in old(a.maps) && r.state == old(r.state) == Persistent)
  {
    hide Map.IndexedUpTo, Unique, Map.Contents, Arena.Footprint, Arena.Kept, FromPairs, Assoc, Dissoc, Kind.Lawful;
    match op
    case Build(pairs) =>
      r := a.FromPairs(pairs);
    case Open(m) =>
      r := a.TransientOpen(maps[m]);
    case With(m, k, v) =>
      r := a.Assoc(maps[m], k, v);
    case Without(m, k) =>
      r := a.Dissoc(maps[m], k);
  }

  lemma SeparateFrom<K(!new, 0), V(0)>(maps: seq<Map<K, V>>, hs: seq<Handle<K, V>>, m: nat)
    requires |maps| == |hs| && Separate(maps, hs) && m < |hs| && hs[m].state == Transient
    ensures forall i | 0 <= i < |hs| && hs[i].state != Retired && i != m :: maps[i] != maps[m]
    ensures forall es :: Separate(maps, hs[m := Handle(Transient, es)])
  {}

  // What an update in place leaves of every live map.
  method PutInPlace<K(!new, 0), V(0)>(a: Arena<K, V>, maps: seq<Map<K, V>>, ghost hs: seq<Handle<K, V>>, m: nat,
        k: K, v: V)
    requires Tracks(a, maps, hs) && m < |hs| && hs[m].state == Transient
    modifies a, a.Footprint()
    ensures a.Valid() && fresh(a.Footprint() - old(a.Footprint()))
    ensures Holds(a, maps[m], Handle(Transient, Assoc(a.c.e, hs[m].entries, k, v)))
    ensures forall i | 0 <= i < |hs| && hs[i].state != Retired && i != m :: Holds(a, maps[i], hs[i])
    ensures forall i | 0 <= i < |hs| && hs[i].state == Persistent :: maps[i].SlotTable() == old(maps[i].SlotTable())
  {
    SeparateFrom(maps, hs, m);
    hide Map.IndexedUpTo, Unique, Map.Contents, Map.SlotTable, FromPairs, Assoc, Dissoc, Kind.Lawful, Separate;
    var _ := a.AssocTransient(maps[m], k, v);
    forall i | 0 <= i < |hs| && hs[i].state != Retired && i != m
      ensures Holds(a, maps[i], hs[i])
    {
      assert maps[i] in old(a.maps) && maps[i].Same();
    }
  }

  method PerformPut<K(!new, 0), V(0)>(a: Arena<K, V>, maps: seq<Map<K, V>>, ghost hs: seq<Handle<K, V>>, op: Op<K, V>)
    returns (maps': seq<Map<K, V>>)
    requires Tracks(a, maps, hs) && Allowed(hs, op) && op.Put?
    modifies a, a.Footprint()
    ensures Tracks(a, maps', Step(a.c.e, hs, op)) && fresh(a.Footprint() - old(a.Footprint())) && maps <= maps'
    ensures forall i | 0 <= i < |hs| && hs[i].state == Persistent :: maps[i].SlotTable() == old(maps[i].SlotTable())
  {
    ghost var hs' := hs[op.m := Handle(Transient, AssocList.Assoc(a.c.e, hs[op.m].entries, op.k, op.v))];
    PutSeparate(a.c.e, maps, hs, op);
    hide Arena.Valid, Arena.Footprint, Holds, AssocList.Assoc, Separate, Step, Map.SlotTable;
    PutInPlace(a, maps, hs, op.m, op.k, op.v);
    HeldTracks(a, maps, hs');
    hide *;
    maps' := maps;
  }

  lemma PutSeparate<K(!new, 0), V(0)>(e: Equality<K>, maps: seq<Map<K, V>>, hs: seq<Handle<K, V>>, op: Op<K, V>)
    requires |maps| == |hs| && Separate(maps, hs) && Allowed(hs, op) && op.Put?
    ensures var hs' := hs[op.m := Handle(Transient, AssocList.Assoc(e, hs[op.m].entries, op.k, op.v))];
      Step(e, hs, op) == hs' && Separate(maps, hs')
  {
    hide AssocList.Assoc;
  }

  lemma HeldTracks<K(!new, 0), V(0)>(a: Arena<K, V>, maps: seq<Map<K, V>>, hs: seq<Handle<K, V>>)
    requires a.Valid() && |maps| == |hs| && Separate(maps, hs)
    requires forall i | 0 <= i < |hs| && hs[i].state != Retired :: Holds(a, maps[i], hs[i])
    ensures Tracks(a, maps, hs)
  {
    hide Arena.Valid, Arena.Footprint, Holds, Separate;
  }

  // What closing a transient leaves of every live map.
  method CloseInto<K(!new, 0), V(0)>(a: Arena<K, V>, maps: seq<Map<K, V>>, ghost hs: seq<Handle<K, V>>, m: nat)
    returns (r: Map<K, V>)
    requires Tracks(a, maps, hs) && m < |hs| && hs[m].state == Transient
    modifies a, a.Footprint()
    ensures a.Valid() && fresh(a.Footprint() - old(a.Footprint())) && fresh(r)
    ensures Holds(a, r, Handle(Persistent, hs[m].entries))
    ensures forall i | 0 <= i < |hs| && hs[i].state != Retired && i != m :: Holds(a, maps[i], hs[i])
    ensures forall i | 0 <= i < |hs| && hs[i].state == Persistent :: maps[i].SlotTable() == old(maps[i].SlotTable())
  {
    SeparateFrom(maps, hs, m);
    hide Map.IndexedUpTo, Unique, Map.Contents, Map.SlotTable, FromPairs, Assoc, Dissoc, Kind.Lawful, Separate;
    r := a.PersistentClose(maps[m]);
    forall i | 0 <= i < |hs| && hs[i].state != Retired && i != m
      ensures Holds(a, maps[i], hs[i])
    {
      assert maps[i] in old(a.maps) && maps[i].Same();
    }
  }

  lemma CloseSeparate<K(!new, 0), V(0)>(e: Equality<K>, maps: seq<Map<K, V>>, hs: seq<Handle<K, V>>, op: Op<K, V>)
    requires |maps| == |hs| && Separate(maps, hs) && Allowed(hs, op) && op.Close?
    ensures var hs0 := hs[op.m := hs[op.m].(state := Retired)];
      Step(e, hs, op) == hs0 + [Handle(Persistent, hs[op.m].entries)] && Separate(maps, hs0)
  {}

  method PerformClose<K(!new, 0), V(0)>(a: Arena<K, V>, maps: seq<Map<K, V>>, ghost hs: seq<Handle<K, V>>, op: Op<K, V>)
    returns (maps': seq<Map<K, V>>)
    requires Tracks(a, maps, hs) && Allowed(hs, op) && op.Close?
    modifies a, a.Footprint()
    ensures Tracks(a, maps', Step(a.c.e, hs, op)) && fresh(a.Footprint() - old(a.Footprint())) && maps <= maps'
    ensures forall i | 0 <= i < |hs| && hs[i].state == Persistent :: maps[i].SlotTable() == old(maps[i].SlotTable())
  {
    CloseSeparate(a.c.e, maps, hs, op);
    hide Arena.Valid, Arena.Footprint, Holds, Separate, Step, Map.SlotTable;
    ghost var hs0 := hs[op.m := hs[op.m].(state := Retired)];
    var r := CloseInto(a, maps, hs, op.m);
    SeparateAdd(maps, hs0, r, Handle(Persistent, hs[op.m].entries));
    HoldAll(a, maps, hs0, r, Handle(Persistent, hs[op.m].entries));
    hide *;
    maps' := maps + [r];
  }

  lemma HoldAll<K(!new, 0), V(0)>(a: Arena<K, V>, maps: seq<Map<K, V>>, hs: seq<Handle<K, V>>, r: Map<K, V>,
      h: Handle<K, V>)
    requires a.Valid() && |maps| == |hs| && Separate(maps + [r], hs + [h]) && Holds(a, r, h)
    requires forall i | 0 <= i < |hs| && hs[i].state != Retired :: Holds(a, maps[i], hs[i])
    ensures Tracks(a, maps + [r], hs + [h])
  {
    hide Arena.Valid, Arena.Footprint, Holds, Separate;
  }

  method PerformNew<K(!new, 0), V(0)>(a: Arena<K, V>, maps: seq<Map<K, V>>, ghost hs: seq<Handle<K, V>>, op: Op<K, V>)
    returns (maps': seq<Map<K, V>>)
    requires Tracks(a, maps, hs) && Allowed(hs, op) && !op.Put? && !op.Close?
    modifies a, a.Footprint()
    ensures Tracks(a, maps', Step(a.c.e, hs, op)) && fresh(a.Footprint() - old(a.Footprint())) && maps <= maps'
    ensures forall i | 0 <= i < |hs| && hs[i].state == Persistent :: maps[i].SlotTable() == old(maps[i].SlotTable())
  {
    hide Map.IndexedUpTo, Unique, Map.Contents, Map.SlotTable, FromPairs, Assoc, Dissoc, Kind.Lawful;
    StepAdds(a.c.e, hs, op);
    hide Step, Added, Separate;
    var r := Make(a, maps, hs, op);
    SeparateAdd(maps, hs, r, Added(a.c.e, hs, op));
    maps' := maps + [r];
    forall i | 0 <= i < |hs| && hs[i].state != Retired
      ensures Holds(a, maps[i], hs[i])
    {
      assert maps[i] in old(a.maps) && maps[i].Same();
    }
  }

  // One operation: the maps named before stay the same objects, and the tables
  // of the persistent ones are as they were.
  method Perform<K(!new, 0), V(0)>(a: Arena<K, V>, maps: seq<Map<K, V>>, ghost hs: seq<Handle<K, V>>, op: Op<K, V>)
    returns (maps': seq<Map<K, V>>)
    requires Tracks(a, maps, hs) && Allowed(hs, op)
    modifies a, a.Footprint()
    ensures Tracks(a, maps', Step(a.c.e, hs, op)) && maps <= maps'
    ensures forall i | 0 <= i < |hs| && hs[i].state == Persistent :: maps[i].SlotTable() == old(maps[i].SlotTable())
    ensures forall o | o in a.Footprint() :: o in old(a.Footprint()) || fresh(o)
  {
    hide *;
    if op.Put? {
      maps' := PerformPut(a, maps, hs, op);
    } else if op.Close? {
      maps' := PerformClose(a, maps, hs, op);
    } else {
      maps' := PerformNew(a, maps, hs, op);
    }
  }

  lemma OneStep<K(!new), V>(e: Equality<K>, hs: seq<Handle<K, V>>, ops: seq<Op<K, V>>, i: nat)
    requires i < |ops| && AllAllowed(e, hs, ops[i..])
    ensures Allowed(hs, ops[i]) && AllAllowed(e, Step(e, hs, ops[i]), ops[i + 1..])
    ensures Run(e, hs, ops[i..]) == Run(e, Step(e, hs, ops[i]), ops[i + 1..])
    ensures forall j | 0 <= j < |hs| && hs[j].state == Persistent ::
      j < |Step(e, hs, ops[i])| && Step(e, hs, ops[i])[j] == hs[j]
  {
    assert ops[i..][0] == ops[i] && ops[i..][1..] == ops[i + 1..];
  }

  lemma RunEnds<K(!new), V>(e: Equality<K>, hs: seq<Handle<K, V>>, ops: seq<Op<K, V>>)
    ensures AllAllowed(e, hs, ops[|ops|..]) && Run(e, hs, ops[|ops|..]) == hs
  {}

  lemma Start<K(!new, 0), V(0)>(a: Arena<K, V>, ops: seq<Op<K, V>>)
    requires a.Valid() && a.maps == {}
    ensures Tracks(a, [], []) && a.Footprint() == {} && ops[0..] == ops
  {}

  lemma TracksAll<K(!new, 0), V(0)>(a: Arena<K, V>, maps: seq<Map<K, V>>, hs: seq<Handle<K, V>>)
    requires Tracks(a, maps, hs)
    ensures a.Valid() && |maps| == |hs|
    ensures forall i | 0 <= i < |hs| && hs[i].state == Persistent ::
      maps[i].Shape() && maps[i].state == Persistent && maps[i].Contents() == hs[i].entries
  {
    hide Map.IndexedUpTo, Unique, Zip, Separate, Kind.Lawful;
    forall i | 0 <= i < |hs| && hs[i].state == Persistent
      ensures maps[i].Shape() && maps[i].state == Persistent && maps[i].Contents() == hs[i].entries
    {
      assert Holds(a, maps[i], hs[i]);
    }
  }

  // One operation after another.
  method RunEach<K(!new, 0), V(0)>(a: Arena<K, V>, maps0: seq<Map<K, V>>, ghost hs0: seq<Handle<K, V>>,
        ops: seq<Op<K, V>>)
    returns (maps: seq<Map<K, V>>)
    requires Tracks(a, maps0, hs0) && AllAllowed(a.c.e, hs0, ops)
    modifies a, a.Footprint()
    ensures Tracks(a, maps, Run(a.c.e, hs0, ops)) && maps0 <= maps
    ensures forall i | 0 <= i < |hs0| && hs0[i].state == Persistent :: maps0[i].SlotTable() == old(maps0[i].SlotTable())
    ensures forall o | o in a.Footprint() :: o in old(a.Footprint()) || fresh(o)
  {
    TracksAll(a, maps0, hs0);
    hide *;
    ghost var base := a.Footprint();
    maps := maps0;
    ghost var hs := hs0;
    assert ops[0..] == ops;
    for i := 0 to |ops|
      invariant Tracks(a, maps, hs) && maps0 <= maps && |hs0| <= |hs|
      invariant forall j | 0 <= j < |hs0| && hs0[j].state == Persistent ::
        hs[j] == hs0[j] && maps0[j].SlotTable() == old(maps0[j].SlotTable())
      invariant forall o | o in a.Footprint() :: o in base || fresh(o)
      invariant AllAllowed(a.c.e, hs, ops[i..]) && Run(a.c.e, hs, ops[i..]) == Run(a.c.e, hs0, ops)
    {
      OneStep(a.c.e, hs, ops, i);
      TracksAll(a, maps, hs);
      maps := Perform(a, maps, hs, ops[i]);
      hs := Step(a.c.e, hs, ops[i]);
      TracksAll(a, maps, hs);
    }
    RunEnds(a.c.e, hs, ops);
  }

  // A whole run over any live maps. Every persistent map is still the same
  // object, with the entries and the slot table it had, and every live handle
  // stands for what the run over plain lists makes of it.
  method RunFrom<K(!new, 0), V(0)>(a: Arena<K, V>, maps0: seq<Map<K, V>>, ghost hs0: seq<Handle<K, V>>,
        ops: seq<Op<K, V>>)
    returns (maps: seq<Map<K, V>>)
    requires Tracks(a, maps0, hs0) && AllAllowed(a.c.e, hs0, ops)
    modifies a, a.Footprint()
    ensures Tracks(a, maps, Run(a.c.e, hs0, ops)) && maps0 <= maps
    ensures forall i | 0 <= i < |hs0| && hs0[i].state == Persistent ::
      && old(maps0[i].Shape()) && maps0[i].Shape() && maps0[i].state == Persistent
      && maps0[i].Contents() == old(maps0[i].Contents()) && maps0[i].SlotTable() == old(maps0[i].SlotTable())
    ensures forall o | o in a.Footprint() :: o in old(a.Footprint()) || fresh(o)
  {
    hide *;
    TracksAll(a, maps0, hs0);
    maps := RunEach(a, maps0, hs0, ops);
    TracksAll(a, maps, Run(a.c.e, hs0, ops));
    forall i | 0 <= i < |hs0| && hs0[i].state == Persistent
      ensures i < |maps0| && maps0[i].Shape() && maps0[i].state == Persistent && maps0[i].Contents() == hs0[i].entries
    {
      PersistentForever(a.c.e, hs0, ops, i);
    }
  }

  // The same from an empty arena.
  method RunAll<K(!new, 0), V(0)>(c: Kind<K>, ops: seq<Op<K, V>>) returns (a: Arena<K, V>, maps: seq<Map<K, V>>)
    requires c.Lawful() && AllAllowed(c.e, [], ops)
    ensures a.c == c && Tracks(a, maps, Run(c.e, [], ops))
  {
    hide *;
    a := new Arena(c);
    Start(a, ops);
    maps := RunFrom(a, [], [], ops);
  }
}
