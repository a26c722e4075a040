// The native map: parallel key and value arrays with an optional hash index,
// updated in place while transient and copied while persistent.
module NativeMap {
  import opened Options
  import opened AssocList
  import opened SlotTable

  datatype State = Persistent | Transient | Retired

  // ---- parallel arrays as entries ----------------------------------------

  function Zip<K, V>(ks: seq<K>, vs: seq<V>): (es: seq<(K, V)>)
    requires |ks| == |vs|
    ensures |es| == |ks| && KeysOf(es) == ks
  {
    var es := seq(|ks|, i requires 0 <= i < |ks| => (ks[i], vs[i]));
    assert KeysOf(es) == ks;
    es
  }

  lemma ZipAppend<K, V>(ks: seq<K>, vs: seq<V>, k: K, v: V)
    requires |ks| == |vs|
    ensures Zip(ks + [k], vs + [v]) == Zip(ks, vs) + [(k, v)]
  {}

  lemma ZipUpdate<K, V>(ks: seq<K>, vs: seq<V>, i: nat, v: V)
    requires |ks| == |vs| && i < |vs|
    ensures Zip(ks, vs[i := v]) == Zip(ks, vs)[i := (ks[i], v)]
  {}

  lemma ZipRemove<K, V>(ks: seq<K>, vs: seq<V>, i: nat)
    requires |ks| == |vs| && i < |vs|
    ensures Zip(ks[..i] + ks[i + 1..], vs[..i] + vs[i + 1..]) == Zip(ks, vs)[..i] + Zip(ks, vs)[i + 1..]
  {}

  // Copies the first n elements, as memcpy does.
  method CopyPrefix<T>(to: array<T>, from: array<T>, n: nat)
    requires n <= to.Length && n <= from.Length && to != from
    modifies to
    ensures to[..n] == old(from[..n]) && to[n..] == old(to[n..])
  {
    for i := 0 to n
      invariant to[..i] == from[..i] && to[n..] == old(to[n..]) && from[..] == old(from[..])
    {
      to[i] := from[i];
    }
  }

  // ---- the index ----------------------------------------------------------

  class MapIndex {
    const slots: array<int>
    var entries: nat

    constructor (slotCount: nat)
      ensures fresh(slots) && slots.Length == slotCount && entries == 0
      ensures forall p | 0 <= p < slotCount :: slots[p] == 0
    {
      slots := new int[slotCount](_ => 0);
      entries := 0;
    }

    // Registers k as entry number |ks|.
    method Register<K(!new)>(e: Equality<K>, k: K, ghost ks: seq<K>)
      requires entries == |ks| && slots.Length > 0 && e.hashable(k) && IndexOk(e, slots[..], ks)
      requires (|ks| + 1) * 4 <= slots.Length * 3
      modifies this, slots
      ensures entries == |ks| + 1 && IndexOk(e, slots[..], ks + [k])
    {
      Place(e, slots, k, entries, ks);
      entries := entries + 1;
    }
  }

  lemma EmptyIndexOk<K(!new)>(e: Equality<K>, slots: seq<int>)
    requires |slots| > 0 && forall p | 0 <= p < |slots| :: slots[p] == 0
    ensures IndexOk(e, slots, [])
  {
    FilledOfZeros(slots);
  }

  // ---- maps ---------------------------------------------------------------

  // How the map at hand compares its keys, and whether their kind is ever
  // hashed: the structural kinds are not.
  datatype Kind<!K(!new)> = Kind(e: Equality<K>, kindHashable: bool) {
    ghost predicate Lawful() {
      e.Lawful() && (!kindHashable ==> forall k :: !e.hashable(k))
    }
  }

  class Map<K(!new, 0), V(0)> {
    var keys: array<K>
    var values: array<V>
    var length: nat
    var capacity: nat
    var state: State
    var index: MapIndex?

    // A new, empty, persistent map with room for n entries.
    constructor (n: nat)
      ensures fresh(keys) && fresh(values) && Shape()
      ensures length == 0 && capacity == n && state == Persistent && index == null
    {
      keys := new K[n];
      values := new V[n];
      length := 0;
      capacity := n;
      state := Persistent;
      index := null;
    }

    ghost predicate Shape()
      reads this
    {
      && length <= capacity == keys.Length == values.Length
      && (keys as object) != (values as object)
      && (index != null ==> (index.slots as object) !in {keys as object, values})
    }

    // Everything a write to this map may touch.
    ghost function Repr(): set<object>
      reads this
    {
      {this, keys, values} + IndexRepr()
    }

    ghost function IndexRepr(): set<object>
      reads this
    {
      if index == null then {} else {index, index.slots}
    }

    // The first n keys are distinct and the index, if any, is of exactly them.
    // Its slots hold numbers no larger than MAX_ENTRIES, so they fit 32 bits.
    ghost predicate IndexedUpTo(e: Equality<K>, n: nat)
      requires Shape() && n <= length
      reads this, keys, index, if index == null then {} else {index.slots}
    {
      index != null ==>
        index.entries == n <= MAX_ENTRIES && IndexOk(e, index.slots[..], keys[..n])
    }

    ghost predicate Valid(e: Equality<K>)
      reads Repr()
    {
      Shape() && Unique(e, keys[..length]) && IndexedUpTo(e, length)
    }

    ghost function Contents(): (es: seq<(K, V)>)
      requires Shape()
      reads this, keys, values
      ensures |es| == length
    {
      Zip(keys[..length], values[..length])
    }

    ghost function SlotTable(): seq<int>
      reads this, if index == null then {} else {index.slots}
    {
      if index == null then [] else index.slots[..]
    }

    // Nothing of the map has been written.
    twostate predicate Unwritten()
      reads this, keys, values, IndexRepr()
    {
      && unchanged(this) && unchanged(keys) && unchanged(values)
      && (index != null ==> unchanged(index) && unchanged(index.slots))
    }

    // The map is as it was.
    twostate predicate Same()
      requires old(Shape()) && Shape()
      reads this, Repr()
    {
      && state == old(state) && index == old(index)
      && Contents() == old(Contents()) && SlotTable() == old(SlotTable())
    }

    // The position of the entry whose key equals k: by the index when it is
    // usable and k has a hash, else by scanning.
    method Find(e: Equality<K>, k: K) returns (found: int)
      requires e.Lawful() && Valid(e)
      ensures found == Scan(e, KeysOf(Contents()), k)
    {
      if index != null && index.entries == length && index.slots.Length > length && e.hashable(k) {
        found := Lookup(e, index.slots, keys, length, k);
        return;
      }
      hide IndexOk;
      for i := 0 to length
        invariant forall j | 0 <= j < i :: !e.eq(keys[j], k)
      {
        if e.eq(keys[i], k) {
          return i;
        }
      }
      return -1;
    }

    method Get(e: Equality<K>, k: K) returns (v: Option<V>)
      requires e.Lawful() && Valid(e)
      ensures var i := Scan(e, KeysOf(Contents()), k);
        v == if i < 0 then None else Some(Contents()[i].1)
    {
      var i := Find(e, k);
      v := if i < 0 then None else Some(values[i]);
    }

    method Contains(e: Equality<K>, k: K) returns (b: bool)
      requires e.Lawful() && Valid(e)
      ensures b <==> exists i :: 0 <= i < length && e.eq(keys[i], k)
    {
      var i := Find(e, k);
      assert i >= 0 ==> e.eq(keys[i], k);
      b := i >= 0;
    }

    // Indexes the map's own entries afresh in a table sized for `reserve` of
    // them, or leaves the map without an index.
    method IndexRebuild(c: Kind<K>, reserve: nat)
      requires c.Lawful() && Shape() && Unique(c.e, keys[..length])
      modifies `index
      ensures Valid(c.e)
      ensures index == null || (fresh(index) && fresh(index.slots))
      ensures index != null <==>
        && 16 <= (if reserve < length then length else reserve) <= 0x4000_0000
        && c.kindHashable && forall i | 0 <= i < length :: c.e.hashable(keys[i])
    {
      hide Equality.Lawful, Unique;
      index := null;
      var wanted := if reserve < length then length else reserve;
      if wanted < MIN_LENGTH || wanted > MAX_ENTRIES || !c.kindHashable {
        return;
      }
      var n := SlotCount(wanted);
      var built := new MapIndex(n);
      EmptyIndexOk(c.e, built.slots[..]);
      hide IndexOk, Linked, Unique;
      assert keys[..0] == [];
      for entry := 0 to length
        invariant index == null && built.entries == entry && fresh(built.slots)
        invariant IndexOk(c.e, built.slots[..], keys[..entry])
        invariant forall i | 0 <= i < entry :: c.e.hashable(keys[i])
        modifies built, built.slots
      {
        if !c.e.hashable(keys[entry]) {
          return;
        }
        built.Register(c.e, keys[entry], keys[..entry]);
        assert keys[..entry + 1] == keys[..entry] + [keys[entry]];
      }
      index := built;
    }

    // Registers the entry just written at length - 1.
    method IndexAppend(c: Kind<K>)
      requires c.Lawful() && Shape() && length > 0 && Unique(c.e, keys[..length])
      requires IndexedUpTo(c.e, length - 1)
      modifies `index, IndexRepr()
      ensures Valid(c.e)
      ensures index == null || index == old(index) || (fresh(index) && fresh(index.slots))
      ensures length < 16 && old(index) == null ==> index == null
    {
      if index == null && length < MIN_LENGTH {
        return;
      }
      if index == null || index.entries != length - 1 || length > MAX_ENTRIES || length * 4 > index.slots.Length * 3 {
        IndexRebuild(c, length);
        return;
      }
      if !c.e.hashable(keys[length - 1]) {
        index := null;
        return;
      }
      hide Linked, Unique;
      assert IndexOk(c.e, index.slots[..], keys[..length - 1]);
      assert index.slots.Length > 0;
      hide IndexOk;
      index.Register(c.e, keys[length - 1], keys[..length - 1]);
      assert keys[..length] == keys[..length - 1] + [keys[length - 1]];
    }

    // A fresh persistent map takes over its source's table: shared when no key
    // moved, copied and extended when one was appended, else rebuilt.
    method IndexAdopt(c: Kind<K>, source: Map<K, V>, appended: bool)
      requires c.Lawful() && Shape() && index == null && source.Valid(c.e) && source != this
      requires Unique(c.e, keys[..length])
      requires source.index != null ==> source.index.slots as object !in {keys as object, values}
      requires appended ==> length == source.length + 1
      requires keys[..length] == source.keys[..source.length] + (if appended then [keys[length - 1]] else [])
      modifies `index
      ensures Valid(c.e)
      ensures index == null || (!appended && index == source.index) || (fresh(index) && fresh(index.slots))
      ensures length < 16 || length > 0x4000_0000 ==> index == null
    {
      var parent := source.index;
      if length < MIN_LENGTH || length > MAX_ENTRIES {
        return;
      }
      if parent == null || parent.entries != source.length || length * 4 > parent.slots.Length * 3 {
        IndexRebuild(c, length);
        return;
      }
      if !appended {
        assert keys[..length] == source.keys[..source.length];
        index := parent;
        return;
      }
      if !c.e.hashable(keys[length - 1]) {
        return;
      }
      assert IndexOk(c.e, parent.slots[..], source.keys[..source.length]) && parent.slots.Length > 0;
      hide IndexOk, Linked, Unique;
      var copy := new MapIndex(parent.slots.Length);
      CopyPrefix(copy.slots, parent.slots, parent.slots.Length);
      assert copy.slots[..] == parent.slots[..];
      copy.entries := parent.entries;
      copy.Register(c.e, keys[length - 1], source.keys[..source.length]);
      index := copy;
    }

    // ---- updates in place -------------------------------------------------

    // Overwrites the value of entry i.
    method ReplaceValue(e: Equality<K>, i: nat, v: V)
      requires Valid(e) && i < length
      modifies values
      ensures Valid(e) && Contents() == old(Contents())[i := (old(Contents())[i].0, v)]
    {
      hide Unique, IndexOk;
      ghost var vs := values[..length];
      values[i] := v;
      assert values[..length] == vs[i := v];
      ZipUpdate(keys[..length], vs, i, v);
    }

    // Stores an entry past the last one.
    method WriteEntry(e: Equality<K>, k: K, v: V)
      requires Valid(e) && length < capacity
      modifies `length, keys, values
      ensures Shape() && length == old(length) + 1 && IndexedUpTo(e, length - 1)
      ensures keys[..length] == old(keys[..length]) + [k] && values[..length] == old(values[..length]) + [v]
    {
      hide Unique, IndexOk;
      ghost var ks, vs := keys[..length], values[..length];
      keys[length] := k;
      values[length] := v;
      length := length + 1;
      assert keys[..length - 1] == ks && values[..length - 1] == vs;
    }

    // Adds an entry for a key that matches none, there being room.
    method Append(c: Kind<K>, k: K, v: V)
      requires c.Lawful() && Valid(c.e) && length < capacity
      requires Scan(c.e, keys[..length], k) < 0
      modifies `length, `index, Repr() - {this}
      ensures Valid(c.e) && Contents() == old(Contents()) + [(k, v)] && length == old(length) + 1
      ensures fresh(Repr() - old(Repr()))
    {
      UniqueAppend(c.e, keys[..length], k);
      ZipAppend(keys[..length], values[..length], k, v);
      hide Unique, IndexOk, Zip, Map.IndexedUpTo;
      WriteEntry(c.e, k, v);
      IndexAppend(c);
    }

    // Replaces the value of an equal key or appends, there being room.
    method Put(c: Kind<K>, k: K, v: V)
      requires c.Lawful() && Valid(c.e) && length < capacity
      modifies `length, `index, Repr() - {this}
      ensures Valid(c.e) && Shape() && Contents() == Assoc(c.e, old(Contents()), k, v)
      ensures length <= old(length) + 1 && fresh(Repr() - old(Repr()))
    {
      hide Unique, IndexOk;
      var prior := Find(c.e, k);
      if prior >= 0 {
        ReplaceValue(c.e, prior, v);
      } else {
        Append(c, k, v);
      }
    }

    // Moves the entries to arrays of twice the capacity, or of four.
    method Grow(e: Equality<K>)
      requires Valid(e)
      modifies `keys, `values, `capacity
      ensures Valid(e) && Contents() == old(Contents()) && length < capacity
      ensures fresh(keys) && fresh(values)
    {
      hide Unique, IndexOk;
      var grown := if capacity == 0 then 4 else capacity * 2;
      var ks, vs := new K[grown], new V[grown];
      CopyPrefix(ks, keys, length);
      CopyPrefix(vs, values, length);
      keys, values, capacity := ks, vs, grown;
    }

    // Replaces the value of an equal key or appends, growing when full.
    method AssocInPlace(c: Kind<K>, k: K, v: V)
      requires c.Lawful() && Valid(c.e)
      modifies Repr()
      ensures Valid(c.e) && Shape() && Contents() == Assoc(c.e, old(Contents()), k, v)
      ensures state == old(state) && fresh(Repr() - old(Repr()))
    {
      hide Equality.Lawful, Unique, IndexOk, Zip, Map.IndexedUpTo;
      var prior := Find(c.e, k);
      if prior >= 0 {
        ReplaceValue(c.e, prior, v);
        return;
      }
      if length == capacity {
        Grow(c.e);
      }
      Append(c, k, v);
    }
  }

  lemma UniqueAppend<K(!new)>(e: Equality<K>, ks: seq<K>, k: K)
    requires Unique(e, ks) && Scan(e, ks, k) < 0
    ensures Unique(e, ks + [k])
  {}

  // What the first i pairs of two arrays build.
  ghost function Built<K(!new), V>(e: Equality<K>, ks: seq<K>, vs: seq<V>, i: nat): seq<(K, V)>
    requires i <= |ks| == |vs|
  {
    FromPairs(e, Zip(ks[..i], vs[..i]))
  }

  lemma BuiltStep<K(!new), V>(e: Equality<K>, ks: seq<K>, vs: seq<V>, i: nat)
    requires i < |ks| == |vs|
    ensures Built(e, ks, vs, i + 1) == Assoc(e, Built(e, ks, vs, i), ks[i], vs[i])
  {
    var ps := Zip(ks[..i + 1], vs[..i + 1]);
    assert ps[..i] == Zip(ks[..i], vs[..i]);
  }

  lemma BuiltEnds<K(!new), V>(e: Equality<K>, ks: seq<K>, vs: seq<V>)
    requires |ks| == |vs|
    ensures Built(e, ks, vs, 0) == [] && Built(e, ks, vs, |ks|) == FromPairs(e, Zip(ks, vs))
  {
    assert ks[..|ks|] == ks && vs[..|vs|] == vs;
  }

  // An empty map, indexed already when many entries are to come.
  method Reserve<K(!new, 0), V(0)>(c: Kind<K>, count: nat) returns (r: Map<K, V>)
    requires c.Lawful()
    ensures fresh(r) && fresh(r.Repr()) && r.Valid(c.e) && r.state == Persistent
    ensures r.Shape() && r.Contents() == [] && r.length == 0 && r.capacity == count
  {
    r := new Map(count);
    assert r.keys[..0] == [] && Unique(c.e, r.keys[..0]);
    assert Zip(r.keys[..0], r.values[..0]) == [];
    hide Unique, IndexOk, Zip;
    r.IndexRebuild(c, count);
  }

  // Builds a map from parallel arrays, the last value of a key winning.
  method FromArraysUnpublished<K(!new, 0), V(0)>(c: Kind<K>, ks: array<K>, vs: array<V>, count: nat)
        returns (r: Map<K, V>)
    requires c.Lawful() && count <= ks.Length && count <= vs.Length
    ensures fresh(r) && fresh(r.Repr()) && r.Valid(c.e) && r.Shape() && r.state == Persistent
    ensures r.Contents() == FromPairs(c.e, Zip(ks[..count], vs[..count]))
  {
    hide Equality.Lawful, Scan, Unique, IndexOk, Zip, FromPairs;
    ghost var kseq, vseq := ks[..count], vs[..count];
    BuiltEnds(c.e, kseq, vseq);
    hide *;
    r := Reserve(c, count);
    for i := 0 to count
      invariant fresh(r) && fresh(r.Repr()) && r.state == Persistent
      invariant r.Valid(c.e) && r.Shape() && r.capacity == count && r.length <= i
      invariant r.Contents() == Built(c.e, kseq, vseq, i)
      invariant kseq == ks[..count] && vseq == vs[..count]
    {
      BuiltStep(c.e, kseq, vseq, i);
      assert ks[i] == kseq[i] && vs[i] == vseq[i];
      r.Put(c, ks[i], vs[i]);
    }
  }

  // Copies a map's entries into a new one with the value of k set.
  method Copied<K(!new, 0), V(0)>(m: Map<K, V>, prior: int, k: K, v: V) returns (r: Map<K, V>)
    requires m.Shape() && -1 <= prior < m.length
    ensures fresh(r) && fresh(r.keys) && fresh(r.values) && r.Shape() && r.index == null && r.state == Persistent
    ensures r.keys[..r.length] == m.keys[..m.length] + (if prior < 0 then [k] else [])
    ensures r.values[..r.length] == if prior < 0 then m.values[..m.length] + [v] else m.values[..m.length][prior := v]
  {
    var length := m.length + (if prior < 0 then 1 else 0);
    r := new Map(length);
    CopyPrefix(r.keys, m.keys, m.length);
    CopyPrefix(r.values, m.values, m.length);
    r.length := length;
    if prior >= 0 {
      r.values[prior] := v;
    } else {
      r.keys[m.length] := k;
      r.values[m.length] := v;
      assert r.keys[..m.length] == m.keys[..m.length] && r.values[..m.length] == m.values[..m.length];
    }
  }

  // The arrays of an assoc, as the entries they stand for.
  lemma ArraysOfAssoc<K(!new), V>(e: Equality<K>, ks: seq<K>, vs: seq<V>, k: K, v: V, ks': seq<K>, vs': seq<V>)
    requires |ks| == |vs| && Unique(e, ks)
    requires var i := Scan(e, ks, k);
      && ks' == ks + (if i < 0 then [k] else [])
      && vs' == if i < 0 then vs + [v] else vs[i := v]
    ensures |ks'| == |vs'| && Unique(e, ks') && Zip(ks', vs') == Assoc(e, Zip(ks, vs), k, v)
  {
    var i := Scan(e, ks, k);
    if i < 0 {
      UniqueAppend(e, ks, k);
      ZipAppend(ks, vs, k, v);
    } else {
      assert ks' == ks;
      ZipUpdate(ks, vs, i, v);
    }
  }

  method AssocUnpublished<K(!new, 0), V(0)>(c: Kind<K>, m: Map<K, V>, k: K, v: V) returns (r: Map<K, V>)
    requires c.Lawful() && m.Valid(c.e)
    ensures fresh(r) && fresh(r.Repr() - m.Repr()) && r.Valid(c.e) && r.Shape() && r.state == Persistent
    ensures r.Contents() == Assoc(c.e, m.Contents(), k, v)
  {
    hide Equality.Lawful, Unique, IndexOk, Scan;
    var prior := m.Find(c.e, k);
    hide Assoc, Zip;
    r := Copied(m, prior, k, v);
    ArraysOfAssoc(c.e, m.keys[..m.length], m.values[..m.length], k, v, r.keys[..r.length], r.values[..r.length]);
    r.IndexAdopt(c, m, prior < 0);
  }

  // A sequence without its element i.
  function Cut<T>(s: seq<T>, i: nat): (t: seq<T>)
    requires i < |s|
    ensures |t| == |s| - 1
    ensures forall j | 0 <= j < |t| :: t[j] == s[if j < i then j else j + 1]
  {
    s[..i] + s[i + 1..]
  }

  // The arrays of a dissoc, as the entries they stand for.
  lemma ArraysOfDissoc<K(!new), V>(e: Equality<K>, ks: seq<K>, vs: seq<V>, k: K)
    requires e.Lawful() && |ks| == |vs| && Unique(e, ks)
    ensures var i := Scan(e, ks, k);
      i >= 0 ==> Unique(e, Cut(ks, i)) && Zip(Cut(ks, i), Cut(vs, i)) == Dissoc(e, Zip(ks, vs), k)
  {
    var i := Scan(e, ks, k);
    if i >= 0 {
      DissocEntries(e, Zip(ks, vs), k);
      ZipRemove(ks, vs, i);
    }
  }

  // Copies all entries but one into a new map.
  method Without<K(!new, 0), V(0)>(m: Map<K, V>, removed: nat) returns (r: Map<K, V>)
    requires m.Shape() && removed < m.length
    ensures fresh(r) && fresh(r.keys) && fresh(r.values) && r.Shape() && r.index == null && r.state == Persistent
    ensures r.keys[..r.length] == Cut(m.keys[..m.length], removed)
    ensures r.values[..r.length] == Cut(m.values[..m.length], removed)
  {
    r := new Map(m.length - 1);
    for i := 0 to m.length
      invariant r.Shape() && r.capacity == m.length - 1 && r.index == null && r.state == Persistent
      invariant fresh(r.keys) && fresh(r.values) && r.length == if i <= removed then i else i - 1
      invariant forall j | 0 <= j < r.length :: r.keys[j] == m.keys[if j < removed then j else j + 1]
      invariant forall j | 0 <= j < r.length :: r.values[j] == m.values[if j < removed then j else j + 1]
    {
      if i != removed {
        r.keys[r.length] := m.keys[i];
        r.values[r.length] := m.values[i];
        r.length := r.length + 1;
      }
    }
  }

  method DissocUnpublished<K(!new, 0), V(0)>(c: Kind<K>, m: Map<K, V>, k: K) returns (r: Map<K, V>)
    requires c.Lawful() && m.Valid(c.e) && m.state == Persistent
    ensures r.Valid(c.e) && r.Shape() && r.state == Persistent && (r == m || fresh(r)) && fresh(r.Repr() - m.Repr())
    ensures r.Contents() == Dissoc(c.e, m.Contents(), k)
  {
    hide Equality.Lawful, Scan, Unique, IndexOk;
    var removed := m.Find(c.e, k);
    if removed < 0 {
      return m;
    }
    ArraysOfDissoc(c.e, m.keys[..m.length], m.values[..m.length], k);
    hide Dissoc, Zip, Cut;
    r := Without(m, removed);
    r.IndexRebuild(c, r.length);
  }

  method ArraysOf<K(0), V(0)>(ps: seq<(K, V)>) returns (ks: array<K>, vs: array<V>)
    ensures fresh(ks) && fresh(vs) && ks.Length == vs.Length == |ps| && Zip(ks[..|ps|], vs[..|ps|]) == ps
  {
    ks := new K[|ps|](i requires 0 <= i < |ps| => ps[i].0);
    vs := new V[|ps|](i requires 0 <= i < |ps| => ps[i].1);
  }

  method Opened<K(!new, 0), V(0)>(c: Kind<K>) returns (r: Map<K, V>)
    ensures fresh(r) && fresh(r.Repr()) && r.Valid(c.e) && r.Shape() && r.state == Transient && r.Contents() == []
  {
    r := new Map(4);
    assert r.keys[..0] == [] && Zip(r.keys[..0], r.values[..0]) == [];
    r.state := Transient;
  }

  // A persistent header over the transient's arrays and index.
  method Closed<K(!new, 0), V(0)>(e: Equality<K>, t: Map<K, V>) returns (r: Map<K, V>)
    requires t.Valid(e)
    modifies t`state
    ensures fresh(r) && r.Repr() == t.Repr() - {t} + {r} && r.Valid(e) && r.Shape() && r.state == Persistent
    ensures t.state == Retired && r.Contents() == old(t.Contents())
  {
    r := new Map(0);
    r.keys, r.values, r.length, r.capacity, r.index := t.keys, t.values, t.length, t.capacity, t.index;
    t.state := Retired;
  }

  // ---- the arena ----------------------------------------------------------

  // The maps an arena has handed out and not retired, all of one key kind.
  // Persistent maps may share an index; a transient shares nothing.
  class Arena<K(!new, 0), V(0)> {
    const c: Kind<K>
    ghost var maps: set<Map<K, V>>

    constructor (c: Kind<K>)
      requires c.Lawful()
      ensures Valid() && maps == {} && this.c == c
    {
      this.c := c;
      maps := {};
    }

    ghost predicate Valid()
      reads this, maps, Footprint()
    {
      && c.Lawful()
      && (forall m | m in maps :: m.Valid(c.e) && m.state != Retired && (this as object) !in m.Repr())
      && (forall t, m | t in maps && m in maps && t != m && t.state == Transient :: t.Repr() !! m.Repr())
    }

    // All the storage of the maps.
    ghost function Footprint(): set<object>
      reads this, maps
    {
      set m, o | m in maps && o in m.Repr() :: o
    }

    // Every map handed out before, except the transient t, is still there with
    // its state, its entries and its very slot table.
    twostate predicate Kept(t: Map?<K, V>)
      requires old(Valid()) && Valid()
      reads this, maps, Footprint()
    {
      && (forall m | m in old(maps) && m != t :: m in maps && m.Same())
      && fresh(Footprint() - old(Footprint()))
    }

    // Nothing has happened to a map whose objects were not written.
    twostate lemma Untouched(m: Map<K, V>)
      requires old(m.Valid(c.e)) && m.Unwritten()
      ensures m.Valid(c.e) && m.Repr() == old(m.Repr()) && m.Same() && m.state == old(m.state)
    {}

    ghost function StorageOf(s: Map?<K, V>): set<object>
      reads s
    {
      if s == null then {} else s.Repr()
    }

    // The result of an operation on s shares storage only with s, so a
    // transient shares with no other map.
    twostate lemma Apart(s: Map?<K, V>, new r: Map<K, V>)
      requires old(Valid()) && fresh(r.Repr() - old(StorageOf(s)))
      requires s == null || (s in old(maps) && (old(s.state) == Transient || r.state == Persistent))
      ensures fresh(r.Repr() - old(Footprint()))
      ensures forall m | m in old(maps) && m != s && m != r && (old(m.state) == Transient || r.state == Transient) ::
        r.Repr() !! old(m.Repr())
    {
      hide Map.Valid, Kind.Lawful;
      assert old(StorageOf(s)) <= old(Footprint());
      forall m | m in old(maps) && m != s && m != r && (old(m.state) == Transient || r.state == Transient)
        ensures r.Repr() !! old(m.Repr())
      {
        assert s != null ==> old(s.Repr()) !! old(m.Repr());
      }
    }

    // Nothing was written at all.
    twostate lemma NothingWritten()
      requires old(Valid()) && unchanged(this) && forall x | x in old(maps) :: x.Unwritten()
      ensures Valid() && Kept(null)
    {
      hide Map.IndexedUpTo, Unique, Zip, Kind.Lawful;
      forall m | m in old(maps)
        ensures m.Valid(c.e) && m.Repr() == old(m.Repr()) && m.Same() && m.state == old(m.state)
      {
        Untouched(m);
      }
      hide Map.Same, Map.Valid, Map.Repr;
    }

    // A map r joins, or replaces the transient t.
    twostate lemma Settles(t: Map?<K, V>, new r: Map<K, V>)
      requires old(Valid()) && maps == old(maps) - {t} + {r}
      requires forall m | m in old(maps) && m != t :: m.Unwritten()
      requires r.Valid(c.e) && r.state != Retired && (this as object) !in r.Repr()
      requires fresh(r.Repr() - old(Footprint()))
      requires forall m | m in old(maps) && m != t && m != r && (old(m.state) == Transient || r.state == Transient) ::
        r.Repr() !! old(m.Repr())
      ensures Valid() && Kept(t)
    {
      hide Map.IndexedUpTo, Unique, Zip, Map.Repr, Kind.Lawful;
      forall m | m in old(maps) && m != t
        ensures m.Valid(c.e) && m.Repr() == old(m.Repr()) && m.Same() && m.state == old(m.state)
      {
        Untouched(m);
      }
    }

    method FromArrays(ks: array<K>, vs: array<V>, count: nat) returns (r: Map<K, V>)
      requires Valid() && count <= ks.Length && count <= vs.Length
      modifies `maps
      ensures Valid() && maps == old(maps) + {r} && fresh(r) && Kept(null)
      ensures r.state == Persistent && r.Shape()
        && r.Contents() == AssocList.FromPairs(c.e, Zip(ks[..count], vs[..count]))
    {
      hide AssocList.FromPairs, Zip, Map.IndexedUpTo, Unique, Map.Same, Kind.Lawful, Arena.Kept;
      r := FromArraysUnpublished(c, ks, vs, count);
      maps := maps + {r};
      Apart(null, r);
      Settles(null, r);
    }

    // The same from a list of pairs, written to arrays first.
    method FromPairs(ps: seq<(K, V)>) returns (r: Map<K, V>)
      requires Valid()
      modifies `maps
      ensures Valid() && maps == old(maps) + {r} && fresh(r) && Kept(null)
      ensures r.state == Persistent && r.Shape() && r.Contents() == AssocList.FromPairs(c.e, ps)
    {
      hide AssocList.FromPairs, Zip, Map.IndexedUpTo, Unique, Map.Same, Kind.Lawful, Arena.Kept;
      var ks, vs := ArraysOf(ps);
      r := FromArraysUnpublished(c, ks, vs, |ps|);
      maps := maps + {r};
      Apart(null, r);
      Settles(null, r);
    }

    // A new map with the value of k set; m itself stays as it is.
    method Assoc(m: Map<K, V>, k: K, v: V) returns (r: Map<K, V>)
      requires Valid() && m in maps && m.state == Persistent
      modifies `maps
      ensures Valid() && maps == old(maps) + {r} && fresh(r) && Kept(null)
      ensures r.state == Persistent && r.Shape() && old(m.Shape())
      ensures r.Contents() == AssocList.Assoc(c.e, old(m.Contents()), k, v)
    {
      hide AssocList.Assoc, Zip, Map.IndexedUpTo, Unique, Map.Same, Kind.Lawful, Arena.Kept;
      r := AssocUnpublished(c, m, k, v);
      maps := maps + {r};
      forall x | x in old(maps)
        ensures x.Unwritten()
      {
        assert (this as object) !in old(x.Repr());
      }
      Apart(m, r);
      Settles(null, r);
    }

    // A new map without k, or m itself when it has no such key.
    method Dissoc(m: Map<K, V>, k: K) returns (r: Map<K, V>)
      requires Valid() && m in maps && m.state == Persistent
      modifies `maps
      ensures Valid() && maps == old(maps) + {r} && (r == m || fresh(r)) && Kept(null)
      ensures r.state == Persistent && r.Shape() && old(m.Shape())
      ensures r.Contents() == AssocList.Dissoc(c.e, old(m.Contents()), k)
    {
      hide AssocList.Dissoc, Zip, Map.IndexedUpTo, Unique, Map.Same, Kind.Lawful, Arena.Kept;
      r := DissocUnpublished(c, m, k);
      if r == m {
        assert maps == old(maps) + {r} && old(m.Shape());
        NothingWritten();
        return;
      }
      maps := maps + {r};
      forall x | x in old(maps)
        ensures x.Unwritten()
      {
        assert (this as object) !in old(x.Repr());
      }
      Apart(m, r);
      Settles(null, r);
    }

    // A fresh transient; only an empty map can be opened.
    method TransientOpen(m: Map<K, V>) returns (r: Map<K, V>)
      requires Valid() && m in maps && m.state == Persistent && m.length == 0
      modifies `maps
      ensures Valid() && maps == old(maps) + {r} && fresh(r) && Kept(null)
      ensures r.state == Transient && r.Shape() && r.Contents() == []
    {
      r := Opened(c);
      hide Zip, Map.IndexedUpTo, Unique, Map.Same, Kind.Lawful, Arena.Kept;
      maps := maps + {r};
      Apart(null, r);
      Settles(null, r);
    }

    // Sets the value of k in a transient, in place.
    method AssocTransient(t: Map<K, V>, k: K, v: V) returns (r: Map<K, V>)
      requires Valid() && t in maps && t.state == Transient
      modifies t.Repr()
      ensures Valid() && r == t && t.state == Transient && Kept(t)
      ensures t.Shape() && old(t.Shape()) && t.Contents() == AssocList.Assoc(c.e, old(t.Contents()), k, v)
    {
      hide AssocList.Assoc, Zip, Map.IndexedUpTo, Unique, Map.Same, Kind.Lawful, Arena.Kept;
      r := t;
      t.AssocInPlace(c, k, v);
      Apart(t, r);
      Settles(t, r);
    }

    // The transient becomes persistent under a new header and is retired.
    method PersistentClose(t: Map<K, V>) returns (r: Map<K, V>)
      requires Valid() && t in maps && t.state == Transient
      modifies `maps, t`state
      ensures Valid() && maps == old(maps) - {t} + {r} && fresh(r) && Kept(t)
      ensures t.state == Retired && r.state == Persistent && r.Shape() && old(t.Shape())
        && r.Contents() == old(t.Contents())
    {
      hide Zip, Map.IndexedUpTo, Unique, Map.Same, Kind.Lawful, Arena.Kept;
      r := Closed(c.e, t);
      maps := maps - {t} + {r};
      forall x | x in old(maps) && x != t
        ensures x.Unwritten()
      {
        assert (this as object) !in old(x.Repr()) && t in old(t.Repr()) && t !in old(x.Repr());
      }
      assert (this as object) !in r.Repr() && r.Valid(c.e);
      hide Map.Valid;
      Apart(t, r);
      Settles(t, r);
    }
  }
}
