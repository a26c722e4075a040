// The open-addressed slot table of a native map: linear probing over a table
// that is never full, and its agreement with the plain scan.
module SlotTable {
  import opened AssocList

  const MIN_LENGTH: nat := 16
  const MIN_SLOTS: nat := 32
  const MAX_ENTRIES: nat := 0x40000000

  // ---- positions ----------------------------------------------------------

  // hash & (slots - 1), the table size being a power of two.
  function Home(hash: nat, n: nat): (p: nat)
    requires n > 0
    ensures p < n
  {
    hash % n
  }

  // The slot d steps after h, around the table.
  function At(h: nat, d: nat, n: nat): (p: nat)
    requires h < n && d < n
    ensures p < n
  {
    if h + d < n then h + d else h + d - n
  }

  // How many steps after h slot p comes.
  function Dist(h: nat, p: nat, n: nat): (d: nat)
    requires h < n && p < n
    ensures d < n && At(h, d, n) == p
  {
    if p >= h then p - h else p - h + n
  }

  // ---- tables -------------------------------------------------------------

  // The number of slots in use.
  function Filled(slots: seq<int>): (f: nat)
    ensures f <= |slots|
  {
    if slots == [] then 0 else Filled(slots[..|slots| - 1]) + (if slots[|slots| - 1] != 0 then 1 else 0)
  }

  // A slot holds 0 or the number of an entry plus one; every entry sits in some
  // slot, and no empty slot separates it from its home.
  ghost predicate Linked<K(!new)>(e: Equality<K>, slots: seq<int>, ks: seq<K>) {
    && |slots| > 0
    && (forall p | 0 <= p < |slots| :: 0 <= slots[p] <= |ks|)
    && (forall i: nat | i < |ks| :: Reachable(e, slots, ks, i))
  }

  ghost predicate Reachable<K(!new)>(e: Equality<K>, slots: seq<int>, ks: seq<K>, i: nat)
    requires |slots| > 0 && i < |ks|
  {
    exists p: nat :: p < |slots| && slots[p] == i + 1 && NoGap(slots, Home(e.hash(ks[i]), |slots|), p)
  }

  ghost predicate NoGap(slots: seq<int>, h: nat, p: nat)
    requires h < |slots| && p < |slots|
  {
    forall d: nat | d < Dist(h, p, |slots|) :: slots[At(h, d, |slots|)] != 0
  }

  // The index of a map: a linked table over hashable keys, at most three
  // quarters full.
  ghost predicate IndexOk<K(!new)>(e: Equality<K>, slots: seq<int>, ks: seq<K>) {
    && Linked(e, slots, ks)
    && Filled(slots) == |ks|
    && |ks| * 4 <= |slots| * 3
    && (forall i | 0 <= i < |ks| :: e.hashable(ks[i]))
  }

  lemma {:induction false} FilledUpdate(slots: seq<int>, p: nat, x: int)
    requires p < |slots| && slots[p] == 0 && x != 0
    ensures Filled(slots[p := x]) == Filled(slots) + 1
  {
    var n := |slots| - 1;
    if p == n {
      assert slots[p := x][..n] == slots[..n];
    } else {
      assert slots[p := x][..n] == slots[..n][p := x];
      FilledUpdate(slots[..n], p, x);
    }
  }

  // A table with room has an empty slot.
  lemma {:induction false} EmptySlot(slots: seq<int>) returns (p: nat)
    requires Filled(slots) < |slots|
    ensures p < |slots| && slots[p] == 0
  {
    var n := |slots| - 1;
    if slots[n] == 0 {
      p := n;
    } else {
      p := EmptySlot(slots[..n]);
    }
  }

  lemma {:induction false} FilledOfZeros(slots: seq<int>)
    requires forall p | 0 <= p < |slots| :: slots[p] == 0
    ensures Filled(slots) == 0
  {
    if slots != [] { FilledOfZeros(slots[..|slots| - 1]); }
  }

  // ---- the probe walk -----------------------------------------------------

  // The first step from h, no earlier than d, at which a slot is empty.
  lemma FirstEmpty(slots: seq<int>, h: nat) returns (d: nat)
    requires h < |slots| && Filled(slots) < |slots|
    ensures d < |slots| && slots[At(h, d, |slots|)] == 0
    ensures forall c: nat | c < d :: slots[At(h, c, |slots|)] != 0
  {
    var p := EmptySlot(slots);
    var limit := Dist(h, p, |slots|);
    d := 0;
    while slots[At(h, d, |slots|)] != 0
      invariant d <= limit
      invariant forall c: nat | c < d :: slots[At(h, c, |slots|)] != 0
      decreases limit - d
    {
      d := d + 1;
    }
  }

  // An empty slot of a walk does not come before a slot the walk reaches.
  lemma NoGapBefore(slots: seq<int>, h: nat, p: nat, d: nat)
    requires h < |slots| && p < |slots| && d < |slots|
    requires NoGap(slots, h, p) && slots[At(h, d, |slots|)] == 0
    ensures Dist(h, p, |slots|) <= d
  {}

  // What a probe for k from slot h answers: the first filled slot whose key
  // equals k, before the first empty one.
  ghost predicate ProbeAnswer<K(!new)>(e: Equality<K>, slots: seq<int>, ks: seq<K>, h: nat, k: K, found: int)
    requires h < |slots| && forall p | 0 <= p < |slots| :: 0 <= slots[p] <= |ks|
  {
    exists d: nat :: ProbeStops(e, slots, ks, h, k, d, found)
  }

  ghost predicate ProbeStops<K(!new)>(e: Equality<K>, slots: seq<int>, ks: seq<K>, h: nat, k: K, d: nat, found: int)
    requires h < |slots| && forall p | 0 <= p < |slots| :: 0 <= slots[p] <= |ks|
  {
    && d < |slots|
    && (forall c: nat | c < d :: slots[At(h, c, |slots|)] != 0 && !e.eq(ks[slots[At(h, c, |slots|)] - 1], k))
    && (if found < 0 then found == -1 && slots[At(h, d, |slots|)] == 0
        else found < |ks| && slots[At(h, d, |slots|)] == found + 1 && e.eq(ks[found], k))
  }

  // The index answers exactly what the plain scan answers.
  lemma ProbeIsScan<K(!new)>(e: Equality<K>, slots: seq<int>, ks: seq<K>, k: K, found: int)
    requires e.Lawful() && Unique(e, ks) && Linked(e, slots, ks) && e.hashable(k)
    requires forall i | 0 <= i < |ks| :: e.hashable(ks[i])
    requires ProbeAnswer(e, slots, ks, Home(e.hash(k), |slots|), k, found)
    ensures found == Scan(e, ks, k)
  {
    hide Equality.Lawful, Unique, Scan;
    var n := |slots|;
    var h := Home(e.hash(k), n);
    var d: nat :| ProbeStops(e, slots, ks, h, k, d, found);
    if found >= 0 {
      MatchIsScan(e, ks, k, found);
    } else {
      var i := Scan(e, ks, k);
      if i >= 0 {
        MissedEntry(e, slots, ks, k, i, h, d);
        Met(e, slots, ks, k, i, h, d);
      }
    }
  }

  // An entry equal to k is not passed over.
  lemma Met<K(!new)>(e: Equality<K>, slots: seq<int>, ks: seq<K>, k: K, i: nat, h: nat, d: nat)
    requires h < |slots| && (forall p | 0 <= p < |slots| :: 0 <= slots[p] <= |ks|)
    requires i < |ks| && e.eq(ks[i], k) && exists c: nat :: c < d && d < |slots| && slots[At(h, c, |slots|)] == i + 1
    ensures !ProbeStops(e, slots, ks, h, k, d, -1)
  {}

  // An entry equal to k cannot lie beyond the first empty slot of k's walk.
  lemma MissedEntry<K(!new)>(e: Equality<K>, slots: seq<int>, ks: seq<K>, k: K, i: nat, h: nat, d: nat)
    requires e.Lawful() && Linked(e, slots, ks) && i < |ks| && e.eq(ks[i], k) && e.hashable(k) && e.hashable(ks[i])
    requires h == Home(e.hash(k), |slots|) && d < |slots|
    requires slots[At(h, d, |slots|)] == 0
    ensures exists c: nat :: c < d && slots[At(h, c, |slots|)] == i + 1
  {
    var n := |slots|;
    assert Reachable(e, slots, ks, i);
    var p: nat :| p < n && slots[p] == i + 1 && NoGap(slots, Home(e.hash(ks[i]), n), p);
    var c := Dist(h, p, n);
    assert At(h, c, n) == p;
    NoGapBefore(slots, h, p, d);
  }

  // The first d steps of the walk meet other keys only.
  ghost predicate Passed<K(!new)>(e: Equality<K>, slots: seq<int>, ks: seq<K>, h: nat, k: K, d: nat)
    requires h < |slots| && d < |slots| && forall p | 0 <= p < |slots| :: 0 <= slots[p] <= |ks|
  {
    forall c: nat | c < d :: slots[At(h, c, |slots|)] != 0 && !e.eq(ks[slots[At(h, c, |slots|)] - 1], k)
  }

  lemma PassedNext<K(!new)>(e: Equality<K>, slots: seq<int>, ks: seq<K>, h: nat, k: K, d: nat, limit: nat)
    requires h < |slots| && d <= limit < |slots| && forall p | 0 <= p < |slots| :: 0 <= slots[p] <= |ks|
    requires Passed(e, slots, ks, h, k, d) && slots[At(h, limit, |slots|)] == 0
    requires slots[At(h, d, |slots|)] != 0 && !e.eq(ks[slots[At(h, d, |slots|)] - 1], k)
    ensures d < limit && Passed(e, slots, ks, h, k, d + 1)
    ensures At(h, d + 1, |slots|) == if At(h, d, |slots|) + 1 < |slots| then At(h, d, |slots|) + 1 else 0
  {}

  lemma PassedStops<K(!new)>(e: Equality<K>, slots: seq<int>, ks: seq<K>, h: nat, k: K, d: nat, found: int)
    requires h < |slots| && d < |slots| && forall p | 0 <= p < |slots| :: 0 <= slots[p] <= |ks|
    requires Passed(e, slots, ks, h, k, d)
    requires if found < 0 then found == -1 && slots[At(h, d, |slots|)] == 0
      else found < |ks| && slots[At(h, d, |slots|)] == found + 1 && e.eq(ks[found], k)
    ensures ProbeAnswer(e, slots, ks, h, k, found)
  {
    assert ProbeStops(e, slots, ks, h, k, d, found);
  }

  lemma IndexParts<K(!new)>(e: Equality<K>, slots: seq<int>, ks: seq<K>)
    requires IndexOk(e, slots, ks)
    ensures |slots| > 0 && Filled(slots) < |slots| && Linked(e, slots, ks)
    ensures forall p | 0 <= p < |slots| :: 0 <= slots[p] <= |ks|
    ensures forall i | 0 <= i < |ks| :: e.hashable(ks[i])
  {
    hide Reachable;
  }

  // Looking up a key in the slots, as the probe loop does.
  method Lookup<K(!new)>(e: Equality<K>, slots: array<int>, keys: array<K>, length: nat, k: K) returns (found: int)
    requires length <= keys.Length && slots.Length > 0 && e.hashable(k)
    requires IndexOk(e, slots[..], keys[..length])
    requires e.Lawful() && Unique(e, keys[..length])
    ensures found == Scan(e, keys[..length], k)
  {
    ghost var table, ks := slots[..], keys[..length];
    ghost var h := Home(e.hash(k), slots.Length);
    var mask := slots.Length;
    var probe := Home(e.hash(k), mask);
    IndexParts(e, table, ks);
    ghost var limit := FirstEmpty(table, h);
    ghost var d := 0;
    assert Passed(e, table, ks, h, k, d) && probe == At(h, d, mask);
    hide *;
    while true
      invariant d <= limit && probe == At(h, d, mask) && Passed(e, table, ks, h, k, d)
      decreases limit - d
    {
      var slot := slots[probe];
      assert slot == table[At(h, d, mask)] && 0 <= slot <= length;
      if slot == 0 {
        found := -1;
        break;
      }
      var index := slot - 1;
      assert keys[index] == ks[index];
      if index < length && e.eq(keys[index], k) {
        found := index;
        break;
      }
      PassedNext(e, table, ks, h, k, d, limit);
      probe := if probe + 1 < mask then probe + 1 else 0;
      d := d + 1;
    }
    PassedStops(e, table, ks, h, k, d, found);
    ProbeIsScan(e, table, ks, k, found);
  }

  // ---- placing ------------------------------------------------------------

  // Filling the first empty slot of a key's walk links the key as the next entry.
  lemma PlaceLinks<K(!new)>(e: Equality<K>, slots: seq<int>, ks: seq<K>, k: K, d: nat)
    requires Linked(e, slots, ks) && d < |slots|
    requires var h := Home(e.hash(k), |slots|);
      slots[At(h, d, |slots|)] == 0 && forall c: nat | c < d :: slots[At(h, c, |slots|)] != 0
    ensures Linked(e, slots[At(Home(e.hash(k), |slots|), d, |slots|) := |ks| + 1], ks + [k])
  {
    var n := |slots|;
    var h := Home(e.hash(k), n);
    var q := At(h, d, n);
    var slots' := slots[q := |ks| + 1];
    forall i: nat | i < |ks| + 1
      ensures Reachable(e, slots', ks + [k], i)
    {
      if i < |ks| {
        assert Reachable(e, slots, ks, i);
        var p: nat :| p < n && slots[p] == i + 1 && NoGap(slots, Home(e.hash(ks[i]), n), p);
        assert slots'[p] == i + 1 && NoGap(slots', Home(e.hash((ks + [k])[i]), n), p);
      } else {
        assert Dist(h, q, n) == d;
        assert slots'[q] == i + 1 && NoGap(slots', Home(e.hash((ks + [k])[i]), n), q);
      }
    }
  }

  // Registers the entry for k as number |ks|, as the place loop does. The
  // caller guarantees room.
  method Place<K(!new)>(e: Equality<K>, slots: array<int>, k: K, entry: nat, ghost ks: seq<K>)
    requires entry == |ks| && slots.Length > 0 && e.hashable(k) && IndexOk(e, slots[..], ks)
    requires (|ks| + 1) * 4 <= slots.Length * 3
    modifies slots
    ensures IndexOk(e, slots[..], ks + [k])
  {
    ghost var before := slots[..];
    ghost var h := Home(e.hash(k), slots.Length);
    var probe := Home(e.hash(k), slots.Length);
    ghost var limit := FirstEmpty(before, h);
    ghost var d := 0;
    while slots[probe] != 0
      invariant d <= limit && probe == At(h, d, slots.Length) && slots[..] == before
      invariant forall c: nat | c < d :: slots[At(h, c, slots.Length)] != 0
      decreases limit - d
    {
      assert before[At(h, limit, slots.Length)] == 0;
      probe := if probe + 1 < slots.Length then probe + 1 else 0;
      d := d + 1;
    }
    PlaceLinks(e, before, ks, k, d);
    FilledUpdate(before, probe, |ks| + 1);
    slots[probe] := entry + 1;
    assert slots[..] == before[probe := |ks| + 1];
  }

  // ---- sizing -------------------------------------------------------------

  ghost predicate PowerOfTwo(n: nat)
  {
    n == 1 || (n > 1 && n % 2 == 0 && PowerOfTwo(n / 2))
  }

  // The smallest allowed table whose three quarters hold `length` entries.
  method SlotCount(length: nat) returns (slots: nat)
    ensures slots >= 32 && slots / 4 * 3 >= length && length * 4 <= slots * 3
    ensures PowerOfTwo(slots)
    ensures slots == 32 || slots / 2 / 4 * 3 < length
  {
    slots := MIN_SLOTS;
    ghost var quarter := 8;
    assert PowerOfTwo(32) by {
      assert PowerOfTwo(1) && PowerOfTwo(2) && PowerOfTwo(4) && PowerOfTwo(8) && PowerOfTwo(16);
    }
    while slots / 4 * 3 < length
      invariant slots == 4 * quarter && quarter >= 8 && PowerOfTwo(slots)
      invariant slots == MIN_SLOTS || slots / 2 / 4 * 3 < length
      decreases length - 3 * quarter
    {
      Doubled(slots, quarter);
      slots := slots * 2;
      quarter := quarter * 2;
    }
  }

  lemma Doubled(slots: nat, quarter: nat)
    requires slots == 4 * quarter && slots > 0 && PowerOfTwo(slots)
    ensures PowerOfTwo(slots * 2) && slots * 2 / 2 == slots && slots / 4 == quarter
  {
    assert slots * 2 / 2 == slots;
  }
}
