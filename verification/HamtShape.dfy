// The canonical shape of tries over separated keys: kept by every operation,
// determined by the contents, and restored by removing what was added.
module HamtShape {
  import opened Bits32
  import opened Options
  import opened Seqs
  import opened Hamt
  import opened HamtRefinement
  import opened HamtMap
  import opened HamtRuns

  // Two entries of different hashes, so at least two leaf keys.
  ghost predicate TwoHashes<K(!new), V>(keys: Keys<K>, es: seq<(K, V)>) {
    exists d, e :: d in es && e in es && keys.hash(d.0) != keys.hash(e.0)
  }

  // Buckets hold one hash, and every bitmap node tells two hashes apart.
  ghost predicate Canon<K(!new), V>(keys: Keys<K>, node: Node<K, V>)
    decreases node
  {
    match node
    case Null => true
    case Entry(_, _) => true
    case Collision(tag, bucket) => forall e | e in bucket :: keys.hash(e.0) == tag
    case Bitmap(_, slots) =>
      && TwoHashes(keys, EntriesOf(slots))
      && (forall i | 0 <= i < |slots| :: Canon(keys, slots[i]))
  }

  ghost predicate AllSeparated<K(!new), V>(keys: Keys<K>, es: seq<(K, V)>, k: K) {
    forall e | e in es :: Separated(keys, e.0, k)
  }

  // ---- assoc --------------------------------------------------------------

  lemma StoredTwoHashes<K(!new), V>(keys: Keys<K>, es: seq<(K, V)>, es': seq<(K, V)>, k: K, v: V, added: nat, i: nat)
    requires keys.Lawful() && Stored(keys, es, es', k, v, added, i) && TwoHashes(keys, es)
    ensures TwoHashes(keys, es')
  {
    var d, e :| d in es && e in es && keys.hash(d.0) != keys.hash(e.0);
    var d' := Survivor(keys, es, es', k, v, added, i, d);
    var e' := Survivor(keys, es, es', k, v, added, i, e);
  }

  // Every old entry has a new entry of the same hash.
  lemma Survivor<K(!new), V>(keys: Keys<K>, es: seq<(K, V)>, es': seq<(K, V)>, k: K, v: V, added: nat, i: nat,
        e: (K, V)) returns (e': (K, V))
    requires keys.Lawful() && Stored(keys, es, es', k, v, added, i) && e in es
    ensures e' in es' && keys.hash(e'.0) == keys.hash(e.0)
  {
    var j :| 0 <= j < |es| && es[j] == e;
    if added == 0 {
      e' := es'[j];
    } else {
      e' := es'[if j < i then j else j + 1];
    }
  }

  lemma StoredNewHash<K(!new), V>(keys: Keys<K>, es: seq<(K, V)>, es': seq<(K, V)>, k: K, v: V, added: nat, i: nat,
        e: (K, V))
    requires keys.Lawful() && Stored(keys, es, es', k, v, added, i) && e in es && keys.hash(e.0) != keys.hash(k)
    ensures TwoHashes(keys, es')
  {
    var e' := Survivor(keys, es, es', k, v, added, i, e);
    assert es'[i] == (k, v) && es'[i] in es';
  }

  lemma {:induction false} MergeCanon<K(!new), V>(keys: Keys<K>, k1: K, v1: V, k2: K, v2: V, shift: nat)
    requires keys.Lawful() && Level(shift) && !keys.equiv(k1, k2) && Separated(keys, k1, k2)
    requires Agree(keys.hash(k1), keys.hash(k2), shift)
    ensures Canon(keys, MergeEntries(k1, v1, keys.hash(k1), k2, v2, keys.hash(k2), shift))
    decreases 35 - shift
  {
    hide *;
    var h1, h2 := keys.hash(k1), keys.hash(k2);
    SharedLow30When(h1, h2, shift);
    SeparatedHashes(keys, k1, k2);
    if h1 == h2 {
      MergedPair(k1, v1, h1, k2, v2, h2, shift);
      PairCanon(keys, h1, k1, v1, k2, v2);
    } else {
      var i := MergeStores(keys, k1, v1, k2, v2, shift);
      MergeUnfold(k1, v1, h1, k2, v2, h2, shift);
      StoredNewHash(keys, [(k1, v1)], Entries(MergeEntries(k1, v1, h1, k2, v2, h2, shift)), k2, v2, 1, i, (k1, v1));
      AgreeStep(h1, h2, shift);
      LeavesCanon(keys, k1, v1, k2, v2);
      if FragAt(h1, shift) == FragAt(h2, shift) {
        MergeCanon(keys, k1, v1, k2, v2, shift + 5);
        OneCanon(keys, FragAt(h1, shift), MergeEntries(k1, v1, h1, k2, v2, h2, shift + 5));
      } else {
        ForkedCanon(keys, FragAt(h1, shift), Entry(k1, v1), FragAt(h2, shift), Entry(k2, v2));
      }
    }
  }

  lemma SeparatedHashes<K(!new)>(keys: Keys<K>, a: K, b: K)
    requires Separated(keys, a, b)
    ensures SameLow30(keys.hash(a), keys.hash(b)) ==> keys.hash(a) == keys.hash(b)
  {
    hide SameLow30;
  }

  lemma PairCanon<K(!new), V>(keys: Keys<K>, tag: bv32, k1: K, v1: V, k2: K, v2: V)
    requires keys.hash(k1) == tag && keys.hash(k2) == tag
    ensures Canon(keys, Collision(tag, [(k1, v1), (k2, v2)]))
  {}

  lemma LeavesCanon<K(!new), V>(keys: Keys<K>, k1: K, v1: V, k2: K, v2: V)
    ensures Canon(keys, Entry(k1, v1)) && Canon(keys, Entry(k2, v2)) && (k1, v1) in [(k1, v1)]
  {}

  lemma OneCanon<K(!new), V>(keys: Keys<K>, f: Frag, child: Node<K, V>)
    requires Canon(keys, child) && TwoHashes(keys, Entries(Bitmap(Bit(f), [child])))
    ensures Canon(keys, Bitmap(Bit(f), [child]))
  {
    hide Bit, TwoHashes;
  }

  lemma ForkedCanon<K(!new), V>(keys: Keys<K>, f: Frag, m: Node<K, V>, g: Frag, n: Node<K, V>)
    requires Canon(keys, m) && Canon(keys, n) && TwoHashes(keys, Entries(Forked(f, m, g, n)))
    ensures Canon(keys, Forked(f, m, g, n))
  {
    hide Bit, WithBit, TwoHashes;
  }

  lemma SharedLow30When(g: bv32, h: bv32, shift: nat)
    requires Level(shift) && Agree(g, h, shift)
    ensures shift >= 30 ==> SameLow30(g, h)
  {
    hide FragAt, SameLow30;
    if shift >= 30 {
      AgreeShorter(g, h, 30, shift);
      AgreeIsLow30(g, h);
    }
  }

  lemma {:induction false} AssocCanon<K(!new), V>(keys: Keys<K>, node: Node<K, V>, k: K, v: V, shift: nat)
    requires keys.Lawful() && Level(shift) && WF(keys, node, shift) && OnPath(keys, node, keys.hash(k), shift)
    requires Canon(keys, node) && AllSeparated(keys, Entries(node), k)
    ensures Canon(keys, NodeAssoc(keys, node, k, v, keys.hash(k), shift).0)
    decreases 35 - shift
  {
    hide FragAt, Has, Rank, Bit, WithBit, WithoutBit, PopcountWord, SameLow30, Agree, Separated;
    match node
    case Null =>
    case Entry(nk, nv) =>
      if !keys.equiv(nk, k) {
        assert (nk, nv) in Entries(node);
        MergeCanon(keys, nk, nv, k, v, shift);
      }
    case Collision(tag, bucket) =>
      if keys.hash(k) == tag {
        OwnBucketCanon(keys, tag, bucket, k, v);
      } else {
        OtherTagCanon(keys, tag, bucket, k, v, shift);
      }
    case Bitmap(bitmap, slots) =>
      AssocBitmapCanon(keys, bitmap, slots, k, v, shift);
  }

  lemma OwnBucketCanon<K(!new), V>(keys: Keys<K>, tag: bv32, bucket: seq<(K, V)>, k: K, v: V)
    requires Canon(keys, Collision(tag, bucket)) && keys.hash(k) == tag
    ensures var i := FindIndex(keys, bucket, k);
      Canon(keys, Collision(tag, if i >= 0 then bucket[i := (k, v)] else bucket + [(k, v)]))
  {
    var i := FindIndex(keys, bucket, k);
    var b := if i >= 0 then bucket[i := (k, v)] else bucket + [(k, v)];
    forall e | e in b
      ensures keys.hash(e.0) == tag
    {
      if e != (k, v) { assert e in bucket; }
    }
  }

  lemma {:induction false} OtherTagCanon<K(!new), V>(keys: Keys<K>, tag: bv32, bucket: seq<(K, V)>, k: K, v: V,
        shift: nat)
    requires keys.Lawful() && Level(shift) && WF(keys, Collision(tag, bucket), shift)
    requires OnPath(keys, Collision(tag, bucket), keys.hash(k), shift)
    requires Canon(keys, Collision(tag, bucket)) && AllSeparated(keys, bucket, k) && keys.hash(k) != tag
    ensures Canon(keys, NodeAssoc(keys, Collision(tag, bucket), k, v, keys.hash(k), shift).0)
    decreases 35 - shift, 0
  {
    hide *;
    var node := Collision(tag, bucket);
    var h := keys.hash(k);
    SeparatedBucket(keys, tag, bucket, k, shift);
    var i := AssocStores(keys, node, k, v, shift);
    BucketBelow(keys, tag, bucket, k, v, h, shift);
    var (n, added) := NodeAssoc(keys, node, k, v, h, shift);
    var e := LabelHeld(keys, tag, bucket);
    StoredNewHash(keys, bucket, Entries(n), k, v, added, i, e);
    var f, nf := FragAt(tag, shift), FragAt(h, shift);
    if f == nf {
      OtherTagCanon(keys, tag, bucket, k, v, shift + 5);
      OneCanon(keys, f, NodeAssoc(keys, node, k, v, h, shift + 5).0);
    } else {
      LeavesCanon(keys, k, v, k, v);
      ForkedCanon(keys, f, node, nf, Entry(k, v));
    }
  }

  lemma SeparatedBucket<K(!new), V>(keys: Keys<K>, tag: bv32, bucket: seq<(K, V)>, k: K, shift: nat)
    requires Level(shift) && WF(keys, Collision(tag, bucket), shift) && AllSeparated(keys, bucket, k)
    ensures !Trapped(keys, Collision(tag, bucket), keys.hash(k), shift)
  {
    hide Separated, BucketOk, FragAt, Has, Rank, Bit;
    SeparatedNotTrapped(keys, Collision(tag, bucket), k, shift);
  }

  lemma SlotsCanon<K(!new), V>(keys: Keys<K>, slots: seq<Node<K, V>>, pos: nat, child: Node<K, V>)
    requires pos <= |slots| && Canon(keys, child)
    requires forall i | 0 <= i < |slots| :: Canon(keys, slots[i])
    ensures forall n | n in slots[..pos] + [child] + slots[pos..] :: Canon(keys, n)
    ensures pos < |slots| ==> forall n | n in slots[pos := child] :: Canon(keys, n)
  {
    hide Canon;
  }

  lemma BitmapCanon<K(!new), V>(keys: Keys<K>, n: Node<K, V>)
    requires n.Bitmap? && TwoHashes(keys, Entries(n)) && forall c | c in n.slots :: Canon(keys, c)
    ensures Canon(keys, n)
  {
    hide TwoHashes;
    assert forall i | 0 <= i < |n.slots| :: n.slots[i] in n.slots;
  }

  lemma {:induction false} AssocBitmapCanon<K(!new), V>(keys: Keys<K>, bitmap: bv32, slots: seq<Node<K, V>>, k: K,
        v: V, shift: nat)
    requires keys.Lawful() && Level(shift) && WF(keys, Bitmap(bitmap, slots), shift)
    requires OnPath(keys, Bitmap(bitmap, slots), keys.hash(k), shift)
    requires Canon(keys, Bitmap(bitmap, slots)) && AllSeparated(keys, EntriesOf(slots), k)
    ensures Canon(keys, NodeAssoc(keys, Bitmap(bitmap, slots), k, v, keys.hash(k), shift).0)
    decreases 35 - shift, 0
  {
    hide *;
    var node := Bitmap(bitmap, slots);
    var h := keys.hash(k);
    BitmapSeparated(keys, bitmap, slots, k, shift);
    var i := AssocStores(keys, node, k, v, shift);
    var (n, added) := NodeAssoc(keys, node, k, v, h, shift);
    StoredTwoHashes(keys, EntriesOf(slots), Entries(n), k, v, added, i);
    var f := FragAt(h, shift);
    if Has(bitmap, f) {
      ChildOnPath(keys, bitmap, slots, f, h, shift);
      AssocIntoSlot(keys, bitmap, slots, k, v, h, shift, f);
      ChildSeparated(keys, slots, Rank(bitmap, f), k);
      AssocCanon(keys, slots[Rank(bitmap, f)], k, v, shift + 5);
      SlotCanon(keys, bitmap, slots, Rank(bitmap, f), NodeAssoc(keys, slots[Rank(bitmap, f)], k, v, h, shift + 5).0);
    } else {
      AssocNewSlot(keys, bitmap, slots, k, v, h, shift, f);
      WidenedCanon(keys, bitmap, slots, f, Rank(bitmap, f), k, v);
    }
  }

  lemma BitmapSeparated<K(!new), V>(keys: Keys<K>, bitmap: bv32, slots: seq<Node<K, V>>, k: K, shift: nat)
    requires Level(shift) && WF(keys, Bitmap(bitmap, slots), shift)
    requires Canon(keys, Bitmap(bitmap, slots)) && AllSeparated(keys, EntriesOf(slots), k)
    ensures shift <= 30 && !Trapped(keys, Bitmap(bitmap, slots), keys.hash(k), shift)
    ensures TwoHashes(keys, EntriesOf(slots)) && Entries(Bitmap(bitmap, slots)) == EntriesOf(slots)
    ensures forall i | 0 <= i < |slots| :: Canon(keys, slots[i])
  {
    hide Separated, TwoHashes, FragAt, Has, Rank, Bit;
    SeparatedNotTrapped(keys, Bitmap(bitmap, slots), k, shift);
  }

  lemma ChildSeparated<K(!new), V>(keys: Keys<K>, slots: seq<Node<K, V>>, pos: nat, k: K)
    requires pos < |slots| && AllSeparated(keys, EntriesOf(slots), k)
    ensures AllSeparated(keys, Entries(slots[pos]), k)
  {
    hide Separated;
    EntryOfSlot(slots, pos);
  }

  lemma SlotCanon<K(!new), V>(keys: Keys<K>, bitmap: bv32, slots: seq<Node<K, V>>, pos: nat, child: Node<K, V>)
    requires pos < |slots| && Canon(keys, child)
    requires forall i | 0 <= i < |slots| :: Canon(keys, slots[i])
    requires TwoHashes(keys, Entries(Bitmap(bitmap, slots[pos := child])))
    ensures Canon(keys, Bitmap(bitmap, slots[pos := child]))
  {
    hide TwoHashes, Canon;
    SlotsCanon(keys, slots, pos, child);
    BitmapCanon(keys, Bitmap(bitmap, slots[pos := child]));
  }

  lemma WidenedCanon<K(!new), V>(keys: Keys<K>, bitmap: bv32, slots: seq<Node<K, V>>, f: Frag, pos: nat, k: K, v: V)
    requires pos <= |slots| && forall i | 0 <= i < |slots| :: Canon(keys, slots[i])
    requires TwoHashes(keys, Entries(Widened(bitmap, f, slots, pos, Entry(k, v))))
    ensures Canon(keys, Widened(bitmap, f, slots, pos, Entry(k, v)))
  {
    hide TwoHashes, Canon, WithBit;
    LeavesCanon(keys, k, v, k, v);
    SlotsCanon(keys, slots, pos, Entry(k, v));
    BitmapCanon(keys, Widened(bitmap, f, slots, pos, Entry(k, v)));
  }

  // ---- dissoc -------------------------------------------------------------

  // Two slots tell two hashes apart.
  lemma TwoSlotsTwoHashes<K(!new), V>(keys: Keys<K>, bitmap: bv32, slots: seq<Node<K, V>>, shift: nat)
    requires Level(shift) && WF(keys, Bitmap(bitmap, slots), shift) && |slots| >= 2
    ensures TwoHashes(keys, EntriesOf(slots))
  {
    hide FragAt, Has, Rank, Bit, WithBit, WithoutBit;
    var f := RankOnto(bitmap, 32, 0);
    var g := RankOnto(bitmap, 32, 1);
    NonEmpty(keys, slots[0], shift + 5);
    NonEmpty(keys, slots[1], shift + 5);
    EntryOfSlot(slots, 0);
    EntryOfSlot(slots, 1);
    var d, e := Entries(slots[0])[0], Entries(slots[1])[0];
    assert Under(keys, Entries(slots[0]), shift, f) && Under(keys, Entries(slots[1]), shift, g);
    assert d in Entries(slots[0]) && e in Entries(slots[1]);
  }

  lemma SettledCanon<K(!new), V>(keys: Keys<K>, bits: bv32, rest: seq<Node<K, V>>, shift: nat)
    requires Level(shift) && (|rest| == 0 || WF(keys, Bitmap(bits, rest), shift))
    requires forall i | 0 <= i < |rest| :: Canon(keys, rest[i])
    ensures Canon(keys, Settled(bits, rest))
  {
    hide FragAt, Has, Rank, Bit, WithBit, WithoutBit;
    if |rest| >= 2 {
      TwoSlotsTwoHashes(keys, bits, rest, shift);
    } else if |rest| == 1 {
      EntriesOne(rest[0]);
      assert rest == [rest[0]];
    }
  }

  lemma {:induction false} DissocCanon<K(!new), V>(keys: Keys<K>, node: Node<K, V>, k: K, shift: nat)
    requires keys.Lawful() && Level(shift) && WF(keys, node, shift) && Canon(keys, node)
    ensures Canon(keys, NodeDissoc(keys, node, k, keys.hash(k), shift).0)
    decreases 35 - shift
  {
    hide FragAt, Has, Rank, Bit, WithBit, WithoutBit, PopcountWord, SameLow30;
    match node
    case Null =>
    case Entry(_, _) =>
    case Collision(tag, bucket) => DissocBucketCanon(keys, tag, bucket, k, shift);
    case Bitmap(bitmap, slots) =>
      if Has(bitmap, FragAt(keys.hash(k), shift)) { DissocSlotCanon(keys, bitmap, slots, k, shift); }
  }

  lemma DissocBucketCanon<K(!new), V>(keys: Keys<K>, tag: bv32, bucket: seq<(K, V)>, k: K, shift: nat)
    requires keys.Lawful() && Level(shift) && WF(keys, Collision(tag, bucket), shift)
      && Canon(keys, Collision(tag, bucket))
    ensures Canon(keys, NodeDissoc(keys, Collision(tag, bucket), k, keys.hash(k), shift).0)
  {
    hide FragAt, Has, Rank, Bit, WithBit, WithoutBit, PopcountWord, SameLow30;
    var i := FindIndex(keys, bucket, k);
    if i >= 0 { assert forall e | e in bucket[..i] + bucket[i + 1..] :: e in bucket; }
  }

  lemma {:induction false} DissocSlotCanon<K(!new), V>(keys: Keys<K>, bitmap: bv32, slots: seq<Node<K, V>>, k: K,
        shift: nat)
    requires keys.Lawful() && Level(shift) && WF(keys, Bitmap(bitmap, slots), shift)
      && Canon(keys, Bitmap(bitmap, slots))
    requires Has(bitmap, FragAt(keys.hash(k), shift))
    ensures Canon(keys, NodeDissoc(keys, Bitmap(bitmap, slots), k, keys.hash(k), shift).0)
    decreases 35 - shift, 0
  {
    hide FragAt, Has, Rank, Bit, WithBit, WithoutBit, PopcountWord, NodeDissoc, Settled;
    var h := keys.hash(k);
    var f := FragAt(h, shift);
    ChildOk(keys, bitmap, slots, f, shift);
    DissocUnfold(keys, bitmap, slots, k, h, shift, f);
    var pos := Rank(bitmap, f);
    var (child, removed) := NodeDissoc(keys, slots[pos], k, h, shift + 5);
    if removed != 0 {
      var j := DissocRemoves(keys, slots[pos], k, shift + 5);
      DissocCanon(keys, slots[pos], k, shift + 5);
      RestShape(keys, bitmap, slots, f, child, k, j, shift);
      SettledCanon(keys, if child.Null? then WithoutBit(bitmap, f) else bitmap, RestOfSlots(slots, pos, child), shift);
    }
  }

  // ---- contents determine shape -------------------------------------------

  // A symmetric way to compare keys, as fine as key equality or finer: key
  // equality itself, or being the very same key.
  ghost predicate Compares<K(!new)>(keys: Keys<K>, rel: (K, K) -> bool) {
    forall x, y | rel(x, y) :: keys.equiv(x, y) && rel(y, x)
  }

  ghost predicate Match<K, V>(rel: (K, K) -> bool, e: (K, V), d: (K, V)) {
    rel(e.0, d.0) && e.1 == d.1
  }

  ghost predicate Covers<K, V>(rel: (K, K) -> bool, es: seq<(K, V)>, ds: seq<(K, V)>) {
    forall e | e in es :: exists d :: d in ds && Match(rel, e, d)
  }

  ghost predicate SameEntries<K, V>(rel: (K, K) -> bool, es: seq<(K, V)>, ds: seq<(K, V)>) {
    Covers(rel, es, ds) && Covers(rel, ds, es)
  }

  // es are the entries ds in the order p.
  ghost predicate Permutes<K, V>(rel: (K, K) -> bool, es: seq<(K, V)>, ds: seq<(K, V)>, p: seq<nat>) {
    && |p| == |es| == |ds|
    && (forall i | 0 <= i < |p| :: p[i] < |ds| && Match(rel, es[i], ds[p[i]]))
    && (forall i, j | 0 <= i < j < |p| :: p[i] != p[j])
  }

  // Equal up to the order of entries inside buckets, keys compared by rel.
  ghost predicate SameShape<K, V>(rel: (K, K) -> bool, a: Node<K, V>, b: Node<K, V>)
    decreases a
  {
    match a
    case Null => b.Null?
    case Entry(_, _) => b.Entry? && Match(rel, (a.k, a.v), (b.k, b.v))
    case Collision(tag, bucket) => b.Collision? && b.h == tag && exists p :: Permutes(rel, bucket, b.bucket, p)
    case Bitmap(bitmap, slots) =>
      && b.Bitmap? && b.bitmap == bitmap && |b.slots| == |slots|
      && (forall i | 0 <= i < |slots| :: SameShape(rel, slots[i], b.slots[i]))
  }

  // A leaf holds one hash.
  lemma LeafOneHash<K(!new), V>(keys: Keys<K>, node: Node<K, V>, shift: nat)
    requires WF(keys, node, shift) && Canon(keys, node) && !node.Bitmap?
    ensures !TwoHashes(keys, Entries(node))
  {
    hide SameLow30;
  }

  lemma SameTwoHashes<K(!new), V>(keys: Keys<K>, rel: (K, K) -> bool, es: seq<(K, V)>, ds: seq<(K, V)>)
    requires keys.Lawful() && Compares(keys, rel) && Covers(rel, es, ds) && TwoHashes(keys, es)
    ensures TwoHashes(keys, ds)
  {
    var e, e' :| e in es && e' in es && keys.hash(e.0) != keys.hash(e'.0);
    var d := Matching(keys, rel, es, ds, e);
    var d' := Matching(keys, rel, es, ds, e');
  }

  lemma Matching<K(!new), V>(keys: Keys<K>, rel: (K, K) -> bool, es: seq<(K, V)>, ds: seq<(K, V)>, e: (K, V))
        returns (d: (K, V))
    requires keys.Lawful() && Compares(keys, rel) && Covers(rel, es, ds) && e in es
    ensures d in ds && Match(rel, e, d) && keys.equiv(e.0, d.0) && keys.hash(d.0) == keys.hash(e.0)
  {
    d :| d in ds && Match(rel, e, d);
  }

  // Where the entries of es with distinct keys match those of ds.
  lemma {:induction false} Places<K(!new), V>(keys: Keys<K>, rel: (K, K) -> bool, es: seq<(K, V)>, ds: seq<(K, V)>)
        returns (p: seq<nat>)
    requires keys.Lawful() && Compares(keys, rel) && Covers(rel, es, ds) && Distinct(keys, es)
    ensures |p| == |es| <= |ds|
    ensures forall i | 0 <= i < |p| :: p[i] < |ds| && Match(rel, es[i], ds[p[i]])
    ensures forall i, j | 0 <= i < j < |p| :: p[i] != p[j]
  {
    p := [];
    for i := 0 to |es|
      invariant |p| == i
      invariant forall j | 0 <= j < i :: p[j] < |ds| && Match(rel, es[j], ds[p[j]])
    {
      assert es[i] in es;
      var d := Matching(keys, rel, es, ds, es[i]);
      var j: nat :| j < |ds| && ds[j] == d;
      p := p + [j];
    }
    assert forall i, j | 0 <= i < j < |p| :: p[i] != p[j] by {
      forall i, j | 0 <= i < j < |p|
        ensures !Match(rel, es[j], ds[p[i]])
      {
        OneMatch(keys, rel, es, ds[p[i]], i, j);
      }
    }
    FewPlaces(p, |ds|);
  }

  // No two entries with distinct keys match one entry.
  lemma OneMatch<K(!new), V>(keys: Keys<K>, rel: (K, K) -> bool, es: seq<(K, V)>, d: (K, V), i: nat, j: nat)
    requires keys.Lawful() && Compares(keys, rel) && Distinct(keys, es) && i < j < |es| && Match(rel, es[i], d)
    ensures !Match(rel, es[j], d)
  {
    var x, y := es[i].0, es[j].0;
    assert keys.equiv(x, d.0) && !keys.equiv(x, y);
    assert rel(y, d.0) ==> keys.equiv(y, d.0);
  }

  // The same entries with distinct keys are permutations of each other.
  lemma SamePermutes<K(!new), V>(keys: Keys<K>, rel: (K, K) -> bool, es: seq<(K, V)>, ds: seq<(K, V)>)
    requires keys.Lawful() && Compares(keys, rel) && SameEntries(rel, es, ds) && Distinct(keys, es)
      && Distinct(keys, ds)
    ensures exists p :: Permutes(rel, es, ds, p)
  {
    var p := Places(keys, rel, es, ds);
    var q := Places(keys, rel, ds, es);
    assert Permutes(rel, es, ds, p);
  }

  // A bit of the bitmap is set exactly when some entry has that fragment.
  lemma BitHeld<K(!new), V>(keys: Keys<K>, bitmap: bv32, slots: seq<Node<K, V>>, shift: nat, f: Frag)
        returns (e: (K, V))
    requires Level(shift) && WF(keys, Bitmap(bitmap, slots), shift) && Has(bitmap, f)
    ensures e in EntriesOf(slots) && FragAt(keys.hash(e.0), shift) == f
  {
    hide FragAt, Has, Rank, Bit, WithBit, WithoutBit;
    RankGrows(bitmap, f, 32);
    var child := slots[Rank(bitmap, f)];
    NonEmpty(keys, child, shift + 5);
    EntryOfSlot(slots, Rank(bitmap, f));
    e := Entries(child)[0];
    assert e in Entries(child);
    assert Under(keys, Entries(child), shift, f);
  }

  lemma HasFromEntries<K(!new), V>(keys: Keys<K>, rel: (K, K) -> bool, bitmap: bv32, slots: seq<Node<K, V>>,
      bitmap': bv32, slots': seq<Node<K, V>>, shift: nat, f: Frag)
    requires keys.Lawful() && Compares(keys, rel)
    requires Level(shift) && WF(keys, Bitmap(bitmap, slots), shift) && WF(keys, Bitmap(bitmap', slots'), shift)
    requires Covers(rel, EntriesOf(slots), EntriesOf(slots')) && Has(bitmap, f)
    ensures Has(bitmap', f)
  {
    hide FragAt, Has, Rank, Bit, WithBit, WithoutBit, WF;
    var e := BitHeld(keys, bitmap, slots, shift, f);
    var d := Matching(keys, rel, EntriesOf(slots), EntriesOf(slots'), e);
    var g := EntryPlace(keys, bitmap', slots', shift, d);
  }

  lemma BitmapsEqual<K(!new), V>(keys: Keys<K>, rel: (K, K) -> bool, bitmap: bv32, slots: seq<Node<K, V>>,
      bitmap': bv32, slots': seq<Node<K, V>>, shift: nat)
    requires keys.Lawful() && Compares(keys, rel)
    requires Level(shift) && WF(keys, Bitmap(bitmap, slots), shift) && WF(keys, Bitmap(bitmap', slots'), shift)
    requires SameEntries(rel, EntriesOf(slots), EntriesOf(slots'))
    ensures bitmap == bitmap' && |slots| == |slots'|
  {
    assert |slots| == Rank(bitmap, 32) && |slots'| == Rank(bitmap', 32);
    hide FragAt, Has, Rank, Bit, WithBit, WithoutBit, WF, Compares, Covers, Keys.Lawful;
    forall f: Frag
      ensures Has(bitmap, f) == Has(bitmap', f)
    {
      if Has(bitmap, f) { HasFromEntries(keys, rel, bitmap, slots, bitmap', slots', shift, f); }
      if Has(bitmap', f) { HasFromEntries(keys, rel, bitmap', slots', bitmap, slots, shift, f); }
    }
    SameBits(bitmap, bitmap');
  }

  // The entries of one child are covered by the child at the same position.
  lemma ChildCovered<K(!new), V>(keys: Keys<K>, rel: (K, K) -> bool, bitmap: bv32, slots: seq<Node<K, V>>,
      slots': seq<Node<K, V>>, shift: nat, i: nat)
    requires keys.Lawful() && Compares(keys, rel)
    requires Level(shift) && WF(keys, Bitmap(bitmap, slots), shift) && WF(keys, Bitmap(bitmap, slots'), shift)
    requires Covers(rel, EntriesOf(slots), EntriesOf(slots')) && i < |slots| && i < |slots'|
    ensures Covers(rel, Entries(slots[i]), Entries(slots'[i]))
  {
    hide FragAt, Has, Rank, Bit, WithBit, WithoutBit, Compares, Keys.Lawful;
    var f := RankOnto(bitmap, 32, i);
    assert Under(keys, Entries(slots[i]), shift, f);
    EntryOfSlot(slots, i);
    hide WF;
    forall e | e in Entries(slots[i])
      ensures exists d :: d in Entries(slots'[i]) && Match(rel, e, d)
    {
      var d := Matching(keys, rel, EntriesOf(slots), EntriesOf(slots'), e);
      var g := EntryPlace(keys, bitmap, slots', shift, d);
    }
  }

  // Two canonical tries with the same entries are equal up to bucket order.
  lemma {:induction false} ContentsDetermineShape<K(!new), V>(keys: Keys<K>, rel: (K, K) -> bool, a: Node<K, V>,
        b: Node<K, V>, shift: nat)
    requires keys.Lawful() && Compares(keys, rel)
    requires Level(shift) && WF(keys, a, shift) && WF(keys, b, shift)
    requires Canon(keys, a) && Canon(keys, b) && SameEntries(rel, Entries(a), Entries(b))
    ensures SameShape(rel, a, b)
    decreases a
  {
    hide FragAt, Has, Rank, Bit, WithBit, WithoutBit, SameLow30, Keys.Lawful, Compares, Covers;
    if a.Bitmap? || b.Bitmap? {
      if a.Bitmap? {
        SameTwoHashes(keys, rel, Entries(a), Entries(b));
        if !b.Bitmap? { LeafOneHash(keys, b, shift); }
      } else {
        SameTwoHashes(keys, rel, Entries(b), Entries(a));
        LeafOneHash(keys, a, shift);
      }
      ChildrenDetermineShape(keys, rel, a.bitmap, a.slots, b.bitmap, b.slots, shift);
    } else {
      LeavesDetermineShape(keys, rel, a, b, shift);
    }
  }

  lemma LeavesDetermineShape<K(!new), V>(keys: Keys<K>, rel: (K, K) -> bool, a: Node<K, V>, b: Node<K, V>, shift: nat)
    requires keys.Lawful() && Compares(keys, rel)
    requires WF(keys, a, shift) && WF(keys, b, shift) && !a.Bitmap? && !b.Bitmap?
    requires Canon(keys, a) && Canon(keys, b) && SameEntries(rel, Entries(a), Entries(b))
    ensures SameShape(rel, a, b)
  {
    LeafSize(keys, a, shift);
    LeafSize(keys, b, shift);
    hide *;
    var es, ds := Entries(a), Entries(b);
    EachCovered(rel, es, ds);
    SamePermutes(keys, rel, es, ds);
    var p :| Permutes(rel, es, ds, p);
    LeafSameShape(keys, rel, a, b, p);
  }

  lemma EachCovered<K, V>(rel: (K, K) -> bool, es: seq<(K, V)>, ds: seq<(K, V)>)
    requires SameEntries(rel, es, ds)
    ensures Covers(rel, es, ds) && Covers(rel, ds, es)
  {}

  // A leaf by the number of its entries.
  ghost predicate Leaf<K(!new), V>(keys: Keys<K>, node: Node<K, V>) {
    && !node.Bitmap?
    && (if |Entries(node)| == 0 then node.Null? else if |Entries(node)| == 1 then node.Entry? else node.Collision?)
    && (node.Collision? ==> forall e | e in Entries(node) :: keys.hash(e.0) == node.h)
  }

  lemma LeafSameShape<K(!new), V>(keys: Keys<K>, rel: (K, K) -> bool, a: Node<K, V>, b: Node<K, V>, p: seq<nat>)
    requires keys.Lawful() && Compares(keys, rel) && Leaf(keys, a) && Leaf(keys, b)
    requires Permutes(rel, Entries(a), Entries(b), p)
    ensures SameShape(rel, a, b)
  {
    if a.Entry? {
      assert p[0] == 0;
    } else if a.Collision? {
      var e, d := Entries(a)[0], Entries(b)[p[0]];
      assert e in Entries(a) && d in Entries(b) && Match(rel, e, d) && keys.equiv(e.0, d.0);
    }
  }

  // How many entries tell the leaves apart, and what hash a bucket has.
  lemma LeafSize<K(!new), V>(keys: Keys<K>, node: Node<K, V>, shift: nat)
    requires WF(keys, node, shift) && Canon(keys, node) && !node.Bitmap?
    ensures Distinct(keys, Entries(node)) && Leaf(keys, node)
  {
    hide SameLow30;
  }

  lemma {:induction false} ChildrenDetermineShape<K(!new), V>(keys: Keys<K>, rel: (K, K) -> bool, bitmap: bv32,
        slots: seq<Node<K, V>>,
      bitmap': bv32, slots': seq<Node<K, V>>, shift: nat)
    requires keys.Lawful() && Compares(keys, rel)
    requires Level(shift) && WF(keys, Bitmap(bitmap, slots), shift) && WF(keys, Bitmap(bitmap', slots'), shift)
    requires Canon(keys, Bitmap(bitmap, slots)) && Canon(keys, Bitmap(bitmap', slots'))
    requires SameEntries(rel, EntriesOf(slots), EntriesOf(slots'))
    ensures SameShape(rel, Bitmap(bitmap, slots), Bitmap(bitmap', slots'))
    decreases slots
  {
    hide *;
    BitmapsEqual(keys, rel, bitmap, slots, bitmap', slots', shift);
    CanonChildren(keys, bitmap, slots, shift);
    CanonChildren(keys, bitmap', slots', shift);
    forall i | 0 <= i < |slots|
      ensures SameShape(rel, slots[i], slots'[i])
    {
      ChildrenSame(keys, rel, bitmap, slots, slots', shift, i);
      ContentsDetermineShape(keys, rel, slots[i], slots'[i], shift + 5);
    }
    SameChildren(rel, bitmap, slots, slots');
  }

  lemma CanonChildren<K(!new), V>(keys: Keys<K>, bitmap: bv32, slots: seq<Node<K, V>>, shift: nat)
    requires Level(shift) && WF(keys, Bitmap(bitmap, slots), shift) && Canon(keys, Bitmap(bitmap, slots))
    ensures Level(shift + 5)
    ensures forall i | 0 <= i < |slots| :: WF(keys, slots[i], shift + 5) && Canon(keys, slots[i])
  {
    hide Has, Rank, TwoHashes, Under;
  }

  lemma ChildrenSame<K(!new), V>(keys: Keys<K>, rel: (K, K) -> bool, bitmap: bv32, slots: seq<Node<K, V>>,
      slots': seq<Node<K, V>>, shift: nat, i: nat)
    requires keys.Lawful() && Compares(keys, rel)
    requires Level(shift) && WF(keys, Bitmap(bitmap, slots), shift) && WF(keys, Bitmap(bitmap, slots'), shift)
    requires SameEntries(rel, EntriesOf(slots), EntriesOf(slots')) && i < |slots| == |slots'|
    ensures SameEntries(rel, Entries(slots[i]), Entries(slots'[i]))
  {
    hide Covers, WF, Entries, EntriesOf, Compares, Keys.Lawful;
    ChildCovered(keys, rel, bitmap, slots, slots', shift, i);
    ChildCovered(keys, rel, bitmap, slots', slots, shift, i);
  }

  lemma SameChildren<K, V>(rel: (K, K) -> bool, bitmap: bv32, slots: seq<Node<K, V>>, slots': seq<Node<K, V>>)
    requires |slots| == |slots'| && forall i | 0 <= i < |slots| :: SameShape(rel, slots[i], slots'[i])
    ensures SameShape(rel, Bitmap(bitmap, slots), Bitmap(bitmap, slots'))
  {}

  // ---- removing what was added --------------------------------------------

  // Dissoc of k turns n back into what it was.
  ghost predicate Undoes<K(!new), V>(keys: Keys<K>, n: Node<K, V>, k: K, shift: nat, was: Node<K, V>) {
    Level(shift) && WF(keys, n, shift) && NodeDissoc(keys, n, k, keys.hash(k), shift) == (was, 1)
  }

  // A canonical bitmap node never collapses.
  lemma CanonStays<K(!new), V>(keys: Keys<K>, bitmap: bv32, slots: seq<Node<K, V>>, shift: nat)
    requires Level(shift) && WF(keys, Bitmap(bitmap, slots), shift) && Canon(keys, Bitmap(bitmap, slots))
    ensures Settled(bitmap, slots) == Bitmap(bitmap, slots)
  {
    hide FragAt, Has, Rank, Bit, WithBit, WithoutBit;
    if |slots| == 1 && !slots[0].Bitmap? {
      EntriesOne(slots[0]);
      assert slots == [slots[0]];
      LeafOneHash(keys, slots[0], shift + 5);
    }
  }

  lemma AbsentIndex<K(!new), V>(keys: Keys<K>, bucket: seq<(K, V)>, k: K)
    requires NoKey(keys, bucket, k)
    ensures FindIndex(keys, bucket, k) == -1
  {
    forall j | 0 <= j < |bucket|
      ensures !keys.equiv(bucket[j].0, k)
    {
      assert bucket[j] in bucket;
    }
  }

  // The bucket that gained a key at its end gives it back.
  lemma BucketUndo<K(!new), V>(keys: Keys<K>, bucket: seq<(K, V)>, k: K, v: V)
    requires keys.Lawful() && NoKey(keys, bucket, k)
    ensures FindIndex(keys, bucket + [(k, v)], k) == |bucket|
    ensures (bucket + [(k, v)])[..|bucket|] + (bucket + [(k, v)])[|bucket| + 1..] == bucket
  {
    var b := bucket + [(k, v)];
    assert keys.equiv(b[|bucket|].0, k);
    forall j | 0 <= j < |bucket|
      ensures !keys.equiv(b[j].0, k)
    {
      assert b[j] in bucket;
    }
  }

  // What the slot of the removed key's fragment becomes, named at once.
  lemma DissocOfSlot<K(!new), V>(keys: Keys<K>, bitmap: bv32, slots: seq<Node<K, V>>, k: K, h: bv32, shift: nat,
        f: Frag, child: Node<K, V>)
    requires Level(shift) && WF(keys, Bitmap(bitmap, slots), shift) && f == FragAt(h, shift) && Has(bitmap, f)
    requires Rank(bitmap, f) < |slots| && Level(shift + 5) && WF(keys, slots[Rank(bitmap, f)], shift + 5)
    requires NodeDissoc(keys, slots[Rank(bitmap, f)], k, h, shift + 5) == (child, 1)
    ensures NodeDissoc(keys, Bitmap(bitmap, slots), k, h, shift)
         == (Settled(if child.Null? then WithoutBit(bitmap, f)
           else bitmap, RestOfSlots(slots, Rank(bitmap, f), child)), 1)
  {
    hide FragAt, Has, Rank, Bit, WithBit, WithoutBit, NodeDissoc, Settled, RestOfSlots;
    DissocUnfold(keys, bitmap, slots, k, h, shift, f);
  }

  // Removing the entry beside a leaf gives the leaf back.
  lemma PairUndo<K(!new), V>(keys: Keys<K>, f: Frag, leaf: Node<K, V>, nf: Frag, k: K, v: V, shift: nat)
    requires keys.Lawful() && Level(shift) && shift <= 30 && f != nf && nf == FragAt(keys.hash(k), shift)
    requires leaf.Entry? || leaf.Collision?
    requires WF(keys, Forked(f, leaf, nf, Entry(k, v)), shift)
    ensures Undoes(keys, Forked(f, leaf, nf, Entry(k, v)), k, shift, leaf)
  {
    hide FragAt, Has, Rank, Bit, WithBit, WithoutBit, PopcountWord, SameLow30, WF, NodeDissoc;
    var bits, slots := ForkedSecond(f, leaf, nf, Entry(k, v));
    EntryUndo(keys, k, v, shift + 5);
    DissocOfSlot(keys, bits, slots, k, keys.hash(k), shift, nf, Null);
  }

  // Where the second child of a fork is, and what is left without it.
  lemma ForkedSecond<K, V>(f: Frag, m: Node<K, V>, g: Frag, n: Node<K, V>) returns (bits: bv32, slots: seq<Node<K, V>>)
    requires f != g
    ensures Forked(f, m, g, n) == Bitmap(bits, slots) && Has(bits, g)
    ensures Rank(bits, g) < |slots| == 2 && slots[Rank(bits, g)] == n
    ensures RestOfSlots(slots, Rank(bits, g), Null) == [m]
  {
    hide FragAt, Has, Rank, Bit, WithBit;
    bits := WithBit(Bit(f), g);
    slots := if f < g then [m, n] else [n, m];
    TwoBitsRank(f, g, g);
    TwoBitsHas(f, g, g);
    assert RestOfSlots([m, n], 1, Null) == [m] && RestOfSlots([n, m], 0, Null) == [m];
  }

  // Removing from below a lone child gives back the leaf the child was.
  lemma LoneUndo<K(!new), V>(keys: Keys<K>, f: Frag, child: Node<K, V>, leaf: Node<K, V>, k: K, shift: nat)
    requires Level(shift) && shift <= 30 && f == FragAt(keys.hash(k), shift)
    requires leaf.Entry? || leaf.Collision?
    requires WF(keys, Bitmap(Bit(f), [child]), shift)
    requires Undoes(keys, child, k, shift + 5, leaf)
    ensures Undoes(keys, Bitmap(Bit(f), [child]), k, shift, leaf)
  {
    hide FragAt, Has, Rank, Bit, WithBit, WithoutBit, PopcountWord, SameLow30, WF, NodeDissoc;
    OneBitHas(f, f);
    OneBitRank(f, f);
    DissocOfSlot(keys, Bit(f), [child], k, keys.hash(k), shift, f, leaf);
    assert RestOfSlots([child], 0, leaf) == [leaf];
  }

  lemma {:induction false} MergeUndo<K(!new), V>(keys: Keys<K>, k1: K, v1: V, k2: K, v2: V, shift: nat)
    requires keys.Lawful() && Level(shift) && !keys.equiv(k1, k2)
    requires Agree(keys.hash(k1), keys.hash(k2), shift)
    ensures var n := MergeEntries(k1, v1, keys.hash(k1), k2, v2, keys.hash(k2), shift);
      Undoes(keys, n, k2, shift, Entry(k1, v1))
    decreases 35 - shift
  {
    hide FragAt, Has, Rank, Bit, WithBit, WithoutBit, SameLow30, Agree, WF, Undoes, Stored, MergeEntries;
    var h1, h2 := keys.hash(k1), keys.hash(k2);
    var i := MergeStores(keys, k1, v1, k2, v2, shift);
    if h1 == h2 || shift >= 30 {
      MergeBucketUndo(keys, k1, v1, k2, v2, shift);
    } else {
      MergeUnfold(k1, v1, h1, k2, v2, h2, shift);
      AgreeStep(h1, h2, shift);
      if FragAt(h1, shift) == FragAt(h2, shift) {
        MergeUndo(keys, k1, v1, k2, v2, shift + 5);
        LoneUndo(keys, FragAt(h1, shift), MergeEntries(k1, v1, h1, k2, v2, h2, shift + 5), Entry(k1, v1), k2, shift);
      } else {
        PairUndo(keys, FragAt(h1, shift), Entry(k1, v1), FragAt(h2, shift), k2, v2, shift);
      }
    }
  }

  lemma MergeBucketUndo<K(!new), V>(keys: Keys<K>, k1: K, v1: V, k2: K, v2: V, shift: nat)
    requires keys.Lawful() && Level(shift) && !keys.equiv(k1, k2)
    requires Agree(keys.hash(k1), keys.hash(k2), shift) && (keys.hash(k1) == keys.hash(k2) || shift >= 30)
    ensures Undoes(keys, MergeEntries(k1, v1, keys.hash(k1), k2, v2, keys.hash(k2), shift), k2, shift, Entry(k1, v1))
  {
    hide FragAt, Has, Rank, Bit, WithBit, WithoutBit, SameLow30, Agree, WF, Undoes, Stored;
    var i := MergeStores(keys, k1, v1, k2, v2, shift);
    TwoEntryUndo(keys, keys.hash(k1), k1, v1, k2, v2, shift);
  }

  lemma TwoEntryUndo<K(!new), V>(keys: Keys<K>, tag: bv32, k1: K, v1: V, k2: K, v2: V, shift: nat)
    requires keys.Lawful() && Level(shift) && !keys.equiv(k1, k2)
    requires WF(keys, Collision(tag, [(k1, v1), (k2, v2)]), shift)
    ensures Undoes(keys, Collision(tag, [(k1, v1), (k2, v2)]), k2, shift, Entry(k1, v1))
  {
    BucketUndo(keys, [(k1, v1)], k2, v2);
    assert [(k1, v1)] + [(k2, v2)] == [(k1, v1), (k2, v2)];
  }

  // Dissoc after assoc of an absent separated key gives back the very same node.
  lemma {:induction false} DissocUndoesAssoc<K(!new), V>(keys: Keys<K>, node: Node<K, V>, k: K, v: V, shift: nat)
    requires keys.Lawful() && Level(shift) && WF(keys, node, shift) && OnPath(keys, node, keys.hash(k), shift)
    requires Canon(keys, node) && AllSeparated(keys, Entries(node), k) && NoKey(keys, Entries(node), k)
    ensures var n := NodeAssoc(keys, node, k, v, keys.hash(k), shift).0;
      Undoes(keys, n, k, shift, node)
    decreases 35 - shift
  {
    hide FragAt, Has, Rank, Bit, WithBit, WithoutBit, PopcountWord, SameLow30, Agree, Separated;
    match node
    case Null =>
    case Entry(nk, nv) =>
      assert (nk, nv) in Entries(node);
      MergeUndo(keys, nk, nv, k, v, shift);
    case Collision(tag, bucket) => CollisionUndo(keys, tag, bucket, k, v, shift);
    case Bitmap(bitmap, slots) => BitmapUndo(keys, bitmap, slots, k, v, shift);
  }

  lemma OwnBucketUndo<K(!new), V>(keys: Keys<K>, tag: bv32, bucket: seq<(K, V)>, k: K, v: V, shift: nat)
    requires keys.Lawful() && Level(shift) && WF(keys, Collision(tag, bucket), shift)
    requires OnPath(keys, Collision(tag, bucket), keys.hash(k), shift) && NoKey(keys, bucket, k) && keys.hash(k) == tag
    requires WF(keys, NodeAssoc(keys, Collision(tag, bucket), k, v, tag, shift).0, shift)
    ensures Undoes(keys, NodeAssoc(keys, Collision(tag, bucket), k, v, tag, shift).0, k, shift, Collision(tag, bucket))
  {
    hide SameLow30, Agree;
    AbsentIndex(keys, bucket, k);
    BucketUndo(keys, bucket, k, v);
  }

  lemma CollisionUnfold<K(!new), V>(keys: Keys<K>, tag: bv32, bucket: seq<(K, V)>, k: K, v: V, h: bv32, shift: nat)
    requires Level(shift) && WF(keys, Collision(tag, bucket), shift) && OnPath(keys, Collision(tag, bucket), h, shift)
    requires h != tag && shift <= 30 && FragAt(tag, shift) == FragAt(h, shift)
    requires Level(shift + 5) && WF(keys, Collision(tag, bucket), shift + 5)
      && OnPath(keys, Collision(tag, bucket), h, shift + 5)
    ensures NodeAssoc(keys, Collision(tag, bucket), k, v, h, shift).0
         == Bitmap(Bit(FragAt(h, shift)), [NodeAssoc(keys, Collision(tag, bucket), k, v, h, shift + 5).0])
  {
    hide FragAt, Bit, SameLow30, Agree, BucketOk;
  }

  lemma CollisionBranch<K(!new), V>(keys: Keys<K>, tag: bv32, bucket: seq<(K, V)>, k: K, v: V, h: bv32, shift: nat)
    requires Level(shift) && WF(keys, Collision(tag, bucket), shift) && OnPath(keys, Collision(tag, bucket), h, shift)
    requires h != tag && shift <= 30 && FragAt(tag, shift) != FragAt(h, shift)
    ensures var f, nf := FragAt(tag, shift), FragAt(h, shift);
      NodeAssoc(keys, Collision(tag, bucket), k, v, h, shift).0
      == Forked(f, Collision(tag, bucket), nf, Entry(k, v))
  {
    hide FragAt, Bit, SameLow30, Agree, BucketOk;
  }

  lemma {:induction false} CollisionUndo<K(!new), V>(keys: Keys<K>, tag: bv32, bucket: seq<(K, V)>, k: K, v: V,
        shift: nat)
    requires keys.Lawful() && Level(shift) && WF(keys, Collision(tag, bucket), shift)
    requires OnPath(keys, Collision(tag, bucket), keys.hash(k), shift)
    requires Canon(keys, Collision(tag, bucket)) && AllSeparated(keys, bucket, k) && NoKey(keys, bucket, k)
    ensures var n := NodeAssoc(keys, Collision(tag, bucket), k, v, keys.hash(k), shift).0;
      Undoes(keys, n, k, shift, Collision(tag, bucket))
    decreases 35 - shift, 0
  {
    hide FragAt, Has, Rank, Bit, WithBit, WithoutBit, PopcountWord, SameLow30, Agree, Separated, Stored, Undoes,
      BucketOk, NodeAssoc, Canon;
    var node := Collision(tag, bucket);
    var h := keys.hash(k);
    SeparatedNotTrapped(keys, node, k, shift);
    var i := AssocStores(keys, node, k, v, shift);
    if h == tag {
      OwnBucketUndo(keys, tag, bucket, k, v, shift);
    } else {
      CollisionOnPath(keys, tag, bucket, h, shift);
      if FragAt(tag, shift) == FragAt(h, shift) {
        CollisionUnfold(keys, tag, bucket, k, v, h, shift);
        CollisionUndo(keys, tag, bucket, k, v, shift + 5);
        LoneUndo(keys, FragAt(h, shift), NodeAssoc(keys, node, k, v, h, shift + 5).0, node, k, shift);
      } else {
        CollisionBranch(keys, tag, bucket, k, v, h, shift);
        PairUndo(keys, FragAt(tag, shift), node, FragAt(h, shift), k, v, shift);
      }
    }
  }

  lemma ClearSetHas(b: bv32, f: Frag, g: Frag)
    requires !Has(b, f)
    ensures Has(WithoutBit(WithBit(b, f), f), g) == Has(b, g)
  {
    hide *;
    ClearBit(WithBit(b, f), f, g);
    SetBit(b, f, g);
  }

  lemma ClearSetBit(b: bv32, f: Frag)
    requires !Has(b, f)
    ensures WithoutBit(WithBit(b, f), f) == b && Has(WithBit(b, f), f)
  {
    hide *;
    var c := WithoutBit(WithBit(b, f), f);
    forall g: Frag
      ensures Has(c, g) == Has(b, g)
    {
      ClearSetHas(b, f, g);
    }
    SetBit(b, f, f);
    SameBits(c, b);
  }

  lemma RemoveInserted<T>(s: seq<T>, pos: nat, x: T)
    requires pos <= |s|
    ensures var t := s[..pos] + [x] + s[pos..]; t[pos] == x && t[..pos] + t[pos + 1..] == s
  {
    var t := s[..pos] + [x] + s[pos..];
    assert t[..pos] == s[..pos] && t[pos + 1..] == s[pos..];
    CutAt(s, pos);
  }

  // What is asked of a node for a removal to undo an addition holds of a child.
  lemma ChildUndoable<K(!new), V>(keys: Keys<K>, bitmap: bv32, slots: seq<Node<K, V>>, k: K, pos: nat)
    requires pos < |slots| && Canon(keys, Bitmap(bitmap, slots))
    requires AllSeparated(keys, EntriesOf(slots), k) && NoKey(keys, EntriesOf(slots), k)
    ensures Canon(keys, slots[pos]) && AllSeparated(keys, Entries(slots[pos]), k) && NoKey(keys, Entries(slots[pos]), k)
  {
    hide Separated;
    EntryOfSlot(slots, pos);
  }

  // In a trie free of the trap the new node is well formed.
  lemma AssocShaped<K(!new), V>(keys: Keys<K>, node: Node<K, V>, k: K, v: V, shift: nat)
    requires keys.Lawful() && Level(shift) && WF(keys, node, shift) && OnPath(keys, node, keys.hash(k), shift)
    requires AllSeparated(keys, Entries(node), k)
    ensures WF(keys, NodeAssoc(keys, node, k, v, keys.hash(k), shift).0, shift)
  {
    hide NodeAssoc, WF, Separated, Stored, Entries;
    SeparatedNotTrapped(keys, node, k, shift);
    var i := AssocStores(keys, node, k, v, shift);
  }

  lemma {:induction false} BitmapUndo<K(!new), V>(keys: Keys<K>, bitmap: bv32, slots: seq<Node<K, V>>, k: K, v: V,
        shift: nat)
    requires keys.Lawful() && Level(shift) && WF(keys, Bitmap(bitmap, slots), shift)
    requires OnPath(keys, Bitmap(bitmap, slots), keys.hash(k), shift)
    requires Canon(keys, Bitmap(bitmap, slots)) && AllSeparated(keys, EntriesOf(slots), k)
      && NoKey(keys, EntriesOf(slots), k)
    ensures var n := NodeAssoc(keys, Bitmap(bitmap, slots), k, v, keys.hash(k), shift).0;
      Undoes(keys, n, k, shift, Bitmap(bitmap, slots))
    decreases 35 - shift, 0
  {
    hide *;
    var node := Bitmap(bitmap, slots);
    var h := keys.hash(k);
    EntriesBelow(bitmap, slots);
    AssocShaped(keys, node, k, v, shift);
    CanonStays(keys, bitmap, slots, shift);
    BitmapLevel(keys, bitmap, slots, shift);
    var f := FragAt(h, shift);
    if Has(bitmap, f) {
      ChildOk(keys, bitmap, slots, f, shift);
      ChildOnPath(keys, bitmap, slots, f, h, shift);
      var child := slots[Rank(bitmap, f)];
      AssocIntoSlot(keys, bitmap, slots, k, v, h, shift, f);
      ChildUndoable(keys, bitmap, slots, k, Rank(bitmap, f));
      DissocUndoesAssoc(keys, child, k, v, shift + 5);
      OldSlotUndo(keys, bitmap, slots, NodeAssoc(keys, child, k, v, h, shift + 5).0, k, shift, f);
    } else {
      NewSlotUndo(keys, bitmap, slots, k, v, shift, f);
    }
  }

  lemma BitmapLevel<K(!new), V>(keys: Keys<K>, bitmap: bv32, slots: seq<Node<K, V>>, shift: nat)
    requires Level(shift) && WF(keys, Bitmap(bitmap, slots), shift)
    ensures shift <= 30 && forall i | 0 <= i < |slots| :: !slots[i].Null?
  {}

  lemma OldSlotUndo<K(!new), V>(keys: Keys<K>, bitmap: bv32, slots: seq<Node<K, V>>, child: Node<K, V>, k: K,
        shift: nat, f: Frag)
    requires Level(shift) && shift <= 30 && f == FragAt(keys.hash(k), shift) && Has(bitmap, f)
      && Rank(bitmap, f) < |slots|
    requires !slots[Rank(bitmap, f)].Null? && Settled(bitmap, slots) == Bitmap(bitmap, slots)
    requires WF(keys, Bitmap(bitmap, slots[Rank(bitmap, f) := child]), shift)
    requires Undoes(keys, child, k, shift + 5, slots[Rank(bitmap, f)])
    ensures Undoes(keys, Bitmap(bitmap, slots[Rank(bitmap, f) := child]), k, shift, Bitmap(bitmap, slots))
  {
    hide FragAt, Has, Rank, Bit, WithBit, WithoutBit, SameLow30, WF, NodeDissoc, Settled;
    var pos := Rank(bitmap, f);
    DissocOfSlot(keys, bitmap, slots[pos := child], k, keys.hash(k), shift, f, slots[pos]);
    assert slots[pos := child][pos := slots[pos]] == slots;
  }

  lemma NewSlotUndo<K(!new), V>(keys: Keys<K>, bitmap: bv32, slots: seq<Node<K, V>>, k: K, v: V, shift: nat, f: Frag)
    requires keys.Lawful() && Level(shift) && WF(keys, Bitmap(bitmap, slots), shift)
    requires OnPath(keys, Bitmap(bitmap, slots), keys.hash(k), shift)
    requires f == FragAt(keys.hash(k), shift) && !Has(bitmap, f)
    requires WF(keys, NodeAssoc(keys, Bitmap(bitmap, slots), k, v, keys.hash(k), shift).0, shift)
    requires Settled(bitmap, slots) == Bitmap(bitmap, slots)
    ensures Undoes(keys, NodeAssoc(keys, Bitmap(bitmap, slots), k, v, keys.hash(k), shift).0, k, shift,
      Bitmap(bitmap, slots))
  {
    hide *;
    BitmapLevel(keys, bitmap, slots, shift);
    AssocNewSlot(keys, bitmap, slots, k, v, keys.hash(k), shift, f);
    WidenedUndo(keys, bitmap, slots, k, v, shift, f);
  }

  lemma WidenedUndo<K(!new), V>(keys: Keys<K>, bitmap: bv32, slots: seq<Node<K, V>>, k: K, v: V, shift: nat, f: Frag)
    requires keys.Lawful() && Level(shift) && shift <= 30
    requires f == FragAt(keys.hash(k), shift) && !Has(bitmap, f) && Rank(bitmap, f) <= |slots|
    requires WF(keys, Widened(bitmap, f, slots, Rank(bitmap, f), Entry(k, v)), shift)
    requires Settled(bitmap, slots) == Bitmap(bitmap, slots)
    ensures Undoes(keys, Widened(bitmap, f, slots, Rank(bitmap, f), Entry(k, v)), k, shift, Bitmap(bitmap, slots))
  {
    hide FragAt, Has, Rank, Bit, WithBit, WithoutBit, PopcountWord, Settled, NodeDissoc, WF;
    var pos := Rank(bitmap, f);
    var slots' := slots[..pos] + [Entry(k, v)] + slots[pos..];
    ClearSetBit(bitmap, f);
    RankSetBit(bitmap, f, f);
    RemoveInserted(slots, pos, Entry(k, v));
    EntryUndo(keys, k, v, shift + 5);
    DissocOfSlot(keys, WithBit(bitmap, f), slots', k, keys.hash(k), shift, f, Null);
  }

  lemma EntryUndo<K(!new), V>(keys: Keys<K>, k: K, v: V, shift: nat)
    requires keys.Lawful() && Level(shift)
    ensures WF(keys, Entry(k, v), shift) && NodeDissoc(keys, Entry(k, v), k, keys.hash(k), shift) == (Null, 1)
  {}

  // ---- whole runs ---------------------------------------------------------

  lemma StepCanon<K(!new), V>(keys: Keys<K>, m: Map<K, V>, op: Op<K, V>)
    requires keys.Lawful() && Valid(keys, m) && Canon(keys, m.root)
    requires op.Assoc? ==> AllSeparated(keys, Entries(m.root), op.k)
    ensures Canon(keys, Apply(keys, m, op).root)
  {
    hide WF, Canon, Entries, OnPath, Separated, NodeAssoc, NodeDissoc;
    RootOnPath(keys, m.root, keys.hash(op.k));
    match op
    case Assoc(k, v) => AssocCanon(keys, m.root, k, v, 0);
    case Dissoc(k) => DissocCanon(keys, m.root, k, 0);
  }

  // Every trie reached over separated keys is canonical.
  lemma {:induction false} RunCanon<K(!new), V>(keys: Keys<K>, m: Map<K, V>, ops: seq<Op<K, V>>)
    requires keys.Lawful() && Valid(keys, m) && Canon(keys, m.root) && Apart(keys, m, ops)
    ensures Runnable(keys, m, ops) && Canon(keys, Run(keys, m, ops).root)
    decreases |ops|
  {
    ApartRunnable(keys, m, ops);
    hide Valid, Canon, Apply, Entries, Separated, Trapped;
    if ops != [] {
      StepCanon(keys, m, ops[0]);
      RunCanon(keys, Apply(keys, m, ops[0]), ops[1..]);
    }
  }

  // Tries that answer alike hold the same entries, up to equal keys.
  lemma AnswersCover<K(!new), V>(keys: Keys<K>, es: seq<(K, V)>, ds: seq<(K, V)>)
    requires keys.Lawful() && Distinct(keys, es) && forall k :: Lookup(keys, es, k) == Lookup(keys, ds, k)
    ensures Covers(keys.equiv, es, ds)
  {
    forall e | e in es
      ensures exists d :: d in ds && Match(keys.equiv, e, d)
    {
      var i :| 0 <= i < |es| && es[i] == e;
      assert keys.equiv(e.0, e.0);
      LookupAt(keys, es, i, e.0);
      var j := FindIndex(keys, ds, e.0);
      assert Lookup(keys, ds, e.0) == Some(e.1);
      assert keys.equiv(ds[j].0, e.0) && keys.equiv(e.0, ds[j].0) && ds[j] in ds;
    }
  }

  ghost predicate SameModel<K(!new), V>(f: Model<K, V>, g: Model<K, V>) {
    forall k :: f(k) == g(k)
  }

  // Two runs from the empty map that stand for one map end in one trie, up to
  // bucket order and equal keys, whatever their histories.
  lemma RunsAgree<K(!new), V>(keys: Keys<K>, ops: seq<Op<K, V>>, ops': seq<Op<K, V>>)
    requires keys.Lawful() && Valid(keys, Empty<K, V>())
    requires Apart(keys, Empty<K, V>(), ops) && Apart(keys, Empty<K, V>(), ops')
    requires SameModel(RunModel<K, V>(keys, _ => None, ops), RunModel<K, V>(keys, _ => None, ops'))
    ensures Runnable(keys, Empty<K, V>(), ops) && Runnable(keys, Empty<K, V>(), ops')
    ensures SameShape(keys.equiv, Run(keys, Empty<K, V>(), ops).root, Run(keys, Empty<K, V>(), ops').root)
  {
    ApartRunnable(keys, Empty<K, V>(), ops);
    ApartRunnable(keys, Empty<K, V>(), ops');
    var a, b := Run(keys, Empty<K, V>(), ops), Run(keys, Empty<K, V>(), ops');
    EmptyRepresents<K, V>(keys);
    RunCanon(keys, Empty<K, V>(), ops);
    RunCanon(keys, Empty<K, V>(), ops');
    RunRefines(keys, Empty<K, V>(), _ => None, ops);
    RunRefines(keys, Empty<K, V>(), _ => None, ops');
    hide Run, Canon, Runnable, RunModel;
    SameTries(keys, a, RunModel<K, V>(keys, _ => None, ops), b, RunModel<K, V>(keys, _ => None, ops'));
  }

  lemma SameTries<K(!new), V>(keys: Keys<K>, a: Map<K, V>, f: Model<K, V>, b: Map<K, V>, g: Model<K, V>)
    requires keys.Lawful() && Represents(keys, a, f) && Represents(keys, b, g) && SameModel(f, g)
    requires WF(keys, a.root, 0) && WF(keys, b.root, 0) && Canon(keys, a.root) && Canon(keys, b.root)
    ensures SameShape(keys.equiv, a.root, b.root)
  {
    hide Canon, Entries, MapFind, Lookup, WF, Sized;
    AnswersCover(keys, Entries(a.root), Entries(b.root));
    AnswersCover(keys, Entries(b.root), Entries(a.root));
    ContentsDetermineShape(keys, keys.equiv, a.root, b.root, 0);
  }

  // Removing an absent separated key just added restores the map itself.
  lemma MapUndo<K(!new), V>(keys: Keys<K>, m: Map<K, V>, k: K, v: V)
    requires keys.Lawful() && Valid(keys, m) && Canon(keys, m.root)
    requires AllSeparated(keys, Entries(m.root), k) && NoKey(keys, Entries(m.root), k)
    ensures Valid(keys, MapAssoc(keys, m, k, v)) && MapDissoc(keys, MapAssoc(keys, m, k, v), k) == m
  {
    hide WF, Canon, Entries, OnPath, Separated, NodeAssoc, NodeDissoc;
    RootOnPath(keys, m.root, keys.hash(k));
    var f := ModelOf(keys, m);
    SeparatedNotTrapped(keys, m.root, k, 0);
    StepRefines(keys, m, f, Assoc(k, v));
    var i := AssocStores(keys, m.root, k, v, 0);
    DissocUndoesAssoc(keys, m.root, k, v, 0);
    assert NodeAssoc(keys, m.root, k, v, keys.hash(k), 0).1 == 1 by {
      var es := Entries(m.root);
      assert i < |es| ==> es[i] in es;
    }
  }
}
