// The persistent hash trie: its nodes, its operations, and the proof that they
// are a finite map modulo the key equality.
module Hamt {
  import opened Bits32
  import opened Options
  import opened Seqs

  // The key contract the trie is built on: a 32-bit hash and an equality.
  datatype Keys<!K(!new)> = Keys(hash: K -> bv32, equiv: (K, K) -> bool) {
    ghost predicate Lawful() {
      && (forall a :: equiv(a, a))
      && (forall a, b :: equiv(a, b) ==> equiv(b, a) && hash(a) == hash(b))
      && (forall a, b, c :: equiv(a, b) && equiv(b, c) ==> equiv(a, c))
    }
  }

  datatype Node<K, V> =
    | Null
    | Entry(k: K, v: V)
    | Collision(h: bv32, bucket: seq<(K, V)>)
    | Bitmap(bitmap: bv32, slots: seq<Node<K, V>>)

  // ---- operations ---------------------------------------------------------

  // Position of the first bucket entry with an equal key, or -1.
  function FindIndex<K(!new), V>(keys: Keys<K>, bucket: seq<(K, V)>, k: K): (i: int)
    ensures -1 <= i < |bucket|
    ensures i >= 0 ==> keys.equiv(bucket[i].0, k)
    ensures forall j | 0 <= j < (if i < 0 then |bucket| else i) :: !keys.equiv(bucket[j].0, k)
  {
    if bucket == [] then -1
    else if keys.equiv(bucket[0].0, k) then 0
    else
      var i := FindIndex(keys, bucket[1..], k);
      if i < 0 then -1 else i + 1
  }

  // popcount(bitmap & (bit - 1))
  function SlotOf(bitmap: bv32, f: Frag): (pos: nat)
    ensures pos == Rank(bitmap, f)
  {
    PopcountIsRank(bitmap, f);
    PopcountWord(bitmap & (Bit(f) - 1)) as nat
  }

  function NodeGet<K(!new), V>(keys: Keys<K>, node: Node<K, V>, k: K, h: bv32, shift: nat): Option<V>
    requires Level(shift) && Sized(node, shift)
  {
    hide FragAt, Has, Rank, Bit, WithBit, WithoutBit, PopcountWord, SameLow30;
    match node
    case Null => None
    case Entry(nk, nv) => if keys.equiv(nk, k) then Some(nv) else None
    case Collision(_, bucket) =>
      var i := FindIndex(keys, bucket, k);
      if i < 0 then None else Some(bucket[i].1)
    case Bitmap(bitmap, slots) =>
      var f := FragAt(h, shift);
      if !Has(bitmap, f) then None
      else
        RankGrows(bitmap, f, 32);
        NodeGet(keys, slots[SlotOf(bitmap, f)], k, h, shift + 5)
  }

  // A bitmap node over two children, in fragment order.
  function Forked<K, V>(f: Frag, m: Node<K, V>, g: Frag, n: Node<K, V>): Node<K, V> {
    Bitmap(WithBit(Bit(f), g), if f < g then [m, n] else [n, m])
  }

  function MergeEntries<K, V>(k1: K, v1: V, h1: bv32, k2: K, v2: V, h2: bv32, shift: nat): Node<K, V>
    requires Level(shift)
    decreases 35 - shift
  {
    hide FragAt, Has, Rank, Bit, WithBit, WithoutBit, PopcountWord, SameLow30;
    if h1 == h2 || shift >= 30 then Collision(h1, [(k1, v1), (k2, v2)])
    else
      var f1, f2 := FragAt(h1, shift), FragAt(h2, shift);
      if f1 == f2 then Bitmap(Bit(f1), [MergeEntries(k1, v1, h1, k2, v2, h2, shift + 5)])
      else Forked(f1, Entry(k1, v1), f2, Entry(k2, v2))
  }

  // A bucket is replaced or extended under its own label, and branched from the
  // new entry under another, going down while the fragments agree.
  function AssocCollision<K(!new), V>(keys: Keys<K>, tag: bv32, bucket: seq<(K, V)>, k: K, v: V, h: bv32, shift: nat):
      (Node<K, V>, nat)
    requires Level(shift) && BucketOk(keys, tag, bucket) && OnPath(keys, Collision(tag, bucket), h, shift)
    decreases 35 - shift
  {
    hide FragAt, Has, Rank, Bit, WithBit, WithoutBit, PopcountWord, SameLow30;
    if h == tag then
      var i := FindIndex(keys, bucket, k);
      if i >= 0 then (Collision(tag, bucket[i := (k, v)]), 0)
      else (Collision(tag, bucket + [(k, v)]), 1)
    else
      CollisionOnPath(keys, tag, bucket, h, shift);
      var f, nf := FragAt(tag, shift), FragAt(h, shift);
      var node := Collision(tag, bucket);
      if f == nf then
        var (child, added) := AssocCollision(keys, tag, bucket, k, v, h, shift + 5);
        (Bitmap(Bit(f), [child]), added)
      else
        (Forked(f, node, nf, Entry(k, v)), 1)
  }

  // A bitmap node with one more child.
  function Widened<K, V>(bitmap: bv32, f: Frag, slots: seq<Node<K, V>>, pos: nat, n: Node<K, V>): Node<K, V>
    requires pos <= |slots|
  {
    Bitmap(WithBit(bitmap, f), slots[..pos] + [n] + slots[pos..])
  }

  // The new node, and 1 exactly when a key was added.
  function NodeAssoc<K(!new), V>(keys: Keys<K>, node: Node<K, V>, k: K, v: V, h: bv32, shift: nat): (Node<K, V>, nat)
    requires Level(shift) && WF(keys, node, shift) && OnPath(keys, node, h, shift)
    decreases 35 - shift
  {
    hide FragAt, Has, Rank, Bit, WithBit, WithoutBit, PopcountWord, SameLow30;
    match node
    case Null => (Entry(k, v), 1)
    case Entry(nk, nv) =>
      if keys.equiv(nk, k) then (Entry(k, v), 0)
      else (MergeEntries(nk, nv, keys.hash(nk), k, v, h, shift), 1)
    case Collision(tag, bucket) => AssocCollision(keys, tag, bucket, k, v, h, shift)
    case Bitmap(bitmap, slots) =>
      var f := FragAt(h, shift);
      var pos := SlotOf(bitmap, f);
      RankGrows(bitmap, f, 32);
      if !Has(bitmap, f) then
        (Widened(bitmap, f, slots, pos, Entry(k, v)), 1)
      else
        ChildOnPath(keys, bitmap, slots, f, h, shift);
        var (child, added) := NodeAssoc(keys, slots[pos], k, v, h, shift + 5);
        (Bitmap(bitmap, slots[pos := child]), added)
  }

  // The new node, and 1 exactly when a key was removed.
  function NodeDissoc<K(!new), V>(keys: Keys<K>, node: Node<K, V>, k: K, h: bv32, shift: nat): (Node<K, V>, nat)
    requires Level(shift) && WF(keys, node, shift)
    decreases 35 - shift
  {
    hide FragAt, Has, Rank, Bit, WithBit, WithoutBit, PopcountWord, SameLow30;
    match node
    case Null => (Null, 0)
    case Entry(nk, _) => if keys.equiv(nk, k) then (Null, 1) else (node, 0)
    case Collision(tag, bucket) =>
      var i := FindIndex(keys, bucket, k);
      if i < 0 then (node, 0)
      else
        var rest := bucket[..i] + bucket[i + 1..];
        if |rest| == 1 then (Entry(rest[0].0, rest[0].1), 1) else (Collision(tag, rest), 1)
    case Bitmap(bitmap, slots) =>
      var f := FragAt(h, shift);
      if !Has(bitmap, f) then (node, 0)
      else
        var pos := SlotOf(bitmap, f);
        RankGrows(bitmap, f, 32);
        var (child, removed) := NodeDissoc(keys, slots[pos], k, h, shift + 5);
        if removed == 0 then (node, 0)
        else
          var bits := if child.Null? then WithoutBit(bitmap, f) else bitmap;
          (Settled(bits, RestOfSlots(slots, pos, child)), 1)
  }

  // The slots after one child shrank or vanished.
  function RestOfSlots<K, V>(slots: seq<Node<K, V>>, pos: nat, child: Node<K, V>): seq<Node<K, V>>
    requires pos < |slots|
  {
    if child.Null? then slots[..pos] + slots[pos + 1..] else slots[pos := child]
  }

  // A bitmap node left with no child vanishes, and one left with a single entry
  // or bucket becomes that leaf.
  function Settled<K, V>(bits: bv32, slots: seq<Node<K, V>>): Node<K, V> {
    if |slots| == 0 then Null
    else if |slots| == 1 && (slots[0].Entry? || slots[0].Collision?) then slots[0]
    else Bitmap(bits, slots)
  }

  // ---- what a node holds --------------------------------------------------

  // The entries of a node in walk order.
  function Entries<K, V>(node: Node<K, V>): seq<(K, V)>
    decreases node, 1
  {
    match node
    case Null => []
    case Entry(k, v) => [(k, v)]
    case Collision(_, bucket) => bucket
    case Bitmap(_, slots) => EntriesOf(slots)
  }

  function EntriesOf<K, V>(slots: seq<Node<K, V>>): seq<(K, V)>
    decreases slots, 0
  {
    if slots == [] then [] else Entries(slots[0]) + EntriesOf(slots[1..])
  }

  // No two entries have equal keys.
  ghost predicate Distinct<K(!new), V>(keys: Keys<K>, es: seq<(K, V)>) {
    forall i, j | 0 <= i < j < |es| :: !keys.equiv(es[i].0, es[j].0)
  }

  ghost predicate NoKey<K(!new), V>(keys: Keys<K>, es: seq<(K, V)>, k: K) {
    forall e | e in es :: !keys.equiv(e.0, k)
  }

  // Every entry's hash has fragment f at this level.
  ghost predicate Under<K(!new), V>(keys: Keys<K>, es: seq<(K, V)>, shift: nat, f: Frag)
    requires shift <= 30
  {
    forall e | e in es :: FragAt(keys.hash(e.0), shift) == f
  }

  // Every entry's hash takes the path of h down to this level.
  ghost predicate OnPath<K(!new), V>(keys: Keys<K>, node: Node<K, V>, h: bv32, shift: nat)
    requires shift <= 35
  {
    forall e | e in Entries(node) :: Agree(keys.hash(e.0), h, shift)
  }

  // A bucket: its keys share the low 30 bits of its label (tag), and all but at most
  // one of them have exactly the label as hash.
  ghost predicate BucketOk<K(!new), V>(keys: Keys<K>, tag: bv32, bucket: seq<(K, V)>) {
    && |bucket| >= 2
    && Distinct(keys, bucket)
    && (forall e | e in bucket :: SameLow30(keys.hash(e.0), tag))
    && (forall i, j | 0 <= i < j < |bucket| :: keys.hash(bucket[i].0) == tag || keys.hash(bucket[j].0) == tag)
  }

  // Enough shape for a walk to stay inside the slots.
  ghost predicate Sized<K, V>(node: Node<K, V>, shift: nat)
    decreases node
  {
    node.Bitmap? ==>
      && shift <= 30
      && |node.slots| == Rank(node.bitmap, 32)
      && (forall i | 0 <= i < |node.slots| :: Sized(node.slots[i], shift + 5))
  }

  lemma {:induction false} WFSized<K(!new), V>(keys: Keys<K>, node: Node<K, V>, shift: nat)
    requires WF(keys, node, shift)
    ensures Sized(node, shift)
    decreases node
  {
    hide FragAt, Has, Rank, Bit, WithBit, WithoutBit, SameLow30;
    if node.Bitmap? {
      forall i | 0 <= i < |node.slots|
        ensures Sized(node.slots[i], shift + 5)
      {
        WFSized(keys, node.slots[i], shift + 5);
      }
    }
  }

  // The shape every reachable node has.
  ghost predicate WF<K(!new), V>(keys: Keys<K>, node: Node<K, V>, shift: nat)
    decreases node
  {
    match node
    case Null => true
    case Entry(_, _) => true
    case Collision(tag, bucket) => BucketOk(keys, tag, bucket)
    case Bitmap(bitmap, slots) =>
      && shift <= 30
      && |slots| == Rank(bitmap, 32)
      && |slots| > 0
      && (forall i | 0 <= i < |slots| :: !slots[i].Null? && WF(keys, slots[i], shift + 5))
      && (forall f: Frag | Has(bitmap, f) && Rank(bitmap, f) < |slots| ::
            Under(keys, Entries(slots[Rank(bitmap, f)]), shift, f))
  }

  // The one situation in which assoc goes wrong: the search path of h ends in a
  // bucket with a different label, equal to h in the low 30 bits, that holds a
  // key whose hash is not the label.
  ghost predicate Trapped<K(!new), V>(keys: Keys<K>, node: Node<K, V>, h: bv32, shift: nat)
    requires Level(shift) && WF(keys, node, shift)
  {
    match node
    case Null => false
    case Entry(_, _) => false
    case Collision(tag, bucket) =>
      h != tag && SameLow30(h, tag) && exists e :: e in bucket && keys.hash(e.0) != tag
    case Bitmap(bitmap, slots) =>
      var f := FragAt(h, shift);
      && Has(bitmap, f)
      && (ChildOk(keys, bitmap, slots, f, shift); Trapped(keys, slots[SlotOf(bitmap, f)], h, shift + 5))
  }

  // The child in the slot of a present fragment.
  lemma ChildOk<K(!new), V>(keys: Keys<K>, bitmap: bv32, slots: seq<Node<K, V>>, f: Frag, shift: nat)
    requires Level(shift) && WF(keys, Bitmap(bitmap, slots), shift) && Has(bitmap, f)
    ensures Rank(bitmap, f) < |slots| && Level(shift + 5) && WF(keys, slots[Rank(bitmap, f)], shift + 5)
  {
    hide Has, Rank, Bit;
    RankGrows(bitmap, f, 32);
  }

  // ---- entries of a list of slots -----------------------------------------

  lemma {:induction false} EntriesConcat<K, V>(a: seq<Node<K, V>>, b: seq<Node<K, V>>)
    ensures EntriesOf(a + b) == EntriesOf(a) + EntriesOf(b)
  {
    hide *;
    EntriesNone<K, V>();
    if a == [] {
      assert a + b == b;
    } else {
      assert a + b == [a[0]] + (a[1..] + b) && a == [a[0]] + a[1..];
      EntriesFirst(a[0], a[1..] + b);
      EntriesFirst(a[0], a[1..]);
      EntriesConcat(a[1..], b);
    }
  }

  lemma EntriesNone<K, V>()
    ensures EntriesOf<K, V>([]) == []
  {}

  lemma EntriesFirst<K, V>(n: Node<K, V>, rest: seq<Node<K, V>>)
    ensures EntriesOf([n] + rest) == Entries(n) + EntriesOf(rest)
  {
    hide Entries;
    assert ([n] + rest)[1..] == rest;
  }

  lemma EntriesOne<K, V>(n: Node<K, V>)
    ensures EntriesOf([n]) == Entries(n)
  {
    assert [n][1..] == [];
  }

  // The entries around one child, whatever the child is.
  lemma EntriesAround<K, V>(left: seq<Node<K, V>>, n: Node<K, V>, right: seq<Node<K, V>>)
    ensures EntriesOf(left + [n] + right) == EntriesOf(left) + Entries(n) + EntriesOf(right)
  {
    EntriesConcat(left + [n], right);
    EntriesConcat(left, [n]);
    EntriesOne(n);
  }

  lemma EntriesSplit<K, V>(slots: seq<Node<K, V>>, pos: nat)
    requires pos < |slots|
    ensures EntriesOf(slots) == EntriesOf(slots[..pos]) + Entries(slots[pos]) + EntriesOf(slots[pos + 1..])
  {
    SplitAt(slots, pos);
    EntriesAround(slots[..pos], slots[pos], slots[pos + 1..]);
  }

  lemma {:induction false} SlotHolding<K, V>(slots: seq<Node<K, V>>, e: (K, V)) returns (i: nat)
    requires e in EntriesOf(slots)
    ensures i < |slots| && e in Entries(slots[i])
  {
    if e in Entries(slots[0]) {
      i := 0;
    } else {
      i := SlotHolding(slots[1..], e);
      i := i + 1;
    }
  }

  lemma EntryOfSlot<K, V>(slots: seq<Node<K, V>>, i: nat)
    requires i < |slots|
    ensures forall e | e in Entries(slots[i]) :: e in EntriesOf(slots)
  {
    EntriesSplit(slots, i);
  }

  // An entry below a bitmap node sits in the slot of its own fragment.
  lemma EntryPlace<K(!new), V>(keys: Keys<K>, bitmap: bv32, slots: seq<Node<K, V>>, shift: nat, e: (K, V))
        returns (f: Frag)
    requires WF(keys, Bitmap(bitmap, slots), shift)
    requires e in EntriesOf(slots)
    ensures f == FragAt(keys.hash(e.0), shift) && Has(bitmap, f) && Rank(bitmap, f) < |slots|
    ensures e in Entries(slots[Rank(bitmap, f)])
  {
    hide FragAt, Has, Rank, Bit, WithBit, WithoutBit;
    var i := SlotHolding(slots, e);
    f := RankOnto(bitmap, 32, i);
    assert Under(keys, Entries(slots[i]), shift, f);
  }

  // A non-null well-formed node holds an entry.
  lemma {:induction false} NonEmpty<K(!new), V>(keys: Keys<K>, node: Node<K, V>, shift: nat)
    requires WF(keys, node, shift) && !node.Null?
    ensures |Entries(node)| > 0
    decreases node
  {
    hide FragAt, Has, Rank, Bit, WithBit, WithoutBit;
    if node.Bitmap? {
      NonEmpty(keys, node.slots[0], shift + 5);
    }
  }

  // ---- paths --------------------------------------------------------------

  // A bucket's label is the hash of one of its keys.
  lemma LabelHeld<K(!new), V>(keys: Keys<K>, tag: bv32, bucket: seq<(K, V)>) returns (e: (K, V))
    requires BucketOk(keys, tag, bucket)
    ensures e in bucket && keys.hash(e.0) == tag
  {
    hide SameLow30;
    e := if keys.hash(bucket[0].0) == tag then bucket[0] else bucket[1];
  }

  // Where the search for h meets a bucket with another label.
  lemma CollisionOnPath<K(!new), V>(keys: Keys<K>, tag: bv32, bucket: seq<(K, V)>, h: bv32, shift: nat)
    requires Level(shift) && BucketOk(keys, tag, bucket)
    requires OnPath(keys, Collision(tag, bucket), h, shift)
    requires h != tag
    ensures shift <= 30 && Agree(tag, h, shift)
    ensures FragAt(tag, shift) == FragAt(h, shift) ==>
      shift < 30 && Level(shift + 5) && OnPath(keys, Collision(tag, bucket), h, shift + 5)
    ensures shift < 30 ==> Under(keys, bucket, shift, FragAt(tag, shift))
    ensures shift == 30 ==> SameLow30(h, tag)
  {
    hide FragAt, SameLow30, Agree;
    var e := LabelHeld(keys, tag, bucket);
    AgreeIsEqual(tag, h);
    AgreeIsLow30(tag, h);
    assert Agree(tag, h, shift);
    AgreeStep(tag, h, if shift <= 30 then shift else 0);
    if shift < 30 {
      forall e | e in bucket
        ensures FragAt(keys.hash(e.0), shift) == FragAt(tag, shift)
        ensures FragAt(tag, shift) == FragAt(h, shift) ==> Agree(keys.hash(e.0), h, shift + 5)
      {
        AgreeIsLow30(keys.hash(e.0), tag);
        AgreeShorter(keys.hash(e.0), tag, shift, 30);
        AgreeShorter(keys.hash(e.0), tag, shift + 5, 30);
        if FragAt(tag, shift) == FragAt(h, shift) { AgreeTrans(keys.hash(e.0), tag, h, shift + 5); }
      }
    }
    assert shift == 30 ==> SameLow30(tag, h);
    LowSym(tag, h);
  }

  lemma LowSym(g: bv32, h: bv32)
    ensures SameLow30(g, h) <==> SameLow30(h, g)
  {}

  // Going down into the slot of h's own fragment stays on the path.
  lemma ChildOnPath<K(!new), V>(keys: Keys<K>, bitmap: bv32, slots: seq<Node<K, V>>, f: Frag, h: bv32, shift: nat)
    requires Level(shift) && WF(keys, Bitmap(bitmap, slots), shift)
    requires OnPath(keys, Bitmap(bitmap, slots), h, shift)
    requires f == FragAt(h, shift) && Has(bitmap, f)
    ensures Rank(bitmap, f) < |slots| && Level(shift + 5)
    ensures WF(keys, slots[Rank(bitmap, f)], shift + 5) && OnPath(keys, slots[Rank(bitmap, f)], h, shift + 5)
  {
    hide FragAt, Has, Rank, Bit, WithBit, WithoutBit, Agree;
    RankGrows(bitmap, f, 32);
    var child := slots[Rank(bitmap, f)];
    EntryOfSlot(slots, Rank(bitmap, f));
    assert Under(keys, Entries(child), shift, f);
    forall e | e in Entries(child)
      ensures Agree(keys.hash(e.0), h, shift + 5)
    {
      AgreeStep(keys.hash(e.0), h, shift);
    }
  }
}
