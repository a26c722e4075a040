// One step of the trie: what get, assoc and dissoc on nodes do to the entries.
module HamtRefinement {
  import opened Bits32
  import opened Options
  import opened Seqs
  import opened Hamt

  // es' is es with the entry for k replaced (added == 0) or inserted at i.
  ghost predicate Stored<K(!new), V>(keys: Keys<K>, es: seq<(K, V)>, es': seq<(K, V)>, k: K, v: V, added: nat, i: nat) {
    if added == 0 then i < |es| && keys.equiv(es[i].0, k) && es' == es[i := (k, v)]
    else added == 1 && i <= |es| && NoKey(keys, es, k) && es' == es[..i] + [(k, v)] + es[i..]
  }

  // es' is es without the entry for k at i (removed == 1), or k was absent.
  ghost predicate Removed<K(!new), V>(keys: Keys<K>, es: seq<(K, V)>, es': seq<(K, V)>, k: K, removed: nat, i: nat) {
    if removed == 0 then NoKey(keys, es, k) && es' == es
    else removed == 1 && i < |es| && keys.equiv(es[i].0, k) && es' == es[..i] + es[i + 1..]
  }

  // ---- get ----------------------------------------------------------------

  // A lookup answers from the entries alone: the value of an equal key, or none.
  ghost predicate Answers<K(!new), V>(keys: Keys<K>, es: seq<(K, V)>, k: K, r: Option<V>) {
    match r
    case None => NoKey(keys, es, k)
    case Some(v) => exists e :: e in es && keys.equiv(e.0, k) && e.1 == v
  }

  lemma {:induction false} GetAnswers<K(!new), V>(keys: Keys<K>, node: Node<K, V>, k: K, shift: nat)
    requires keys.Lawful() && Level(shift) && WF(keys, node, shift)
    ensures Sized(node, shift)
    ensures Answers(keys, Entries(node), k, NodeGet(keys, node, k, keys.hash(k), shift))
    decreases node
  {
    hide FragAt, Has, Rank, Bit, WithBit, WithoutBit, PopcountWord, SameLow30;
    WFSized(keys, node, shift);
    match node
    case Null =>
    case Entry(nk, nv) => assert (nk, nv) in Entries(node);
    case Collision(_, bucket) =>
      var i := FindIndex(keys, bucket, k);
      if i >= 0 { assert bucket[i] in bucket; }
    case Bitmap(bitmap, slots) =>
      hide Entries, EntriesOf, NodeGet, WF, Sized;
      GetUnfold(keys, bitmap, slots, k, shift);
      if Has(bitmap, FragAt(keys.hash(k), shift)) {
        GetAnswers(keys, slots[Rank(bitmap, FragAt(keys.hash(k), shift))], k, shift + 5);
      }
      SlotAnswers(keys, bitmap, slots, k, shift);
  }

  lemma GetUnfold<K(!new), V>(keys: Keys<K>, bitmap: bv32, slots: seq<Node<K, V>>, k: K, shift: nat)
    requires Level(shift) && WF(keys, Bitmap(bitmap, slots), shift) && Sized(Bitmap(bitmap, slots), shift)
    ensures shift <= 30 && Entries(Bitmap(bitmap, slots)) == EntriesOf(slots)
    ensures var f := FragAt(keys.hash(k), shift);
      if Has(bitmap, f) then
        && Rank(bitmap, f) < |slots| && Level(shift + 5)
        && WF(keys, slots[Rank(bitmap, f)], shift + 5) && Sized(slots[Rank(bitmap, f)], shift + 5)
        && NodeGet(keys, Bitmap(bitmap, slots), k, keys.hash(k), shift)
        == NodeGet(keys, slots[Rank(bitmap, f)], k, keys.hash(k), shift + 5)
      else NodeGet(keys, Bitmap(bitmap, slots), k, keys.hash(k), shift).None?
  {
    hide FragAt, Has, Rank, Bit, PopcountWord;
    if Has(bitmap, FragAt(keys.hash(k), shift)) { ChildOk(keys, bitmap, slots, FragAt(keys.hash(k), shift), shift); }
  }

  // What the slot of the key's fragment answers is what the node answers.
  lemma SlotAnswers<K(!new), V>(keys: Keys<K>, bitmap: bv32, slots: seq<Node<K, V>>, k: K, shift: nat)
    requires keys.Lawful() && Level(shift) && shift <= 30 && WF(keys, Bitmap(bitmap, slots), shift)
    requires Sized(Bitmap(bitmap, slots), shift)
    requires var f := FragAt(keys.hash(k), shift);
      Has(bitmap, f) ==>
        && Rank(bitmap, f) < |slots| && Level(shift + 5) && Sized(slots[Rank(bitmap, f)], shift + 5)
        && Answers(keys, Entries(slots[Rank(bitmap, f)]), k,
                   NodeGet(keys, slots[Rank(bitmap, f)], k, keys.hash(k), shift + 5))
    ensures Answers(keys, EntriesOf(slots), k, NodeGet(keys, Bitmap(bitmap, slots), k, keys.hash(k), shift))
  {
    GetUnfold(keys, bitmap, slots, k, shift);
    hide FragAt, Has, Rank, Bit, Sized, NodeGet, Entries, EntriesOf, WF, Keys.Lawful;
    var f := FragAt(keys.hash(k), shift);
    if Has(bitmap, f) {
      EntryOfSlot(slots, Rank(bitmap, f));
      if NodeGet(keys, slots[Rank(bitmap, f)], k, keys.hash(k), shift + 5).None? {
        OnlyOwnSlot(keys, bitmap, slots, k, shift);
      }
    } else {
      NoSlotNoKey(keys, bitmap, slots, k, shift);
    }
  }

  // No equal key is held when the fragment has no slot.
  lemma NoSlotNoKey<K(!new), V>(keys: Keys<K>, bitmap: bv32, slots: seq<Node<K, V>>, k: K, shift: nat)
    requires keys.Lawful() && Level(shift) && shift <= 30 && WF(keys, Bitmap(bitmap, slots), shift)
    requires !Has(bitmap, FragAt(keys.hash(k), shift))
    ensures NoKey(keys, EntriesOf(slots), k)
  {
    hide FragAt, Has, Rank, Bit, WF, Entries, EntriesOf;
    forall e | e in EntriesOf(slots)
      ensures !keys.equiv(e.0, k)
    {
      var g := EntryPlace(keys, bitmap, slots, shift, e);
    }
  }

  // An equal key can only be in the slot of k's own fragment.
  lemma OnlyOwnSlot<K(!new), V>(keys: Keys<K>, bitmap: bv32, slots: seq<Node<K, V>>, k: K, shift: nat)
    requires keys.Lawful() && Level(shift) && WF(keys, Bitmap(bitmap, slots), shift)
    requires Has(bitmap, FragAt(keys.hash(k), shift)) && Rank(bitmap, FragAt(keys.hash(k), shift)) < |slots|
    requires NoKey(keys, Entries(slots[Rank(bitmap, FragAt(keys.hash(k), shift))]), k)
    ensures NoKey(keys, EntriesOf(slots), k)
  {
    hide FragAt, Has, Rank, Bit, WithBit, WithoutBit, PopcountWord, SameLow30;
    forall e | e in EntriesOf(slots)
      ensures !keys.equiv(e.0, k)
    {
      var g := EntryPlace(keys, bitmap, slots, shift, e);
    }
  }

  // ---- assoc --------------------------------------------------------------

  // A bitmap node over one child.
  lemma OneChild<K(!new), V>(keys: Keys<K>, f: Frag, child: Node<K, V>, shift: nat)
    requires Level(shift) && shift <= 30 && WF(keys, child, shift + 5) && !child.Null?
    requires Under(keys, Entries(child), shift, f)
    ensures WF(keys, Bitmap(Bit(f), [child]), shift)
    ensures Entries(Bitmap(Bit(f), [child])) == Entries(child)
  {
    hide FragAt, Has, Rank, Bit, WithBit, WithoutBit;
    EntriesOne(child);
    OneBitRank(f, 32);
    forall g: Frag | Has(Bit(f), g) && Rank(Bit(f), g) < 1
      ensures Under(keys, Entries([child][Rank(Bit(f), g)]), shift, g)
    {
      OneBitHas(f, g);
    }
  }

  // A bitmap node over two children in fragment order.
  lemma TwoChildren<K(!new), V>(keys: Keys<K>, f: Frag, m: Node<K, V>, g: Frag, n: Node<K, V>, shift: nat)
        returns (after: bool)
    requires Level(shift) && shift <= 30 && f != g
    requires WF(keys, m, shift + 5) && !m.Null? && Under(keys, Entries(m), shift, f)
    requires WF(keys, n, shift + 5) && !n.Null? && Under(keys, Entries(n), shift, g)
    ensures WF(keys, Forked(f, m, g, n), shift) && !Forked(f, m, g, n).Null?
    ensures Entries(Forked(f, m, g, n)) == if after then Entries(m) + Entries(n) else Entries(n) + Entries(m)
  {
    hide FragAt, Has, Rank, Bit, WithBit, WithoutBit;
    after := f < g;
    var bits := WithBit(Bit(f), g);
    var slots := if f < g then [m, n] else [n, m];
    EntriesConcat([m], [n]);
    EntriesConcat([n], [m]);
    EntriesOne(m);
    EntriesOne(n);
    assert [m] + [n] == [m, n] && [n] + [m] == [n, m];
    TwoBitsRank(f, g, 32);
    TwoBitsRank(f, g, f);
    TwoBitsRank(f, g, g);
    forall e: Frag | Has(bits, e) && Rank(bits, e) < |slots|
      ensures Under(keys, Entries(slots[Rank(bits, e)]), shift, e)
    {
      TwoBitsHas(f, g, e);
    }
  }

  // Two keys with one hash, or met below the last level, share a bucket.
  lemma MergeShared<K(!new), V>(keys: Keys<K>, k1: K, v1: V, k2: K, v2: V, shift: nat)
    requires Level(shift) && !keys.equiv(k1, k2) && Agree(keys.hash(k1), keys.hash(k2), shift)
    requires keys.hash(k1) == keys.hash(k2) || shift >= 30
    ensures var n := MergeEntries(k1, v1, keys.hash(k1), k2, v2, keys.hash(k2), shift);
      && WF(keys, n, shift) && !n.Null?
      && Stored(keys, [(k1, v1)], Entries(n), k2, v2, 1, 1)
  {
    hide *;
    SharedLow30(keys.hash(k1), keys.hash(k2), shift);
    PairBucket(keys, keys.hash(k1), k1, v1, k2, v2);
    MergedPair(k1, v1, keys.hash(k1), k2, v2, keys.hash(k2), shift);
    BucketNode(keys, keys.hash(k1), [(k1, v1), (k2, v2)], shift);
  }

  lemma MergedPair<K, V>(k1: K, v1: V, h1: bv32, k2: K, v2: V, h2: bv32, shift: nat)
    requires Level(shift) && (h1 == h2 || shift >= 30)
    ensures MergeEntries(k1, v1, h1, k2, v2, h2, shift) == Collision(h1, [(k1, v1), (k2, v2)])
  {
    hide FragAt, Has, Rank, Bit, WithBit, WithoutBit;
  }

  lemma PairBucket<K(!new), V>(keys: Keys<K>, tag: bv32, k1: K, v1: V, k2: K, v2: V)
    requires !keys.equiv(k1, k2) && keys.hash(k1) == tag
    requires SameLow30(tag, tag) && SameLow30(keys.hash(k2), tag)
    ensures BucketOk(keys, tag, [(k1, v1), (k2, v2)])
    ensures Stored(keys, [(k1, v1)], [(k1, v1), (k2, v2)], k2, v2, 1, 1)
  {
    hide SameLow30;
    var one := [(k1, v1)];
    assert one[..1] == one && one[1..] == [] && one + [(k2, v2)] + [] == [(k1, v1), (k2, v2)];
  }

  lemma BucketNode<K(!new), V>(keys: Keys<K>, tag: bv32, bucket: seq<(K, V)>, shift: nat)
    requires BucketOk(keys, tag, bucket)
    ensures WF(keys, Collision(tag, bucket), shift) && Entries(Collision(tag, bucket)) == bucket
  {
    hide BucketOk;
  }

  lemma {:induction false} MergeStores<K(!new), V>(keys: Keys<K>, k1: K, v1: V, k2: K, v2: V, shift: nat)
        returns (i: nat)
    requires keys.Lawful() && Level(shift) && !keys.equiv(k1, k2)
    requires Agree(keys.hash(k1), keys.hash(k2), shift)
    ensures var n := MergeEntries(k1, v1, keys.hash(k1), k2, v2, keys.hash(k2), shift);
      && WF(keys, n, shift) && !n.Null?
      && Stored(keys, [(k1, v1)], Entries(n), k2, v2, 1, i)
    decreases 35 - shift
  {
    hide *;
    var h1, h2 := keys.hash(k1), keys.hash(k2);
    LevelUp(shift);
    if h1 == h2 || shift >= 30 {
      i := 1;
      MergeShared(keys, k1, v1, k2, v2, shift);
    } else if FragAt(h1, shift) == FragAt(h2, shift) {
      AgreeStep(h1, h2, shift);
      i := MergeStores(keys, k1, v1, k2, v2, shift + 5);
      MergeDown(keys, k1, v1, k2, v2, shift, i);
    } else {
      i := MergeApart(keys, k1, v1, k2, v2, shift);
    }
  }

  lemma LevelUp(shift: nat)
    requires Level(shift)
    ensures shift <= 35 && (shift < 30 ==> Level(shift + 5))
  {}

  // One level of a merge whose keys agree on the fragment.
  lemma MergeDown<K(!new), V>(keys: Keys<K>, k1: K, v1: V, k2: K, v2: V, shift: nat, i: nat)
    requires Level(shift) && shift < 30 && keys.hash(k1) != keys.hash(k2)
    requires FragAt(keys.hash(k1), shift) == FragAt(keys.hash(k2), shift)
    requires Level(shift + 5)
    requires var child := MergeEntries(k1, v1, keys.hash(k1), k2, v2, keys.hash(k2), shift + 5);
      && WF(keys, child, shift + 5) && !child.Null?
      && Stored(keys, [(k1, v1)], Entries(child), k2, v2, 1, i)
    ensures var n := MergeEntries(k1, v1, keys.hash(k1), k2, v2, keys.hash(k2), shift);
      && WF(keys, n, shift) && !n.Null?
      && Stored(keys, [(k1, v1)], Entries(n), k2, v2, 1, i)
  {
    hide *;
    var h1, h2 := keys.hash(k1), keys.hash(k2);
    var f := FragAt(h1, shift);
    var child := MergeEntries(k1, v1, h1, k2, v2, h2, shift + 5);
    LeafNode(keys, k1, v1, shift);
    StoredUnder(keys, [(k1, v1)], Entries(child), k2, v2, 1, i, shift, f);
    OneChild(keys, f, child, shift);
    MergeUnfold(k1, v1, h1, k2, v2, h2, shift);
  }

  lemma MergeUnfold<K, V>(k1: K, v1: V, h1: bv32, k2: K, v2: V, h2: bv32, shift: nat)
    requires Level(shift) && h1 != h2 && shift < 30
    ensures var f1, f2 := FragAt(h1, shift), FragAt(h2, shift);
      && Level(shift + 5)
      && MergeEntries(k1, v1, h1, k2, v2, h2, shift)
      == if f1 == f2 then Bitmap(Bit(f1), [MergeEntries(k1, v1, h1, k2, v2, h2, shift + 5)])
         else Forked(f1, Entry(k1, v1), f2, Entry(k2, v2))
  {
    hide FragAt, Bit, Forked;
  }

  lemma MergeApart<K(!new), V>(keys: Keys<K>, k1: K, v1: V, k2: K, v2: V, shift: nat) returns (i: nat)
    requires Level(shift) && shift < 30 && !keys.equiv(k1, k2) && keys.hash(k1) != keys.hash(k2)
    requires FragAt(keys.hash(k1), shift) != FragAt(keys.hash(k2), shift)
    ensures var n := MergeEntries(k1, v1, keys.hash(k1), k2, v2, keys.hash(k2), shift);
      && WF(keys, n, shift) && !n.Null?
      && Stored(keys, [(k1, v1)], Entries(n), k2, v2, 1, i)
  {
    hide *;
    MergeUnfold(k1, v1, keys.hash(k1), k2, v2, keys.hash(k2), shift);
    LeafNode(keys, k1, v1, shift);
    LeafNode(keys, k2, v2, shift);
    var after := TwoChildren(keys, FragAt(keys.hash(k1), shift), Entry(k1, v1), FragAt(keys.hash(k2), shift),
      Entry(k2, v2), shift);
    NoKeyOne(keys, k1, v1, k2);
    i := StoredBeside(keys, [(k1, v1)], k2, v2, after);
  }

  lemma LeafNode<K(!new), V>(keys: Keys<K>, k: K, v: V, shift: nat)
    requires shift <= 30
    ensures WF(keys, Entry(k, v), shift + 5) && Entries(Entry(k, v)) == [(k, v)]
    ensures Under(keys, Entries(Entry(k, v)), shift, FragAt(keys.hash(k), shift))
  {
    hide FragAt;
  }

  lemma NoKeyOne<K(!new), V>(keys: Keys<K>, k1: K, v1: V, k2: K)
    requires !keys.equiv(k1, k2)
    ensures NoKey(keys, [(k1, v1)], k2)
  {}

  // A new entry put after or before all the others.
  lemma StoredBeside<K(!new), V>(keys: Keys<K>, es: seq<(K, V)>, k: K, v: V, after: bool) returns (i: nat)
    requires NoKey(keys, es, k)
    ensures Stored(keys, es, if after then es + [(k, v)] else [(k, v)] + es, k, v, 1, i)
  {
    i := if after then |es| else 0;
    assert es[..|es|] == es && es[|es|..] == [] && es[..0] == [] && es[0..] == es;
  }

  lemma SharedLow30(g: bv32, h: bv32, shift: nat)
    requires Level(shift) && Agree(g, h, shift) && (g == h || shift >= 30)
    ensures SameLow30(g, g) && SameLow30(h, g)
  {
    hide FragAt;
    AgreeIsLow30(g, h);
    if shift >= 30 { AgreeShorter(g, h, 30, shift); }
    LowSym(g, h);
  }

  // Replacing or adding a key in a bucket of its own hash.
  lemma BucketStores<K(!new), V>(keys: Keys<K>, tag: bv32, bucket: seq<(K, V)>, k: K, v: V) returns (i: nat)
    requires keys.Lawful() && BucketOk(keys, tag, bucket) && keys.hash(k) == tag
    ensures var j := FindIndex(keys, bucket, k);
      var (b, added) := if j >= 0 then (bucket[j := (k, v)], 0) else (bucket + [(k, v)], 1);
      BucketOk(keys, tag, b) && Stored(keys, bucket, b, k, v, added, i)
  {
    hide SameLow30;
    var j := FindIndex(keys, bucket, k);
    LowSym(tag, tag);
    SharedLow30Self(tag);
    if j >= 0 {
      i := j;
      var b := bucket[j := (k, v)];
      forall e | e in b
        ensures SameLow30(keys.hash(e.0), tag)
      {
        if e != (k, v) { assert e in bucket; }
      }
      forall m, n | 0 <= m < n < |b|
        ensures !keys.equiv(b[m].0, b[n].0)
      {
        assert !keys.equiv(bucket[m].0, bucket[n].0);
      }
    } else {
      i := |bucket|;
      assert bucket + [(k, v)] == bucket[..i] + [(k, v)] + bucket[i..];
      forall e | e in bucket
        ensures !keys.equiv(e.0, k)
      {
        var m :| 0 <= m < |bucket| && bucket[m] == e;
      }
    }
  }

  lemma SharedLow30Self(h: bv32)
    ensures SameLow30(h, h)
  {}

  // Outside the trap a bucket met under another label has one fragment.
  lemma BucketUnder<K(!new), V>(keys: Keys<K>, tag: bv32, bucket: seq<(K, V)>, h: bv32, shift: nat)
    requires Level(shift) && BucketOk(keys, tag, bucket)
    requires OnPath(keys, Collision(tag, bucket), h, shift)
    requires h != tag && !Trapped(keys, Collision(tag, bucket), h, shift)
    ensures shift <= 30 && Under(keys, bucket, shift, FragAt(tag, shift))
  {
    hide FragAt, SameLow30, Agree;
    CollisionOnPath(keys, tag, bucket, h, shift);
    if shift == 30 {
      forall e | e in bucket
        ensures FragAt(keys.hash(e.0), shift) == FragAt(tag, shift)
      {
        assert keys.hash(e.0) == tag;
      }
    }
  }

  // A bucket met under another label, branched from the new entry.
  lemma BranchStores<K(!new), V>(keys: Keys<K>, tag: bv32, bucket: seq<(K, V)>, k: K, v: V, shift: nat) returns (i: nat)
    requires keys.Lawful() && Level(shift) && BucketOk(keys, tag, bucket)
    requires shift <= 30 && FragAt(tag, shift) != FragAt(keys.hash(k), shift)
    requires Under(keys, bucket, shift, FragAt(tag, shift))
    ensures var n := Forked(FragAt(tag, shift), Collision(tag, bucket), FragAt(keys.hash(k), shift), Entry(k, v));
      && WF(keys, n, shift) && !n.Null?
      && Stored(keys, bucket, Entries(n), k, v, 1, i)
  {
    hide *;
    var f, nf := FragAt(tag, shift), FragAt(keys.hash(k), shift);
    BucketNode(keys, tag, bucket, shift + 5);
    LeafNode(keys, k, v, shift);
    var after := TwoChildren(keys, f, Collision(tag, bucket), nf, Entry(k, v), shift);
    OffFragment(keys, bucket, k, shift, f);
    i := StoredBeside(keys, bucket, k, v, after);
  }

  lemma OffFragment<K(!new), V>(keys: Keys<K>, es: seq<(K, V)>, k: K, shift: nat, f: Frag)
    requires keys.Lawful() && shift <= 30 && Under(keys, es, shift, f) && FragAt(keys.hash(k), shift) != f
    ensures NoKey(keys, es, k)
  {
    hide FragAt;
  }

  // A fresh slot for a fragment the bitmap lacks.
  lemma SlotAddedShape<K(!new), V>(keys: Keys<K>, bitmap: bv32, slots: seq<Node<K, V>>, f: Frag, k: K, v: V, shift: nat)
    requires Level(shift) && WF(keys, Bitmap(bitmap, slots), shift)
    requires f == FragAt(keys.hash(k), shift) && !Has(bitmap, f)
    ensures Rank(bitmap, f) <= |slots|
    ensures WF(keys, Widened(bitmap, f, slots, Rank(bitmap, f), Entry(k, v)), shift)
  {
    hide FragAt, Has, Rank, Bit, WithBit, WithoutBit;
    var pos := Rank(bitmap, f);
    RankGrows(bitmap, f, 32);
    var bits := WithBit(bitmap, f);
    var slots' := slots[..pos] + [Entry(k, v)] + slots[pos..];
    RankSetBit(bitmap, f, 32);
    forall j | 0 <= j < |slots'|
      ensures !slots'[j].Null? && WF(keys, slots'[j], shift + 5)
    {
      if j < pos { assert slots'[j] == slots[j]; }
      if j > pos { assert slots'[j] == slots[j - 1]; }
    }
    forall g: Frag | Has(bits, g) && Rank(bits, g) < |slots'|
      ensures Under(keys, Entries(slots'[Rank(bits, g)]), shift, g)
    {
      SlotShifted(keys, bitmap, slots, f, k, v, shift, g);
    }
  }

  // Where the child of another fragment is after the insertion.
  lemma SlotShifted<K(!new), V>(keys: Keys<K>, bitmap: bv32, slots: seq<Node<K, V>>, f: Frag, k: K, v: V, shift: nat,
        g: Frag)
    requires Level(shift) && WF(keys, Bitmap(bitmap, slots), shift)
    requires f == FragAt(keys.hash(k), shift) && !Has(bitmap, f) && Rank(bitmap, f) <= |slots|
    requires Has(WithBit(bitmap, f), g)
    ensures var slots' := slots[..Rank(bitmap, f)] + [Entry(k, v)] + slots[Rank(bitmap, f)..];
      && Rank(WithBit(bitmap, f), g) < |slots'|
      && Under(keys, Entries(slots'[Rank(WithBit(bitmap, f), g)]), shift, g)
  {
    hide FragAt, Has, Rank, Bit, WithBit;
    var slots' := slots[..Rank(bitmap, f)] + [Entry(k, v)] + slots[Rank(bitmap, f)..];
    SetBit(bitmap, f, g);
    RankSetBit(bitmap, f, g);
    RankGrows(bitmap, g, 32);
    if g < f {
      RankGrows(bitmap, g, f);
      assert slots'[Rank(WithBit(bitmap, f), g)] == slots[Rank(bitmap, g)];
    } else if g > f {
      RankGrows(bitmap, f, g);
      assert slots'[Rank(WithBit(bitmap, f), g)] == slots[Rank(bitmap, g)];
    }
  }

  lemma SlotAdded<K(!new), V>(keys: Keys<K>, bitmap: bv32, slots: seq<Node<K, V>>, k: K, v: V, shift: nat)
        returns (i: nat)
    requires keys.Lawful() && Level(shift) && WF(keys, Bitmap(bitmap, slots), shift)
    requires !Has(bitmap, FragAt(keys.hash(k), shift))
    ensures var f := FragAt(keys.hash(k), shift);
      && Rank(bitmap, f) <= |slots|
      && var n := Widened(bitmap, f, slots, Rank(bitmap, f), Entry(k, v));
      && WF(keys, n, shift) && Stored(keys, EntriesOf(slots), Entries(n), k, v, 1, i)
  {
    hide FragAt, Has, Rank, Bit, WithBit, WithoutBit;
    var f := FragAt(keys.hash(k), shift);
    SlotAddedShape(keys, bitmap, slots, f, k, v, shift);
    forall e | e in EntriesOf(slots)
      ensures !keys.equiv(e.0, k)
    {
      var g := EntryPlace(keys, bitmap, slots, shift, e);
    }
    i := EntriesInserted(keys, slots, Rank(bitmap, f), k, v);
  }

  lemma EntriesInserted<K(!new), V>(keys: Keys<K>, slots: seq<Node<K, V>>, pos: nat, k: K, v: V) returns (i: nat)
    requires pos <= |slots| && NoKey(keys, EntriesOf(slots), k)
    ensures Stored(keys, EntriesOf(slots), EntriesOf(slots[..pos] + [Entry(k, v)] + slots[pos..]), k, v, 1, i)
  {
    i := |EntriesOf(slots[..pos])|;
    EntriesAround(slots[..pos], Entry(k, v), slots[pos..]);
    EntriesConcat(slots[..pos], slots[pos..]);
    CutAt(slots, pos);
    InsertBetween(EntriesOf(slots[..pos]), (k, v), EntriesOf(slots[pos..]));
  }

  lemma InsertBetween<T>(a: seq<T>, x: T, b: seq<T>)
    ensures (a + b)[..|a|] + [x] + (a + b)[|a|..] == a + [x] + b
  {
    assert (a + b)[..|a|] == a && (a + b)[|a|..] == b;
  }

  // A slot whose child is replaced by another on the same fragment.
  lemma SlotReplaced<K(!new), V>(keys: Keys<K>, bitmap: bv32, slots: seq<Node<K, V>>, f: Frag, child: Node<K, V>,
        shift: nat)
    requires Level(shift) && WF(keys, Bitmap(bitmap, slots), shift) && Has(bitmap, f)
    requires WF(keys, child, shift + 5) && !child.Null? && Under(keys, Entries(child), shift, f)
    ensures Rank(bitmap, f) < |slots|
    ensures WF(keys, Bitmap(bitmap, slots[Rank(bitmap, f) := child]), shift)
  {
    hide FragAt, Has, Rank, Bit, WithBit, WithoutBit;
    RankGrows(bitmap, f, 32);
    var slots' := slots[Rank(bitmap, f) := child];
    forall g: Frag | Has(bitmap, g) && Rank(bitmap, g) < |slots'|
      ensures Under(keys, Entries(slots'[Rank(bitmap, g)]), shift, g)
    {
      if Rank(bitmap, g) == Rank(bitmap, f) { RankInjective(bitmap, f, g); }
    }
  }

  // The entries around one changed slot.
  lemma EntriesReplaced<K, V>(slots: seq<Node<K, V>>, pos: nat, child: Node<K, V>)
        returns (left: seq<(K, V)>, right: seq<(K, V)>)
    requires pos < |slots|
    ensures EntriesOf(slots) == left + Entries(slots[pos]) + right
    ensures EntriesOf(slots[pos := child]) == left + Entries(child) + right
    ensures left == EntriesOf(slots[..pos]) && right == EntriesOf(slots[pos + 1..])
  {
    left, right := EntriesOf(slots[..pos]), EntriesOf(slots[pos + 1..]);
    EntriesSplit(slots, pos);
    EntriesSplit(slots[pos := child], pos);
    assert slots[pos := child][..pos] == slots[..pos] && slots[pos := child][pos + 1..] == slots[pos + 1..];
  }

  // A change inside a part is the same change of the whole.
  lemma StoredInside<K(!new), V>(keys: Keys<K>, left: seq<(K, V)>, es: seq<(K, V)>, es': seq<(K, V)>,
        right: seq<(K, V)>,
      k: K, v: V, added: nat, i: nat)
    requires Stored(keys, es, es', k, v, added, i)
    requires added == 1 ==> NoKey(keys, left + es + right, k)
    ensures Stored(keys, left + es + right, left + es' + right, k, v, added, |left| + i)
  {
    hide NoKey;
    if added == 0 {
      UpdateInside(left, es, right, i, (k, v));
    } else {
      InsertInside(left, es, right, i, (k, v));
    }
  }

  lemma UpdateInside<T>(left: seq<T>, es: seq<T>, right: seq<T>, i: nat, x: T)
    requires i < |es|
    ensures (left + es + right)[|left| + i] == es[i]
    ensures left + es[i := x] + right == (left + es + right)[|left| + i := x]
  {}

  lemma InsertInside<T>(left: seq<T>, es: seq<T>, right: seq<T>, i: nat, x: T)
    requires i <= |es|
    ensures var all, at := left + es + right, |left| + i;
      left + (es[..i] + [x] + es[i..]) + right == all[..at] + [x] + all[at..]
  {
    var all := left + es + right;
    assert all[..|left| + i] == left + es[..i];
    assert all[|left| + i..] == es[i..] + right;
  }

  lemma AssocNull<K(!new), V>(keys: Keys<K>, k: K, v: V, shift: nat)
    requires Level(shift)
    requires WF(keys, Node<K, V>.Null, shift) && OnPath(keys, Node<K, V>.Null, keys.hash(k), shift)
    ensures var (n, added) := NodeAssoc(keys, Null, k, v, keys.hash(k), shift);
      && WF(keys, n, shift) && !n.Null?
      && Stored(keys, Entries(Node<K, V>.Null), Entries(n), k, v, added, 0)
  {}

  lemma AssocEntry<K(!new), V>(keys: Keys<K>, nk: K, nv: V, k: K, v: V, shift: nat) returns (i: nat)
    requires keys.Lawful() && Level(shift)
    requires WF(keys, Entry(nk, nv), shift) && OnPath(keys, Entry(nk, nv), keys.hash(k), shift)
    ensures var (n, added) := NodeAssoc(keys, Entry(nk, nv), k, v, keys.hash(k), shift);
      && WF(keys, n, shift) && !n.Null?
      && Stored(keys, Entries(Entry(nk, nv)), Entries(n), k, v, added, i)
  {
    hide *;
    OneEntry(keys, nk, nv, k, v, shift);
    if keys.equiv(nk, k) {
      i := 0;
      EntryReplaced(keys, nk, nv, k, v, shift);
    } else {
      i := MergeStores(keys, nk, nv, k, v, shift);
    }
  }

  lemma OneEntry<K(!new), V>(keys: Keys<K>, nk: K, nv: V, k: K, v: V, shift: nat)
    requires Level(shift) && WF(keys, Entry(nk, nv), shift) && OnPath(keys, Entry(nk, nv), keys.hash(k), shift)
    ensures Entries(Entry(nk, nv)) == [(nk, nv)] && shift <= 35 && Agree(keys.hash(nk), keys.hash(k), shift)
    ensures !keys.equiv(nk, k) ==>
      NodeAssoc(keys, Entry(nk, nv), k, v, keys.hash(k), shift)
      == (MergeEntries(nk, nv, keys.hash(nk), k, v, keys.hash(k), shift), 1)
  {
    hide Agree, MergeEntries;
    assert (nk, nv) in Entries(Entry(nk, nv));
  }

  lemma EntryReplaced<K(!new), V>(keys: Keys<K>, nk: K, nv: V, k: K, v: V, shift: nat)
    requires keys.equiv(nk, k) && Level(shift)
    requires WF(keys, Entry(nk, nv), shift) && OnPath(keys, Entry(nk, nv), keys.hash(k), shift)
    ensures var (n, added) := NodeAssoc(keys, Entry(nk, nv), k, v, keys.hash(k), shift);
      && WF(keys, n, shift) && !n.Null?
      && Stored(keys, Entries(Entry(nk, nv)), Entries(n), k, v, added, 0)
  {
    hide Agree, MergeEntries, OnPath;
  }

  // In the bucket of its own hash the key replaces its equal or comes last.
  lemma AssocOwnTag<K(!new), V>(keys: Keys<K>, tag: bv32, bucket: seq<(K, V)>, k: K, v: V, shift: nat) returns (i: nat)
    requires keys.Lawful() && Level(shift) && WF(keys, Collision(tag, bucket), shift)
    requires OnPath(keys, Collision(tag, bucket), keys.hash(k), shift) && keys.hash(k) == tag
    ensures var (n, added) := NodeAssoc(keys, Collision(tag, bucket), k, v, keys.hash(k), shift);
      && WF(keys, n, shift) && !n.Null?
      && Stored(keys, Entries(Collision(tag, bucket)), Entries(n), k, v, added, i)
  {
    hide Agree, OnPath, BucketOk, Stored, MergeEntries, SameLow30, NoKey;
    i := BucketStores(keys, tag, bucket, k, v);
  }

  // Assoc replaces the entry of an equal key or adds one, outside the trap.
  lemma {:induction false} AssocStores<K(!new), V>(keys: Keys<K>, node: Node<K, V>, k: K, v: V, shift: nat)
        returns (i: nat)
    requires keys.Lawful() && Level(shift) && WF(keys, node, shift) && OnPath(keys, node, keys.hash(k), shift)
    requires !Trapped(keys, node, keys.hash(k), shift)
    ensures var (n, added) := NodeAssoc(keys, node, k, v, keys.hash(k), shift);
      && WF(keys, n, shift) && !n.Null?
      && Stored(keys, Entries(node), Entries(n), k, v, added, i)
    decreases 35 - shift
  {
    hide *;
    match node
    case Null =>
      i := 0;
      AssocNull(keys, k, v, shift);
    case Entry(nk, nv) => i := AssocEntry(keys, nk, nv, k, v, shift);
    case Collision(tag, bucket) =>
      if keys.hash(k) == tag {
        i := AssocOwnTag(keys, tag, bucket, k, v, shift);
      } else {
        i := AssocOtherTag(keys, tag, bucket, k, v, shift);
      }
    case Bitmap(bitmap, slots) =>
      ShiftOfBitmap(keys, bitmap, slots, shift);
      if Has(bitmap, FragAt(keys.hash(k), shift)) {
        i := AssocInSlot(keys, bitmap, slots, k, v, shift);
      } else {
        i := AssocAddsSlot(keys, bitmap, slots, k, v, shift);
      }
  }

  lemma ShiftOfBitmap<K(!new), V>(keys: Keys<K>, bitmap: bv32, slots: seq<Node<K, V>>, shift: nat)
    requires WF(keys, Bitmap(bitmap, slots), shift)
    ensures shift <= 30
  {
    hide Has, Rank;
  }

  lemma {:induction false} AssocOtherTag<K(!new), V>(keys: Keys<K>, tag: bv32, bucket: seq<(K, V)>, k: K, v: V,
        shift: nat) returns (i: nat)
    requires keys.Lawful() && Level(shift) && WF(keys, Collision(tag, bucket), shift)
    requires OnPath(keys, Collision(tag, bucket), keys.hash(k), shift)
    requires !Trapped(keys, Collision(tag, bucket), keys.hash(k), shift) && keys.hash(k) != tag
    ensures var (n, added) := NodeAssoc(keys, Collision(tag, bucket), k, v, keys.hash(k), shift);
      && WF(keys, n, shift) && !n.Null?
      && Stored(keys, Entries(Collision(tag, bucket)), Entries(n), k, v, added, i)
    decreases 35 - shift, 0
  {
    hide *;
    var h := keys.hash(k);
    var node := Collision(tag, bucket);
    BucketBelow(keys, tag, bucket, k, v, h, shift);
    var f, nf := FragAt(tag, shift), FragAt(h, shift);
    if f == nf {
      i := AssocStores(keys, node, k, v, shift + 5);
      var (child, added) := NodeAssoc(keys, node, k, v, h, shift + 5);
      StoredUnder(keys, bucket, Entries(child), k, v, added, i, shift, f);
      OneChild(keys, f, child, shift);
    } else {
      i := BranchStores(keys, tag, bucket, k, v, shift);
    }
  }

  // Assoc at a bucket of another hash, one level unfolded.
  lemma BucketBelow<K(!new), V>(keys: Keys<K>, tag: bv32, bucket: seq<(K, V)>, k: K, v: V, h: bv32, shift: nat)
    requires Level(shift) && WF(keys, Collision(tag, bucket), shift)
    requires OnPath(keys, Collision(tag, bucket), h, shift) && h != tag
    requires !Trapped(keys, Collision(tag, bucket), h, shift)
    ensures shift <= 30 && BucketOk(keys, tag, bucket) && Under(keys, bucket, shift, FragAt(tag, shift))
    ensures Entries(Collision(tag, bucket)) == bucket
    ensures var node := Collision(tag, bucket);
      var f, nf := FragAt(tag, shift), FragAt(h, shift);
      if f == nf then
        && shift < 30 && Level(shift + 5) && WF(keys, node, shift + 5) && OnPath(keys, node, h, shift + 5)
        && !Trapped(keys, node, h, shift + 5)
        && var (child, added) := NodeAssoc(keys, node, k, v, h, shift + 5);
        NodeAssoc(keys, node, k, v, h, shift) == (Bitmap(Bit(f), [child]), added)
      else NodeAssoc(keys, node, k, v, h, shift) == (Forked(f, node, nf, Entry(k, v)), 1)
  {
    hide FragAt, Bit, SameLow30, Agree, BucketOk, OnPath, Forked, Under;
    CollisionOnPath(keys, tag, bucket, h, shift);
    BucketUnder(keys, tag, bucket, h, shift);
  }

  // Assoc at a bitmap node, one level unfolded: into a slot, or a new slot.
  lemma AssocIntoSlot<K(!new), V>(keys: Keys<K>, bitmap: bv32, slots: seq<Node<K, V>>, k: K, v: V, h: bv32,
        shift: nat, f: Frag)
    requires Level(shift) && WF(keys, Bitmap(bitmap, slots), shift) && OnPath(keys, Bitmap(bitmap, slots), h, shift)
    requires f == FragAt(h, shift) && Has(bitmap, f)
    requires Rank(bitmap, f) < |slots| && Level(shift + 5)
    requires WF(keys, slots[Rank(bitmap, f)], shift + 5) && OnPath(keys, slots[Rank(bitmap, f)], h, shift + 5)
    ensures NodeAssoc(keys, Bitmap(bitmap, slots), k, v, h, shift).0
         == Bitmap(bitmap, slots[Rank(bitmap, f) := NodeAssoc(keys, slots[Rank(bitmap, f)], k, v, h, shift + 5).0])
    ensures NodeAssoc(keys, Bitmap(bitmap, slots), k, v, h, shift).1
      == NodeAssoc(keys, slots[Rank(bitmap, f)], k, v, h, shift + 5).1
  {
    hide FragAt, Has, Rank, Bit, WithBit, WithoutBit, PopcountWord, SameLow30, Agree;
  }

  lemma AssocNewSlot<K(!new), V>(keys: Keys<K>, bitmap: bv32, slots: seq<Node<K, V>>, k: K, v: V, h: bv32,
        shift: nat, f: Frag)
    requires Level(shift) && WF(keys, Bitmap(bitmap, slots), shift) && OnPath(keys, Bitmap(bitmap, slots), h, shift)
    requires f == FragAt(h, shift) && !Has(bitmap, f)
    ensures Rank(bitmap, f) <= |slots|
    ensures NodeAssoc(keys, Bitmap(bitmap, slots), k, v, h, shift).0
         == Widened(bitmap, f, slots, Rank(bitmap, f), Entry(k, v))
    ensures NodeAssoc(keys, Bitmap(bitmap, slots), k, v, h, shift).0.Bitmap?
    ensures NodeAssoc(keys, Bitmap(bitmap, slots), k, v, h, shift).1 == 1
    ensures Entries(Bitmap(bitmap, slots)) == EntriesOf(slots)
  {
    hide FragAt, Has, Rank, Bit, WithBit, WithoutBit, PopcountWord, SameLow30, Agree;
    RankGrows(bitmap, f, 32);
  }

  lemma AssocAddsSlot<K(!new), V>(keys: Keys<K>, bitmap: bv32, slots: seq<Node<K, V>>, k: K, v: V, shift: nat)
        returns (i: nat)
    requires keys.Lawful() && Level(shift) && WF(keys, Bitmap(bitmap, slots), shift)
    requires OnPath(keys, Bitmap(bitmap, slots), keys.hash(k), shift)
    requires shift <= 30 && !Has(bitmap, FragAt(keys.hash(k), shift))
    ensures var (n, added) := NodeAssoc(keys, Bitmap(bitmap, slots), k, v, keys.hash(k), shift);
      && WF(keys, n, shift) && !n.Null?
      && Stored(keys, Entries(Bitmap(bitmap, slots)), Entries(n), k, v, added, i)
  {
    hide *;
    AssocNewSlot(keys, bitmap, slots, k, v, keys.hash(k), shift, FragAt(keys.hash(k), shift));
    i := SlotAdded(keys, bitmap, slots, k, v, shift);
  }

  lemma {:induction false} AssocInSlot<K(!new), V>(keys: Keys<K>, bitmap: bv32, slots: seq<Node<K, V>>, k: K, v: V,
        shift: nat) returns (i: nat)
    requires keys.Lawful() && Level(shift) && WF(keys, Bitmap(bitmap, slots), shift)
    requires OnPath(keys, Bitmap(bitmap, slots), keys.hash(k), shift)
    requires !Trapped(keys, Bitmap(bitmap, slots), keys.hash(k), shift)
    requires Has(bitmap, FragAt(keys.hash(k), shift))
    ensures var (n, added) := NodeAssoc(keys, Bitmap(bitmap, slots), k, v, keys.hash(k), shift);
      && WF(keys, n, shift) && !n.Null?
      && Stored(keys, Entries(Bitmap(bitmap, slots)), Entries(n), k, v, added, i)
    decreases 35 - shift, 0
  {
    hide FragAt, Has, Rank, Bit, WithBit, WithoutBit, PopcountWord, SameLow30, Agree, NodeAssoc, Stored;
    var h := keys.hash(k);
    var f := FragAt(h, shift);
    var pos := Rank(bitmap, f);
    ChildOnPath(keys, bitmap, slots, f, h, shift);
    AssocIntoSlot(keys, bitmap, slots, k, v, h, shift, f);
    var j := AssocStores(keys, slots[pos], k, v, shift + 5);
    var (child, added) := NodeAssoc(keys, slots[pos], k, v, h, shift + 5);
    StoredUnder(keys, Entries(slots[pos]), Entries(child), k, v, added, j, shift, f);
    SlotReplaced(keys, bitmap, slots, f, child, shift);
    i := SlotStores(keys, bitmap, slots, child, k, v, added, j, shift);
  }

  lemma SlotStores<K(!new), V>(keys: Keys<K>, bitmap: bv32, slots: seq<Node<K, V>>, child: Node<K, V>, k: K, v: V,
        added: nat, j: nat, shift: nat)
      returns (i: nat)
    requires keys.Lawful() && Level(shift) && WF(keys, Bitmap(bitmap, slots), shift)
    requires Has(bitmap, FragAt(keys.hash(k), shift)) && Rank(bitmap, FragAt(keys.hash(k), shift)) < |slots|
    requires Stored(keys, Entries(slots[Rank(bitmap, FragAt(keys.hash(k), shift))]), Entries(child), k, v, added, j)
    ensures Stored(keys, EntriesOf(slots), EntriesOf(slots[Rank(bitmap, FragAt(keys.hash(k), shift)) := child]), k,
      v, added, i)
  {
    hide FragAt, Has, Rank, Bit, WithBit, WithoutBit;
    var pos := Rank(bitmap, FragAt(keys.hash(k), shift));
    var left, right := EntriesReplaced(slots, pos, child);
    if added == 1 { OnlyOwnSlot(keys, bitmap, slots, k, shift); }
    StoredInside(keys, left, Entries(slots[pos]), Entries(child), right, k, v, added, j);
    i := |left| + j;
  }

  lemma StoredUnder<K(!new), V>(keys: Keys<K>, es: seq<(K, V)>, es': seq<(K, V)>, k: K, v: V, added: nat, i: nat,
        shift: nat, f: Frag)
    requires Stored(keys, es, es', k, v, added, i) && shift <= 30 && Under(keys, es, shift, f)
    requires FragAt(keys.hash(k), shift) == f
    ensures Under(keys, es', shift, f)
  {
    hide FragAt;
    forall e | e in es'
      ensures FragAt(keys.hash(e.0), shift) == f
    {
      if e != (k, v) { assert e in es; }
    }
  }

  // ---- dissoc -------------------------------------------------------------

  lemma BucketRemoves<K(!new), V>(keys: Keys<K>, tag: bv32, bucket: seq<(K, V)>, i: nat)
    requires BucketOk(keys, tag, bucket) && i < |bucket|
    ensures var rest := bucket[..i] + bucket[i + 1..];
      |rest| == 1 || BucketOk(keys, tag, rest)
  {
    hide SameLow30;
    var rest := bucket[..i] + bucket[i + 1..];
    assert forall e | e in rest :: e in bucket;
  }

  lemma RemovedInside<K(!new), V>(keys: Keys<K>, left: seq<(K, V)>, es: seq<(K, V)>, es': seq<(K, V)>,
        right: seq<(K, V)>, k: K, i: nat)
    requires Removed(keys, es, es', k, 1, i)
    ensures Removed(keys, left + es + right, left + es' + right, k, 1, |left| + i)
  {
    var all := left + es + right;
    assert all[|left| + i] == es[i];
    assert all[..|left| + i] == left + es[..i];
    assert all[|left| + i + 1..] == es[i + 1..] + right;
  }

  // A slot dropped together with its bit.
  lemma SlotDropped<K(!new), V>(keys: Keys<K>, bitmap: bv32, slots: seq<Node<K, V>>, f: Frag, shift: nat)
    requires Level(shift) && WF(keys, Bitmap(bitmap, slots), shift) && Has(bitmap, f)
    ensures Rank(bitmap, f) < |slots|
    ensures var rest := slots[..Rank(bitmap, f)] + slots[Rank(bitmap, f) + 1..];
      |rest| == 0 || WF(keys, Bitmap(WithoutBit(bitmap, f), rest), shift)
  {
    hide FragAt, Has, Rank, Bit, WithBit, WithoutBit;
    var pos := Rank(bitmap, f);
    RankGrows(bitmap, f, 32);
    var rest := slots[..pos] + slots[pos + 1..];
    var bits := WithoutBit(bitmap, f);
    RankClearBit(bitmap, f, 32);
    forall j | 0 <= j < |rest|
      ensures !rest[j].Null? && WF(keys, rest[j], shift + 5)
    {
      assert rest[j] == slots[if j < pos then j else j + 1];
    }
    forall g: Frag | Has(bits, g) && Rank(bits, g) < |rest|
      ensures Under(keys, Entries(rest[Rank(bits, g)]), shift, g)
    {
      ClearBit(bitmap, f, g);
      RankClearBit(bitmap, f, g);
      if g < f { RankGrows(bitmap, g, f); } else { RankGrows(bitmap, f, g); }
      RankGrows(bitmap, g, 32);
      assert rest[Rank(bits, g)] == slots[Rank(bitmap, g)];
    }
  }

  // Dissoc removes the entry of an equal key and nothing else.
  lemma {:induction false} DissocRemoves<K(!new), V>(keys: Keys<K>, node: Node<K, V>, k: K, shift: nat) returns (i: nat)
    requires keys.Lawful() && Level(shift) && WF(keys, node, shift)
    ensures var (n, removed) := NodeDissoc(keys, node, k, keys.hash(k), shift);
      && WF(keys, n, shift)
      && (removed == 0 ==> n == node)
      && Removed(keys, Entries(node), Entries(n), k, removed, i)
    decreases 35 - shift
  {
    hide FragAt, Has, Rank, Bit, WithBit, WithoutBit, PopcountWord, SameLow30;
    i := 0;
    match node
    case Null =>
    case Entry(nk, nv) =>
    case Collision(tag, bucket) => i := DissocInBucket(keys, tag, bucket, k, shift);
    case Bitmap(bitmap, slots) =>
      var f := FragAt(keys.hash(k), shift);
      if Has(bitmap, f) {
        i := DissocInSlot(keys, bitmap, slots, k, shift);
      } else {
        forall e | e in EntriesOf(slots)
          ensures !keys.equiv(e.0, k)
        {
          var g := EntryPlace(keys, bitmap, slots, shift, e);
        }
      }
  }

  lemma DissocInBucket<K(!new), V>(keys: Keys<K>, tag: bv32, bucket: seq<(K, V)>, k: K, shift: nat) returns (i: nat)
    requires keys.Lawful() && Level(shift) && BucketOk(keys, tag, bucket)
    ensures var (n, removed) := NodeDissoc(keys, Collision(tag, bucket), k, keys.hash(k), shift);
      && WF(keys, n, shift)
      && (removed == 0 ==> n == Collision(tag, bucket))
      && Removed(keys, bucket, Entries(n), k, removed, i)
  {
    hide FragAt, Has, Rank, Bit, WithBit, WithoutBit, PopcountWord, SameLow30;
    var j := FindIndex(keys, bucket, k);
    if j >= 0 {
      i := j;
      BucketRemoves(keys, tag, bucket, i);
    } else {
      i := 0;
      AbsentFromBucket(keys, bucket, k);
    }
  }

  lemma AbsentFromBucket<K(!new), V>(keys: Keys<K>, bucket: seq<(K, V)>, k: K)
    requires FindIndex(keys, bucket, k) < 0
    ensures NoKey(keys, bucket, k)
  {
    forall e | e in bucket
      ensures !keys.equiv(e.0, k)
    {
      var m :| 0 <= m < |bucket| && bucket[m] == e;
    }
  }

  lemma DissocUnfold<K(!new), V>(keys: Keys<K>, bitmap: bv32, slots: seq<Node<K, V>>, k: K, h: bv32, shift: nat,
        f: Frag)
    requires Level(shift) && WF(keys, Bitmap(bitmap, slots), shift) && f == FragAt(h, shift) && Has(bitmap, f)
    requires Rank(bitmap, f) < |slots| && Level(shift + 5) && WF(keys, slots[Rank(bitmap, f)], shift + 5)
    ensures var (child, removed) := NodeDissoc(keys, slots[Rank(bitmap, f)], k, h, shift + 5);
      NodeDissoc(keys, Bitmap(bitmap, slots), k, h, shift) == (SlotResult(bitmap, slots, f, child, removed), removed)
  {
    hide FragAt, Has, Rank, Bit, WithBit, WithoutBit, PopcountWord, SameLow30, Settled, RestOfSlots;
  }

  // The node made from what the slot of k's fragment became.
  function SlotResult<K, V>(bitmap: bv32, slots: seq<Node<K, V>>, f: Frag, child: Node<K, V>, removed: nat): Node<K, V>
    requires Rank(bitmap, f) < |slots|
  {
    if removed == 0 then Bitmap(bitmap, slots)
    else Settled(if child.Null? then WithoutBit(bitmap, f) else bitmap, RestOfSlots(slots, Rank(bitmap, f), child))
  }

  lemma NoneRemoved<K(!new), V>(keys: Keys<K>, es: seq<(K, V)>, es': seq<(K, V)>, k: K, i: nat)
    requires Removed(keys, es, es', k, 0, i)
    ensures NoKey(keys, es, k)
  {}

  lemma RemovedOnce<K(!new), V>(keys: Keys<K>, es: seq<(K, V)>, es': seq<(K, V)>, k: K, removed: nat, i: nat)
    requires Removed(keys, es, es', k, removed, i)
    ensures removed <= 1
  {}

  lemma RemovedNone<K(!new), V>(keys: Keys<K>, es: seq<(K, V)>, k: K, i: nat)
    requires NoKey(keys, es, k)
    ensures Removed(keys, es, es, k, 0, i)
  {}

  lemma EntriesBelow<K, V>(bitmap: bv32, slots: seq<Node<K, V>>)
    ensures Entries(Bitmap(bitmap, slots)) == EntriesOf(slots)
  {}

  lemma SlotResultRemoves<K(!new), V>(keys: Keys<K>, bitmap: bv32, slots: seq<Node<K, V>>, k: K, shift: nat,
      child: Node<K, V>, removed: nat, j: nat) returns (i: nat)
    requires keys.Lawful() && Level(shift) && WF(keys, Bitmap(bitmap, slots), shift)
    requires Has(bitmap, FragAt(keys.hash(k), shift)) && Rank(bitmap, FragAt(keys.hash(k), shift)) < |slots|
    requires WF(keys, child, shift + 5)
    requires Removed(keys, Entries(slots[Rank(bitmap, FragAt(keys.hash(k), shift))]), Entries(child), k, removed, j)
    ensures var n := SlotResult(bitmap, slots, FragAt(keys.hash(k), shift), child, removed);
      && WF(keys, n, shift)
      && Removed(keys, EntriesOf(slots), Entries(n), k, removed, i)
  {
    hide FragAt, Has, Rank, Bit, WithBit, WithoutBit, Settled, RestOfSlots, Removed, Entries;
    var f := FragAt(keys.hash(k), shift);
    if removed == 0 {
      i := 0;
      NoneRemoved(keys, Entries(slots[Rank(bitmap, f)]), Entries(child), k, j);
      OnlyOwnSlot(keys, bitmap, slots, k, shift);
      RemovedNone(keys, EntriesOf(slots), k, i);
      EntriesBelow(bitmap, slots);
    } else {
      assert removed == 1 by { RemovedOnce(keys, Entries(slots[Rank(bitmap, f)]), Entries(child), k, removed, j); }
      SlotLost(keys, bitmap, slots, f, child, k, j, shift);
      i := |EntriesOf(slots[..Rank(bitmap, f)])| + j;
    }
  }

  lemma {:induction false} DissocInSlot<K(!new), V>(keys: Keys<K>, bitmap: bv32, slots: seq<Node<K, V>>, k: K,
        shift: nat) returns (i: nat)
    requires keys.Lawful() && Level(shift) && WF(keys, Bitmap(bitmap, slots), shift)
    requires Has(bitmap, FragAt(keys.hash(k), shift))
    ensures var (n, removed) := NodeDissoc(keys, Bitmap(bitmap, slots), k, keys.hash(k), shift);
      && WF(keys, n, shift)
      && (removed == 0 ==> n == Bitmap(bitmap, slots))
      && Removed(keys, EntriesOf(slots), Entries(n), k, removed, i)
    decreases 35 - shift, 0
  {
    hide FragAt, Has, Rank, Bit, WithBit, WithoutBit, PopcountWord, Settled, RestOfSlots, NodeDissoc, Entries,
      EntriesOf, Removed;
    var h := keys.hash(k);
    var f := FragAt(h, shift);
    ChildOk(keys, bitmap, slots, f, shift);
    DissocUnfold(keys, bitmap, slots, k, h, shift, f);
    var child := slots[Rank(bitmap, f)];
    var j := DissocRemoves(keys, child, k, shift + 5);
    var (child', removed) := NodeDissoc(keys, child, k, h, shift + 5);
    i := SlotResultRemoves(keys, bitmap, slots, k, shift, child', removed, j);
  }

  lemma RestEntries<K(!new), V>(keys: Keys<K>, slots: seq<Node<K, V>>, pos: nat, child: Node<K, V>, k: K, j: nat)
    requires pos < |slots|
    requires Removed(keys, Entries(slots[pos]), Entries(child), k, 1, j)
    ensures Removed(keys, EntriesOf(slots), EntriesOf(RestOfSlots(slots, pos, child)), k, 1,
      |EntriesOf(slots[..pos])| + j)
  {
    hide *;
    var left, right := EntriesReplaced(slots, pos, child);
    RemovedInside(keys, left, Entries(slots[pos]), Entries(child), right, k, j);
    RestIs(slots, pos, child);
  }

  // What is left holds the entries beside the child and the child's own.
  lemma RestIs<K, V>(slots: seq<Node<K, V>>, pos: nat, child: Node<K, V>)
    requires pos < |slots|
    ensures EntriesOf(RestOfSlots(slots, pos, child))
      == EntriesOf(slots[..pos]) + Entries(child) + EntriesOf(slots[pos + 1..])
  {
    var left, right := EntriesReplaced(slots, pos, child);
    if child.Null? {
      EntriesConcat(slots[..pos], slots[pos + 1..]);
      assert left + [] + right == left + right;
    }
  }

  // The node around a slot that lost an entry.
  lemma RestShape<K(!new), V>(keys: Keys<K>, bitmap: bv32, slots: seq<Node<K, V>>, f: Frag, child: Node<K, V>, k: K,
        j: nat, shift: nat)
    requires Level(shift) && WF(keys, Bitmap(bitmap, slots), shift) && Has(bitmap, f) && Rank(bitmap, f) < |slots|
    requires WF(keys, child, shift + 5)
    requires Removed(keys, Entries(slots[Rank(bitmap, f)]), Entries(child), k, 1, j)
    ensures var rest := RestOfSlots(slots, Rank(bitmap, f), child);
      var bits := if child.Null? then WithoutBit(bitmap, f) else bitmap;
      && (|rest| == 0 || WF(keys, Bitmap(bits, rest), shift))
  {
    hide FragAt, Has, Rank, Bit, WithBit, WithoutBit;
    if child.Null? {
      SlotDropped(keys, bitmap, slots, f, shift);
    } else {
      assert forall e | e in Entries(child) :: e in Entries(slots[Rank(bitmap, f)]);
      SlotReplaced(keys, bitmap, slots, f, child, shift);
    }
  }

  lemma SettledShape<K(!new), V>(keys: Keys<K>, bits: bv32, rest: seq<Node<K, V>>, shift: nat)
    requires |rest| == 0 || WF(keys, Bitmap(bits, rest), shift)
    ensures WF(keys, Settled(bits, rest), shift) && Entries(Settled(bits, rest)) == EntriesOf(rest)
  {
    hide FragAt, Has, Rank, Bit, WithBit, WithoutBit;
    if |rest| == 1 {
      EntriesOne(rest[0]);
      assert rest == [rest[0]];
      assert WF(keys, rest[0], shift + 5);
    }
  }

  lemma SlotLost<K(!new), V>(keys: Keys<K>, bitmap: bv32, slots: seq<Node<K, V>>, f: Frag, child: Node<K, V>, k: K,
        j: nat, shift: nat)
    requires Level(shift) && WF(keys, Bitmap(bitmap, slots), shift) && Has(bitmap, f) && Rank(bitmap, f) < |slots|
    requires WF(keys, child, shift + 5)
    requires Removed(keys, Entries(slots[Rank(bitmap, f)]), Entries(child), k, 1, j)
    ensures var pos := Rank(bitmap, f);
      var n := Settled(if child.Null? then WithoutBit(bitmap, f) else bitmap, RestOfSlots(slots, pos, child));
      && WF(keys, n, shift)
      && Removed(keys, EntriesOf(slots), Entries(n), k, 1, |EntriesOf(slots[..pos])| + j)
  {
    hide FragAt, Has, Rank, Bit, WithBit, WithoutBit, WF, Entries, EntriesOf, Removed, RestOfSlots, Settled;
    var pos := Rank(bitmap, f);
    RestEntries(keys, slots, pos, child, k, j);
    RestShape(keys, bitmap, slots, f, child, k, j, shift);
    SettledShape(keys, if child.Null? then WithoutBit(bitmap, f) else bitmap, RestOfSlots(slots, pos, child), shift);
  }
}
