// Runs of operations, the exact condition of assoc, and the hypothesis on key
// hashes under which every run is a run of map updates.
module HamtRuns {
  import opened Bits32
  import opened Options
  import opened Hamt
  import opened HamtRefinement
  import opened HamtMap

  // ---- the trap is exactly where assoc fails ------------------------------

  // A live key of another hash in the bucket where the search for h is trapped
  // is lost, or counted twice when it is the very key being put.
  ghost predicate Lost<K(!new), V>(keys: Keys<K>, node: Node<K, V>, n: Node<K, V>, added: nat, k: K, shift: nat,
        e: (K, V))
    requires Level(shift)
  {
    && e in Entries(node)
    && Sized(n, shift)
    && added == 1
    && (keys.equiv(e.0, k) || NodeGet(keys, n, e.0, keys.hash(e.0), shift).None?)
  }

  lemma {:induction false} TrappedLoses<K(!new), V>(keys: Keys<K>, node: Node<K, V>, k: K, v: V, shift: nat)
        returns (e: (K, V))
    requires keys.Lawful() && Level(shift) && WF(keys, node, shift) && OnPath(keys, node, keys.hash(k), shift)
    requires Trapped(keys, node, keys.hash(k), shift)
    ensures var (n, added) := NodeAssoc(keys, node, k, v, keys.hash(k), shift);
      Lost(keys, node, n, added, k, shift, e)
    decreases 35 - shift
  {
    hide FragAt, Has, Rank, Bit, WithBit, WithoutBit, PopcountWord, SameLow30, Agree;
    match node
    case Collision(tag, bucket) => e := BucketLoses(keys, tag, bucket, k, v, shift);
    case Bitmap(bitmap, slots) => e := SlotLoses(keys, bitmap, slots, k, v, shift);
  }

  // Entries sharing the low 30 bits of the label go the label's way.
  lemma LowFragment<K(!new), V>(keys: Keys<K>, tag: bv32, g: bv32, shift: nat)
    requires Level(shift) && SameLow30(g, tag)
    ensures shift < 30 ==> FragAt(g, shift) == FragAt(tag, shift)
    ensures shift == 30 && g != tag ==> FragAt(g, shift) != FragAt(tag, shift)
  {
    hide FragAt, SameLow30, Agree;
    AgreeIsLow30(g, tag);
    AgreeIsEqual(g, tag);
    if shift < 30 {
      AgreeShorter(g, tag, shift, 30);
    } else {
      AgreeStep(g, tag, 30);
    }
  }

  // What assoc makes of a bucket of another hash.
  lemma AssocBucket<K(!new), V>(keys: Keys<K>, tag: bv32, bucket: seq<(K, V)>, k: K, v: V, h: bv32, shift: nat)
    requires Level(shift) && BucketOk(keys, tag, bucket) && OnPath(keys, Collision(tag, bucket), h, shift) && h != tag
    ensures shift <= 30
    ensures FragAt(tag, shift) == FragAt(h, shift) ==> shift < 30 && OnPath(keys, Collision(tag, bucket), h, shift + 5)
    ensures var node := Collision(tag, bucket);
      var f, nf := FragAt(tag, shift), FragAt(h, shift);
      AssocCollision(keys, tag, bucket, k, v, h, shift) ==
        if f == nf then
          var (child, added) := AssocCollision(keys, tag, bucket, k, v, h, shift + 5);
          (Bitmap(Bit(f), [child]), added)
        else (Forked(f, node, nf, Entry(k, v)), 1)
  {
    hide FragAt, Has, Rank, Bit, WithBit, WithoutBit, PopcountWord, SameLow30, Agree;
    CollisionOnPath(keys, tag, bucket, h, shift);
  }

  lemma OneSized<K(!new), V>(f: Frag, child: Node<K, V>, shift: nat)
    requires Level(shift) && shift <= 30 && Sized(child, shift + 5)
    ensures Level(shift + 5) && Sized(Bitmap(Bit(f), [child]), shift)
  {
    hide Has, Rank, Bit;
    OneBitRank(f, 32);
  }

  // A lookup in a node of one branch looks in the branch.
  lemma GetInOne<K(!new), V>(keys: Keys<K>, f: Frag, child: Node<K, V>, x: K, shift: nat)
    requires Level(shift) && shift <= 30 && Level(shift + 5) && FragAt(keys.hash(x), shift) == f
    requires Sized(child, shift + 5) && Sized(Bitmap(Bit(f), [child]), shift)
    ensures NodeGet(keys, Bitmap(Bit(f), [child]), x, keys.hash(x), shift)
         == NodeGet(keys, child, x, keys.hash(x), shift + 5)
  {
    hide FragAt, Has, Rank, Bit, WithBit, WithoutBit, PopcountWord;
    OneBitRank(f, 32);
    OneBitRank(f, f);
    OneBitHas(f, f);
  }

  lemma EquivBack<K(!new)>(keys: Keys<K>, a: K, b: K)
    requires keys.Lawful()
    ensures keys.equiv(a, b) ==> keys.equiv(b, a)
  {}

  // Where the paths part, the entry of another hash is on neither branch.
  lemma PairLoses<K(!new), V>(keys: Keys<K>, tag: bv32, bucket: seq<(K, V)>, k: K, v: V, shift: nat, e: (K, V))
    requires keys.Lawful() && Level(shift) && SameLow30(keys.hash(e.0), tag)
    requires shift == 30 && FragAt(tag, shift) != FragAt(keys.hash(k), shift) && e in bucket && keys.hash(e.0) != tag
    ensures var f, nf := FragAt(tag, shift), FragAt(keys.hash(k), shift);
      var node := Collision(tag, bucket);
      Lost(keys, node, Forked(f, node, nf, Entry(k, v)), 1, k, shift, e)
  {
    hide FragAt, Has, Rank, Bit, WithBit, WithoutBit, PopcountWord, SameLow30, Agree, NodeGet, Keys.Lawful;
    LowFragment<K, V>(keys, tag, keys.hash(e.0), shift);
    assert Sized(Collision(tag, bucket), shift + 5);
    EquivBack(keys, k, e.0);
    hide Sized;
    GetInPair(keys, FragAt(tag, shift), Collision(tag, bucket), FragAt(keys.hash(k), shift), k, v, e.0, shift);
  }

  lemma BucketLow<K(!new), V>(keys: Keys<K>, tag: bv32, bucket: seq<(K, V)>, e: (K, V))
    requires BucketOk(keys, tag, bucket) && e in bucket
    ensures SameLow30(keys.hash(e.0), tag)
  {
    hide SameLow30;
  }

  // One branch down, what is lost below is lost here.
  lemma BranchLoses<K(!new), V>(keys: Keys<K>, tag: bv32, bucket: seq<(K, V)>, child: Node<K, V>, added: nat, k: K,
        shift: nat, e: (K, V))
    requires Level(shift) && shift < 30 && BucketOk(keys, tag, bucket)
    requires Lost(keys, Collision(tag, bucket), child, added, k, shift + 5, e)
    ensures Lost(keys, Collision(tag, bucket), Bitmap(Bit(FragAt(tag, shift)), [child]), added, k, shift, e)
  {
    hide FragAt, Has, Rank, Bit, WithBit, WithoutBit, PopcountWord, SameLow30, Agree, NodeGet;
    LowFragment<K, V>(keys, tag, keys.hash(e.0), shift);
    OneSized(FragAt(tag, shift), child, shift);
    GetInOne(keys, FragAt(tag, shift), child, e.0, shift);
  }

  lemma {:induction false} BucketLoses<K(!new), V>(keys: Keys<K>, tag: bv32, bucket: seq<(K, V)>, k: K, v: V,
        shift: nat) returns (e: (K, V))
    requires keys.Lawful() && Level(shift) && BucketOk(keys, tag, bucket)
    requires OnPath(keys, Collision(tag, bucket), keys.hash(k), shift)
    requires Trapped(keys, Collision(tag, bucket), keys.hash(k), shift)
    ensures var (n, added) := AssocCollision(keys, tag, bucket, k, v, keys.hash(k), shift);
      Lost(keys, Collision(tag, bucket), n, added, k, shift, e)
    decreases 35 - shift, 0
  {
    hide FragAt, Has, Rank, Bit, WithBit, WithoutBit, PopcountWord, SameLow30, Agree, AssocCollision, NodeGet,
      OnPath, BucketOk, Lost, Sized;
    var h := keys.hash(k);
    AssocBucket(keys, tag, bucket, k, v, h, shift);
    LowFragment<K, V>(keys, tag, h, shift);
    if FragAt(tag, shift) == FragAt(h, shift) {
      e := BucketLoses(keys, tag, bucket, k, v, shift + 5);
      var (child, added) := AssocCollision(keys, tag, bucket, k, v, h, shift + 5);
      BranchLoses(keys, tag, bucket, child, added, k, shift, e);
    } else {
      e :| e in bucket && keys.hash(e.0) != tag;
      BucketLow(keys, tag, bucket, e);
      PairLoses(keys, tag, bucket, k, v, shift, e);
    }
  }

  // A lookup in a branch of a node and a new entry, off the node's fragment,
  // finds the new entry or nothing.
  lemma GetInPair<K(!new), V>(keys: Keys<K>, f: Frag, node: Node<K, V>, nf: Frag, k: K, v: V, x: K, shift: nat)
    requires Level(shift) && shift <= 30 && f != nf && Sized(node, shift + 5)
    requires FragAt(keys.hash(x), shift) != f
    ensures var n := Forked(f, node, nf, Entry(k, v));
      && Sized(n, shift)
      && (keys.equiv(k, x) || NodeGet(keys, n, x, keys.hash(x), shift).None?)
  {
    hide FragAt, Has, Rank, Bit, WithBit, WithoutBit, PopcountWord;
    var n := Forked(f, node, nf, Entry(k, v));
    var g := FragAt(keys.hash(x), shift);
    TwoBitsRank(f, nf, 32);
    TwoBitsRank(f, nf, nf);
    TwoBitsHas(f, nf, g);
    if g == nf {
      assert n.slots[SlotOf(n.bitmap, g)] == Entry(k, v);
    }
  }

  lemma {:induction false} SlotLoses<K(!new), V>(keys: Keys<K>, bitmap: bv32, slots: seq<Node<K, V>>, k: K, v: V,
        shift: nat) returns (e: (K, V))
    requires keys.Lawful() && Level(shift) && WF(keys, Bitmap(bitmap, slots), shift)
    requires OnPath(keys, Bitmap(bitmap, slots), keys.hash(k), shift)
    requires Trapped(keys, Bitmap(bitmap, slots), keys.hash(k), shift)
    ensures var (n, added) := NodeAssoc(keys, Bitmap(bitmap, slots), k, v, keys.hash(k), shift);
      Lost(keys, Bitmap(bitmap, slots), n, added, k, shift, e)
    decreases 35 - shift, 0
  {
    hide *;
    var h := keys.hash(k);
    TrapInSlot(keys, bitmap, slots, h, shift);
    var f := FragAt(h, shift);
    ChildOnPath(keys, bitmap, slots, f, h, shift);
    e := TrappedLoses(keys, slots[Rank(bitmap, f)], k, v, shift + 5);
    AssocIntoSlot(keys, bitmap, slots, k, v, h, shift, f);
    var (child, added) := NodeAssoc(keys, slots[Rank(bitmap, f)], k, v, h, shift + 5);
    LostAbove(keys, bitmap, slots, f, child, added, k, shift, e);
  }

  lemma TrapInSlot<K(!new), V>(keys: Keys<K>, bitmap: bv32, slots: seq<Node<K, V>>, h: bv32, shift: nat)
    requires Level(shift) && WF(keys, Bitmap(bitmap, slots), shift) && Trapped(keys, Bitmap(bitmap, slots), h, shift)
    ensures shift <= 30 && Has(bitmap, FragAt(h, shift)) && Rank(bitmap, FragAt(h, shift)) < |slots|
    ensures var child := slots[Rank(bitmap, FragAt(h, shift))];
      Level(shift + 5) && WF(keys, child, shift + 5) && Trapped(keys, child, h, shift + 5)
  {
    hide FragAt, Has, Rank, Bit, PopcountWord, SameLow30;
    ChildOk(keys, bitmap, slots, FragAt(h, shift), shift);
  }

  // What is lost from a child is lost from the node above.
  lemma LostAbove<K(!new), V>(keys: Keys<K>, bitmap: bv32, slots: seq<Node<K, V>>, f: Frag, child: Node<K, V>,
        added: nat, k: K, shift: nat, e: (K, V))
    requires Level(shift) && Level(shift + 5) && WF(keys, Bitmap(bitmap, slots), shift) && Has(bitmap, f)
    requires Rank(bitmap, f) < |slots| && Lost(keys, slots[Rank(bitmap, f)], child, added, k, shift + 5, e)
    ensures Lost(keys, Bitmap(bitmap, slots), Bitmap(bitmap, slots[Rank(bitmap, f) := child]), added, k, shift, e)
  {
    hide FragAt, Has, Rank, Bit, PopcountWord, SameLow30;
    EntryOfSlot(slots, Rank(bitmap, f));
    WFSized(keys, Bitmap(bitmap, slots), shift);
    assert Under(keys, Entries(slots[Rank(bitmap, f)]), shift, f);
  }

  // What a caller expects of assoc: every lookup is that of the updated map, and
  // the count grows exactly when the key was absent.
  ghost predicate AssocFaithful<K(!new), V>(keys: Keys<K>, m: Map<K, V>, k: K, v: V)
    requires Valid(keys, m) && Sized(m.root, 0)
  {
    var m' := MapAssoc(keys, m, k, v);
    && Sized(m'.root, 0)
    && (forall x :: MapFind(keys, m', x) == if keys.equiv(k, x) then Some(v) else MapFind(keys, m, x))
    && m'.count == m.count + (if MapHas(keys, m, k) then 0 else 1)
  }

  lemma TrappedUnfaithful<K(!new), V>(keys: Keys<K>, m: Map<K, V>, k: K, v: V)
    requires keys.Lawful() && Valid(keys, m) && Trapped(keys, m.root, keys.hash(k), 0)
    ensures Sized(m.root, 0) && !AssocFaithful(keys, m, k, v)
  {
    hide NodeAssoc, NodeGet, WF, Sized, Trapped, Entries, OnPath;
    WFSized(keys, m.root, 0);
    RootOnPath(keys, m.root, keys.hash(k));
    var e := TrappedLoses(keys, m.root, k, v, 0);
    FindIsLookup(keys, m, e.0);
    FindIsLookup(keys, m, k);
    LookupNone(keys, Entries(m.root), e.0);
    LookupNone(keys, Entries(m.root), k);
    var m' := MapAssoc(keys, m, k, v);
    if keys.equiv(e.0, k) {
      assert MapHas(keys, m, k);
    } else {
      assert keys.equiv(e.0, e.0) && !keys.equiv(k, e.0) by {
        assert keys.equiv(k, e.0) ==> keys.equiv(e.0, k);
      }
      assert MapFind(keys, m', e.0).None? && MapFind(keys, m, e.0).Some?;
    }
  }

  // Assoc is a map update if and only if the search path of the key does not
  // end in the trap.
  lemma AssocFaithfulIff<K(!new), V>(keys: Keys<K>, m: Map<K, V>, k: K, v: V)
    requires keys.Lawful() && Valid(keys, m)
    ensures Sized(m.root, 0)
    ensures AssocFaithful(keys, m, k, v) <==> !Trapped(keys, m.root, keys.hash(k), 0)
  {
    WFSized(keys, m.root, 0);
    if Trapped(keys, m.root, keys.hash(k), 0) {
      TrappedUnfaithful(keys, m, k, v);
    } else {
      var f := ModelOf(keys, m);
      AssocRefines(keys, m, f, k, v);
      AssocFaithfulOf(keys, m, k, v, f);
    }
  }

  lemma AssocFaithfulOf<K(!new), V>(keys: Keys<K>, m: Map<K, V>, k: K, v: V, f: Model<K, V>)
    requires keys.Lawful() && Represents(keys, m, f)
    requires Represents(keys, MapAssoc(keys, m, k, v), Put(keys, f, k, v))
    requires MapAssoc(keys, m, k, v).count == m.count + (if f(k).Some? then 0 else 1)
    ensures AssocFaithful(keys, m, k, v)
  {
    hide NodeAssoc, NodeGet, WF, Sized, Lookup;
    var m' := MapAssoc(keys, m, k, v);
    forall x
      ensures MapFind(keys, m', x) == if keys.equiv(k, x) then Some(v) else MapFind(keys, m, x)
    {
      assert MapFind(keys, m', x) == Put(keys, f, k, v)(x);
    }
    assert MapFind(keys, m, k) == f(k);
  }

  // Every valid trie stands for the map its own lookups define.
  lemma ModelOf<K(!new), V>(keys: Keys<K>, m: Map<K, V>) returns (f: Model<K, V>)
    requires keys.Lawful() && Valid(keys, m)
    ensures Represents(keys, m, f)
  {
    hide WF, Sized, NodeGet, Entries;
    f := x => Lookup(keys, Entries(m.root), x);
    WFSized(keys, m.root, 0);
    forall x
      ensures MapFind(keys, m, x) == f(x)
    {
      FindIsLookup(keys, m, x);
    }
  }

  // ---- the hypothesis on hashes -------------------------------------------

  // Two keys have equal hashes or differ in the low 30 bits.
  ghost predicate Separated<K(!new)>(keys: Keys<K>, a: K, b: K) {
    keys.hash(a) == keys.hash(b) || !SameLow30(keys.hash(a), keys.hash(b))
  }

  // No key separated from all live keys is ever trapped.
  lemma {:induction false} SeparatedNotTrapped<K(!new), V>(keys: Keys<K>, node: Node<K, V>, k: K, shift: nat)
    requires Level(shift) && WF(keys, node, shift)
    requires forall e | e in Entries(node) :: Separated(keys, e.0, k)
    ensures !Trapped(keys, node, keys.hash(k), shift)
    decreases node
  {
    hide FragAt, Has, Rank, Bit, WithBit, WithoutBit, PopcountWord, SameLow30;
    match node
    case Null =>
    case Entry(_, _) =>
    case Collision(tag, bucket) =>
      var e := LabelHeld(keys, tag, bucket);
      LowSym(tag, keys.hash(k));
      assert Separated(keys, e.0, k);
    case Bitmap(bitmap, slots) =>
      var f := FragAt(keys.hash(k), shift);
      RankGrows(bitmap, f, 32);
      if Has(bitmap, f) {
        EntryOfSlot(slots, SlotOf(bitmap, f));
        SeparatedNotTrapped(keys, slots[SlotOf(bitmap, f)], k, shift + 5);
      }
  }

  // Without the hypothesis the trap arises after two puts: a and b of different
  // hashes with equal low 30 bits trap every key c of that family but a's own.
  lemma TrapArises<K(!new), V>(keys: Keys<K>, a: K, va: V, b: K, vb: V, c: K)
    requires keys.Lawful()
    requires keys.hash(a) != keys.hash(b) && !Separated(keys, b, a)
    requires keys.hash(c) != keys.hash(a) && !Separated(keys, c, a)
    ensures Valid(keys, Empty<K, V>())
    ensures var m1 := MapAssoc(keys, Empty<K, V>(), a, va);
      && Valid(keys, m1)
      && var m2 := MapAssoc(keys, m1, b, vb);
      && Valid(keys, m2) && Trapped(keys, m2.root, keys.hash(c), 0)
  {
    hide FragAt, Has, Rank, Bit, WithBit, WithoutBit, PopcountWord, SameLow30, MergeEntries;
    var m1 := MapAssoc(keys, Empty<K, V>(), a, va);
    assert m1 == Map(Entry(a, va), 1);
    LowSym(keys.hash(a), keys.hash(b));
    LowSym(keys.hash(a), keys.hash(c));
    AgreeNone(keys.hash(a), keys.hash(b));
    assert !keys.equiv(a, b);
    var i := MergeStores(keys, a, va, b, vb, 0);
    var m2 := MapAssoc(keys, m1, b, vb);
    StoredDistinct(keys, Entries(m1.root), Entries(m2.root), b, vb, 1, i);
    MergeTraps(keys, a, va, b, vb, keys.hash(c), 0);
  }

  lemma {:induction false} MergeTraps<K(!new), V>(keys: Keys<K>, a: K, va: V, b: K, vb: V, h: bv32, shift: nat)
    requires keys.Lawful() && Level(shift) && shift <= 30
    requires keys.hash(a) != keys.hash(b) && SameLow30(keys.hash(b), keys.hash(a))
    requires h != keys.hash(a) && SameLow30(h, keys.hash(a))
    ensures var n := MergeEntries(a, va, keys.hash(a), b, vb, keys.hash(b), shift);
      WF(keys, n, shift) && Trapped(keys, n, h, shift)
    decreases 30 - shift
  {
    hide *;
    var g := keys.hash(a);
    AgreeLow(keys.hash(b), g, shift);
    OtherHash(keys, a, b);
    var i := MergeStores(keys, a, va, b, vb, shift);
    if shift == 30 {
      MergedPair(a, va, g, b, vb, keys.hash(b), shift);
      PairTraps(keys, g, a, va, b, vb, h, shift);
    } else {
      LowFragment<K, V>(keys, g, keys.hash(b), shift);
      LowFragment<K, V>(keys, g, h, shift);
      MergeUnfold(a, va, g, b, vb, keys.hash(b), shift);
      MergeTraps(keys, a, va, b, vb, h, shift + 5);
      OneTraps(keys, FragAt(g, shift), MergeEntries(a, va, g, b, vb, keys.hash(b), shift + 5), h, shift);
    }
  }

  lemma OtherHash<K(!new)>(keys: Keys<K>, a: K, b: K)
    requires keys.Lawful() && keys.hash(a) != keys.hash(b)
    ensures !keys.equiv(a, b)
  {}

  lemma AgreeLow(g: bv32, h: bv32, shift: nat)
    requires Level(shift) && shift <= 30 && SameLow30(g, h)
    ensures Agree(h, g, shift) && (shift != 30 ==> shift + 5 <= 30 && Level(shift + 5))
  {
    hide FragAt, SameLow30, Agree;
    LowSym(g, h);
    AgreeIsLow30(h, g);
    AgreeShorter(h, g, shift, 30);
  }

  lemma PairTraps<K(!new), V>(keys: Keys<K>, tag: bv32, a: K, va: V, b: K, vb: V, h: bv32, shift: nat)
    requires Level(shift) && WF(keys, Collision(tag, [(a, va), (b, vb)]), shift)
    requires keys.hash(b) != tag && h != tag && SameLow30(h, tag)
    ensures Trapped(keys, Collision(tag, [(a, va), (b, vb)]), h, shift)
  {
    hide SameLow30, BucketOk;
    assert (b, vb) in [(a, va), (b, vb)];
  }

  lemma OneTraps<K(!new), V>(keys: Keys<K>, f: Frag, child: Node<K, V>, h: bv32, shift: nat)
    requires Level(shift) && WF(keys, Bitmap(Bit(f), [child]), shift) && shift <= 30 && FragAt(h, shift) == f
    requires Level(shift + 5) && WF(keys, child, shift + 5) && Trapped(keys, child, h, shift + 5)
    ensures Trapped(keys, Bitmap(Bit(f), [child]), h, shift)
  {
    hide FragAt, Has, Rank, Bit, WF, SameLow30, PopcountWord;
    OneBitHas(f, f);
    OneBitRank(f, f);
  }

  // ---- texts as keys ------------------------------------------------------

  // A code unit of a text, and the library's hash of texts.
  type CodeUnit = c: bv32 | c < 0x1_0000

  function Mix(h: bv32, c: bv32): bv32 { (h << 5) - h + c }

  function HashFrom(h: bv32, text: seq<CodeUnit>): bv32
    decreases |text|
  {
    if text == [] then h else HashFrom(Mix(h, text[0]), text[1..])
  }

  const TEXT_KEYS: Keys<seq<CodeUnit>> :=
    Keys((x: seq<CodeUnit>) => HashFrom(2, x), (x: seq<CodeUnit>, y: seq<CodeUnit>) => x == y)

  lemma HashOfEight(s: seq<CodeUnit>)
    requires |s| == 8
    ensures HashFrom(2, s) ==
      Mix(Mix(Mix(Mix(Mix(Mix(Mix(Mix(2, s[0]), s[1]), s[2]), s[3]), s[4]), s[5]), s[6]), s[7])
  {
    hide Mix;
    HashOfFour(2, s);
    HashOfFour(Mix(Mix(Mix(Mix(2, s[0]), s[1]), s[2]), s[3]), s[4..]);
    assert s[4..][4..] == [];
  }

  lemma HashOfFour(h: bv32, s: seq<CodeUnit>)
    requires |s| >= 4
    ensures HashFrom(h, s) == HashFrom(Mix(Mix(Mix(Mix(h, s[0]), s[1]), s[2]), s[3]), s[4..])
  {
    hide Mix;
    assert s[1..][1..] == s[2..] && s[2..][1..] == s[3..] && s[3..][1..] == s[4..];
    assert HashFrom(h, s) == HashFrom(Mix(h, s[0]), s[1..]);
    assert HashFrom(Mix(h, s[0]), s[1..]) == HashFrom(Mix(Mix(h, s[0]), s[1]), s[2..]);
    var g := Mix(Mix(h, s[0]), s[1]);
    assert HashFrom(g, s[2..]) == HashFrom(Mix(g, s[2]), s[3..]);
  }

  // "kobzxjzu", "lgbnjtqi" and "whnmlksm".
  const KOBZXJZU: seq<CodeUnit> := [107, 111, 98, 122, 120, 106, 122, 117]
  const LGBNJTQI: seq<CodeUnit> := [108, 103, 98, 110, 106, 116, 113, 105]
  const WHNMLKSM: seq<CodeUnit> := [119, 104, 110, 109, 108, 107, 115, 109]

  lemma TextHashes()
    ensures HashFrom(2, KOBZXJZU) == 0x31a49a6b
    ensures HashFrom(2, LGBNJTQI) == 0xf1a49a6b
    ensures HashFrom(2, WHNMLKSM) == 0xb1a49a6b
  {
    HashOfEight(KOBZXJZU);
    HashOfEight(LGBNJTQI);
    HashOfEight(WHNMLKSM);
  }

  lemma TextsClash()
    ensures TEXT_KEYS.Lawful()
    ensures !Separated(TEXT_KEYS, LGBNJTQI, KOBZXJZU) && !Separated(TEXT_KEYS, WHNMLKSM, KOBZXJZU)
    ensures TEXT_KEYS.hash(LGBNJTQI) != TEXT_KEYS.hash(KOBZXJZU)
    ensures TEXT_KEYS.hash(WHNMLKSM) != TEXT_KEYS.hash(KOBZXJZU)
  {
    hide HashFrom;
    TextHashes();
  }

  // The hypothesis is needed: three texts whose hashes differ in the top two bits
  // only, put one after the other, lose a key.
  lemma HypothesisNeeded() returns (m: Map<seq<CodeUnit>, int>)
    ensures Valid(TEXT_KEYS, Empty<seq<CodeUnit>, int>())
    ensures TEXT_KEYS.Lawful() && Valid(TEXT_KEYS, m) && Sized(m.root, 0)
    ensures var m1 := MapAssoc(TEXT_KEYS, Empty<seq<CodeUnit>, int>(), KOBZXJZU, 1);
      Valid(TEXT_KEYS, m1) && m == MapAssoc(TEXT_KEYS, m1, LGBNJTQI, 2)
    ensures !AssocFaithful(TEXT_KEYS, m, WHNMLKSM, 3)
  {
    hide *;
    TextsClash();
    TrapArises(TEXT_KEYS, KOBZXJZU, 1, LGBNJTQI, 2, WHNMLKSM);
    ValidWF(TEXT_KEYS, Empty<seq<CodeUnit>, int>());
    var m1 := MapAssoc(TEXT_KEYS, Empty<seq<CodeUnit>, int>(), KOBZXJZU, 1);
    ValidWF(TEXT_KEYS, m1);
    m := MapAssoc(TEXT_KEYS, m1, LGBNJTQI, 2);
    TrappedUnfaithful(TEXT_KEYS, m, WHNMLKSM, 3);
  }

  // ---- runs ---------------------------------------------------------------

  datatype Op<K, V> = Assoc(k: K, v: V) | Dissoc(k: K)

  // The run of a list of operations on the trie, where it is defined: no assoc
  // is trapped.
  ghost predicate Runnable<K(!new), V>(keys: Keys<K>, m: Map<K, V>, ops: seq<Op<K, V>>)
    requires keys.Lawful() && Valid(keys, m)
    decreases |ops|
  {
    ops != [] ==>
      && (ops[0].Assoc? ==> !Trapped(keys, m.root, keys.hash(ops[0].k), 0))
      && Valid(keys, Apply(keys, m, ops[0]))
      && Runnable(keys, Apply(keys, m, ops[0]), ops[1..])
  }

  // Every assoc is of a key separated from the live ones.
  ghost predicate Apart<K(!new), V>(keys: Keys<K>, m: Map<K, V>, ops: seq<Op<K, V>>)
    requires keys.Lawful() && Valid(keys, m)
    decreases |ops|
  {
    ops != [] ==>
      && (ops[0].Assoc? ==> forall e | e in Entries(m.root) :: Separated(keys, e.0, ops[0].k))
      && Valid(keys, Apply(keys, m, ops[0]))
      && Apart(keys, Apply(keys, m, ops[0]), ops[1..])
  }

  lemma {:induction false} ApartRunnable<K(!new), V>(keys: Keys<K>, m: Map<K, V>, ops: seq<Op<K, V>>)
    requires keys.Lawful() && Valid(keys, m) && Apart(keys, m, ops)
    ensures Runnable(keys, m, ops)
    decreases |ops|
  {
    hide Separated, Apply, Entries, WF, Trapped;
    if ops != [] {
      if ops[0].Assoc? { SeparatedNotTrapped(keys, m.root, ops[0].k, 0); }
      ApartRunnable(keys, Apply(keys, m, ops[0]), ops[1..]);
    }
  }

  function Apply<K(!new), V>(keys: Keys<K>, m: Map<K, V>, op: Op<K, V>): Map<K, V>
    requires keys.Lawful() && Valid(keys, m)
  {
    match op
    case Assoc(k, v) => MapAssoc(keys, m, k, v)
    case Dissoc(k) => MapDissoc(keys, m, k)
  }

  function Run<K(!new), V>(keys: Keys<K>, m: Map<K, V>, ops: seq<Op<K, V>>): Map<K, V>
    requires keys.Lawful() && Valid(keys, m) && Runnable(keys, m, ops)
    decreases |ops|
  {
    if ops == [] then m else Run(keys, Apply(keys, m, ops[0]), ops[1..])
  }

  function Updated<K(!new), V>(keys: Keys<K>, f: Model<K, V>, op: Op<K, V>): Model<K, V> {
    match op
    case Assoc(k, v) => Put(keys, f, k, v)
    case Dissoc(k) => Drop(keys, f, k)
  }

  function RunModel<K(!new), V>(keys: Keys<K>, f: Model<K, V>, ops: seq<Op<K, V>>): Model<K, V>
    decreases |ops|
  {
    if ops == [] then f else RunModel(keys, Updated(keys, f, ops[0]), ops[1..])
  }

  lemma StepRefines<K(!new), V>(keys: Keys<K>, m: Map<K, V>, f: Model<K, V>, op: Op<K, V>)
    requires keys.Lawful() && Represents(keys, m, f)
    requires op.Assoc? ==> !Trapped(keys, m.root, keys.hash(op.k), 0)
    ensures Represents(keys, Apply(keys, m, op), Updated(keys, f, op))
  {
    hide Represents, Put, Drop, Trapped;
    RepresentsValid(keys, m, f);
    match op
    case Assoc(k, v) => AssocRefines(keys, m, f, k, v);
    case Dissoc(k) => DissocRefines(keys, m, f, k);
  }

  lemma RepresentsValid<K(!new), V>(keys: Keys<K>, m: Map<K, V>, f: Model<K, V>)
    requires Represents(keys, m, f)
    ensures Valid(keys, m)
  {}

  // Every run without a trapped assoc agrees with the run of map updates:
  // lookups, membership, the walk and the count of the final trie are those of
  // the map.
  lemma {:induction false} RunRefines<K(!new), V>(keys: Keys<K>, m: Map<K, V>, f: Model<K, V>, ops: seq<Op<K, V>>)
    requires keys.Lawful() && Represents(keys, m, f) && Runnable(keys, m, ops)
    ensures Represents(keys, Run(keys, m, ops), RunModel(keys, f, ops))
    decreases |ops|
  {
    hide Represents, Valid, Updated, Apply, Trapped;
    RepresentsValid(keys, m, f);
    if ops != [] {
      StepRefines(keys, m, f, ops[0]);
      RepresentsValid(keys, Apply(keys, m, ops[0]), Updated(keys, f, ops[0]));
      RunRefines(keys, Apply(keys, m, ops[0]), Updated(keys, f, ops[0]), ops[1..]);
    }
  }

  // How the count of a map that stands for f has to change.
  function Gain<K, V>(f: Model<K, V>, op: Op<K, V>): int {
    match op
    case Assoc(k, _) => if f(k).Some? then 0 else 1
    case Dissoc(k) => if f(k).Some? then -1 else 0
  }

  // An operation does what a caller expects: every lookup is that of the updated
  // map, and the count follows.
  ghost predicate StepFaithful<K(!new), V>(keys: Keys<K>, m: Map<K, V>, f: Model<K, V>, op: Op<K, V>)
    requires keys.Lawful() && Valid(keys, m)
  {
    var m' := Apply(keys, m, op);
    && Sized(m'.root, 0)
    && (forall x :: MapFind(keys, m', x) == Updated(keys, f, op)(x))
    && m'.count == m.count + Gain(f, op)
  }

  lemma StepFaithfulIff<K(!new), V>(keys: Keys<K>, m: Map<K, V>, f: Model<K, V>, op: Op<K, V>)
    requires keys.Lawful() && Represents(keys, m, f)
    ensures Valid(keys, m)
    ensures StepFaithful(keys, m, f, op) <==> !(op.Assoc? && Trapped(keys, m.root, keys.hash(op.k), 0))
  {
    hide NodeAssoc, NodeDissoc, NodeGet, WF, Sized, Trapped, Entries, OnPath, Lookup;
    match op
    case Assoc(k, v) => AssocFaithfulIff(keys, m, k, v);
    case Dissoc(k) => DissocRefines(keys, m, f, k);
  }

  // Every operation of the run does.
  ghost predicate Faithful<K(!new), V>(keys: Keys<K>, m: Map<K, V>, f: Model<K, V>, ops: seq<Op<K, V>>)
    requires keys.Lawful() && Valid(keys, m)
    decreases |ops|
  {
    ops != [] ==>
      var m', f' := Apply(keys, m, ops[0]), Updated(keys, f, ops[0]);
      && StepFaithful(keys, m, f, ops[0])
      && (Valid(keys, m') ==> Faithful(keys, m', f', ops[1..]))
  }

  // A run is faithful throughout if and only if no assoc of it is trapped.
  lemma {:induction false} RunFaithfulIff<K(!new), V>(keys: Keys<K>, m: Map<K, V>, f: Model<K, V>, ops: seq<Op<K, V>>)
    requires keys.Lawful() && Represents(keys, m, f)
    ensures Valid(keys, m) && (Faithful(keys, m, f, ops) <==> Runnable(keys, m, ops))
    decreases |ops|
  {
    hide Represents, Valid, Updated, Apply, Trapped, StepFaithful;
    RepresentsValid(keys, m, f);
    if ops != [] {
      StepFaithfulIff(keys, m, f, ops[0]);
      if !(ops[0].Assoc? && Trapped(keys, m.root, keys.hash(ops[0].k), 0)) {
        var m', f' := Apply(keys, m, ops[0]), Updated(keys, f, ops[0]);
        StepRefines(keys, m, f, ops[0]);
        RepresentsValid(keys, m', f');
        RunFaithfulIff(keys, m', f', ops[1..]);
      }
    }
  }

  lemma EmptyRepresents<K(!new), V>(keys: Keys<K>)
    ensures Represents(keys, Empty<K, V>(), _ => None)
  {}

  // A family of keys any two of which are separated.
  ghost predicate SeparatedFamily<K(!new)>(keys: Keys<K>, family: K -> bool) {
    forall a, b | family(a) && family(b) :: Separated(keys, a, b)
  }

  lemma StepKeepsFamily<K(!new), V>(keys: Keys<K>, m: Map<K, V>, op: Op<K, V>, family: K -> bool)
    requires keys.Lawful() && Valid(keys, m)
    requires SeparatedFamily(keys, family) && (op.Assoc? ==> family(op.k))
    requires forall e | e in Entries(m.root) :: family(e.0)
    ensures forall e | e in Entries(Apply(keys, m, op).root) :: family(e.0)
    ensures Valid(keys, Apply(keys, m, op))
    ensures op.Assoc? ==> forall e | e in Entries(m.root) :: Separated(keys, e.0, op.k)
  {
    hide WF, Sized, NodeGet, NodeAssoc, NodeDissoc, Entries, Separated, Trapped, OnPath;
    if op.Assoc? { SeparatedNotTrapped(keys, m.root, op.k, 0); }
    var f := ModelOf(keys, m);
    StepRefines(keys, m, f, op);
    RepresentsValid(keys, Apply(keys, m, op), Updated(keys, f, op));
    match op
    case Assoc(k, v) =>
      RootOnPath(keys, m.root, keys.hash(k));
      var i := AssocStores(keys, m.root, k, v, 0);
    case Dissoc(k) =>
      var i := DissocRemoves(keys, m.root, k, 0);
  }

  // A run whose assoc keys come from one separated family never traps, so from
  // the empty map every such run refines the map updates.
  lemma {:induction false} FamilyApart<K(!new), V>(keys: Keys<K>, m: Map<K, V>, ops: seq<Op<K, V>>,
        family: K -> bool)
    requires keys.Lawful() && Valid(keys, m) && SeparatedFamily(keys, family)
    requires forall e | e in Entries(m.root) :: family(e.0)
    requires forall op | op in ops && op.Assoc? :: family(op.k)
    ensures Apart(keys, m, ops)
    decreases |ops|
  {
    hide Valid, Separated, SeparatedFamily, Apply, Entries;
    if ops != [] {
      StepKeepsFamily(keys, m, ops[0], family);
      FamilyApart(keys, Apply(keys, m, ops[0]), ops[1..], family);
    }
  }

  lemma EveryRunRefines<K(!new), V>(keys: Keys<K>, ops: seq<Op<K, V>>, family: K -> bool)
    requires keys.Lawful() && SeparatedFamily(keys, family)
    requires forall op | op in ops && op.Assoc? :: family(op.k)
    ensures Valid(keys, Empty<K, V>()) && Apart(keys, Empty<K, V>(), ops) && Runnable(keys, Empty<K, V>(), ops)
    ensures Represents(keys, Run(keys, Empty<K, V>(), ops), RunModel(keys, _ => None, ops))
  {
    FamilyApart(keys, Empty<K, V>(), ops, family);
    ApartRunnable(keys, Empty<K, V>(), ops);
    EmptyRepresents<K, V>(keys);
    RunRefines(keys, Empty<K, V>(), _ => None, ops);
  }

  // ---- loops over a map ---------------------------------------------------

  // The left fold of f over entries in walk order.
  function Fold<A, K, V>(f: (A, K, V) -> A, acc: A, es: seq<(K, V)>): A {
    if es == [] then acc else Fold(f, f(acc, es[0].0, es[0].1), es[1..])
  }

  lemma {:induction false} FoldConcat<A, K, V>(f: (A, K, V) -> A, acc: A, a: seq<(K, V)>, b: seq<(K, V)>)
    ensures Fold(f, acc, a + b) == Fold(f, Fold(f, acc, a), b)
  {
    if a == [] {
      assert a + b == b;
    } else {
      assert (a + b)[1..] == a[1..] + b;
      FoldConcat(f, f(acc, a[0].0, a[0].1), a[1..], b);
    }
  }

  // steps are the accumulators from init on: f is called once for each entry,
  // in order, with what the call before it gave.
  ghost predicate Steps<A, K, V>(f: (A, K, V) -> A, init: A, es: seq<(K, V)>, steps: seq<A>) {
    && |steps| == |es| + 1 && steps[0] == init
    && forall i | 0 <= i < |es| :: steps[i + 1] == f(steps[i], es[i].0, es[i].1)
  }

  lemma {:induction false} FoldSteps<A, K, V>(f: (A, K, V) -> A, init: A, es: seq<(K, V)>) returns (steps: seq<A>)
    ensures Steps(f, init, es, steps) && steps[|es|] == Fold(f, init, es)
  {
    if es == [] {
      steps := [init];
    } else {
      var later := FoldSteps(f, f(init, es[0].0, es[0].1), es[1..]);
      steps := [init] + later;
      assert forall i | 0 < i < |es| :: es[1..][i - 1] == es[i];
    }
  }

  // The direct walk visits every entry once, in order.
  method NodeReduce<A, K, V>(node: Node<K, V>, f: (A, K, V) -> A, init: A) returns (acc: A)
    ensures acc == Fold(f, init, Entries(node))
    ensures exists steps :: Steps(f, init, Entries(node), steps) && acc == steps[|Entries(node)|]
    decreases node
  {
    acc := init;
    ghost var steps := FoldSteps(f, init, Entries(node));
    match node
    case Null =>
    case Entry(k, v) => acc := f(acc, k, v);
    case Collision(_, bucket) =>
      for i := 0 to |bucket|
        invariant Fold(f, acc, bucket[i..]) == Fold(f, init, bucket)
      {
        acc := f(acc, bucket[i].0, bucket[i].1);
        assert bucket[i..][1..] == bucket[i + 1..];
      }
    case Bitmap(_, slots) =>
      for i := 0 to |slots|
        invariant Fold(f, acc, EntriesOf(slots[i..])) == Fold(f, init, EntriesOf(slots))
      {
        assert slots[i..][1..] == slots[i + 1..];
        FoldConcat(f, acc, Entries(slots[i]), EntriesOf(slots[i + 1..]));
        acc := NodeReduce(slots[i], f, acc);
      }
  }

  function AssocsOf<K, V>(entries: seq<(K, V)>): (ops: seq<Op<K, V>>)
    ensures |ops| == |entries| && forall i | 0 <= i < |ops| :: ops[i] == Assoc(entries[i].0, entries[i].1)
  {
    seq(|entries|, i requires 0 <= i < |entries| => Assoc(entries[i].0, entries[i].1))
  }

  // Building a map from entries is the run of their assocs.
  method FromEntries<K(!new), V>(keys: Keys<K>, entries: seq<(K, V)>) returns (m: Map<K, V>)
    requires keys.Lawful() && Valid(keys, Empty<K, V>()) && Runnable(keys, Empty<K, V>(), AssocsOf(entries))
    ensures m == Run(keys, Empty<K, V>(), AssocsOf(entries))
  {
    hide MapAssoc, Separated, Valid;
    m := Empty();
    ghost var ops := AssocsOf(entries);
    for i := 0 to |entries|
      invariant Valid(keys, m) && Runnable(keys, m, ops[i..])
      invariant Run(keys, m, ops[i..]) == Run(keys, Empty<K, V>(), ops)
    {
      assert ops[i..][0] == Assoc(entries[i].0, entries[i].1) && ops[i..][1..] == ops[i + 1..];
      assert WF(keys, m.root, 0) by { ValidWF(keys, m); }
      m := MapAssoc(keys, m, entries[i].0, entries[i].1);
    }
  }

  lemma ValidWF<K(!new), V>(keys: Keys<K>, m: Map<K, V>)
    requires Valid(keys, m)
    ensures WF(keys, m.root, 0)
  {}

  // ---- sets ---------------------------------------------------------------

  // A set stores each element as its own value; adding a present element gives
  // back the same set.
  function SetAdd<K(!new)>(keys: Keys<K>, s: Map<K, K>, x: K): Map<K, K>
    requires WF(keys, s.root, 0)
  {
    RootOnPath(keys, s.root, keys.hash(x));
    var (node, added) := NodeAssoc(keys, s.root, x, x, keys.hash(x), 0);
    if added != 0 then Map(node, s.count + added) else s
  }

  // Adding a separated element extends membership by exactly its class.
  lemma SetAddRefines<K(!new)>(keys: Keys<K>, s: Map<K, K>, x: K, y: K)
    requires keys.Lawful() && Valid(keys, s)
    requires forall e | e in Entries(s.root) :: Separated(keys, e.0, x)
    ensures Sized(s.root, 0) && Valid(keys, SetAdd(keys, s, x)) && Sized(SetAdd(keys, s, x).root, 0)
    ensures MapHas(keys, SetAdd(keys, s, x), y) <==> keys.equiv(x, y) || MapHas(keys, s, y)
    ensures MapHas(keys, s, x) ==> SetAdd(keys, s, x) == s
  {
    hide NodeAssoc, NodeGet, WF, Sized, Trapped, Entries, OnPath, Separated, Lookup;
    SeparatedNotTrapped(keys, s.root, x, 0);
    var f := ModelOf(keys, s);
    AssocRefines(keys, s, f, x, x);
    var s' := MapAssoc(keys, s, x, x);
    assert MapFind(keys, s', y) == Put(keys, f, x, x)(y) && MapFind(keys, s, y) == f(y) && MapFind(keys, s, x) == f(x);
    if f(x).Some? && keys.equiv(x, y) { SameAnswer(keys, s, x, y); }
  }

  // Equal keys get equal answers.
  lemma SameAnswer<K(!new), V>(keys: Keys<K>, m: Map<K, V>, x: K, y: K)
    requires keys.Lawful() && Valid(keys, m) && keys.equiv(x, y)
    ensures Sized(m.root, 0) && MapFind(keys, m, x) == MapFind(keys, m, y)
  {
    hide NodeGet, WF, Sized, Entries;
    FindIsLookup(keys, m, x);
    FindIsLookup(keys, m, y);
    var es := Entries(m.root);
    LookupNone(keys, es, x);
    LookupNone(keys, es, y);
    var i, j := FindIndex(keys, es, x), FindIndex(keys, es, y);
    assert keys.equiv(y, x);
    if i >= 0 { LookupAt(keys, es, i, y); }
  }
}
