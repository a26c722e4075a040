// Whole maps: the map wrappers with their counts, runs of operations, and the
// exact condition under which assoc is a map update.
module HamtMap {
  import opened Options
  import opened Hamt
  import opened HamtRefinement

  datatype Map<K, V> = Map(root: Node<K, V>, count: nat)

  function Empty<K, V>(): Map<K, V> { Map(Null, 0) }

  ghost predicate Valid<K(!new), V>(keys: Keys<K>, m: Map<K, V>) {
    && WF(keys, m.root, 0)
    && Distinct(keys, Entries(m.root))
    && m.count == |Entries(m.root)|
  }

  function MapFind<K(!new), V>(keys: Keys<K>, m: Map<K, V>, k: K): Option<V>
    requires Sized(m.root, 0)
  {
    NodeGet(keys, m.root, k, keys.hash(k), 0)
  }

  function MapGet<K(!new), V>(keys: Keys<K>, m: Map<K, V>, k: K, notFound: V): V
    requires Sized(m.root, 0)
  {
    match MapFind(keys, m, k)
    case None => notFound
    case Some(v) => v
  }

  function MapHas<K(!new), V>(keys: Keys<K>, m: Map<K, V>, k: K): bool
    requires Sized(m.root, 0)
  {
    MapFind(keys, m, k).Some?
  }

  lemma RootOnPath<K(!new), V>(keys: Keys<K>, node: Node<K, V>, h: bv32)
    ensures OnPath(keys, node, h, 0)
  {}

  function MapAssoc<K(!new), V>(keys: Keys<K>, m: Map<K, V>, k: K, v: V): Map<K, V>
    requires WF(keys, m.root, 0)
  {
    RootOnPath(keys, m.root, keys.hash(k));
    var (node, added) := NodeAssoc(keys, m.root, k, v, keys.hash(k), 0);
    Map(node, m.count + added)
  }

  lemma RemovedOne<K(!new), V>(keys: Keys<K>, m: Map<K, V>, k: K)
    requires keys.Lawful() && Valid(keys, m)
    ensures NodeDissoc(keys, m.root, k, keys.hash(k), 0).1 <= m.count
  {
    var i := DissocRemoves(keys, m.root, k, 0);
  }

  function MapDissoc<K(!new), V>(keys: Keys<K>, m: Map<K, V>, k: K): Map<K, V>
    requires keys.Lawful() && Valid(keys, m)
  {
    RemovedOne(keys, m, k);
    var (node, removed) := NodeDissoc(keys, m.root, k, keys.hash(k), 0);
    if removed != 0 then Map(node, m.count - removed) else m
  }

  // ---- the map that a trie stands for -------------------------------------

  // The value an equal key has among entries.
  function Lookup<K(!new), V>(keys: Keys<K>, es: seq<(K, V)>, k: K): Option<V> {
    var i := FindIndex(keys, es, k);
    if i < 0 then None else Some(es[i].1)
  }

  // A finite map modulo key equality, as a function of the key.
  type Model<!K, !V> = K -> Option<V>

  function Put<K(!new), V>(keys: Keys<K>, f: Model<K, V>, k: K, v: V): Model<K, V> {
    x => if keys.equiv(k, x) then Some(v) else f(x)
  }

  function Drop<K(!new), V>(keys: Keys<K>, f: Model<K, V>, k: K): Model<K, V> {
    x => if keys.equiv(k, x) then None else f(x)
  }

  // The trie is well formed and every observation of it is that of the model:
  // get and has on every key, and a walk that lists each bound key exactly once
  // with its value, as many as the count says.
  ghost predicate Represents<K(!new), V>(keys: Keys<K>, m: Map<K, V>, f: Model<K, V>) {
    && Valid(keys, m)
    && Sized(m.root, 0)
    && (forall k :: MapFind(keys, m, k) == f(k))
    && (forall k :: Lookup(keys, Entries(m.root), k) == f(k))
  }

  // Entries with distinct keys hold a key in one position only.
  lemma SamePosition<K(!new), V>(keys: Keys<K>, es: seq<(K, V)>, i: nat, j: nat, k: K)
    requires keys.Lawful() && Distinct(keys, es) && i < |es| && j < |es|
    requires keys.equiv(es[i].0, k) && keys.equiv(es[j].0, k)
    ensures i == j
  {
    assert keys.equiv(k, es[i].0) && keys.equiv(k, es[j].0);
    assert keys.equiv(es[i].0, es[j].0) && keys.equiv(es[j].0, es[i].0);
  }

  lemma LookupAt<K(!new), V>(keys: Keys<K>, es: seq<(K, V)>, i: nat, k: K)
    requires keys.Lawful() && Distinct(keys, es) && i < |es| && keys.equiv(es[i].0, k)
    ensures Lookup(keys, es, k) == Some(es[i].1)
  {
    var j := FindIndex(keys, es, k);
    if j >= 0 { SamePosition(keys, es, i, j, k); }
  }

  lemma LookupNone<K(!new), V>(keys: Keys<K>, es: seq<(K, V)>, k: K)
    ensures Lookup(keys, es, k).None? <==> NoKey(keys, es, k)
  {
    var i := FindIndex(keys, es, k);
    if i < 0 {
      AbsentFromBucket(keys, es, k);
    } else {
      assert es[i] in es;
    }
  }

  // Get answers what the entries say.
  lemma FindIsLookup<K(!new), V>(keys: Keys<K>, m: Map<K, V>, k: K)
    requires keys.Lawful() && Valid(keys, m)
    ensures Sized(m.root, 0) && MapFind(keys, m, k) == Lookup(keys, Entries(m.root), k)
  {
    hide NodeGet, WF, Sized, Entries;
    GetAnswers(keys, m.root, k, 0);
    var es := Entries(m.root);
    LookupNone(keys, es, k);
    match NodeGet(keys, m.root, k, keys.hash(k), 0)
    case None =>
    case Some(v) =>
      var e :| e in es && keys.equiv(e.0, k) && e.1 == v;
      var i :| 0 <= i < |es| && es[i] == e;
      LookupAt(keys, es, i, k);
  }

  // A lookup with a default: the value of an equal key, or the default.
  lemma GetIsLookup<K(!new), V>(keys: Keys<K>, m: Map<K, V>, k: K, notFound: V)
    requires keys.Lawful() && Valid(keys, m)
    ensures Sized(m.root, 0)
    ensures (exists e :: e in Entries(m.root) && keys.equiv(e.0, k) && MapGet(keys, m, k, notFound) == e.1)
      || (NoKey(keys, Entries(m.root), k) && MapGet(keys, m, k, notFound) == notFound)
  {
    hide NodeGet, WF, Sized, Entries;
    FindIsLookup(keys, m, k);
    var es := Entries(m.root);
    LookupNone(keys, es, k);
    var i := FindIndex(keys, es, k);
    if i >= 0 { assert es[i] in es; }
  }

  // ---- one step -----------------------------------------------------------

  lemma StoredDistinct<K(!new), V>(keys: Keys<K>, es: seq<(K, V)>, es': seq<(K, V)>, k: K, v: V, added: nat, i: nat)
    requires keys.Lawful() && Distinct(keys, es) && Stored(keys, es, es', k, v, added, i)
    ensures Distinct(keys, es') && |es'| == |es| + added
  {
    forall a, b | 0 <= a < b < |es'|
      ensures !keys.equiv(es'[a].0, es'[b].0)
    {
      if added == 0 {
        assert !keys.equiv(es[a].0, es[b].0);
      } else {
        assert a != i ==> es'[a] == es[if a < i then a else a - 1];
        assert b != i ==> es'[b] == es[if b < i then b else b - 1];
        if a == i { assert es'[b] in es; }
        if b == i { assert es'[a] in es; }
      }
    }
  }

  lemma StoredLookup<K(!new), V>(keys: Keys<K>, es: seq<(K, V)>, es': seq<(K, V)>, k: K, v: V, added: nat, i: nat, x: K)
    requires keys.Lawful() && Distinct(keys, es) && Stored(keys, es, es', k, v, added, i)
    ensures Lookup(keys, es', x) == if keys.equiv(k, x) then Some(v) else Lookup(keys, es, x)
  {
    StoredDistinct(keys, es, es', k, v, added, i);
    assert es'[i] == (k, v);
    if keys.equiv(k, x) {
      LookupAt(keys, es', i, x);
    } else {
      LookupNone(keys, es, x);
      LookupNone(keys, es', x);
      var j := FindIndex(keys, es, x);
      if j >= 0 {
        var j' := if added == 0 || j < i then j else j + 1;
        assert added == 0 && j == i ==> keys.equiv(k, x);
        assert es'[j'] == es[j];
        LookupAt(keys, es', j', x);
      } else {
        forall e | e in es'
          ensures !keys.equiv(e.0, x)
        {
          if e != (k, v) { assert e in es; }
        }
      }
    }
  }

  lemma RemovedDistinct<K(!new), V>(keys: Keys<K>, es: seq<(K, V)>, es': seq<(K, V)>, k: K, i: nat)
    requires Distinct(keys, es) && Removed(keys, es, es', k, 1, i)
    ensures Distinct(keys, es') && |es'| == |es| - 1
  {}

  lemma ElsewhereDiffers<K(!new), V>(keys: Keys<K>, es: seq<(K, V)>, i: nat, j: nat, k: K)
    requires keys.Lawful() && Distinct(keys, es) && i < |es| && j < |es| && i != j
    requires keys.equiv(es[i].0, k)
    ensures !keys.equiv(es[j].0, k)
  {
    if keys.equiv(es[j].0, k) { SamePosition(keys, es, i, j, k); }
  }

  lemma RemovedLookup<K(!new), V>(keys: Keys<K>, es: seq<(K, V)>, es': seq<(K, V)>, k: K, removed: nat, i: nat, x: K)
    requires keys.Lawful() && Distinct(keys, es) && Removed(keys, es, es', k, removed, i)
    ensures Lookup(keys, es', x) == if keys.equiv(k, x) then None else Lookup(keys, es, x)
  {
    hide *;
    if removed == 0 {
      NoneRemoved(keys, es, es', k, i);
      if keys.equiv(k, x) { AbsentLookup(keys, es, k, x); }
      NoneLost(keys, es, es', k, i);
    } else if keys.equiv(k, x) {
      RemovedOnce(keys, es, es', k, removed, i);
      RemovedAbsent(keys, es, es', k, i, x);
      LookupNone(keys, es', x);
    } else {
      RemovedOnce(keys, es, es', k, removed, i);
      OthersStay(keys, es, es', k, i, x);
    }
  }

  lemma NoneLost<K(!new), V>(keys: Keys<K>, es: seq<(K, V)>, es': seq<(K, V)>, k: K, i: nat)
    requires Removed(keys, es, es', k, 0, i)
    ensures es' == es
  {}

  lemma AbsentLookup<K(!new), V>(keys: Keys<K>, es: seq<(K, V)>, k: K, x: K)
    requires keys.Lawful() && NoKey(keys, es, k) && keys.equiv(k, x)
    ensures Lookup(keys, es, x).None?
  {
    hide Lookup, FindIndex;
    forall e | e in es
      ensures !keys.equiv(e.0, x)
    {
      assert keys.equiv(e.0, x) ==> keys.equiv(e.0, k);
    }
    LookupNone(keys, es, x);
  }

  lemma RemovedAbsent<K(!new), V>(keys: Keys<K>, es: seq<(K, V)>, es': seq<(K, V)>, k: K, i: nat, x: K)
    requires keys.Lawful() && Distinct(keys, es) && Removed(keys, es, es', k, 1, i) && keys.equiv(k, x)
    ensures NoKey(keys, es', x)
  {
    hide Distinct;
    assert keys.equiv(es[i].0, x);
    forall e | e in es'
      ensures !keys.equiv(e.0, x)
    {
      var a :| 0 <= a < |es'| && es'[a] == e;
      var b := if a < i then a else a + 1;
      assert es[b] == e;
      ElsewhereDiffers(keys, es, i, b, x);
    }
  }

  lemma OthersStay<K(!new), V>(keys: Keys<K>, es: seq<(K, V)>, es': seq<(K, V)>, k: K, i: nat, x: K)
    requires keys.Lawful() && Distinct(keys, es) && Removed(keys, es, es', k, 1, i) && !keys.equiv(k, x)
    ensures Lookup(keys, es', x) == Lookup(keys, es, x)
  {
    RemovedDistinct(keys, es, es', k, i);
    hide Distinct;
    var j := FindIndex(keys, es, x);
    if j >= 0 {
      assert keys.equiv(es[i].0, x) ==> keys.equiv(k, x);
      var j' := if j < i then j else j - 1;
      assert es'[j'] == es[j];
      LookupAt(keys, es', j', x);
    } else {
      LookupNone(keys, es, x);
      LookupNone(keys, es', x);
      assert forall e | e in es' :: e in es;
    }
  }

  // Assoc outside the trap is a map update.
  lemma AssocRefines<K(!new), V>(keys: Keys<K>, m: Map<K, V>, f: Model<K, V>, k: K, v: V)
    requires keys.Lawful() && Represents(keys, m, f)
    requires !Trapped(keys, m.root, keys.hash(k), 0)
    ensures Represents(keys, MapAssoc(keys, m, k, v), Put(keys, f, k, v))
    ensures MapAssoc(keys, m, k, v).count == m.count + (if f(k).Some? then 0 else 1)
  {
    hide NodeAssoc, NodeGet, WF, Sized, Trapped, Entries, OnPath;
    RootOnPath(keys, m.root, keys.hash(k));
    var i := AssocStores(keys, m.root, k, v, 0);
    var m' := MapAssoc(keys, m, k, v);
    var es, es' := Entries(m.root), Entries(m'.root);
    var added := m'.count - m.count;
    StoredDistinct(keys, es, es', k, v, added, i);
    LookupNone(keys, es, k);
    forall x
      ensures Sized(m'.root, 0)
      ensures MapFind(keys, m', x) == Put(keys, f, k, v)(x)
      ensures Lookup(keys, es', x) == Put(keys, f, k, v)(x)
    {
      StoredLookup(keys, es, es', k, v, added, i, x);
      FindIsLookup(keys, m', x);
    }
    WFSized(keys, m'.root, 0);
    if added == 0 { assert es[i] in es; }
  }

  // Dissoc is a map removal, whatever the hashes.
  lemma DissocRefines<K(!new), V>(keys: Keys<K>, m: Map<K, V>, f: Model<K, V>, k: K)
    requires keys.Lawful() && Represents(keys, m, f)
    ensures Represents(keys, MapDissoc(keys, m, k), Drop(keys, f, k))
    ensures MapDissoc(keys, m, k).count == m.count - (if f(k).Some? then 1 else 0)
  {
    hide NodeDissoc, NodeGet, WF, Sized, Entries;
    var i := DissocRemoves(keys, m.root, k, 0);
    var m' := MapDissoc(keys, m, k);
    var (n, removed) := NodeDissoc(keys, m.root, k, keys.hash(k), 0);
    var es, es' := Entries(m.root), Entries(n);
    if removed == 1 {
      RemovedDistinct(keys, es, es', k, i);
      assert es[i] in es;
    }
    LookupNone(keys, es, k);
    assert Valid(keys, m') && Entries(m'.root) == es';
    WFSized(keys, m'.root, 0);
    forall x
      ensures MapFind(keys, m', x) == Drop(keys, f, k)(x)
      ensures Lookup(keys, es', x) == Drop(keys, f, k)(x)
    {
      RemovedLookup(keys, es, es', k, removed, i, x);
      FindIsLookup(keys, m', x);
    }
  }
}
