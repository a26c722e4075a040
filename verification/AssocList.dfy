// The meaning of the native map: a list of entries in insertion order, no two
// with equal keys.
module AssocList {

  // Key equality of one map: symmetric and transitive but, for NaN, not
  // reflexive. Only hashable keys have a hash, and equal ones have equal hashes.
  datatype Equality<!K(!new)> = Equality(eq: (K, K) -> bool, hashable: K -> bool, hash: K -> nat) {
    ghost predicate Lawful() {
      && (forall a, b :: eq(a, b) ==> eq(b, a))
      && (forall a, b, c :: eq(a, b) && eq(b, c) ==> eq(a, c))
      && (forall a, b :: eq(a, b) && hashable(a) && hashable(b) ==> hash(a) == hash(b))
    }
  }

  // The plain scan: the first position whose key equals k, or -1.
  function Scan<K(!new)>(e: Equality<K>, ks: seq<K>, k: K): (i: int)
    ensures -1 <= i < |ks|
    ensures i >= 0 ==> e.eq(ks[i], k)
    ensures forall j | 0 <= j < (if i < 0 then |ks| else i) :: !e.eq(ks[j], k)
  {
    if ks == [] then -1
    else if e.eq(ks[0], k) then 0
    else
      var i := Scan(e, ks[1..], k);
      if i < 0 then -1 else i + 1
  }

  ghost predicate Unique<K(!new)>(e: Equality<K>, ks: seq<K>) {
    forall i, j | 0 <= i < j < |ks| :: !e.eq(ks[i], ks[j])
  }

  // At most one key of a map equals a given key, although a key need not equal
  // itself: any position that matches is the one the scan finds.
  lemma MatchIsScan<K(!new)>(e: Equality<K>, ks: seq<K>, k: K, i: nat)
    requires e.Lawful() && Unique(e, ks) && i < |ks| && e.eq(ks[i], k)
    ensures Scan(e, ks, k) == i
  {
    var j := Scan(e, ks, k);
    assert e.eq(k, ks[i]) && (j >= 0 ==> e.eq(k, ks[j]));
    assert j >= 0 ==> e.eq(ks[i], ks[j]) && e.eq(ks[j], ks[i]);
  }

  // ---- entries ------------------------------------------------------------

  function KeysOf<K, V>(es: seq<(K, V)>): (ks: seq<K>)
    ensures |ks| == |es| && forall i | 0 <= i < |es| :: ks[i] == es[i].0
  {
    seq(|es|, i requires 0 <= i < |es| => es[i].0)
  }

  // Replaces the value of an equal key in place, or appends.
  function Assoc<K(!new), V>(e: Equality<K>, es: seq<(K, V)>, k: K, v: V): seq<(K, V)> {
    var i := Scan(e, KeysOf(es), k);
    if i >= 0 then es[i := (es[i].0, v)] else es + [(k, v)]
  }

  function Dissoc<K(!new), V>(e: Equality<K>, es: seq<(K, V)>, k: K): seq<(K, V)> {
    var i := Scan(e, KeysOf(es), k);
    if i >= 0 then es[..i] + es[i + 1..] else es
  }

  function FromPairs<K(!new), V>(e: Equality<K>, ps: seq<(K, V)>): seq<(K, V)> {
    if ps == [] then [] else Assoc(e, FromPairs(e, ps[..|ps| - 1]), ps[|ps| - 1].0, ps[|ps| - 1].1)
  }

  ghost predicate Entries<K(!new), V>(e: Equality<K>, es: seq<(K, V)>) {
    Unique(e, KeysOf(es))
  }

  lemma AssocEntries<K(!new), V>(e: Equality<K>, es: seq<(K, V)>, k: K, v: V)
    requires e.Lawful() && Entries(e, es)
    ensures Entries(e, Assoc(e, es, k, v))
  {
    var i := Scan(e, KeysOf(es), k);
    var es' := Assoc(e, es, k, v);
    var ks, ks' := KeysOf(es), KeysOf(es');
    if i >= 0 {
      assert ks' == ks;
    } else {
      assert ks' == ks + [k];
    }
  }

  lemma DissocEntries<K(!new), V>(e: Equality<K>, es: seq<(K, V)>, k: K)
    requires e.Lawful() && Entries(e, es)
    ensures Entries(e, Dissoc(e, es, k))
  {
    var i := Scan(e, KeysOf(es), k);
    var ks := KeysOf(es);
    if i >= 0 { assert KeysOf(Dissoc(e, es, k)) == ks[..i] + ks[i + 1..]; }
  }

  lemma {:induction false} FromPairsEntries<K(!new), V>(e: Equality<K>, ps: seq<(K, V)>)
    requires e.Lawful()
    ensures Entries(e, FromPairs(e, ps))
  {
    if ps != [] {
      FromPairsEntries(e, ps[..|ps| - 1]);
      AssocEntries(e, FromPairs(e, ps[..|ps| - 1]), ps[|ps| - 1].0, ps[|ps| - 1].1);
    }
  }

  // An assoc keeps every key where it is, gives the key equal to k the value,
  // and puts an absent key last.
  lemma AssocKeepsOrder<K(!new), V>(e: Equality<K>, es: seq<(K, V)>, k: K, v: V)
    requires e.Lawful() && Entries(e, es)
    ensures var es' := Assoc(e, es, k, v);
      && |es| <= |es'| <= |es| + 1
      && (forall i | 0 <= i < |es| :: es'[i] == (es[i].0, if e.eq(es[i].0, k) then v else es[i].1))
      && (|es'| > |es| <==> forall i | 0 <= i < |es| :: !e.eq(es[i].0, k))
      && (|es'| > |es| ==> es'[|es|] == (k, v))
  {
    forall i | 0 <= i < |es| && e.eq(es[i].0, k) ensures Scan(e, KeysOf(es), k) == i {
      MatchIsScan(e, KeysOf(es), k, i);
    }
  }

  // The entries whose keys are not equal to k, in order.
  function Others<K(!new), V>(e: Equality<K>, es: seq<(K, V)>, k: K): seq<(K, V)> {
    if es == [] then [] else (if e.eq(es[0].0, k) then [] else [es[0]]) + Others(e, es[1..], k)
  }

  // A dissoc keeps exactly those.
  lemma {:induction false} DissocIsFilter<K(!new), V>(e: Equality<K>, es: seq<(K, V)>, k: K)
    requires e.Lawful() && Entries(e, es)
    ensures Dissoc(e, es, k) == Others(e, es, k)
  {
    if es != [] {
      var ks, rest := KeysOf(es), es[1..];
      assert KeysOf(rest) == ks[1..];
      if e.eq(es[0].0, k) {
        NoneLeft(e, rest, k, es[0].0);
      } else {
        DissocIsFilter(e, rest, k);
        DissocBehind(e, es, k);
      }
    }
  }

  // Nothing behind an equal key is taken out.
  lemma {:induction false} NoneLeft<K(!new), V>(e: Equality<K>, es: seq<(K, V)>, k: K, first: K)
    requires e.Lawful() && e.eq(first, k) && forall i | 0 <= i < |es| :: !e.eq(first, es[i].0)
    ensures Others(e, es, k) == es
  {
    assert forall x :: e.eq(x, k) ==> e.eq(k, x) && e.eq(first, x);
    if es != [] {
      NoneLeft(e, es[1..], k, first);
    }
  }

  lemma DissocBehind<K(!new), V>(e: Equality<K>, es: seq<(K, V)>, k: K)
    requires es != [] && !e.eq(es[0].0, k)
    ensures Dissoc(e, es, k) == [es[0]] + Dissoc(e, es[1..], k)
  {
    var ks := KeysOf(es);
    assert KeysOf(es[1..]) == ks[1..];
    var i := Scan(e, ks[1..], k);
    assert Scan(e, ks, k) == if i < 0 then -1 else i + 1;
    if i >= 0 { assert es[1..][..i] == es[1..i + 1] && es[1..][i + 1..] == es[i + 2..]; }
  }

  // A lookup after assoc: the new value for keys equal to a reflexive k, the
  // old answer for every key not equal to k.
  lemma LookupAfterAssoc<K(!new), V>(e: Equality<K>, es: seq<(K, V)>, k: K, v: V, x: K)
    requires e.Lawful() && Entries(e, es)
    ensures var es' := Assoc(e, es, k, v);
      var i, i' := Scan(e, KeysOf(es), x), Scan(e, KeysOf(es'), x);
      if e.eq(k, x) then i' >= 0 && es'[i'].1 == v
      else i' == i && (i >= 0 ==> es'[i'] == es[i])
  {
    var es' := Assoc(e, es, k, v);
    var ks, ks' := KeysOf(es), KeysOf(es');
    AssocEntries(e, es, k, v);
    var j := Scan(e, ks, k);
    if e.eq(k, x) {
      MatchIsScan(e, ks', x, if j >= 0 then j else |es|);
    } else {
      ScanUnrelated(e, ks, ks', k, x, j);
    }
  }

  lemma ScanUnrelated<K(!new)>(e: Equality<K>, ks: seq<K>, ks': seq<K>, k: K, x: K, j: int)
    requires e.Lawful() && !e.eq(k, x) && Unique(e, ks) && Unique(e, ks')
    requires j == Scan(e, ks, k) && ks' == if j >= 0 then ks else ks + [k]
    ensures Scan(e, ks', x) == Scan(e, ks, x) && (j >= 0 ==> Scan(e, ks, x) != j)
  {
    var i, i' := Scan(e, ks, x), Scan(e, ks', x);
    if i >= 0 { MatchIsScan(e, ks', x, i); }
    if i' >= 0 && i' < |ks| { MatchIsScan(e, ks, x, i'); }
    forall m | 0 <= m < |ks| && e.eq(ks[m], k)
      ensures !e.eq(ks[m], x)
    {
      assert e.eq(k, ks[m]);
    }
  }

  // Off the position of k nothing equals a key equal to k, and at it nothing
  // equals a key not equal to k.
  lemma OtherMatch<K(!new)>(e: Equality<K>, ks: seq<K>, k: K, x: K, j: nat, m: nat)
    requires e.Lawful() && Unique(e, ks) && j < |ks| && m < |ks| && e.eq(ks[j], k)
    ensures e.eq(k, x) && m != j ==> !e.eq(ks[m], x)
    ensures !e.eq(k, x) ==> !e.eq(ks[j], x)
  {
    var a, b := ks[m], ks[j];
    assert e.eq(k, b) && (e.eq(k, x) ==> e.eq(b, x) && e.eq(x, b));
    assert e.eq(k, x) && e.eq(a, x) ==> e.eq(a, b) && e.eq(b, a);
  }

  // A lookup after dissoc: nothing for k itself when k equals itself, and the
  // old entry for every key not equal to k.
  lemma LookupAfterDissoc<K(!new), V>(e: Equality<K>, es: seq<(K, V)>, k: K, x: K)
    requires e.Lawful() && Entries(e, es)
    ensures var es' := Dissoc(e, es, k);
      var i, i' := Scan(e, KeysOf(es), x), Scan(e, KeysOf(es'), x);
      if e.eq(k, x) then i' < 0
      else (i < 0 <==> i' < 0) && (i >= 0 ==> es'[i'] == es[i])
  {
    var ks, ks' := KeysOf(es), KeysOf(Dissoc(e, es, k));
    DissocEntries(e, es, k);
    var j := Scan(e, ks, k);
    if j >= 0 {
      assert ks' == ks[..j] + ks[j + 1..];
      ScanWithout(e, ks, ks', k, x, j);
    } else {
      if e.eq(k, x) { AbsentScan(e, ks, k, x); }
    }
  }

  // The scan once position j, that of k, is cut out.
  lemma ScanWithout<K(!new)>(e: Equality<K>, ks: seq<K>, ks': seq<K>, k: K, x: K, j: nat)
    requires e.Lawful() && Unique(e, ks) && Unique(e, ks') && j < |ks| && e.eq(ks[j], k)
    requires ks' == ks[..j] + ks[j + 1..]
    ensures var i, i' := Scan(e, ks, x), Scan(e, ks', x);
      if e.eq(k, x) then i' < 0 else i != j && i' == if i > j then i - 1 else i
  {
    hide Equality.Lawful, Unique;
    var i, i' := Scan(e, ks, x), Scan(e, ks', x);
    OtherMatch(e, ks, k, x, j, j);
    if i' >= 0 {
      var m := if i' < j then i' else i' + 1;
      assert ks'[i'] == ks[m];
      MatchIsScan(e, ks, x, m);
      OtherMatch(e, ks, k, x, j, m);
    }
    if i >= 0 && i != j {
      var m := if i < j then i else i - 1;
      assert ks'[m] == ks[i];
    }
  }

  lemma AbsentScan<K(!new)>(e: Equality<K>, ks: seq<K>, k: K, x: K)
    requires e.Lawful() && Scan(e, ks, k) < 0 && e.eq(k, x)
    ensures Scan(e, ks, x) < 0
  {
    forall m | 0 <= m < |ks|
      ensures !e.eq(ks[m], x)
    {
      assert e.eq(k, x) ==> e.eq(x, k);
    }
  }

  // ---- insertion order ----------------------------------------------------

  // p is the first pair of its key.
  ghost predicate FirstOf<K(!new), V>(e: Equality<K>, ps: seq<(K, V)>, p: nat) {
    p < |ps| && forall q | 0 <= q < p :: !e.eq(ps[q].0, ps[p].0)
  }

  // p is the last pair with a key equal to k.
  ghost predicate LastOf<K(!new), V>(e: Equality<K>, ps: seq<(K, V)>, k: K, p: nat) {
    p < |ps| && e.eq(ps[p].0, k) && forall q | p < q < |ps| :: !e.eq(ps[q].0, k)
  }

  // The value that building leaves for the key first seen at f: that of the
  // last pair of the key, or the pair's own when the key does not even equal
  // itself.
  ghost predicate ValueFor<K(!new), V>(e: Equality<K>, ps: seq<(K, V)>, f: nat, v: V)
    requires f < |ps|
  {
    if e.eq(ps[f].0, ps[f].0) then exists p: nat :: LastOf(e, ps, ps[f].0, p) && v == ps[p].1
    else v == ps[f].1
  }

  // es lists the first pair of every key in order, each with its value.
  ghost predicate Ordered<K(!new), V>(e: Equality<K>, ps: seq<(K, V)>, es: seq<(K, V)>, firsts: seq<nat>) {
    && |firsts| == |es|
    && (forall i, j | 0 <= i < j < |firsts| :: firsts[i] < firsts[j])
    && (forall i | 0 <= i < |firsts| :: FirstOf(e, ps, firsts[i]))
    && (forall p: nat | FirstOf(e, ps, p) :: p in firsts)
    && (forall i | 0 <= i < |firsts| :: es[i].0 == ps[firsts[i]].0 && ValueFor(e, ps, firsts[i], es[i].1))
  }

  // Building from pairs keeps the first spelling and position of every key and
  // its last value.
  lemma {:induction false} FromPairsOrder<K(!new), V>(e: Equality<K>, ps: seq<(K, V)>) returns (firsts: seq<nat>)
    requires e.Lawful()
    ensures Ordered(e, ps, FromPairs(e, ps), firsts)
  {
    if ps == [] {
      firsts := [];
    } else {
      var n := |ps| - 1;
      var before := FromPairsOrder(e, ps[..n]);
      FromPairsEntries(e, ps[..n]);
      firsts := OrderStep(e, ps, FromPairs(e, ps[..n]), before);
    }
  }

  // One more pair: of a key already listed, or of a new one.
  lemma OrderStep<K(!new), V>(e: Equality<K>, ps: seq<(K, V)>, es: seq<(K, V)>, before: seq<nat>)
        returns (firsts: seq<nat>)
    requires e.Lawful() && ps != [] && Entries(e, es) && Ordered(e, ps[..|ps| - 1], es, before)
    ensures Ordered(e, ps, Assoc(e, es, ps[|ps| - 1].0, ps[|ps| - 1].1), firsts)
  {
    var n := |ps| - 1;
    if Scan(e, KeysOf(es), ps[n].0) >= 0 {
      firsts := before;
      OldKeyStep(e, ps, es, before);
    } else {
      firsts := before + [n];
      NewKeyStep(e, ps, es, before);
    }
  }

  lemma SameFirst<K(!new), V>(e: Equality<K>, ps: seq<(K, V)>, n: nat, p: nat)
    requires p < n <= |ps|
    ensures FirstOf(e, ps, p) <==> FirstOf(e, ps[..n], p)
  {}

  lemma OldKeyStep<K(!new), V>(e: Equality<K>, ps: seq<(K, V)>, es: seq<(K, V)>, firsts: seq<nat>)
    requires e.Lawful() && ps != [] && Entries(e, es) && Ordered(e, ps[..|ps| - 1], es, firsts)
    requires Scan(e, KeysOf(es), ps[|ps| - 1].0) >= 0
    ensures Ordered(e, ps, Assoc(e, es, ps[|ps| - 1].0, ps[|ps| - 1].1), firsts)
  {
    hide Equality.Lawful, Unique, Scan;
    var n := |ps| - 1;
    var k := ps[n].0;
    var i := Scan(e, KeysOf(es), k);
    var es' := Assoc(e, es, k, ps[n].1);
    forall p: nat | FirstOf(e, ps, p)
      ensures p in firsts
    {
      if p < n {
        SameFirst(e, ps, n, p);
      } else {
        NotFirst(e, ps, firsts[i]);
      }
    }
    forall m | 0 <= m < |firsts|
      ensures FirstOf(e, ps, firsts[m])
      ensures ValueFor(e, ps, firsts[m], es'[m].1)
    {
      assert FirstOf(e, ps[..n], firsts[m]);
      SameFirst(e, ps, n, firsts[m]);
      if m == i {
        LastIsNew(e, ps, firsts[m]);
      } else {
        OnlyMatch(e, KeysOf(es), k, i, m);
        ValueStays(e, ps, firsts[m], es[m].1);
      }
    }
  }

  lemma NotFirst<K(!new), V>(e: Equality<K>, ps: seq<(K, V)>, q: nat)
    requires q < |ps| - 1 && e.eq(ps[q].0, ps[|ps| - 1].0)
    ensures !FirstOf(e, ps, |ps| - 1)
  {}

  lemma OnlyMatch<K(!new)>(e: Equality<K>, ks: seq<K>, k: K, i: nat, m: nat)
    requires e.Lawful() && Unique(e, ks) && i == Scan(e, ks, k) && m < |ks| && m != i
    ensures !e.eq(ks[m], k)
  {
    if e.eq(ks[m], k) { MatchIsScan(e, ks, k, m); }
  }

  // The new pair is the last of its key.
  lemma LastIsNew<K(!new), V>(e: Equality<K>, ps: seq<(K, V)>, f: nat)
    requires e.Lawful() && ps != [] && f < |ps| && e.eq(ps[f].0, ps[|ps| - 1].0)
    ensures ValueFor(e, ps, f, ps[|ps| - 1].1)
  {
    var n := |ps| - 1;
    assert e.eq(ps[n].0, ps[f].0);
    assert LastOf(e, ps, ps[f].0, n);
  }

  // A pair of another key leaves a key's value.
  lemma ValueStays<K(!new), V>(e: Equality<K>, ps: seq<(K, V)>, f: nat, v: V)
    requires e.Lawful() && ps != [] && f < |ps| - 1 && !e.eq(ps[f].0, ps[|ps| - 1].0)
    requires ValueFor(e, ps[..|ps| - 1], f, v)
    ensures ValueFor(e, ps, f, v)
  {
    var n := |ps| - 1;
    var a, b := ps[n].0, ps[f].0;
    if e.eq(ps[f].0, ps[f].0) {
      var p: nat :| LastOf(e, ps[..n], ps[f].0, p) && v == ps[..n][p].1;
      assert e.eq(a, b) ==> e.eq(b, a);
      assert LastOf(e, ps, ps[f].0, p);
    }
  }

  lemma NewKeyStep<K(!new), V>(e: Equality<K>, ps: seq<(K, V)>, es: seq<(K, V)>, before: seq<nat>)
    requires e.Lawful() && ps != [] && Entries(e, es) && Ordered(e, ps[..|ps| - 1], es, before)
    requires Scan(e, KeysOf(es), ps[|ps| - 1].0) < 0
    ensures Ordered(e, ps, Assoc(e, es, ps[|ps| - 1].0, ps[|ps| - 1].1), before + [|ps| - 1])
  {
    var n := |ps| - 1;
    var k := ps[n].0;
    var firsts := before + [n];
    var es' := Assoc(e, es, k, ps[n].1);
    assert es' == es + [ps[n]];
    NewIsFirst(e, ps, es, before);
    forall p: nat | FirstOf(e, ps, p)
      ensures p in firsts
    {
      if p < n {
        SameFirst(e, ps, n, p);
      } else {
        assert firsts[|before|] == p;
      }
    }
    forall m | 0 <= m < |firsts|
      ensures FirstOf(e, ps, firsts[m])
      ensures ValueFor(e, ps, firsts[m], es'[m].1)
    {
      if m < |before| {
        assert FirstOf(e, ps[..n], firsts[m]);
        SameFirst(e, ps, n, firsts[m]);
        assert !e.eq(KeysOf(es)[m], k);
        ValueStays(e, ps, firsts[m], es[m].1);
      } else if e.eq(k, k) {
        LastIsNew(e, ps, n);
      }
    }
  }

  // A key equal to no listed key equals no earlier pair's key.
  lemma NewIsFirst<K(!new), V>(e: Equality<K>, ps: seq<(K, V)>, es: seq<(K, V)>, before: seq<nat>)
    requires e.Lawful() && ps != [] && Ordered(e, ps[..|ps| - 1], es, before)
    requires Scan(e, KeysOf(es), ps[|ps| - 1].0) < 0
    ensures FirstOf(e, ps, |ps| - 1)
  {
    var n := |ps| - 1;
    forall q | 0 <= q < n
      ensures !e.eq(ps[q].0, ps[n].0)
    {
      var k := ps[n].0;
      if e.eq(ps[q].0, k) { FirstSpelling(e, ps[..n], es, before, q, k); }
    }
  }

  // A key equal to some pair's key equals a listed key.
  lemma {:induction false} FirstSpelling<K(!new), V>(e: Equality<K>, ps: seq<(K, V)>, es: seq<(K, V)>,
        firsts: seq<nat>, q: nat, k: K)
    requires e.Lawful() && Ordered(e, ps, es, firsts) && q < |ps| && e.eq(ps[q].0, k)
    ensures Scan(e, KeysOf(es), k) >= 0
    decreases q
  {
    if FirstOf(e, ps, q) {
      assert q in firsts;
      var i :| 0 <= i < |firsts| && firsts[i] == q;
      assert e.eq(KeysOf(es)[i], k);
    } else {
      var r :| 0 <= r < q && e.eq(ps[r].0, ps[q].0);
      FirstSpelling(e, ps, es, firsts, r, k);
    }
  }
}
