// Small facts about sequences and sets used across the components.
module Seqs {
  lemma SplitAt<T>(s: seq<T>, pos: nat)
    requires pos < |s|
    ensures s == s[..pos] + [s[pos]] + s[pos + 1..]
  {}

  lemma CutAt<T>(s: seq<T>, pos: nat)
    requires pos <= |s|
    ensures s == s[..pos] + s[pos..]
  {}

  // The numbers below n.
  function Below(n: nat): (r: set<nat>)
    ensures forall p: nat :: p in r <==> p < n
    ensures |r| == n
  {
    if n == 0 then {} else Below(n - 1) + {n - 1}
  }

  lemma FullSubset(s: set<nat>, n: nat)
    requires forall p | p in s :: p < n
    requires |s| >= n
    ensures forall p: nat | p < n :: p in s
  {
    var b := Below(n);
    assert s <= b;
    if s != b {
      assert s < b;
      SmallerSubset(s, b);
    }
  }

  lemma SmallerSubset(s: set<nat>, b: set<nat>)
    requires s < b
    ensures |s| < |b|
  {
    var x :| x in b && x !in s;
    assert s <= b - {x};
    SubsetSize(s, b - {x});
  }

  lemma {:induction false} SubsetSize(s: set<nat>, b: set<nat>)
    requires s <= b
    ensures |s| <= |b|
  {
    if s != {} {
      var x :| x in s;
      SubsetSize(s - {x}, b - {x});
    }
  }

  // Distinct places below n are at most n.
  lemma {:induction false} FewPlaces(p: seq<nat>, n: nat)
    requires (forall i | 0 <= i < |p| :: p[i] < n) && forall i, j | 0 <= i < j < |p| :: p[i] != p[j]
    ensures |p| <= n
  {
    var s := SetOf(p);
    assert s <= Below(n);
    SubsetSize(s, Below(n));
  }

  lemma {:induction false} SetOf(p: seq<nat>) returns (s: set<nat>)
    requires forall i, j | 0 <= i < j < |p| :: p[i] != p[j]
    ensures |s| == |p| && forall x :: x in s <==> x in p
  {
    s := {};
    if p != [] {
      var n := |p| - 1;
      var rest := SetOf(p[..n]);
      NewLast(p);
      s := rest + {p[n]};
      assert p == p[..n] + [p[n]];
    }
  }

  lemma NewLast(p: seq<nat>)
    requires p != [] && forall i, j | 0 <= i < j < |p| :: p[i] != p[j]
    ensures p[|p| - 1] !in p[..|p| - 1]
  {
    var rest := p[..|p| - 1];
    assert forall i | 0 <= i < |rest| :: rest[i] == p[i];
  }
}
