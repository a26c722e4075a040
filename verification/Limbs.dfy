// Numbers as little-endian sequences of 64-bit limbs.
module Limbs {
  import opened Arithmetic

  const BASE: nat := 0x1_0000_0000_0000_0000

  newtype Limb = x: int | 0 <= x < 0x1_0000_0000_0000_0000

  // BASE to the k.
  function Place(k: nat): (p: nat)
    ensures p > 0
  {
    if k == 0 then 1 else BASE * Place(k - 1)
  }

  // d at place k.
  function At(d: nat, k: nat): nat {
    d * Place(k)
  }

  lemma AtLaws(a: nat, b: nat, k: nat)
    ensures At(a + b, k) == At(a, k) + At(b, k)
    ensures At(BASE * a, k) == At(a, k + 1)
    ensures At(0, k) == 0 && At(1, k) == Place(k)
    ensures a <= b ==> At(a, k) <= At(b, k)
    ensures a > 0 ==> At(a, k) >= Place(k)
  {
    Distribute(a, b, Place(k));
    Carry(a, Place(k));
    if a <= b { Ordered(a, b, Place(k)); }
    if a > 0 { Ordered(1, a, Place(k)); }
  }

  lemma Carry(a: nat, p: nat)
    ensures (BASE * a) * p == a * (BASE * p)
  {}

  lemma Swap(a: nat, b: nat, p: nat)
    ensures (a * b) * p == (a * p) * b
  {}

  lemma {:induction false} PlaceAdd(a: nat, b: nat)
    ensures Place(a + b) == Place(a) * Place(b)
  {
    if a != 0 {
      PlaceAdd(a - 1, b);
      Carry(Place(a - 1), Place(b));
      assert (BASE * Place(a - 1)) * Place(b) == BASE * (Place(a - 1) * Place(b));
    }
  }

  lemma {:induction false} PlaceGrows(a: nat, b: nat)
    requires a <= b
    ensures Place(a) <= Place(b)
    decreases b
  {
    if a < b { PlaceGrows(a, b - 1); }
  }

  // ---- values -------------------------------------------------------------

  function Value(s: seq<Limb>): nat {
    if s == [] then 0 else Value(s[..|s| - 1]) + At(s[|s| - 1] as nat, |s| - 1)
  }

  lemma ValuePush(s: seq<Limb>, d: Limb)
    ensures Value(s + [d]) == Value(s) + At(d as nat, |s|)
  {
    assert (s + [d])[..|s|] == s;
  }

  lemma ValueNext(s: seq<Limb>, i: nat)
    requires i < |s|
    ensures Value(s[..i + 1]) == Value(s[..i]) + At(s[i] as nat, i)
  {
    assert s[..i + 1][..i] == s[..i];
  }

  lemma {:induction false} ValueBelow(s: seq<Limb>)
    ensures Value(s) < Place(|s|)
  {
    if s != [] {
      var n := |s| - 1;
      ValueBelow(s[..n]);
      AtLaws(s[n] as nat + 1, BASE, n);
      AtLaws(s[n] as nat, 1, n);
      AtLaws(1, 0, n);
    }
  }

  // Limbs that agree from i on add the same to what stands below.
  lemma {:induction false} SameAbove(a: seq<Limb>, b: seq<Limb>, i: nat)
    requires |a| == |b| && i <= |a| && a[i..] == b[i..]
    ensures Value(a) - Value(a[..i]) == Value(b) - Value(b[..i])
    decreases |a|
  {
    var n := |a| - 1;
    if i == |a| {
      assert a[..i] == a && b[..i] == b;
    } else {
      assert a[n] == a[i..][n - i] && b[n] == b[i..][n - i];
      assert a[..n][i..] == a[i..][..n - i] && b[..n][i..] == b[i..][..n - i];
      assert a[..n][..i] == a[..i] && b[..n][..i] == b[..i];
      SameAbove(a[..n], b[..n], i);
    }
  }

  // The limbs from i on, i places up.
  lemma {:induction false} ValueSplit(s: seq<Limb>, i: nat)
    requires i <= |s|
    ensures Value(s) == Value(s[..i]) + Value(s[i..]) * Place(i)
    decreases |s|
  {
    var n := |s| - 1;
    if i == |s| {
      assert s[..i] == s && s[i..] == [];
    } else {
      ValueSplit(s[..n], i);
      assert s[..n][..i] == s[..i] && s[..n][i..] == s[i..][..n - i];
      var high, d := Value(s[i..][..n - i]), s[n] as nat;
      assert Value(s[i..]) == high + At(d, n - i);
      Distribute(high, At(d, n - i), Place(i));
      PlaceAdd(n - i, i);
      Associate(d, Place(n - i), Place(i));
    }
  }

  lemma {:induction false} ValueZeros(s: seq<Limb>)
    requires forall i | 0 <= i < |s| :: s[i] == 0
    ensures Value(s) == 0
  {
    if s != [] { ValueZeros(s[..|s| - 1]); }
  }

  // ---- normalized numbers -------------------------------------------------

  predicate Normalized(s: seq<Limb>) {
    s == [] || s[|s| - 1] != 0
  }

  lemma NormalizedAtLeast(s: seq<Limb>)
    requires Normalized(s) && s != []
    ensures Value(s) >= Place(|s| - 1)
  {
    AtLaws(s[|s| - 1] as nat, 0, |s| - 1);
  }

  // A normalized number fits n limbs exactly when it has no more.
  lemma FitsByLength(s: seq<Limb>, n: nat)
    requires Normalized(s)
    ensures Value(s) < Place(n) <==> |s| <= n
  {
    ValueBelow(s);
    if |s| <= n {
      PlaceGrows(|s|, n);
    } else {
      NormalizedAtLeast(s);
      PlaceGrows(n, |s| - 1);
    }
  }
}
