// Sorting a native vector: a copy, sorted in place by insertion.
module VecSort {
  import opened NativeVec
  import opened ValueMeaning
  import opened ValueOrder

  // ---- insertion sort on sequences ----------------------------------------

  // cmp is a total preorder on the elements of s.
  ghost predicate Preorder<V>(cmp: (V, V) -> int, s: seq<V>) {
    && (forall a, b | a in s && b in s :: cmp(a, b) == -cmp(b, a))
    && (forall a, b, c | a in s && b in s && c in s :: cmp(a, b) <= 0 && cmp(b, c) <= 0 ==> cmp(a, c) <= 0)
  }

  // x goes behind the last element that is not above it.
  function Insert<V>(cmp: (V, V) -> int, s: seq<V>, x: V): seq<V> {
    if s == [] || cmp(s[|s| - 1], x) <= 0 then s + [x]
    else Insert(cmp, s[..|s| - 1], x) + [s[|s| - 1]]
  }

  function InsertionSort<V>(cmp: (V, V) -> int, s: seq<V>): seq<V> {
    if s == [] then [] else Insert(cmp, InsertionSort(cmp, s[..|s| - 1]), s[|s| - 1])
  }

  ghost predicate Sorted<V>(cmp: (V, V) -> int, s: seq<V>) {
    forall i, j | 0 <= i < j < |s| :: cmp(s[i], s[j]) <= 0
  }

  // The elements level with v, in order.
  ghost function Level<V>(cmp: (V, V) -> int, s: seq<V>, v: V): seq<V> {
    if s == [] then []
    else Level(cmp, s[..|s| - 1], v) + (if cmp(s[|s| - 1], v) == 0 then [s[|s| - 1]] else [])
  }

  lemma {:induction false} InsertHolds<V>(cmp: (V, V) -> int, s: seq<V>, x: V)
    ensures multiset(Insert(cmp, s, x)) == multiset(s) + multiset{x} && |Insert(cmp, s, x)| == |s| + 1
    decreases |s|
  {
    if s != [] && cmp(s[|s| - 1], x) > 0 {
      InsertHolds(cmp, s[..|s| - 1], x);
      assert s == s[..|s| - 1] + [s[|s| - 1]];
    }
  }

  lemma {:induction false} SortHolds<V>(cmp: (V, V) -> int, s: seq<V>)
    ensures multiset(InsertionSort(cmp, s)) == multiset(s) && |InsertionSort(cmp, s)| == |s|
    decreases |s|
  {
    if s != [] {
      SortHolds(cmp, s[..|s| - 1]);
      InsertHolds(cmp, InsertionSort(cmp, s[..|s| - 1]), s[|s| - 1]);
      assert s == s[..|s| - 1] + [s[|s| - 1]];
    }
  }

  ghost predicate Among<V>(s: seq<V>, all: seq<V>) {
    forall i | 0 <= i < |s| :: s[i] in all
  }

  lemma {:induction false} InsertAmong<V>(cmp: (V, V) -> int, s: seq<V>, x: V, all: seq<V>)
    requires Among(s, all) && x in all
    ensures Among(Insert(cmp, s, x), all)
    decreases |s|
  {
    if s != [] && cmp(s[|s| - 1], x) > 0 { InsertAmong(cmp, s[..|s| - 1], x, all); }
  }

  lemma {:induction false} SortAmong<V>(cmp: (V, V) -> int, s: seq<V>, all: seq<V>)
    requires Among(s, all)
    ensures Among(InsertionSort(cmp, s), all)
    decreases |s|
  {
    if s != [] {
      SortAmong(cmp, s[..|s| - 1], all);
      InsertAmong(cmp, InsertionSort(cmp, s[..|s| - 1]), s[|s| - 1], all);
    }
  }

  ghost predicate AllBelow<V>(cmp: (V, V) -> int, s: seq<V>, y: V) {
    forall i | 0 <= i < |s| :: cmp(s[i], y) <= 0
  }

  lemma {:induction false} InsertBelow<V>(cmp: (V, V) -> int, s: seq<V>, x: V, y: V)
    requires AllBelow(cmp, s, y) && cmp(x, y) <= 0
    ensures AllBelow(cmp, Insert(cmp, s, x), y)
    decreases |s|
  {
    if s != [] && cmp(s[|s| - 1], x) > 0 { InsertBelow(cmp, s[..|s| - 1], x, y); }
  }

  lemma AboveLast<V>(cmp: (V, V) -> int, s: seq<V>, x: V, all: seq<V>)
    requires Preorder(cmp, all) && Among(s, all) && x in all && Sorted(cmp, s)
    requires s != [] && cmp(s[|s| - 1], x) <= 0
    ensures AllBelow(cmp, s, x)
  {
    var n := |s| - 1;
    forall i | 0 <= i < n
      ensures cmp(s[i], x) <= 0
    {
      var a, b := s[i], s[n];
      assert a in all && b in all && cmp(a, b) <= 0;
    }
  }

  lemma SortedPush<V>(cmp: (V, V) -> int, s: seq<V>, x: V)
    requires Sorted(cmp, s) && AllBelow(cmp, s, x)
    ensures Sorted(cmp, s + [x])
  {}

  lemma {:induction false} InsertSorted<V>(cmp: (V, V) -> int, s: seq<V>, x: V, all: seq<V>)
    requires Preorder(cmp, all) && Sorted(cmp, s) && x in all && Among(s, all)
    ensures Sorted(cmp, Insert(cmp, s, x))
    decreases |s|
  {
    var n := |s| - 1;
    if s == [] {
      SortedPush(cmp, s, x);
    } else if cmp(s[n], x) <= 0 {
      AboveLast(cmp, s, x, all);
      SortedPush(cmp, s, x);
    } else {
      assert s[n] in all && cmp(s[n], x) == -cmp(x, s[n]);
      hide Preorder;
      InsertSorted(cmp, s[..n], x, all);
      InsertBelow(cmp, s[..n], x, s[n]);
      SortedPush(cmp, Insert(cmp, s[..n], x), s[n]);
    }
  }

  // The result is sorted.
  lemma {:induction false} SortSorts<V>(cmp: (V, V) -> int, s: seq<V>, all: seq<V>)
    requires Preorder(cmp, all) && Among(s, all)
    ensures Sorted(cmp, InsertionSort(cmp, s))
    decreases |s|
  {
    hide Preorder;
    if s != [] {
      var t := s[..|s| - 1];
      SortSorts(cmp, t, all);
      SortAmong(cmp, t, all);
      InsertSorted(cmp, InsertionSort(cmp, t), s[|s| - 1], all);
    }
  }

  // Inserting puts x behind all elements level with it.
  lemma {:induction false} InsertLevel<V>(cmp: (V, V) -> int, s: seq<V>, x: V, v: V, all: seq<V>)
    requires Preorder(cmp, all) && x in all && v in all && Among(s, all)
    ensures Level(cmp, Insert(cmp, s, x), v) == Level(cmp, s, v) + (if cmp(x, v) == 0 then [x] else [])
    decreases |s|
  {
    hide *;
    InsertUnfold(cmp, s, x);
    var n := |s| - 1;
    if s == [] || cmp(s[n], x) <= 0 {
      LevelNext(cmp, s, x, v);
    } else {
      AmongLess(s, all);
      InsertLevel(cmp, s[..n], x, v, all);
      LevelNext(cmp, Insert(cmp, s[..n], x), s[n], v);
      LevelLast(cmp, s, v);
      LevelWithBoth(cmp, s[n], x, v, all);
    }
  }

  lemma InsertUnfold<V>(cmp: (V, V) -> int, s: seq<V>, x: V)
    ensures Insert(cmp, s, x) == if s == [] || cmp(s[|s| - 1], x) <= 0 then s + [x]
      else Insert(cmp, s[..|s| - 1], x) + [s[|s| - 1]]
  {}

  lemma AmongLess<V>(s: seq<V>, all: seq<V>)
    requires Among(s, all) && s != []
    ensures Among(s[..|s| - 1], all) && s[|s| - 1] in all
  {}

  lemma LevelNext<V>(cmp: (V, V) -> int, s: seq<V>, y: V, v: V)
    ensures Level(cmp, s + [y], v) == Level(cmp, s, v) + (if cmp(y, v) == 0 then [y] else [])
  {
    assert (s + [y])[..|s|] == s;
  }

  lemma LevelLast<V>(cmp: (V, V) -> int, s: seq<V>, v: V)
    requires s != []
    ensures Level(cmp, s, v) == Level(cmp, s[..|s| - 1], v) + (if cmp(s[|s| - 1], v) == 0 then [s[|s| - 1]] else [])
  {}

  lemma LevelWithBoth<V>(cmp: (V, V) -> int, a: V, b: V, v: V, all: seq<V>)
    requires Preorder(cmp, all) && a in all && b in all && v in all && cmp(a, b) > 0
    ensures !(cmp(a, v) == 0 && cmp(b, v) == 0)
  {
    assert cmp(b, v) == -cmp(v, b);
  }

  // The result is stable: elements level with each other keep their order.
  lemma {:induction false} SortStable<V>(cmp: (V, V) -> int, s: seq<V>, v: V, all: seq<V>)
    requires Preorder(cmp, all) && v in all && Among(s, all)
    ensures Level(cmp, InsertionSort(cmp, s), v) == Level(cmp, s, v)
    decreases |s|
  {
    hide Preorder;
    if s != [] {
      var t := s[..|s| - 1];
      SortStable(cmp, t, v, all);
      SortAmong(cmp, t, all);
      InsertLevel(cmp, InsertionSort(cmp, t), s[|s| - 1], v, all);
    }
  }

  // ---- in place -----------------------------------------------------------

  // The first p elements of s sorted, the others untouched.
  ghost predicate SortedTo<V>(cmp: (V, V) -> int, now: seq<V>, s: seq<V>, p: nat) {
    p <= |s| && now == InsertionSort(cmp, s[..p]) + s[p..]
  }

  // Element p inserted among those before it.
  ghost function InsertAt<V>(cmp: (V, V) -> int, s: seq<V>, p: nat): seq<V>
    requires p < |s|
  {
    Insert(cmp, s[..p], s[p]) + s[p + 1..]
  }

  // A sorted copy. All of its storage is new, so no vector changes.
  method Sort<V(0)>(cmp: (V, V) -> int, source: Vec<V>) returns (r: Vec<V>)
    requires source.Ok()
    ensures Private(r) && r.Contents() == InsertionSort(cmp, source.Contents())
  {
    hide SortedTo, InsertionSort, InsertAt;
    r := SliceCopy(source, 0, source.length);
    ghost var s := source.Contents();
    assert s[0..|s|] == s;
    if r.length < 2 {
      ShortSort(cmp, s);
      return;
    }
    SortedToOne(cmp, s);
    for position := 1 to r.length
      invariant Private(r) && r.length == |s|
      invariant SortedTo(cmp, r.elements[..r.length], s, position)
    {
      SortedToNext(cmp, r.elements[..r.length], s, position);
      InsertInPlace(cmp, r.elements, position, r.length);
    }
    SortedToAll(cmp, r.elements[..r.length], s);
  }

  lemma SortedToOne<V>(cmp: (V, V) -> int, s: seq<V>)
    requires |s| >= 1
    ensures SortedTo(cmp, s, s, 1)
  {
    ShortSort(cmp, s[..1]);
  }

  lemma SortedToNext<V>(cmp: (V, V) -> int, now: seq<V>, s: seq<V>, p: nat)
    requires SortedTo(cmp, now, s, p) && p < |s|
    ensures |now| == |s| && SortedTo(cmp, InsertAt(cmp, now, p), s, p + 1)
  {
    hide InsertionSort, Insert;
    SortHolds(cmp, s[..p]);
    SortNext(cmp, s, p);
    assert now[..p] == InsertionSort(cmp, s[..p]) && now[p] == s[p] && now[p + 1..] == s[p + 1..];
  }

  lemma SortedToAll<V>(cmp: (V, V) -> int, now: seq<V>, s: seq<V>)
    requires SortedTo(cmp, now, s, |s|)
    ensures now == InsertionSort(cmp, s)
  {
    hide InsertionSort;
    assert s[..|s|] == s;
  }

  lemma ShortSort<V>(cmp: (V, V) -> int, s: seq<V>)
    requires |s| < 2
    ensures InsertionSort(cmp, s) == s
  {
    if |s| == 1 { assert s[..0] == [] && InsertionSort(cmp, s[..0]) == []; }
  }

  lemma SortNext<V>(cmp: (V, V) -> int, s: seq<V>, i: nat)
    requires i < |s|
    ensures InsertionSort(cmp, s[..i + 1]) == Insert(cmp, InsertionSort(cmp, s[..i]), s[i])
  {
    assert s[..i + 1][..i] == s[..i];
  }

  // Moves element `position` down over the elements above it.
  method InsertInPlace<V>(cmp: (V, V) -> int, a: array<V>, position: nat, length: nat)
    requires position < length <= a.Length
    modifies a
    ensures a[..length] == InsertAt(cmp, old(a[..length]), position)
  {
    hide *;
    var held := a[position];
    ghost var was := a[..length];
    ghost var t := was[..position];
    var insertion := position;
    PastNone(cmp, t, held);
    while insertion > 0 && cmp(a[insertion - 1], held) > 0
      invariant insertion <= position
      invariant forall k | 0 <= k < insertion :: a[k] == was[k]
      invariant forall k | insertion < k <= position :: a[k] == was[k - 1]
      invariant forall k | position < k < length :: a[k] == was[k]
      invariant Past(cmp, t, held, insertion)
    {
      PastOne(cmp, t, held, insertion);
      a[insertion] := a[insertion - 1];
      insertion := insertion - 1;
    }
    PastAll(cmp, t, held, insertion);
    a[insertion] := held;
    Inserted(cmp, a[..length], was, position, insertion);
  }

  lemma Inserted<V>(cmp: (V, V) -> int, now: seq<V>, was: seq<V>, p: nat, i: nat)
    requires p < |was| == |now| && i <= p && now[i] == was[p]
    requires forall k | 0 <= k < i :: now[k] == was[k]
    requires forall k | i < k <= p :: now[k] == was[k - 1]
    requires forall k | p < k < |was| :: now[k] == was[k]
    requires Insert(cmp, was[..p], was[p]) == was[..p][..i] + [was[p]] + was[..p][i..]
    ensures now == InsertAt(cmp, was, p)
  {
    hide Insert;
  }

  // Everything from i on is above x, so x belongs among the first i.
  ghost predicate Past<V>(cmp: (V, V) -> int, t: seq<V>, x: V, i: nat) {
    i <= |t| && Insert(cmp, t, x) == Insert(cmp, t[..i], x) + t[i..]
  }

  lemma PastNone<V>(cmp: (V, V) -> int, t: seq<V>, x: V)
    ensures Past(cmp, t, x, |t|)
  {
    assert t[..|t|] == t;
    hide Insert;
  }

  lemma PastOne<V>(cmp: (V, V) -> int, t: seq<V>, x: V, i: nat)
    requires Past(cmp, t, x, i) && i > 0 && cmp(t[i - 1], x) > 0
    ensures Past(cmp, t, x, i - 1)
  {
    assert t[..i][..i - 1] == t[..i - 1];
    assert t[i - 1..] == [t[i - 1]] + t[i..];
  }

  lemma PastAll<V>(cmp: (V, V) -> int, t: seq<V>, x: V, i: nat)
    requires Past(cmp, t, x, i) && (i == 0 || cmp(t[i - 1], x) <= 0)
    ensures Insert(cmp, t, x) == t[..i] + [x] + t[i..]
  {
    assert Insert(cmp, t[..i], x) == t[..i] + [x];
  }

  // ---- values -------------------------------------------------------------

  // The order the source sorts values of one shape by.
  function OrderOf(s: Shape): (Value, Value) -> int {
    (a, b) => if HasShape(s, a) && HasShape(s, b) then Compare(true, s, a, b) else 0
  }

  lemma ValuesPreordered(m: Store, s: Shape, vs: seq<Value>)
    requires forall v | v in vs :: HasShape(s, v) && Stored(m, s, v)
    ensures Preorder(OrderOf(s), vs)
  {
    forall a, b, c | a in vs && b in vs && c in vs
      ensures OrderOf(s)(a, b) == -OrderOf(s)(b, a)
      ensures OrderOf(s)(a, b) <= 0 && OrderOf(s)(b, c) <= 0 ==> OrderOf(s)(a, c) <= 0
    {
      TotalPreorder(m, s, a, b, c);
    }
  }

  // Sorting values gives a sorted permutation that keeps the order of values
  // that are level with each other.
  lemma SortsValues(m: Store, s: Shape, vs: seq<Value>)
    requires forall v | v in vs :: HasShape(s, v) && Stored(m, s, v)
    ensures var t := InsertionSort(OrderOf(s), vs);
      && multiset(t) == multiset(vs)
      && Sorted(OrderOf(s), t)
      && forall v | v in vs :: Level(OrderOf(s), t, v) == Level(OrderOf(s), vs, v)
  {
    ValuesPreordered(m, s, vs);
    SortHolds(OrderOf(s), vs);
    SortSorts(OrderOf(s), vs, vs);
    forall v | v in vs
      ensures Level(OrderOf(s), InsertionSort(OrderOf(s), vs), v) == Level(OrderOf(s), vs, v)
    {
      SortStable(OrderOf(s), vs, v, vs);
    }
  }

  // No value comes before an earlier one.
  ghost predicate InOrderThroughout(s: Shape, t: seq<Value>) {
    forall i, j | 0 <= i < j < |t| :: InOrder(s, t[i], t[j])
  }

  ghost predicate AtMost(l: Value, r: Value) {
    l.Signed? && r.Signed? && l.i <= r.i
  }

  // Integers, none smaller than an earlier one.
  ghost predicate Rising(t: seq<Value>) {
    forall i, j | 0 <= i < j < |t| :: AtMost(t[i], t[j])
  }

  lemma IntegersRise(s: Shape, t: seq<Value>)
    requires s.SignedShape? && InOrderThroughout(s, t)
    ensures Rising(t)
  {
    hide InOrder;
    forall i, j | 0 <= i < j < |t| ensures AtMost(t[i], t[j]) { IntegersInOrder(t[i], t[j]); }
  }

  lemma SortedInOrder(m: Store, s: Shape, vs: seq<Value>, t: seq<Value>)
    requires forall v | v in vs :: HasShape(s, v) && Stored(m, s, v)
    requires multiset(t) == multiset(vs) && Sorted(OrderOf(s), t)
    ensures InOrderThroughout(s, t)
  {
    forall i, j | 0 <= i < j < |t|
      ensures InOrder(s, t[i], t[j])
    {
      assert t[i] in multiset(t) && t[j] in multiset(t);
      assert t[i] in vs && t[j] in vs && OrderOf(s)(t[i], t[j]) <= 0;
      hide Below;
      CompareMeans(m, s, t[i], t[j]);
    }
  }

  // The sort of values: of stored values of one shape it is a permutation in
  // storage of its own in which none comes before an earlier one and level values
  // keep their order.
  method SortValues(ghost m: Store, s: Shape, source: Vec<Value>) returns (r: Vec<Value>)
    requires source.Ok()
    ensures Private(r) && |r.Contents()| == |source.Contents()|
    ensures var vs, t := source.Contents(), r.Contents();
      (forall v | v in vs :: HasShape(s, v) && Stored(m, s, v)) ==>
        && multiset(t) == multiset(vs) && Sorted(OrderOf(s), t) && InOrderThroughout(s, t)
        && (s.SignedShape? ==> Rising(t))
        && forall v | v in vs :: Level(OrderOf(s), t, v) == Level(OrderOf(s), vs, v)
  {
    r := Sort(OrderOf(s), source);
    ghost var vs := source.Contents();
    SortHolds(OrderOf(s), vs);
    hide InsertionSort, Sorted, Level, InOrderThroughout, Rising;
    if forall v | v in vs :: HasShape(s, v) && Stored(m, s, v) {
      SortsValues(m, s, vs);
      SortedInOrder(m, s, vs, r.Contents());
      if s.SignedShape? { IntegersRise(s, r.Contents()); }
    }
  }
}
