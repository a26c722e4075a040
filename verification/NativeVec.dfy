// Native vectors: headers over shared element storage. One watermark per
// storage counts the slots ever handed out, and a push may write only there.
module NativeVec {

  const MIN_CAPACITY: nat := 4

  class Watermark {
    var count: nat

    constructor (n: nat)
      ensures count == n
    {
      count := n;
    }
  }

  // A header; `elements` of capacity 0 stands for the null pointer. A null
  // watermark over a non-empty array marks foreign storage.
  class Vec<T(0)> {
    const elements: array<T>
    var length: nat
    const capacity: nat
    const watermark: Watermark?

    constructor Header(elements: array<T>, length: nat, capacity: nat, watermark: Watermark?)
      ensures this.elements == elements && this.length == length && this.capacity == capacity
      ensures this.watermark == watermark
    {
      this.elements := elements;
      this.length := length;
      this.capacity := capacity;
      this.watermark := watermark;
    }

    constructor New(capacity: nat)
      ensures fresh(elements) && (watermark != null ==> fresh(watermark)) && Ok()
      ensures length == 0 && this.capacity == capacity && (watermark == null <==> capacity == 0)
    {
      elements := new T[capacity];
      length := 0;
      this.capacity := capacity;
      var w: Watermark? := null;
      if capacity != 0 {
        w := new Watermark(0);
      }
      watermark := w;
    }

    ghost predicate Ok()
      reads this, watermark
    {
      && length <= capacity == elements.Length
      && (watermark != null ==> length <= watermark.count <= capacity)
    }

    ghost function Contents(): (s: seq<T>)
      requires Ok()
      reads this, watermark, elements
      ensures |s| == length
    {
      elements[..length]
    }

    // Nothing of the vector or its storage has been written.
    twostate predicate Unwritten()
      reads this, elements, watermark
    {
      unchanged(this) && unchanged(elements) && (watermark != null ==> unchanged(watermark))
    }

    // Only for a vector just made and not handed out: lowering a shared
    // watermark would unfreeze elements of other headers.
    method SetLength(n: nat)
      requires Ok() && n <= capacity
      modifies `length, watermark
      ensures Ok() && length == n && (watermark != null ==> watermark.count == n)
    {
      length := n;
      if watermark != null {
        watermark.count := n;
      }
    }

    method At(i: nat) returns (x: T)
      requires Ok() && i < length
      ensures x == Contents()[i]
    {
      x := elements[i];
    }
  }

  // Copies from[start..start + n] to to[at..], as memcpy does.
  method Copy<T>(to: array<T>, at: nat, from: array<T>, start: nat, n: nat)
    requires at + n <= to.Length && start + n <= from.Length && to != from
    modifies to
    ensures to[..at] == old(to[..at]) && to[at..at + n] == from[start..start + n]
    ensures to[at + n..] == old(to[at + n..])
  {
    for i := 0 to n
      invariant to[..at] == old(to[..at]) && to[at..at + i] == from[start..start + i]
      invariant to[at + n..] == old(to[at + n..])
    {
      to[at + i] := from[start + i];
    }
  }

  // Copies the elements of a vector, if it has any.
  method CopyAll<T(0)>(to: array<T>, at: nat, v: Vec<T>)
    requires v.Ok() && at + v.length <= to.Length && to != v.elements
    modifies to
    ensures forall j | at <= j < at + v.length :: to[j] == v.Contents()[j - at]
    ensures forall j | 0 <= j < to.Length && !(at <= j < at + v.length) :: to[j] == old(to[j])
  {
    ghost var was := to[..];
    if v.length > 0 {
      Copy(to, at, v.elements, 0, v.length);
    }
    CopiedAt(was, to[..], at, v.elements[0..v.length]);
  }

  lemma CopiedAt<T>(was: seq<T>, now: seq<T>, at: nat, xs: seq<T>)
    requires |now| == |was| && at + |xs| <= |was| && now[..at] == was[..at] && now[at..at + |xs|] == xs
    requires now[at + |xs|..] == was[at + |xs|..]
    ensures forall j | at <= j < at + |xs| :: now[j] == xs[j - at]
    ensures forall j | 0 <= j < |was| && !(at <= j < at + |xs|) :: now[j] == was[j]
  {
    forall j | 0 <= j < |was|
      ensures now[j] == if at <= j < at + |xs| then xs[j - at] else was[j]
    {
      if j < at {
        assert now[..at][j] == now[j] && was[..at][j] == was[j];
      } else if j < at + |xs| {
        assert now[at..at + |xs|][j - at] == now[j];
      } else {
        var r := j - (at + |xs|);
        assert now[at + |xs|..][r] == now[j] && was[at + |xs|..][r] == was[j];
      }
    }
  }

  // ---- vectors made by copying ------------------------------------------

  // What every copying operation returns: all of its storage is new.
  twostate predicate Private<T(0)>(new r: Vec<T>)
    reads r, r.watermark
  {
    fresh(r) && fresh(r.elements) && (r.watermark != null ==> fresh(r.watermark)) && r.Ok()
  }

  method AssocCopy<T(0)>(v: Vec<T>, i: nat, x: T) returns (r: Vec<T>)
    requires v.Ok() && i < v.length
    ensures Private(r) && r.Contents() == v.Contents()[i := x]
  {
    r := new Vec.New(v.length);
    Copy(r.elements, 0, v.elements, 0, v.length);
    r.elements[i] := x;
    r.SetLength(v.length);
    assert v.Contents() == v.elements[0..v.length];
  }

  method PushCopy<T(0)>(v: Vec<T>, x: T) returns (r: Vec<T>)
    requires v.Ok()
    ensures Private(r) && r.Contents() == v.Contents() + [x]
    ensures r.capacity == if v.length < 2 then 4 else 2 * v.length
  {
    var grown := v.length * 2;
    if grown < MIN_CAPACITY {
      grown := MIN_CAPACITY;
    }
    r := new Vec.New(grown);
    CopyAll(r.elements, 0, v);
    r.elements[v.length] := x;
    r.SetLength(v.length + 1);
  }

  method ConcatCopy<T(0)>(left: Vec<T>, right: Vec<T>) returns (r: Vec<T>)
    requires left.Ok() && right.Ok()
    ensures Private(r) && r.Contents() == left.Contents() + right.Contents()
  {
    var n := left.length + right.length;
    r := new Vec.New(n);
    CopyAll(r.elements, 0, left);
    CopyAll(r.elements, left.length, right);
    r.SetLength(n);
  }

  method SliceCopy<T(0)>(v: Vec<T>, start: nat, end: nat) returns (r: Vec<T>)
    requires v.Ok() && start <= end <= v.length
    ensures Private(r) && r.Contents() == v.Contents()[start..end]
  {
    r := new Vec.New(end - start);
    if end - start != 0 {
      Copy(r.elements, 0, v.elements, start, end - start);
    }
    assert r.elements[0..end - start] == v.elements[start..end];
    r.SetLength(end - start);
    assert r.Contents() == r.elements[0..end - start];
    assert v.Contents()[start..end] == v.elements[start..end];
  }

  function Reversed<T>(s: seq<T>): (r: seq<T>)
    ensures |r| == |s| && forall i | 0 <= i < |s| :: r[i] == s[|s| - 1 - i]
  {
    seq(|s|, i requires 0 <= i < |s| => s[|s| - 1 - i])
  }

  method ReverseCopy<T(0)>(v: Vec<T>) returns (r: Vec<T>)
    requires v.Ok()
    ensures Private(r) && r.Contents() == Reversed(v.Contents())
  {
    r := new Vec.New(v.length);
    for position := 0 to v.length
      invariant Private(r) && r.capacity == v.length
      invariant forall i | 0 <= i < position :: r.elements[i] == v.elements[v.length - 1 - i]
    {
      r.elements[position] := v.elements[v.length - position - 1];
    }
    r.SetLength(v.length);
  }

  // ---- builders -----------------------------------------------------------

  class Builder<T(0)> {
    var elements: array<T>
    var length: nat
    var capacity: nat
    var frozen: bool

    constructor (v: Vec<T>)
      requires v.Ok()
      ensures fresh(elements) && Ok() && !frozen && Contents() == v.Contents()
    {
      elements := new T[v.length];
      length := v.length;
      capacity := v.length;
      frozen := false;
      new;
      if v.length != 0 {
        Copy(elements, 0, v.elements, 0, v.length);
      }
      assert elements[0..v.length] == elements[..v.length];
    }

    ghost predicate Ok()
      reads this
    {
      length <= capacity == elements.Length
    }

    ghost function Contents(): (s: seq<T>)
      requires Ok()
      reads this, elements
      ensures |s| == length
    {
      elements[..length]
    }

    twostate predicate Unwritten()
      reads this, elements
    {
      unchanged(this) && unchanged(elements)
    }

    method Push(x: T)
      requires Ok() && !frozen
      modifies this, elements
      ensures Ok() && !frozen && Contents() == old(Contents()) + [x]
      ensures elements == old(elements) || fresh(elements)
      ensures elements == old(elements) <==> old(length) < old(capacity)
      ensures old(length) == old(capacity) ==> capacity == if old(capacity) < 2 then 4 else 2 * old(capacity)
    {
      if length == capacity {
        var grown := capacity * 2;
        if grown < MIN_CAPACITY {
          grown := MIN_CAPACITY;
        }
        var larger := new T[grown];
        if length != 0 {
          Copy(larger, 0, elements, 0, length);
        }
        assert larger[0..length] == elements[0..length];
        elements := larger;
        capacity := grown;
      }
      elements[length] := x;
      length := length + 1;
      assert elements[..length - 1] == old(Contents());
    }

    // Hands the storage over to a vector; nothing may be pushed afterwards.
    method Freeze() returns (v: Vec<T>)
      requires Ok() && !frozen
      modifies `frozen
      ensures frozen && fresh(v) && v.Ok() && v.elements == elements && v.Contents() == Contents()
      ensures v.watermark != null ==> fresh(v.watermark)
      ensures v.watermark == null ==> elements.Length == 0
    {
      frozen := true;
      var w: Watermark? := null;
      if capacity > 0 {
        w := new Watermark(length);
      }
      v := new Vec.Header(elements, length, capacity, w);
    }
  }

  // ---- the arena ----------------------------------------------------------

  // Every header and every open builder handed out so far.
  class Arena<T(0)> {
    ghost var live: set<Vec<T>>
    ghost var builders: set<Builder<T>>

    constructor ()
      ensures Valid() && live == {} && builders == {}
    {
      live, builders := {}, {};
    }

    ghost function Footprint(): set<object>
      reads this, live, builders
    {
      (set v | v in live :: v as object) + (set v | v in live :: v.elements as object)
      + (set v | v in live && v.watermark != null :: v.watermark as object)
      + (set b | b in builders :: b as object) + (set b | b in builders :: b.elements as object)
    }

    // Storage and watermark go together, and builders share nothing.
    ghost predicate Valid()
      reads this, live, builders, Footprint()
    {
      && (forall v | v in live :: v.Ok())
      && (forall b | b in builders :: b.Ok() && !b.frozen)
      && (forall v, w | v in live && w in live :: Matched(v, w))
      && (forall v, b | v in live && b in builders :: v.elements != b.elements)
      && (forall b, c | b in builders && c in builders && b != c :: b.elements != c.elements)
    }

    // Nothing handed out before has changed, but for the builder x.
    twostate predicate Kept(x: Builder?<T>)
      requires old(Valid()) && Valid()
      reads this, live, builders, Footprint()
    {
      && (forall v | v in old(live) :: v in live && v.Contents() == old(v.Contents()))
      && (forall b | b in old(builders) && b != x :: b in builders && b.Contents() == old(b.Contents()))
      && fresh(Footprint() - old(Footprint()))
    }

    // A vector with storage of its own joins.
    twostate lemma Joins(new r: Vec<T>)
      requires old(Valid()) && live == old(live) + {r} && builders == old(builders)
      requires Private(r)
      requires forall v | v in old(live) :: v.Unwritten()
      requires forall b | b in old(builders) :: b.Unwritten()
      ensures Valid() && Kept(null)
    {
    }

    // A builder with storage of its own joins.
    twostate lemma Begins(new b: Builder<T>)
      requires old(Valid()) && live == old(live) && builders == old(builders) + {b}
      requires fresh(b) && fresh(b.elements) && b.Ok() && !b.frozen
      requires forall v | v in old(live) :: v.Unwritten()
      requires forall c | c in old(builders) :: c.Unwritten()
      ensures Valid() && Kept(null)
    {
      hide Matched;
    }

    // And so does a vector over the storage of the builder b, which leaves.
    twostate lemma TakesOver(b: Builder<T>, new r: Vec<T>)
      requires old(Valid()) && b in old(builders) && live == old(live) + {r} && builders == old(builders) - {b}
      requires fresh(r) && r.Ok() && r.elements == old(b.elements) && (r.watermark != null ==> fresh(r.watermark))
      requires forall w | w in old(live) :: w.Unwritten()
      requires forall c | c in old(builders) && c != b :: c.Unwritten()
      ensures Valid() && Kept(b)
    {
      TakesOverValid(b, r);
      hide Valid, Matched;
    }

    twostate lemma TakesOverValid(b: Builder<T>, new r: Vec<T>)
      requires old(Valid()) && b in old(builders) && live == old(live) + {r} && builders == old(builders) - {b}
      requires fresh(r) && r.Ok() && r.elements == old(b.elements) && (r.watermark != null ==> fresh(r.watermark))
      requires forall w | w in old(live) :: w.Unwritten()
      requires forall c | c in old(builders) && c != b :: c.Unwritten()
      ensures Valid()
    {}

    twostate lemma OneMore(v: Vec<T>, new r: Vec<T>)
      requires live == old(live) + {r} && builders == old(builders)
      requires v in old(live) && r.elements == v.elements && r.watermark == v.watermark
      requires forall b | b in old(builders) :: b.Unwritten()
      ensures Footprint() == old(Footprint()) + {r}
    {}

    // So does a longer header over the storage of v.
    twostate lemma Shares(v: Vec<T>, new r: Vec<T>)
      requires old(Valid()) && live == old(live) + {r} && builders == old(builders)
      requires v in old(live) && fresh(r) && r.Ok() && r.elements == v.elements && r.watermark == v.watermark
      requires forall w | w in old(live) :: w.Unwritten()
      requires forall b | b in old(builders) :: b.Unwritten()
      ensures Valid() && Kept(null)
    {
      SharesMatched(v, r);
      hide Matched;
    }

    twostate lemma SharesMatched(v: Vec<T>, new r: Vec<T>)
      requires old(Valid()) && live == old(live) + {r}
      requires v in old(live) && r.elements == v.elements && r.watermark == v.watermark
      ensures forall w | w in live :: Matched(r, w) && Matched(w, r)
    {
      forall w | w in live
        ensures Matched(r, w) && Matched(w, r)
      {
        assert Matched(v, v) && (w in old(live) ==> Matched(v, w));
      }
    }

    method New(capacity: nat) returns (r: Vec<T>)
      requires Valid()
      modifies `live
      ensures Valid() && Kept(null) && live == old(live) + {r} && fresh(r)
      ensures r.Ok() && r.Contents() == []
    {
      r := new Vec.New(capacity);
      live := live + {r};
      Joins(r);
    }

    method Assoc(v: Vec<T>, i: nat, x: T) returns (r: Vec<T>)
      requires Valid() && v in live && i < v.length
      modifies `live
      ensures Valid() && Kept(null) && live == old(live) + {r} && fresh(r)
      ensures r.Ok() && r.Contents() == old(v.Contents())[i := x]
    {
      r := AssocCopy(v, i, x);
      live := live + {r};
      Joins(r);
    }

    // Appends in place when v ends at the watermark and there is room, else on
    // a private copy. Either way v and every other header stay as they are.
    method Push(v: Vec<T>, x: T) returns (r: Vec<T>)
      requires Valid() && v in live
      modifies `live, v.elements, v.watermark
      ensures Valid() && Kept(null) && live == old(live) + {r} && fresh(r)
      ensures r.Ok() && r.Contents() == old(v.Contents()) + [x]
      ensures r.elements == v.elements <==>
        v.watermark != null && v.length < v.capacity && old(v.watermark.count) == v.length
    {
      assert v.Ok();
      if v.watermark != null && v.length < v.capacity && v.watermark.count == v.length {
        r := PushInPlace(v, x);
      } else {
        hide Arena.Kept, Arena.Footprint, Matched;
        r := PushCopy(v, x);
        live := live + {r};
        Joins(r);
      }
    }

    method PushInPlace(v: Vec<T>, x: T) returns (r: Vec<T>)
      requires Valid() && v in live
      requires v.watermark != null && v.length < v.capacity && v.watermark.count == v.length
      modifies `live, v.elements, v.watermark
      ensures Valid() && Kept(null) && live == old(live) + {r} && fresh(r)
      ensures r.Ok() && r.Contents() == old(v.Contents()) + [x] && r.elements == v.elements
    {
      hide Arena.Footprint, Matched;
      TakeTip(v, x);
      r := Extend(v);
    }

    // Writes the slot at the watermark, which no header can see yet.
    method TakeTip(v: Vec<T>, x: T)
      requires Valid() && v in live
      requires v.watermark != null && v.length < v.capacity && v.watermark.count == v.length
      modifies v.elements, v.watermark
      ensures Valid() && Kept(null) && Footprint() == old(Footprint()) && v.watermark.count == v.length + 1
      ensures v.elements[..v.length + 1] == old(v.Contents()) + [x]
    {
      v.elements[v.length] := x;
      v.watermark.count := v.length + 1;
      forall w | w in live
        ensures w.Ok() && w.Contents() == old(w.Contents())
      {
        assert Matched(v, w);
      }
    }

    // A longer header over storage already handed out.
    method Extend(v: Vec<T>) returns (r: Vec<T>)
      requires Valid() && v in live
      requires v.watermark != null && v.length < v.capacity && v.watermark.count == v.length + 1
      modifies `live
      ensures Valid() && Kept(null) && live == old(live) + {r} && fresh(r)
      ensures r.Ok() && r.Contents() == v.elements[..v.length + 1] && r.elements == v.elements
      ensures Footprint() == old(Footprint()) + {r}
    {
      assert v.Ok();
      hide Arena.Kept, Matched, Arena.Footprint;
      r := new Vec.Header(v.elements, v.length + 1, v.capacity, v.watermark);
      live := live + {r};
      OneMore(v, r);
      Shares(v, r);
    }

    // A header over storage made elsewhere, holding xs.
    method Foreign(xs: seq<T>) returns (r: Vec<T>)
      requires Valid()
      modifies `live
      ensures Valid() && Kept(null) && live == old(live) + {r} && fresh(r)
      ensures r.Ok() && r.watermark == null && r.Contents() == xs
    {
      var elements := new T[|xs|](i requires 0 <= i < |xs| => xs[i]);
      r := new Vec.Header(elements, |xs|, |xs|, null);
      hide Arena.Kept, Arena.Footprint, Matched;
      live := live + {r};
      Joins(r);
    }

    method Slice(v: Vec<T>, start: nat, end: nat) returns (r: Vec<T>)
      requires Valid() && v in live && start <= end <= v.length
      modifies `live
      ensures Valid() && Kept(null) && live == old(live) + {r} && fresh(r)
      ensures r.Ok() && r.Contents() == old(v.Contents())[start..end]
    {
      hide Arena.Kept, Arena.Footprint, Matched;
      r := SliceCopy(v, start, end);
      live := live + {r};
      Joins(r);
    }

    method Concat(v: Vec<T>, w: Vec<T>) returns (r: Vec<T>)
      requires Valid() && v in live && w in live
      modifies `live
      ensures Valid() && Kept(null) && live == old(live) + {r} && fresh(r)
      ensures r.Ok() && r.Contents() == old(v.Contents()) + old(w.Contents())
    {
      hide Arena.Kept, Arena.Footprint, Matched;
      r := ConcatCopy(v, w);
      live := live + {r};
      Joins(r);
    }

    method Reverse(v: Vec<T>) returns (r: Vec<T>)
      requires Valid() && v in live
      modifies `live
      ensures Valid() && Kept(null) && live == old(live) + {r} && fresh(r)
      ensures r.Ok() && r.Contents() == Reversed(old(v.Contents()))
    {
      hide Arena.Kept, Arena.Footprint, Matched, Reversed;
      r := ReverseCopy(v);
      live := live + {r};
      Joins(r);
    }

    method TransientNew(v: Vec<T>) returns (b: Builder<T>)
      requires Valid() && v in live
      modifies `builders
      ensures Valid() && Kept(null) && live == old(live) && builders == old(builders) + {b} && fresh(b)
      ensures b.Ok() && !b.frozen && b.Contents() == old(v.Contents())
    {
      assert v.Ok();
      hide Arena.Kept, Arena.Footprint, Matched;
      b := new Builder(v);
      builders := builders + {b};
      Begins(b);
    }

    method TransientPush(b: Builder<T>, x: T)
      requires Valid() && b in builders
      modifies b, b.elements
      ensures Valid() && Kept(b) && live == old(live) && builders == old(builders)
      ensures b.Ok() && b.Contents() == old(b.Contents()) + [x]
    {
      hide Matched;
      b.Push(x);
    }

    // The builder's storage becomes a vector's, and the builder is spent.
    method TransientFreeze(b: Builder<T>) returns (r: Vec<T>)
      requires Valid() && b in builders
      modifies this, b`frozen
      ensures Valid() && Kept(b) && live == old(live) + {r} && builders == old(builders) - {b} && fresh(r)
      ensures b.frozen && r.Ok() && r.Contents() == old(b.Contents())
    {
      hide Arena.Kept, Arena.Footprint, Matched;
      r := b.Freeze();
      live := live + {r};
      builders := builders - {b};
      TakesOver(b, r);
    }
  }

  // Two headers have one storage exactly when they have one watermark; foreign
  // storage has none.
  ghost predicate Matched<T(0)>(v: Vec<T>, w: Vec<T>) {
    && (v.elements == w.elements ==> v.watermark == w.watermark)
    && (v.watermark != null && v.watermark == w.watermark ==> v.elements == w.elements)
  }
}
