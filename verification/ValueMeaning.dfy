// What the structural comparison means: which of two values comes first, told
// from the numbers, bytes and items themselves.
module ValueMeaning {
  import opened Arithmetic
  import opened Bytes
  import Float64
  import opened Options
  import opened ValueOrder

  // ---- floats -------------------------------------------------------------

  // One unit of the exponent field, and its largest value: 52 and 11 bits, or 23
  // and 8 (section 3.4 of IEEE 754-2019).
  function Unit(wide: bool): nat {
    if wide then 0x10_0000_0000_0000 else 0x80_0000
  }

  function TopField(wide: bool): nat {
    if wide then 2047 else 255
  }

  function Field(wide: bool, bits: nat): nat {
    bits / Unit(wide) % (TopField(wide) + 1)
  }

  predicate NotANumber(wide: bool, bits: nat) {
    Field(wide, bits) == TopField(wide) && bits % Unit(wide) != 0
  }

  // The number a pattern stands for without its sign. Infinity counts as the
  // power of two after the largest finite number.
  ghost function Magnitude(wide: bool, bits: nat): real {
    var e, f := Field(wide, bits), bits % Unit(wide);
    var least := if wide then -1074 else -149;
    if e == 0 then Float64.Times(f as real, Float64.Exp2(least))
    else Float64.Times((Unit(wide) + f) as real, Float64.Exp2(least + e - 1))
  }

  predicate Negative(wide: bool, bits: nat) {
    bits / (Unit(wide) * (TopField(wide) + 1)) % 2 == 1
  }

  ghost function Number(wide: bool, bits: nat): real {
    if Negative(wide, bits) then -Magnitude(wide, bits) else Magnitude(wide, bits)
  }

  // A smaller number comes first, and NaN behind all numbers, by its bits.
  ghost predicate FloatBelow(wide: bool, l: nat, r: nat) {
    if NotANumber(wide, l) then NotANumber(wide, r) && l < r
    else NotANumber(wide, r) || Number(wide, l) < Number(wide, r)
  }

  // The fields of a pattern whose sign is split off.
  lemma Parts(wide: bool, bits: nat)
    requires bits < 2 * SignBit(wide)
    ensures var m := bits % SignBit(wide);
      && Negative(wide, bits) == (bits >= SignBit(wide)) && !Negative(wide, m) && m < SignBit(wide)
      && Field(wide, m) == Field(wide, bits) == m / Unit(wide) <= TopField(wide) && m % Unit(wide) == bits % Unit(wide)
      && Magnitude(wide, m) == Magnitude(wide, bits)
      && bits == (if Negative(wide, bits) then SignBit(wide) else 0) + m
  {
    hide Float64.Times, Float64.Exp2;
    PartsOfBits(wide, bits);
    PartsOfBits(wide, bits % SignBit(wide));
  }

  lemma PartsOfBits(wide: bool, bits: nat)
    requires bits < 2 * SignBit(wide)
    ensures var m := bits % SignBit(wide);
      && m < SignBit(wide) && m == (if bits >= SignBit(wide) then bits - SignBit(wide) else bits)
      && bits / SignBit(wide) % 2 == (if bits >= SignBit(wide) then 1 else 0)
      && Unit(wide) * (TopField(wide) + 1) == SignBit(wide)
      && Field(wide, bits) == m / Unit(wide) <= TopField(wide) && bits % Unit(wide) == m % Unit(wide)
  {
    var half, unit, top := SignBit(wide), Unit(wide), TopField(wide);
    var m := if bits >= half then bits - half else bits;
    var q := if bits >= half then 1 else 0;
    assert unit * (top + 1) == half;
    DivIs(bits, half, q, m);
    QuotientBelow(m, unit, top + 1);
    assert m == unit * (m / unit) + m % unit;
    DivIs(bits, unit, if bits >= half then top + 1 + m / unit else m / unit, m % unit);
    DivIs(bits / unit, top + 1, q, m / unit);
    DivIs(bits / half, 2, 0, q);
  }

  lemma NanIs(wide: bool, bits: nat)
    requires bits < 2 * SignBit(wide)
    ensures IsNan(wide, bits) == NotANumber(wide, bits)
  {
    PartsOfBits(wide, bits);
    var m := bits % SignBit(wide);
    assert m == m / Unit(wide) * Unit(wide) + m % Unit(wide);
  }

  // Neighbouring patterns are neighbouring numbers.
  lemma NextIsMore(wide: bool, m: nat)
    requires m < InfinityBits(wide)
    ensures Magnitude(wide, m) < Magnitude(wide, m + 1)
  {
    var least := if wide then -1074 else -149;
    var e, f := m / Unit(wide), m % Unit(wide);
    Steps(wide, m);
    hide Float64.Times, Float64.Exp2;
    Float64.TimesGrows(f as real, (f + 1) as real, Float64.Exp2(least));
    Float64.TimesGrows((Unit(wide) + f) as real, (Unit(wide) + f + 1) as real, Float64.Exp2(least + e - 1));
    if f + 1 == Unit(wide) && e > 0 {
      Float64.Exp2Step(least + e - 1);
      Float64.TimesLaws(Unit(wide) as real, Float64.Exp2(least + e - 1));
    }
  }

  lemma Steps(wide: bool, m: nat)
    requires m < InfinityBits(wide)
    ensures var e, f := m / Unit(wide), m % Unit(wide);
      && Field(wide, m) == e && f < Unit(wide)
      && Field(wide, m + 1) == (if f + 1 == Unit(wide) then e + 1 else e)
      && (m + 1) % Unit(wide) == (if f + 1 == Unit(wide) then 0 else f + 1)
  {
    NextQuotient(m, Unit(wide));
    SmallField(wide, m);
    SmallField(wide, m + 1);
    hide Field;
  }

  lemma NextQuotient(m: nat, u: nat)
    requires u > 1
    ensures var q, f := m / u, m % u;
      if f + 1 == u then (m + 1) / u == q + 1 && (m + 1) % u == 0 else (m + 1) / u == q && (m + 1) % u == f + 1
  {
    var q, f := m / u, m % u;
    QuotientIsNat(m, u);
    assert m == u * q + f;
    if f + 1 == u {
      assert m + 1 == u * (q + 1) + 0;
      DivIs(m + 1, u, q + 1, 0);
    } else {
      DivIs(m + 1, u, q, f + 1);
    }
  }

  lemma SmallField(wide: bool, m: nat)
    requires m <= InfinityBits(wide)
    ensures Field(wide, m) == m / Unit(wide)
  {}

  lemma {:induction false} MoreIsMore(wide: bool, a: nat, b: nat)
    requires a < b <= InfinityBits(wide)
    ensures Magnitude(wide, a) < Magnitude(wide, b)
    decreases b - a
  {
    NextIsMore(wide, b - 1);
    if a < b - 1 { MoreIsMore(wide, a, b - 1); }
  }

  lemma ZeroMagnitude(wide: bool)
    ensures Magnitude(wide, 0) == 0.0
  {}

  // The place among the numbers orders them.
  lemma RankOrders(wide: bool, l: nat, r: nat)
    requires l < 2 * SignBit(wide) && r < 2 * SignBit(wide) && !IsNan(wide, l) && !IsNan(wide, r)
    ensures Rank(wide, l) < Rank(wide, r) <==> Number(wide, l) < Number(wide, r)
    ensures Rank(wide, l) == Rank(wide, r) <==> Number(wide, l) == Number(wide, r)
  {
    var m, n := l % SignBit(wide), r % SignBit(wide);
    Parts(wide, l);
    Parts(wide, r);
    ZeroMagnitude(wide);
    hide Magnitude, Negative, Field;
    if m > 0 { MoreIsMore(wide, 0, m); }
    if n > 0 { MoreIsMore(wide, 0, n); }
    if m < n { MoreIsMore(wide, m, n); }
    if n < m { MoreIsMore(wide, n, m); }
  }

  // ---- bytes --------------------------------------------------------------

  // The first byte that differs decides, or the end of the shorter text.
  ghost predicate BytesBelow(l: seq<Byte>, r: seq<Byte>) {
    exists k: nat :: BytesDecide(l, r, k)
  }

  ghost predicate BytesDecide(l: seq<Byte>, r: seq<Byte>, k: nat) {
    k <= |l| && k < |r| && l[..k] == r[..k] && (k < |l| ==> l[k] < r[k])
  }

  // The first place at which two texts differ or one ends.
  lemma {:induction false} FirstByte(l: seq<Byte>, r: seq<Byte>) returns (k: nat)
    ensures k <= |l| && k <= |r| && l[..k] == r[..k]
    ensures OrderBytes(l, r) == if k < |l| && k < |r| then (if l[k] < r[k] then -1 else 1)
      else if k < |r| then -1 else if k < |l| then 1 else 0
    ensures k < |l| && k < |r| ==> l[k] != r[k]
  {
    if l == [] || r == [] || l[0] != r[0] {
      k := 0;
    } else {
      k := FirstByte(l[1..], r[1..]);
      assert l[..k + 1] == [l[0]] + l[1..][..k] && r[..k + 1] == [r[0]] + r[1..][..k];
      k := k + 1;
    }
  }

  lemma BytesMean(l: seq<Byte>, r: seq<Byte>)
    ensures OrderBytes(l, r) < 0 <==> BytesBelow(l, r)
  {
    var k := FirstByte(l, r);
    SamePrefix(l, r, k);
    if OrderBytes(l, r) < 0 { assert BytesDecide(l, r, k); }
    if BytesBelow(l, r) {
      var i: nat :| BytesDecide(l, r, i);
      SamePrefix(l, r, i);
    }
  }

  lemma SamePrefix(l: seq<Byte>, r: seq<Byte>, k: nat)
    requires k <= |l| && k <= |r| && l[..k] == r[..k]
    ensures forall j | 0 <= j < k :: l[j] == r[j]
  {
    assert forall j | 0 <= j < k :: l[j] == l[..k][j] && r[j] == r[..k][j];
  }

  // ---- values -------------------------------------------------------------

  function Size(v: Value): nat
    decreases v
  {
    match v
    case Record(fields) => 1 + SizeAll(fields)
    case Union(_, payload) => (match payload case NoPayload => 1 case Payload(p) => 1 + Size(p))
    case Vector(_, items) => 1 + SizeAll(items)
    case Reference(_, target) => 1 + Size(target)
    case _ => 1
  }

  function SizeAll(vs: Values): nat
    decreases vs
  {
    match vs
    case Nil => 0
    case Cons(head, tail) => Size(head) + SizeAll(tail)
  }

  // l comes before r.
  ghost predicate Below(s: Shape, l: Value, r: Value)
    requires HasShape(s, l) && HasShape(s, r)
    decreases Size(l) + Size(r), 0
  {
    match s
    case BoolShape => !l.b && r.b
    case SignedShape => l.i < r.i
    case UnsignedShape => l.n < r.n
    case FloatShape(wide) => FloatBelow(wide, l.bits, r.bits)
    case TextShape => BytesBelow(l.bytes, r.bytes)
    case KeywordShape => BytesBelow(l.bytes, r.bytes)
    case BytesShape => BytesBelow(l.bytes, r.bytes)
    case RecordShape(fields) => FieldsBelow(fields, l.fields, r.fields)
    case UnionShape(variants) =>
      || l.tag < r.tag
      || (l.tag == r.tag && l.payload.Payload? && Below(variants[l.tag].value, l.payload.value, r.payload.value))
    case VectorShape(e) => ItemsBelow(e, l.items, r.items)
    case ReferenceShape(e) => r.Reference? && (l.Null? || Below(e, l.target, r.target))
  }

  // Neither comes before the other.
  ghost predicate Level(s: Shape, l: Value, r: Value)
    requires HasShape(s, l) && HasShape(s, r)
    decreases Size(l) + Size(r), 1
  {
    !Below(s, l, r) && !Below(s, r, l)
  }

  ghost predicate FieldsBelow(fields: seq<Shape>, ls: Values, rs: Values)
    requires HaveShapes(fields, ls) && HaveShapes(fields, rs)
    decreases SizeAll(ls) + SizeAll(rs), 2
  {
    fields != [] && (Below(fields[0], ls.head, rs.head)
      || (Level(fields[0], ls.head, rs.head) && FieldsBelow(fields[1..], ls.tail, rs.tail)))
  }

  ghost predicate ItemsBelow(e: Shape, ls: Values, rs: Values)
    requires AllShaped(e, ls) && AllShaped(e, rs)
    decreases SizeAll(ls) + SizeAll(rs), 2
  {
    rs.Cons? && (ls.Nil? || Below(e, ls.head, rs.head)
      || (Level(e, ls.head, rs.head) && ItemsBelow(e, ls.tail, rs.tail)))
  }

  // ---- the first item that decides ----------------------------------------

  function ListOf(vs: Values): seq<Value> {
    match vs
    case Nil => []
    case Cons(head, tail) => [head] + ListOf(tail)
  }

  ghost predicate Fields(fields: seq<Shape>, xs: seq<Value>) {
    |xs| == |fields| && forall i | 0 <= i < |xs| :: HasShape(fields[i], xs[i])
  }

  ghost predicate Items(e: Shape, xs: seq<Value>) {
    forall i | 0 <= i < |xs| :: HasShape(e, xs[i])
  }

  lemma {:induction false} FieldsShaped(fields: seq<Shape>, vs: Values)
    requires HaveShapes(fields, vs)
    ensures Fields(fields, ListOf(vs))
    decreases vs
  {
    if vs.Cons? { FieldsShaped(fields[1..], vs.tail); }
  }

  lemma {:induction false} ItemsShaped(e: Shape, vs: Values)
    requires AllShaped(e, vs)
    ensures Items(e, ListOf(vs))
    decreases vs
  {
    if vs.Cons? { ItemsShaped(e, vs.tail); }
  }

  // Field k is below and all before it are level.
  ghost predicate FieldDecides(fields: seq<Shape>, ls: seq<Value>, rs: seq<Value>, k: nat)
    requires Fields(fields, ls) && Fields(fields, rs)
  {
    k < |fields| && Below(fields[k], ls[k], rs[k]) && forall j | 0 <= j < k :: Level(fields[j], ls[j], rs[j])
  }

  // All items before k are level, and item k is below, or only r has one.
  ghost predicate ItemDecides(e: Shape, ls: seq<Value>, rs: seq<Value>, k: nat)
    requires Items(e, ls) && Items(e, rs)
  {
    && k <= |ls| && k < |rs| && (forall j | 0 <= j < k :: Level(e, ls[j], rs[j]))
    && (k < |ls| ==> Below(e, ls[k], rs[k]))
  }

  // Records are decided by their first field that is not level.
  lemma {:induction false} RecordsDecided(fields: seq<Shape>, ls: Values, rs: Values)
    requires HaveShapes(fields, ls) && HaveShapes(fields, rs)
    ensures Fields(fields, ListOf(ls)) && Fields(fields, ListOf(rs))
    ensures FieldsBelow(fields, ls, rs) <==> exists k: nat :: FieldDecides(fields, ListOf(ls), ListOf(rs), k)
    decreases ls
  {
    FieldsShaped(fields, ls);
    FieldsShaped(fields, rs);
    hide Below, Level;
    if fields != [] {
      RecordsDecided(fields[1..], ls.tail, rs.tail);
      var xs, ys := ListOf(ls), ListOf(rs);
      assert xs[0] == ls.head && xs[1..] == ListOf(ls.tail) && ys[0] == rs.head && ys[1..] == ListOf(rs.tail);
      FieldShift(fields, xs, ys);
      assert FieldsBelow(fields, ls, rs) <==> (Below(fields[0], ls.head, rs.head)
        || (Level(fields[0], ls.head, rs.head) && FieldsBelow(fields[1..], ls.tail, rs.tail)));
    }
  }

  lemma FieldShift(fields: seq<Shape>, ls: seq<Value>, rs: seq<Value>)
    requires fields != [] && Fields(fields, ls) && Fields(fields, rs)
    ensures Fields(fields[1..], ls[1..]) && Fields(fields[1..], rs[1..])
    ensures (exists k: nat :: FieldDecides(fields, ls, rs, k)) <==>
      Below(fields[0], ls[0], rs[0])
      || (Level(fields[0], ls[0], rs[0]) && exists k: nat :: FieldDecides(fields[1..], ls[1..], rs[1..], k))
  {
    hide Below, Level;
    assert FieldDecides(fields, ls, rs, 0) <==> Below(fields[0], ls[0], rs[0]);
    forall k: nat
      ensures FieldDecides(fields[1..], ls[1..], rs[1..], k) && Level(fields[0], ls[0], rs[0]) ==>
        FieldDecides(fields, ls, rs, k + 1)
    {
      NextField(fields, ls, rs, k + 1);
    }
    forall k: nat | k > 0
      ensures FieldDecides(fields, ls, rs, k) ==>
        Level(fields[0], ls[0], rs[0]) && FieldDecides(fields[1..], ls[1..], rs[1..], k - 1)
    {
      NextField(fields, ls, rs, k);
    }
  }

  lemma NextField(fields: seq<Shape>, ls: seq<Value>, rs: seq<Value>, k: nat)
    requires fields != [] && Fields(fields, ls) && Fields(fields, rs) && k > 0
    ensures Fields(fields[1..], ls[1..]) && Fields(fields[1..], rs[1..])
    ensures FieldDecides(fields, ls, rs, k)
      <==> Level(fields[0], ls[0], rs[0]) && FieldDecides(fields[1..], ls[1..], rs[1..], k - 1)
  {
    hide Below, Level;
    if Level(fields[0], ls[0], rs[0]) && FieldDecides(fields[1..], ls[1..], rs[1..], k - 1) {
      forall j | 0 <= j < k
        ensures Level(fields[j], ls[j], rs[j])
      {
        if j > 0 { assert Level(fields[1..][j - 1], ls[1..][j - 1], rs[1..][j - 1]); }
      }
    }
    if FieldDecides(fields, ls, rs, k) {
      forall j | 0 <= j < k - 1
        ensures Level(fields[1..][j], ls[1..][j], rs[1..][j])
      {
        assert Level(fields[j + 1], ls[j + 1], rs[j + 1]);
      }
    }
  }

  // Vectors are decided by their first item that is not level, and a vector that
  // ends there comes first.
  lemma {:induction false} VectorsDecided(e: Shape, ls: Values, rs: Values)
    requires AllShaped(e, ls) && AllShaped(e, rs)
    ensures Items(e, ListOf(ls)) && Items(e, ListOf(rs))
    ensures ItemsBelow(e, ls, rs) <==> exists k: nat :: ItemDecides(e, ListOf(ls), ListOf(rs), k)
    decreases ls
  {
    ItemsShaped(e, ls);
    ItemsShaped(e, rs);
    hide Below, Level;
    if ls.Cons? && rs.Cons? {
      VectorsDecided(e, ls.tail, rs.tail);
      var xs, ys := ListOf(ls), ListOf(rs);
      assert xs[0] == ls.head && xs[1..] == ListOf(ls.tail) && ys[0] == rs.head && ys[1..] == ListOf(rs.tail);
      ItemShift(e, xs, ys);
      assert ItemsBelow(e, ls, rs) <==> (Below(e, ls.head, rs.head)
        || (Level(e, ls.head, rs.head) && ItemsBelow(e, ls.tail, rs.tail)));
    } else if rs.Cons? {
      assert ItemDecides(e, ListOf(ls), ListOf(rs), 0);
    }
  }

  lemma ItemShift(e: Shape, ls: seq<Value>, rs: seq<Value>)
    requires ls != [] && rs != [] && Items(e, ls) && Items(e, rs)
    ensures Items(e, ls[1..]) && Items(e, rs[1..])
    ensures (exists k: nat :: ItemDecides(e, ls, rs, k)) <==>
      Below(e, ls[0], rs[0])
      || (Level(e, ls[0], rs[0]) && exists k: nat :: ItemDecides(e, ls[1..], rs[1..], k))
  {
    hide Below, Level;
    assert ItemDecides(e, ls, rs, 0) <==> Below(e, ls[0], rs[0]);
    forall k: nat
      ensures ItemDecides(e, ls[1..], rs[1..], k) && Level(e, ls[0], rs[0]) ==> ItemDecides(e, ls, rs, k + 1)
    {
      NextItem(e, ls, rs, k + 1);
    }
    forall k: nat | k > 0
      ensures ItemDecides(e, ls, rs, k) ==> Level(e, ls[0], rs[0]) && ItemDecides(e, ls[1..], rs[1..], k - 1)
    {
      NextItem(e, ls, rs, k);
    }
  }

  lemma NextItem(e: Shape, ls: seq<Value>, rs: seq<Value>, k: nat)
    requires ls != [] && rs != [] && Items(e, ls) && Items(e, rs) && k > 0
    ensures Items(e, ls[1..]) && Items(e, rs[1..])
    ensures ItemDecides(e, ls, rs, k) <==> Level(e, ls[0], rs[0]) && ItemDecides(e, ls[1..], rs[1..], k - 1)
  {
    hide Below, Level;
    if Level(e, ls[0], rs[0]) && ItemDecides(e, ls[1..], rs[1..], k - 1) {
      forall j | 0 <= j < k
        ensures Level(e, ls[j], rs[j])
      {
        if j > 0 { assert Level(e, ls[1..][j - 1], rs[1..][j - 1]); }
      }
    }
    if ItemDecides(e, ls, rs, k) {
      forall j | 0 <= j < k - 1
        ensures Level(e, ls[1..][j], rs[1..][j])
      {
        assert Level(e, ls[j + 1], rs[j + 1]);
      }
    }
  }

  // ---- the comparison -----------------------------------------------------

  // The comparison says -1 exactly when the first value comes before the second.
  lemma {:induction false} ReadingMeans(s: Shape, l: Value, r: Value)
    requires HasShape(s, l) && HasShape(s, r)
    ensures Compare(false, s, l, r) < 0 <==> Below(s, l, r)
    ensures Compare(false, s, l, r) > 0 <==> Below(s, r, l)
    decreases l, 1
  {
    match s
    case RecordShape(fields) => FieldsMean(fields, l.fields, r.fields);
    case VectorShape(e) => ItemsMean(e, l.items, r.items);
    case UnionShape(variants) =>
      if l.tag == r.tag && l.payload.Payload? {
        ReadingMeans(variants[l.tag].value, l.payload.value, r.payload.value);
      }
    case ReferenceShape(e) =>
      if l.Reference? && r.Reference? { ReadingMeans(e, l.target, r.target); }
    case _ => LeafMeans(s, l, r);
  }

  lemma LeafMeans(s: Shape, l: Value, r: Value)
    requires HasShape(s, l) && HasShape(s, r)
    requires !s.RecordShape? && !s.UnionShape? && !s.VectorShape? && !s.ReferenceShape?
    ensures Compare(false, s, l, r) < 0 <==> Below(s, l, r)
    ensures Compare(false, s, l, r) > 0 <==> Below(s, r, l)
  {
    match s
    case BoolShape =>
    case SignedShape =>
    case UnsignedShape =>
    case FloatShape(wide) => FloatsMean(wide, l.bits, r.bits);
    case TextShape => TextsMean(l.bytes, r.bytes);
    case KeywordShape => TextsMean(l.bytes, r.bytes);
    case BytesShape => TextsMean(l.bytes, r.bytes);
  }

  lemma TextsMean(l: seq<Byte>, r: seq<Byte>)
    ensures OrderBytes(l, r) < 0 <==> BytesBelow(l, r)
    ensures OrderBytes(l, r) > 0 <==> BytesBelow(r, l)
  {
    hide OrderBytes, BytesBelow;
    BytesMean(l, r);
    BytesMean(r, l);
    BytesOrdered(l, r, r);
  }

  lemma FloatsMean(wide: bool, l: nat, r: nat)
    requires l < 2 * SignBit(wide) && r < 2 * SignBit(wide)
    ensures OrderFloats(wide, l, r) < 0 <==> FloatBelow(wide, l, r)
    ensures OrderFloats(wide, l, r) > 0 <==> FloatBelow(wide, r, l)
  {
    NanIs(wide, l);
    NanIs(wide, r);
    hide IsNan, NotANumber, Number, Rank;
    if !IsNan(wide, l) && !IsNan(wide, r) { RankOrders(wide, l, r); }
  }

  lemma {:induction false} FieldsMean(fields: seq<Shape>, ls: Values, rs: Values)
    requires HaveShapes(fields, ls) && HaveShapes(fields, rs)
    ensures CompareFields(false, fields, ls, rs) < 0 <==> FieldsBelow(fields, ls, rs)
    ensures CompareFields(false, fields, ls, rs) > 0 <==> FieldsBelow(fields, rs, ls)
    decreases ls, 0
  {
    if fields != [] {
      ReadingMeans(fields[0], ls.head, rs.head);
      FieldsMean(fields[1..], ls.tail, rs.tail);
      hide Below, Compare;
    }
  }

  lemma {:induction false} ItemsMean(e: Shape, ls: Values, rs: Values)
    requires AllShaped(e, ls) && AllShaped(e, rs)
    ensures CompareItems(false, e, ls, rs) < 0 <==> ItemsBelow(e, ls, rs)
    ensures CompareItems(false, e, ls, rs) > 0 <==> ItemsBelow(e, rs, ls)
    decreases ls, 0
  {
    if ls.Cons? && rs.Cons? {
      ReadingMeans(e, ls.head, rs.head);
      ItemsMean(e, ls.tail, rs.tail);
      hide Below, Compare;
    }
  }

  // The comparison as the source does it, with its identity shortcuts, says of
  // stored values which of them comes first.
  lemma CompareMeans(m: Store, s: Shape, l: Value, r: Value)
    requires HasShape(s, l) && HasShape(s, r) && Stored(m, s, l) && Stored(m, s, r)
    ensures Compare(true, s, l, r) == if Below(s, l, r) then -1 else if Below(s, r, l) then 1 else 0
    ensures !(Below(s, l, r) && Below(s, r, l))
  {
    ShortcutsAgree(m, s, l, r);
    ReadingMeans(s, l, r);
    hide Below;
  }

  // Values of one shape, the second not before the first.
  ghost predicate InOrder(s: Shape, l: Value, r: Value) {
    HasShape(s, l) && HasShape(s, r) && !Below(s, r, l)
  }

  lemma IntegersInOrder(l: Value, r: Value)
    requires InOrder(SignedShape, l, r)
    ensures l.Signed? && r.Signed? && l.i <= r.i
  {}

  // ---- equality -----------------------------------------------------------

  // Floats are equal when they are one number.
  lemma FloatEqualMeans(wide: bool, l: Value, r: Value)
    requires HasShape(FloatShape(wide), l) && HasShape(FloatShape(wide), r)
    ensures Equal(FloatShape(wide), l, r) <==>
      && !NotANumber(wide, l.bits) && !NotANumber(wide, r.bits)
      && Number(wide, l.bits) == Number(wide, r.bits)
  {
    NanIs(wide, l.bits);
    NanIs(wide, r.bits);
    hide IsNan, NotANumber, Number, Rank;
    if !IsNan(wide, l.bits) && !IsNan(wide, r.bits) { RankOrders(wide, l.bits, r.bits); }
  }

  // A NaN in the value itself, behind no pointer.
  predicate HoldsNan(s: Shape, v: Value)
    requires HasShape(s, v)
    decreases v
  {
    match s
    case FloatShape(wide) => NotANumber(wide, v.bits)
    case RecordShape(fields) => FieldsHoldNan(fields, v.fields)
    case UnionShape(variants) => v.payload.Payload? && HoldsNan(variants[v.tag].value, v.payload.value)
    case _ => false
  }

  predicate FieldsHoldNan(fields: seq<Shape>, vs: Values)
    requires HaveShapes(fields, vs)
    decreases vs
  {
    fields != [] && (HoldsNan(fields[0], vs.head) || FieldsHoldNan(fields[1..], vs.tail))
  }

  // Such a value equals nothing, itself included.
  lemma {:induction false} NanIsUnequal(s: Shape, l: Value, r: Value)
    requires HasShape(s, l) && HasShape(s, r) && HoldsNan(s, l)
    ensures !Equal(s, l, r)
    decreases l, 1
  {
    match s
    case FloatShape(wide) => FloatEqualMeans(wide, l, r);
    case RecordShape(fields) => NanFieldsUnequal(fields, l.fields, r.fields);
    case UnionShape(variants) =>
      if l.tag == r.tag { NanIsUnequal(variants[l.tag].value, l.payload.value, r.payload.value); }
  }

  lemma {:induction false} NanFieldsUnequal(fields: seq<Shape>, ls: Values, rs: Values)
    requires HaveShapes(fields, ls) && HaveShapes(fields, rs) && FieldsHoldNan(fields, ls)
    ensures !EqualFields(fields, ls, rs)
    decreases ls, 0
  {
    if HoldsNan(fields[0], ls.head) {
      NanIsUnequal(fields[0], ls.head, rs.head);
    } else {
      NanFieldsUnequal(fields[1..], ls.tail, rs.tail);
    }
  }
}
