// What a hash is told of a value: with mixing steps that lose nothing, equal
// hashes mean equal values.
module ValueHash {
  import opened Bytes
  import opened Options
  import opened ValueOrder

  // `trace` recovers from a state all that was mixed into it, in order.
  ghost predicate Keeps(m: Mix, trace: nat -> seq<nat>) {
    && (forall s: nat, w: nat :: trace(m.word(s, w)) == trace(s) + [w])
    && (forall s: nat, b: Byte :: trace(m.byte(s, b)) == trace(s) + [b as nat])
  }

  // ---- such mixing steps exist --------------------------------------------

  // A state and a word as one number: the word, doubled and one more, doubled as
  // often as the state says.
  function Both(state: nat, w: nat): nat {
    if state == 0 then 2 * w + 1 else 2 * Both(state - 1, w)
  }

  function StateOf(n: nat): (s: nat)
    requires n > 0
    ensures s < n
  {
    if n % 2 == 1 then 0 else 1 + StateOf(n / 2)
  }

  function WordOf(n: nat): nat
    requires n > 0
  {
    if n % 2 == 1 then n / 2 else WordOf(n / 2)
  }

  lemma {:induction false} Apart(state: nat, w: nat)
    ensures Both(state, w) > 0 && StateOf(Both(state, w)) == state && WordOf(Both(state, w)) == w
  {
    if state > 0 { Apart(state - 1, w); }
  }

  function Trace(n: nat): seq<nat> {
    if n == 0 then [] else Trace(StateOf(n)) + [WordOf(n)]
  }

  lemma KeepingSteps() returns (m: Mix, trace: nat -> seq<nat>)
    ensures Keeps(m, trace)
  {
    m := Mix((s: nat, w: nat) => Both(s, w), (s: nat, b: Byte) => Both(s, b as nat));
    trace := (n: nat) => Trace(n);
    hide Both, StateOf, WordOf;
    forall s: nat, w: nat ensures Trace(Both(s, w)) == Trace(s) + [w] { Apart(s, w); }
  }

  // ---- what a value puts into its hash ------------------------------------

  function Numbers(bs: seq<Byte>): seq<nat> {
    if bs == [] then [] else [bs[0] as nat] + Numbers(bs[1..])
  }

  function Code(s: Shape, v: Value): seq<nat>
    requires HasShape(s, v)
    decreases v
  {
    [KindCode(s)] +
      match s
      case BoolShape => [if v.b then 1 else 0]
      case SignedShape => [AsUnsigned(v.i)]
      case UnsignedShape => [v.n]
      case FloatShape(wide) => [HashedBits(wide, v.bits)]
      case TextShape => [|v.bytes|] + Numbers(v.bytes)
      case KeywordShape => [|v.bytes|] + Numbers(v.bytes)
      case BytesShape => [|v.bytes|] + Numbers(v.bytes)
      case RecordShape(fields) => [|fields|] + CodeFields(fields, v.fields)
      case UnionShape(variants) =>
        [AsUnsigned(v.tag)] + if v.payload.NoPayload? then [] else Code(variants[v.tag].value, v.payload.value)
      case VectorShape(e) => [Count(v.items)] + CodeItems(e, v.items)
      case ReferenceShape(e) => if v.Null? then [0] else [1] + Code(e, v.target)
  }

  function CodeFields(fields: seq<Shape>, vs: Values): seq<nat>
    requires HaveShapes(fields, vs)
    decreases vs
  {
    if fields == [] then [] else Code(fields[0], vs.head) + CodeFields(fields[1..], vs.tail)
  }

  function CodeItems(e: Shape, vs: Values): seq<nat>
    requires AllShaped(e, vs)
    decreases vs
  {
    if vs.Nil? then [] else Code(e, vs.head) + CodeItems(e, vs.tail)
  }

  lemma Cat(a: seq<nat>, b: seq<nat>, c: seq<nat>)
    ensures (a + b) + c == a + (b + c)
  {}

  lemma {:induction false} BytesTraced(m: Mix, trace: nat -> seq<nat>, bs: seq<Byte>, state: nat)
    requires Keeps(m, trace)
    ensures trace(HashBytes(m, bs, state)) == trace(state) + Numbers(bs)
  {
    if bs != [] {
      BytesTraced(m, trace, bs[1..], m.byte(state, bs[0]));
      Cat(trace(state), [bs[0] as nat], Numbers(bs[1..]));
    }
  }

  // A kind, one word and the rest.
  lemma ThreeParts(a: seq<nat>, k: nat, w: nat, rest: seq<nat>)
    ensures a + [k] + [w] + rest == a + ([k] + ([w] + rest))
  {}

  lemma {:induction false} HashTraced(m: Mix, trace: nat -> seq<nat>, s: Shape, v: Value, state: nat)
    requires Keeps(m, trace) && HasShape(s, v)
    ensures trace(Hash(m, s, v, state)) == trace(state) + Code(s, v)
    decreases v, 1
  {
    var k, t := KindCode(s), m.word(state, KindCode(s));
    match s
    case RecordShape(fields) =>
      FieldsTraced(m, trace, fields, v.fields, m.word(t, |fields|));
      ThreeParts(trace(state), k, |fields|, CodeFields(fields, v.fields));
      hide HashFields, CodeFields, HasShape;
    case UnionShape(variants) =>
      if v.payload.Payload? {
        HashTraced(m, trace, variants[v.tag].value, v.payload.value, m.word(t, AsUnsigned(v.tag)));
        ThreeParts(trace(state), k, AsUnsigned(v.tag), Code(variants[v.tag].value, v.payload.value));
        hide HasShape;
      }
    case VectorShape(e) =>
      ItemsTraced(m, trace, e, v.items, m.word(t, Count(v.items)));
      ThreeParts(trace(state), k, Count(v.items), CodeItems(e, v.items));
      hide HashItems, CodeItems, HasShape;
    case ReferenceShape(e) =>
      if v.Reference? {
        HashTraced(m, trace, e, v.target, m.word(t, 1));
        ThreeParts(trace(state), k, 1, Code(e, v.target));
        hide HasShape;
      }
    case _ =>
      LeafTraced(m, trace, s, v, state);
      hide *;
  }

  lemma LeafTraced(m: Mix, trace: nat -> seq<nat>, s: Shape, v: Value, state: nat)
    requires Keeps(m, trace) && HasShape(s, v)
    requires !s.RecordShape? && !s.UnionShape? && !s.VectorShape? && !s.ReferenceShape?
    ensures trace(Hash(m, s, v, state)) == trace(state) + Code(s, v)
  {
    var k, t := KindCode(s), m.word(state, KindCode(s));
    if s.TextShape? || s.KeywordShape? || s.BytesShape? {
      BytesTraced(m, trace, v.bytes, m.word(t, |v.bytes|));
      ThreeParts(trace(state), k, |v.bytes|, Numbers(v.bytes));
      hide HashBytes, Numbers;
    } else {
      hide HashedBits, AsUnsigned;
    }
  }

  lemma {:induction false} FieldsTraced(m: Mix, trace: nat -> seq<nat>, fields: seq<Shape>, vs: Values, state: nat)
    requires Keeps(m, trace) && HaveShapes(fields, vs)
    ensures trace(HashFields(m, fields, vs, state)) == trace(state) + CodeFields(fields, vs)
    decreases vs, 0
  {
    if fields != [] {
      HashTraced(m, trace, fields[0], vs.head, state);
      FieldsTraced(m, trace, fields[1..], vs.tail, Hash(m, fields[0], vs.head, state));
      Cat(trace(state), Code(fields[0], vs.head), CodeFields(fields[1..], vs.tail));
    }
  }

  lemma {:induction false} ItemsTraced(m: Mix, trace: nat -> seq<nat>, e: Shape, vs: Values, state: nat)
    requires Keeps(m, trace) && AllShaped(e, vs)
    ensures trace(HashItems(m, e, vs, state)) == trace(state) + CodeItems(e, vs)
    decreases vs, 0
  {
    if vs.Cons? {
      HashTraced(m, trace, e, vs.head, state);
      ItemsTraced(m, trace, e, vs.tail, Hash(m, e, vs.head, state));
      Cat(trace(state), Code(e, vs.head), CodeItems(e, vs.tail));
    }
  }

  // ---- the parts can be told apart ----------------------------------------

  // No NaN, and integers of 64 bits.
  predicate Plain(s: Shape, v: Value)
    requires HasShape(s, v)
    decreases v
  {
    match s
    case SignedShape => -0x8000_0000_0000_0000 <= v.i < 0x8000_0000_0000_0000
    case FloatShape(wide) => !IsNan(wide, v.bits)
    case RecordShape(fields) => FieldsPlain(fields, v.fields)
    case UnionShape(variants) =>
      && -0x8000_0000_0000_0000 <= v.tag < 0x8000_0000_0000_0000
      && (v.payload.NoPayload? || Plain(variants[v.tag].value, v.payload.value))
    case VectorShape(e) => ItemsPlain(e, v.items)
    case ReferenceShape(e) => v.Null? || Plain(e, v.target)
    case _ => true
  }

  predicate FieldsPlain(fields: seq<Shape>, vs: Values)
    requires HaveShapes(fields, vs)
    decreases vs
  {
    fields == [] || (Plain(fields[0], vs.head) && FieldsPlain(fields[1..], vs.tail))
  }

  predicate ItemsPlain(e: Shape, vs: Values)
    requires AllShaped(e, vs)
    decreases vs
  {
    vs.Cons? ==> Plain(e, vs.head) && ItemsPlain(e, vs.tail)
  }

  lemma FirstTells(a: nat, p: seq<nat>, b: nat, q: seq<nat>)
    ensures [a] + p == [b] + q ==> a == b && p == q
  {
    assert ([a] + p)[0] == a && ([b] + q)[0] == b && ([a] + p)[1..] == p && ([b] + q)[1..] == q;
  }

  lemma {:induction false} NumbersTell(a: seq<Byte>, b: seq<Byte>, x: seq<nat>, y: seq<nat>)
    requires |a| == |b| && Numbers(a) + x == Numbers(b) + y
    ensures a == b && x == y
  {
    if a == [] {
      assert [] + x == x && [] + y == y;
    } else {
      Cat([a[0] as nat], Numbers(a[1..]), x);
      Cat([b[0] as nat], Numbers(b[1..]), y);
      FirstTells(a[0] as nat, Numbers(a[1..]) + x, b[0] as nat, Numbers(b[1..]) + y);
      NumbersTell(a[1..], b[1..], x, y);
      assert a == [a[0]] + a[1..] && b == [b[0]] + b[1..];
    }
  }

  lemma WordsTell(i: int, j: int)
    requires -0x8000_0000_0000_0000 <= i < 0x8000_0000_0000_0000
    requires -0x8000_0000_0000_0000 <= j < 0x8000_0000_0000_0000
    ensures AsUnsigned(i) == AsUnsigned(j) ==> i == j
  {}

  lemma FloatsTell(wide: bool, l: nat, r: nat)
    requires !IsNan(wide, l) && !IsNan(wide, r) && HashedBits(wide, l) == HashedBits(wide, r)
    ensures OrderFloats(wide, l, r) == 0
  {}

  // A kind, one word and the rest, told apart from what follows.
  lemma PartsTell(k: nat, a: nat, p: seq<nat>, x: seq<nat>, b: nat, q: seq<nat>, y: seq<nat>)
    ensures [k] + ([a] + p) + x == [k] + ([b] + q) + y ==> a == b && p + x == q + y
  {
    Cat([k], [a] + p, x);
    Cat([a], p, x);
    Cat([k], [b] + q, y);
    Cat([b], q, y);
    FirstTells(k, [a] + (p + x), k, [b] + (q + y));
    FirstTells(a, p + x, b, q + y);
  }

  // One word of a value, and what follows it.
  function Word(s: Shape, v: Value): nat
    requires HasShape(s, v)
  {
    match s
    case BoolShape => if v.b then 1 else 0
    case SignedShape => AsUnsigned(v.i)
    case UnsignedShape => v.n
    case FloatShape(wide) => HashedBits(wide, v.bits)
    case TextShape => |v.bytes|
    case KeywordShape => |v.bytes|
    case BytesShape => |v.bytes|
    case RecordShape(fields) => |fields|
    case UnionShape(_) => AsUnsigned(v.tag)
    case VectorShape(_) => Count(v.items)
    case ReferenceShape(_) => if v.Null? then 0 else 1
  }

  function After(s: Shape, v: Value): seq<nat>
    requires HasShape(s, v)
  {
    match s
    case TextShape => Numbers(v.bytes)
    case KeywordShape => Numbers(v.bytes)
    case BytesShape => Numbers(v.bytes)
    case RecordShape(fields) => CodeFields(fields, v.fields)
    case UnionShape(variants) =>
      if v.payload.NoPayload? then [] else Code(variants[v.tag].value, v.payload.value)
    case VectorShape(e) => CodeItems(e, v.items)
    case ReferenceShape(e) => if v.Null? then [] else Code(e, v.target)
    case _ => []
  }

  lemma CodeParts(s: Shape, v: Value)
    requires HasShape(s, v)
    ensures Code(s, v) == [KindCode(s)] + ([Word(s, v)] + After(s, v))
  {
    hide HasShape, CodeFields, CodeItems, Numbers, AsUnsigned, HashedBits, KindCode;
  }

  lemma {:induction false} CodeTells(s: Shape, l: Value, r: Value, x: seq<nat>, y: seq<nat>)
    requires HasShape(s, l) && HasShape(s, r) && Plain(s, l) && Plain(s, r)
    requires Code(s, l) + x == Code(s, r) + y
    ensures Compare(false, s, l, r) == 0 && x == y
    decreases l, 1
  {
    CodeParts(s, l);
    CodeParts(s, r);
    PartsTell(KindCode(s), Word(s, l), After(s, l), x, Word(s, r), After(s, r), y);
    NothingBefore(x);
    NothingBefore(y);
    hide Code, KindCode, AsUnsigned, Order, HashedBits, Numbers;
    match s
    case RecordShape(fields) =>
      FieldsTell(fields, l.fields, r.fields, x, y);
    case UnionShape(variants) =>
      WordsTell(l.tag, r.tag);
      if l.payload.Payload? { CodeTells(variants[l.tag].value, l.payload.value, r.payload.value, x, y); }
    case VectorShape(e) =>
      ItemsTell(e, l.items, r.items, x, y);
    case ReferenceShape(e) =>
      if l.Reference? { CodeTells(e, l.target, r.target, x, y); } else { SameOrder(0); }
    case _ =>
      LeafTells(s, l, r, x, y);
  }

  lemma NothingBefore(x: seq<nat>)
    ensures [] + x == x
  {}

  lemma SameOrder(i: int)
    ensures Order(i, i) == 0
  {}

  lemma LeafTells(s: Shape, l: Value, r: Value, x: seq<nat>, y: seq<nat>)
    requires HasShape(s, l) && HasShape(s, r) && Plain(s, l) && Plain(s, r)
    requires !s.RecordShape? && !s.UnionShape? && !s.VectorShape? && !s.ReferenceShape?
    requires Word(s, l) == Word(s, r) && After(s, l) + x == After(s, r) + y
    ensures Compare(false, s, l, r) == 0 && x == y
  {
    if s.TextShape? || s.KeywordShape? || s.BytesShape? {
      NumbersTell(l.bytes, r.bytes, x, y);
      BytesReflexive(l.bytes);
    } else {
      assert [] + x == x && [] + y == y;
      if s.SignedShape? { WordsTell(l.i, r.i); }
      if s.FloatShape? { FloatsTell(s.wide, l.bits, r.bits); }
    }
  }

  lemma {:induction false} FieldsTell(fields: seq<Shape>, ls: Values, rs: Values, x: seq<nat>, y: seq<nat>)
    requires HaveShapes(fields, ls) && HaveShapes(fields, rs) && FieldsPlain(fields, ls) && FieldsPlain(fields, rs)
    requires CodeFields(fields, ls) + x == CodeFields(fields, rs) + y
    ensures CompareFields(false, fields, ls, rs) == 0 && x == y
    decreases ls, 0
  {
    if fields == [] {
      assert [] + x == x && [] + y == y;
    } else {
      var p, q := CodeFields(fields[1..], ls.tail), CodeFields(fields[1..], rs.tail);
      Cat(Code(fields[0], ls.head), p, x);
      Cat(Code(fields[0], rs.head), q, y);
      CodeTells(fields[0], ls.head, rs.head, p + x, q + y);
      FieldsTell(fields[1..], ls.tail, rs.tail, x, y);
      hide Code, HasShape, Plain;
    }
  }

  lemma {:induction false} ItemsTell(e: Shape, ls: Values, rs: Values, x: seq<nat>, y: seq<nat>)
    requires AllShaped(e, ls) && AllShaped(e, rs) && ItemsPlain(e, ls) && ItemsPlain(e, rs)
    requires Count(ls) == Count(rs) && CodeItems(e, ls) + x == CodeItems(e, rs) + y
    ensures CompareItems(false, e, ls, rs) == 0 && x == y
    decreases ls, 0
  {
    if ls.Nil? {
      assert [] + x == x && [] + y == y;
    } else {
      var p, q := CodeItems(e, ls.tail), CodeItems(e, rs.tail);
      Cat(Code(e, ls.head), p, x);
      Cat(Code(e, rs.head), q, y);
      CodeTells(e, ls.head, rs.head, p + x, q + y);
      ItemsTell(e, ls.tail, rs.tail, x, y);
      hide Code, HasShape, Plain;
    }
  }

  lemma {:induction false} PlainIsNanFree(s: Shape, v: Value)
    requires HasShape(s, v) && Plain(s, v)
    ensures NanFree(s, v)
    decreases v, 1
  {
    match s
    case RecordShape(fields) => FieldsNanFreeToo(fields, v.fields);
    case UnionShape(variants) =>
      if v.payload.Payload? { PlainIsNanFree(variants[v.tag].value, v.payload.value); }
    case VectorShape(e) => ItemsNanFreeToo(e, v.items);
    case ReferenceShape(e) =>
      if v.Reference? { PlainIsNanFree(e, v.target); }
    case _ =>
  }

  lemma {:induction false} FieldsNanFreeToo(fields: seq<Shape>, vs: Values)
    requires HaveShapes(fields, vs) && FieldsPlain(fields, vs)
    ensures FieldsNanFree(fields, vs)
    decreases vs, 0
  {
    if fields != [] {
      PlainIsNanFree(fields[0], vs.head);
      FieldsNanFreeToo(fields[1..], vs.tail);
    }
  }

  lemma {:induction false} ItemsNanFreeToo(e: Shape, vs: Values)
    requires AllShaped(e, vs) && ItemsPlain(e, vs)
    ensures ItemsNanFree(e, vs)
    decreases vs, 0
  {
    if vs.Cons? {
      PlainIsNanFree(e, vs.head);
      ItemsNanFreeToo(e, vs.tail);
    }
  }

  // The hash is told everything equality looks at: where mixing loses nothing,
  // values without NaN have one hash exactly when they are equal.
  lemma HashTells(m: Store, mix: Mix, trace: nat -> seq<nat>, s: Shape, l: Value, r: Value, state: nat)
    requires Keeps(mix, trace) && HasShape(s, l) && HasShape(s, r) && Plain(s, l) && Plain(s, r)
    requires Stored(m, s, l) && Stored(m, s, r)
    ensures Hash(mix, s, l, state) == Hash(mix, s, r, state) <==> Equal(s, l, r)
  {
    hide *;
    if Equal(s, l, r) { EqualValues(m, mix, s, l, r, state); }
    if Hash(mix, s, l, state) == Hash(mix, s, r, state) { SameHashTells(mix, trace, s, l, r, state); }
  }

  lemma SameHashTells(mix: Mix, trace: nat -> seq<nat>, s: Shape, l: Value, r: Value, state: nat)
    requires Keeps(mix, trace) && HasShape(s, l) && HasShape(s, r) && Plain(s, l) && Plain(s, r)
    requires Hash(mix, s, l, state) == Hash(mix, s, r, state)
    ensures Equal(s, l, r)
  {
    hide *;
    HashTraced(mix, trace, s, l, state);
    HashTraced(mix, trace, s, r, state);
    SameRest(trace(state), Code(s, l), Code(s, r));
    CodeTells(s, l, r, [], []);
    PlainIsNanFree(s, l);
    LevelIsEqual(s, l, r);
  }

  lemma SameRest(a: seq<nat>, p: seq<nat>, q: seq<nat>)
    requires a + p == a + q
    ensures p + [] == q + []
  {
    assert (a + p)[|a|..] == p && (a + q)[|a|..] == q;
  }
}
