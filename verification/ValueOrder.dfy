// Structural equality, hashing and ordering of native values, with their
// identity shortcuts.
module ValueOrder {
  import opened Bytes
  import opened Options

  // What a descriptor says of a value's layout. A union lists the payload, if
  // any, of each of its tags.
  datatype Shape =
    | BoolShape
    | SignedShape
    | UnsignedShape
    | FloatShape(wide: bool)
    | TextShape
    | KeywordShape
    | BytesShape
    | RecordShape(fields: seq<Shape>)
    | UnionShape(variants: map<int, Option<Shape>>)
    | VectorShape(element: Shape)
    | ReferenceShape(element: Shape)

  // A value as it is read through its descriptor. Vectors and references are
  // behind pointers, kept as addresses; floats are kept by their bits.
  datatype Value =
    | Bool(b: bool)
    | Signed(i: int)
    | Unsigned(n: nat)
    | Float(bits: nat)
    | Text(bytes: seq<Byte>)
    | Blob(bytes: seq<Byte>)
    | Record(fields: Values)
    | Union(tag: int, payload: Payload)
    | Vector(address: nat, items: Values)
    | Null
    | Reference(address: nat, target: Value)

  datatype Payload = NoPayload | Payload(value: Value)

  datatype Values = Nil | Cons(head: Value, tail: Values)

  predicate HasShape(s: Shape, v: Value)
    decreases v
  {
    match s
    case BoolShape => v.Bool?
    case SignedShape => v.Signed?
    case UnsignedShape => v.Unsigned?
    case FloatShape(wide) => v.Float? && v.bits < 2 * SignBit(wide)
    case TextShape => v.Text?
    case KeywordShape => v.Text?
    case BytesShape => v.Blob?
    case RecordShape(fields) => v.Record? && HaveShapes(fields, v.fields)
    case UnionShape(variants) =>
      && v.Union? && v.tag in variants
      && (match v.payload
          case NoPayload => variants[v.tag].None?
          case Payload(p) => variants[v.tag].Some? && HasShape(variants[v.tag].value, p))
    case VectorShape(e) => v.Vector? && AllShaped(e, v.items)
    case ReferenceShape(e) => v.Null? || (v.Reference? && HasShape(e, v.target))
  }

  predicate HaveShapes(fields: seq<Shape>, vs: Values)
    decreases vs
  {
    match vs
    case Nil => fields == []
    case Cons(head, tail) => fields != [] && HasShape(fields[0], head) && HaveShapes(fields[1..], tail)
  }

  predicate AllShaped(e: Shape, vs: Values)
    decreases vs
  {
    vs.Cons? ==> HasShape(e, vs.head) && AllShaped(e, vs.tail)
  }

  // ---- floats -------------------------------------------------------------

  function SignBit(wide: bool): nat {
    if wide then 0x8000_0000_0000_0000 else 0x8000_0000
  }

  function InfinityBits(wide: bool): nat {
    if wide then 0x7ff0_0000_0000_0000 else 0x7f80_0000
  }

  function NanBits(wide: bool): nat {
    if wide then 0x7ff8_0000_0000_0000 else 0x7fc0_0000
  }

  predicate IsNan(wide: bool, bits: nat) {
    bits % SignBit(wide) > InfinityBits(wide)
  }

  // The place of a number among the numbers: its magnitude's bits, signed. Both
  // zeros are at 0.
  function Rank(wide: bool, bits: nat): int {
    if bits >= SignBit(wide) then -(bits % SignBit(wide)) as int else bits
  }

  // ---- equality -----------------------------------------------------------

  predicate Equal(s: Shape, l: Value, r: Value)
    requires HasShape(s, l) && HasShape(s, r)
    decreases l
  {
    match s
    case FloatShape(wide) => !IsNan(wide, l.bits) && !IsNan(wide, r.bits) && Rank(wide, l.bits) == Rank(wide, r.bits)
    case RecordShape(fields) => EqualFields(fields, l.fields, r.fields)
    case UnionShape(variants) =>
      && l.tag == r.tag
      && (l.payload.NoPayload? || Equal(variants[l.tag].value, l.payload.value, r.payload.value))
    case VectorShape(e) => l.address == r.address || EqualItems(e, l.items, r.items)
    case ReferenceShape(e) =>
      if l.Null? || r.Null? then l == r
      else l.address == r.address || Equal(e, l.target, r.target)
    case _ => l == r
  }

  predicate EqualFields(fields: seq<Shape>, ls: Values, rs: Values)
    requires HaveShapes(fields, ls) && HaveShapes(fields, rs)
    decreases ls
  {
    fields == [] || (Equal(fields[0], ls.head, rs.head) && EqualFields(fields[1..], ls.tail, rs.tail))
  }

  predicate EqualItems(e: Shape, ls: Values, rs: Values)
    requires AllShaped(e, ls) && AllShaped(e, rs)
    decreases ls
  {
    match ls
    case Nil => rs.Nil?
    case Cons(head, tail) => rs.Cons? && Equal(e, head, rs.head) && EqualItems(e, tail, rs.tail)
  }

  // ---- hashing ------------------------------------------------------------

  // The two mixing steps of the hash.
  datatype Mix = Mix(word: (nat, nat) -> nat, byte: (nat, Byte) -> nat)

  function KindCode(s: Shape): nat {
    match s
    case BoolShape => 1
    case SignedShape => 2
    case UnsignedShape => 3
    case FloatShape(_) => 4
    case TextShape => 5
    case KeywordShape => 6
    case RecordShape(_) => 7
    case UnionShape(_) => 8
    case VectorShape(_) => 9
    case ReferenceShape(_) => 10
    case BytesShape => 12
  }

  // A signed word as the unsigned one with the same bits.
  function AsUnsigned(i: int): nat {
    i % 0x1_0000_0000_0000_0000
  }

  function Count(vs: Values): nat {
    if vs.Nil? then 0 else 1 + Count(vs.tail)
  }

  function HashBytes(m: Mix, bs: seq<Byte>, state: nat): nat {
    if bs == [] then state else HashBytes(m, bs[1..], m.byte(state, bs[0]))
  }

  function HashedBits(wide: bool, bits: nat): nat {
    if IsNan(wide, bits) then NanBits(wide) else if Rank(wide, bits) == 0 then 0 else bits
  }

  function Hash(m: Mix, s: Shape, v: Value, state: nat): nat
    requires HasShape(s, v)
    decreases v
  {
    var t := m.word(state, KindCode(s));
    match s
    case BoolShape => m.word(t, if v.b then 1 else 0)
    case SignedShape => m.word(t, AsUnsigned(v.i))
    case UnsignedShape => m.word(t, v.n)
    case FloatShape(wide) => m.word(t, HashedBits(wide, v.bits))
    case TextShape => HashBytes(m, v.bytes, m.word(t, |v.bytes|))
    case KeywordShape => HashBytes(m, v.bytes, m.word(t, |v.bytes|))
    case BytesShape => HashBytes(m, v.bytes, m.word(t, |v.bytes|))
    case RecordShape(fields) => HashFields(m, fields, v.fields, m.word(t, |fields|))
    case UnionShape(variants) =>
      var u := m.word(t, AsUnsigned(v.tag));
      if v.payload.NoPayload? then u else Hash(m, variants[v.tag].value, v.payload.value, u)
    case VectorShape(e) => HashItems(m, e, v.items, m.word(t, Count(v.items)))
    case ReferenceShape(e) => if v.Null? then m.word(t, 0) else Hash(m, e, v.target, m.word(t, 1))
  }

  function HashFields(m: Mix, fields: seq<Shape>, vs: Values, state: nat): nat
    requires HaveShapes(fields, vs)
    decreases vs
  {
    if fields == [] then state else HashFields(m, fields[1..], vs.tail, Hash(m, fields[0], vs.head, state))
  }

  function HashItems(m: Mix, e: Shape, vs: Values, state: nat): nat
    requires AllShaped(e, vs)
    decreases vs
  {
    match vs
    case Nil => state
    case Cons(head, tail) => HashItems(m, e, tail, Hash(m, e, head, state))
  }

  // ---- comparison ---------------------------------------------------------

  function Order(l: int, r: int): int {
    if l < r then -1 else if l > r then 1 else 0
  }

  // memcmp over the common length, then the lengths.
  function OrderBytes(l: seq<Byte>, r: seq<Byte>): (c: int)
    ensures -1 <= c <= 1
  {
    if l == [] || r == [] then Order(|l|, |r|)
    else if l[0] != r[0] then Order(l[0] as int, r[0] as int)
    else OrderBytes(l[1..], r[1..])
  }

  function OrderFloats(wide: bool, l: nat, r: nat): int {
    if IsNan(wide, l) && IsNan(wide, r) then Order(l, r)
    else if IsNan(wide, l) then 1
    else if IsNan(wide, r) then -1
    else Order(Rank(wide, l), Rank(wide, r))
  }

  // With `shortcuts`, as the source does, pointers to one place compare equal
  // unread.
  function Compare(shortcuts: bool, s: Shape, l: Value, r: Value): (c: int)
    requires HasShape(s, l) && HasShape(s, r)
    ensures -1 <= c <= 1
    decreases l
  {
    match s
    case BoolShape => Order(if l.b then 1 else 0, if r.b then 1 else 0)
    case SignedShape => Order(l.i, r.i)
    case UnsignedShape => Order(l.n, r.n)
    case FloatShape(wide) => OrderFloats(wide, l.bits, r.bits)
    case TextShape => OrderBytes(l.bytes, r.bytes)
    case KeywordShape => OrderBytes(l.bytes, r.bytes)
    case BytesShape => OrderBytes(l.bytes, r.bytes)
    case RecordShape(fields) => CompareFields(shortcuts, fields, l.fields, r.fields)
    case UnionShape(variants) =>
      if l.tag != r.tag then Order(l.tag, r.tag)
      else if l.payload.NoPayload? then 0
      else Compare(shortcuts, variants[l.tag].value, l.payload.value, r.payload.value)
    case VectorShape(e) =>
      if shortcuts && l.address == r.address then 0 else CompareItems(shortcuts, e, l.items, r.items)
    case ReferenceShape(e) =>
      if l.Null? || r.Null? then Order(if l.Null? then 0 else 1, if r.Null? then 0 else 1)
      else if shortcuts && l.address == r.address then 0
      else Compare(shortcuts, e, l.target, r.target)
  }

  function CompareFields(shortcuts: bool, fields: seq<Shape>, ls: Values, rs: Values): (c: int)
    requires HaveShapes(fields, ls) && HaveShapes(fields, rs)
    ensures -1 <= c <= 1
    decreases ls
  {
    if fields == [] then 0
    else
      var c := Compare(shortcuts, fields[0], ls.head, rs.head);
      if c != 0 then c else CompareFields(shortcuts, fields[1..], ls.tail, rs.tail)
  }

  // The common items in order, then the lengths.
  function CompareItems(shortcuts: bool, e: Shape, ls: Values, rs: Values): (c: int)
    requires AllShaped(e, ls) && AllShaped(e, rs)
    ensures -1 <= c <= 1
    decreases ls
  {
    if ls.Nil? || rs.Nil? then Order(Count(ls), Count(rs))
    else
      var c := Compare(shortcuts, e, ls.head, rs.head);
      if c != 0 then c else CompareItems(shortcuts, e, ls.tail, rs.tail)
  }

  // ---- memory -------------------------------------------------------------

  // What stands behind each pointer, read by the shape of what it points to: a
  // record and its first field share an address.
  datatype Store = Store(vectors: (Shape, nat) -> Values, records: (Shape, nat) -> Value)

  // Every pointer in v leads to what the store holds there.
  ghost predicate Stored(m: Store, s: Shape, v: Value)
    requires HasShape(s, v)
    decreases v
  {
    match s
    case RecordShape(fields) => FieldsStored(m, fields, v.fields)
    case UnionShape(variants) => v.payload.Payload? ==> Stored(m, variants[v.tag].value, v.payload.value)
    case VectorShape(e) => v.items == m.vectors(e, v.address) && ItemsStored(m, e, v.items)
    case ReferenceShape(e) => v.Reference? ==> v.target == m.records(e, v.address) && Stored(m, e, v.target)
    case _ => true
  }

  ghost predicate FieldsStored(m: Store, fields: seq<Shape>, vs: Values)
    requires HaveShapes(fields, vs)
    decreases vs
  {
    vs.Cons? ==> Stored(m, fields[0], vs.head) && FieldsStored(m, fields[1..], vs.tail)
  }

  ghost predicate ItemsStored(m: Store, e: Shape, vs: Values)
    requires AllShaped(e, vs)
    decreases vs
  {
    vs.Cons? ==> Stored(m, e, vs.head) && ItemsStored(m, e, vs.tail)
  }

  // ---- a total preorder ---------------------------------------------------

  lemma {:induction false} BytesReflexive(b: seq<Byte>)
    ensures OrderBytes(b, b) == 0
  {
    if b != [] { BytesReflexive(b[1..]); }
  }

  // Every value is level with itself, NaN included.
  lemma {:induction false} Reflexive(s: Shape, v: Value)
    requires HasShape(s, v)
    ensures Compare(false, s, v, v) == 0
    decreases v, 1
  {
    match s
    case TextShape => BytesReflexive(v.bytes);
    case KeywordShape => BytesReflexive(v.bytes);
    case BytesShape => BytesReflexive(v.bytes);
    case RecordShape(fields) => FieldsReflexive(fields, v.fields);
    case UnionShape(variants) =>
      if v.payload.Payload? { Reflexive(variants[v.tag].value, v.payload.value); }
    case VectorShape(e) => ItemsReflexive(e, v.items);
    case ReferenceShape(e) =>
      if v.Reference? { Reflexive(e, v.target); }
    case _ =>
  }

  lemma {:induction false} FieldsReflexive(fields: seq<Shape>, vs: Values)
    requires HaveShapes(fields, vs)
    ensures CompareFields(false, fields, vs, vs) == 0
    decreases vs, 0
  {
    if fields != [] {
      Reflexive(fields[0], vs.head);
      FieldsReflexive(fields[1..], vs.tail);
    }
  }

  lemma {:induction false} ItemsReflexive(e: Shape, vs: Values)
    requires AllShaped(e, vs)
    ensures CompareItems(false, e, vs, vs) == 0
    decreases vs, 0
  {
    if vs.Cons? {
      Reflexive(e, vs.head);
      ItemsReflexive(e, vs.tail);
    }
  }

  // Taking two pointers to one place for equal, unread, changes no result.
  lemma {:induction false} ShortcutsAgree(m: Store, s: Shape, l: Value, r: Value)
    requires HasShape(s, l) && HasShape(s, r) && Stored(m, s, l) && Stored(m, s, r)
    ensures Compare(true, s, l, r) == Compare(false, s, l, r)
    decreases l, 1
  {
    match s
    case RecordShape(fields) => FieldsAgree(m, fields, l.fields, r.fields);
    case UnionShape(variants) =>
      if l.tag == r.tag && l.payload.Payload? {
        ShortcutsAgree(m, variants[l.tag].value, l.payload.value, r.payload.value);
      }
    case VectorShape(e) =>
      ItemsReflexive(e, l.items);
      ItemsAgree(m, e, l.items, r.items);
    case ReferenceShape(e) =>
      if l.Reference? && r.Reference? {
        Reflexive(e, l.target);
        ShortcutsAgree(m, e, l.target, r.target);
      }
    case _ =>
  }

  lemma {:induction false} FieldsAgree(m: Store, fields: seq<Shape>, ls: Values, rs: Values)
    requires HaveShapes(fields, ls) && HaveShapes(fields, rs) && FieldsStored(m, fields, ls)
      && FieldsStored(m, fields, rs)
    ensures CompareFields(true, fields, ls, rs) == CompareFields(false, fields, ls, rs)
    decreases ls, 0
  {
    if fields != [] {
      ShortcutsAgree(m, fields[0], ls.head, rs.head);
      FieldsAgree(m, fields[1..], ls.tail, rs.tail);
    }
  }

  lemma {:induction false} ItemsAgree(m: Store, e: Shape, ls: Values, rs: Values)
    requires AllShaped(e, ls) && AllShaped(e, rs) && ItemsStored(m, e, ls) && ItemsStored(m, e, rs)
    ensures CompareItems(true, e, ls, rs) == CompareItems(false, e, ls, rs)
    decreases ls, 0
  {
    if ls.Cons? && rs.Cons? {
      ShortcutsAgree(m, e, ls.head, rs.head);
      ItemsAgree(m, e, ls.tail, rs.tail);
    }
  }

  // The three comparisons of a with b, b with c and a with c fit together.
  ghost predicate Ordered(ab: int, bc: int, ac: int) {
    && (ab <= 0 && bc <= 0 ==> ac <= 0 && (ac == 0 ==> ab == 0 && bc == 0))
    && (ab == 0 && bc == 0 ==> ac == 0)
  }

  lemma {:induction false} BytesOrdered(a: seq<Byte>, b: seq<Byte>, c: seq<Byte>)
    ensures Ordered(OrderBytes(a, b), OrderBytes(b, c), OrderBytes(a, c)) && OrderBytes(a, b) == -OrderBytes(b, a)
  {
    if a != [] && b != [] {
      BytesOrdered(a[1..], b[1..], if c == [] then [] else c[1..]);
    }
  }

  lemma {:induction false} Transitive(s: Shape, a: Value, b: Value, c: Value)
    requires HasShape(s, a) && HasShape(s, b) && HasShape(s, c)
    ensures Ordered(Compare(false, s, a, b), Compare(false, s, b, c), Compare(false, s, a, c))
    ensures Compare(false, s, a, b) == -Compare(false, s, b, a)
    decreases a, 1
  {
    match s
    case RecordShape(fields) =>
      hide Ordered, CompareFields;
      FieldsTransitive(fields, a.fields, b.fields, c.fields);
    case UnionShape(variants) =>
      hide *;
      UnionsTransitive(variants, a, b, c);
    case VectorShape(e) =>
      hide Ordered, CompareItems;
      ItemsTransitive(e, a.items, b.items, c.items);
    case ReferenceShape(e) =>
      hide *;
      ReferencesTransitive(e, a, b, c);
    case _ =>
      hide *;
      LeavesTransitive(s, a, b, c);
  }

  lemma LeavesTransitive(s: Shape, a: Value, b: Value, c: Value)
    requires HasShape(s, a) && HasShape(s, b) && HasShape(s, c)
    requires !s.RecordShape? && !s.UnionShape? && !s.VectorShape? && !s.ReferenceShape?
    ensures Ordered(Compare(false, s, a, b), Compare(false, s, b, c), Compare(false, s, a, c))
    ensures Compare(false, s, a, b) == -Compare(false, s, b, a)
  {
    if s.TextShape? || s.KeywordShape? || s.BytesShape? {
      hide OrderBytes, Ordered;
      BytesOrdered(a.bytes, b.bytes, c.bytes);
    }
  }

  lemma {:induction false} UnionsTransitive(variants: map<int, Option<Shape>>, a: Value, b: Value, c: Value)
    requires HasShape(UnionShape(variants), a) && HasShape(UnionShape(variants), b) && HasShape(UnionShape(variants), c)
    ensures var s := UnionShape(variants);
      Ordered(Compare(false, s, a, b), Compare(false, s, b, c), Compare(false, s, a, c))
      && Compare(false, s, a, b) == -Compare(false, s, b, a)
    decreases a, 0
  {
    if a.tag == b.tag && a.payload.Payload? {
      var p := variants[a.tag].value;
      Transitive(p, a.payload.value, b.payload.value, if c.tag == a.tag then c.payload.value else b.payload.value);
    }
  }

  lemma {:induction false} ReferencesTransitive(e: Shape, a: Value, b: Value, c: Value)
    requires HasShape(ReferenceShape(e), a) && HasShape(ReferenceShape(e), b) && HasShape(ReferenceShape(e), c)
    ensures var s := ReferenceShape(e);
      Ordered(Compare(false, s, a, b), Compare(false, s, b, c), Compare(false, s, a, c))
      && Compare(false, s, a, b) == -Compare(false, s, b, a)
    decreases a, 0
  {
    if a.Reference? && b.Reference? {
      Transitive(e, a.target, b.target, if c.Reference? then c.target else b.target);
    } else if a.Reference? && c.Reference? {
      Transitive(e, a.target, c.target, c.target);
    }
  }

  lemma {:induction false} FieldsTransitive(fields: seq<Shape>, a: Values, b: Values, c: Values)
    requires HaveShapes(fields, a) && HaveShapes(fields, b) && HaveShapes(fields, c)
    ensures Ordered(CompareFields(false, fields, a, b), CompareFields(false, fields, b, c),
      CompareFields(false, fields, a, c))
    ensures CompareFields(false, fields, a, b) == -CompareFields(false, fields, b, a)
    decreases a, 0
  {
    if fields != [] {
      Transitive(fields[0], a.head, b.head, c.head);
      FieldsTransitive(fields[1..], a.tail, b.tail, c.tail);
    }
  }

  lemma {:induction false} ItemsTransitive(e: Shape, a: Values, b: Values, c: Values)
    requires AllShaped(e, a) && AllShaped(e, b) && AllShaped(e, c)
    ensures Ordered(CompareItems(false, e, a, b), CompareItems(false, e, b, c), CompareItems(false, e, a, c))
    ensures CompareItems(false, e, a, b) == -CompareItems(false, e, b, a)
    decreases a, 0
  {
    if a.Cons? && b.Cons? {
      if c.Cons? {
        Transitive(e, a.head, b.head, c.head);
        ItemsTransitive(e, a.tail, b.tail, c.tail);
      } else {
        Transitive(e, a.head, b.head, b.head);
        ItemsTransitive(e, a.tail, b.tail, b.tail);
      }
    } else if a.Cons? && c.Cons? {
      Transitive(e, a.head, c.head, c.head);
      ItemsTransitive(e, a.tail, c.tail, c.tail);
    }
  }

  // The comparison of the source is a total preorder on stored values of one
  // shape.
  lemma TotalPreorder(m: Store, s: Shape, a: Value, b: Value, c: Value)
    requires HasShape(s, a) && HasShape(s, b) && HasShape(s, c)
    requires Stored(m, s, a) && Stored(m, s, b) && Stored(m, s, c)
    ensures Compare(true, s, a, a) == 0
    ensures Compare(true, s, a, b) == -Compare(true, s, b, a)
    ensures Compare(true, s, a, b) <= 0 && Compare(true, s, b, c) <= 0 ==> Compare(true, s, a, c) <= 0
  {
    ShortcutsAgree(m, s, a, a);
    ShortcutsAgree(m, s, a, b);
    ShortcutsAgree(m, s, b, a);
    ShortcutsAgree(m, s, b, c);
    ShortcutsAgree(m, s, a, c);
    Reflexive(s, a);
    Transitive(s, a, b, c);
  }

  // ---- equality is a partial equivalence ----------------------------------

  lemma {:induction false} EqualSymmetric(s: Shape, l: Value, r: Value)
    requires HasShape(s, l) && HasShape(s, r) && Equal(s, l, r)
    ensures Equal(s, r, l)
    decreases l, 1
  {
    match s
    case RecordShape(fields) => EqualFieldsSymmetric(fields, l.fields, r.fields);
    case UnionShape(variants) =>
      if l.payload.Payload? { EqualSymmetric(variants[l.tag].value, l.payload.value, r.payload.value); }
    case VectorShape(e) =>
      if l.address != r.address { EqualItemsSymmetric(e, l.items, r.items); }
    case ReferenceShape(e) =>
      if l.Reference? && l.address != r.address { EqualSymmetric(e, l.target, r.target); }
    case _ =>
  }

  lemma {:induction false} EqualFieldsSymmetric(fields: seq<Shape>, ls: Values, rs: Values)
    requires HaveShapes(fields, ls) && HaveShapes(fields, rs) && EqualFields(fields, ls, rs)
    ensures EqualFields(fields, rs, ls)
    decreases ls, 0
  {
    if fields != [] {
      EqualSymmetric(fields[0], ls.head, rs.head);
      EqualFieldsSymmetric(fields[1..], ls.tail, rs.tail);
    }
  }

  lemma {:induction false} EqualItemsSymmetric(e: Shape, ls: Values, rs: Values)
    requires AllShaped(e, ls) && AllShaped(e, rs) && EqualItems(e, ls, rs)
    ensures EqualItems(e, rs, ls)
    decreases ls, 0
  {
    if ls.Cons? {
      EqualSymmetric(e, ls.head, rs.head);
      EqualItemsSymmetric(e, ls.tail, rs.tail);
    }
  }

  // Found equal by reading or by pointer, in any mixture.
  lemma {:induction false} EqualTransitive(m: Store, s: Shape, a: Value, b: Value, c: Value)
    requires HasShape(s, a) && HasShape(s, b) && HasShape(s, c)
    requires Stored(m, s, a) && Stored(m, s, b) && Stored(m, s, c) && Equal(s, a, b) && Equal(s, b, c)
    ensures Equal(s, a, c)
    decreases a, 1
  {
    match s
    case RecordShape(fields) => EqualFieldsTransitive(m, fields, a.fields, b.fields, c.fields);
    case UnionShape(variants) =>
      if a.payload.Payload? {
        EqualTransitive(m, variants[a.tag].value, a.payload.value, b.payload.value, c.payload.value);
      }
    case VectorShape(e) =>
      if a.address != b.address && b.address != c.address { EqualItemsTransitive(m, e, a.items, b.items, c.items); }
    case ReferenceShape(e) =>
      if a.Reference? && a.address != b.address && b.address != c.address {
        EqualTransitive(m, e, a.target, b.target, c.target);
      }
    case _ =>
  }

  lemma {:induction false} EqualFieldsTransitive(m: Store, fields: seq<Shape>, a: Values, b: Values, c: Values)
    requires HaveShapes(fields, a) && HaveShapes(fields, b) && HaveShapes(fields, c)
    requires FieldsStored(m, fields, a) && FieldsStored(m, fields, b) && FieldsStored(m, fields, c)
    requires EqualFields(fields, a, b) && EqualFields(fields, b, c)
    ensures EqualFields(fields, a, c)
    decreases a, 0
  {
    if fields != [] {
      EqualTransitive(m, fields[0], a.head, b.head, c.head);
      EqualFieldsTransitive(m, fields[1..], a.tail, b.tail, c.tail);
    }
  }

  lemma {:induction false} EqualItemsTransitive(m: Store, e: Shape, a: Values, b: Values, c: Values)
    requires AllShaped(e, a) && AllShaped(e, b) && AllShaped(e, c)
    requires ItemsStored(m, e, a) && ItemsStored(m, e, b) && ItemsStored(m, e, c)
    requires EqualItems(e, a, b) && EqualItems(e, b, c)
    ensures EqualItems(e, a, c)
    decreases a, 0
  {
    if a.Cons? {
      EqualTransitive(m, e, a.head, b.head, c.head);
      EqualItemsTransitive(m, e, a.tail, b.tail, c.tail);
    }
  }

  // ---- equality agrees ----------------------------------------------------

  // Equal values are level and have one hash, whether they were found equal by
  // reading them or by their pointers.
  lemma {:induction false} EqualAgrees(m: Store, mix: Mix, s: Shape, l: Value, r: Value, state: nat)
    requires HasShape(s, l) && HasShape(s, r) && Stored(m, s, l) && Stored(m, s, r) && Equal(s, l, r)
    ensures Compare(false, s, l, r) == 0 && Hash(mix, s, l, state) == Hash(mix, s, r, state)
    decreases l, 1
  {
    var t := mix.word(state, KindCode(s));
    match s
    case FloatShape(wide) =>
    case TextShape => BytesReflexive(l.bytes);
    case KeywordShape => BytesReflexive(l.bytes);
    case BytesShape => BytesReflexive(l.bytes);
    case RecordShape(fields) => EqualFieldsAgree(m, mix, fields, l.fields, r.fields, mix.word(t, |fields|));
    case UnionShape(variants) =>
      if l.payload.Payload? {
        EqualAgrees(m, mix, variants[l.tag].value, l.payload.value, r.payload.value, mix.word(t, AsUnsigned(l.tag)));
      }
    case VectorShape(e) =>
      if l.address == r.address {
        ItemsReflexive(e, l.items);
      } else {
        EqualItemsAgree(m, mix, e, l.items, r.items, mix.word(t, Count(l.items)));
      }
    case ReferenceShape(e) =>
      if l.Reference? {
        if l.address == r.address {
          Reflexive(e, l.target);
        } else {
          EqualAgrees(m, mix, e, l.target, r.target, mix.word(t, 1));
        }
      }
    case _ =>
  }

  lemma {:induction false} EqualFieldsAgree(m: Store, mix: Mix, fields: seq<Shape>, ls: Values, rs: Values, state: nat)
    requires HaveShapes(fields, ls) && HaveShapes(fields, rs) && FieldsStored(m, fields, ls)
      && FieldsStored(m, fields, rs)
    requires EqualFields(fields, ls, rs)
    ensures CompareFields(false, fields, ls, rs) == 0
    ensures HashFields(mix, fields, ls, state) == HashFields(mix, fields, rs, state)
    decreases ls, 0
  {
    if fields != [] {
      EqualAgrees(m, mix, fields[0], ls.head, rs.head, state);
      EqualFieldsAgree(m, mix, fields[1..], ls.tail, rs.tail, Hash(mix, fields[0], ls.head, state));
    }
  }

  lemma {:induction false} EqualItemsAgree(m: Store, mix: Mix, e: Shape, ls: Values, rs: Values, state: nat)
    requires AllShaped(e, ls) && AllShaped(e, rs) && ItemsStored(m, e, ls) && ItemsStored(m, e, rs)
      && EqualItems(e, ls, rs)
    ensures CompareItems(false, e, ls, rs) == 0 && Count(ls) == Count(rs)
    ensures HashItems(mix, e, ls, state) == HashItems(mix, e, rs, state)
    decreases ls, 0
  {
    if ls.Cons? {
      EqualAgrees(m, mix, e, ls.head, rs.head, state);
      EqualItemsAgree(m, mix, e, ls.tail, rs.tail, Hash(mix, e, ls.head, state));
    }
  }

  // Equality as the source finds it implies equal hashes and a comparison of 0.
  lemma EqualValues(m: Store, mix: Mix, s: Shape, l: Value, r: Value, state: nat)
    requires HasShape(s, l) && HasShape(s, r) && Stored(m, s, l) && Stored(m, s, r) && Equal(s, l, r)
    ensures Compare(true, s, l, r) == 0 && Hash(mix, s, l, state) == Hash(mix, s, r, state)
  {
    ShortcutsAgree(m, s, l, r);
    EqualAgrees(m, mix, s, l, r, state);
  }

  predicate NanFree(s: Shape, v: Value)
    requires HasShape(s, v)
    decreases v
  {
    match s
    case FloatShape(wide) => !IsNan(wide, v.bits)
    case RecordShape(fields) => FieldsNanFree(fields, v.fields)
    case UnionShape(variants) => v.payload.NoPayload? || NanFree(variants[v.tag].value, v.payload.value)
    case VectorShape(e) => ItemsNanFree(e, v.items)
    case ReferenceShape(e) => v.Null? || NanFree(e, v.target)
    case _ => true
  }

  predicate FieldsNanFree(fields: seq<Shape>, vs: Values)
    requires HaveShapes(fields, vs)
    decreases vs
  {
    fields == [] || (NanFree(fields[0], vs.head) && FieldsNanFree(fields[1..], vs.tail))
  }

  predicate ItemsNanFree(e: Shape, vs: Values)
    requires AllShaped(e, vs)
    decreases vs
  {
    vs.Cons? ==> NanFree(e, vs.head) && ItemsNanFree(e, vs.tail)
  }

  lemma {:induction false} BytesLevel(l: seq<Byte>, r: seq<Byte>)
    requires OrderBytes(l, r) == 0
    ensures l == r
  {
    if l != [] && r != [] {
      BytesLevel(l[1..], r[1..]);
      assert l == [l[0]] + l[1..] && r == [r[0]] + r[1..];
    }
  }

  // Where there is no NaN, level values are equal: only NaN separates the two.
  lemma {:induction false} LevelIsEqual(s: Shape, l: Value, r: Value)
    requires HasShape(s, l) && HasShape(s, r) && NanFree(s, l) && Compare(false, s, l, r) == 0
    ensures Equal(s, l, r)
    decreases l, 1
  {
    match s
    case TextShape => BytesLevel(l.bytes, r.bytes);
    case KeywordShape => BytesLevel(l.bytes, r.bytes);
    case BytesShape => BytesLevel(l.bytes, r.bytes);
    case RecordShape(fields) => LevelFields(fields, l.fields, r.fields);
    case UnionShape(variants) =>
      if l.payload.Payload? { LevelIsEqual(variants[l.tag].value, l.payload.value, r.payload.value); }
    case VectorShape(e) => LevelItems(e, l.items, r.items);
    case ReferenceShape(e) =>
      if l.Reference? && r.Reference? { LevelIsEqual(e, l.target, r.target); }
    case _ =>
  }

  lemma {:induction false} LevelFields(fields: seq<Shape>, ls: Values, rs: Values)
    requires HaveShapes(fields, ls) && HaveShapes(fields, rs) && FieldsNanFree(fields, ls)
    requires CompareFields(false, fields, ls, rs) == 0
    ensures EqualFields(fields, ls, rs)
    decreases ls, 0
  {
    if fields != [] {
      LevelIsEqual(fields[0], ls.head, rs.head);
      LevelFields(fields[1..], ls.tail, rs.tail);
    }
  }

  lemma {:induction false} LevelItems(e: Shape, ls: Values, rs: Values)
    requires AllShaped(e, ls) && AllShaped(e, rs) && ItemsNanFree(e, ls) && CompareItems(false, e, ls, rs) == 0
    ensures EqualItems(e, ls, rs)
    decreases ls, 0
  {
    if ls.Cons? && rs.Cons? {
      LevelIsEqual(e, ls.head, rs.head);
      LevelItems(e, ls.tail, rs.tail);
    }
  }

  // A value with no NaN in it equals exactly the values it is level with.
  lemma EqualIffLevel(m: Store, mix: Mix, s: Shape, l: Value, r: Value)
    requires HasShape(s, l) && HasShape(s, r) && Stored(m, s, l) && Stored(m, s, r) && NanFree(s, l)
    ensures Equal(s, l, r) <==> Compare(true, s, l, r) == 0
  {
    ShortcutsAgree(m, s, l, r);
    if Equal(s, l, r) {
      EqualAgrees(m, mix, s, l, r, 0);
    } else if Compare(true, s, l, r) == 0 {
      LevelIsEqual(s, l, r);
    }
  }
}
