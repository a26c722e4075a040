// The kinds of keys a native map is made with, and the proof that each keeps the
// law the map is built on.
module KeyKinds {
  import opened AssocList
  import opened Bytes
  import opened NativeMap
  import opened ValueHash
  import opened ValueMeaning
  import opened ValueOrder

  // ---- booleans and integers ----------------------------------------------

  function BoolKeys(mix: Mix): Kind<bool> {
    Kind(Equality((a: bool, b: bool) => a == b, (a: bool) => true, (a: bool) => mix.word(0, if a then 1 else 0)), true)
  }

  lemma BoolKeysMean(mix: Mix)
    ensures BoolKeys(mix).Lawful() && BoolKeys(mix).kindHashable && forall a :: BoolKeys(mix).e.hashable(a)
    ensures forall a, b :: BoolKeys(mix).e.eq(a, b) <==> a == b
  {}

  function IntKeys(mix: Mix): Kind<int> {
    Kind(Equality((a: int, b: int) => a == b, (a: int) => true, (a: int) => mix.word(0, AsUnsigned(a))), true)
  }

  lemma IntKeysLawful(mix: Mix)
    ensures IntKeys(mix).Lawful() && IntKeys(mix).kindHashable && forall a :: IntKeys(mix).e.hashable(a)
    ensures forall a, b :: IntKeys(mix).e.eq(a, b) <==> a == b
  {}

  // A map over integers finds the very number.
  lemma IntScan(mix: Mix, ks: seq<int>, k: int)
    ensures Scan(IntKeys(mix).e, ks, k) >= 0 <==> k in ks
    ensures forall i | 0 <= i < |ks| && ks[i] == k :: 0 <= Scan(IntKeys(mix).e, ks, k) <= i
  {
    IntKeysLawful(mix);
  }

  // ---- doubles ------------------------------------------------------------

  type Bits64 = b: nat | b < 0x1_0000_0000_0000_0000

  // Doubles by their bits: equal as numbers, so never for NaN, and hashed with
  // both zeros alike.
  predicate FloatsEqual(a: Bits64, b: Bits64) {
    !IsNan(true, a) && !IsNan(true, b) && Rank(true, a) == Rank(true, b)
  }

  function FloatKeys(mix: Mix): Kind<Bits64> {
    Kind(Equality((a: Bits64, b: Bits64) => FloatsEqual(a, b), (a: Bits64) => true,
                  (a: Bits64) => mix.word(0, HashedBits(true, a))), true)
  }

  // Numbers at one place have the same bits, but for the zeros.
  lemma SameRank(a: Bits64, b: Bits64)
    requires Rank(true, a) == Rank(true, b)
    ensures a == b || Rank(true, a) == 0
  {}

  lemma FloatKeysLawful(mix: Mix)
    ensures FloatKeys(mix).Lawful() && FloatKeys(mix).kindHashable && forall a :: FloatKeys(mix).e.hashable(a)
    ensures forall a: Bits64, b: Bits64 :: FloatKeys(mix).e.eq(a, b) <==>
      !NotANumber(true, a) && !NotANumber(true, b) && Number(true, a) == Number(true, b)
  {
    forall a: Bits64, b: Bits64 | FloatsEqual(a, b)
      ensures HashedBits(true, a) == HashedBits(true, b)
    {
      SameRank(a, b);
    }
    forall a: Bits64, b: Bits64
      ensures FloatsEqual(a, b) <==>
        !NotANumber(true, a) && !NotANumber(true, b) && Number(true, a) == Number(true, b)
    {
      NanIs(true, a);
      NanIs(true, b);
      if !IsNan(true, a) && !IsNan(true, b) { RankOrders(true, a, b); }
    }
    hide IsNan, Rank, HashedBits, NotANumber, Number;
  }

  // A pattern that is a number equals its own bits, and the two zeros equal each
  // other; no other two patterns are equal.
  lemma FloatBits(mix: Mix, a: Bits64, b: Bits64)
    ensures FloatKeys(mix).e.eq(a, b) <==>
      && a % 0x8000_0000_0000_0000 <= 0x7ff0_0000_0000_0000
      && (a == b || (a % 0x8000_0000_0000_0000 == 0 && b % 0x8000_0000_0000_0000 == 0))
  {}

  // ---- texts --------------------------------------------------------------

  // Texts and keywords by their handles: one handle is equal to itself unread,
  // and only handles other than the null one can be read and hashed. Comparing
  // the null handle with another traps; here it is unequal to it.
  predicate TextsEqual(texts: nat -> seq<Byte>, a: nat, b: nat) {
    a == b || (a != 0 && b != 0 && texts(a) == texts(b))
  }

  function TextHandles(mix: Mix, texts: nat -> seq<Byte>): Kind<nat> {
    Kind(Equality((a: nat, b: nat) => TextsEqual(texts, a, b), (a: nat) => a != 0,
                  (a: nat) => HashBytes(mix, texts(a), mix.word(0, |texts(a)|))), true)
  }

  lemma TextHandlesLawful(mix: Mix, texts: nat -> seq<Byte>)
    ensures TextHandles(mix, texts).Lawful() && TextHandles(mix, texts).kindHashable
    ensures forall a: nat :: TextHandles(mix, texts).e.hashable(a) <==> a != 0
    ensures forall a: nat, b: nat | a != 0 && b != 0 ::
      TextHandles(mix, texts).e.eq(a, b) <==> texts(a) == texts(b)
    ensures forall a: nat :: TextHandles(mix, texts).e.eq(a, a)
    ensures forall a: nat | a != 0 :: !TextHandles(mix, texts).e.eq(a, 0) && !TextHandles(mix, texts).e.eq(0, a)
  {}

  // A map over texts finds whatever handle the same text was stored under.
  lemma TextScan(mix: Mix, texts: nat -> seq<Byte>, ks: seq<nat>, k: nat)
    requires k != 0 && forall i | 0 <= i < |ks| :: ks[i] != 0
    ensures var i := Scan(TextHandles(mix, texts).e, ks, k);
      && (i >= 0 <==> exists j :: 0 <= j < |ks| && texts(ks[j]) == texts(k))
      && (i >= 0 ==> texts(ks[i]) == texts(k))
  {
    TextHandlesLawful(mix, texts);
    hide TextsEqual;
  }

  // ---- what the hashes are told -------------------------------------------

  // Where mixing loses nothing, keys that have a hash share it exactly when they
  // are equal: booleans, integers of 64 bits, doubles other than NaN, and texts.
  lemma HashesTell(mix: Mix, trace: nat -> seq<nat>, texts: nat -> seq<Byte>)
    requires Keeps(mix, trace)
    ensures var e := BoolKeys(mix).e;
      forall a, b :: e.hash(a) == e.hash(b) <==> e.eq(a, b)
    ensures var e, limit := IntKeys(mix).e, 0x8000_0000_0000_0000;
      forall a, b | -limit <= a < limit && -limit <= b < limit :: e.hash(a) == e.hash(b) <==> e.eq(a, b)
    ensures var e := FloatKeys(mix).e;
      forall a: Bits64, b: Bits64 | e.eq(a, a) && e.eq(b, b) :: e.hash(a) == e.hash(b) <==> e.eq(a, b)
    ensures var e := TextHandles(mix, texts).e;
      forall a: nat, b: nat | a != 0 && b != 0 :: e.hash(a) == e.hash(b) <==> e.eq(a, b)
  {
    hide *;
    forall a, b ensures BoolKeys(mix).e.hash(a) == BoolKeys(mix).e.hash(b) <==> BoolKeys(mix).e.eq(a, b) {
      BoolHashTells(mix, trace, a, b);
    }
    forall a: int, b: int | -0x8000_0000_0000_0000 <= a < 0x8000_0000_0000_0000
      && -0x8000_0000_0000_0000 <= b < 0x8000_0000_0000_0000
      ensures IntKeys(mix).e.hash(a) == IntKeys(mix).e.hash(b) <==> IntKeys(mix).e.eq(a, b)
    {
      IntHashTells(mix, trace, a, b);
    }
    forall a: Bits64, b: Bits64 | FloatKeys(mix).e.eq(a, a) && FloatKeys(mix).e.eq(b, b)
      ensures FloatKeys(mix).e.hash(a) == FloatKeys(mix).e.hash(b) <==> FloatKeys(mix).e.eq(a, b)
    {
      FloatHashTells(mix, trace, a, b);
    }
    forall a: nat, b: nat | a != 0 && b != 0
      ensures TextHandles(mix, texts).e.hash(a) == TextHandles(mix, texts).e.hash(b)
        <==> TextHandles(mix, texts).e.eq(a, b)
    {
      TextHashTells(mix, trace, texts, a, b);
    }
  }

  lemma WordTold(mix: Mix, trace: nat -> seq<nat>, s: nat, x: nat, y: nat)
    requires Keeps(mix, trace)
    ensures mix.word(s, x) == mix.word(s, y) <==> x == y
  {
    assert (trace(s) + [x])[|trace(s)|] == x && (trace(s) + [y])[|trace(s)|] == y;
  }

  lemma BoolHashTells(mix: Mix, trace: nat -> seq<nat>, a: bool, b: bool)
    requires Keeps(mix, trace)
    ensures BoolKeys(mix).e.hash(a) == BoolKeys(mix).e.hash(b) <==> BoolKeys(mix).e.eq(a, b)
  {
    WordTold(mix, trace, 0, if a then 1 else 0, if b then 1 else 0);
  }

  lemma IntHashTells(mix: Mix, trace: nat -> seq<nat>, a: int, b: int)
    requires Keeps(mix, trace)
    requires -0x8000_0000_0000_0000 <= a < 0x8000_0000_0000_0000
    requires -0x8000_0000_0000_0000 <= b < 0x8000_0000_0000_0000
    ensures IntKeys(mix).e.hash(a) == IntKeys(mix).e.hash(b) <==> IntKeys(mix).e.eq(a, b)
  {
    WordTold(mix, trace, 0, AsUnsigned(a), AsUnsigned(b));
    WordsTell(a, b);
    hide AsUnsigned;
  }

  lemma FloatHashTells(mix: Mix, trace: nat -> seq<nat>, a: Bits64, b: Bits64)
    requires Keeps(mix, trace) && FloatKeys(mix).e.eq(a, a) && FloatKeys(mix).e.eq(b, b)
    ensures FloatKeys(mix).e.hash(a) == FloatKeys(mix).e.hash(b) <==> FloatKeys(mix).e.eq(a, b)
  {
    WordTold(mix, trace, 0, HashedBits(true, a), HashedBits(true, b));
    SameHashedBits(a, b);
    hide HashedBits, Rank, IsNan;
  }

  lemma SameHashedBits(a: Bits64, b: Bits64)
    requires !IsNan(true, a) && !IsNan(true, b)
    ensures HashedBits(true, a) == HashedBits(true, b) <==> Rank(true, a) == Rank(true, b)
  {
    if Rank(true, a) == Rank(true, b) { SameRank(a, b); }
  }

  lemma TextHashTells(mix: Mix, trace: nat -> seq<nat>, texts: nat -> seq<Byte>, a: nat, b: nat)
    requires Keeps(mix, trace) && a != 0 && b != 0
    ensures TextHandles(mix, texts).e.hash(a) == TextHandles(mix, texts).e.hash(b)
      <==> TextHandles(mix, texts).e.eq(a, b)
  {
    hide HashBytes, Numbers;
    var s, t := texts(a), texts(b);
    BytesTraced(mix, trace, s, mix.word(0, |s|));
    BytesTraced(mix, trace, t, mix.word(0, |t|));
    if HashBytes(mix, s, mix.word(0, |s|)) == HashBytes(mix, t, mix.word(0, |t|)) {
      LengthAndBytes(trace(0), s, t);
    }
  }

  lemma LengthAndBytes(p: seq<nat>, s: seq<Byte>, t: seq<Byte>)
    requires p + [|s|] + Numbers(s) == p + [|t|] + Numbers(t)
    ensures s == t
  {
    hide Numbers;
    assert (p + [|s|] + Numbers(s))[|p|] == |s| && (p + [|t|] + Numbers(t))[|p|] == |t|;
    assert (p + [|s|] + Numbers(s))[|p| + 1..] == Numbers(s) && (p + [|t|] + Numbers(t))[|p| + 1..] == Numbers(t);
    NumbersTell(s, t, [], []);
  }

  // ---- structural keys ----------------------------------------------------

  // Values of one shape that the store holds; they are never hashed.
  ghost predicate ValuesEqual(m: Store, s: Shape, a: Value, b: Value) {
    && HasShape(s, a) && HasShape(s, b) && Stored(m, s, a) && Stored(m, s, b)
    && Equal(s, a, b)
  }

  ghost function StructuralKeys(m: Store, s: Shape): Kind<Value> {
    Kind(Equality((a: Value, b: Value) => ValuesEqual(m, s, a, b), (a: Value) => false, (a: Value) => 0), false)
  }

  lemma StructuralKeysLawful(m: Store, s: Shape)
    ensures StructuralKeys(m, s).Lawful() && !StructuralKeys(m, s).kindHashable
  {
    forall a: Value, b: Value | ValuesEqual(m, s, a, b)
      ensures ValuesEqual(m, s, b, a)
    {
      EqualSymmetric(s, a, b);
    }
    forall a: Value, b: Value, c: Value | ValuesEqual(m, s, a, b) && ValuesEqual(m, s, b, c)
      ensures ValuesEqual(m, s, a, c)
    {
      EqualTransitive(m, s, a, b, c);
    }
    hide ValuesEqual;
  }

  // Stored values without NaN are one key when neither comes before the other.
  lemma StructuralKeysMean(m: Store, s: Shape, a: Value, b: Value)
    requires HasShape(s, a) && HasShape(s, b) && Stored(m, s, a) && Stored(m, s, b) && NanFree(s, a)
    ensures StructuralKeys(m, s).e.eq(a, b) <==> Level(s, a, b)
  {
    EqualIffLevel(m, Mix((x: nat, y: nat) => 0, (x: nat, y: Byte) => 0), s, a, b);
    CompareMeans(m, s, a, b);
    hide Below, Compare, Equal, HasShape;
  }
}
