// Binary64 values and rounding to the nearest of them, ties to even (section
// 4.3.1 of IEEE 754-2019).
module Float64 {
  import opened Powers

  // 2 to the x, for any integer x.
  ghost function Exp2(x: int): (p: real)
    ensures p > 0.0
    decreases if x < 0 then -x else x
  {
    if x == 0 then 1.0 else if x > 0 then 2.0 * Exp2(x - 1) else Exp2(x + 1) / 2.0
  }

  lemma Exp2Step(x: int)
    ensures Exp2(x + 1) == 2.0 * Exp2(x)
  {}

  // A product by name, so that proofs need not multiply.
  ghost function Times(a: real, b: real): real {
    a * b
  }

  lemma TimesLaws(a: real, b: real)
    ensures Times(a, 1.0) == a && Times(a, 2.0 * b) == 2.0 * Times(a, b) == Times(2.0 * a, b)
  {}

  lemma {:induction false} Exp2Times(a: int, b: int)
    ensures Exp2(a + b) == Times(Exp2(a), Exp2(b))
    decreases if b < 0 then -b else b
  {
    assert Exp2(0) == 1.0;
    hide Exp2, Times;
    TimesLaws(Exp2(a), Exp2(b));
    if b > 0 {
      Exp2Times(a, b - 1);
      Exp2Step(a + b - 1);
      Exp2Step(b - 1);
      TimesLaws(Exp2(a), Exp2(b - 1));
    } else if b < 0 {
      Exp2Times(a, b + 1);
      Exp2Step(a + b);
      Exp2Step(b);
    }
  }

  lemma {:induction false} Exp2IsPow2(n: nat)
    ensures Exp2(n) == Pow2(n) as real
  {
    if n != 0 { Exp2IsPow2(n - 1); }
  }

  lemma {:induction false} Exp2Grows(a: int, b: int)
    requires a <= b
    ensures Exp2(a) <= Exp2(b)
    decreases b - a
  {
    if a < b {
      Exp2Grows(a, b - 1);
      Exp2Step(b - 1);
    }
  }

  lemma TimesGrows(a: real, b: real, c: real)
    requires a <= b && c > 0.0
    ensures Times(a, c) <= Times(b, c) && (a < b ==> Times(a, c) < Times(b, c))
  {}

  // ---- bit patterns -------------------------------------------------------

  const FRACTION: nat := 0x10_0000_0000_0000
  const INFINITY: nat := 0x7ff0_0000_0000_0000
  const SIGN_BIT: nat := 0x8000_0000_0000_0000

  // The magnitude a pattern without sign stands for. Infinity counts as two to
  // the 1024, the value after the largest finite one.
  ghost function Value(bits: nat): real
    requires bits <= INFINITY
  {
    var e, f := bits / FRACTION, bits % FRACTION;
    if e == 0 then Times(f as real, Exp2(-1074)) else Times((FRACTION + f) as real, Exp2(e - 1075))
  }

  function Distance(a: real, b: real): real {
    if a <= b then b - a else a - b
  }

  // r is a pattern nearest v, and its last bit is 0 when another is as near.
  // A value nearer two to the 1024 than the largest finite one is infinite.
  ghost predicate Nearest(r: nat, v: real) {
    r <= INFINITY && forall x: nat | x <= INFINITY && x != r ::
      Distance(v, Value(r)) < Distance(v, Value(x)) || (Distance(v, Value(r)) == Distance(v, Value(x)) && r % 2 == 0)
  }

  lemma ValueOf(e: nat, f: nat)
    requires f < FRACTION && e * FRACTION + f <= INFINITY
    ensures Value(e * FRACTION + f) ==
      if e == 0 then Times(f as real, Exp2(-1074)) else Times((FRACTION + f) as real, Exp2(e - 1075))
  {
    SplitAtFraction(e, f);
    hide Exp2;
  }

  lemma SplitAtFraction(e: nat, f: nat)
    requires f < FRACTION
    ensures (e * FRACTION + f) / FRACTION == e && (e * FRACTION + f) % FRACTION == f
  {}

  // Patterns within one binade, or among the subnormals, are evenly spaced;
  // the end of each is the start of the next.
  lemma Spaced(l: int, s: nat)
    requires -1022 <= l <= 1023 && s <= 2 * FRACTION && (l > -1022 ==> s >= FRACTION)
    ensures (l + 1022) * FRACTION + s <= INFINITY
    ensures Value((l + 1022) * FRACTION + s) == Times(s as real, Exp2(l - 52))
  {
    hide Exp2, Value;
    if s < FRACTION {
      ValueOf(0, s);
    } else if s < 2 * FRACTION {
      ValueOf(l + 1023, s - FRACTION);
      assert (l + 1022) * FRACTION + s == (l + 1023) * FRACTION + (s - FRACTION);
    } else {
      ValueOf(l + 1024, 0);
      Exp2Step(l - 52);
      assert (l + 1022) * FRACTION + s == (l + 1024) * FRACTION + 0;
    }
  }

  lemma NextIsLarger(bits: nat)
    requires bits < INFINITY
    ensures Value(bits) < Value(bits + 1)
  {
    hide Exp2, Value;
    var e, f := bits / FRACTION, bits % FRACTION;
    var l, s := if e == 0 then -1022 else e - 1023, if e == 0 then f else FRACTION + f;
    assert bits == (l + 1022) * FRACTION + s;
    Spaced(l, s);
    Spaced(l, s + 1);
    TimesGrows(s as real, (s + 1) as real, Exp2(l - 52));
  }

  lemma {:induction false} LargerIsLarger(a: nat, b: nat)
    requires a < b <= INFINITY
    ensures Value(a) < Value(b)
    decreases b - a
  {
    NextIsLarger(b - 1);
    if a < b - 1 { LargerIsLarger(a, b - 1); }
  }

  // It is enough to be on the right side of the midpoints to both neighbours.
  lemma NearestByNeighbours(r: nat, v: real)
    requires r <= INFINITY
    requires r > 0 ==> 2.0 * v >= Value(r - 1) + Value(r) && (2.0 * v == Value(r - 1) + Value(r) ==> r % 2 == 0)
    requires r < INFINITY ==> 2.0 * v <= Value(r) + Value(r + 1) && (2.0 * v == Value(r) + Value(r + 1) ==> r % 2 == 0)
    ensures Nearest(r, v)
  {
    forall x: nat | x <= INFINITY && x != r
      ensures Distance(v, Value(r)) < Distance(v, Value(x))
        || (Distance(v, Value(r)) == Distance(v, Value(x)) && r % 2 == 0)
    {
      if x < r {
        LargerIsLarger(x, r);
        if x < r - 1 { LargerIsLarger(x, r - 1); }
      } else {
        LargerIsLarger(r, x);
        if x > r + 1 { LargerIsLarger(r + 1, x); }
      }
    }
  }

  // No value has two nearest patterns.
  lemma NearestUnique(a: nat, b: nat, v: real)
    requires Nearest(a, v) && Nearest(b, v)
    ensures a == b
  {
    if a != b { NearestApart(if a < b then a else b, if a < b then b else a, v); }
  }

  lemma NearestApart(a: nat, b: nat, v: real)
    requires a < b <= INFINITY
    ensures !(Nearest(a, v) && Nearest(b, v))
  {
    hide *;
    if Nearest(a, v) && Nearest(b, v) {
      NoFarther(a, b, v);
      NoFarther(b, a, v);
      assert a + 1 < b;
      NoFarther(a, a + 1, v);
      LargerIsLarger(a, a + 1);
      LargerIsLarger(a + 1, b);
      BetweenIsCloser(Value(a), Value(a + 1), Value(b), v);
    }
  }

  lemma NoFarther(r: nat, x: nat, v: real)
    requires Nearest(r, v) && x <= INFINITY && x != r
    ensures Distance(v, Value(r)) <= Distance(v, Value(x))
    ensures Distance(v, Value(r)) == Distance(v, Value(x)) ==> r % 2 == 0
  {
    hide Value, Distance;
  }

  lemma BetweenIsCloser(a: real, m: real, b: real, v: real)
    requires a < m < b && Distance(v, a) == Distance(v, b)
    ensures Distance(v, m) < Distance(v, a)
  {}

  // A value v within half a unit u of s units, with an even s when it is
  // exactly half way, is nearest the pattern of s in binade l.
  lemma NearestInBinade(l: int, s: nat, u: real, v: real, a: real)
    requires -1022 <= l <= 1023 && u == Exp2(l - 52) && s <= 2 * FRACTION && a == Times(s as real, u)
    requires 2.0 * a - u <= 2.0 * v <= 2.0 * a + u
    requires 2.0 * v == 2.0 * a - u || 2.0 * v == 2.0 * a + u ==> s % 2 == 0
    requires l > -1022 ==> s >= FRACTION && v >= Times(FRACTION as real, u)
    requires s == 2 * FRACTION ==> v <= a
    ensures (l + 1022) * FRACTION + s <= INFINITY && Nearest((l + 1022) * FRACTION + s, v)
  {
    hide *;
    var r := (l + 1022) * FRACTION + s;
    Spaced(l, s);
    Below(l, s, u, v, a);
    Above(l, s, u, v, a);
    SameParity(l, s);
    NearestByNeighbours(r, v);
  }

  lemma SameParity(l: int, s: nat)
    requires l >= -1022
    ensures (l + 1022) * FRACTION + s >= 0 && ((l + 1022) * FRACTION + s) % 2 == s % 2
  {}

  lemma Below(l: int, s: nat, u: real, v: real, a: real)
    requires -1022 <= l <= 1023 && u == Exp2(l - 52) && s <= 2 * FRACTION && a == Times(s as real, u)
    requires 2.0 * a - u <= 2.0 * v
    requires l > -1022 ==> s >= FRACTION && v >= Times(FRACTION as real, u)
    ensures var r := (l + 1022) * FRACTION + s;
      0 < r <= INFINITY ==>
        && 2.0 * v >= Value(r - 1) + Value(r)
        && (2.0 * v == Value(r - 1) + Value(r) ==> 2.0 * v == 2.0 * a - u)
  {
    hide Value, Exp2, Times;
    var r := (l + 1022) * FRACTION + s;
    Spaced(l, s);
    if r > 0 {
      NextIsLarger(r - 1);
      if l == -1022 || s > FRACTION {
        Spaced(l, s - 1);
        OneUnit(s, u);
      }
    }
  }

  lemma Above(l: int, s: nat, u: real, v: real, a: real)
    requires -1022 <= l <= 1023 && u == Exp2(l - 52) && s <= 2 * FRACTION && a == Times(s as real, u)
    requires 2.0 * v <= 2.0 * a + u
    requires l > -1022 ==> s >= FRACTION
    requires s == 2 * FRACTION ==> v <= a
    ensures var r := (l + 1022) * FRACTION + s;
      r < INFINITY ==>
        && 2.0 * v <= Value(r) + Value(r + 1)
        && (2.0 * v == Value(r) + Value(r + 1) ==> 2.0 * v == 2.0 * a + u)
  {
    hide Value, Exp2, Times;
    var r := (l + 1022) * FRACTION + s;
    Spaced(l, s);
    if r < INFINITY {
      NextIsLarger(r);
      if s < 2 * FRACTION {
        Spaced(l, s + 1);
        OneUnit(s + 1, u);
      }
    }
  }

  lemma OneUnit(s: nat, u: real)
    requires s > 0
    ensures Times((s - 1) as real, u) == Times(s as real, u) - u
  {
    assert (s - 1) as real == s as real - 1.0;
  }

  // Values from two to the 1024 on are infinite, and values below half the
  // smallest one are zero.
  lemma FarAbove(v: real)
    requires v >= Exp2(1024)
    ensures Nearest(INFINITY, v)
  {
    ValueOf(2047, 0);
    Exp2Times(52, 972);
    Exp2IsPow2(52);
    Pow2Of52();
    hide Value, Exp2, Times, Pow2;
    NextIsLarger(INFINITY - 1);
    NearestByNeighbours(INFINITY, v);
  }

  lemma FarBelow(v: real)
    requires 0.0 <= v < Exp2(-1075)
    ensures Nearest(0, v)
  {
    ValueOf(0, 1);
    ValueOf(0, 0);
    Exp2Step(-1075);
    assert Times(1.0, Exp2(-1074)) == Exp2(-1074) && Times(0.0, Exp2(-1074)) == 0.0;
    hide Value, Exp2, Times;
    NearestByNeighbours(0, v);
  }
}
