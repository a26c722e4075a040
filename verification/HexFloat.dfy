// Parsing hexadecimal floating-point text, correctly rounded.
module HexFloat {
  import opened Arithmetic
  import opened Bytes
  import opened Float64
  import opened HexText
  import opened Options
  import opened Powers

  // ---- rounding a binary number to `keep` bits ----------------------------

  // The shifts and masks of the source, on numbers that fit 64 bits.
  function ShiftLeft(a: nat, n: nat): nat {
    a * Pow2(n)
  }

  function ShiftRight(a: nat, n: nat): nat {
    QuotientIsNat(a, Pow2(n));
    a / Pow2(n)
  }

  function LowBits(a: nat, n: nat): nat {
    a % Pow2(n)
  }

  // s is big / 2^(width - keep), to the nearest integer, ties to even.
  ghost predicate RoundsTo(s: nat, big: nat, width: nat, keep: nat) {
    if width <= keep then s == ShiftLeft(big, keep - width)
    else
      var k, a := Pow2(width - keep), ShiftLeft(s, width - keep);
      && 2 * a - k <= 2 * big <= 2 * a + k
      && (2 * big == 2 * a - k || 2 * big == 2 * a + k ==> s % 2 == 0)
  }

  // What the first 64 bits of a number of `width` bits keep of it.
  ghost predicate Window(prefix: nat, count: nat, tail: bool, big: nat, width: nat) {
    && count == (if width < 64 then width else 64)
    && prefix == big / Pow2(width - count)
    && (tail <==> big % Pow2(width - count) != 0)
    && big < Pow2(width)
  }

  // One more bit at the end of the number.
  lemma WindowStep(big: nat, width: nat, bit: nat)
    requires bit < 2 && big < Pow2(width)
    ensures 2 * big + bit < Pow2(width + 1)
    ensures width < 64 ==> 2 * big + bit == (2 * big + bit) / Pow2(0) && (2 * big + bit) % Pow2(0) == 0
    ensures width >= 64 ==>
      && (2 * big + bit) / Pow2(width + 1 - 64) == big / Pow2(width - 64)
      && ((2 * big + bit) % Pow2(width + 1 - 64) != 0 <==> big % Pow2(width - 64) != 0 || bit != 0)
  {
    assert Pow2(0) == 1;
    if width >= 64 { HalveBoth(big, bit, Pow2(width - 64)); }
  }

  lemma WindowNext(prefix: nat, count: nat, tail: bool, big: nat, width: nat, bit: nat)
    requires Window(prefix, count, tail, big, width) && bit < 2
    ensures if count < 64 then Window(prefix * 2 + bit, count + 1, tail, 2 * big + bit, width + 1)
      else Window(prefix, count, tail || bit != 0, 2 * big + bit, width + 1)
  {
    WindowStep(big, width, bit);
    assert width < 64 ==> big / Pow2(0) == big;
  }

  lemma HalveBoth(big: nat, bit: nat, r: nat)
    requires r > 0 && bit < 2
    ensures (2 * big + bit) / (2 * r) == big / r && (2 * big + bit) % (2 * r) == 2 * (big % r) + bit
  {
    var q, rem := big / r, big % r;
    assert 2 * big + bit == (2 * r) * q + (2 * rem + bit);
    DivIs(2 * big + bit, 2 * r, q, 2 * rem + bit);
  }

  // ---- appending digits ---------------------------------------------------

  // Bit i of a hexadecimal digit.
  function BitOf(digit: nat, i: nat): (b: nat)
    ensures b < 2
  {
    digit / Pow2(i) % 2
  }

  // The number with the low w bits of a digit written behind it.
  function WithBits(big: nat, digit: nat, w: nat): nat
    decreases w
  {
    if w == 0 then big else WithBits(2 * big + BitOf(digit, w - 1), digit, w - 1)
  }

  lemma FourBits(big: nat, digit: nat)
    requires digit < 16
    ensures WithBits(big, digit, 4) == 16 * big + digit
  {
    assert Pow2(0) == 1 && Pow2(1) == 2 && Pow2(2) == 4 && Pow2(3) == 8;
    var b3, b2, b1, b0 := BitOf(digit, 3), BitOf(digit, 2), BitOf(digit, 1), BitOf(digit, 0);
    assert digit == 8 * b3 + 4 * b2 + 2 * b1 + b0;
    assert WithBits(big, digit, 4) == 2 * (2 * (2 * (2 * big + b3) + b2) + b1) + b0;
  }

  function HexWidth(digit: nat): (w: nat)
    ensures 1 <= w <= 4
  {
    if digit >= 8 then 4 else if digit >= 4 then 3 else if digit >= 2 then 2 else 1
  }

  lemma SmallPowers()
    ensures Pow2(0) == 1 && Pow2(1) == 2 && Pow2(2) == 4 && Pow2(3) == 8 && Pow2(4) == 16
  {}

  lemma LeadingBits(digit: nat)
    requires 0 < digit < 16
    ensures WithBits(0, digit, HexWidth(digit)) == digit
    ensures Pow2(HexWidth(digit) - 1) <= digit < Pow2(HexWidth(digit))
  {
    SmallPowers();
    FourBits(0, digit);
    LeadingZeros(digit);
    hide WithBits, Pow2;
  }

  // Leading zero bits add nothing.
  lemma LeadingZeros(digit: nat)
    requires 0 < digit < 16
    ensures digit < 8 ==> WithBits(0, digit, 4) == WithBits(0, digit, 3)
    ensures digit < 4 ==> WithBits(0, digit, 3) == WithBits(0, digit, 2)
    ensures digit < 2 ==> WithBits(0, digit, 2) == WithBits(0, digit, 1)
  {
    TopBits(digit);
    hide BitOf, Pow2;
  }

  lemma TopBits(digit: nat)
    requires digit < 16
    ensures digit < 8 ==> BitOf(digit, 3) == 0
    ensures digit < 4 ==> BitOf(digit, 2) == 0
    ensures digit < 2 ==> BitOf(digit, 1) == 0
  {
    SmallPowers();
  }

  method AppendBits(digit: nat, width: nat, prefix: nat, count: nat, tail: bool, ghost big: nat, ghost total: nat)
    returns (prefix': nat, count': nat, tail': bool)
    requires digit < 16 && width <= 4 && Window(prefix, count, tail, big, total)
    ensures Window(prefix', count', tail', WithBits(big, digit, width), total + width)
  {
    prefix', count', tail' := prefix, count, tail;
    var w: nat := width;
    ghost var now: nat := big;
    hide Pow2, Window, BitOf;
    while w > 0
      invariant w <= width && Window(prefix', count', tail', now, total + width - w)
      invariant WithBits(now, digit, w) == WithBits(big, digit, width)
    {
      var bit := BitOf(digit, w - 1);
      WindowNext(prefix', count', tail', now, total + width - w, bit);
      if count' < 64 {
        prefix' := prefix' * 2 + bit;
        count' := count' + 1;
      } else if bit != 0 {
        tail' := true;
      }
      now := 2 * now + bit;
      w := w - 1;
    }
  }

  // ---- rounding -----------------------------------------------------------

  method RoundPrefix(prefix: nat, count: nat, tail: bool, keep: nat, ghost big: nat, ghost width: nat)
        returns (retained: nat)
    requires Window(prefix, count, tail, big, width) && keep <= 53
    ensures RoundsTo(retained, big, width, keep)
  {
    hide *;
    var guard, sticky := false, tail;
    if count <= keep {
      retained := ShiftLeft(prefix, keep - count);
      RoundsExactly(prefix, count, tail, keep, big, width);
    } else {
      var discarded := count - keep;
      retained := if keep == 0 then 0 else ShiftRight(prefix, discarded);
      guard := ShiftRight(prefix, discarded - 1) % 2 != 0;
      sticky := sticky || (discarded > 1 && LowBits(prefix, discarded - 1) != 0);
      RoundedPrefix(prefix, count, tail, keep, big, width);
    }
    if guard && (sticky || retained % 2 != 0) {
      retained := retained + 1;
    }
  }

  lemma OneUnit()
    ensures Pow2(0) == 1
  {}

  // Nothing is lost of a number no wider than what is kept.
  lemma RoundsExactly(prefix: nat, count: nat, tail: bool, keep: nat, big: nat, width: nat)
    requires Window(prefix, count, tail, big, width) && count <= keep <= 53
    ensures !tail && RoundsTo(ShiftLeft(prefix, keep - count), big, width, keep)
  {
    OneUnit();
  }

  lemma HalfSteps(prefix: nat, h: nat)
    requires h > 0
    ensures prefix / (2 * h) == (prefix / h) / 2
  {
    var q2, low := prefix / h, prefix % h;
    assert prefix == h * q2 + low;
    assert h * q2 == (2 * h) * (q2 / 2) + h * (q2 % 2);
    assert q2 % 2 == 1 ==> h * (q2 % 2) == h;
    DivIs(prefix, 2 * h, q2 / 2, h * (q2 % 2) + low);
  }

  lemma PrefixSplit(h: nat, r: nat, big: nat)
    requires h > 0 && r > 0
    ensures var prefix := big / r;
      var y := prefix % h * r + big % r;
      big == (prefix / h) * (h * r) + y && y < h * r && (y == 0 <==> prefix % h == 0 && big % r == 0)
  {
    var prefix, rest := big / r, big % r;
    QuotientIsNat(big, r);
    PrefixSum(prefix / h, h, prefix % h, r, prefix, rest, big);
    Ordered(prefix % h + 1, h, r);
    if prefix % h > 0 { Ordered(1, prefix % h, r); }
  }

  lemma PrefixSum(q: nat, h: nat, low: nat, r: nat, prefix: nat, rest: nat, big: nat)
    requires prefix == q * h + low && big == prefix * r + rest
    ensures big == q * (h * r) + low * r + rest
  {
    Regroup(q, h, low, r);
  }

  lemma Regroup(q: nat, h: nat, low: nat, r: nat)
    ensures (q * h + low) * r == q * (h * r) + low * r
  {}

  lemma Products(q: nat, p: nat)
    ensures (2 * q) * p == 2 * (q * p) && (2 * q + 1) * p == 2 * (q * p) + p
    ensures (q + 1) * p == q * p + p && q * (2 * p) == 2 * (q * p)
  {}

  // Rounding half-units q2 and a remainder y of p to whole units: a is q2 / 2
  // of them, in ps, and b what is chosen.
  lemma RoundHalves(q: nat, odd: bool, p: nat, y: nat, a: nat, s: nat, b: nat, big: nat)
    requires y < p && big == 2 * a + (if odd then p else 0) + y
    requires if odd && (y != 0 || q % 2 != 0) then s == q + 1 && b == a + p else s == q && b == a
    ensures 2 * b - p <= big <= 2 * b + p
    ensures big == 2 * b - p || big == 2 * b + p ==> s % 2 == 0
  {}

  lemma RoundUnits(q2: nat, p: nat, y: nat, s: nat, big: nat)
    requires y < p && big == q2 * p + y
    requires s == q2 / 2 + (if q2 % 2 != 0 && (y != 0 || q2 / 2 % 2 != 0) then 1 else 0)
    ensures 2 * (s * (2 * p)) - 2 * p <= 2 * big <= 2 * (s * (2 * p)) + 2 * p
    ensures 2 * big == 2 * (s * (2 * p)) - 2 * p || 2 * big == 2 * (s * (2 * p)) + 2 * p ==> s % 2 == 0
  {
    var q := q2 / 2;
    var odd := q2 % 2 != 0;
    assert q2 == if odd then 2 * q + 1 else 2 * q;
    Products(q, p);
    Products(s, p);
    RoundHalves(q, odd, p, y, q * p, s, s * p, big);
  }

  // The quotients, remainders and powers in play, taken apart.
  lemma PrefixParts(prefix: nat, count: nat, big: nat, width: nat, keep: nat)
    requires keep < count <= width && big < Pow2(width) && prefix == big / Pow2(width - count)
    ensures var h, r := Pow2(count - keep - 1), Pow2(width - count);
      && prefix / Pow2(count - keep) == (prefix / h) / 2
      && Pow2(width - keep) == 2 * (h * r)
      && big == (prefix / h) * (h * r) + (prefix % h * r + big % r)
      && prefix % h * r + big % r < h * r
      && (prefix % h * r + big % r == 0 <==> prefix % h == 0 && big % r == 0)
  {
    var h, r := Pow2(count - keep - 1), Pow2(width - count);
    Pow2Add(count - keep - 1, width - count);
    HalfSteps(prefix, h);
    PrefixSplit(h, r, big);
  }

  lemma RoundedParts(prefix: nat, count: nat, tail: bool, keep: nat, big: nat, width: nat, q: nat, q2: nat, low: nat,
        s: nat)
    requires Window(prefix, count, tail, big, width) && keep < count
    requires q == prefix / Pow2(count - keep) && q2 == prefix / Pow2(count - keep - 1)
      && low == prefix % Pow2(count - keep - 1)
    requires s == if q2 % 2 != 0 && (tail || low != 0 || q % 2 != 0) then q + 1 else q
    ensures RoundsTo(s, big, width, keep)
  {
    PrefixParts(prefix, count, big, width, keep);
    hide Pow2;
    var h, r := Pow2(count - keep - 1), Pow2(width - count);
    RoundUnits(q2, h * r, low * r + big % r, s, big);
  }

  lemma RoundedPrefix(prefix: nat, count: nat, tail: bool, keep: nat, big: nat, width: nat)
    requires Window(prefix, count, tail, big, width) && keep < count
    ensures var d := count - keep;
      var q := if keep == 0 then 0 else ShiftRight(prefix, d);
      var sticky := tail || (d > 1 && LowBits(prefix, d - 1) != 0);
      RoundsTo(if ShiftRight(prefix, d - 1) % 2 != 0 && (sticky || q % 2 != 0) then q + 1 else q, big, width, keep)
  {
    var d := count - keep;
    var q, q2, low := ShiftRight(prefix, d), ShiftRight(prefix, d - 1), LowBits(prefix, d - 1);
    var s := if q2 % 2 != 0 && (tail || low != 0 || q % 2 != 0) then q + 1 else q;
    RoundedParts(prefix, count, tail, keep, big, width, q, q2, low, s);
    NoQuotient(prefix, count, tail, big, width);
    ModOne(prefix);
    hide *;
  }

  lemma NoQuotient(prefix: nat, count: nat, tail: bool, big: nat, width: nat)
    requires Window(prefix, count, tail, big, width)
    ensures ShiftRight(prefix, count) == 0
  {
    PrefixFits(count, width, big);
  }

  lemma ModOne(a: nat)
    ensures LowBits(a, 0) == 0
  {
    OneUnit();
  }

  lemma PrefixFits(count: nat, width: nat, big: nat)
    requires count <= width && big < Pow2(width)
    ensures (big / Pow2(width - count)) / Pow2(count) == 0
  {
    Pow2Add(count, width - count);
    var prefix := big / Pow2(width - count);
    QuotientBelow(big, Pow2(width - count), Pow2(count));
    DivIs(prefix, Pow2(count), 0, prefix);
  }

  // ---- the rounded number is the nearest pattern --------------------------

  // n shifted by j bits, at unit 2^x, is n at unit 2^(x + j).
  lemma Rescale(n: nat, j: nat, x: int)
    ensures Times(ShiftLeft(n, j) as real, Exp2(x)) == Times(n as real, Exp2(x + j))
  {
    Exp2Times(x, j);
    Exp2IsPow2(j);
    TimesTwice(n as real, Pow2(j) as real, Exp2(x));
    assert ShiftLeft(n, j) as real == n as real * Pow2(j) as real;
  }

  lemma TimesTwice(a: real, b: real, c: real)
    ensures Times(a * b, c) == Times(a, Times(c, b))
  {}

  lemma OneTimes(c: real)
    ensures Times(1.0, c) == c && Times(0.0, c) == 0.0
  {}

  lemma Linear(p: nat, q: nat, c: real)
    ensures Times((2 * p - q) as real, c) == 2.0 * Times(p as real, c) - Times(q as real, c)
    ensures Times((2 * p + q) as real, c) == 2.0 * Times(p as real, c) + Times(q as real, c)
  {}

  lemma ShiftLaws(s: nat, t: nat, j: nat)
    ensures s <= t ==> ShiftLeft(s, j) <= ShiftLeft(t, j)
    ensures ShiftLeft(s + 1, j) == ShiftLeft(s, j) + Pow2(j)
  {
    if s <= t { Ordered(s, t, Pow2(j)); }
  }

  // A number of `width` bits rounds to a number of `keep` bits, or to the
  // power of two above.
  lemma RoundsInside(s: nat, big: nat, width: nat, keep: nat)
    requires width > 0 && Pow2(width - 1) <= big < Pow2(width) && RoundsTo(s, big, width, keep)
    ensures s <= Pow2(keep) && (keep > 0 ==> s >= Pow2(keep - 1))
  {
    if width <= keep {
      var j := keep - width;
      Pow2Add(width, j);
      Pow2Add(width - 1, j);
      ShiftLaws(Pow2(width - 1), big, j);
      ShiftLaws(big, Pow2(width), j);
    } else {
      var j := width - keep;
      Pow2Add(keep, j);
      ShiftLaws(Pow2(keep), 0, j);
      ShiftLaws(Pow2(keep) + 1, s, j);
      if keep > 0 {
        Pow2Add(keep - 1, j);
        ShiftLaws(s, 0, j);
        ShiftLaws(s + 1, Pow2(keep - 1), j);
      }
      hide ShiftLeft;
      assert ShiftLeft(Pow2(keep), j) == Pow2(width) by { KeepShift(keep, j); }
      if keep > 0 { KeepShift(keep - 1, j); }
    }
  }

  lemma KeepShift(keep: nat, j: nat)
    ensures ShiftLeft(Pow2(keep), j) == Pow2(keep + j)
  {
    Pow2Add(keep, j);
  }

  // The value of a number of `width` bits at unit 2^x, between powers of two.
  lemma ValueBetween(big: nat, width: nat, x: int)
    requires width > 0 && Pow2(width - 1) <= big < Pow2(width)
    ensures Exp2(x + width - 1) <= Times(big as real, Exp2(x)) < Exp2(x + width)
  {
    Rescale(1, width - 1, x);
    Rescale(1, width, x);
    TimesGrows(Pow2(width - 1) as real, big as real, Exp2(x));
    TimesGrows(big as real, Pow2(width) as real, Exp2(x));
    assert Times(1.0, Exp2(x + width - 1)) == Exp2(x + width - 1) && Times(1.0, Exp2(x + width)) == Exp2(x + width);
  }

  // How far s units of 2^(x + width - keep) are from the value.
  lemma RoundedDistance(s: nat, big: nat, width: nat, keep: nat, x: int)
    requires RoundsTo(s, big, width, keep)
    ensures var u, v := Exp2(x + width - keep), Times(big as real, Exp2(x));
      var a := Times(s as real, u);
      && 2.0 * a - u <= 2.0 * v <= 2.0 * a + u
      && (2.0 * v == 2.0 * a - u || 2.0 * v == 2.0 * a + u ==> s % 2 == 0)
  {
    if width <= keep {
      Rescale(big, keep - width, x + width - keep);
    } else {
      var k: int := Pow2(width - keep);
      var a: int := ShiftLeft(s, width - keep);
      var c := Exp2(x);
      Rescale(s, width - keep, x);
      Rescale(1, width - keep, x);
      OneTimes(Exp2(x + width - keep));
      assert ShiftLeft(1, width - keep) == k;
      hide ShiftLeft, Pow2, Exp2, Times;
      Linear(a, k, c);
      Linear(big, 0, c);
      TimesGrows((2 * a - k) as real, (2 * big) as real, c);
      TimesGrows((2 * big) as real, (2 * a + k) as real, c);
    }
  }

  // Rounding a number of `width` bits at unit 2^x, its top bit worth 2^top, to
  // the bits its binade keeps gives the nearest pattern.
  lemma RoundedIsNearest(big: nat, width: nat, x: int, s: nat, keep: nat)
    requires width > 0 && Pow2(width - 1) <= big < Pow2(width) && RoundsTo(s, big, width, keep)
    requires var top := x + width - 1;
      -1075 <= top <= 1023 && keep == (if top >= -1022 then 53 else top + 1075)
    ensures var top := x + width - 1;
      var base := if top >= -1022 then (top + 1022) * FRACTION else 0;
      s <= 2 * FRACTION && base + s <= INFINITY && Nearest(base + s, Times(big as real, Exp2(x)))
  {
    hide *;
    var top := x + width - 1;
    var l := if top >= -1022 then top else -1022;
    var u, v := Exp2(l - 52), Times(big as real, Exp2(x));
    RoundsInside(s, big, width, keep);
    KeepBounds(keep);
    ValueBetween(big, width, x);
    RoundedDistance(s, big, width, keep, x);
    assert x + width - keep == l - 52;
    TopUnits(l);
    Exp2Grows(top + 1, l + 1);
    NearestInBinade(l, s, u, v, Times(s as real, u));
  }

  lemma KeepBounds(keep: nat)
    requires keep <= 53
    ensures Pow2(keep) <= 2 * FRACTION && (keep < 53 ==> Pow2(keep) <= FRACTION)
    ensures Pow2(52) == FRACTION && Pow2(53) == 2 * FRACTION
  {
    Pow2Of52();
    Pow2Grows(keep, 53);
    if keep < 53 { Pow2Grows(keep, 52); }
  }

  lemma TopUnits(l: int)
    ensures Times(FRACTION as real, Exp2(l - 52)) == Exp2(l)
    ensures Times((2 * FRACTION) as real, Exp2(l - 52)) == Exp2(l + 1)
  {
    KeepBounds(53);
    Rescale(1, 52, l - 52);
    Rescale(1, 53, l - 52);
    OneTimes(Exp2(l));
    OneTimes(Exp2(l + 1));
  }

  // ---- the text -----------------------------------------------------------

  const POINT: Byte := 46
  const PLUS: Byte := 43
  const MINUS: Byte := 45
  const EXPONENT_CAP: int := 1_000_000_000_000
  const MAX_TEXT: nat := 0x7fff_ffff

  predicate IsMarker(b: Byte) {
    b == 112 || b == 80
  }

  predicate IsDecimal(b: Byte) {
    48 <= b <= 57
  }

  // The value of a hexadecimal digit, or -1.
  function HexDigit(b: Byte): (d: int)
    ensures -1 <= d < 16
  {
    if 48 <= b <= 57 then b as int - 48
    else if 97 <= b <= 102 then b as int - 97 + 10
    else if 65 <= b <= 70 then b as int - 65 + 10
    else -1
  }

  function DigitsOf(m: seq<Byte>): seq<nat> {
    if m == [] then []
    else
      var ds, d := DigitsOf(m[..|m| - 1]), HexDigit(m[|m| - 1]);
      if d >= 0 then ds + [d] else ds
  }

  function DigitsBefore(m: seq<Byte>): nat {
    if m == [] then 0
    else DigitsBefore(m[..|m| - 1]) + (if HexDigit(m[|m| - 1]) >= 0 && POINT !in m[..|m| - 1] then 1 else 0)
  }

  function HexNumber(ds: seq<nat>): nat {
    if ds == [] then 0 else 16 * HexNumber(ds[..|ds| - 1]) + ds[|ds| - 1]
  }

  predicate IsSpelling(b: Byte) {
    b == POINT || HexDigit(b) >= 0
  }

  predicate AtMostOnePoint(m: seq<Byte>) {
    forall i, j | 0 <= i < j < |m| :: m[i] == POINT ==> m[j] != POINT
  }

  // Digits with at most one point among them.
  predicate Spelled(m: seq<Byte>) {
    (forall i | 0 <= i < |m| :: IsSpelling(m[i])) && AtMostOnePoint(m)
  }

  predicate AllDecimal(t: seq<Byte>) {
    forall i | 0 <= i < |t| :: IsDecimal(t[i])
  }

  function Decimal(t: seq<Byte>): nat
    requires AllDecimal(t)
  {
    if t == [] then 0 else assert IsDecimal(t[|t| - 1]); 10 * Decimal(t[..|t| - 1]) + (t[|t| - 1] as int - 48)
  }

  function Unsigned(t: seq<Byte>): seq<Byte> {
    if t != [] && (t[0] == PLUS || t[0] == MINUS) then t[1..] else t
  }

  predicate IsExponent(t: seq<Byte>) {
    Unsigned(t) != [] && AllDecimal(Unsigned(t))
  }

  function ExponentOf(t: seq<Byte>): int
    requires IsExponent(t)
  {
    if t[0] == MINUS then -(Decimal(Unsigned(t)) as int) else Decimal(Unsigned(t))
  }

  // The place of the exponent marker, or the end.
  function MarkerAt(t: seq<Byte>): (i: nat)
    ensures i <= |t| && (i < |t| ==> IsMarker(t[i]))
    ensures forall j | 0 <= j < i :: !IsMarker(t[j])
  {
    if t == [] || IsMarker(t[0]) then 0 else 1 + MarkerAt(t[1..])
  }

  // Hexadecimal floating-point text, after the leading 0x.
  predicate WellFormed(t: seq<Byte>) {
    var i := MarkerAt(t);
    i < |t| && Spelled(t[..i]) && DigitsOf(t[..i]) != [] && IsExponent(t[i + 1..])
  }

  // The number a text stands for: its digits as an integer, scaled by the
  // exponent and by the digits behind the point.
  ghost function Magnitude(t: seq<Byte>): real
    requires WellFormed(t)
  {
    var m, e := t[..MarkerAt(t)], t[MarkerAt(t) + 1..];
    var ds := DigitsOf(m);
    Times(HexNumber(ds) as real, Exp2(ExponentOf(e) - 4 * (|ds| - DigitsBefore(m))))
  }

  // ---- the text as it is written ------------------------------------------

  // The digit the parser reads is the one the byte is written for.
  lemma HexDigitMeans(b: Byte)
    ensures HexDigit(b) == Worth(b)
    ensures forall i | 0 <= i < 16 :: HexDigit(b) == i <==> Is(b, "0123456789abcdef"[i]) || Is(b, "0123456789ABCDEF"[i])
  {
    hide *;
    DigitStands(b);
    WorthOrNot(b);
    forall i | 0 <= i < 16
      ensures HexDigit(b) == i <==> Is(b, "0123456789abcdef"[i]) || Is(b, "0123456789ABCDEF"[i])
    {
      StandsMeans(b, i);
    }
  }

  lemma StandsMeans(b: Byte, i: int)
    requires 0 <= i < 16
    ensures StandsFor(b, i) <==> Is(b, "0123456789abcdef"[i]) || Is(b, "0123456789ABCDEF"[i])
  {
    hide Is;
  }

  lemma DigitStands(b: Byte)
    ensures HexDigit(b) >= 0 ==> StandsFor(b, HexDigit(b))
    ensures forall i | StandsFor(b, i) :: i == HexDigit(b)
  {}

  lemma WorthOrNot(b: Byte)
    ensures if Worth(b) < 0 then forall i :: !StandsFor(b, i) else StandsFor(b, Worth(b))
  {}

  // The other bytes with a part in the text.
  lemma SignsMean(b: Byte)
    ensures IsMarker(b) <==> Is(b, 'p') || Is(b, 'P')
    ensures (b == POINT <==> Is(b, '.')) && (b == PLUS <==> Is(b, '+')) && (b == MINUS <==> Is(b, '-'))
    ensures IsDecimal(b) <==> 0 <= Worth(b) < 10
    ensures Worth(b) >= 0 ==> b != POINT && b != PLUS && b != MINUS && !IsMarker(b)
    ensures 0 <= Worth(b) < 10 ==> Worth(b) == b as int - 48
  {
    HexDigitMeans(b);
    hide Worth;
  }

  // The digits of m are those of s.
  ghost predicate Tallies(m: seq<Byte>, s: seq<Byte>) {
    HexNumber(DigitsOf(m)) == Number(s, 16) && |DigitsOf(m)| == |s|
  }

  lemma TallyOne(m: seq<Byte>, s: seq<Byte>, b: Byte)
    requires Tallies(m, s)
    ensures Worth(b) >= 0 ==> Tallies(m + [b], s + [b])
    ensures Worth(b) >= 0 ==> DigitsBefore(m + [b]) == DigitsBefore(m) + (if POINT in m then 0 else 1)
    ensures Worth(b) < 0 ==> Tallies(m + [b], s) && DigitsBefore(m + [b]) == DigitsBefore(m)
  {
    hide HexDigit, Worth;
    HexDigitMeans(b);
    DigitsOfNext(m, b);
    assert (s + [b])[..|s|] == s;
  }

  lemma {:induction false} TallyRun(m: seq<Byte>, s: seq<Byte>, f: seq<Byte>)
    requires Tallies(m, s) && DigitsBelow(f, 16)
    ensures Tallies(m + f, s + f) && DigitsBefore(m + f) == DigitsBefore(m) + (if POINT in m then 0 else |f|)
  {
    hide Tallies, Worth, DigitsBefore;
    if f == [] {
      assert m + f == m && s + f == s;
    } else {
      var g, b := f[..|f| - 1], f[|f| - 1];
      TallyRun(m, s, g);
      TallyOne(m + g, s + g, b);
      NoPoint(g);
      assert m + f == m + g + [b] && s + f == s + g + [b];
    }
  }

  lemma NoPoint(g: seq<Byte>)
    requires DigitsBelow(g, 16)
    ensures POINT !in g && (forall i | 0 <= i < |g| :: IsSpelling(g[i]) && !IsMarker(g[i]))
  {
    forall i | 0 <= i < |g| ensures g[i] != POINT && IsSpelling(g[i]) && !IsMarker(g[i]) {
      HexDigitMeans(g[i]);
      SignsMean(g[i]);
    }
  }

  // The digits of a number in pieces, with the point among them.
  lemma MantissaMeans(p: Pieces)
    requires Legal(p)
    ensures var m := p.whole + p.point + p.fraction;
      && Spelled(m) && Tallies(m, p.whole + p.fraction) && DigitsBefore(m) == |p.whole|
      && forall i | 0 <= i < |m| :: !IsMarker(m[i])
  {
    hide Worth, HexDigit, DigitsBefore, Tallies, HexNumber, DigitsOf, Number;
    TallyNone();
    TallyRun([], [], p.whole);
    assert [] + p.whole == p.whole;
    NoPoint(p.whole);
    NoPoint(p.fraction);
    if p.point != [] {
      SignsMean(p.point[0]);
      assert p.point == [POINT];
      SignsMean(POINT);
      TallyOne(p.whole, p.whole, POINT);
    } else {
      assert p.whole + p.point == p.whole;
    }
    TallyRun(p.whole + p.point, p.whole, p.fraction);
  }

  lemma TallyNone()
    ensures Tallies([], []) && DigitsBefore([]) == 0
  {}

  lemma {:induction false} DecimalMeans(t: seq<Byte>)
    requires DigitsBelow(t, 10)
    ensures AllDecimal(t) && Decimal(t) == Number(t, 10)
  {
    forall i | 0 <= i < |t| ensures IsDecimal(t[i]) { SignsMean(t[i]); }
    hide Worth;
    if t != [] {
      SignsMean(t[|t| - 1]);
      DecimalMeans(t[..|t| - 1]);
    }
  }

  lemma ExponentMeans(p: Pieces)
    requires Legal(p)
    ensures IsExponent(p.sign + p.power) && ExponentOf(p.sign + p.power) == Power(p)
  {
    DecimalMeans(p.power);
    SignsMean(p.power[0]);
    if p.sign != [] { SignsMean(p.sign[0]); }
    hide Worth, Decimal, Number;
    assert Unsigned(p.sign + p.power) == p.power;
  }

  // A text in pieces is well formed and has their meaning.
  lemma PiecesMean(p: Pieces)
    requires Legal(p)
    ensures WellFormed(Joined(p)) && Magnitude(Joined(p)) == Meaning(p)
  {
    hide *;
    var t, m, e := Joined(p), p.whole + p.point + p.fraction, p.sign + p.power;
    MantissaMeans(p);
    ExponentMeans(p);
    SignsMean(p.marker);
    JoinedParts(p);
    assert t[|m|] == p.marker;
    MarkerIs(t, |m|);
    PartsMean(t, m, e, p);
  }

  lemma JoinedParts(p: Pieces)
    ensures Joined(p) == p.whole + p.point + p.fraction + [p.marker] + (p.sign + p.power)
    ensures Legal(p) ==> p.whole + p.fraction != [] && (Is(p.marker, 'p') || Is(p.marker, 'P'))
  {}

  lemma PartsMean(t: seq<Byte>, m: seq<Byte>, e: seq<Byte>, p: Pieces)
    requires Legal(p) && |m| < |t| && MarkerAt(t) == |m| && t[..|m|] == m && t[|m| + 1..] == e
    requires Spelled(m) && Tallies(m, p.whole + p.fraction) && DigitsBefore(m) == |p.whole|
    requires IsExponent(e) && ExponentOf(e) == Power(p)
    ensures WellFormed(t) && Magnitude(t) == Meaning(p)
  {
    hide *;
    JoinedParts(p);
    TallyMeans(m, p.whole + p.fraction);
    BothLengths(p.whole, p.fraction);
    var n, f, x := Number(p.whole + p.fraction, 16), |p.fraction|, Power(p);
    MagnitudeIs(t, m, e, n, f, x);
    MeaningIs(p, n, f, x);
  }

  lemma BothLengths(a: seq<Byte>, b: seq<Byte>)
    ensures |a + b| == |a| + |b|
  {}

  lemma TallyMeans(m: seq<Byte>, s: seq<Byte>)
    requires Tallies(m, s)
    ensures HexNumber(DigitsOf(m)) == Number(s, 16) && |DigitsOf(m)| == |s|
  {}

  lemma MagnitudeIs(t: seq<Byte>, m: seq<Byte>, e: seq<Byte>, n: int, f: int, x: int)
    requires |m| < |t| && MarkerAt(t) == |m| && t[..|m|] == m && t[|m| + 1..] == e
    requires Spelled(m) && |DigitsOf(m)| > 0 && IsExponent(e)
    requires HexNumber(DigitsOf(m)) == n && |DigitsOf(m)| - DigitsBefore(m) == f && ExponentOf(e) == x
    ensures WellFormed(t) && Magnitude(t) == Times(n as real, Exp2(x - 4 * f))
  {
    hide Spelled, DigitsOf, IsExponent, HexNumber, Times, Exp2, MarkerAt, DigitsBefore, ExponentOf;
  }

  lemma MeaningIs(p: Pieces, n: int, f: int, x: int)
    requires Legal(p) && Number(p.whole + p.fraction, 16) == n && |p.fraction| == f && Power(p) == x
    ensures Meaning(p) == Times(n as real, Exp2(x - 4 * f))
  {
    hide Legal, Number, Power, Times, Exp2;
  }

  lemma MarkerIs(t: seq<Byte>, i: nat)
    requires i < |t| && IsMarker(t[i]) && forall j | 0 <= j < i :: !IsMarker(t[j])
    ensures MarkerAt(t) == i
  {
    hide MarkerAt;
  }

  // Every well-formed text can be taken apart.
  lemma TakeApart(t: seq<Byte>) returns (p: Pieces)
    requires WellFormed(t)
    ensures Legal(p) && Joined(p) == t
  {
    var i := MarkerAt(t);
    assert i < |t| && IsMarker(t[i]) && Spelled(t[..i]) && DigitsOf(t[..i]) != [] && IsExponent(t[i + 1..]);
    hide *;
    var whole, point, fraction := MantissaApart(t[..i]);
    var sign, power := ExponentApart(t[i + 1..]);
    SignsMean(t[i]);
    p := Pieces(whole, point, fraction, t[i], sign, power);
    JoinedParts(p);
    Cut(t, i);
    LegalParts(p);
  }

  lemma Cut(t: seq<Byte>, i: nat)
    requires i < |t|
    ensures t == t[..i] + [t[i]] + t[i + 1..]
  {}

  lemma LegalParts(p: Pieces)
    requires DigitsBelow(p.whole, 16) && DigitsBelow(p.fraction, 16) && p.whole + p.fraction != []
    requires p.point == p.fraction == [] || (|p.point| == 1 && Is(p.point[0], '.'))
    requires Is(p.marker, 'p') || Is(p.marker, 'P')
    requires p.sign == [] || (|p.sign| == 1 && (Is(p.sign[0], '+') || Is(p.sign[0], '-')))
    requires DigitsBelow(p.power, 10) && p.power != []
    ensures Legal(p)
  {
    hide DigitsBelow, Is;
  }

  lemma MantissaApart(m: seq<Byte>) returns (whole: seq<Byte>, point: seq<Byte>, fraction: seq<Byte>)
    requires Spelled(m) && DigitsOf(m) != []
    ensures m == whole + point + fraction && DigitsBelow(whole, 16) && DigitsBelow(fraction, 16)
    ensures whole + fraction != []
    ensures point == fraction == [] || (|point| == 1 && Is(point[0], '.'))
  {
    hide Worth, HexDigit, DigitsOf, DigitsBelow;
    PointAlone(m);
    if POINT in m {
      var j :| 0 <= j < |m| && m[j] == POINT;
      whole, point, fraction := m[..j], [POINT], m[j + 1..];
      SignsMean(POINT);
      Cut(m, j);
      DigitsIn(m, 0, j);
      DigitsIn(m, j + 1, |m|);
      assert m[0..j] == m[..j] && m[j + 1..|m|] == m[j + 1..];
    } else {
      whole, point, fraction := m, [], [];
      DigitsIn(m, 0, |m|);
      NoneDigits();
      assert m[0..|m|] == m && m + [] == m;
    }
  }

  lemma NoneDigits()
    ensures DigitsBelow([], 16)
  {}

  lemma DigitsIn(m: seq<Byte>, a: nat, b: nat)
    requires a <= b <= |m| && forall i | a <= i < b :: IsSpelling(m[i]) && m[i] != POINT
    ensures DigitsBelow(m[a..b], 16)
  {
    hide Worth, HexDigit;
    forall i | 0 <= i < b - a ensures 0 <= Worth(m[a..b][i]) < 16 { HexDigitMeans(m[a + i]); }
  }

  lemma PointAlone(m: seq<Byte>)
    requires DigitsOf(m) != []
    ensures m != [] && (|m| == 1 ==> m[0] != POINT)
  {}

  lemma ExponentApart(t: seq<Byte>) returns (sign: seq<Byte>, power: seq<Byte>)
    requires IsExponent(t)
    ensures t == sign + power && DigitsBelow(power, 10) && power != []
    ensures sign == [] || (|sign| == 1 && (Is(sign[0], '+') || Is(sign[0], '-')))
  {
    power := Unsigned(t);
    sign := t[..|t| - |power|];
    SignsMean(t[0]);
    forall i | 0 <= i < |power| ensures 0 <= Worth(power[i]) < 10 { SignsMean(power[i]); }
  }

  // A text is accepted exactly when it can be written down in pieces, and means
  // what they mean.
  lemma TextMeans(t: seq<Byte>)
    ensures WellFormed(t) <==> exists p :: Legal(p) && Joined(p) == t
    ensures forall p | Legal(p) && Joined(p) == t :: WellFormed(t) && Magnitude(t) == Meaning(p)
  {
    hide *;
    if WellFormed(t) { var p := TakeApart(t); }
    forall p | Legal(p) && Joined(p) == t ensures WellFormed(t) && Magnitude(t) == Meaning(p) { PiecesMean(p); }
  }

  // ---- reading ------------------------------------------------------------

  method ParseExponent(t: seq<Byte>) returns (exponent: Option<int>)
    ensures exponent.Some? <==> IsExponent(t)
    ensures exponent.Some? ==> exponent.value == Capped(ExponentOf(t))
  {
    var index, negative := 0, false;
    if |t| > 0 && (t[0] == PLUS || t[0] == MINUS) {
      negative := t[0] == MINUS;
      index := 1;
    }
    ghost var digits, first := Unsigned(t), index;
    assert digits == t[first..];
    if index == |t| || !IsDecimal(t[index]) {
      assert index < |t| ==> digits[0] == t[index];
      return None;
    }
    var magnitude := 0;
    while index < |t|
      invariant first <= index <= |t|
      invariant AllDecimal(digits[..index - first])
      invariant var d := Decimal(digits[..index - first]); magnitude == if d < EXPONENT_CAP then d else EXPONENT_CAP
    {
      ghost var k := index - first;
      assert digits[k] == t[index];
      if !IsDecimal(t[index]) {
        return None;
      }
      var digit := t[index] as int - 48;
      assert digits[..k + 1][..k] == digits[..k];
      if magnitude < EXPONENT_CAP {
        magnitude := if magnitude > (EXPONENT_CAP - digit) / 10 then EXPONENT_CAP else magnitude * 10 + digit;
      }
      index := index + 1;
    }
    assert digits[..|digits|] == digits;
    exponent := Some(if negative then -magnitude else magnitude);
  }

  // What reading a run of digits leaves behind.
  datatype Mantissa = Mantissa(digits: nat, before: nat, first: nat, firstWidth: nat,
    prefix: nat, count: nat, tail: bool, sawPoint: bool, sawNonzero: bool)

  ghost function WidthOf(r: Mantissa): int {
    r.firstWidth + 4 * (r.digits - r.first - 1)
  }

  // The digits of m have been read into r: how many, and their leading bits.
  ghost predicate Reads(m: seq<Byte>, r: Mantissa) {
    ReadsCounts(m, r) && ReadsBits(HexNumber(DigitsOf(m)), r)
  }

  ghost predicate ReadsCounts(m: seq<Byte>, r: Mantissa) {
    r.digits == |DigitsOf(m)| && r.before == DigitsBefore(m) <= r.digits && (r.sawPoint <==> POINT in m)
  }

  ghost predicate ReadsBits(big: nat, r: Mantissa) {
    && (r.sawNonzero <==> big > 0)
    && (r.sawNonzero ==>
      && r.first < r.digits && 1 <= r.firstWidth <= 4
      && Window(r.prefix, r.count, r.tail, big, WidthOf(r)) && Pow2(WidthOf(r) - 1) <= big)
    && (!r.sawNonzero ==> r.prefix == r.count == 0 && !r.tail)
  }

  lemma DigitsOfNext(m: seq<Byte>, b: Byte)
    ensures var d := HexDigit(b);
      && DigitsOf(m + [b]) == (if d >= 0 then DigitsOf(m) + [d] else DigitsOf(m))
      && HexNumber(DigitsOf(m + [b])) == (if d >= 0 then 16 * HexNumber(DigitsOf(m)) + d else HexNumber(DigitsOf(m)))
      && DigitsBefore(m + [b]) == DigitsBefore(m) + (if d >= 0 && POINT !in m then 1 else 0)
  {
    assert (m + [b])[..|m|] == m;
    var ds, d := DigitsOf(m), HexDigit(b);
    if d >= 0 { assert (ds + [d])[..|ds|] == ds; }
  }

  lemma ReadsPoint(m: seq<Byte>, r: Mantissa)
    requires Reads(m, r)
    ensures Reads(m + [POINT], r.(sawPoint := true))
  {
    DigitsOfNext(m, POINT);
  }

  lemma EmptyWindow()
    ensures Window(0, 0, false, 0, 0)
  {
    OneUnit();
  }

  lemma Pow2Four(w: nat, big: nat, d: nat)
    requires Pow2(w) <= big
    ensures Pow2(w + 4) <= 16 * big + d
  {
    Pow2Add(w, 4);
    assert Pow2(4) == 16;
  }

  // The record with one more digit counted.
  function Counted(r: Mantissa): Mantissa {
    r.(digits := r.digits + 1, before := if r.sawPoint then r.before else r.before + 1)
  }

  lemma CountsOneMore(m: seq<Byte>, r: Mantissa, b: Byte)
    requires ReadsCounts(m, r) && HexDigit(b) >= 0
    ensures ReadsCounts(m + [b], Counted(r))
    ensures HexNumber(DigitsOf(m + [b])) == 16 * HexNumber(DigitsOf(m)) + HexDigit(b)
  {
    DigitsOfNext(m, b);
    assert b != POINT;
  }

  // Counting does not look at the bits.
  lemma CountsSame(m: seq<Byte>, r: Mantissa, r': Mantissa)
    requires ReadsCounts(m, r) && r'.digits == r.digits && r'.before == r.before && r'.sawPoint == r.sawPoint
    ensures ReadsCounts(m, r')
  {}

  lemma ReadsBoth(m: seq<Byte>, r: Mantissa)
    requires ReadsCounts(m, r) && ReadsBits(HexNumber(DigitsOf(m)), r)
    ensures Reads(m, r)
  {}

  lemma BitsZero(r: Mantissa)
    requires ReadsBits(0, r)
    ensures ReadsBits(0, Counted(r))
  {}

  lemma BitsFirst(r: Mantissa, d: nat, prefix: nat, count: nat, tail: bool)
    requires ReadsBits(0, r) && 0 < d < 16 && Window(prefix, count, tail, WithBits(0, d, HexWidth(d)), HexWidth(d))
    ensures ReadsBits(d, Counted(r).(sawNonzero := true, first := r.digits, firstWidth := HexWidth(d),
      prefix := prefix, count := count, tail := tail))
  {
    LeadingBits(d);
    hide Window, Pow2, WithBits;
  }

  lemma BitsLater(r: Mantissa, big: nat, d: nat, prefix: nat, count: nat, tail: bool)
    requires ReadsBits(big, r) && d < 16 && r.sawNonzero
    requires Window(prefix, count, tail, WithBits(big, d, 4), WidthOf(r) + 4)
    ensures ReadsBits(16 * big + d, Counted(r).(prefix := prefix, count := count, tail := tail))
  {
    hide Window, Pow2, WithBits;
    FourBits(big, d);
    Pow2Four(WidthOf(r) - 1, big, d);
  }

  lemma ReadsWindow(m: seq<Byte>, r: Mantissa)
    requires Reads(m, r)
    ensures ReadsCounts(m, r) && ReadsBits(HexNumber(DigitsOf(m)), r) && (!r.sawNonzero ==> HexNumber(DigitsOf(m)) == 0)
    ensures if r.sawNonzero then WidthOf(r) > 0 && Window(r.prefix, r.count, r.tail, HexNumber(DigitsOf(m)), WidthOf(r))
      else Window(r.prefix, r.count, r.tail, 0, 0)
  {
    EmptyWindow();
  }

  method ReadDigit(r: Mantissa, b: Byte, ghost m: seq<Byte>) returns (r': Mantissa)
    requires Reads(m, r) && HexDigit(b) >= 0
    ensures Reads(m + [b], r')
  {
    hide *;
    var digit: nat := HexDigit(b);
    ghost var big := HexNumber(DigitsOf(m));
    ReadsWindow(m, r);
    CountsOneMore(m, r, b);
    r' := Counted(r);
    if !r.sawNonzero && digit != 0 {
      r' := FirstDigit(r, digit);
    } else if r.sawNonzero {
      r' := LaterDigit(r, digit, big);
    } else {
      BitsZero(r);
    }
    CountsSame(m + [b], Counted(r), r');
    ReadsBoth(m + [b], r');
  }

  method FirstDigit(r: Mantissa, digit: nat) returns (r': Mantissa)
    requires 0 < digit < 16 && ReadsBits(0, r) && Window(r.prefix, r.count, r.tail, 0, 0)
    ensures ReadsBits(digit, r')
    ensures r'.digits == Counted(r).digits && r'.before == Counted(r).before && r'.sawPoint == Counted(r).sawPoint
  {
    hide Window, Pow2, WithBits, HexWidth, ReadsBits;
    var width := HexWidth(digit);
    var prefix, count, tail := AppendBits(digit, width, r.prefix, r.count, r.tail, 0, 0);
    BitsFirst(r, digit, prefix, count, tail);
    r' := Counted(r).(sawNonzero := true, first := r.digits, firstWidth := width,
      prefix := prefix, count := count, tail := tail);
  }

  method LaterDigit(r: Mantissa, digit: nat, ghost big: nat) returns (r': Mantissa)
    requires digit < 16 && r.sawNonzero && ReadsBits(big, r)
    requires WidthOf(r) > 0 && Window(r.prefix, r.count, r.tail, big, WidthOf(r))
    ensures ReadsBits(16 * big + digit, r')
    ensures r'.digits == Counted(r).digits && r'.before == Counted(r).before && r'.sawPoint == Counted(r).sawPoint
  {
    hide Window, Pow2, WithBits, ReadsBits;
    var prefix, count, tail := AppendBits(digit, 4, r.prefix, r.count, r.tail, big, WidthOf(r));
    BitsLater(r, big, digit, prefix, count, tail);
    r' := Counted(r).(prefix := prefix, count := count, tail := tail);
  }

  // Reads digits up to the marker or the end; nothing when they are malformed.
  method ReadDigits(t: seq<Byte>) returns (r: Option<Mantissa>, index: nat)
    ensures index <= |t| && (r.Some? ==> index == MarkerAt(t) && Reads(t[..index], r.value) && Spelled(t[..index]))
    ensures r.None? ==> !Spelled(t[..MarkerAt(t)])
  {
    hide *;
    index := 0;
    var now := Mantissa(0, 0, 0, 0, 0, 0, false, false, false);
    ReadsNothing(t);
    while index < |t| && !IsMarker(t[index])
      invariant index <= MarkerAt(t) && Spelled(t[..index]) && Reads(t[..index], now)
      decreases |t| - index
    {
      MarkerOn(t, index);
      if t[index] == POINT {
        if now.sawPoint {
          PointTwice(t, index, now);
          return None, index;
        }
        NoPointYet(t, index, now);
        ReadsPoint(t[..index], now);
        now := now.(sawPoint := true);
      } else {
        SpelledOn(t, index);
        if HexDigit(t[index]) < 0 {
          return None, index;
        }
        now := ReadDigit(now, t[index], t[..index]);
      }
      index := index + 1;
    }
    r := Some(now);
  }

  lemma ReadsNothing(t: seq<Byte>)
    ensures Reads(t[..0], Mantissa(0, 0, 0, 0, 0, 0, false, false, false)) && Spelled(t[..0])
  {
    assert t[..0] == [];
  }

  lemma MarkerOn(t: seq<Byte>, index: nat)
    requires index < |t| && index <= MarkerAt(t) && !IsMarker(t[index])
    ensures index < MarkerAt(t) && t[..index + 1] == t[..index] + [t[index]]
  {
    hide MarkerAt;
  }

  // One more byte: a digit spells on, and a stranger spoils the text.
  lemma SpelledOn(t: seq<Byte>, index: nat)
    requires index < MarkerAt(t) && Spelled(t[..index]) && t[index] != POINT
    ensures if HexDigit(t[index]) >= 0 then Spelled(t[..index + 1]) else !Spelled(t[..MarkerAt(t)])
  {
    hide MarkerAt, HexDigit;
    if HexDigit(t[index]) >= 0 {
      SpelledPush(t[..index], t[index]);
      assert t[..index + 1] == t[..index] + [t[index]];
    } else {
      assert !IsSpelling(t[..MarkerAt(t)][index]);
    }
  }

  lemma SpelledPush(m: seq<Byte>, b: Byte)
    requires Spelled(m) && IsSpelling(b) && b != POINT
    ensures Spelled(m + [b])
  {
    hide HexDigit;
  }

  lemma PointTwice(t: seq<Byte>, index: nat, r: Mantissa)
    requires index < MarkerAt(t) && Reads(t[..index], r) && r.sawPoint && t[index] == POINT
    ensures !Spelled(t[..MarkerAt(t)])
  {
    var m := t[..MarkerAt(t)];
    var i :| 0 <= i < index && t[..index][i] == POINT;
    assert m[i] == POINT && m[index] == POINT;
  }

  lemma NoPointYet(t: seq<Byte>, index: nat, r: Mantissa)
    requires index < |t| && Spelled(t[..index]) && Reads(t[..index], r) && !r.sawPoint
    ensures Spelled(t[..index] + [POINT])
  {}

  // ---- parsing ------------------------------------------------------------

  // The exponent of the leading bit, from the exponent read.
  function TopExponent(r: Mantissa, exponent: int): int {
    exponent + 4 * (r.before - r.first - 1) + r.firstWidth - 1
  }

  function Capped(e: int): int {
    if e > EXPONENT_CAP then EXPONENT_CAP else if e < -EXPONENT_CAP then -EXPONENT_CAP else e
  }

  // Capping the exponent of a text of at most MAX_TEXT bytes moves no value
  // into or out of the finite range.
  lemma CapIsSafe(r: Mantissa, e: int)
    requires r.before <= MAX_TEXT && r.first <= MAX_TEXT && 1 <= r.firstWidth <= 4
    ensures var top, capped := TopExponent(r, e), TopExponent(r, Capped(e));
      && (capped > 1023 ==> top > 1023) && (capped < -1075 ==> top < -1075)
      && (-1075 <= capped <= 1023 ==> top == capped)
  {}

  // The digits read and the true exponent give the magnitude of the text.
  lemma MagnitudeOf(t: seq<Byte>, r: Mantissa)
    requires WellFormed(t) && Reads(t[..MarkerAt(t)], r) && r.sawNonzero
    ensures var big, e := HexNumber(DigitsOf(t[..MarkerAt(t)])), ExponentOf(t[MarkerAt(t) + 1..]);
      && WidthOf(r) > 0 && Pow2(WidthOf(r) - 1) <= big < Pow2(WidthOf(r))
      && Window(r.prefix, r.count, r.tail, big, WidthOf(r))
      && Magnitude(t) == Times(big as real, Exp2(TopExponent(r, e) + 1 - WidthOf(r)))
  {
    hide Times, Exp2, Pow2, DigitsOf, HexNumber, DigitsBefore, Spelled, MarkerAt, Unsigned, AllDecimal, Decimal;
  }

  // Values with the leading bit out of range.
  lemma OutOfRange(big: nat, width: nat, x: int)
    requires width > 0 && Pow2(width - 1) <= big < Pow2(width)
    ensures x + width - 1 > 1023 ==> Nearest(INFINITY, Times(big as real, Exp2(x)))
    ensures x + width - 1 < -1075 ==> Nearest(0, Times(big as real, Exp2(x)))
  {
    var v := Times(big as real, Exp2(x));
    ValueBetween(big, width, x);
    if x + width - 1 > 1023 {
      Exp2Grows(1024, x + width - 1);
      FarAbove(v);
    }
    if x + width - 1 < -1075 {
      Exp2Grows(x + width, -1075);
      hide Exp2, Times, Nearest;
      FarBelow(v);
    }
  }

  // A significand that rounded up to the next power of two raises the exponent.
  lemma Carried(top: int, s: nat)
    requires -1022 <= top <= 1023 && FRACTION <= s <= 2 * FRACTION
    ensures s == 2 * FRACTION ==>
      if top + 1 > 1023 then (top + 1022) * FRACTION + s == INFINITY
      else (top + 1 + 1023) * FRACTION + s / 2 % FRACTION == (top + 1022) * FRACTION + s
    ensures s != 2 * FRACTION ==> (top + 1023) * FRACTION + s % FRACTION == (top + 1022) * FRACTION + s
  {}

  // Assembles the pattern of a nonzero number whose leading bit is worth 2^top.
  method Assemble(prefix: nat, count: nat, tail: bool, top: int, ghost big: nat, ghost width: nat, ghost x: int)
    returns (bits: nat)
    requires Window(prefix, count, tail, big, width) && width > 0 && Pow2(width - 1) <= big
    requires -1075 <= top <= 1023 && top == x + width - 1
    ensures Nearest(bits, Times(big as real, Exp2(x)))
  {
    assert big < Pow2(width);
    hide *;
    if top >= -1022 {
      var significand := RoundPrefix(prefix, count, tail, 53, big, width);
      RoundedIsNearest(big, width, x, significand, 53);
      RoundsInside(significand, big, width, 53);
      KeepBounds(53);
      ghost var s := significand;
      var exponent := top;
      if significand == 2 * FRACTION {
        significand := significand / 2;
        exponent := exponent + 1;
      }
      if exponent > 1023 {
        bits := INFINITY;
      } else {
        bits := (exponent + 1023) * FRACTION + significand % FRACTION;
      }
      Carried(top, s);
    } else {
      var keep := top + 1075;
      bits := RoundPrefix(prefix, count, tail, keep, big, width);
      RoundedIsNearest(big, width, x, bits, keep);
    }
  }

  // What the capped exponent decides of a nonzero text, and what is rounded
  // when it decides nothing.
  lemma EncodeParts(r: Mantissa, t: seq<Byte>) returns (big: nat, x: int)
    requires WellFormed(t) && |t| <= MAX_TEXT && Reads(t[..MarkerAt(t)], r) && r.sawNonzero
    ensures var top := TopExponent(r, Capped(ExponentOf(t[MarkerAt(t) + 1..])));
      && WidthOf(r) > 0 && Window(r.prefix, r.count, r.tail, big, WidthOf(r)) && Pow2(WidthOf(r) - 1) <= big
      && Magnitude(t) == Times(big as real, Exp2(x))
      && (top > 1023 ==> Nearest(INFINITY, Magnitude(t))) && (top < -1075 ==> Nearest(0, Magnitude(t)))
      && (-1075 <= top <= 1023 ==> top == x + WidthOf(r) - 1)
  {
    hide Magnitude, Window, Nearest, Pow2, Times, Exp2, HexNumber, DigitsOf;
    var e := ExponentOf(t[MarkerAt(t) + 1..]);
    big := HexNumber(DigitsOf(t[..MarkerAt(t)]));
    x := TopExponent(r, e) + 1 - WidthOf(r);
    MagnitudeOf(t, r);
    DigitsAreFew(t[..MarkerAt(t)], r);
    CapIsSafe(r, e);
    OutOfRange(big, WidthOf(r), x);
  }

  // The pattern of a nonzero text, from its digits and its capped exponent.
  method Encode(r: Mantissa, exponent: int, ghost t: seq<Byte>) returns (bits: nat)
    requires WellFormed(t) && |t| <= MAX_TEXT && Reads(t[..MarkerAt(t)], r) && r.sawNonzero
    requires exponent == Capped(ExponentOf(t[MarkerAt(t) + 1..]))
    ensures Nearest(bits, Magnitude(t))
  {
    ghost var big, x := EncodeParts(r, t);
    var top := exponent + 4 * (r.before - r.first - 1) + r.firstWidth - 1;
    assert top == TopExponent(r, exponent);
    hide *;
    if top > 1023 {
      bits := INFINITY;
    } else if top < -1075 {
      bits := 0;
    } else {
      bits := Assemble(r.prefix, r.count, r.tail, top, big, WidthOf(r), x);
    }
  }

  // Parses the text behind 0x. The pattern is the one nearest the number the
  // text stands for, ties to even, with the sign asked for.
  method ParseHex(t: seq<Byte>, negative: bool) returns (bits: Option<nat>)
    requires |t| <= MAX_TEXT
    ensures bits.Some? <==> WellFormed(t)
    ensures bits.Some? ==>
      var r := if negative then bits.value - SIGN_BIT else bits.value;
      r >= 0 && Nearest(r, Magnitude(t))
    ensures bits.Some? <==> exists p :: Legal(p) && Joined(p) == t
    ensures forall p | Legal(p) && Joined(p) == t ::
      var r := if negative then bits.value - 0x8000_0000_0000_0000 else bits.value;
      r >= 0 && Nearest(r, Meaning(p))
  {
    hide Nearest, Magnitude, HexNumber, MarkerAt, IsExponent, Spelled, ReadsBits, Legal, Joined, Meaning;
    TextMeans(t);
    var read, index := ReadDigits(t);
    if read.None? || read.value.digits == 0 || index == |t| {
      return None;
    }
    var exponent := ParseExponent(t[index + 1..]);
    if exponent.None? {
      return None;
    }
    assert WellFormed(t);
    var sign := if negative then SIGN_BIT else 0;
    if !read.value.sawNonzero {
      ZeroIsNearest(t, read.value);
      return Some(sign);
    }
    var magnitude := Encode(read.value, exponent.value, t);
    bits := Some(magnitude + sign);
  }

  lemma ZeroIsNearest(t: seq<Byte>, r: Mantissa)
    requires WellFormed(t) && Reads(t[..MarkerAt(t)], r) && !r.sawNonzero
    ensures Nearest(0, Magnitude(t))
  {
    OneTimes(Exp2(TopExponent(r, ExponentOf(t[MarkerAt(t) + 1..])) + 1 - WidthOf(r)));
    FarBelow(Magnitude(t));
  }

  lemma {:induction false} DigitsAreFew(m: seq<Byte>, r: Mantissa)
    requires Reads(m, r)
    ensures r.digits <= |m| && r.before <= |m| && (r.sawNonzero ==> r.first <= |m| && 1 <= r.firstWidth <= 4)
  {
    DigitsNoMore(m);
  }

  lemma {:induction false} DigitsNoMore(m: seq<Byte>)
    ensures |DigitsOf(m)| <= |m|
  {
    if m != [] { DigitsNoMore(m[..|m| - 1]); }
  }
}
