// The limb big integer behind the exact decimal conversion: a fixed buffer of
// 62 limbs, changed in place.
module Bigint {
  import opened Arithmetic
  import opened Limbs
  import opened Powers

  const LIMB_COUNT: nat := 4000 / 64

  // x + y: the low limb and whether it overflowed.
  function ScalarAdd(x: Limb, y: Limb): (r: (Limb, bool))
    ensures r.0 as nat + (if r.1 then BASE else 0) == x as nat + y as nat
  {
    var z := x as nat + y as nat;
    if z < BASE then (z as Limb, false) else ((z - BASE) as Limb, true)
  }

  // The low and the high limb of a double-width number.
  function Halves(z: nat): (r: (Limb, Limb))
    requires z < BASE * BASE
    ensures r.0 as nat + BASE * (r.1 as nat) == z
  {
    ((z % BASE) as Limb, (z / BASE) as Limb)
  }

  // x * y + carry: the low limb and the new carry.
  function ScalarMul(x: Limb, y: Limb, carry: Limb): (r: (Limb, Limb))
    ensures r.0 as nat + BASE * (r.1 as nat) == x as nat * y as nat + carry as nat
  {
    ProductFits(x as nat, y as nat, carry as nat);
    Halves(x as nat * y as nat + carry as nat)
  }

  lemma ProductFits(x: nat, y: nat, c: nat)
    requires x < BASE && y < BASE && c < BASE
    ensures x * y + c < BASE * BASE
  {
    Ordered(x, BASE - 1, y);
  }

  class Bigint {
    const data: array<Limb>
    var len: nat

    constructor Empty()
      ensures fresh(data) && data.Length == 62 && Valid() && Limbs() == []
    {
      data := new Limb[LIMB_COUNT](_ => 0);
      len := 0;
    }

    // One limb, or none for zero.
    constructor Make(value: Limb)
      ensures fresh(data) && data.Length == 62 && Valid() && Number() == value as nat && Normalized(Limbs())
    {
      data := new Limb[LIMB_COUNT](_ => 0);
      len := 1;
      new;
      data[0] := value;
      assert Limbs() == [value];
      OneLimb(Limbs());
      Normalize();
    }

    ghost predicate Valid()
      reads this
    {
      data.Length == LIMB_COUNT && len <= LIMB_COUNT
    }

    ghost function Limbs(): (s: seq<Limb>)
      requires Valid()
      reads this, data
      ensures |s| == len
    {
      data[..len]
    }

    ghost function Number(): nat
      requires Valid()
      reads this, data
    {
      Value(Limbs())
    }

    method TryPush(value: Limb) returns (ok: bool)
      requires Valid()
      modifies this, data
      ensures Valid() && (ok <==> old(len) < LIMB_COUNT)
      ensures Limbs() == if ok then old(Limbs()) + [value] else old(Limbs())
    {
      if len < LIMB_COUNT {
        data[len] := value;
        len := len + 1;
        ok := true;
      } else {
        ok := false;
      }
    }

    // Grows with zeros, or cuts off.
    method TryReserve(n: nat) returns (ok: bool)
      requires Valid()
      modifies this, data
      ensures Valid() && (ok <==> n <= LIMB_COUNT)
      ensures ok && n >= old(len) ==> len == n && data[..old(len)] == old(Limbs()) && Number() == old(Number())
      ensures ok && n < old(len) ==> Limbs() == old(Limbs())[..n]
      ensures !ok ==> Limbs() == old(Limbs())
    {
      if n > LIMB_COUNT {
        return false;
      }
      if n > len {
        for p := len to n
          invariant len == old(len) && data[..len] == old(Limbs())
          invariant forall i | len <= i < p :: data[i] == 0
        {
          data[p] := 0;
        }
        ghost var grown := data[..n];
        ValueSplit(grown, len);
        ValueZeros(grown[len..]);
        assert grown[..len] == data[..len];
      }
      len := n;
      ok := true;
    }

    // Pushes what is left over, unless nothing is. It fails exactly when the
    // whole needs more limbs than there are.
    method PushCarry(carry: Limb, ghost total: nat) returns (ok: bool)
      requires Valid() && Number() + At(carry as nat, len) == total
      modifies this, data
      ensures Valid() && (ok <==> total < Place(data.Length)) && len >= old(len)
      ensures ok ==> Number() == total && Limbs() == old(Limbs()) + (if carry == 0 then [] else [carry])
      ensures carry != 0 <==> total >= Place(old(len))
      ensures ok <==> old(len) + (if carry == 0 then 0 else 1) <= LIMB_COUNT
    {
      hide Value, At, Place;
      CarryFits(Limbs(), carry, data.Length);
      ok := true;
      if carry != 0 {
        ok := TryPush(carry);
      }
    }

    // Adds y at place start. It fails exactly when the sum needs more limbs
    // than there are.
    method SmallAddFrom(y: Limb, start: nat) returns (ok: bool)
      requires Valid() && start <= len
      modifies this, data
      ensures Valid() && (ok <==> old(Number()) + At(y as nat, start) < Place(data.Length))
      ensures ok ==> Number() == old(Number()) + At(y as nat, start) && len >= old(len)
    {
      hide Value, At, Place, ScalarAdd;
      ghost var s := Limbs();
      var index := start;
      var carry := y;
      assert data[..start] == s[..start];
      while carry != 0 && index < len
        invariant start <= index <= len && len == old(len)
        invariant forall j | index <= j < len :: data[j] == s[j]
        invariant Value(data[..index]) + At(carry as nat, index) == Value(s[..index]) + At(y as nat, start)
      {
        ghost var below := data[..index];
        var (sum, overflow) := ScalarAdd(data[index], carry);
        AddStep(below, s, index, sum, carry, overflow);
        data[index] := sum;
        assert data[..index + 1] == below + [sum];
        carry := if overflow then 1 else 0;
        index := index + 1;
      }
      assert Limbs()[..index] == data[..index];
      AddEnd(Limbs(), s, index, carry as nat, At(y as nat, start));
      ok := PushCarry(carry, Value(s) + At(y as nat, start));
    }

    // Multiplies by y. It fails exactly when the product needs more limbs than
    // there are.
    method SmallMul(y: Limb) returns (ok: bool)
      requires Valid()
      modifies this, data
      ensures Valid() && (ok <==> old(Number()) * y as nat < Place(data.Length))
      ensures ok ==> Number() == old(Number()) * y as nat
      ensures ok <==> Widened(old(len), old(Number()) * y as nat) <= LIMB_COUNT
      ensures ok ==> len == Widened(old(len), old(Number()) * y as nat)
      ensures ok && y != 0 && Normalized(old(Limbs())) ==> Normalized(Limbs())
    {
      hide Value, At, Place, ScalarMul;
      ghost var s := Limbs();
      var carry: Limb := 0;
      MulStart(s, y);
      for index := 0 to len
        invariant len == old(len) && forall j | index <= j < len :: data[j] == s[j]
        invariant Value(data[..index]) + At(carry as nat, index) == Value(s[..index]) * y as nat
        invariant index > 0 && s[index - 1] != 0 && y != 0 ==> carry != 0 || data[index - 1] != 0
      {
        ghost var below := data[..index];
        var (low, high) := ScalarMul(data[index], y, carry);
        MulStep(below, s, index, low, high, carry, y as nat);
        data[index] := low;
        assert data[..index + 1] == below + [low];
        carry := high;
      }
      assert data[..len] == Limbs() && s[..len] == s;
      ghost var top := if len > 0 then data[len - 1] else 0;
      ok := PushCarry(carry, Value(s) * y as nat);
    }

    // Adds ys, limb by limb, to the limbs from start on.
    method AddLimbs(ys: seq<Limb>, start: nat) returns (carry: bool)
      requires Valid() && start + |ys| <= len
      modifies data
      ensures Valid() && len == old(len)
      ensures Number() + At(if carry then 1 else 0, start + |ys|) == old(Number()) + At(Value(ys), start)
    {
      hide Value, At, Place, ScalarAdd;
      ghost var s := Limbs();
      carry := false;
      assert data[..start] == s[..start];
      AddAllStart(ys, start);
      for index := 0 to |ys|
        invariant forall j | start + index <= j < len :: data[j] == s[j]
        invariant Value(data[..start + index]) + At(if carry then 1 else 0, start + index)
          == Value(s[..start + index]) + At(Value(ys[..index]), start)
      {
        ghost var below := data[..start + index];
        ghost var c := if carry then 1 else 0;
        var xi, yi := data[index + start], ys[index];
        var (sum, c1) := ScalarAdd(xi, yi);
        var c2 := false;
        if carry {
          var (more, again) := ScalarAdd(sum, 1);
          sum, c2 := more, again;
        }
        AddAllStep(below, s, ys, index, start, sum, c, c1 || c2);
        data[index + start] := sum;
        assert data[..start + index + 1] == below + [sum];
        carry := c1 || c2;
      }
      assert ys[..|ys|] == ys && Limbs()[..start + |ys|] == data[..start + |ys|];
      SumEnd(Limbs(), s, start + |ys|, if carry then 1 else 0, At(Value(ys), start));
    }

    // Adds ys at place start. Without room for ys itself it fails; else it fails
    // exactly when the sum needs more limbs than there are.
    method LargeAddFrom(ys: seq<Limb>, start: nat) returns (ok: bool)
      requires Valid()
      modifies this, data
      ensures Valid()
      ensures ok <==> old(Number()) + At(Value(ys), start) < Place(data.Length) && |ys| + start <= data.Length
      ensures ok ==> Number() == old(Number()) + At(Value(ys), start) && len >= old(len)
    {
      hide Value, At, Place;
      if len < start || |ys| > len - start {
        ok := TryReserve(|ys| + start);
        if !ok {
          return;
        }
      }
      var carry := AddLimbs(ys, start);
      ValueFits(Limbs(), data.Length);
      AtLaws(0, 0, |ys| + start);
      ok := true;
      if carry {
        ok := SmallAddFrom(1, |ys| + start);
      }
    }

    // Appends limbs, if they fit.
    method TryExtend(ys: seq<Limb>) returns (ok: bool)
      requires Valid()
      modifies this, data
      ensures Valid() && (ok <==> old(len) + |ys| <= LIMB_COUNT)
      ensures Limbs() == if ok then old(Limbs()) + ys else old(Limbs())
    {
      if len + |ys| > LIMB_COUNT {
        return false;
      }
      for i := 0 to |ys|
        invariant len == old(len) && data[..len + i] == old(Limbs()) + ys[..i]
      {
        data[len + i] := ys[i];
      }
      len := len + |ys|;
      ok := true;
    }

    // Drops zero limbs from the top.
    method Normalize()
      requires Valid()
      modifies `len
      ensures Valid() && Number() == old(Number()) && Normalized(Limbs()) && len <= old(len)
    {
      hide Value, At, Place;
      while len > 0 && data[len - 1] == 0
        invariant Valid() && Number() == old(Number()) && len <= old(len)
      {
        assert Limbs()[..len - 1] == data[..len - 1];
        ZeroTop(Limbs());
        len := len - 1;
      }
    }

    // Multiplies by the limbs of ys, the way it is done on paper. With no limbs
    // at all in ys the number stays as it is. It fails exactly when one limb's
    // product has no room at its place or the whole needs more limbs than there
    // are; for a normalized number other than zero the former implies the latter.
    method LongMul(ys: seq<Limb>) returns (ok: bool)
      requires Valid()
      modifies this, data
      ensures Valid()
      ensures ok ==> Normalized(Limbs()) && Number() == old(Number()) * (if ys == [] then 1 else Value(ys))
      ensures ok <==> Roomy(old(len), old(Number()), ys) && old(Number()) * Value(ys) < Place(data.Length)
      ensures Normalized(old(Limbs())) && old(len) > 0 ==> (ok <==> old(Number()) * Value(ys) < Place(data.Length))
    {
      hide Value, At, Place, RoomAt;
      var zs := data[..len];
      ghost var z := Value(zs);
      if Normalized(zs) && zs != [] { RoomyIfFits(zs, ys, data.Length); }
      ok := true;
      if |ys| != 0 {
        FirstProduct(z, ys);
        RoomIs(|zs|, z, ys, 0);
        ok := SmallMul(ys[0]);
        if !ok {
          return;
        }
        for index := 1 to |ys|
          invariant Valid() && Number() == z * Value(ys[..index])
          invariant forall i | 0 <= i < index :: RoomAt(|zs|, z, ys, i)
        {
          ok := AddProduct(zs, ys, index);
          if !ok {
            return;
          }
        }
        assert ys[..|ys|] == ys;
      } else {
        NoLimbs(ys);
        ValueFits([], data.Length);
      }
      ValueFits(Limbs(), data.Length);
      Normalize();
    }

    // Adds one limb's product at its place.
    method AddProduct(zs: seq<Limb>, ys: seq<Limb>, index: nat) returns (ok: bool)
      requires Valid() && 0 < index < |ys| && |zs| <= LIMB_COUNT && Number() == Value(zs) * Value(ys[..index])
      modifies this, data
      ensures Valid() && (ok ==> Number() == Value(zs) * Value(ys[..index + 1]))
      ensures ok ==> RoomAt(|zs|, Value(zs), ys, index)
      ensures !ok ==> !RoomAt(|zs|, Value(zs), ys, index) || Value(zs) * Value(ys) >= Place(data.Length)
    {
      hide Value, At, Place, RoomAt;
      var yi := ys[index];
      NextProduct(Value(zs), ys, index);
      RoomIs(|zs|, Value(zs), ys, index);
      ok := true;
      if yi != 0 {
        var zi := new Bigint.Empty();
        ok := zi.TryExtend(zs);
        assert zi.Limbs() == zs;
        ok := zi.SmallMul(yi);
        if !ok {
          return;
        }
        var limbs := zi.data[..zi.len];
        ok := LargeAddFrom(limbs, index);
      }
    }

    method LargeMul(ys: seq<Limb>) returns (ok: bool)
      requires Valid() && ys != []
      modifies this, data
      ensures Valid() && (ok ==> Number() == old(Number()) * Value(ys))
      ensures Normalized(old(Limbs())) && (old(len) > 0 || |ys| <= LIMB_COUNT) ==>
        (ok <==> old(Number()) * Value(ys) < Place(data.Length))
      ensures ok && Normalized(old(Limbs())) && ys[|ys| - 1] != 0 ==> Normalized(Limbs())
    {
      ZeroIsRoomy(ys);
      NoLimbs(Limbs());
      if |ys| == 1 {
        OneLimb(ys);
        hide Value, At, Place;
        ok := SmallMul(ys[0]);
      } else {
        hide Value, At, Place, RoomAt;
        ok := LongMul(ys);
      }
    }

    // ---- shifting ---------------------------------------------------------

    // Shifts left by less than a limb. It fails exactly when the result needs
    // more limbs than there are.
    method ShlBits(n: nat) returns (ok: bool)
      requires Valid() && 0 < n < 64
      modifies this, data
      ensures Valid() && (ok <==> old(Number()) * Pow2(n) < Place(data.Length))
      ensures ok ==> Number() == old(Number()) * Pow2(n)
      ensures ok <==> Widened(old(len), old(Number()) * Pow2(n)) <= LIMB_COUNT
      ensures ok ==> len == Widened(old(len), old(Number()) * Pow2(n))
      ensures ok && Normalized(old(Limbs())) ==> Normalized(Limbs())
    {
      hide Value, At, Place, Pow2, ShiftedIn;
      ghost var s := Limbs();
      var prev: Limb := 0;
      MulStart(s, 0);
      NoBits(n);
      ShiftStart(s, n);
      for index := 0 to len
        invariant len == old(len) && forall j | index <= j < len :: data[j] == s[j]
        invariant Value(data[..index]) + At(ShiftedOut(prev, n) as nat, index) == Value(s[..index]) * Pow2(n)
        invariant index > 0 && s[index - 1] != 0 ==> ShiftedOut(prev, n) != 0 || data[index - 1] != 0
      {
        ghost var below := data[..index];
        var xi := data[index];
        var low := ShiftedIn(xi, prev, n);
        MulStep(below, s, index, low, ShiftedOut(xi, n), ShiftedOut(prev, n), Pow2(n));
        data[index] := low;
        assert data[..index + 1] == below + [low];
        prev := xi;
      }
      assert data[..len] == Limbs() && s[..len] == s;
      var carry := ShiftedOut(prev, n);
      ok := PushCarry(carry, Value(s) * Pow2(n));
    }

    // The limbs moved up by n places, the highest first.
    method MoveUp(n: nat)
      requires Valid() && n + len <= LIMB_COUNT
      modifies data
      ensures data[n..n + len] == old(Limbs())
    {
      ghost var s := Limbs();
      for i := len downto 0
        invariant forall j | 0 <= j < i :: data[j] == s[j]
        invariant forall j | n + i <= j < n + len :: data[j] == s[j - n]
      {
        data[n + i] := data[i];
      }
    }

    method ClearBelow(n: nat)
      requires n <= data.Length
      modifies data
      ensures (forall j | 0 <= j < n :: data[j] == 0) && data[n..] == old(data[n..])
    {
      for i := 0 to n
        invariant (forall j | 0 <= j < i :: data[j] == 0) && data[n..] == old(data[n..])
      {
        data[i] := 0;
      }
    }

    // Shifts left by whole limbs, n of them.
    method ShlLimbs(n: nat) returns (ok: bool)
      requires Valid() && n != 0
      modifies this, data
      ensures Valid() && (ok <==> n + old(len) <= LIMB_COUNT)
      ensures ok ==> Number() == At(old(Number()), n)
      ensures ok && Normalized(old(Limbs())) ==> Normalized(Limbs())
    {
      hide Value, At, Place;
      ok := true;
      if n + len > LIMB_COUNT {
        return false;
      } else if len != 0 {
        ghost var s := Limbs();
        MoveUp(n);
        ClearBelow(n);
        len := len + n;
        ghost var now := Limbs();
        assert now[n..] == s && forall j | 0 <= j < n :: now[..n][j] == 0;
        ShiftedValue(now, n);
      } else {
        AtLaws(0, 0, n);
        NoLimbs(Limbs());
      }
    }

    // Shifts left by any number of bits. It fails exactly when the limbs of the
    // number, moved up by whole limbs and widened by the other bits, are too
    // many; for a normalized number other than zero that is when the result
    // needs more limbs than there are.
    method Shl(n: nat) returns (ok: bool)
      requires Valid()
      modifies this, data
      ensures Valid() && (ok ==> Number() == old(Number()) * Pow2(n))
      ensures ok <==> n / 64 + Widened(old(len), old(Number()) * Pow2(n % 64)) <= LIMB_COUNT
      ensures Normalized(old(Limbs())) && old(len) > 0 ==> (ok <==> old(Number()) * Pow2(n) < Place(data.Length))
      ensures ok && Normalized(old(Limbs())) ==> Normalized(Limbs())
    {
      hide Value, At, Place, Pow2;
      var rem, div := n % 64, n / 64;
      ghost var z := Number();
      ghost var s := Limbs();
      ShiftParts(z, n);
      ValueFits(s, len);
      if Normalized(s) && len > 0 { ShiftFitsExactly(s, n, data.Length); }
      ok := true;
      if rem != 0 {
        ok := ShlBits(rem);
        if !ok {
          return;
        }
      }
      if div != 0 {
        ok := ShlLimbs(div);
      }
    }

    // ---- comparing and reading --------------------------------------------

    // Which of two normalized numbers is larger: limb counts first, then limbs
    // from the top.
    method Compare(other: Bigint) returns (c: int)
      requires Valid() && other.Valid() && Normalized(Limbs()) && Normalized(other.Limbs())
      ensures c == if Number() > other.Number() then 1 else if Number() < other.Number() then -1 else 0
    {
      hide Value, At, Place;
      if len > other.len {
        MoreLimbs(Limbs(), other.Limbs());
        return 1;
      } else if len < other.len {
        MoreLimbs(other.Limbs(), Limbs());
        return -1;
      }
      ghost var a, b := Limbs(), other.Limbs();
      for index := len downto 0
        invariant a[index..] == b[index..]
      {
        var xi, yi := data[index], other.data[index];
        if xi > yi {
          LargerLimb(a, b, index);
          return 1;
        } else if xi < yi {
          LargerLimb(b, a, index);
          return -1;
        }
      }
      assert a[0..] == a && b[0..] == b;
      return 0;
    }

    method ExistsNonzeroAfter(start: nat) returns (yes: bool)
      requires Valid() && start <= len
      ensures yes <==> Value(Limbs()[..len - start]) != 0
    {
      ghost var low := Limbs()[..len - start];
      for index := start to len
        invariant forall j | len - index <= j < |low| :: low[j] == 0
      {
        assert low[len - index - 1] == data[len - index - 1];
        if data[len - index - 1] != 0 {
          NonzeroLimb(low, len - index - 1);
          return true;
        }
      }
      ValueZeros(low);
      return false;
    }

    // The top 64 bits of a normalized number, shifted so that the first is 1,
    // and whether any bit below them is lost.
    method Hi64() returns (bits: nat, truncated: bool)
      requires Valid() && Normalized(Limbs())
      ensures len == 0 ==> bits == 0 && !truncated
      ensures len > 0 ==>
        var shifted := Number() * Pow2(LeadingZeros(data[len - 1]));
        && BASE / 2 <= bits < BASE && bits == shifted / Place(len - 1)
        && (truncated <==> shifted % Place(len - 1) != 0)
    {
      hide Value, At, Place, Pow2, ShiftedIn, LeadingZeros;
      if len == 0 {
        return 0, false;
      }
      var r0 := data[len - 1];
      if len == 1 {
        bits := HiOfOne(r0);
        TopOfOne(Limbs(), LeadingZeros(r0));
        return bits, false;
      }
      ghost var shl, low;
      bits, truncated, low := HiOfTwo(r0, data[len - 2]);
      shl := LeadingZeros(r0);
      TopOfMany(Limbs(), shl, Pow2(shl), r0 as nat * Pow2(shl), data[len - 2] as nat * Pow2(shl), low);
      var rest := ExistsNonzeroAfter(2);
      truncated := truncated || rest;
    }

    // ---- powers -----------------------------------------------------------

    // Multiplies by 5 to the exp: by 5 to the 135 while that goes in, then by 5
    // to the 27, then by what is left. A normalized number fails exactly when the
    // product needs more limbs than there are.
    method PowFive(exp: nat) returns (ok: bool)
      requires Valid()
      modifies this, data
      ensures Valid() && (ok ==> Number() == old(Number()) * Five(exp))
      ensures Normalized(old(Limbs())) ==> (ok <==> old(Number()) * Five(exp) < Place(data.Length))
      ensures ok && Normalized(old(Limbs())) ==> Normalized(Limbs())
    {
      hide Value, At, Place, Five;
      ghost var whole := Number() * Five(exp);
      var e: nat := exp;
      while e >= 135
        invariant Valid() && Number() * Five(e) == whole
        invariant Normalized(old(Limbs())) ==> Normalized(Limbs())
      {
        FivePart(Number(), e, 135);
        LargePower();
        ok := MulLarge();
        if !ok {
          return;
        }
        e := e - 135;
      }
      while e >= 27
        invariant Valid() && Number() * Five(e) == whole
        invariant Normalized(old(Limbs())) ==> Normalized(Limbs())
      {
        FivePart(Number(), e, 27);
        ok := MulSmall(27);
        if !ok {
          return;
        }
        e := e - 27;
      }
      ok := true;
      FivePart(Number(), e, e);
      ValueFits(Limbs(), data.Length);
      if e != 0 {
        ok := MulSmall(e);
      }
    }

    // The steps of the power: by the large entry of the tables, or by a small one.
    method MulLarge() returns (ok: bool)
      requires Valid()
      modifies this, data
      ensures Valid() && (ok ==> Number() == old(Number()) * Five(135))
      ensures Normalized(old(Limbs())) ==> (ok <==> old(Number()) * Five(135) < Place(data.Length))
      ensures ok && Normalized(old(Limbs())) ==> Normalized(Limbs())
    {
      LargePower();
      hide Value, Place, At, Five;
      ok := LargeMul(LARGE_POWER);
    }

    method MulSmall(e: nat) returns (ok: bool)
      requires Valid() && 0 < e < 28
      modifies this, data
      ensures Valid() && (ok ==> Number() == old(Number()) * Five(e))
      ensures ok <==> old(Number()) * Five(e) < Place(data.Length)
      ensures ok && Normalized(old(Limbs())) ==> Normalized(Limbs())
    {
      hide Value, Place, At, Five, PowerOf;
      PowerIsFive(e);
      ok := SmallMul(PowerOf(e));
    }

    method PowTwo(exp: nat) returns (ok: bool)
      requires Valid()
      modifies this, data
      ensures Valid() && (ok ==> Number() == old(Number()) * Pow2(exp))
      ensures ok <==> exp / 64 + Widened(old(len), old(Number()) * Pow2(exp % 64)) <= LIMB_COUNT
      ensures Normalized(old(Limbs())) && old(len) > 0 ==> (ok <==> old(Number()) * Pow2(exp) < Place(data.Length))
      ensures ok && Normalized(old(Limbs())) ==> Normalized(Limbs())
    {
      ok := Shl(exp);
    }

    // Multiplies by 10 to the exp.
    method PowTen(exp: nat) returns (ok: bool)
      requires Valid()
      modifies this, data
      ensures Valid() && (ok ==> Number() == old(Number()) * (Five(exp) * Pow2(exp)))
      ensures Normalized(old(Limbs())) && old(len) > 0 ==>
        (ok <==> old(Number()) * (Five(exp) * Pow2(exp)) < Place(data.Length))
      ensures old(len) == 0 ==> (ok <==> exp / 64 <= LIMB_COUNT)
      ensures forall d: nat | d + exp <= 767 + 342 && old(Number()) < Ten(d) :: Normalized(old(Limbs())) ==> ok
    {
      hide Value, At, Place, Five, Pow2, Ten;
      LargestFits(Number(), exp);
      ghost var z := Number();
      TenParts(z, exp);
      NoLimbs(Limbs());
      if Normalized(Limbs()) && len > 0 { NormalizedAtLeast(Limbs()); }
      ValueFits([], data.Length);
      ok := PowFive(exp);
      if !ok {
        return;
      }
      NoLimbs(Limbs());
      if Normalized(Limbs()) && len > 0 { NormalizedAtLeast(Limbs()); }
      NotWidened(Pow2(exp % 64));
      ok := PowTwo(exp);
    }
  }

  lemma ZeroTop(s: seq<Limb>)
    requires s != [] && s[|s| - 1] == 0
    ensures Value(s) == Value(s[..|s| - 1])
  {
    hide Place;
    AtLaws(0, 0, |s| - 1);
  }

  lemma CarryFits(now: seq<Limb>, carry: Limb, room: nat)
    requires |now| <= room
    ensures Value(now + [carry]) == Value(now) + At(carry as nat, |now|)
    ensures At(0, |now|) == 0 && Value(now) < Place(room)
    ensures carry != 0 ==> (|now| < room <==> Value(now) + At(carry as nat, |now|) < Place(room))
    ensures carry != 0 <==> Value(now) + At(carry as nat, |now|) >= Place(|now|)
  {
    hide Value, Place;
    ValuePush(now, carry);
    ValueBelow(now);
    ValueBelow(now + [carry]);
    PlaceGrows(|now|, room);
    AtLaws(carry as nat, 0, |now|);
    hide At;
    if |now| < room { PlaceGrows(|now| + 1, room); }
  }

  lemma AddEnd(now: seq<Limb>, s: seq<Limb>, i: nat, carry: nat, extra: nat)
    requires |now| == |s| && i <= |s| && (forall j | i <= j < |s| :: now[j] == s[j]) && (carry == 0 || i == |s|)
    requires Value(now[..i]) + At(carry, i) == Value(s[..i]) + extra
    ensures Value(now) + At(carry, |s|) == Value(s) + extra
  {
    assert now[i..] == s[i..];
    SameAbove(now, s, i);
    AtLaws(0, 0, i);
    AtLaws(0, 0, |s|);
  }

  lemma AddStep(below: seq<Limb>, s: seq<Limb>, i: nat, sum: Limb, carry: Limb, overflow: bool)
    requires |below| == i < |s|
    requires sum as nat + (if overflow then BASE else 0) == s[i] as nat + carry as nat
    ensures var c := if overflow then 1 else 0;
      Value(below + [sum]) + At(c, i + 1) - Value(s[..i + 1]) == Value(below) + At(carry as nat, i) - Value(s[..i])
  {
    var c := if overflow then 1 else 0;
    ValuePush(below, sum);
    ValueNext(s, i);
    AtLaws(s[i] as nat, carry as nat, i);
    AtLaws(sum as nat, BASE * c, i);
    AtLaws(c, 0, i);
  }

  lemma ValueFits(s: seq<Limb>, room: nat)
    requires |s| <= room
    ensures Value(s) < Place(room)
  {
    ValueBelow(s);
    PlaceGrows(|s|, room);
  }

  lemma MulStart(s: seq<Limb>, y: Limb)
    ensures Value([]) == 0 && At(0, 0) == 0 && Value(s[..0]) == 0 && Value(s[..0]) * y as nat == 0
  {
    assert s[..0] == [];
  }

  lemma MulSum(below: seq<Limb>, i: nat, low: Limb, high: Limb, carry: nat, p: nat)
    requires |below| == i && low as nat + BASE * (high as nat) == p + carry
    ensures Value(below + [low]) + At(high as nat, i + 1) == Value(below) + At(p, i) + At(carry, i)
  {
    hide Value, At, Place;
    ValuePush(below, low);
    AtLaws(low as nat, BASE * (high as nat), i);
    AtLaws(high as nat, 0, i);
    AtLaws(p, carry, i);
  }

  lemma MulNext(s: seq<Limb>, i: nat, y: nat)
    requires i < |s|
    ensures Value(s[..i + 1]) * y == Value(s[..i]) * y + At(s[i] as nat * y, i)
  {
    ValueNext(s, i);
    AtTimes(s[i] as nat, y, i);
    Distribute(Value(s[..i]), At(s[i] as nat, i), y);
  }

  lemma NotBothZero(d: nat, y: nat, carry: nat, low: Limb, high: Limb)
    requires low as nat + BASE * (high as nat) == d * y + carry && d > 0 && y > 0
    ensures high != 0 || low != 0
  {
    Ordered(1, d, y);
  }

  lemma MulStep(below: seq<Limb>, s: seq<Limb>, i: nat, low: Limb, high: Limb, carry: Limb, y: nat)
    requires |below| == i < |s|
    requires low as nat + BASE * (high as nat) == s[i] as nat * y + carry as nat
    requires Value(below) + At(carry as nat, i) == Value(s[..i]) * y
    ensures Value(below + [low]) + At(high as nat, i + 1) == Value(s[..i + 1]) * y
    ensures s[i] != 0 && y != 0 ==> high != 0 || low != 0
  {
    hide *;
    MulSum(below, i, low, high, carry as nat, s[i] as nat * y);
    MulNext(s, i, y);
    if s[i] != 0 && y != 0 { NotBothZero(s[i] as nat, y, carry as nat, low, high); }
  }

  lemma AtTimes(d: nat, y: nat, k: nat)
    ensures At(d * y, k) == At(d, k) * y
  {
    Swap(d, y, Place(k));
  }

  lemma AddAllStart(ys: seq<Limb>, start: nat)
    ensures At(0, start) == 0 && At(Value(ys[..0]), start) == 0
  {
    assert ys[..0] == [];
  }

  lemma AddAllStep(below: seq<Limb>, s: seq<Limb>, ys: seq<Limb>, i: nat, start: nat, sum: Limb, carry: nat, over: bool)
    requires |below| == start + i < |s| && i < |ys|
    requires sum as nat + (if over then BASE else 0) == s[start + i] as nat + ys[i] as nat + carry
    requires Value(below) + At(carry, start + i) == Value(s[..start + i]) + At(Value(ys[..i]), start)
    ensures Value(below + [sum]) + At(if over then 1 else 0, start + i + 1)
      == Value(s[..start + i + 1]) + At(Value(ys[..i + 1]), start)
  {
    var c := if over then 1 else 0;
    var k := start + i;
    hide *;
    ValuePush(below, sum);
    ValueNext(s, k);
    ValueNext(ys, i);
    AtLaws(s[k] as nat + ys[i] as nat, carry, k);
    AtLaws(s[k] as nat, ys[i] as nat, k);
    AtLaws(sum as nat, BASE * c, k);
    AtLaws(c, 0, k);
    AtLaws(Value(ys[..i]), At(ys[i] as nat, i), start);
    AtTwice(ys[i] as nat, i, start);
  }

  lemma AtTwice(d: nat, i: nat, start: nat)
    ensures At(At(d, i), start) == At(d, start + i)
  {
    PlaceAdd(i, start);
    Associate(d, Place(i), Place(start));
  }

  lemma SumEnd(now: seq<Limb>, s: seq<Limb>, i: nat, carry: nat, extra: nat)
    requires |now| == |s| && i <= |s| && forall j | i <= j < |s| :: now[j] == s[j]
    requires Value(now[..i]) + At(carry, i) == Value(s[..i]) + extra
    ensures Value(now) + At(carry, i) == Value(s) + extra && At(0, i) == 0
  {
    assert now[i..] == s[i..];
    SameAbove(now, s, i);
    AtLaws(0, 0, i);
  }

  lemma {:induction false} PrefixBelow(ys: seq<Limb>, i: nat)
    requires i <= |ys|
    ensures Value(ys[..i]) <= Value(ys)
    decreases |ys| - i
  {
    if i == |ys| {
      assert ys[..i] == ys;
    } else {
      ValueNext(ys, i);
      PrefixBelow(ys, i + 1);
    }
  }

  lemma FirstProduct(z: nat, ys: seq<Limb>)
    requires ys != []
    ensures Value(ys[..1]) == ys[0] as nat && z * ys[0] as nat <= z * Value(ys)
  {
    assert ys[..1] == [ys[0]] && ys[..0] == [];
    ValueNext(ys, 0);
    PrefixBelow(ys, 1);
    assert Place(0) == 1;
    Ordered(ys[0] as nat, Value(ys), z);
  }

  lemma ProductStep(z: nat, v: nat, a: nat)
    ensures z * (v + a) == z * v + z * a
  {}

  lemma ScaledAt(z: nat, d: nat, k: nat)
    ensures At(z * d, k) == z * At(d, k)
  {
    Associate(z, d, Place(k));
  }

  lemma NextProduct(z: nat, ys: seq<Limb>, i: nat)
    requires i < |ys|
    ensures z * Value(ys[..i + 1]) == z * Value(ys[..i]) + At(z * ys[i] as nat, i)
    ensures z * Value(ys[..i + 1]) <= z * Value(ys) && z * ys[i] as nat <= z * Value(ys)
    ensures At(z * ys[i] as nat, i) <= z * Value(ys) && At(0, i) == 0
  {
    hide *;
    var d := ys[i] as nat;
    ValueNext(ys, i);
    PrefixBelow(ys, i + 1);
    ProductStep(z, Value(ys[..i]), At(d, i));
    ScaledAt(z, d, i);
    Ordered(Value(ys[..i + 1]), Value(ys), z);
    AtLeast(d, i);
    Ordered(d, Value(ys), z);
    Ordered(At(d, i), Value(ys), z);
    AtLaws(0, 0, i);
  }

  lemma AtLeast(d: nat, i: nat)
    ensures d <= At(d, i)
  {
    Ordered(1, Place(i), d);
  }

  // How many limbs a number of n limbs has after a change that may carry.
  ghost function Widened(n: nat, total: int): nat {
    if total >= Place(n) then n + 1 else n
  }

  lemma NotWidened(f: nat)
    ensures Widened(0, 0 * f) == 0
  {
    assert Place(0) == 1;
  }

  // The product of z, in n limbs, and limb i of ys has room at its place.
  ghost predicate RoomAt(n: nat, z: nat, ys: seq<Limb>, i: nat)
    requires i < |ys|
  {
    ys[i] != 0 ==> i + Widened(n, z * ys[i] as nat) <= LIMB_COUNT
  }

  ghost predicate Roomy(n: nat, z: nat, ys: seq<Limb>) {
    forall i | 0 <= i < |ys| :: RoomAt(n, z, ys, i)
  }

  lemma RoomIs(n: nat, z: nat, ys: seq<Limb>, i: nat)
    requires i < |ys|
    ensures RoomAt(n, z, ys, i) <==> ys[i] == 0 || i + Widened(n, z * ys[i] as nat) <= LIMB_COUNT
    ensures ys[i] == 0 ==> z * ys[i] as nat == 0
  {}

  // A product that fits leaves room for each of its parts.
  lemma RoomyIfFits(zs: seq<Limb>, ys: seq<Limb>, room: nat)
    requires Normalized(zs) && zs != [] && room == LIMB_COUNT
    ensures Value(zs) * Value(ys) < Place(room) ==> Roomy(|zs|, Value(zs), ys)
  {
    hide Value, At, Place, RoomAt;
    var z := Value(zs);
    NormalizedAtLeast(zs);
    forall i | 0 <= i < |ys| && z * Value(ys) < Place(room)
      ensures RoomAt(|zs|, z, ys, i)
    {
      NextProduct(z, ys, i);
      RoomIs(|zs|, z, ys, i);
      var v := z * ys[i] as nat;
      if ys[i] != 0 {
        AtLeastTimes(z, ys[i] as nat);
        if i + Widened(|zs|, v) > room { WideAt(v, Widened(|zs|, v), i, room); }
      }
    }
  }

  lemma AtLeastTimes(z: nat, d: nat)
    requires d > 0
    ensures z * d >= z
  {}

  // Zero has room wherever ys has.
  lemma ZeroIsRoomy(ys: seq<Limb>)
    ensures |ys| <= LIMB_COUNT ==> Roomy(0, 0, ys) && 0 * Value(ys) < Place(LIMB_COUNT)
  {
    hide Value, At, Place;
    forall i | 0 <= i < |ys| && |ys| <= LIMB_COUNT
      ensures RoomAt(0, 0, ys, i)
    {
      NotWidened(ys[i] as nat);
    }
    ValueFits([], LIMB_COUNT);
    NoLimbs([]);
  }

  lemma WideAt(v: nat, n: nat, i: nat, room: nat)
    requires n > 0 && v >= Place(n - 1) && n + i > room
    ensures At(v, i) >= Place(room)
  {
    PlaceAdd(n - 1, i);
    Ordered(Place(n - 1), v, Place(i));
    PlaceGrows(room, n - 1 + i);
  }

  lemma OneLimb(ys: seq<Limb>)
    requires |ys| == 1
    ensures Value(ys) == ys[0] as nat
  {
    assert ys[..0] == [] && Place(0) == 1;
  }

  lemma NoLimbs(s: seq<Limb>)
    ensures s == [] ==> Value(s) == 0
  {}

  // ---- shifts of one limb -------------------------------------------------

  // The bits of x that leave a limb shifted left by n.
  function ShiftedOut(x: Limb, n: nat): Limb
    requires 0 < n < 64
  {
    Pow2Cut(n);
    QuotientSmall(x as nat, Pow2(64 - n));
    (x as nat / Pow2(64 - n)) as Limb
  }

  // x shifted left by n, with the bits that left the limb before it.
  function ShiftedIn(x: Limb, prev: Limb, n: nat): (low: Limb)
    requires 0 < n < 64
    ensures low as nat + BASE * (ShiftedOut(x, n) as nat) == x as nat * Pow2(n) + ShiftedOut(prev, n) as nat
  {
    Pow2Cut(n);
    ShiftFits(x as nat, prev as nat, Pow2(n), Pow2(64 - n));
    (x as nat * Pow2(n) % BASE + ShiftedOut(prev, n) as nat) as Limb
  }

  lemma Pow2Cut(n: nat)
    requires n <= 64
    ensures Pow2(n) * Pow2(64 - n) == BASE
  {
    Pow2Add(n, 64 - n);
    Pow2Of64();
  }

  lemma ShiftFits(x: nat, prev: nat, s: nat, r: nat)
    requires x < BASE && prev < BASE && s * r == BASE && s > 0 && r > 0
    ensures x * s % BASE + prev / r < BASE
    ensures x * s % BASE + BASE * (x / r) == x * s
  {
    ShiftSplit(x, s, r);
    QuotientBelow(prev, r, s);
  }

  lemma ShiftSplit(x: nat, s: nat, r: nat)
    requires s * r == BASE && s > 0 && r > 0
    ensures x * s % BASE == x % r * s && x % r * s + s <= BASE && x * s == x / r * BASE + x % r * s
  {
    var q, m := x / r, x % r;
    assert x == q * r + m;
    Distribute(q * r, m, s);
    Associate(q, r, s);
    assert r * s == BASE;
    Ordered(m + 1, r, s);
    Distribute(m, 1, s);
    Remainder(x * s, q, m * s);
  }

  lemma Remainder(a: nat, q: nat, m: nat)
    requires a == q * BASE + m && m < BASE
    ensures a % BASE == m
  {
    DivIs(a, BASE, q, m);
  }

  lemma NoBits(n: nat)
    requires 0 < n < 64
    ensures ShiftedOut(0, n) == 0
  {}

  lemma ShiftStart(s: seq<Limb>, n: nat)
    ensures Value(s[..0]) * Pow2(n) == 0
  {
    assert s[..0] == [];
  }

  // ---- shifts by limbs ----------------------------------------------------

  lemma ShiftedValue(now: seq<Limb>, n: nat)
    requires n <= |now| && forall j | 0 <= j < n :: now[..n][j] == 0
    ensures Value(now) == At(Value(now[n..]), n)
  {
    ValueSplit(now, n);
    ValueZeros(now[..n]);
  }

  lemma {:induction false} PlaceIsPow2(k: nat)
    ensures Place(k) == Pow2(64 * k)
  {
    if k != 0 {
      PlaceIsPow2(k - 1);
      Pow2Add(64, 64 * (k - 1));
      Pow2Of64();
    }
  }

  lemma ShiftParts(z: nat, n: nat)
    ensures At(z * Pow2(n % 64), n / 64) == z * Pow2(n)
    ensures n % 64 == 0 ==> z * Pow2(n % 64) == z
    ensures n / 64 == 0 ==> n % 64 == n
    ensures z * Pow2(n % 64) <= z * Pow2(n)
  {
    var r, d := n % 64, n / 64;
    PlaceIsPow2(d);
    Pow2Add(r, 64 * d);
    Associate(z, Pow2(r), Place(d));
    assert Pow2(0) == 1;
    AtLeast(z * Pow2(r), d);
  }

  // A normalized number other than zero is too wide to shift exactly when the
  // result is.
  lemma ShiftFitsExactly(s: seq<Limb>, n: nat, room: nat)
    requires s != [] && Normalized(s)
    ensures n / 64 + Widened(|s|, Value(s) * Pow2(n % 64)) <= room <==> Value(s) * Pow2(n) < Place(room)
  {
    hide Value, At, Place;
    var v, w := Value(s) * Pow2(n % 64), Widened(|s|, Value(s) * Pow2(n % 64));
    ShiftParts(Value(s), n);
    NormalizedAtLeast(s);
    AtLeastTimes(Value(s), Pow2(n % 64));
    if n / 64 + w > room {
      WideAt(v, w, n / 64, room);
    } else {
      ShiftedBelow(s, n % 64);
      AtBelow(v, w, n / 64);
      PlaceGrows(n / 64 + w, room);
    }
  }

  lemma ShiftedBelow(s: seq<Limb>, r: nat)
    requires r < 64
    ensures Value(s) * Pow2(r) < Place(Widened(|s|, Value(s) * Pow2(r)))
  {
    hide Value;
    ValueBelow(s);
    Pow2Cut(r);
    TimesBelow(Value(s), Place(|s|), Pow2(r), Pow2(64 - r));
  }

  lemma TimesBelow(v: nat, p: nat, q: nat, c: nat)
    requires v < p && q > 0 && c > 0 && q * c == BASE
    ensures v * q < BASE * p
  {
    Ordered(v + 1, p, q);
    Ordered(1, c, p * q);
    assert p * q * c == p * (q * c);
  }

  lemma AtBelow(v: nat, w: nat, k: nat)
    requires v < Place(w)
    ensures At(v, k) < Place(k + w)
  {
    PlaceAdd(w, k);
    Ordered(v + 1, Place(w), Place(k));
  }

  // ---- order --------------------------------------------------------------

  lemma MoreLimbs(a: seq<Limb>, b: seq<Limb>)
    requires Normalized(a) && |a| > |b|
    ensures Value(a) > Value(b)
  {
    hide Value, Place;
    NormalizedAtLeast(a);
    ValueBelow(b);
    PlaceGrows(|b|, |a| - 1);
  }

  lemma LargerLimb(a: seq<Limb>, b: seq<Limb>, i: nat)
    requires |a| == |b| && i < |a| && a[i + 1..] == b[i + 1..] && a[i] > b[i]
    ensures Value(a) > Value(b)
  {
    hide Value, At, Place;
    SameAbove(a, b, i + 1);
    ValueNext(a, i);
    ValueNext(b, i);
    ValueBelow(b[..i]);
    AtLaws(b[i] as nat + 1, a[i] as nat - b[i] as nat - 1, i);
    AtLaws(b[i] as nat, 1, i);
  }

  lemma {:induction false} NonzeroLimb(s: seq<Limb>, i: nat)
    requires i < |s| && s[i] != 0
    ensures Value(s) != 0
    decreases |s|
  {
    var n := |s| - 1;
    if i == n {
      AtLaws(s[n] as nat, 0, n);
    } else {
      NonzeroLimb(s[..n], i);
    }
  }

  // ---- the top bits -------------------------------------------------------

  function LeadingZeros(x: Limb): (n: nat)
    ensures n <= 64
  {
    if x == 0 then 64 else ZerosBefore(x as nat)
  }

  function ZerosBefore(x: nat): (n: nat)
    requires 0 < x < BASE
    ensures n < 64 && BASE / 2 <= x * Pow2(n) < BASE
    decreases BASE - x
  {
    if x >= BASE / 2 then
      assert Pow2(0) == 1;
      0
    else
      var n := ZerosBefore(2 * x);
      ZerosStep(x, n);
      n + 1
  }

  lemma ZerosStep(x: nat, n: nat)
    requires x > 0 && n < 64 && 2 * x * Pow2(n) < BASE
    ensures x * Pow2(n + 1) == 2 * x * Pow2(n) && n + 1 < 64
  {
    assert x * (2 * Pow2(n)) == 2 * x * Pow2(n);
    Pow2Of64();
    Ordered(1, x, Pow2(n + 1));
    Pow2Below(n + 1, 64);
  }

  lemma Pow2Below(a: nat, b: nat)
    requires Pow2(a) < Pow2(b)
    ensures a < b
  {
    if b <= a { Pow2Grows(b, a); }
  }

  lemma LeadingBit(x: Limb)
    requires x != 0
    ensures LeadingZeros(x) < 64 && BASE / 2 <= x as nat * Pow2(LeadingZeros(x)) < BASE
    ensures LeadingZeros(x) == 0 ==> x as nat * Pow2(LeadingZeros(x)) == x as nat
  {
    assert Pow2(0) == 1;
  }

  // The top 64 bits of one limb.
  method HiOfOne(r0: Limb) returns (bits: nat)
    requires r0 != 0
    ensures BASE / 2 <= bits < BASE && bits == r0 as nat * Pow2(LeadingZeros(r0))
  {
    LeadingBit(r0);
    bits := r0 as nat * Pow2(LeadingZeros(r0));
  }

  // The top 64 bits of two limbs, and whether the second loses any.
  method HiOfTwo(r0: Limb, r1: Limb) returns (bits: nat, truncated: bool, ghost low: nat)
    requires r0 != 0
    ensures var f := Pow2(LeadingZeros(r0));
      && BASE / 2 <= bits < BASE && bits == r0 as nat * f + r1 as nat * f / BASE
      && low == r1 as nat * f % BASE && (truncated <==> low != 0) && LeadingZeros(r0) < 64
  {
    hide Pow2, ShiftedIn, LeadingZeros;
    var shl := LeadingZeros(r0);
    LeadingBit(r0);
    if shl == 0 {
      NoShift();
      low := r1 as nat;
      return r0 as nat, r1 != 0, low;
    }
    ShiftedOutIs(r0, shl);
    ShiftedOutIs(r1, shl);
    low := r1 as nat * Pow2(shl) % BASE;
    bits := ShiftedIn(r0, r1, shl) as nat;
    truncated := r1 as nat * Pow2(shl) % BASE != 0;
  }

  lemma TopOfOne(s: seq<Limb>, shl: nat)
    requires |s| == 1
    ensures Value(s) == s[0] as nat && Place(0) == 1
    ensures Value(s) * Pow2(shl) / Place(0) == s[0] as nat * Pow2(shl) && Value(s) * Pow2(shl) % Place(0) == 0
  {
    OneLimb(s);
  }

  lemma TopOfMany(s: seq<Limb>, shl: nat, f: nat, x: nat, y: nat, low: nat)
    requires |s| >= 2 && shl < 64 && f == Pow2(shl)
    requires x == s[|s| - 1] as nat * f && y == s[|s| - 2] as nat * f && low == y % BASE
    ensures var shifted := Value(s) * f;
      && x + y / BASE == shifted / Place(|s| - 1)
      && (shifted % Place(|s| - 1) != 0 <==> low != 0 || Value(s[..|s| - 2]) != 0)
  {
    hide *;
    TopLimbs(s);
    LowRoom(s[|s| - 2], shl, low);
    TopDivides(Value(s[..|s| - 2]), s[|s| - 2] as nat, s[|s| - 1] as nat, |s| - 2, f, x, y, low, y / BASE, Value(s));
  }

  lemma TopLimbs(s: seq<Limb>)
    requires |s| >= 2
    ensures var n, w := |s|, Value(s[..|s| - 2]);
      Value(s) == w + At(s[n - 2] as nat, n - 2) + At(s[n - 1] as nat, n - 1) && w < Place(n - 2)
  {
    hide *;
    var n := |s|;
    ValueNext(s, n - 2);
    ValueNext(s, n - 1);
    assert s[..n] == s;
    ValueBelow(s[..n - 2]);
  }

  lemma TopDivides(w: nat, r1: nat, r0: nat, k: nat, f: nat, x: nat, y: nat, low: nat, high: nat, v: nat)
    requires v == w + At(r1, k) + At(r0, k + 1) && x == r0 * f && y == r1 * f && low == y % BASE && high == y / BASE
    requires low + f <= BASE && w < Place(k) && f > 0
    ensures v * f / Place(k + 1) == x + high
    ensures v * f % Place(k + 1) != 0 <==> low != 0 || w != 0
  {
    hide *;
    HalvesOf(y);
    TopSum(w, r1, r0, k, f, low, high);
    RestBelow(w, low, k, f);
    DivIs(v * f, Place(k + 1), x + high, At(low, k) + w * f);
  }

  lemma HalvesOf(y: nat)
    ensures y == y % BASE + BASE * (y / BASE)
  {}

  lemma TopSum(w: nat, r1: nat, r0: nat, k: nat, f: nat, low: nat, high: nat)
    requires r1 * f == low + BASE * high
    ensures (w + At(r1, k) + At(r0, k + 1)) * f == (r0 * f + high) * Place(k + 1) + (At(low, k) + w * f)
  {
    hide *;
    ShiftedSum(w, r1, r0, k, f);
    AtLaws(low, BASE * high, k);
    AtLaws(high, 0, k);
    AtLaws(r0 * f, high, k + 1);
    AtIsProduct(r0 * f + high, k + 1);
  }

  lemma AtIsProduct(d: nat, k: nat)
    ensures At(d, k) == d * Place(k)
  {}

  lemma ShiftedSum(w: nat, r1: nat, r0: nat, k: nat, f: nat)
    ensures (w + At(r1, k) + At(r0, k + 1)) * f == w * f + At(r1 * f, k) + At(r0 * f, k + 1)
  {
    hide *;
    AtTimes(r1, f, k);
    AtTimes(r0, f, k + 1);
    Distribute(w + At(r1, k), At(r0, k + 1), f);
    Distribute(w, At(r1, k), f);
  }

  lemma LowRoom(r: Limb, shl: nat, low: nat)
    requires shl < 64 && low == r as nat * Pow2(shl) % BASE
    ensures low + Pow2(shl) <= BASE
  {
    Pow2Cut(shl);
    ShiftSplit(r as nat, Pow2(shl), Pow2(64 - shl));
  }

  lemma RestBelow(w: nat, low: nat, k: nat, f: nat)
    requires w < Place(k) && low + f <= BASE && f > 0
    ensures At(low, k) + w * f < Place(k + 1)
    ensures At(low, k) + w * f != 0 <==> low != 0 || w != 0
  {
    Ordered(w + 1, Place(k), f);
    Distribute(w, 1, f);
    AtLaws(low, f, k);
    AtLaws(low + f, BASE - low - f, k);
    AtLaws(low, 0, k);
    if w != 0 { Ordered(1, w, f); }
  }

  // The bits that leave one limb are the high half of its product.
  lemma ShiftedOutIs(x: Limb, n: nat)
    requires 0 < n < 64
    ensures ShiftedOut(x, n) as nat == x as nat * Pow2(n) / BASE
  {
    hide *;
    Pow2Cut(n);
    ShiftedOutParts(x, n);
    ShiftSplit(x as nat, Pow2(n), Pow2(64 - n));
    Quotient(x as nat * Pow2(n), x as nat / Pow2(64 - n), x as nat % Pow2(64 - n) * Pow2(n));
  }

  lemma ShiftedOutParts(x: Limb, n: nat)
    requires 0 < n < 64
    ensures ShiftedOut(x, n) as nat == x as nat / Pow2(64 - n) && x as nat % Pow2(64 - n) >= 0
  {
    hide Pow2;
  }

  lemma Quotient(a: nat, q: nat, m: nat)
    requires a == q * BASE + m && m < BASE
    ensures a / BASE == q
  {
    DivIs(a, BASE, q, m);
  }

  // ---- powers of five -----------------------------------------------------

  function Five(n: nat): (p: nat)
    ensures p > 0
  {
    if n == 0 then 1 else 5 * Five(n - 1)
  }

  lemma NoShift()
    ensures Pow2(0) == 1
  {}

  lemma {:induction false} FiveAdd(a: nat, b: nat)
    ensures Five(a + b) == Five(a) * Five(b)
  {
    if b != 0 {
      FiveAdd(a, b - 1);
      assert Five(a) * (5 * Five(b - 1)) == 5 * (Five(a) * Five(b - 1));
    }
  }

  lemma FivePart(z: nat, e: nat, k: nat)
    requires k <= e
    ensures z * Five(e) == (z * Five(k)) * Five(e - k) && Five(0) == 1
    ensures z * Five(k) <= z * Five(e) && (z > 0 ==> z * Five(k) > 0)
  {
    FiveAdd(k, e - k);
    Associate(z, Five(k), Five(e - k));
    Ordered(1, Five(e - k), z * Five(k));
    if z > 0 { Ordered(1, Five(k), z); }
  }

  lemma TenParts(z: nat, e: nat)
    ensures (z * Five(e)) * Pow2(e) == z * (Five(e) * Pow2(e))
    ensures z * Five(e) <= z * (Five(e) * Pow2(e)) && (z > 0 ==> z * Five(e) > 0)
  {
    Associate(z, Five(e), Pow2(e));
    Ordered(1, Pow2(e), z * Five(e));
    if z > 0 { Ordered(1, Five(e), z); }
  }

  const LARGE_POWER: seq<Limb> :=
    [1414648277510068013, 9180637584431281687, 4539964771860779200, 10482974169319127550, 198276706040285095]

  const SMALL_POWERS: seq<Limb> :=
    [1, 5, 25, 125, 625, 3125, 15625, 78125, 390625, 1953125, 9765625, 48828125, 244140625, 1220703125, 6103515625,
     30517578125, 152587890625, 762939453125, 3814697265625, 19073486328125, 95367431640625, 476837158203125,
     2384185791015625, 11920928955078125, 59604644775390625, 298023223876953125, 1490116119384765625,
     7450580596923828125]

  function Ten(n: nat): (p: nat)
    ensures p > 0
  {
    if n == 0 then 1 else 10 * Ten(n - 1)
  }

  lemma {:induction false} TenAdd(a: nat, b: nat)
    ensures Ten(a + b) == Ten(a) * Ten(b)
  {
    if b != 0 {
      TenAdd(a, b - 1);
      assert Ten(a) * (10 * Ten(b - 1)) == 10 * (Ten(a) * Ten(b - 1));
    }
  }

  lemma {:induction false} FiveTwoIsTen(n: nat)
    ensures Five(n) * Pow2(n) == Ten(n)
  {
    if n != 0 {
      FiveTwoIsTen(n - 1);
      assert (5 * Five(n - 1)) * (2 * Pow2(n - 1)) == 10 * (Five(n - 1) * Pow2(n - 1));
    }
  }

  lemma {:induction false} TenGrows(a: nat, b: nat)
    requires a <= b
    ensures Ten(a) <= Ten(b)
    decreases b
  {
    if a < b { TenGrows(a, b - 1); }
  }

  // Nineteen decimal digits go into one limb.
  lemma {:induction false} TenBelowPlace(k: nat)
    ensures Ten(19 * k) <= Place(k)
  {
    if k != 0 {
      TenBelowPlace(k - 1);
      TenAdd(19 * (k - 1), 19);
      TenOf19();
      hide Ten;
      Ordered(Ten(19 * (k - 1)), Place(k - 1), BASE);
      Ordered(Ten(19), BASE, Ten(19 * (k - 1)));
    }
  }

  lemma TenOf19()
    ensures Ten(19) == 1_00000_00000_00000_0000 <= BASE
  {
    TenAdd(5, 5);
    TenAdd(10, 5);
    TenAdd(15, 4);
    assert Ten(5) == 100000 && Ten(4) == 10000 by { assert Ten(1) == 10 && Ten(2) == 100 && Ten(3) == 1000; }
  }

  // The buffer is large enough for 767 digits times the largest power of ten.
  lemma LargestFits(z: nat, n: nat)
    ensures forall d: nat | d + n <= 767 + 342 && z < Ten(d) :: z * (Five(n) * Pow2(n)) < Place(LIMB_COUNT)
  {
    hide *;
    FiveTwoIsTen(n);
    forall d: nat | d + n <= 767 + 342 && z < Ten(d) ensures z * Ten(n) < Place(LIMB_COUNT) { TenFits(z, d, n); }
  }

  lemma TenFits(z: nat, d: nat, n: nat)
    requires d + n <= 767 + 342 && z < Ten(d)
    ensures z * Ten(n) < Place(LIMB_COUNT)
  {
    PlaceGrows(59, LIMB_COUNT);
    hide *;
    TenAdd(d, n);
    TenGrows(d + n, 19 * 59);
    TenBelowPlace(59);
    BelowProduct(z, Ten(d), Ten(n));
  }

  lemma BelowProduct(z: nat, a: nat, p: nat)
    requires z < a && p > 0
    ensures z * p < a * p
  {
    Ordered(z + 1, a, p);
    Distribute(z, 1, p);
  }

  // The table of small powers is right.
  // An entry of the table.
  function PowerOf(e: nat): Limb
    requires e < 28
  {
    SMALL_POWERS[e]
  }

  lemma PowerIsFive(e: nat)
    requires e < 28
    ensures PowerOf(e) as nat == Five(e) && PowerOf(e) != 0
  {
    hide Five;
    SmallPower(e);
  }

  lemma {:induction false} SmallPower(e: nat)
    requires e < 28
    ensures SMALL_POWERS[e] as nat == Five(e)
  {
    if e > 0 {
      SmallPower(e - 1);
      assert Five(e) == 5 * Five(e - 1);
      assert SMALL_POWERS[e] as nat == 5 * SMALL_POWERS[e - 1] as nat;
    }
  }

  // And so is the large one.
  lemma LargePower()
    ensures Value(LARGE_POWER) == Five(135)
  {
    FiveOf108();
    SmallPower(27);
    FiveAdd(108, 27);
    LargeValue();
  }

  lemma FiveOf54()
    ensures Five(54) == 55511151231257827021181583404541015625
  {
    SmallPower(27);
    FiveAdd(27, 27);
  }

  lemma FiveOf108()
    ensures Five(108) == 3081487911019577364889564708135883709660962637144621112383902072906494140625
  {
    FiveOf54();
    FiveAdd(54, 54);
  }

  lemma LargeValue()
    ensures Value(LARGE_POWER) ==
      1414648277510068013 + 9180637584431281687 * BASE + 4539964771860779200 * (BASE * BASE)
      + 10482974169319127550 * (BASE * BASE * BASE) + 198276706040285095 * (BASE * BASE * BASE * BASE)
  {
    var s := LARGE_POWER;
    assert s[..5] == s && s[..0] == [];
    ValueNext(s, 0);
    ValueNext(s, 1);
    ValueNext(s, 2);
    ValueNext(s, 3);
    ValueNext(s, 4);
    assert Place(0) == 1 && Place(1) == BASE && Place(2) == BASE * BASE;
    assert Place(3) == BASE * BASE * BASE && Place(4) == BASE * BASE * BASE * BASE;
  }
}
