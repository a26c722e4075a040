// Hexadecimal floating-point numbers as they are written down.
module HexText {
  import opened Bytes
  import opened Float64

  // The digits in the order of what they are worth, in either case.
  const DIGITS: string := "0123456789abcdef"
  const CAPITALS: string := "0123456789ABCDEF"

  ghost predicate Is(b: Byte, c: char) {
    b as int == c as int
  }

  ghost predicate StandsFor(b: Byte, i: int) {
    0 <= i < 16 && (Is(b, DIGITS[i]) || Is(b, CAPITALS[i]))
  }

  // What a byte is worth as a digit, or -1.
  ghost function Worth(b: Byte): (w: int)
    ensures -1 <= w < 16
  {
    if exists i :: StandsFor(b, i) then
      var i :| StandsFor(b, i);
      i
    else -1
  }

  ghost predicate DigitsBelow(t: seq<Byte>, base: nat) {
    forall i | 0 <= i < |t| :: 0 <= Worth(t[i]) < base
  }

  // The number digits stand for in a base.
  ghost function Number(t: seq<Byte>, base: nat): int {
    if t == [] then 0 else base * Number(t[..|t| - 1], base) + Worth(t[|t| - 1])
  }

  // The pieces of a number written behind 0x, in order.
  datatype Pieces = Pieces(whole: seq<Byte>, point: seq<Byte>, fraction: seq<Byte>,
    marker: Byte, sign: seq<Byte>, power: seq<Byte>)

  ghost function Joined(p: Pieces): seq<Byte> {
    p.whole + p.point + p.fraction + [p.marker] + p.sign + p.power
  }

  ghost predicate Legal(p: Pieces) {
    && DigitsBelow(p.whole, 16) && DigitsBelow(p.fraction, 16) && p.whole + p.fraction != []
    && (p.point == p.fraction == [] || (|p.point| == 1 && Is(p.point[0], '.')))
    && (Is(p.marker, 'p') || Is(p.marker, 'P'))
    && (p.sign == [] || (|p.sign| == 1 && (Is(p.sign[0], '+') || Is(p.sign[0], '-'))))
    && DigitsBelow(p.power, 10) && p.power != []
  }

  ghost function Power(p: Pieces): int
    requires Legal(p)
  {
    if p.sign != [] && Is(p.sign[0], '-') then -Number(p.power, 10) else Number(p.power, 10)
  }

  // The digits as one number in base 16, a sixteenth for each digit behind the
  // point, times two to the power.
  ghost function Meaning(p: Pieces): real
    requires Legal(p)
  {
    Times(Number(p.whole + p.fraction, 16) as real, Exp2(Power(p) - 4 * |p.fraction|))
  }

  lemma WorthIs(b: Byte, i: int)
    requires StandsFor(b, i)
    ensures Worth(b) == i
  {
    hide StandsFor;
    forall j | StandsFor(b, j) ensures j == i { OneWorth(b, i, j); }
  }

  lemma OneWorth(b: Byte, i: int, j: int)
    requires StandsFor(b, i) && StandsFor(b, j)
    ensures i == j
  {}

  // One more digit.
  lemma NumberNext(t: seq<Byte>, b: Byte, base: nat)
    requires DigitsBelow(t, base) && 0 <= Worth(b) < base
    ensures DigitsBelow(t + [b], base) && Number(t + [b], base) == base * Number(t, base) + Worth(b)
  {
    hide Worth;
    assert (t + [b])[..|t|] == t;
  }

  // ---- whole numbers ------------------------------------------------------

  function ByteOf(digit: nat, capital: bool): Byte
    requires digit < 16
  {
    (if capital then CAPITALS[digit] else DIGITS[digit]) as int as Byte
  }

  lemma ByteIsWorth(digit: nat, capital: bool)
    requires digit < 16
    ensures Worth(ByteOf(digit, capital)) == digit
  {
    hide Worth;
    WorthIs(ByteOf(digit, capital), digit);
  }

  function Written(n: nat, capital: bool): seq<Byte> {
    (if n < 16 then [] else Written(n / 16, capital)) + [ByteOf(n % 16, capital)]
  }

  lemma {:induction false} WrittenIsRead(n: nat, capital: bool)
    ensures Written(n, capital) != [] && DigitsBelow(Written(n, capital), 16)
    ensures Number(Written(n, capital), 16) == n
  {
    hide Worth, ByteOf;
    ByteIsWorth(n % 16, capital);
    if n < 16 {
      NumberNext([], ByteOf(n, capital), 16);
      assert [] + [ByteOf(n, capital)] == [ByteOf(n, capital)];
    } else {
      WrittenIsRead(n / 16, capital);
      NumberNext(Written(n / 16, capital), ByteOf(n % 16, capital), 16);
    }
  }

  lemma ZeroPower()
    ensures DigitsBelow([48], 10) && Number([48], 10) == 0
  {
    WorthIs(48, 0);
    hide Worth;
    NumberNext([], 48, 10);
    assert [] + [48 as Byte] == [48];
  }

  // The digits of n followed by p0 mean n.
  lemma WholeNumber(n: nat, capital: bool) returns (p: Pieces)
    ensures Legal(p) && Meaning(p) == n as real
    ensures Joined(p) == Written(n, capital) + [if capital then 80 else 112, 48]
  {
    hide Worth, Written, Exp2, Times;
    p := Pieces(Written(n, capital), [], [], if capital then 80 else 112, [], [48]);
    WrittenIsRead(n, capital);
    ZeroPower();
    OneWhole(n);
    assert p.whole + p.fraction == p.whole;
    assert p.whole + [] + [] + [p.marker] + [] + [48] == p.whole + [p.marker, 48];
  }

  lemma OneWhole(n: nat)
    ensures Times(n as real, Exp2(0)) == n as real
  {}
}
