// The UTF-8 codec: decoding forwards and backwards, encoding and validating
// (sections 3 and 4 of RFC 3629).
module Utf8 {
  import opened Arithmetic
  import opened Bytes
  import opened Options

  // ---- the encoding -------------------------------------------------------

  // The numbers UTF-8 encodes: surrogates are excluded.
  predicate IsScalar(cp: int) {
    0 <= cp <= 0x10ffff && !(0xd800 <= cp <= 0xdfff)
  }

  function Continuation(x: nat): Byte
    requires x < 64
  {
    (128 + x) as Byte
  }

  function Encode(cp: nat): (bs: seq<Byte>)
    requires cp <= 0x10ffff
    ensures 1 <= |bs| <= 4
  {
    if cp <= 0x7f then [cp as Byte]
    else if cp <= 0x7ff then [(192 + cp / 64) as Byte, Continuation(cp % 64)]
    else if cp <= 0xffff then
      [(224 + cp / 4096) as Byte, Continuation(cp / 64 % 64), Continuation(cp % 64)]
    else
      [(240 + cp / 262144) as Byte, Continuation(cp / 4096 % 64), Continuation(cp / 64 % 64), Continuation(cp % 64)]
  }

  predicate AllScalars(cps: seq<nat>) {
    forall i | 0 <= i < |cps| :: IsScalar(cps[i])
  }

  function EncodeAll(cps: seq<nat>): seq<Byte>
    requires AllScalars(cps)
  {
    if cps == [] then [] else assert IsScalar(cps[0]); Encode(cps[0]) + EncodeAll(cps[1..])
  }

  // The encoding of cp stands at offset o.
  ghost predicate Starts(bs: seq<Byte>, o: nat, cp: int) {
    IsScalar(cp) && StandsAt(bs, o, Encode(cp))
  }

  ghost predicate StandsAt(bs: seq<Byte>, o: nat, e: seq<Byte>) {
    o + |e| <= |bs| && forall i | 0 <= i < |e| :: e[i] == bs[o + i]
  }

  // From o to the end the bytes are encodings of scalars.
  ghost predicate ValidFrom(bs: seq<Byte>, o: nat)
    decreases |bs| - o
  {
    o == |bs| || exists cp: nat :: Starts(bs, o, cp) && ValidFrom(bs, o + |Encode(cp)|)
  }

  // ---- the well-formed sequences, byte by byte ----------------------------

  predicate IsContinuation(b: Byte) {
    128 <= b <= 191
  }

  predicate Two(a: Byte, b: Byte) {
    0xc2 <= a <= 0xdf && IsContinuation(b)
  }

  predicate Three(a: Byte, b: Byte, c: Byte) {
    0xe0 <= a <= 0xef && IsContinuation(b) && IsContinuation(c) && (a == 0xe0 ==> b >= 0xa0)
      && (a == 0xed ==> b <= 0x9f)
  }

  predicate Four(a: Byte, b: Byte, c: Byte, d: Byte) {
    && 0xf0 <= a <= 0xf4 && IsContinuation(b) && IsContinuation(c) && IsContinuation(d)
    && (a == 0xf0 ==> b >= 0x90) && (a == 0xf4 ==> b <= 0x8f)
  }

  // A well-formed sequence of n bytes stands at o.
  predicate SequenceAt(bs: seq<Byte>, o: nat, n: nat) {
    && o + n <= |bs|
    && match n
       case 1 => bs[o] <= 0x7f
       case 2 => Two(bs[o], bs[o + 1])
       case 3 => Three(bs[o], bs[o + 1], bs[o + 2])
       case 4 => Four(bs[o], bs[o + 1], bs[o + 2], bs[o + 3])
       case _ => false
  }

  function ValueAt(bs: seq<Byte>, o: nat, n: nat): nat
    requires 1 <= n <= 4 && o + n <= |bs|
  {
    var a := bs[o] as nat;
    if n == 1 then a
    else if n == 2 then a % 32 * 64 + bs[o + 1] as nat % 64
    else if n == 3 then (a % 16 * 64 + bs[o + 1] as nat % 64) * 64 + bs[o + 2] as nat % 64
    else ((a % 8 * 64 + bs[o + 1] as nat % 64) * 64 + bs[o + 2] as nat % 64) * 64 + bs[o + 3] as nat % 64
  }

  // A well-formed sequence is the encoding of its value.
  lemma SequenceStarts(bs: seq<Byte>, o: nat, n: nat)
    requires SequenceAt(bs, o, n)
    ensures Starts(bs, o, ValueAt(bs, o, n)) && |Encode(ValueAt(bs, o, n))| == n
  {
    hide Encode, Two, Three, Four, IsScalar, ValueAt, StandsAt;
    match n
    case 1 => StartsOne(bs, o);
    case 2 => StartsTwo(bs, o);
    case 3 => StartsThree(bs, o);
    case 4 => StartsFour(bs, o);
  }

  lemma StartsOne(bs: seq<Byte>, o: nat)
    requires o + 1 <= |bs| && bs[o] <= 0x7f
    ensures Starts(bs, o, ValueAt(bs, o, 1)) && |Encode(ValueAt(bs, o, 1))| == 1
  {}

  lemma StartsTwo(bs: seq<Byte>, o: nat)
    requires o + 2 <= |bs| && Two(bs[o], bs[o + 1])
    ensures Starts(bs, o, ValueAt(bs, o, 2)) && |Encode(ValueAt(bs, o, 2))| == 2
  {
    EncodesTwo(bs[o], bs[o + 1]);
    hide Encode, Two, IsScalar;
  }

  lemma StartsThree(bs: seq<Byte>, o: nat)
    requires o + 3 <= |bs| && Three(bs[o], bs[o + 1], bs[o + 2])
    ensures Starts(bs, o, ValueAt(bs, o, 3)) && |Encode(ValueAt(bs, o, 3))| == 3
  {
    EncodesThree(bs[o], bs[o + 1], bs[o + 2]);
    hide Encode, Three, IsScalar;
  }

  lemma StartsFour(bs: seq<Byte>, o: nat)
    requires o + 4 <= |bs| && Four(bs[o], bs[o + 1], bs[o + 2], bs[o + 3])
    ensures Starts(bs, o, ValueAt(bs, o, 4)) && |Encode(ValueAt(bs, o, 4))| == 4
  {
    EncodesFour(bs[o], bs[o + 1], bs[o + 2], bs[o + 3]);
    hide Encode, Four, IsScalar;
  }

  lemma EncodesTwo(a: Byte, b: Byte)
    requires Two(a, b)
    ensures var v := a as nat % 32 * 64 + b as nat % 64;
      IsScalar(v) && Encode(v) == [a, b]
  {
    TwoBytes(a as nat, b as nat);
  }

  lemma EncodesThree(a: Byte, b: Byte, c: Byte)
    requires Three(a, b, c)
    ensures var v := (a as nat % 16 * 64 + b as nat % 64) * 64 + c as nat % 64;
      IsScalar(v) && Encode(v) == [a, b, c]
  {
    ThreeBytes(a as nat, b as nat, c as nat);
  }

  lemma EncodesFour(a: Byte, b: Byte, c: Byte, d: Byte)
    requires Four(a, b, c, d)
    ensures var v := ((a as nat % 8 * 64 + b as nat % 64) * 64 + c as nat % 64) * 64 + d as nat % 64;
      IsScalar(v) && Encode(v) == [a, b, c, d]
  {
    FourBytes(a as nat, b as nat, c as nat, d as nat);
  }

  lemma TwoBytes(a: nat, b: nat)
    requires 0xc2 <= a <= 0xdf && 128 <= b <= 191
    ensures var v := a % 32 * 64 + b % 64;
      0x80 <= v <= 0x7ff && v / 64 == a - 192 && v % 64 == b - 128
  {
    DivIs(a, 32, 6, a - 192);
    DivIs(b, 64, 2, b - 128);
    DivIs((a - 192) * 64 + (b - 128), 64, a - 192, b - 128);
  }

  lemma ThreeBytes(a: nat, b: nat, c: nat)
    requires 0xe0 <= a <= 0xef && 128 <= b <= 191 && 128 <= c <= 191 && (a == 0xe0 ==> b >= 0xa0)
      && (a == 0xed ==> b <= 0x9f)
    ensures var v := (a % 16 * 64 + b % 64) * 64 + c % 64;
      0x800 <= v <= 0xffff && IsScalar(v) && v / 4096 == a - 224 && v / 64 % 64 == b - 128 && v % 64 == c - 128
  {
    DivIs(a, 16, 14, a - 224);
    DivIs(b, 64, 2, b - 128);
    DivIs(c, 64, 2, c - 128);
    Base64(0, a - 224, b - 128, c - 128);
    var v := ((a - 224) * 64 + (b - 128)) * 64 + (c - 128);
    DivIs(v, 4096, a - 224, (b - 128) * 64 + (c - 128));
  }

  lemma FourBytes(a: nat, b: nat, c: nat, d: nat)
    requires 0xf0 <= a <= 0xf4 && 128 <= b <= 191 && 128 <= c <= 191 && 128 <= d <= 191
    requires (a == 0xf0 ==> b >= 0x90) && (a == 0xf4 ==> b <= 0x8f)
    ensures var v := ((a % 8 * 64 + b % 64) * 64 + c % 64) * 64 + d % 64;
      && 0x10000 <= v <= 0x10ffff
      && v / 262144 == a - 240 && v / 4096 % 64 == b - 128 && v / 64 % 64 == c - 128 && v % 64 == d - 128
  {
    FourMods(a, b, c, d);
    Base64(a % 8, b % 64, c % 64, d % 64);
    FourRange(a % 8, b % 64, c % 64, d % 64);
  }

  lemma FourMods(a: nat, b: nat, c: nat, d: nat)
    requires 0xf0 <= a <= 0xf4 && 128 <= b <= 191 && 128 <= c <= 191 && 128 <= d <= 191
    ensures a % 8 == a - 240 && b % 64 == b - 128 && c % 64 == c - 128 && d % 64 == d - 128
  {}

  lemma FourRange(x: nat, y: nat, z: nat, w: nat)
    requires x <= 4 && y < 64 && z < 64 && w < 64 && (x == 0 ==> y >= 16) && (x == 4 ==> y <= 15)
    ensures 0x10000 <= ((x * 64 + y) * 64 + z) * 64 + w <= 0x10ffff
  {}

  lemma Base64(x: nat, y: nat, z: nat, w: nat)
    requires y < 64 && z < 64 && w < 64
    ensures var v := ((x * 64 + y) * 64 + z) * 64 + w;
      v / 262144 == x && v / 4096 % 64 == y && v / 64 % 64 == z && v % 64 == w
  {
    var v := ((x * 64 + y) * 64 + z) * 64 + w;
    DivIs(v, 262144, x, y * 4096 + z * 64 + w);
    DivIs(v, 4096, x * 64 + y, z * 64 + w);
    DivIs(v, 64, (x * 64 + y) * 64 + z, w);
    DivIs(x * 64 + y, 64, x, y);
    DivIs((x * 64 + y) * 64 + z, 64, x * 64 + y, z);
  }

  // The encoding of a scalar is a well-formed sequence of its value.
  lemma StartsSequence(bs: seq<Byte>, o: nat, cp: nat)
    requires Starts(bs, o, cp)
    ensures SequenceAt(bs, o, |Encode(cp)|) && ValueAt(bs, o, |Encode(cp)|) == cp
  {
    EncodingIsSequence(cp);
    var e := Encode(cp);
    hide Encode, Two, Three, Four;
    assert e[0] == bs[o];
    if |e| > 1 { assert e[1] == bs[o + 1]; }
    if |e| > 2 { assert e[2] == bs[o + 2]; }
    if |e| > 3 { assert e[3] == bs[o + 3]; }
  }

  lemma EncodingIsSequence(cp: nat)
    requires IsScalar(cp)
    ensures SequenceAt(Encode(cp), 0, |Encode(cp)|) && ValueAt(Encode(cp), 0, |Encode(cp)|) == cp
  {
    if cp > 0xffff {
      Divisions4(cp);
      PartsFour(cp / 262144, cp / 4096 % 64, cp / 64 % 64, cp % 64);
      hide SequenceAt, ValueAt;
    } else if cp > 0x7ff {
      Divisions3(cp);
      PartsThree(cp / 4096, cp / 64 % 64, cp % 64);
      hide SequenceAt, ValueAt;
    } else if cp > 0x7f {
      PartsTwo(cp / 64, cp % 64);
      hide SequenceAt, ValueAt;
    }
  }

  lemma PartsTwo(x: nat, y: nat)
    requires 2 <= x < 32 && y < 64
    ensures var bs := [(192 + x) as Byte, Continuation(y)];
      SequenceAt(bs, 0, 2) && ValueAt(bs, 0, 2) == x * 64 + y
  {}

  lemma PartsThree(x: nat, y: nat, z: nat)
    requires x < 16 && y < 64 && z < 64 && (x == 0 ==> y >= 32) && (x == 13 ==> y <= 31)
    ensures var bs := [(224 + x) as Byte, Continuation(y), Continuation(z)];
      SequenceAt(bs, 0, 3) && ValueAt(bs, 0, 3) == (x * 64 + y) * 64 + z
  {}

  lemma PartsFour(x: nat, y: nat, z: nat, w: nat)
    requires x <= 4 && y < 64 && z < 64 && w < 64 && (x == 0 ==> y >= 16) && (x == 4 ==> y <= 15)
    ensures var bs := [(240 + x) as Byte, Continuation(y), Continuation(z), Continuation(w)];
      SequenceAt(bs, 0, 4) && ValueAt(bs, 0, 4) == ((x * 64 + y) * 64 + z) * 64 + w
  {
    FourMods(240 + x, 128 + y, 128 + z, 128 + w);
    assert Four((240 + x) as Byte, Continuation(y), Continuation(z), Continuation(w));
    hide Four;
  }

  lemma Divisions3(cp: nat)
    requires 0x7ff < cp <= 0xffff && IsScalar(cp)
    ensures cp / 4096 <= 15 && (cp / 4096 == 0 ==> cp / 64 % 64 >= 32) && (cp / 4096 == 13 ==> cp / 64 % 64 <= 31)
    ensures cp == (cp / 4096 * 64 + cp / 64 % 64) * 64 + cp % 64
  {}

  lemma Divisions4(cp: nat)
    requires 0xffff < cp <= 0x10ffff
    ensures cp / 262144 <= 4 && (cp / 262144 == 0 ==> cp / 4096 % 64 >= 16)
      && (cp / 262144 == 4 ==> cp / 4096 % 64 <= 15)
    ensures cp == ((cp / 262144 * 64 + cp / 4096 % 64) * 64 + cp / 64 % 64) * 64 + cp % 64
  {
    var a, d := cp / 64, cp % 64;
    var b, c := a / 64, a % 64;
    var e, f := b / 64, b % 64;
    DivIs(cp, 4096, b, c * 64 + d);
    DivIs(cp, 262144, e, f * 4096 + c * 64 + d);
  }

  // ---- decoding -----------------------------------------------------------

  // No scalar is encoded at o.
  ghost predicate NothingAt(bs: seq<Byte>, o: nat) {
    forall cp: nat :: !Starts(bs, o, cp)
  }

  lemma NoSequence(bs: seq<Byte>, o: nat)
    requires !SequenceAt(bs, o, 1) && !SequenceAt(bs, o, 2) && !SequenceAt(bs, o, 3) && !SequenceAt(bs, o, 4)
    ensures NothingAt(bs, o)
  {
    forall cp: nat
      ensures !Starts(bs, o, cp)
    {
      if Starts(bs, o, cp) { StartsSequence(bs, o, cp); }
    }
  }

  // At most one scalar is encoded at a place: no encoding starts another.
  lemma OneAt(bs: seq<Byte>, o: nat, cp: nat, other: nat)
    requires Starts(bs, o, cp) && Starts(bs, o, other)
    ensures cp == other
  {
    StartsSequence(bs, o, cp);
    StartsSequence(bs, o, other);
    hide Encode, ValueAt;
    SameLength(bs, o, |Encode(cp)|, |Encode(other)|);
  }

  lemma SameLength(bs: seq<Byte>, o: nat, n: nat, m: nat)
    requires SequenceAt(bs, o, n) && SequenceAt(bs, o, m)
    ensures n == m
  {}

  // The value so far after k continuation bytes.
  function Accumulated(bs: seq<Byte>, o: nat, start: nat, k: nat): nat
    requires o + k < |bs|
  {
    if k == 0 then start else Accumulated(bs, o, start, k - 1) * 64 + bs[o + k] as nat % 64
  }

  // How many continuation bytes a first byte asks for, and its share of the
  // value; none for a byte that starts no sequence of several bytes.
  function Lead(first: Byte): Option<(nat, nat)> {
    if 0xc2 <= first <= 0xdf then Some((first as nat % 32, 1))
    else if 0xe0 <= first <= 0xef then Some((first as nat % 16, 2))
    else if 0xf0 <= first <= 0xf4 then Some((first as nat % 8, 3))
    else None
  }

  // The value is out of range for its length, or no scalar.
  predicate Refused(needed: nat, value: nat) {
    || (needed == 2 && value < 0x800) || (needed == 3 && value < 0x10000)
    || 0xd800 <= value <= 0xdfff || value > 0x10ffff
  }

  predicate ContinuesAt(bs: seq<Byte>, o: nat, i: nat) {
    o + i < |bs| && IsContinuation(bs[o + i])
  }

  ghost predicate AllContinue(bs: seq<Byte>, o: nat, needed: nat) {
    o + needed < |bs| && forall i: nat | 1 <= i <= needed :: ContinuesAt(bs, o, i)
  }

  // Behind a leading byte the decoder's checks accept exactly the well-formed
  // sequences.
  lemma ChecksAreExact(bs: seq<Byte>, o: nat)
    requires o < |bs| && Lead(bs[o]).Some?
    ensures var (start, needed) := Lead(bs[o]).value;
      && (forall n | n != needed + 1 :: !SequenceAt(bs, o, n))
      && (SequenceAt(bs, o, needed + 1) <==>
        AllContinue(bs, o, needed) && !Refused(needed, Accumulated(bs, o, start, needed)))
      && (AllContinue(bs, o, needed) ==> Accumulated(bs, o, start, needed) == ValueAt(bs, o, needed + 1))
  {
    OtherLengths(bs, o);
    var (start, needed) := Lead(bs[o]).value;
    hide SequenceAt;
    if AllContinue(bs, o, needed) {
      LeadContinues(bs, o);
    } else if SequenceAt(bs, o, needed + 1) {
      SequenceContinues(bs, o);
    }
  }

  lemma OtherLengths(bs: seq<Byte>, o: nat)
    requires o < |bs| && Lead(bs[o]).Some?
    ensures forall n | n != Lead(bs[o]).value.1 + 1 :: !SequenceAt(bs, o, n)
  {}

  lemma SequenceContinues(bs: seq<Byte>, o: nat)
    requires o < |bs| && Lead(bs[o]).Some? && SequenceAt(bs, o, Lead(bs[o]).value.1 + 1)
    ensures AllContinue(bs, o, Lead(bs[o]).value.1)
  {}

  // Behind a lead byte followed by continuation bytes.
  lemma LeadContinues(bs: seq<Byte>, o: nat)
    requires o < |bs| && Lead(bs[o]).Some? && AllContinue(bs, o, Lead(bs[o]).value.1)
    ensures var (start, needed) := Lead(bs[o]).value;
      && (SequenceAt(bs, o, needed + 1) <==> !Refused(needed, Accumulated(bs, o, start, needed)))
      && Accumulated(bs, o, start, needed) == ValueAt(bs, o, needed + 1)
  {
    var (start, needed) := Lead(bs[o]).value;
    AccumulatedIs(bs, o, start, needed);
    hide Accumulated;
    assert ContinuesAt(bs, o, 1) && ContinuesAt(bs, o, needed) && (needed == 3 ==> ContinuesAt(bs, o, 2));
    hide AllContinue;
    if needed == 1 {
      RangeOfTwo(bs[o] as nat, bs[o + 1] as nat);
    } else if needed == 2 {
      RangeOfThree(bs[o] as nat, bs[o + 1] as nat, bs[o + 2] as nat);
    } else {
      RangeOfFour(bs[o] as nat, bs[o + 1] as nat, bs[o + 2] as nat, bs[o + 3] as nat);
    }
  }

  lemma AccumulatedIs(bs: seq<Byte>, o: nat, start: nat, k: nat)
    requires 1 <= k <= 3 && o + k < |bs|
    ensures var two := start * 64 + bs[o + 1] as nat % 64;
      Accumulated(bs, o, start, k) ==
        if k == 1 then two
        else if k == 2 then two * 64 + bs[o + 2] as nat % 64
        else (two * 64 + bs[o + 2] as nat % 64) * 64 + bs[o + 3] as nat % 64
  {
    assert Accumulated(bs, o, start, 0) == start;
    assert Accumulated(bs, o, start, 1) == start * 64 + bs[o + 1] as nat % 64;
    if k > 1 {
      assert Accumulated(bs, o, start, 2) == (start * 64 + bs[o + 1] as nat % 64) * 64 + bs[o + 2] as nat % 64;
    }
  }

  lemma RangeOfTwo(a: nat, b: nat)
    requires 0xc2 <= a <= 0xdf && 128 <= b <= 191
    ensures !Refused(1, a % 32 * 64 + b % 64)
  {}

  lemma RangeOfThree(a: nat, b: nat, c: nat)
    requires 0xe0 <= a <= 0xef && 128 <= b <= 191 && 128 <= c <= 191
    ensures Refused(2, (a % 16 * 64 + b % 64) * 64 + c % 64) <==> (a == 0xe0 && b < 0xa0) || (a == 0xed && b > 0x9f)
  {}

  lemma RangeOfFour(a: nat, b: nat, c: nat, d: nat)
    requires 0xf0 <= a <= 0xf4 && 128 <= b <= 191 && 128 <= c <= 191 && 128 <= d <= 191
    ensures Refused(3, ((a % 8 * 64 + b % 64) * 64 + c % 64) * 64 + d % 64) <==>
      (a == 0xf0 && b < 0x90) || (a == 0xf4 && b > 0x8f)
  {}

  // Decodes the scalar at `offset`: the one encoded there, and the place
  // behind it, or nothing exactly when none is.
  method Next(bs: seq<Byte>, offset: nat) returns (r: Option<(nat, nat)>)
    ensures match r
      case None => NothingAt(bs, offset)
      case Some((cp, end)) => Starts(bs, offset, cp) && end == offset + |Encode(cp)|
  {
    if offset >= |bs| {
      NoSequence(bs, offset);
      return None;
    }
    var first := bs[offset];
    if first < 0x80 {
      SequenceStarts(bs, offset, 1);
      return Some((first as nat, offset + 1));
    }
    var lead := Lead(first);
    if lead.None? {
      NoSequence(bs, offset);
      return None;
    }
    var (start, needed) := lead.value;
    ChecksAreExact(bs, offset);
    hide SequenceAt, ValueAt, Starts, Encode;
    if needed > |bs| - offset - 1 {
      NoSequence(bs, offset);
      return None;
    }
    var value := start;
    for index := 1 to needed + 1
      invariant value == Accumulated(bs, offset, start, index - 1)
      invariant forall i: nat | 1 <= i < index :: ContinuesAt(bs, offset, i)
    {
      var continuation := bs[offset + index];
      if !IsContinuation(continuation) {
        assert !ContinuesAt(bs, offset, index);
        NoSequence(bs, offset);
        return None;
      }
      value := value * 64 + continuation as nat % 64;
    }
    if Refused(needed, value) {
      NoSequence(bs, offset);
      return None;
    }
    SequenceStarts(bs, offset, needed + 1);
    r := Some((value, offset + needed + 1));
  }

  // Decodes the scalar that ends at `offset`, looking back for its first byte.
  method Previous(bs: seq<Byte>, offset: nat) returns (r: Option<(nat, nat)>)
    ensures match r
      case None => forall start: nat, cp: nat | Starts(bs, start, cp) :: start + |Encode(cp)| != offset
      case Some((cp, start)) => Starts(bs, start, cp) && start + |Encode(cp)| == offset
  {
    if offset == 0 || offset > |bs| {
      hide Encode;
      return None;
    }
    var start: nat := offset - 1;
    while start > 0 && IsContinuation(bs[start])
      invariant start < offset
      invariant forall i | start < i < offset :: IsContinuation(bs[i])
    {
      start := start - 1;
    }
    var decoded := Next(bs, start);
    if decoded.Some? && decoded.value.1 == offset {
      return Some((decoded.value.0, start));
    }
    forall at: nat, cp: nat | Starts(bs, at, cp)
      ensures at + |Encode(cp)| != offset
    {
      if at + |Encode(cp)| == offset {
        BackToStart(bs, at, cp, start);
        if decoded.Some? { OneAt(bs, at, cp, decoded.value.0); }
      }
    }
    return None;
  }

  // Looking back over continuation bytes from the end of an encoding stops at
  // its start.
  lemma BackToStart(bs: seq<Byte>, at: nat, cp: nat, start: nat)
    requires Starts(bs, at, cp) && start < at + |Encode(cp)| <= |bs|
    requires start == 0 || !IsContinuation(bs[start])
    requires forall i | start < i < at + |Encode(cp)| :: IsContinuation(bs[i])
    ensures start == at
  {
    StartsSequence(bs, at, cp);
    hide Encode, ValueAt;
  }

  // What next passes over, previous goes back over, and the other way round.
  lemma PreviousUndoesNext(bs: seq<Byte>, start: nat, cp: nat, other: nat, at: nat)
    requires Starts(bs, start, cp) && Starts(bs, at, other) && start + |Encode(cp)| == at + |Encode(other)|
    ensures start == at && cp == other
  {
    StartsSequence(bs, start, cp);
    StartsSequence(bs, at, other);
    var end := start + |Encode(cp)|;
    BackToStart(bs, start, cp, at);
    OneAt(bs, start, cp, other);
  }

  // ---- encoding -----------------------------------------------------------

  method CodepointLength(cp: nat) returns (n: nat)
    requires cp <= 0x10ffff
    ensures n == |Encode(cp)|
  {
    if cp <= 0x7f {
      return 1;
    }
    if cp <= 0x7ff {
      return 2;
    }
    if cp <= 0xffff {
      return 3;
    }
    return 4;
  }

  lemma EncodeIs(cp: nat)
    requires cp <= 0x10ffff
    ensures cp <= 0x7f ==> Encode(cp) == [cp as Byte]
    ensures 0x7f < cp <= 0x7ff ==> Encode(cp) == [(192 + cp / 64) as Byte, (128 + cp % 64) as Byte]
    ensures 0x7ff < cp <= 0xffff ==>
      Encode(cp) == [(224 + cp / 4096) as Byte, (128 + cp / 64 % 64) as Byte, (128 + cp % 64) as Byte]
    ensures cp > 0xffff ==>
      Encode(cp) == [(240 + cp / 262144) as Byte, (128 + cp / 4096 % 64) as Byte, (128 + cp / 64 % 64) as Byte,
        (128 + cp % 64) as Byte]
  {}

  lemma Placed(was: seq<Byte>, now: seq<Byte>, at: nat, bs: seq<Byte>)
    requires |now| == |was| && at + |bs| <= |was|
    requires forall i | 0 <= i < |was| && !(at <= i < at + |bs|) :: now[i] == was[i]
    requires forall i | 0 <= i < |bs| :: now[at + i] == bs[i]
    ensures now[..at + |bs|] == was[..at] + bs && now[at + |bs|..] == was[at + |bs|..]
  {}

  method WriteCodepoint(out: array<Byte>, at: nat, cp: nat) returns (n: nat)
    requires cp <= 0x10ffff && at + |Encode(cp)| <= out.Length
    modifies out
    ensures n == |Encode(cp)| && out[..at + n] == old(out[..at]) + Encode(cp)
    ensures out[at + n..] == old(out[at + n..])
  {
    hide *;
    ghost var before := out[..];
    EncodeIs(cp);
    if cp <= 0x7f {
      out[at] := cp as Byte;
      n := 1;
    } else if cp <= 0x7ff {
      out[at] := (192 + cp / 64) as Byte;
      out[at + 1] := (128 + cp % 64) as Byte;
      n := 2;
    } else if cp <= 0xffff {
      out[at] := (224 + cp / 4096) as Byte;
      out[at + 1] := (128 + cp / 64 % 64) as Byte;
      out[at + 2] := (128 + cp % 64) as Byte;
      n := 3;
    } else {
      out[at] := (240 + cp / 262144) as Byte;
      out[at + 1] := (128 + cp / 4096 % 64) as Byte;
      out[at + 2] := (128 + cp / 64 % 64) as Byte;
      out[at + 3] := (128 + cp % 64) as Byte;
      n := 4;
    }
    Placed(before, out[..], at, Encode(cp));
  }

  // ---- whole texts --------------------------------------------------------

  lemma ValidStep(bs: seq<Byte>, o: nat, cp: nat)
    requires Starts(bs, o, cp)
    ensures ValidFrom(bs, o) <==> ValidFrom(bs, o + |Encode(cp)|)
  {
    hide Encode;
    assert o < |bs|;
    hide StandsAt;
    if ValidFrom(bs, o) {
      var other: nat :| Starts(bs, o, other) && ValidFrom(bs, o + |Encode(other)|);
      OneAt(bs, o, cp, other);
    }
  }

  lemma SequenceStep(bs: seq<Byte>, o: nat, n: nat)
    requires SequenceAt(bs, o, n)
    ensures ValidFrom(bs, o) <==> ValidFrom(bs, o + n)
  {
    SequenceStarts(bs, o, n);
    ValidStep(bs, o, ValueAt(bs, o, n));
  }

  lemma SequenceMissing(bs: seq<Byte>, o: nat)
    requires o < |bs|
    requires !SequenceAt(bs, o, 1) && !SequenceAt(bs, o, 2) && !SequenceAt(bs, o, 3) && !SequenceAt(bs, o, 4)
    ensures !ValidFrom(bs, o)
  {
    NoSequence(bs, o);
  }

  // How many bytes the well-formed sequence at `index` has, or 0.
  method SequenceLength(bs: seq<Byte>, index: nat) returns (n: nat)
    requires index < |bs|
    ensures n == 0 ==>
      !SequenceAt(bs, index, 1) && !SequenceAt(bs, index, 2) && !SequenceAt(bs, index, 3) && !SequenceAt(bs, index, 4)
    ensures n != 0 ==> SequenceAt(bs, index, n)
  {
    var first := bs[index];
    n := 0;
    if first <= 0x7f {
      n := 1;
    } else if 0xc2 <= first <= 0xdf {
      if |bs| - index >= 2 && IsContinuation(bs[index + 1]) {
        n := 2;
      }
    } else if 0xe0 <= first <= 0xef {
      if |bs| - index >= 3 {
        var second := bs[index + 1];
        if IsContinuation(bs[index + 2]) && !(first == 0xe0 && second < 0xa0) && !(first == 0xed && second > 0x9f)
          && IsContinuation(second) {
          n := 3;
        }
      }
    } else if 0xf0 <= first <= 0xf4 {
      if |bs| - index >= 4 {
        var second := bs[index + 1];
        if IsContinuation(second) && IsContinuation(bs[index + 2]) && IsContinuation(bs[index + 3])
          && !(first == 0xf0 && second < 0x90) && !(first == 0xf4 && second > 0x8f) {
          n := 4;
        }
      }
    }
  }

  // Validating without decoding.
  method Valid(bs: seq<Byte>) returns (yes: bool)
    ensures yes <==> ValidFrom(bs, 0)
  {
    hide *;
    DecodeBase(bs);
    var index := 0;
    while index < |bs|
      invariant index <= |bs| && (ValidFrom(bs, 0) <==> ValidFrom(bs, index))
    {
      var n := SequenceLength(bs, index);
      if n == 0 {
        SequenceMissing(bs, index);
        return false;
      }
      SequenceStep(bs, index, n);
      index := index + n;
    }
    yes := true;
  }

  // Decoding from the start until the end or the first failure. It reaches the
  // end on exactly the valid texts, what it decodes encodes to the text, and
  // from the encoding of any scalars it gives those scalars back.
  method DecodeAll(bs: seq<Byte>) returns (cps: seq<nat>, complete: bool)
    ensures complete <==> ValidFrom(bs, 0)
    ensures complete ==> AllScalars(cps) && EncodeAll(cps) == bs
    ensures forall cs | AllScalars(cs) && EncodeAll(cs) == bs :: complete && cps == cs
  {
    hide *;
    DecodeBase(bs);
    var offset := 0;
    cps := [];
    while offset < |bs|
      invariant offset <= |bs| && (ValidFrom(bs, 0) <==> ValidFrom(bs, offset))
      invariant AllScalars(cps) && EncodeAll(cps) == bs[..offset]
      decreases |bs| - offset
    {
      var next := Next(bs, offset);
      if next.None? {
        NothingIsInvalid(bs, offset);
        DecodesBack(bs, cps, false);
        return cps, false;
      }
      var (cp, end) := next.value;
      DecodeStep(bs, offset, cps, cp);
      cps := cps + [cp];
      offset := end;
    }
    complete := true;
    DecodesBack(bs, cps, true);
  }

  // Only the scalars themselves are decoded from their encoding.
  lemma DecodesBack(bs: seq<Byte>, cps: seq<nat>, complete: bool)
    requires complete <==> ValidFrom(bs, 0)
    requires complete ==> AllScalars(cps) && EncodeAll(cps) == bs
    ensures forall cs | AllScalars(cs) && EncodeAll(cs) == bs :: complete && cps == cs
  {
    hide EncodeAll, ValidFrom;
    forall cs | AllScalars(cs) && EncodeAll(cs) == bs
      ensures complete && cps == cs
    {
      EncodedIsValid([], cs);
      assert [] + bs == bs;
      EncodeAllInjective(cs, cps);
    }
  }

  lemma NothingIsInvalid(bs: seq<Byte>, o: nat)
    requires o < |bs| && NothingAt(bs, o)
    ensures !ValidFrom(bs, o)
  {}

  lemma DecodeBase(bs: seq<Byte>)
    ensures AllScalars([]) && EncodeAll([]) == bs[..0] && ValidFrom(bs, |bs|) && bs[..|bs|] == bs
  {}

  lemma DecodeStep(bs: seq<Byte>, o: nat, cps: seq<nat>, cp: nat)
    requires Starts(bs, o, cp) && AllScalars(cps) && EncodeAll(cps) == bs[..o]
    ensures var end := o + |Encode(cp)|;
      && o < end <= |bs| && (ValidFrom(bs, o) <==> ValidFrom(bs, end))
      && AllScalars(cps + [cp]) && EncodeAll(cps + [cp]) == bs[..end]
  {
    ValidStep(bs, o, cp);
    EncodeAllAppend(cps, cp);
    TakesEncoding(bs, o, cp);
    hide Encode, EncodeAll, ValidFrom;
  }

  lemma ValidBy(bs: seq<Byte>, o: nat, cp: nat)
    requires Starts(bs, o, cp) && ValidFrom(bs, o + |Encode(cp)|)
    ensures ValidFrom(bs, o)
  {}

  lemma TakesEncoding(bs: seq<Byte>, o: nat, cp: nat)
    requires Starts(bs, o, cp)
    ensures bs[..o + |Encode(cp)|] == bs[..o] + Encode(cp)
  {
    hide Encode;
  }

  lemma {:induction false} EncodeAllAppend(cps: seq<nat>, cp: nat)
    requires AllScalars(cps) && IsScalar(cp)
    ensures AllScalars(cps + [cp]) && EncodeAll(cps + [cp]) == EncodeAll(cps) + Encode(cp)
  {
    hide Encode;
    var all := cps + [cp];
    if cps == [] {
      assert all == [cp] && EncodeAll(all) == Encode(cp) + EncodeAll([]);
    } else {
      EncodeAllAppend(cps[1..], cp);
      assert all[0] == cps[0] && all[1..] == cps[1..] + [cp];
      assert EncodeAll(all) == Encode(cps[0]) + (EncodeAll(cps[1..]) + Encode(cp));
    }
  }

  lemma StandsBetween(bs: seq<Byte>, cp: nat, rest: seq<Byte>)
    requires IsScalar(cp)
    ensures Starts(bs + Encode(cp) + rest, |bs|, cp)
  {
    hide Encode;
  }

  // The encoding of any scalars is a valid text.
  lemma {:induction false} EncodedIsValid(bs: seq<Byte>, cps: seq<nat>)
    requires AllScalars(cps)
    ensures ValidFrom(bs + EncodeAll(cps), |bs|)
    decreases |cps|
  {
    hide *;
    if cps == [] {
      NothingEncoded(bs);
    } else {
      FirstEncoded(cps);
      var cp, rest := cps[0], EncodeAll(cps[1..]);
      ScalarFits(cp);
      EncodedIsValid(bs + Encode(cp), cps[1..]);
      assert bs + EncodeAll(cps) == bs + Encode(cp) + rest;
      StandsBetween(bs, cp, rest);
      ValidBy(bs + EncodeAll(cps), |bs|, cp);
    }
  }

  lemma NothingEncoded(bs: seq<Byte>)
    ensures AllScalars([]) && ValidFrom(bs + EncodeAll([]), |bs|)
  {}

  lemma ScalarFits(cp: nat)
    requires IsScalar(cp)
    ensures cp <= 0x10ffff
  {}

  lemma FirstEncoded(cps: seq<nat>)
    requires AllScalars(cps) && cps != []
    ensures IsScalar(cps[0]) && AllScalars(cps[1..]) && EncodeAll(cps) == Encode(cps[0]) + EncodeAll(cps[1..])
  {
    hide Encode;
  }

  // Different scalars have different encodings, so decoding an encoding gives
  // the scalars back.
  lemma {:induction false} EncodeAllInjective(a: seq<nat>, b: seq<nat>)
    requires AllScalars(a) && AllScalars(b) && EncodeAll(a) == EncodeAll(b)
    ensures a == b
  {
    if a != [] && b != [] {
      var bs := EncodeAll(a);
      hide Encode;
      assert Starts(bs, 0, a[0]) && Starts(bs, 0, b[0]);
      OneAt(bs, 0, a[0], b[0]);
      assert bs[|Encode(a[0])|..] == EncodeAll(a[1..]) && bs[|Encode(a[0])|..] == EncodeAll(b[1..]);
      EncodeAllInjective(a[1..], b[1..]);
    }
  }
}
