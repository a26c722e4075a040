// Unsigned 32-bit words as the persistent trie uses them: five-bit fragments of
// a hash, one-bit masks of a bitmap, and the branch-free population count that
// turns a bitmap and a fragment into a slot position.
module Bits32 {

  // A trie fragment: a bit position of a 32-way bitmap.
  type Frag = f: bv32 | f < 32

  function Bit(f: Frag): bv32 { 1 << f }

  function WithBit(b: bv32, f: Frag): bv32 { b | Bit(f) }

  function WithoutBit(b: bv32, f: Frag): bv32 { b & !Bit(f) }

  predicate Has(b: bv32, f: Frag) { b & Bit(f) != 0 }

  // (h >>> shift) & 31
  function FragAt(h: bv32, shift: nat): Frag
    requires shift <= 32
  {
    (h >> shift) & 31
  }

  // ---- masks --------------------------------------------------------------

  lemma SetSame(b: bv32, f: Frag)
    ensures Has(b | Bit(f), f)
  {}

  lemma SetOther(b: bv32, f: Frag, g: Frag)
    requires f != g
    ensures Has(b | Bit(f), g) <==> Has(b, g)
  {}

  lemma WithBitIs(b: bv32, f: Frag)
    ensures WithBit(b, f) == b | Bit(f)
  {
    hide Bit;
  }

  // Setting one bit changes membership of that bit alone.
  lemma SetBit(b: bv32, f: Frag, g: Frag)
    ensures Has(WithBit(b, f), g) <==> f == g || Has(b, g)
  {
    hide *;
    WithBitIs(b, f);
    if f == g { SetSame(b, f); } else { SetOther(b, f, g); }
  }

  lemma MaskHas(b: bv32, f: Frag, g: Frag)
    ensures Has(b & !Bit(f), g) <==> f != g && Has(b, g)
  {}

  lemma WithoutBitIs(b: bv32, f: Frag)
    ensures WithoutBit(b, f) == b & !Bit(f)
  {
    hide Bit;
  }

  // Clearing one bit changes membership of that bit alone.
  lemma ClearBit(b: bv32, f: Frag, g: Frag)
    ensures Has(WithoutBit(b, f), g) <==> f != g && Has(b, g)
  {
    hide *;
    WithoutBitIs(b, f);
    MaskHas(b, f, g);
  }

  // The mask below bit f keeps exactly the smaller bits.
  lemma BelowHas(b: bv32, f: Frag, g: Frag)
    ensures Has(b & (Bit(f) - 1), g) <==> g < f && Has(b, g)
  {}

  // ---- population count ---------------------------------------------------

  // How many of the bits below position n are set.
  function Rank(b: bv32, n: bv32): (r: nat)
    requires n <= 32
  {
    if n == 0 then 0 else Rank(b, n - 1) + (if Has(b, n - 1) then 1 else 0)
  }

  function PairSums(x: bv32): bv32 { x - ((x >> 1) & 0x55555555) }

  function NibbleSums(x: bv32): bv32 { (x & 0x33333333) + ((x >> 2) & 0x33333333) }

  function ByteSums(x: bv32): bv32 { (x + (x >> 4)) & 0x0f0f0f0f }

  function Total(x: bv32): bv32 { (x * 0x01010101) >> 24 }

  function PopcountWord(x: bv32): bv32 { Total(ByteSums(NibbleSums(PairSums(x)))) }

  // The bits set among four, starting at position i.
  function NibbleAt(x: bv32, i: bv32): bv32
    requires i <= 28
  {
    ((x >> i) & 1) + ((x >> (i + 1)) & 1) + ((x >> (i + 2)) & 1) + ((x >> (i + 3)) & 1)
  }

  lemma LowNibblesCounted(x: bv32, n: bv32)
    requires n == NibbleSums(PairSums(x))
    ensures (n >> 0) & 15 == NibbleAt(x, 0)
    ensures (n >> 4) & 15 == NibbleAt(x, 4)
    ensures (n >> 8) & 15 == NibbleAt(x, 8)
    ensures (n >> 12) & 15 == NibbleAt(x, 12)
  {}

  lemma HighNibblesCounted(x: bv32, n: bv32)
    requires n == NibbleSums(PairSums(x))
    ensures (n >> 16) & 15 == NibbleAt(x, 16)
    ensures (n >> 20) & 15 == NibbleAt(x, 20)
    ensures (n >> 24) & 15 == NibbleAt(x, 24)
    ensures (n >> 28) & 15 == NibbleAt(x, 28)
  {}

  lemma BitOf(x: bv32, f: Frag)
    ensures (x >> f) & 1 == if Has(x, f) then 1 else 0
  {}

  lemma FourBits(p: bool, q: bool, r: bool, s: bool)
    ensures var n: bv32 := (if p then 1 else 0) + (if q then 1 else 0) + (if r then 1 else 0) + (if s then 1 else 0);
      n <= 4 && n as nat == (if p then 1 else 0) + (if q then 1 else 0) + (if r then 1 else 0) + (if s then 1 else 0)
  {}

  lemma NibbleSum(x: bv32, i: bv32)
    requires i <= 28
    ensures NibbleAt(x, i) == (if Has(x, i) then 1 else 0) + (if Has(x, i + 1) then 1 else 0)
      + (if Has(x, i + 2) then 1 else 0) + (if Has(x, i + 3) then 1 else 0)
  {
    hide Has;
    BitOf(x, i);
    BitOf(x, i + 1);
    BitOf(x, i + 2);
    BitOf(x, i + 3);
  }

  lemma NibbleInt(x: bv32, i: bv32)
    requires i <= 28
    ensures NibbleAt(x, i) <= 4
    ensures NibbleAt(x, i) as nat == (if Has(x, i) then 1 else 0) + (if Has(x, i + 1) then 1 else 0)
      + (if Has(x, i + 2) then 1 else 0) + (if Has(x, i + 3) then 1 else 0)
  {
    hide *;
    NibbleSum(x, i);
    FourBits(Has(x, i), Has(x, i + 1), Has(x, i + 2), Has(x, i + 3));
  }

  lemma RankStep(x: bv32, i: bv32)
    requires i < 32
    ensures Rank(x, i + 1) == Rank(x, i) + (if Has(x, i) then 1 else 0)
  {
    hide Has;
  }

  // Four bits starting at position i, counted as a word or by rank.
  lemma NibbleRank(x: bv32, i: bv32)
    requires i <= 28
    ensures NibbleAt(x, i) <= 4
    ensures Rank(x, i + 4) == Rank(x, i) + NibbleAt(x, i) as nat
  {
    hide *;
    NibbleInt(x, i);
    RankStep(x, i);
    RankStep(x, i + 1);
    RankStep(x, i + 2);
    RankStep(x, i + 3);
  }

  lemma BytesCounted(n: bv32, c0: bv32, c1: bv32, c2: bv32, c3: bv32, c4: bv32, c5: bv32, c6: bv32, c7: bv32)
    requires (n >> 0) & 15 == c0 <= 4 && (n >> 4) & 15 == c1 <= 4 && (n >> 8) & 15 == c2 <= 4
      && (n >> 12) & 15 == c3 <= 4
    requires (n >> 16) & 15 == c4 <= 4 && (n >> 20) & 15 == c5 <= 4 && (n >> 24) & 15 == c6 <= 4
      && (n >> 28) & 15 == c7 <= 4
    ensures ByteSums(n) & 255 == c0 + c1 && (ByteSums(n) >> 8) & 255 == c2 + c3
    ensures (ByteSums(n) >> 16) & 255 == c4 + c5 && ByteSums(n) >> 24 == c6 + c7
  {}

  lemma TotalCounted(y: bv32, d0: bv32, d1: bv32, d2: bv32, d3: bv32, a: bv32, b: bv32)
    requires y & 255 == d0 <= 8 && (y >> 8) & 255 == d1 <= 8 && (y >> 16) & 255 == d2 <= 8 && y >> 24 == d3 <= 8
    requires a == d0 + d1 && b == d2 + d3
    ensures Total(y) == a + b
  {
    assert y * 0x01010101 == y + (y << 8) + (y << 16) + (y << 24);
  }

  lemma AddTo8(a: bv32, b: bv32)
    requires a <= 4 && b <= 4
    ensures (a + b) as nat == a as nat + b as nat && a + b <= 8
  {}

  function Plus(a: bv32, b: bv32): bv32 { a + b }

  lemma AddTo32(a: bv32, b: bv32)
    requires a <= 16 && b <= 16
    ensures Plus(a, b) as nat == a as nat + b as nat
  {}

  lemma AddTo16(a: bv32, b: bv32)
    requires a <= 8 && b <= 8
    ensures a <= 16 && b <= 16 && Plus(a, b) <= 16
  {}

  lemma PopcountUnfold(x: bv32)
    ensures Rank(x, 0) == 0
    ensures PopcountWord(x) == Total(ByteSums(NibbleSums(PairSums(x))))
  {}

  // The four bytes of the sums, as integers.
  lemma BytesInt(n: bv32, c0: bv32, c1: bv32, c2: bv32, c3: bv32, c4: bv32, c5: bv32, c6: bv32, c7: bv32)
      returns (d0: bv32, d1: bv32, d2: bv32, d3: bv32)
    requires (n >> 0) & 15 == c0 <= 4 && (n >> 4) & 15 == c1 <= 4 && (n >> 8) & 15 == c2 <= 4
      && (n >> 12) & 15 == c3 <= 4
    requires (n >> 16) & 15 == c4 <= 4 && (n >> 20) & 15 == c5 <= 4 && (n >> 24) & 15 == c6 <= 4
      && (n >> 28) & 15 == c7 <= 4
    ensures ByteSums(n) & 255 == d0 <= 8 && (ByteSums(n) >> 8) & 255 == d1 <= 8
    ensures (ByteSums(n) >> 16) & 255 == d2 <= 8 && ByteSums(n) >> 24 == d3 <= 8
    ensures d0 as nat == c0 as nat + c1 as nat && d1 as nat == c2 as nat + c3 as nat
    ensures d2 as nat == c4 as nat + c5 as nat && d3 as nat == c6 as nat + c7 as nat
  {
    hide *;
    d0, d1, d2, d3 := c0 + c1, c2 + c3, c4 + c5, c6 + c7;
    BytesCounted(n, c0, c1, c2, c3, c4, c5, c6, c7);
    AddTo8(c0, c1);
    AddTo8(c2, c3);
    AddTo8(c4, c5);
    AddTo8(c6, c7);
  }

  lemma TotalInt(y: bv32, d0: bv32, d1: bv32, d2: bv32, d3: bv32)
    requires y & 255 == d0 <= 8 && (y >> 8) & 255 == d1 <= 8 && (y >> 16) & 255 == d2 <= 8 && y >> 24 == d3 <= 8
    ensures Total(y) as nat == d0 as nat + d1 as nat + d2 as nat + d3 as nat
  {
    hide *;
    var a, b := Plus(d0, d1), Plus(d2, d3);
    PlusIs(d0, d1);
    PlusIs(d2, d3);
    PlusIs(a, b);
    TotalCounted(y, d0, d1, d2, d3, a, b);
    FourInt(d0, d1, d2, d3);
  }

  lemma PlusIs(a: bv32, b: bv32)
    ensures Plus(a, b) == a + b
  {}

  lemma FourInt(d0: bv32, d1: bv32, d2: bv32, d3: bv32)
    requires d0 <= 8 && d1 <= 8 && d2 <= 8 && d3 <= 8
    ensures Plus(Plus(d0, d1), Plus(d2, d3)) as nat == d0 as nat + d1 as nat + d2 as nat + d3 as nat
  {
    hide *;
    AddTo16(d0, d1);
    AddTo16(d2, d3);
    AddTo32(d0, d1);
    AddTo32(d2, d3);
    AddTo32(Plus(d0, d1), Plus(d2, d3));
  }

  // The branch-free count is the number of set bits.
  lemma PopcountCorrect(x: bv32)
    ensures PopcountWord(x) as nat == Rank(x, 32)
  {
    hide *;
    PopcountUnfold(x);
    var n := NibbleSums(PairSums(x));
    LowNibblesCounted(x, n);
    HighNibblesCounted(x, n);
    NibbleRank(x, 0);
    NibbleRank(x, 4);
    NibbleRank(x, 8);
    NibbleRank(x, 12);
    NibbleRank(x, 16);
    NibbleRank(x, 20);
    NibbleRank(x, 24);
    NibbleRank(x, 28);
    var d0, d1, d2, d3 :=
      BytesInt(n, NibbleAt(x, 0), NibbleAt(x, 4), NibbleAt(x, 8), NibbleAt(x, 12),
               NibbleAt(x, 16), NibbleAt(x, 20), NibbleAt(x, 24), NibbleAt(x, 28));
    TotalInt(ByteSums(n), d0, d1, d2, d3);
  }

  // The counter reassigns one word four times, and ends with the number of bits
  // set.
  method Popcount(w: bv32) returns (n: bv32)
    ensures n as nat == Rank(w, 32)
  {
    hide *;
    PopcountUnfold(w);
    PopcountCorrect(w);
    var x := w;
    x := PairSums(x);
    x := NibbleSums(x);
    x := ByteSums(x);
    n := Total(x);
  }

  lemma {:induction false} RankBelow(b: bv32, f: Frag, n: bv32)
    requires n <= 32
    ensures Rank(b & (Bit(f) - 1), n) == if n <= f then Rank(b, n) else Rank(b, f)
  {
    hide Has, Bit, WithBit, WithoutBit;
    if n > 0 {
      RankBelow(b, f, n - 1);
      BelowHas(b, f, n - 1);
    }
  }

  // The slot position of fragment f is the number of smaller fragments present.
  lemma PopcountIsRank(b: bv32, f: Frag)
    ensures PopcountWord(b & (Bit(f) - 1)) as nat == Rank(b, f)
  {
    hide *;
    PopcountCorrect(b & (Bit(f) - 1));
    RankBelow(b, f, 32);
  }

  // ---- ranks --------------------------------------------------------------

  lemma {:induction false} RankGrows(b: bv32, m: bv32, n: bv32)
    requires m <= n <= 32
    ensures Rank(b, m) <= Rank(b, n)
    ensures m < n && Has(b, m) ==> Rank(b, m) < Rank(b, n)
    decreases n
  {
    hide Has;
    if m < n { RankGrows(b, m, n - 1); }
  }

  // Distinct present fragments have distinct slot positions.
  lemma RankInjective(b: bv32, f: Frag, g: Frag)
    requires Has(b, f) && Has(b, g) && Rank(b, f) == Rank(b, g)
    ensures f == g
  {
    hide *;
    if f < g {
      RankGrows(b, f, g);
    } else if g < f {
      RankGrows(b, g, f);
    }
  }

  // Every slot position is the rank of a present fragment.
  lemma {:induction false} RankOnto(b: bv32, n: bv32, i: nat) returns (f: Frag)
    requires n <= 32 && i < Rank(b, n)
    ensures f < n && Has(b, f) && Rank(b, f) == i
  {
    hide Has;
    if i < Rank(b, n - 1) {
      f := RankOnto(b, n - 1, i);
    } else {
      f := n - 1;
    }
  }

  lemma {:induction false} RankSetBit(b: bv32, f: Frag, n: bv32)
    requires n <= 32 && !Has(b, f)
    ensures Rank(WithBit(b, f), n) == Rank(b, n) + (if f < n then 1 else 0)
  {
    hide Has, Bit, WithBit, WithoutBit;
    if n > 0 {
      RankSetBit(b, f, n - 1);
      SetBit(b, f, n - 1);
    }
  }

  lemma {:induction false} RankClearBit(b: bv32, f: Frag, n: bv32)
    requires n <= 32 && Has(b, f)
    ensures Rank(WithoutBit(b, f), n) == Rank(b, n) - (if f < n then 1 else 0)
  {
    hide Has, Bit, WithBit, WithoutBit;
    if n > 0 {
      RankClearBit(b, f, n - 1);
      ClearBit(b, f, n - 1);
    }
  }

  lemma OneBitHas(f: Frag, g: Frag)
    ensures Has(Bit(f), g) <==> g == f
  {
    if f == g {} else {}
  }

  lemma TwoBitsHas(f: Frag, g: Frag, e: Frag)
    ensures Has(WithBit(Bit(f), g), e) <==> e == f || e == g
  {
    hide *;
    OneBitHas(f, e);
    SetBit(Bit(f), g, e);
  }

  lemma {:induction false} OneBitRank(f: Frag, n: bv32)
    requires n <= 32
    ensures Rank(Bit(f), n) == if f < n then 1 else 0
  {
    hide Has, Bit;
    if n > 0 {
      OneBitRank(f, n - 1);
      OneBitHas(f, n - 1);
    }
  }

  // The bitmap of a node with two children: the smaller fragment comes first.
  lemma TwoBitsRank(f: Frag, g: Frag, n: bv32)
    requires f != g && n <= 32
    ensures Rank(WithBit(Bit(f), g), n) == (if f < n then 1 else 0) + (if g < n then 1 else 0)
  {
    hide *;
    OneBitHas(f, g);
    OneBitRank(f, n);
    RankSetBit(Bit(f), g, n);
  }

  // A word is determined by its 32 bits.
  lemma SameBits(b: bv32, c: bv32)
    requires forall f: Frag :: Has(b, f) == Has(c, f)
    ensures b == c
  {
    hide Has, Bit;
    if b ^ c != 0 {
      var f := LowestBit(b ^ c);
      XorHas(b, c, f);
      assert false;
    }
  }

  lemma XorHas(b: bv32, c: bv32, f: Frag)
    ensures Has(b ^ c, f) <==> Has(b, f) != Has(c, f)
  {}

  // A set bit of a non-zero word, found by halving.
  lemma LowestBit(x: bv32) returns (f: Frag)
    requires x != 0
    ensures Has(x, f)
  {
    f := if x & 0xffff != 0 then 0 else 16;
    f := if (x >> f) & 0xff != 0 then f else f + 8;
    f := if (x >> f) & 0xf != 0 then f else f + 4;
    f := if (x >> f) & 3 != 0 then f else f + 2;
    f := if (x >> f) & 1 != 0 then f else f + 1;
  }

  // ---- hash prefixes ------------------------------------------------------

  predicate Level(shift: nat) { shift % 5 == 0 && shift <= 35 }

  // Two hashes take the same path from the root down to level shift.
  predicate Agree(g: bv32, h: bv32, shift: nat)
    requires shift <= 35
  {
    shift < 5 || (Agree(g, h, shift - 5) && FragAt(g, shift - 5) == FragAt(h, shift - 5))
  }

  predicate SameLow30(g: bv32, h: bv32) { g & 0x3fffffff == h & 0x3fffffff }

  lemma WordsOfLow30(g: bv32, h: bv32)
    requires SameLow30(g, h)
    ensures (g >> 0) & 31 == (h >> 0) & 31 && (g >> 5) & 31 == (h >> 5) & 31 && (g >> 10) & 31 == (h >> 10) & 31
    ensures (g >> 15) & 31 == (h >> 15) & 31 && (g >> 20) & 31 == (h >> 20) & 31 && (g >> 25) & 31 == (h >> 25) & 31
  {}

  lemma Low30OfWords(g: bv32, h: bv32)
    requires (g >> 0) & 31 == (h >> 0) & 31 && (g >> 5) & 31 == (h >> 5) & 31 && (g >> 10) & 31 == (h >> 10) & 31
    requires (g >> 15) & 31 == (h >> 15) & 31 && (g >> 20) & 31 == (h >> 20) & 31 && (g >> 25) & 31 == (h >> 25) & 31
    ensures SameLow30(g, h)
  {}

  lemma LowFragments(h: bv32)
    ensures FragAt(h, 0) == (h >> 0) & 31 && FragAt(h, 5) == (h >> 5) & 31 && FragAt(h, 10) == (h >> 10) & 31
    ensures FragAt(h, 15) == (h >> 15) & 31 && FragAt(h, 20) == (h >> 20) & 31 && FragAt(h, 25) == (h >> 25) & 31
  {}

  lemma FragmentsOfLow30(g: bv32, h: bv32)
    ensures SameLow30(g, h) <==>
      && FragAt(g, 0) == FragAt(h, 0) && FragAt(g, 5) == FragAt(h, 5) && FragAt(g, 10) == FragAt(h, 10)
      && FragAt(g, 15) == FragAt(h, 15) && FragAt(g, 20) == FragAt(h, 20) && FragAt(g, 25) == FragAt(h, 25)
  {
    hide *;
    LowFragments(g);
    LowFragments(h);
    if SameLow30(g, h) {
      WordsOfLow30(g, h);
    } else if FragAt(g, 0) == FragAt(h, 0) && FragAt(g, 5) == FragAt(h, 5) && FragAt(g, 10) == FragAt(h, 10)
      && FragAt(g, 15) == FragAt(h, 15) && FragAt(g, 20) == FragAt(h, 20) && FragAt(g, 25) == FragAt(h, 25)
    {
      Low30OfWords(g, h);
    }
  }

  lemma FragmentsOfWord(g: bv32, h: bv32)
    ensures SameLow30(g, h) && FragAt(g, 30) == FragAt(h, 30) <==> g == h
  {}

  lemma AgreeStep(g: bv32, h: bv32, shift: nat)
    requires shift <= 30
    ensures Agree(g, h, shift + 5) <==> Agree(g, h, shift) && FragAt(g, shift) == FragAt(h, shift)
  {
    hide FragAt;
  }

  lemma AgreeNone(g: bv32, h: bv32)
    ensures Agree(g, h, 0)
  {}

  // The first six fragments are the low 30 bits.
  lemma AgreeIsLow30(g: bv32, h: bv32)
    ensures Agree(g, h, 30) <==> SameLow30(g, h)
  {
    hide *;
    FragmentsOfLow30(g, h);
    AgreeNone(g, h);
    AgreeStep(g, h, 0);
    AgreeStep(g, h, 5);
    AgreeStep(g, h, 10);
    AgreeStep(g, h, 15);
    AgreeStep(g, h, 20);
    AgreeStep(g, h, 25);
  }

  // All seven fragments are the whole hash.
  lemma AgreeIsEqual(g: bv32, h: bv32)
    ensures Agree(g, h, 35) <==> g == h
  {
    hide *;
    AgreeIsLow30(g, h);
    AgreeStep(g, h, 30);
    FragmentsOfWord(g, h);
  }

  lemma {:induction false} AgreeTrans(f: bv32, g: bv32, h: bv32, shift: nat)
    requires shift <= 35 && Agree(f, g, shift) && Agree(g, h, shift)
    ensures Agree(f, h, shift) && Agree(g, f, shift)
  {
    hide FragAt;
    if shift >= 5 { AgreeTrans(f, g, h, shift - 5); }
  }

  lemma {:induction false} AgreeShorter(g: bv32, h: bv32, m: nat, n: nat)
    requires Level(m) && Level(n) && m <= n && Agree(g, h, n)
    ensures Agree(g, h, m)
    ensures m < n ==> FragAt(g, m) == FragAt(h, m)
  {
    hide FragAt;
    if m < n { AgreeShorter(g, h, m, n - 5); }
  }
}
