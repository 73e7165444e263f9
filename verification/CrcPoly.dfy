/**
 * The CRC-32 as section 3.2.9 of IEEE 802.3 defines it: the remainder of a
 * division of polynomials over the field of two elements, by the generator
 * given there by its exponents.
 */
module CrcPoly {
  import opened Bits
  import opened Crc

  /** A polynomial is the set of the exponents that occur in it. */
  type Poly = set<nat>

  const GENERATOR: Poly := {32, 26, 23, 22, 16, 12, 11, 10, 8, 7, 5, 4, 2, 1, 0}

  function Add(a: Poly, b: Poly): (r: Poly)
    ensures forall k: nat :: k in r <==> (k in a) != (k in b)
  {
    (a - b) + (b - a)
  }

  /** Multiplication by the variable. */
  function TimesX(p: Poly): (r: Poly)
    ensures forall k: nat :: k in r <==> k > 0 && k - 1 in p
  {
    set e | e in p :: e + 1
  }

  function Raised(p: Poly, n: nat): (r: Poly)
    ensures forall k: nat :: k in r <==> k >= n && k - n in p
  {
    set e | e in p :: e + n
  }

  /** Bits as a polynomial, the first one the coefficient of the highest power. */
  function Message(bits: seq<bool>): Poly {
    if bits == [] then {}
    else Add(TimesX(Message(bits[..|bits| - 1])), Unit(bits[|bits| - 1]))
  }

  function Unit(b: bool): Poly { if b then {0} else {} }

  /** The generator times such a polynomial. */
  function Multiple(q: seq<bool>): Poly {
    if q == [] then {}
    else Add(TimesX(Multiple(q[..|q| - 1])), if q[|q| - 1] then GENERATOR else {})
  }

  /** All powers below the `n`-th. */
  function Ones(n: nat): (p: Poly)
    ensures forall k: nat :: k in p <==> k < n
  {
    set k: nat | k < n && Under(k, n)
  }

  predicate Under(k: nat, n: nat) { k < n }

  // ------------------------------------------------------------------
  // The register as a polynomial
  // ------------------------------------------------------------------

  predicate Low(c: bv32) { c & 1 == 1 }

  predicate Bit(c: bv32, i: nat) { Low(Iterate(Half, c, i)) }

  /** The register holds the coefficient of the highest power in its lowest bit. */
  predicate Has(c: bv32, k: nat) { k < 32 && Bit(c, 31 - k) }

  function PolyOf(c: bv32): (p: Poly)
    ensures forall k: nat :: k in p <==> Has(c, k)
  {
    set k: nat | k < 32 && Has(c, k)
  }

  lemma LowXor(c: bv32, d: bv32)
    ensures Low(Xor(c, d)) <==> Low(c) != Low(d)
  {
    assert c & 1 == 0 || c & 1 == 1;
    assert d & 1 == 0 || d & 1 == 1;
    assert (c ^ d) & 1 == (c & 1) ^ (d & 1);
  }

  lemma HalfXor(c: bv32, d: bv32)
    ensures Half(Xor(c, d)) == Xor(Half(c), Half(d))
  {
    assert (c ^ d) >> 1 == (c >> 1) ^ (d >> 1);
  }

  lemma {:induction false} Commutes<T(!new)>(f: T -> T, mix: (T, T) -> T, x: T, y: T, n: nat)
    requires forall a, b :: f(mix(a, b)) == mix(f(a), f(b))
    ensures Iterate(f, mix(x, y), n) == mix(Iterate(f, x, n), Iterate(f, y, n))
  {
    if n > 0 {
      Commutes(f, mix, x, y, n - 1);
    }
  }

  lemma {:induction false} InTwoParts<T>(f: T -> T, x: T, k: nat, n: nat)
    ensures Iterate(f, x, k + n) == Iterate(f, Iterate(f, x, k), n)
  {
    if n > 0 {
      InTwoParts(f, x, k, n - 1);
    }
  }

  lemma BitXor(c: bv32, d: bv32, i: nat)
    ensures Bit(Xor(c, d), i) <==> Bit(c, i) != Bit(d, i)
  {
    forall a: bv32, b: bv32 ensures Half(Xor(a, b)) == Xor(Half(a), Half(b)) {
      HalfXor(a, b);
    }
    Commutes(Half, Xor, c, d, i);
    LowXor(Iterate(Half, c, i), Iterate(Half, d, i));
  }

  lemma Shifted(c: bv32)
    ensures Iterate(Half, c, 1) == c >> 1 && Iterate(Half, c, 2) == c >> 2
    ensures Iterate(Half, c, 3) == c >> 3 && Iterate(Half, c, 4) == c >> 4
  {
    assert Iterate(Half, c, 0) == c;
    assert Iterate(Half, c, 1) == c >> 1;
    assert Iterate(Half, c, 2) == c >> 1 >> 1 == c >> 2;
    assert Iterate(Half, c, 3) == c >> 2 >> 1 == c >> 3;
    assert Iterate(Half, c, 4) == c >> 3 >> 1 == c >> 4;
  }

  lemma BitDown4(c: bv32, i: nat)
    requires i >= 4
    ensures Bit(c, i) == Bit(c >> 4, i - 4)
  {
    Shifted(c);
    InTwoParts(Half, c, 4, i - 4);
  }

  lemma BitDown8(c: bv32, i: nat)
    requires i >= 8
    ensures Bit(c, i) == Bit(c >> 8, i - 8)
  {
    BitDown4(c, i);
    BitDown4(c >> 4, i - 4);
    assert c >> 4 >> 4 == c >> 8;
  }

  lemma BitDown16(c: bv32, i: nat)
    requires i >= 16
    ensures Bit(c, i) == Bit(c >> 16, i - 16)
  {
    BitDown8(c, i);
    BitDown8(c >> 8, i - 8);
    assert c >> 8 >> 8 == c >> 16;
  }

  lemma NoBit32(c: bv32)
    ensures !Bit(c, 32)
  {
    BitDown16(c, 32);
    BitDown16(c >> 16, 16);
    assert c >> 16 >> 16 == 0;
  }

  /** The four lowest bits. */
  lemma Nibble(c: bv32)
    ensures Bit(c, 0) == (c & 1 == 1) && Bit(c, 1) == (c & 2 == 2) && Bit(c, 2) == (c & 4 == 4)
    ensures Bit(c, 3) == (c & 8 == 8)
  {
    Shifted(c);
    assert ((c >> 1) & 1 == 1) <==> (c & 2 == 2);
    assert ((c >> 2) & 1 == 1) <==> (c & 4 == 4);
    assert ((c >> 3) & 1 == 1) <==> (c & 8 == 8);
  }

  /** A bit among the sixteen lowest, found nibble by nibble. */
  function Bit4(c: bv32, i: nat): bool
    requires i < 16
  {
    if i < 4 then Bit(c, i)
    else if i < 8 then Bit(c >> 4, i - 4)
    else if i < 12 then Bit(c >> 8, i - 8)
    else Bit(c >> 8 >> 4, i - 12)
  }

  lemma Bit4Is(c: bv32, i: nat)
    requires i < 16
    ensures Bit(c, i) == Bit4(c, i)
  {
    if 4 <= i < 8 {
      BitDown4(c, i);
    } else if 8 <= i < 12 {
      BitDown8(c, i);
    } else if 12 <= i {
      BitDown8(c, i);
      BitDown4(c >> 8, i - 8);
    }
  }

  lemma PolyLowBits(i: nat)
    requires i < 16
    ensures Bit(POLY, i) <==> 31 - i in GENERATOR
  {
    var c: bv32 := POLY;
    assert c >> 4 == 0x0EDB_8832 && c >> 8 == 0x00ED_B883 && c >> 8 >> 4 == 0x000E_DB88;
    Nibble(0xEDB8_8320);
    Nibble(0x0EDB_8832);
    Nibble(0x00ED_B883);
    Nibble(0x000E_DB88);
    Bit4Is(c, i);
  }

  lemma PolyHighBits(i: nat)
    requires i < 16
    ensures Bit(POLY, i + 16) <==> 15 - i in GENERATOR
  {
    var h: bv32 := POLY >> 16;
    assert h == 0x0000_EDB8 && h >> 4 == 0xEDB && h >> 8 == 0xED && h >> 8 >> 4 == 0xE;
    Nibble(0xEDB8);
    Nibble(0xEDB);
    Nibble(0xED);
    Nibble(0xE);
    BitDown16(POLY, i + 16);
    Bit4Is(h, i);
  }

  /** The constant of the code is the generator, its highest power left out. */
  lemma PolyIsGenerator()
    ensures PolyOf(POLY) == GENERATOR - {32}
  {
    forall k: nat ensures k in PolyOf(POLY) <==> k in GENERATOR - {32} {
      if 16 <= k < 32 { PolyLowBits(31 - k); }
      if k < 16 { PolyHighBits(15 - k); }
    }
  }

  lemma AllOnes(i: nat)
    requires i < 32
    ensures Bit(START, i)
  {
    var h: bv32 := START >> 16;
    assert h == 0xFFFF && h >> 4 == 0xFFF && h >> 8 == 0xFF && h >> 8 >> 4 == 0xF;
    assert START >> 4 == 0x0FFF_FFFF && START >> 8 == 0x00FF_FFFF && START >> 8 >> 4 == 0x000F_FFFF;
    Nibble(START);
    Nibble(0x0FFF_FFFF);
    Nibble(0x00FF_FFFF);
    Nibble(0x000F_FFFF);
    Nibble(0xFFFF);
    Nibble(0xFFF);
    Nibble(0xFF);
    Nibble(0xF);
    if i < 16 {
      Bit4Is(START, i);
    } else {
      BitDown16(START, i);
      Bit4Is(h, i - 16);
    }
  }

  /** The register starts with all its coefficients one. */
  lemma StartIsOnes()
    ensures PolyOf(START) == Ones(32)
  {
    forall i: nat | i < 32 ensures Bit(START, i) {
      AllOnes(i);
    }
  }

  /** The sum is the complement of the register. */
  lemma FinalIsComplement(c: bv32)
    ensures PolyOf(Final(c)) == Ones(32) - PolyOf(c)
  {
    forall k: nat ensures k in PolyOf(Final(c)) <==> k in Ones(32) - PolyOf(c) {
      if k < 32 {
        AllOnes(31 - k);
        BitXor(c, START, 31 - k);
        assert Has(Xor(c, START), k) <==> !Has(c, k);
      }
    }
  }

  // ------------------------------------------------------------------
  // One bit is one step of the division
  // ------------------------------------------------------------------

  function AsBit(b: bool): bv32 { if b then 1 else 0 }

  lemma HalfBit(c: bv32, i: nat)
    ensures Bit(Half(c), i) == Bit(c, i + 1)
  {
    InTwoParts(Half, c, 1, i);
    assert Iterate(Half, c, 1) == Half(Iterate(Half, c, 0)) == Half(c);
  }

  lemma HalfIsTimesX(c: bv32)
    ensures PolyOf(Half(c)) == TimesX(PolyOf(c)) - {32}
  {
    NoBit32(c);
    forall k: nat ensures k in PolyOf(Half(c)) <==> k in TimesX(PolyOf(c)) - {32} {
      if k < 32 {
        HalfBit(c, 31 - k);
        assert k > 0 ==> (Has(c, k - 1) <==> Bit(c, 32 - k));
      }
    }
  }

  lemma XorIsAdd(c: bv32, d: bv32)
    ensures PolyOf(Xor(c, d)) == Add(PolyOf(c), PolyOf(d))
  {
    forall k: nat ensures k in PolyOf(Xor(c, d)) <==> k in Add(PolyOf(c), PolyOf(d)) {
      if k < 32 {
        BitXor(c, d, 31 - k);
        assert Has(Xor(c, d), k) <==> Has(c, k) != Has(d, k);
      }
    }
  }

  /** Reducing with or without the highest power comes to the same. */
  lemma Reduced(x: Poly, e: Poly, g: Poly)
    requires e <= {32} && 32 in g
    ensures 32 in Add(x, e) ==> Add(x - {32}, g - {32}) == Add(Add(x, e), g)
    ensures 32 !in Add(x, e) ==> x - {32} == Add(x, e)
  {
  }

  lemma FeedCases(c: bv32, b: bool)
    ensures Feed(c, AsBit(b)) == if Low(c) != b then Xor(Half(c), POLY) else Half(c)
  {
    LowXor(c, AsBit(b));
  }

  lemma TopBit(c: bv32, b: bool)
    ensures 32 in Add(TimesX(PolyOf(c)), if b then {32} else {}) <==> Low(c) != b
  {
    assert 31 in PolyOf(c) <==> Has(c, 31);
    assert Has(c, 31) <==> Low(Iterate(Half, c, 0));
  }

  lemma FeedReduces(c: bv32, e: Poly)
    requires e <= {32} && 32 in Add(TimesX(PolyOf(c)), e)
    ensures PolyOf(Xor(Half(c), POLY)) == Add(Add(TimesX(PolyOf(c)), e), GENERATOR)
  {
    XorIsAdd(Half(c), POLY);
    PolyIsGenerator();
    HalfIsTimesX(c);
    Reduced(TimesX(PolyOf(c)), e, GENERATOR);
  }

  lemma FeedKeeps(c: bv32, e: Poly)
    requires e <= {32} && 32 !in Add(TimesX(PolyOf(c)), e)
    ensures PolyOf(Half(c)) == Add(Add(TimesX(PolyOf(c)), e), {})
  {
    HalfIsTimesX(c);
    Reduced(TimesX(PolyOf(c)), e, {32});
    assert Add(Add(TimesX(PolyOf(c)), e), {}) == Add(TimesX(PolyOf(c)), e);
  }

  /** Multiply by the variable, add the bit, and take away the generator if the highest power has come up. */
  lemma FeedDivides(c: bv32, b: bool)
    ensures var p := Add(TimesX(PolyOf(c)), if b then {32} else {});
            PolyOf(Feed(c, AsBit(b))) == Add(p, if 32 in p then GENERATOR else {})
  {
    TopBit(c, b);
    FeedCases(c, b);
    if Low(c) != b {
      FeedReduces(c, if b then {32} else {});
    } else {
      FeedKeeps(c, if b then {32} else {});
    }
  }

  function FeedAll(c: bv32, bits: seq<bool>): bv32 {
    if bits == [] then c else Feed(FeedAll(c, bits[..|bits| - 1]), AsBit(bits[|bits| - 1]))
  }

  /** What is divided: the message moved up by 32 powers, and the start value added to its highest ones. */
  function Dividend(bits: seq<bool>): Poly { Add(Raised(Message(bits), 32), Raised(Ones(32), |bits|)) }

  lemma DividendAlgebra(m: Poly, z: Poly, o: Poly, n: nat)
    ensures Add(Raised(Add(TimesX(m), z), 32), Raised(o, n + 1))
            == Add(TimesX(Add(Raised(m, 32), Raised(o, n))), Raised(z, 32))
  {
    var l, r := Add(Raised(Add(TimesX(m), z), 32), Raised(o, n + 1)),
        Add(TimesX(Add(Raised(m, 32), Raised(o, n))), Raised(z, 32));
    forall k: nat ensures k in l <==> k in r {
      assert k in Raised(o, n + 1) <==> k > 0 && k - 1 in Raised(o, n);
      if k >= 32 {
        assert k - 32 in Add(TimesX(m), z) <==> (k - 32 in TimesX(m)) != (k - 32 in z);
        assert k - 32 in TimesX(m) <==> k - 1 in Raised(m, 32);
      }
    }
  }

  lemma DividendStep(bits: seq<bool>)
    requires bits != []
    ensures Dividend(bits) == Add(TimesX(Dividend(bits[..|bits| - 1])), if bits[|bits| - 1] then {32} else {})
  {
    var init, b := bits[..|bits| - 1], bits[|bits| - 1];
    DividendAlgebra(Message(init), Unit(b), Ones(32), |init|);
    RaisedUnit(b);
  }

  lemma RaisedUnit(b: bool)
    ensures Raised(Unit(b), 32) == if b then {32} else {}
  {
  }

  lemma MultipleStep(q: seq<bool>, b: bool)
    ensures Multiple(q + [b]) == Add(TimesX(Multiple(q)), if b then GENERATOR else {})
  {
    assert (q + [b])[..|q|] == q;
  }

  /** The quotient, and the register as the remainder, for any bits. */
  lemma {:induction false} FeedIsRemainder(bits: seq<bool>) returns (q: seq<bool>)
    ensures |q| == |bits| && Dividend(bits) == Add(Multiple(q), PolyOf(FeedAll(START, bits)))
    decreases |bits|
  {
    if bits == [] {
      q := [];
      StartIsOnes();
      assert Dividend(bits) == Ones(32);
    } else {
      var init, b := bits[..|bits| - 1], bits[|bits| - 1];
      var q0 := FeedIsRemainder(init);
      var c := FeedAll(START, init);
      var p := Add(TimesX(PolyOf(c)), if b then {32} else {});
      q := q0 + [32 in p];
      FeedDivides(c, b);
      DividendStep(bits);
      MultipleStep(q0, 32 in p);
      StepAlgebra(Multiple(q0), PolyOf(c), if b then {32} else {}, if 32 in p then GENERATOR else {});
    }
  }

  lemma StepAlgebra(m: Poly, r: Poly, e: Poly, g: Poly)
    ensures Add(TimesX(Add(m, r)), e) == Add(Add(TimesX(m), g), Add(Add(TimesX(r), e), g))
  {
    var lhs, rhs := Add(TimesX(Add(m, r)), e), Add(Add(TimesX(m), g), Add(Add(TimesX(r), e), g));
    forall k: nat ensures k in lhs <==> k in rhs {
      assert k in TimesX(Add(m, r)) <==> (k in TimesX(m)) != (k in TimesX(r));
    }
  }

  // ------------------------------------------------------------------
  // Bytes
  // ------------------------------------------------------------------

  /** The bits of a byte as they are sent, the lowest first. */
  function ByteBits(b: bv8): (bits: seq<bool>)
    ensures |bits| == 8 && forall i :: 0 <= i < 8 ==> bits[i] == HasBit(b, i)
  {
    seq(8, i requires 0 <= i < 8 => HasBit(b, i))
  }

  function DataBits(data: seq<bv8>): (bits: seq<bool>)
    ensures |bits| == 8 * |data|
  {
    if data == [] then [] else DataBits(data[..|data| - 1]) + ByteBits(data[|data| - 1])
  }

  lemma FeedLow(c: bv32, x: bv32)
    ensures Feed(c, x) == Feed(c, AsBit(Low(x)))
  {
    LowXor(c, x);
    LowXor(c, AsBit(Low(x)));
  }

  lemma LowBits(b: bv8, i: nat)
    requires i < 8
    ensures Bit(b as bv32, i) <==> HasBit(b, i)
  {
    var d := b as bv32;
    Nibble(d);
    Nibble(d >> 4);
    if i >= 4 { BitDown4(d, i); }
    ByteNibbles(b);
  }

  lemma ByteNibbles(b: bv8)
    ensures var d := b as bv32;
            && (d & 1 == 1 <==> b & 0x01 != 0) && (d & 2 == 2 <==> b & 0x02 != 0)
            && (d & 4 == 4 <==> b & 0x04 != 0) && (d & 8 == 8 <==> b & 0x08 != 0)
            && ((d >> 4) & 1 == 1 <==> b & 0x10 != 0) && ((d >> 4) & 2 == 2 <==> b & 0x20 != 0)
            && ((d >> 4) & 4 == 4 <==> b & 0x40 != 0) && ((d >> 4) & 8 == 8 <==> b & 0x80 != 0)
  {
  }

  lemma {:induction false} FeedsAreFeedAll(c: bv32, b: bv8, n: nat)
    requires n <= 8
    ensures FeedBits(c, b as bv32, n) == FeedAll(c, ByteBits(b)[..n])
  {
    if n > 0 {
      FeedsAreFeedAll(c, b, n - 1);
      assert ByteBits(b)[..n][..n - 1] == ByteBits(b)[..n - 1];
      LowBits(b, n - 1);
      FeedLow(FeedBits(c, b as bv32, n - 1), Iterate(Half, b as bv32, n - 1));
    }
  }

  lemma {:induction false} FeedAllAppend(c: bv32, a: seq<bool>, b: seq<bool>)
    ensures FeedAll(c, a + b) == FeedAll(FeedAll(c, a), b)
    decreases |b|
  {
    if b == [] {
      assert a + b == a;
    } else {
      var init := b[..|b| - 1];
      FeedAllAppend(c, a, init);
      assert (a + b)[..|a + b| - 1] == a + init;
    }
  }

  lemma {:induction false} RegisterIsFeedAll(data: seq<bv8>)
    ensures Register(data) == FeedAll(START, DataBits(data))
  {
    if data != [] {
      var init, b := data[..|data| - 1], data[|data| - 1];
      RegisterIsFeedAll(init);
      ByteIsEightBits(Register(init), b);
      FeedsAreFeedAll(Register(init), b, 8);
      assert ByteBits(b)[..8] == ByteBits(b);
      FeedAllAppend(START, DataBits(init), ByteBits(b));
    }
  }

  /**
   * For any data: divide the bits as they are sent, moved up by 32 powers and with ones added to the first 32, by
   * the generator. The sum is the complement of the remainder.
   */
  lemma SumIsRemainder(data: seq<bv8>) returns (q: seq<bool>, r: Poly)
    ensures Add(Raised(Message(DataBits(data)), 32), Raised(Ones(32), 8 * |data|)) == Add(Multiple(q), r)
    ensures (forall k :: k in r ==> k < 32) && PolyOf(Crc32(data)) == Ones(32) - r
  {
    q := FeedIsRemainder(DataBits(data));
    RegisterIsFeedAll(data);
    r := PolyOf(Register(data));
    FinalIsComplement(Register(data));
  }
}
