/**
 * The CRC-32 of section 3.2.9 of IEEE 802.3, as the two update paths compute it
 * (one by a branch, one without) and as a shift register fed one bit at a time.
 */
module Crc {
  const POLY: bv32 := 0xEDB8_8320
  const START: bv32 := 0xFFFF_FFFF

  /** One shift of the register, by cases on the bit that falls out. */
  function Shift(c: bv32): bv32 {
    if c & 1 == 1 then (c >> 1) ^ POLY else c >> 1
  }

  function Iterate<T>(f: T -> T, x: T, n: nat): T {
    if n == 0 then x else f(Iterate(f, x, n - 1))
  }

  function Shifts(c: bv32, n: nat): bv32 { Iterate(Shift, c, n) }

  /** One byte: mixed into the low end, then shifted out. */
  function ByteStep(c: bv32, b: bv8): bv32 {
    Shifts(c ^ (b as bv32), 8)
  }

  function Register(data: seq<bv8>): bv32 {
    if data == [] then START else ByteStep(Register(data[..|data| - 1]), data[|data| - 1])
  }

  /** The sum is the register's complement. */
  function Final(c: bv32): bv32 { c ^ START }

  function Crc32(data: seq<bv8>): bv32 { Final(Register(data)) }

  lemma RegisterSnoc(data: seq<bv8>, b: bv8)
    ensures Register(data + [b]) == ByteStep(Register(data), b)
  {
    assert (data + [b])[..|data|] == data;
  }

  /** The shift written without a branch: the polynomial is masked by the negated low bit. */
  function BranchFree(c: bv32): bv32 {
    (c >> 1) ^ (POLY & (0 - (c & 1)))
  }

  lemma BranchFreeIsShift(c: bv32)
    ensures BranchFree(c) == Shift(c)
  {
    assert c & 1 == 0 || c & 1 == 1;
    if c & 1 == 1 {
      assert (0 as bv32) - 1 == 0xFFFF_FFFF;
    }
  }

  method StepByte(c: bv32, b: bv8) returns (r: bv32)
    ensures r == ByteStep(c, b)
  {
    r := c ^ (b as bv32);
    for j := 0 to 8
      invariant r == Shifts(c ^ (b as bv32), j)
    {
      BranchFreeIsShift(r);
      r := (r >> 1) ^ (POLY & (0 - (r & 1)));
    }
  }

  method StepByteBranching(c: bv32, b: bv8) returns (r: bv32)
    ensures r == ByteStep(c, b)
  {
    r := c ^ (b as bv32);
    for j := 0 to 8
      invariant r == Shifts(c ^ (b as bv32), j)
    {
      if r & 1 == 1 { r := (r >> 1) ^ POLY; } else { r := r >> 1; }
    }
  }

  // ------------------------------------------------------------------
  // Against the bit-serial register
  // ------------------------------------------------------------------

  /** A linear-feedback register fed one bit: the bit joins the one that falls out. */
  function Feed(c: bv32, bit: bv32): bv32 {
    if (c ^ bit) & 1 == 1 then (c >> 1) ^ POLY else c >> 1
  }

  function Half(x: bv32): bv32 { x >> 1 }

  function Xor(a: bv32, b: bv32): bv32 { a ^ b }

  /** A register fed `n` times with an input that is moved on each time. */
  function Feeds<T>(feed: (T, T) -> T, next: T -> T, r: T, x: T, n: nat): T {
    if n == 0 then r else feed(Feeds(feed, next, r, x, n - 1), Iterate(next, x, n - 1))
  }

  /** The register after the low `n` bits of `d`, least significant first. */
  function FeedBits(c: bv32, d: bv32, n: nat): bv32 { Feeds(Feed, Half, c, d, n) }

  lemma HalfOfXor(r: bv32, x: bv32)
    ensures (r ^ x) >> 1 == (r >> 1) ^ (x >> 1)
    ensures ((r ^ x) >> 1) ^ POLY == ((r >> 1) ^ POLY) ^ (x >> 1)
  {
  }

  lemma ShiftMixedOdd(r: bv32, x: bv32)
    requires (r ^ x) & 1 == 1
    ensures Shift(r ^ x) == Feed(r, x) ^ (x >> 1)
  {
    HalfOfXor(r, x);
    assert Shift(r ^ x) == ((r ^ x) >> 1) ^ POLY;
    assert Feed(r, x) == (r >> 1) ^ POLY;
  }

  lemma ShiftMixedEven(r: bv32, x: bv32)
    requires (r ^ x) & 1 != 1
    ensures Shift(r ^ x) == Feed(r, x) ^ (x >> 1)
  {
    HalfOfXor(r, x);
    assert Shift(r ^ x) == (r ^ x) >> 1;
    assert Feed(r, x) == r >> 1;
  }

  lemma ShiftMixed(r: bv32, x: bv32)
    ensures Shift(Xor(r, x)) == Xor(Feed(r, x), Half(x))
  {
    if (r ^ x) & 1 == 1 {
      ShiftMixedOdd(r, x);
    } else {
      ShiftMixedEven(r, x);
    }
  }

  /** If one shift of the mixture is one feed beside one move of the input, so are any number of them. */
  lemma {:induction false} Simulates<T(!new)>(shift: T -> T, feed: (T, T) -> T, next: T -> T, mix: (T, T) -> T,
                                       r: T, x: T, n: nat)
    requires forall a, b :: shift(mix(a, b)) == mix(feed(a, b), next(b))
    ensures Iterate(shift, mix(r, x), n) == mix(Feeds(feed, next, r, x, n), Iterate(next, x, n))
  {
    if n > 0 {
      Simulates(shift, feed, next, mix, r, x, n - 1);
    }
  }

  lemma NothingLeft(b: bv8)
    ensures Iterate(Half, b as bv32, 8) == 0
  {
    var d := b as bv32;
    var d2 := d >> 1 >> 1;
    var d4 := d2 >> 1 >> 1;
    var d6 := d4 >> 1 >> 1;
    assert Iterate(Half, d, 1) == d >> 1 && Iterate(Half, d, 2) == d2;
    assert Iterate(Half, d, 3) == d2 >> 1 && Iterate(Half, d, 4) == d4;
    assert Iterate(Half, d, 5) == d4 >> 1 && Iterate(Half, d, 6) == d6;
    assert Iterate(Half, d, 7) == d6 >> 1;
    assert d6 >> 1 >> 1 == 0;
  }

  /** Mixing in a whole byte and shifting eight times is feeding its eight bits in order. */
  lemma ByteIsEightBits(c: bv32, b: bv8)
    ensures ByteStep(c, b) == FeedBits(c, b as bv32, 8)
  {
    forall r: bv32, x: bv32 ensures Shift(Xor(r, x)) == Xor(Feed(r, x), Half(x)) {
      ShiftMixed(r, x);
    }
    Simulates(Shift, Feed, Half, Xor, c, b as bv32, 8);
    NothingLeft(b);
    XorZero(FeedBits(c, b as bv32, 8));
  }

  lemma XorZero(x: bv32)
    ensures Xor(x, 0) == x
  {
  }
}
