/** Bytes, little-endian fields, counters and the few sequence facts several components share. */
module Bytes {
  type byte = x: int | 0 <= x < 256

  datatype Option<+T> = None | Some(value: T)

  /** `s` with the bytes of `d` written over it from `off` on. */
  function Overwrite<T>(s: seq<T>, off: nat, d: seq<T>): (r: seq<T>)
    requires off + |d| <= |s|
    ensures |r| == |s|
    ensures forall k :: 0 <= k < |s| ==> r[k] == if off <= k < off + |d| then d[k - off] else s[k]
  {
    s[..off] + d + s[off + |d|..]
  }

  lemma SliceOfSlice<T>(s: seq<T>, a: nat, b: nat, i: nat, j: nat)
    requires i <= j <= b - a && b <= |s|
    ensures s[a..b][i..j] == s[a + i..a + j]
  {
    var x, y := s[a..b][i..j], s[a + i..a + j];
    assert |x| == |y| == j - i;
    forall k | 0 <= k < j - i ensures x[k] == y[k] {
      assert x[k] == s[a..b][i + k] == s[a + i + k] == y[k];
    }
  }

  function Repeat<T>(x: T, n: nat): (s: seq<T>)
    ensures |s| == n && forall i :: 0 <= i < n ==> s[i] == x
  {
    seq(n, _ => x)
  }

  /** The position after `i` in a ring. */
  function Next(i: nat, size: nat): (n: nat)
    requires i < size
    ensures n < size && n == (i + 1) % size
  {
    if i + 1 == size then assert size % size == 0; 0 else i + 1
  }

  /** The difference of two 32-bit millisecond counters, as unsigned subtraction gives it. */
  function Elapsed(now: nat, since: nat): (d: nat)
    ensures since <= now < since + 0x1_0000_0000 ==> d == now - since
  {
    (now - since) % 0x1_0000_0000
  }

  function Min(a: int, b: int): int { if a <= b then a else b }

  /** Concatenation of a list of byte strings, first to last. */
  function Concat<T>(parts: seq<seq<T>>): seq<T> {
    if parts == [] then [] else parts[0] + Concat(parts[1..])
  }

  lemma {:induction false} ConcatAppend<T>(a: seq<seq<T>>, b: seq<seq<T>>)
    ensures Concat(a + b) == Concat(a) + Concat(b)
  {
    if a == [] {
      assert a + b == b;
    } else {
      var rest := a[1..];
      ConcatAppend(rest, b);
      assert (a + b)[0] == a[0] && (a + b)[1..] == rest + b;
      assert Concat(a + b) == a[0] + Concat(rest + b) == (a[0] + Concat(rest)) + Concat(b);
    }
  }

  lemma ConcatSnoc<T>(a: seq<seq<T>>, x: seq<T>)
    ensures Concat(a + [x]) == Concat(a) + x
  {
    ConcatAppend(a, [x]);
    assert Concat([x]) == x + Concat([]);
  }

  lemma {:induction false} SubsetSize<T>(a: set<T>, b: set<T>)
    requires a <= b
    ensures |a| <= |b|
  {
    if a != {} {
      var x :| x in a;
      SubsetSize(a - {x}, b - {x});
    }
  }

  /** Little-endian value of up to four bytes. */
  function Le16(b0: byte, b1: byte): (r: nat)
    ensures r < 0x1_0000
  {
    b0 + 256 * b1
  }

  function Le32(b0: byte, b1: byte, b2: byte, b3: byte): (r: nat)
    ensures r < 0x1_0000_0000
  {
    b0 + 256 * b1 + 0x1_0000 * b2 + 0x100_0000 * b3
  }

  function ToLe16(v: nat): (r: seq<byte>)
    requires v < 0x1_0000
    ensures |r| == 2 && Le16(r[0], r[1]) == v
  {
    [v % 256, v / 256]
  }

  function ToLe32(v: nat): (r: seq<byte>)
    requires v < 0x1_0000_0000
    ensures |r| == 4 && Le32(r[0], r[1], r[2], r[3]) == v
  {
    var v1 := v / 256;
    var v2 := v1 / 256;
    [v % 256, v1 % 256, v2 % 256, v2 / 256]
  }

  // ------------------------------------------------------------------
  // Subsequences
  // ------------------------------------------------------------------

  /** What is left of `b` when some of its elements are dropped. */
  predicate Subsequence<T(==)>(a: seq<T>, b: seq<T>) {
    a == [] || (b != [] && ((a[0] == b[0] && Subsequence(a[1..], b[1..])) || Subsequence(a, b[1..])))
  }

  lemma {:induction false} SubsequenceSnoc<T>(a: seq<T>, b: seq<T>, x: T)
    requires Subsequence(a, b)
    ensures Subsequence(a, b + [x]) && Subsequence(a + [x], b + [x])
    decreases |b|
  {
    if b == [] {
      assert b + [x] == [x] && a + [x] == [x] && [x][1..] == [];
    } else {
      assert (b + [x])[1..] == b[1..] + [x];
      if a == [] {
        SubsequenceSnoc(a, b[1..], x);
      } else {
        assert (a + [x])[1..] == a[1..] + [x];
        if a[0] == b[0] && Subsequence(a[1..], b[1..]) {
          SubsequenceSnoc(a[1..], b[1..], x);
        } else {
          SubsequenceSnoc(a, b[1..], x);
        }
      }
    }
  }

  lemma {:induction false} SubsequenceTrans<T>(a: seq<T>, b: seq<T>, c: seq<T>)
    requires Subsequence(a, b) && Subsequence(b, c)
    ensures Subsequence(a, c)
    decreases |c|
  {
    if a != [] && b != [] {
      if b[0] == c[0] && Subsequence(b[1..], c[1..]) {
        if a[0] == b[0] && Subsequence(a[1..], b[1..]) {
          SubsequenceTrans(a[1..], b[1..], c[1..]);
        } else {
          SubsequenceTrans(a, b[1..], c[1..]);
        }
      } else {
        SubsequenceTrans(a, b, c[1..]);
      }
    }
  }

  lemma {:induction false} PrefixIsSubsequence<T>(a: seq<T>, b: seq<T>)
    requires a <= b
    ensures Subsequence(a, b)
    decreases |a|
  {
    if a != [] {
      PrefixIsSubsequence(a[1..], b[1..]);
    }
  }

  lemma {:induction false} SubsequencePrepend<T>(p: seq<T>, a: seq<T>, b: seq<T>)
    requires Subsequence(a, b)
    ensures Subsequence(p + a, p + b) && Subsequence(a, p + b)
    decreases |p|
  {
    if p == [] {
      assert p + a == a && p + b == b;
    } else {
      var rest := p[1..];
      SubsequencePrepend(rest, a, b);
      assert (p + a)[1..] == rest + a && (p + b)[1..] == rest + b;
    }
  }

  lemma {:induction false} SubsequenceAppend<T>(a: seq<T>, b: seq<T>, r: seq<T>)
    requires Subsequence(a, b)
    ensures Subsequence(a + r, b + r)
    decreases |r|
  {
    if r == [] {
      assert a + r == a && b + r == b;
    } else {
      var init, x := r[..|r| - 1], r[|r| - 1];
      SubsequenceAppend(a, b, init);
      SubsequenceSnoc(a + init, b + init, x);
      assert a + r == (a + init) + [x] && b + r == (b + init) + [x];
    }
  }
}
