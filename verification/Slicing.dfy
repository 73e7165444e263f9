/**
 * How the manager divides the channel range among the nodes that scan WiFi:
 * contiguous slices by floor division, in the order of the node list.
 */
module Slicing {
  import opened Bytes

  type Id = seq<byte>

  datatype RadioEntry = RadioEntry(id: Id, radio: byte)

  const BOTH_RADIOS: byte := 3

  /** The radio mask configured for a node: the first entry of its id, else both radios. */
  function RadioOf(radios: seq<RadioEntry>, id: Id): byte {
    if radios == [] then BOTH_RADIOS else if radios[0].id == id then radios[0].radio else RadioOf(radios[1..], id)
  }

  lemma {:induction false} RadioConfigured(radios: seq<RadioEntry>, id: Id, i: nat)
    requires i <= |radios| && (forall j :: 0 <= j < i ==> radios[j].id != id) && (i < |radios| ==> radios[i].id == id)
    ensures RadioOf(radios, id) == if i < |radios| then radios[i].radio else 3
    decreases i
  {
    if i > 0 { RadioConfigured(radios[1..], id, i - 1); }
  }

  predicate Less(a: Id, b: Id) {
    b != [] && (a == [] || a[0] < b[0] || (a[0] == b[0] && Less(a[1..], b[1..])))
  }

  /** The node with the least id takes the drone scanning alone, if there are two nodes at least. */
  function Least(ids: seq<Id>, lo: nat, i: nat): (r: nat)
    requires lo < |ids| && i <= |ids|
    ensures r < |ids|
    decreases |ids| - i
  {
    if i == |ids| then lo else Least(ids, if Less(ids[i], ids[lo]) then i else lo, i + 1)
  }

  function Sky(fanout: bool, ids: seq<Id>): Option<Id> {
    if fanout && |ids| >= 2 then Some(ids[Least(ids, 0, 1)]) else None
  }

  /** At the first place where the two differ `a` has the lesser byte, or ends there. */
  ghost predicate Before(a: Id, b: Id, k: nat) {
    k <= |a| && k < |b| && a[..k] == b[..k] && (k == |a| || a[k] < b[k])
  }

  lemma {:induction false} LessExactly(a: Id, b: Id)
    ensures Less(a, b) <==> exists k: nat :: Before(a, b, k)
  {
    if b == [] {
    } else if a == [] || a[0] < b[0] {
      assert Before(a, b, 0);
    } else if a[0] == b[0] {
      LessExactly(a[1..], b[1..]);
      if k: nat :| Before(a[1..], b[1..], k) {
        assert a[..k + 1] == [a[0]] + a[1..][..k] && b[..k + 1] == [b[0]] + b[1..][..k];
        assert Before(a, b, k + 1);
      }
      if k: nat :| Before(a, b, k) {
        assert k > 0 && a[1..][..k - 1] == a[..k][1..] && b[1..][..k - 1] == b[..k][1..];
        assert Before(a[1..], b[1..], k - 1);
      }
    }
  }

  lemma {:induction false} LessTrans(a: Id, b: Id, c: Id)
    requires Less(a, b) && Less(b, c)
    ensures Less(a, c)
  {
    if a != [] && a[0] == c[0] { LessTrans(a[1..], b[1..], c[1..]); }
  }

  lemma {:induction false} LessIrreflexive(a: Id)
    ensures !Less(a, a)
  {
    if a != [] { LessIrreflexive(a[1..]); }
  }

  lemma {:induction false} LeastIsLeast(ids: seq<Id>, lo: nat, i: nat, j: nat)
    requires lo < |ids| && i <= |ids| && j < |ids| && forall k :: 0 <= k < i ==> !Less(ids[k], ids[lo])
    ensures !Less(ids[j], ids[Least(ids, lo, i)])
    decreases |ids| - i
  {
    if i < |ids| {
      var lo1 := if Less(ids[i], ids[lo]) then i else lo;
      forall k | 0 <= k < i + 1 ensures !Less(ids[k], ids[lo1]) {
        LessIrreflexive(ids[lo1]);
        if Less(ids[k], ids[lo1]) && lo1 == i && k != i { LessTrans(ids[k], ids[i], ids[lo]); }
      }
      LeastIsLeast(ids, lo1, i + 1, j);
    }
  }

  /** The drone node, if there is one, is one of the nodes, and no other comes before it. */
  lemma SkyIsLeast(ids: seq<Id>, fanout: bool)
    ensures Sky(fanout, ids).Some? <==> fanout && |ids| >= 2
    ensures fanout && |ids| >= 2 ==>
              Sky(fanout, ids).value in ids
              && forall j, k: nat :: 0 <= j < |ids| ==> !Before(ids[j], Sky(fanout, ids).value, k)
  {
    if fanout && |ids| >= 2 {
      LessIrreflexive(ids[0]);
      forall j, k: nat | 0 <= j < |ids| ensures !Before(ids[j], Sky(fanout, ids).value, k) {
        LeastIsLeast(ids, 0, 1, j);
        LessExactly(ids[j], Sky(fanout, ids).value);
      }
    }
  }

  /** Scans WiFi in the slicing: the radio bit is set and it is not the drone node. */
  predicate Scans(radios: seq<RadioEntry>, sky: Option<Id>, id: Id) {
    sky != Some(id) && RadioOf(radios, id) % 2 == 1
  }

  /** How many of the first `i` nodes scan. */
  function Rank(radios: seq<RadioEntry>, sky: Option<Id>, ids: seq<Id>, i: nat): (k: nat)
    requires i <= |ids|
    ensures k <= i
  {
    if i == 0 then 0 else Rank(radios, sky, ids, i - 1) + if Scans(radios, sky, ids[i - 1]) then 1 else 0
  }

  // ------------------------------------------------------------------
  // The arithmetic of one slice
  // ------------------------------------------------------------------

  function U8(x: int): byte { x % 256 }

  function U16(x: int): nat { x % 0x1_0000 }

  /** The first and last channel asked for, with defaults for values out of range. */
  function First(cs: byte): byte { if cs < 1 || cs > 14 then 1 else cs }

  function Last(cs: byte, ce: byte): byte { if ce < First(cs) || ce > 14 then 11 else ce }

  function Span(lo: byte, hi: byte): nat { U16(hi - lo + 1) }

  /** Floor of `k` shares of `span` out of `n`. */
  function Cut(span: nat, n: nat, k: nat): nat
    requires n > 0
  {
    span * k / n
  }

  function SliceStart(lo: byte, hi: byte, n: nat, k: nat): byte
    requires n > 0
  {
    U8(lo + Cut(Span(lo, hi), n, k))
  }

  function SliceEnd(lo: byte, hi: byte, n: nat, k: nat): byte
    requires n > 0
  {
    var s, e := SliceStart(lo, hi, n, k), U8(lo + Cut(Span(lo, hi), n, k + 1) - 1);
    if e < s then s else e
  }

  /** What a node is told: its radio mask and its channels. */
  datatype Share = Share(id: Id, radio: byte, start: byte, end: byte)

  function ShareOf(radios: seq<RadioEntry>, sky: Option<Id>, ids: seq<Id>, lo: byte, hi: byte, n: nat, i: nat): Share
    requires i < |ids|
  {
    var id := ids[i];
    if Scans(radios, sky, id) && n > 1 then
      var k := Rank(radios, sky, ids, i);
      Share(id, RadioOf(radios, id), SliceStart(lo, hi, n, k), SliceEnd(lo, hi, n, k))
    else Share(id, RadioOf(radios, id), lo, hi)
  }

  method FindLeast(ids: seq<Id>) returns (lo: nat)
    requires |ids| >= 2
    ensures lo < |ids| && lo == Least(ids, 0, 1)
  {
    lo := 0;
    for i := 1 to |ids|
      invariant lo < |ids| && Least(ids, 0, 1) == Least(ids, lo, i)
    {
      if Less(ids[i], ids[lo]) { lo := i; }
    }
  }

  method CountScanning(ids: seq<Id>, radios: seq<RadioEntry>, sky: Option<Id>) returns (n: nat)
    ensures n == Rank(radios, sky, ids, |ids|)
  {
    n := 0;
    for i := 0 to |ids|
      invariant n == Rank(radios, sky, ids, i)
    {
      if sky != Some(ids[i]) && RadioOf(radios, ids[i]) % 2 == 1 { n := n + 1; }
    }
  }

  /** The node's share when `k` scanning nodes precede it, and the count after it. */
  method NextShare(ids: seq<Id>, radios: seq<RadioEntry>, sky: Option<Id>, lo: byte, hi: byte, n: nat, i: nat, k: nat)
    returns (share: Share, k1: nat)
    requires i < |ids| && k == Rank(radios, sky, ids, i)
    ensures share == ShareOf(radios, sky, ids, lo, hi, n, i) && k1 == Rank(radios, sky, ids, i + 1)
  {
    var r := RadioOf(radios, ids[i]);
    var scans := sky != Some(ids[i]) && r % 2 == 1;
    var sStart, sEnd, span := lo, hi, U16(hi - lo + 1);
    if scans && n > 1 {
      sStart := U8(lo + Cut(span, n, k));
      sEnd := U8(lo + Cut(span, n, k + 1) - 1);
      if sEnd < sStart { sEnd := sStart; }
    }
    k1 := if scans then k + 1 else k;
    share := Share(ids[i], r, sStart, sEnd);
  }

  /** The manager's loop over the nodes that are not managers. */
  method SliceFleet(ids: seq<Id>, radios: seq<RadioEntry>, fanout: bool, cs: byte, ce: byte)
    returns (shares: seq<Share>)
    ensures |shares| == |ids|
    ensures var sky := Sky(fanout, ids);
            forall i :: 0 <= i < |ids| ==>
              shares[i] == ShareOf(radios, sky, ids, First(cs), Last(cs, ce), Rank(radios, sky, ids, |ids|), i)
  {
    var lo: byte, hi: byte := cs, ce;
    if lo < 1 || lo > 14 { lo := 1; }
    if hi < lo || hi > 14 { hi := 11; }
    var sky: Option<Id> := None;
    if fanout && |ids| >= 2 {
      var least := FindLeast(ids);
      sky := Some(ids[least]);
    }
    var n := CountScanning(ids, radios, sky);
    shares := [];
    var k := 0;
    for i := 0 to |ids|
      invariant |shares| == i && k == Rank(radios, sky, ids, i)
      invariant forall j :: 0 <= j < i ==> shares[j] == ShareOf(radios, sky, ids, lo, hi, n, j)
    {
      var share;
      share, k := NextShare(ids, radios, sky, lo, hi, n, i, k);
      shares := shares + [share];
    }
  }

  // ------------------------------------------------------------------
  // Facts about the cuts
  // ------------------------------------------------------------------

  lemma CutBounds(span: nat, n: nat, k: nat)
    requires n > 0
    ensures n * Cut(span, n, k) <= span * k < n * (Cut(span, n, k) + 1)
  {
    var a := span * k;
    assert a == n * (a / n) + a % n;
    assert n * (a / n + 1) == n * (a / n) + n;
  }

  lemma Distribute(n: int, a: int, b: int)
    ensures n * (a + b) == n * a + n * b
  {
  }

  lemma Scale(n: int, a: int, b: int)
    requires n > 0 && a <= b
    ensures n * a <= n * b
  {
    Distribute(n, a, b - a);
    assert n * (b - a) >= 0;
  }

  lemma Cancel(n: int, a: int, b: int)
    requires n > 0 && n * a < n * b
    ensures a < b
  {
    if b <= a {
      Scale(n, b, a);
    }
  }

  /** A floor is determined by its bounds. */
  lemma CutIs(span: nat, n: nat, k: nat, c: int)
    requires n > 0 && n * c <= span * k < n * (c + 1)
    ensures Cut(span, n, k) == c
  {
    CutBounds(span, n, k);
    Cancel(n, c, Cut(span, n, k) + 1);
    Cancel(n, Cut(span, n, k), c + 1);
  }

  lemma CutEnds(span: nat, n: nat)
    requires n > 0
    ensures Cut(span, n, 0) == 0 && Cut(span, n, n) == span
  {
    CutIs(span, n, 0, 0);
    Distribute(n, span, 1);
    CutIs(span, n, n, span);
  }

  /** Consecutive cuts differ by the quotient or one more. */
  lemma CutStep(span: nat, n: nat, k: nat)
    requires n > 0
    ensures Cut(span, n, k) + span / n <= Cut(span, n, k + 1) <= Cut(span, n, k) + span / n + 1
  {
    var q, c, d := span / n, Cut(span, n, k), Cut(span, n, k + 1);
    CutBounds(span, n, k);
    CutBounds(span, n, k + 1);
    var a, b := span * k, span * (k + 1);
    Distribute(span, k, 1);
    QuotientBounds(span, n);
    Distribute(n, c, q);
    Cancel(n, c + q, d + 1);
    Distribute(n, c + 1, q + 1);
    Cancel(n, d, c + q + 2);
  }

  lemma QuotientBounds(a: nat, n: nat)
    requires n > 0
    ensures n * (a / n) <= a < n * (a / n + 1) && a / n >= 0
    ensures n <= a ==> a / n >= 1
  {
    assert a == n * (a / n) + a % n;
    Distribute(n, a / n, 1);
    if n <= a {
      Cancel(n, 1, a / n + 1);
    }
  }

  lemma {:induction false} CutMonotone(span: nat, n: nat, j: nat, k: nat)
    requires n > 0 && j <= k
    ensures Cut(span, n, j) <= Cut(span, n, k)
    decreases k - j
  {
    if j < k {
      CutMonotone(span, n, j, k - 1);
      CutStep(span, n, k - 1);
      QuotientBounds(span, n);
    }
  }

  lemma CutInside(span: nat, n: nat, k: nat)
    requires 0 < n && k <= n
    ensures 0 <= Cut(span, n, k) <= span
  {
    CutEnds(span, n);
    CutMonotone(span, n, 0, k);
    CutMonotone(span, n, k, n);
  }

  /** A channel range the firmware's one-byte arithmetic handles exactly. */
  predicate Range(lo: byte, hi: byte) { 1 <= lo <= hi <= 14 }

  /**
   * Without the wrap-arounds: slice `k` runs from its cut to just before the next, and is one channel if
   * these coincide.
   */
  lemma SliceIs(lo: byte, hi: byte, n: nat, k: nat)
    requires Range(lo, hi) && k < n
    ensures var c, d := Cut(hi - lo + 1, n, k), Cut(hi - lo + 1, n, k + 1);
            && 0 <= c <= d <= hi - lo + 1
            && SliceStart(lo, hi, n, k) == lo + c
            && SliceEnd(lo, hi, n, k) == (if c < d then lo + d - 1 else lo + c)
  {
    var span := hi - lo + 1;
    assert Span(lo, hi) == span;
    CutInside(span, n, k);
    CutInside(span, n, k + 1);
    CutMonotone(span, n, k, k + 1);
    SliceOfCuts(lo, hi, n, k, Cut(span, n, k), Cut(span, n, k + 1));
  }

  lemma SliceOfCuts(lo: byte, hi: byte, n: nat, k: nat, c: nat, d: nat)
    requires Range(lo, hi) && k < n && c <= d <= hi - lo + 1
    requires Cut(Span(lo, hi), n, k) == c && Cut(Span(lo, hi), n, k + 1) == d
    ensures SliceStart(lo, hi, n, k) == lo + c
    ensures SliceEnd(lo, hi, n, k) == (if c < d then lo + d - 1 else lo + c)
  {
    Fits(lo + c);
    Fits(lo + d - 1);
  }

  lemma Fits(x: int)
    requires 0 <= x < 256
    ensures U8(x) == x
  {
  }

  /** A cut before the last is inside the range, so even an empty share is clamped to a channel of the range. */
  lemma CutBeforeEnd(span: nat, n: nat, k: nat)
    requires k < n && 0 < span
    ensures Cut(span, n, k) < span
  {
    CutBounds(span, n, k);
    Distribute(span, k, n - k);
    assert span * (n - k) > 0;
    Cancel(n, Cut(span, n, k), span);
  }

  lemma SliceInRange(lo: byte, hi: byte, n: nat, k: nat)
    requires Range(lo, hi) && k < n
    ensures lo <= SliceStart(lo, hi, n, k) <= SliceEnd(lo, hi, n, k) <= hi
  {
    SliceIs(lo, hi, n, k);
    CutBeforeEnd(hi - lo + 1, n, k);
  }

  /** The slice that holds a channel. */
  lemma {:induction false} Holder(lo: byte, hi: byte, n: nat, c: nat, m: nat) returns (k: nat)
    requires Range(lo, hi) && 0 < n && m <= n && lo <= c < lo + Cut(hi - lo + 1, n, m)
    ensures k < m && SliceStart(lo, hi, n, k) <= c <= SliceEnd(lo, hi, n, k)
    decreases m
  {
    CutEnds(hi - lo + 1, n);
    if c < lo + Cut(hi - lo + 1, n, m - 1) {
      k := Holder(lo, hi, n, c, m - 1);
    } else {
      k := m - 1;
      SliceIs(lo, hi, n, k);
    }
  }

  /** With no more scanning nodes than channels, slices do not meet and differ in size by one at most. */
  lemma SlicesBalanced(lo: byte, hi: byte, n: nat, j: nat, k: nat)
    requires Range(lo, hi) && j < k < n && n <= hi - lo + 1
    ensures SliceEnd(lo, hi, n, j) < SliceStart(lo, hi, n, k)
    ensures -1 <= (SliceEnd(lo, hi, n, j) - SliceStart(lo, hi, n, j)) -
        (SliceEnd(lo, hi, n, k) - SliceStart(lo, hi, n, k)) <= 1
  {
    var span := hi - lo + 1;
    QuotientBounds(span, n);
    CutStep(span, n, j);
    CutStep(span, n, k);
    CutMonotone(span, n, j + 1, k);
    SliceIs(lo, hi, n, j);
    SliceIs(lo, hi, n, k);
    CutBeforeEnd(span, n, j);
    CutBeforeEnd(span, n, k);
  }

  // ------------------------------------------------------------------
  // The whole fleet
  // ------------------------------------------------------------------

  /** For every rank there is a scanning node of that rank. */
  lemma {:induction false} NodeOfRank(radios: seq<RadioEntry>, sky: Option<Id>, ids: seq<Id>, m: nat, k: nat)
    returns (i: nat)
    requires m <= |ids| && k < Rank(radios, sky, ids, m)
    ensures i < m && Scans(radios, sky, ids[i]) && Rank(radios, sky, ids, i) == k
    decreases m
  {
    if k < Rank(radios, sky, ids, m - 1) {
      i := NodeOfRank(radios, sky, ids, m - 1, k);
    } else {
      i := m - 1;
    }
  }

  lemma {:induction false} RankBelow(radios: seq<RadioEntry>, sky: Option<Id>, ids: seq<Id>, i: nat, m: nat)
    requires i < m <= |ids|
    ensures Rank(radios, sky, ids, i) + (if Scans(radios, sky, ids[i]) then 1 else 0) <= Rank(radios, sky, ids, m)
    decreases m
  {
    if i + 1 < m {
      RankBelow(radios, sky, ids, i, m - 1);
    }
  }

  lemma OnlySlice(lo: byte, hi: byte)
    requires Range(lo, hi)
    ensures SliceStart(lo, hi, 1, 0) == lo && SliceEnd(lo, hi, 1, 0) == hi
  {
    CutEnds(hi - lo + 1, 1);
    SliceIs(lo, hi, 1, 0);
  }

  /** Every scanning node's share is the slice of its rank, also when it is the only one and gets the whole range. */
  lemma ShareIsSlice(radios: seq<RadioEntry>, sky: Option<Id>, ids: seq<Id>, lo: byte, hi: byte, i: nat)
    requires Range(lo, hi) && i < |ids| && Scans(radios, sky, ids[i])
    ensures var n, k := Rank(radios, sky, ids, |ids|), Rank(radios, sky, ids, i);
            && k < n
            && ShareOf(radios, sky, ids, lo, hi, n, i)
               == Share(ids[i], RadioOf(radios, ids[i]), SliceStart(lo, hi, n, k), SliceEnd(lo, hi, n, k))
  {
    var n, k := Rank(radios, sky, ids, |ids|), Rank(radios, sky, ids, i);
    RankBelow(radios, sky, ids, i, |ids|);
    if n == 1 {
      OnlySlice(lo, hi);
      assert k == 0;
    }
  }

  /** Every share lies in the range, whoever gets it. */
  lemma SharesInRange(radios: seq<RadioEntry>, sky: Option<Id>, ids: seq<Id>, lo: byte, hi: byte, i: nat)
    requires Range(lo, hi) && i < |ids|
    ensures var s := ShareOf(radios, sky, ids, lo, hi, Rank(radios, sky, ids, |ids|), i);
            lo <= s.start <= s.end <= hi
  {
    var n := Rank(radios, sky, ids, |ids|);
    if Scans(radios, sky, ids[i]) {
      ShareIsSlice(radios, sky, ids, lo, hi, i);
      SliceInRange(lo, hi, n, Rank(radios, sky, ids, i));
    }
  }

  /** A node scans unless its WiFi radio is off or it is the drone node; one that does not is told the whole range. */
  lemma OthersGetTheRange(radios: seq<RadioEntry>, sky: Option<Id>, ids: seq<Id>, lo: byte, hi: byte, n: nat, i: nat)
    requires i < |ids|
    ensures Scans(radios, sky, ids[i]) <==> RadioOf(radios, ids[i]) % 2 == 1 && !(sky.Some? && sky.value == ids[i])
    ensures !Scans(radios, sky, ids[i]) ==>
              ShareOf(radios, sky, ids, lo, hi, n, i) == Share(ids[i], RadioOf(radios, ids[i]), lo, hi)
  {
  }

  /** The shares of the scanning nodes cover the range: every channel falls to one of them. */
  lemma SharesCover(radios: seq<RadioEntry>, sky: Option<Id>, ids: seq<Id>, lo: byte, hi: byte, c: nat) returns (i: nat)
    requires Range(lo, hi) && lo <= c <= hi && Rank(radios, sky, ids, |ids|) >= 1
    ensures i < |ids| && Scans(radios, sky, ids[i])
    ensures var s := ShareOf(radios, sky, ids, lo, hi, Rank(radios, sky, ids, |ids|), i);
            s.start <= c <= s.end
  {
    var n := Rank(radios, sky, ids, |ids|);
    CutEnds(hi - lo + 1, n);
    var k := Holder(lo, hi, n, c, n);
    i := NodeOfRank(radios, sky, ids, |ids|, k);
    ShareIsSlice(radios, sky, ids, lo, hi, i);
  }

  /** With enough channels, the shares of two scanning nodes are disjoint and differ in size by one at most. */
  lemma SharesDisjoint(radios: seq<RadioEntry>, sky: Option<Id>, ids: seq<Id>, lo: byte, hi: byte, i: nat, j: nat)
    requires Range(lo, hi) && i < j < |ids| && Rank(radios, sky, ids, |ids|) <= hi - lo + 1
    requires Scans(radios, sky, ids[i]) && Scans(radios, sky, ids[j])
    ensures var n := Rank(radios, sky, ids, |ids|);
            var a, b := ShareOf(radios, sky, ids, lo, hi, n, i), ShareOf(radios, sky, ids, lo, hi, n, j);
            a.end < b.start && -1 <= (a.end - a.start) - (b.end - b.start) <= 1
  {
    RankBelow(radios, sky, ids, i, j);
    ShareIsSlice(radios, sky, ids, lo, hi, i);
    ShareIsSlice(radios, sky, ids, lo, hi, j);
    SlicesBalanced(lo, hi, Rank(radios, sky, ids, |ids|), Rank(radios, sky, ids, i), Rank(radios, sky, ids, j));
  }

  /** The defaults give a range exactly unless a start of 12 to 14 comes with an unusable end, which then becomes 11. */
  lemma RangeExactly(cs: byte, ce: byte)
    ensures Range(First(cs), Last(cs, ce)) <==> !(12 <= cs <= 14 && (ce < cs || ce > 14))
    ensures First(cs) == (if 1 <= cs <= 14 then cs else 1)
    ensures Last(cs, ce) == if First(cs) <= ce <= 14 then ce else 11
  {
  }
}
