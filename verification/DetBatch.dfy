/**
 * Detection batching: a node packs its queue of sightings into at most sixteen
 * radio frames per flush, carrying the first record that did not fit back to
 * the front of the queue; the manager unpacks each frame.
 */
module DetBatch {
  import opened Bytes

  const NAME_MAX := 32
  const BUDGET := 215
  const MAX_FRAMES := 16
  const QUEUE_MAX := 128

  datatype Rec = Rec(mac: seq<byte>, rssi: byte, channel: byte, how: byte, auth: byte, name: seq<byte>)

  /** What the queue holds: a six-byte address and a name that fits the record. */
  predicate Fits(r: Rec) {
    |r.mac| == 6 && |r.name| <= NAME_MAX
  }

  function RecBytes(r: Rec): (b: seq<byte>)
    requires Fits(r)
    ensures |b| == 11 + |r.name|
  {
    r.mac + [r.rssi, r.channel, r.how, r.auth, |r.name|] + r.name
  }

  datatype Frame = Frame(count: nat, data: seq<byte>)

  // ------------------------------------------------------------------
  // Packing
  // ------------------------------------------------------------------

  /** How many of the records go into one frame that already holds `count` of them in `off` bytes. */
  function Take(rs: seq<Rec>, off: nat, count: nat): (n: nat)
    ensures n <= |rs|
  {
    if rs == [] || off + 11 + |rs[0].name| > BUDGET || count >= 255 then 0
    else 1 + Take(rs[1..], off + 11 + |rs[0].name|, count + 1)
  }

  function Payload(rs: seq<Rec>): seq<byte>
    requires forall r :: r in rs ==> Fits(r)
  {
    if rs == [] then [] else RecBytes(rs[0]) + Payload(rs[1..])
  }

  function FrameOf(rs: seq<Rec>): Frame
    requires forall r :: r in rs ==> Fits(r)
  {
    Frame(|rs|, Payload(rs))
  }

  lemma TakesOne(rs: seq<Rec>)
    requires rs != [] && Fits(rs[0])
    ensures Take(rs, 0, 0) > 0
  {
  }

  /** The frames of one flush, and the queue it leaves. */
  function Flushed(rs: seq<Rec>, frames: nat): (res: (seq<Frame>, seq<Rec>))
    requires forall r :: r in rs ==> Fits(r)
    ensures forall r :: r in res.1 ==> r in rs
    decreases |rs|
  {
    if rs == [] || frames >= MAX_FRAMES then ([], rs)
    else
      TakesOne(rs);
      var n := Take(rs, 0, 0);
      var (fs, rest) := Flushed(rs[n..], frames + 1);
      ([FrameOf(rs[..n])] + fs, rest)
  }

  lemma FlushStep(all: seq<Rec>, frames: seq<Frame>, rest: seq<Rec>)
    requires (forall r :: r in all ==> Fits(r)) && (forall r :: r in rest ==> Fits(r))
    requires rest != [] && |frames| < MAX_FRAMES
    requires Flushed(all, 0) == (frames + Flushed(rest, |frames|).0, Flushed(rest, |frames|).1)
    ensures var n := Take(rest, 0, 0);
            var more := frames + [FrameOf(rest[..n])];
            Flushed(all, 0) == (more + Flushed(rest[n..], |more|).0, Flushed(rest[n..], |more|).1)
  {
    var n := Take(rest, 0, 0);
    TakesOne(rest);
    var f, tail := FrameOf(rest[..n]), Flushed(rest[n..], |frames| + 1).0;
    assert frames + ([f] + tail) == (frames + [f]) + tail;
  }

  /** The node's queue and its flush, with the packet buffer filled in place. */
  class Batcher {
    var queue: seq<Rec>
    const data: array<byte>

    ghost predicate Valid()
      reads this
    {
      data.Length == BUDGET && |queue| <= QUEUE_MAX && forall r :: r in queue ==> Fits(r)
    }

    constructor ()
      ensures Valid() && queue == [] && fresh(data)
    {
      queue := [];
      data := new byte[BUDGET](_ => 0);
    }

    method Enqueue(r: Rec) returns (ok: bool)
      requires Valid() && Fits(r)
      modifies `queue
      ensures Valid() && ok == (|old(queue)| < QUEUE_MAX)
      ensures queue == if ok then old(queue) + [r] else old(queue)
    {
      ok := |queue| < QUEUE_MAX;
      if ok { queue := queue + [r]; }
    }

    method Write(off: nat, bytes: seq<byte>)
      requires off + |bytes| <= data.Length
      modifies data
      ensures data[..off + |bytes|] == old(data[..off]) + bytes
    {
      for i := 0 to |bytes|
        invariant data[..off] == old(data[..off]) && data[off..off + i] == bytes[..i]
      {
        data[off + i] := bytes[i];
      }
      assert data[..off + |bytes|] == data[..off] + data[off..off + |bytes|];
    }

    /** One frame: records are taken from the queue until one does not fit; that one stays in the hand. */
    method Fill(first: Rec) returns (f: Frame, have: bool, r: Rec)
      requires Valid() && Fits(first) && |queue| < QUEUE_MAX
      modifies `queue, data
      ensures Valid() && |queue| <= |old(queue)|
      ensures have ==> Fits(r) && |queue| < QUEUE_MAX
      ensures var all := [first] + old(queue);
              var n := Take(all, 0, 0);
              && (forall x :: x in all ==> Fits(x))
              && f == FrameOf(all[..n]) && all[n..] == Hand(have, r) + queue
      ensures !have ==> queue == []
    {
      ghost var all := [first] + queue;
      var off: nat, count: nat := 0, 0;
      have, r := true, first;
      assert all[..0] == [] && all[0..] == all;
      while have
        invariant Valid() && |queue| <= |old(queue)|
        invariant off <= BUDGET && Packed(all, off, count, data[..off])
        invariant all[count..] == Hand(have, r) + queue
        invariant !have ==> queue == []
        invariant have ==> Fits(r) && |queue| < QUEUE_MAX
        decreases |queue|, have
      {
        if off + 11 + |r.name| > BUDGET || count >= 255 { break; }
        off, count, have, r := TakeOne(all, off, count, r);
      }
      f := Frame(count, data[..off]);
    }

    /** The record in the hand joins the frame, and the next one is received. */
    method TakeOne(ghost all: seq<Rec>, off: nat, count: nat, r: Rec)
      returns (off1: nat, count1: nat, have: bool, next: Rec)
      requires Valid() && Fits(r) && |queue| < QUEUE_MAX && count < 255 && off + 11 + |r.name| <= BUDGET
      requires Packed(all, off, count, data[..off]) && all[count..] == [r] + queue
      modifies `queue, data
      ensures Valid() && off1 <= BUDGET && Packed(all, off1, count1, data[..off1])
      ensures all[count1..] == Hand(have, next) + queue && (!have ==> queue == [])
      ensures if have then Fits(next) && |queue| + 1 == |old(queue)| else queue == old(queue)
    {
      assert all[count..][0] == r && all[count..][1..] == queue;
      PackStep(all, off, count, data[..off]);
      Write(off, RecBytes(r));
      off1, count1 := off + 11 + |r.name|, count + 1;
      have, next := Next(r);
    }

    /** Receives the head of the queue, or reports that there is none. */
    method Next(last: Rec) returns (have: bool, r: Rec)
      requires Valid() && |queue| < QUEUE_MAX
      modifies `queue
      ensures Valid() && Hand(have, r) + queue == old(queue)
      ensures have == (old(queue) != []) && (have ==> Fits(r) && |queue| + 1 == |old(queue)|)
      ensures !have ==> queue == []
    {
      have, r := queue != [], last;
      if have { r, queue := queue[0], queue[1..]; }
    }

    method Flush() returns (frames: seq<Frame>)
      requires Valid()
      modifies `queue, data
      ensures Valid()
      ensures forall x :: x in old(queue) ==> Fits(x)
      ensures (frames, queue) == Flushed(old(queue), 0)
    {
      frames := [];
      if queue == [] { return; }
      var have, r := true, queue[0];
      queue := queue[1..];
      assert [r] + queue == old(queue);
      ghost var rest := old(queue);
      assert frames + Flushed(rest, 0).0 == Flushed(rest, 0).0;
      while have && |frames| < MAX_FRAMES
        invariant Valid() && |frames| <= MAX_FRAMES
        invariant forall x :: x in rest ==> Fits(x)
        invariant rest == Hand(have, r) + queue
        invariant have ==> Fits(r) && |queue| < QUEUE_MAX
        invariant !have ==> queue == []
        invariant Flushed(old(queue), 0) == (frames + Flushed(rest, |frames|).0, Flushed(rest, |frames|).1)
        decreases MAX_FRAMES - |frames|
      {
        FlushStep(old(queue), frames, rest);
        var f;
        f, have, r := Fill(r);
        rest := rest[Take(rest, 0, 0)..];
        frames := frames + [f];
      }
      assert frames + [] == frames;
      if have { queue := [r] + queue; }
    }
  }

  lemma {:induction false} PayloadAppend(a: seq<Rec>, b: seq<Rec>)
    requires forall r :: r in a + b ==> Fits(r)
    ensures forall r :: r in a ==> r in a + b
    ensures forall r :: r in b ==> r in a + b
    ensures Payload(a + b) == Payload(a) + Payload(b)
  {
    if a == [] {
      assert a + b == b;
    } else {
      assert (a + b)[1..] == a[1..] + b;
      PayloadAppend(a[1..], b);
    }
  }

  lemma PayloadSnoc(all: seq<Rec>, k: nat)
    requires k < |all| && forall r :: r in all ==> Fits(r)
    ensures Payload(all[..k + 1]) == Payload(all[..k]) + RecBytes(all[k])
  {
    assert all[..k + 1] == all[..k] + [all[k]];
    PayloadAppend(all[..k], [all[k]]);
    assert Payload([all[k]]) == RecBytes(all[k]) + Payload([]);
  }

  /** The record held in the hand, if any, while a frame is filled. */
  function Hand(have: bool, r: Rec): seq<Rec> {
    if have then [r] else []
  }

  /** The first `count` records of `all` stand in the frame, and whether the next one joins them is still open. */
  ghost predicate Packed(all: seq<Rec>, off: nat, count: nat, bytes: seq<byte>) {
    && (forall r :: r in all ==> Fits(r))
    && count <= |all| && off == |bytes| && bytes == Payload(all[..count])
    && Take(all, 0, 0) == count + Take(all[count..], off, count)
  }

  lemma PackStep(all: seq<Rec>, off: nat, count: nat, bytes: seq<byte>)
    requires Packed(all, off, count, bytes)
    requires count < |all| && count < 255 && off + 11 + |all[count].name| <= BUDGET
    ensures all[count + 1..] == all[count..][1..]
    ensures Packed(all, off + 11 + |all[count].name|, count + 1, bytes + RecBytes(all[count]))
  {
    PayloadSnoc(all, count);
    assert all[count..][0] == all[count] && all[count..][1..] == all[count + 1..];
  }

  // ------------------------------------------------------------------
  // Unpacking
  // ------------------------------------------------------------------

  /** The event the manager builds: Bluetooth names keep 20 bytes, network names 32. */
  function Received(r: Rec): Rec {
    r.(name := r.name[..Min(|r.name|, if r.channel == 0 then 20 else 32)])
  }

  /** A whole record stands at `off`. */
  predicate HasRec(data: seq<byte>, off: nat) {
    off + 11 <= |data| && off + 11 + data[off + 10] <= |data|
  }

  function RecAt(data: seq<byte>, off: nat): Rec
    requires HasRec(data, off)
  {
    Rec(data[off..off + 6], data[off + 6], data[off + 7], data[off + 8], data[off + 9],
        data[off + 11..off + 11 + data[off + 10]])
  }

  function UnpackFrom(data: seq<byte>, off: nat, left: nat): seq<Rec>
    decreases left
  {
    if left == 0 || !HasRec(data, off) then []
    else [Received(RecAt(data, off))] + UnpackFrom(data, off + 11 + data[off + 10], left - 1)
  }

  function Unpack(f: Frame): seq<Rec> { UnpackFrom(f.data, 0, f.count) }

  /** Of the frame, `i` records have been read, up to `off`. */
  ghost predicate Reading(f: Frame, evts: seq<Rec>, off: nat, i: nat) {
    i <= f.count && Unpack(f) == evts + UnpackFrom(f.data, off, f.count - i)
  }

  lemma UnpackStep(f: Frame, evts: seq<Rec>, off: nat, i: nat)
    requires i < f.count && HasRec(f.data, off) && Reading(f, evts, off, i)
    ensures Reading(f, evts + [Received(RecAt(f.data, off))], off + 11 + f.data[off + 10], i + 1)
  {
    var evt, rest := Received(RecAt(f.data, off)), UnpackFrom(f.data, off + 11 + f.data[off + 10], f.count - i - 1);
    assert evts + ([evt] + rest) == (evts + [evt]) + rest;
  }

  lemma UnpackEnd(f: Frame, evts: seq<Rec>, off: nat, i: nat)
    requires Reading(f, evts, off, i) && (i == f.count || !HasRec(f.data, off))
    ensures evts == Unpack(f)
  {
    assert evts + [] == evts;
  }

  lemma UnpackBegin(f: Frame)
    ensures Reading(f, [], 0, 0)
  {
    assert [] + Unpack(f) == Unpack(f);
  }

  method UnpackFrame(f: Frame) returns (evts: seq<Rec>)
    ensures evts == Unpack(f)
  {
    evts := [];
    var off: nat, i: nat := 0, 0;
    UnpackBegin(f);
    while i < f.count && off + 11 <= |f.data|
      invariant i <= f.count && Reading(f, evts, off, i)
    {
      var nl: nat := f.data[off + 10];
      if off + 11 + nl > |f.data| { break; }
      var evt := ReadEvent(f.data, off, nl);
      UnpackStep(f, evts, off, i);
      evts, off, i := evts + [evt], off + 11 + nl, i + 1;
    }
    UnpackEnd(f, evts, off, i);
  }

  method ReadEvent(data: seq<byte>, off: nat, nl: nat) returns (evt: Rec)
    requires HasRec(data, off) && nl == data[off + 10]
    ensures evt == Received(RecAt(data, off))
  {
    var mac, name := data[off..off + 6], data[off + 11..off + 11 + nl];
    var channel := data[off + 7];
    var keep := if channel == 0 then 20 else 32;
    var c := if nl < keep then nl else keep;
    evt := Rec(mac, data[off + 6], channel, data[off + 8], data[off + 9], name[..c]);
  }

  // ------------------------------------------------------------------
  // Nothing is lost, repeated or reordered
  // ------------------------------------------------------------------

  function ReceivedAll(rs: seq<Rec>): (es: seq<Rec>)
    ensures |es| == |rs|
  {
    if rs == [] then [] else [Received(rs[0])] + ReceivedAll(rs[1..])
  }

  function UnpackAll(fs: seq<Frame>): seq<Rec> {
    if fs == [] then [] else Unpack(fs[0]) + UnpackAll(fs[1..])
  }

  lemma UnpackHead(data: seq<byte>, off: nat, left: nat)
    requires HasRec(data, off) && left > 0
    ensures UnpackFrom(data, off, left)
        == [Received(RecAt(data, off))] + UnpackFrom(data, off + 11 + data[off + 10], left - 1)
  {
  }

  lemma HeadRec(r: Rec, rest: seq<byte>, data: seq<byte>, off: nat)
    requires Fits(r) && off <= |data| && data[off..] == RecBytes(r) + rest
    ensures HasRec(data, off) && data[off + 10] == |r.name| && RecAt(data, off) == r
    ensures data[off + 11 + |r.name|..] == rest
  {
    var b, d := RecBytes(r), data[off..];
    assert d[..|b|] == b && data[off..off + |b|] == d[..|b|];
    assert data[off + 6] == b[6] && data[off + 7] == b[7] && data[off + 8] == b[8];
    assert data[off + 9] == b[9] && data[off + 10] == b[10];
    assert data[off..off + 6] == b[..6] == r.mac;
    assert data[off + 11..off + 11 + |r.name|] == b[11..] == r.name;
    assert data[off + 11 + |r.name|..] == d[|b|..] == rest;
  }

  /** No whole record stands at the beginning of these bytes. */
  predicate NoRec(tail: seq<byte>) { |tail| < 11 || |tail| < 11 + tail[10] as int }

  /** The records of `rs` stand one after the other from `off`, and no more behind them. */
  ghost predicate Stands(rs: seq<Rec>, data: seq<byte>, off: nat)
    decreases |rs|
  {
    if rs == [] then !HasRec(data, off)
    else HasRec(data, off) && RecAt(data, off) == rs[0] && Stands(rs[1..], data, off + 11 + data[off + 10])
  }

  /** The records on the wire, and then something else. */
  function Followed(rs: seq<Rec>, tail: seq<byte>): seq<byte>
    requires forall r :: r in rs ==> Fits(r)
  {
    if rs == [] then tail else RecBytes(rs[0]) + Followed(rs[1..], tail)
  }

  lemma {:induction false} FollowedIs(rs: seq<Rec>, tail: seq<byte>)
    requires forall r :: r in rs ==> Fits(r)
    ensures Followed(rs, tail) == Payload(rs) + tail
  {
    if rs != [] {
      FollowedIs(rs[1..], tail);
      assert (RecBytes(rs[0]) + Payload(rs[1..])) + tail == RecBytes(rs[0]) + (Payload(rs[1..]) + tail);
    }
  }

  lemma NoneLeft(tail: seq<byte>, data: seq<byte>, off: nat)
    requires NoRec(tail) && off <= |data| && data[off..] == tail
    ensures !HasRec(data, off)
  {
    if off + 11 <= |data| { assert data[off + 10] == tail[10]; }
  }

  lemma NextRec(r: Rec, rest: seq<byte>, data: seq<byte>, off: nat) returns (off2: nat)
    requires Fits(r) && off <= |data| && data[off..] == RecBytes(r) + rest
    ensures HasRec(data, off) && RecAt(data, off) == r && off2 == off + 11 + data[off + 10]
    ensures off2 <= |data| && data[off2..] == rest
  {
    HeadRec(r, rest, data, off);
    off2 := off + 11 + |r.name|;
  }

  lemma StandsCons(rs: seq<Rec>, data: seq<byte>, off: nat, off2: nat)
    requires rs != [] && HasRec(data, off) && RecAt(data, off) == rs[0] && off2 == off + 11 + data[off + 10]
    requires Stands(rs[1..], data, off2)
    ensures Stands(rs, data, off)
  {
  }

  lemma {:induction false} PayloadStands(rs: seq<Rec>, tail: seq<byte>, data: seq<byte>, off: nat)
    requires (forall r :: r in rs ==> Fits(r)) && NoRec(tail)
    requires off <= |data| && data[off..] == Followed(rs, tail)
    ensures Stands(rs, data, off)
    decreases |rs|
  {
    if rs == [] {
      NoneLeft(tail, data, off);
    } else {
      var off2 := NextRec(rs[0], Followed(rs[1..], tail), data, off);
      PayloadStands(rs[1..], tail, data, off2);
      StandsCons(rs, data, off, off2);
    }
  }

  lemma ReceivedCons(rs: seq<Rec>, n: nat) returns (more: seq<Rec>)
    requires n < |rs|
    ensures more == ReceivedAll(rs[1..][..n])
    ensures ReceivedAll(rs[..n + 1]) == [Received(rs[0])] + more
  {
    more := ReceivedAll(rs[1..][..n]);
    assert rs[..n + 1][0] == rs[0] && rs[..n + 1][1..] == rs[1..][..n];
  }

  lemma {:induction false} UnpackStanding(rs: seq<Rec>, data: seq<byte>, off: nat, left: nat)
    requires Stands(rs, data, off)
    ensures UnpackFrom(data, off, left) == ReceivedAll(rs[..Min(left, |rs|)])
    decreases |rs|
  {
    if left == 0 || rs == [] {
      assert rs[..Min(left, |rs|)] == [];
    } else {
      UnpackHead(data, off, left);
      UnpackStanding(rs[1..], data, off + 11 + data[off + 10], left - 1);
      var more := ReceivedCons(rs, Min(left, |rs|) - 1);
    }
  }

  /** Of a frame cut short, or of a wrong count, the manager takes the records that are announced and there. */
  lemma UnpacksWhatIsWhole(rs: seq<Rec>, tail: seq<byte>, count: nat)
    requires (forall r :: r in rs ==> Fits(r)) && NoRec(tail)
    ensures Unpack(Frame(count, Payload(rs) + tail)) == ReceivedAll(rs[..Min(count, |rs|)])
  {
    var data := Payload(rs) + tail;
    assert data[0..] == data;
    FollowedIs(rs, tail);
    PayloadStands(rs, tail, data, 0);
    UnpackStanding(rs, data, 0, count);
  }

  lemma {:induction false} TakeBudget(rs: seq<Rec>, off: nat, count: nat)
    requires (forall r :: r in rs ==> Fits(r)) && off <= BUDGET && count <= 255
    ensures var n := Take(rs, off, count);
            off + |Payload(rs[..n])| <= BUDGET && count + n <= 255
    decreases |rs|
  {
    var n := Take(rs, off, count);
    if n > 0 {
      TakeBudget(rs[1..], off + 11 + |rs[0].name|, count + 1);
      assert rs[..n][0] == rs[0] && rs[..n][1..] == rs[1..][..n - 1];
    } else {
      assert rs[..n] == [];
    }
  }

  /** What a radio frame may carry. */
  predicate WellSized(f: Frame) {
    1 <= f.count <= 255 && |f.data| <= BUDGET
  }

  lemma {:induction false} ReceivedAppend(a: seq<Rec>, b: seq<Rec>)
    ensures ReceivedAll(a + b) == ReceivedAll(a) + ReceivedAll(b)
  {
    if a == [] {
      assert a + b == b;
    } else {
      assert (a + b)[1..] == a[1..] + b;
      ReceivedAppend(a[1..], b);
    }
  }

  /** What one frame carries: well sized, and it unpacks to the records put in. */
  lemma FrameUnpacks(rs: seq<Rec>)
    requires rs != [] && forall r :: r in rs ==> Fits(r)
    ensures var n := Take(rs, 0, 0);
            0 < n && WellSized(FrameOf(rs[..n])) && Unpack(FrameOf(rs[..n])) == ReceivedAll(rs[..n])
  {
    TakesOne(rs);
    TakeBudget(rs, 0, 0);
    var taken := rs[..Take(rs, 0, 0)];
    UnpacksWhatIsWhole(taken, [], |taken|);
    assert Payload(taken) + [] == Payload(taken) && taken[..|taken|] == taken;
  }

  /** The queue was split into what was sent, as well-sized frames, and what is left. */
  ghost predicate Splits(rs: seq<Rec>, fs: seq<Frame>, rest: seq<Rec>) {
    && (forall f :: f in fs ==> WellSized(f))
    && |rest| <= |rs| && rest == rs[|rs| - |rest|..]
    && UnpackAll(fs) == ReceivedAll(rs[..|rs| - |rest|])
  }

  /**
   * A good flush that starts with `frames` frames already sent: sixteen at most in all, the records
   * split into sent and kept, and nothing kept if a frame was still to spare.
   */
  ghost predicate Conserves(rs: seq<Rec>, frames: nat, fs: seq<Frame>, rest: seq<Rec>) {
    && frames + |fs| <= MAX_FRAMES
    && Splits(rs, fs, rest)
    && (rest == [] || frames + |fs| == MAX_FRAMES)
  }

  /**
   * The main result for one flush: at most sixteen well-sized frames, which unpack, in order, to
   * exactly the records that left the queue; the rest stay queued in order, and none stays if a
   * frame was still to spare.
   */
  lemma {:induction false} FlushConserves(rs: seq<Rec>, frames: nat)
    requires (forall r :: r in rs ==> Fits(r)) && frames <= MAX_FRAMES
    ensures Conserves(rs, frames, Flushed(rs, frames).0, Flushed(rs, frames).1)
    decreases |rs|
  {
    if rs == [] || frames == MAX_FRAMES {
      SplitsNone(rs);
    } else {
      FrameUnpacks(rs);
      var n := Take(rs, 0, 0);
      var f, tail := FrameOf(rs[..n]), rs[n..];
      FlushConserves(tail, frames + 1);
      var res := Flushed(tail, frames + 1);
      ConservesCons(rs, frames, n, f, res.0, res.1);
      assert Flushed(rs, frames) == ([f] + res.0, res.1);
    }
  }

  lemma SplitsNone(rs: seq<Rec>)
    ensures Splits(rs, [], rs)
  {
    assert rs[..|rs| - |rs|] == [];
  }

  lemma SplitsCons(rs: seq<Rec>, n: nat, f: Frame, fs: seq<Frame>, rest: seq<Rec>)
    requires n <= |rs| && WellSized(f) && Unpack(f) == ReceivedAll(rs[..n]) && Splits(rs[n..], fs, rest)
    ensures Splits(rs, [f] + fs, rest)
  {
    var left := |rest|;
    ReceivedAppend(rs[..n], rs[n..][..|rs| - n - left]);
    assert rs[..n] + rs[n..][..|rs| - n - left] == rs[..|rs| - left];
    assert ([f] + fs)[1..] == fs;
  }

  lemma ConservesCons(rs: seq<Rec>, frames: nat, n: nat, f: Frame, fs: seq<Frame>, rest: seq<Rec>)
    requires n <= |rs| && WellSized(f) && Unpack(f) == ReceivedAll(rs[..n]) && frames < MAX_FRAMES
    requires Conserves(rs[n..], frames + 1, fs, rest)
    ensures Conserves(rs, frames, [f] + fs, rest)
  {
    SplitsCons(rs, n, f, fs, rest);
  }

  /** Frames are filled greedily: a record is held back from a frame only when it would not have fitted. */
  lemma {:induction false} HeldBackOnlyWhenFull(rs: seq<Rec>, off: nat, count: nat)
    requires (forall r :: r in rs ==> Fits(r)) && off <= BUDGET && count <= 255
    ensures var n := Take(rs, off, count);
            n < |rs| ==> off + |Payload(rs[..n + 1])| > BUDGET || count + n == 255
    decreases |rs|
  {
    var n := Take(rs, off, count);
    if n > 0 {
      HeldBackOnlyWhenFull(rs[1..], off + 11 + |rs[0].name|, count + 1);
      if n < |rs| {
        assert rs[..n + 1][0] == rs[0] && rs[..n + 1][1..] == rs[1..][..n];
      }
    } else if rs != [] {
      assert rs[..1][0] == rs[0] && rs[..1][1..] == [];
      assert Payload(rs[..1]) == RecBytes(rs[0]) + Payload([]);
    }
  }

  // ------------------------------------------------------------------
  // Whole runs of a node and its manager
  // ------------------------------------------------------------------

  /** A name as it arrives in an event: up to the first NUL, at most 32 bytes. */
  function CName(buf: seq<byte>, i: nat): (n: nat)
    requires i <= |buf|
    ensures i <= n <= |buf| && (n < |buf| && n < NAME_MAX ==> buf[n] == 0)
    ensures forall k :: i <= k < n ==> buf[k] != 0
    ensures i <= NAME_MAX ==> n <= NAME_MAX
    decreases |buf| - i
  {
    if i == |buf| || i >= NAME_MAX || buf[i] == 0 then i else CName(buf, i + 1)
  }

  /**
   * An event of the wardriving engine: its name field has 21 bytes for Bluetooth and 33 for a network, the
   * last a NUL.
   */
  datatype Sighting = Sighting(mac: seq<byte>, rssi: byte, channel: byte, how: byte, auth: byte, name: seq<byte>) {
    predicate Typed() {
      |mac| == 6 && |name| == (if channel == 0 then 21 else 33) && name[|name| - 1] == 0
    }
  }

  /** The record made of it, which no cut on the way shortens. */
  function RecordOf(s: Sighting): (r: Rec)
    requires s.Typed()
    ensures Fits(r) && Received(r) == r
  {
    Rec(s.mac, s.rssi, s.channel, s.how, s.auth, s.name[..CName(s.name, 0)])
  }

  /** A flush happens, and of its frames the broadcast loses those numbered in `lost`. */
  datatype Event = Sighted(s: Sighting) | FlushNow(lost: set<nat>)

  /** The frames that arrive, the first of `fs` being number `i` of its flush. */
  function Arriving(fs: seq<Frame>, lost: set<nat>, i: nat): seq<Frame> {
    if fs == [] then [] else (if i in lost then [] else [fs[0]]) + Arriving(fs[1..], lost, i + 1)
  }

  datatype Trace = Trace(queue: seq<Rec>, accepted: seq<Rec>, unpacked: seq<Rec>)

  predicate Genuine(events: seq<Event>) {
    forall e :: e in events && e.Sighted? ==> e.s.Typed()
  }

  function RunTrace(events: seq<Event>): (t: Trace)
    requires Genuine(events)
    ensures forall r :: r in t.queue ==> Fits(r) && Received(r) == r
    decreases |events|
  {
    if events == [] then Trace([], [], [])
    else
      var t, e := RunTrace(events[..|events| - 1]), events[|events| - 1];
      match e
      case Sighted(s) =>
        var r := RecordOf(s);
        if |t.queue| < QUEUE_MAX then t.(queue := t.queue + [r], accepted := t.accepted + [r]) else t
      case FlushNow(lost) =>
        var (fs, rest) := Flushed(t.queue, 0);
        t.(queue := rest, unpacked := t.unpacked + UnpackAll(Arriving(fs, lost, 0)))
  }

  lemma {:induction false} ReceivedSame(rs: seq<Rec>)
    requires forall r :: r in rs ==> Received(r) == r
    ensures ReceivedAll(rs) == rs
  {
    if rs != [] {
      ReceivedSame(rs[1..]);
    }
  }

  lemma {:induction false} ArrivingUnpacks(fs: seq<Frame>, lost: set<nat>, i: nat)
    ensures Subsequence(UnpackAll(Arriving(fs, lost, i)), UnpackAll(fs))
    ensures lost == {} ==> Arriving(fs, lost, i) == fs
    decreases |fs|
  {
    if fs != [] {
      var rest := Arriving(fs[1..], lost, i + 1);
      ArrivingUnpacks(fs[1..], lost, i + 1);
      SubsequencePrepend(Unpack(fs[0]), UnpackAll(rest), UnpackAll(fs[1..]));
      if i in lost {
        assert Arriving(fs, lost, i) == rest;
      } else {
        assert Arriving(fs, lost, i) == [fs[0]] + rest && ([fs[0]] + rest)[1..] == rest;
      }
    }
  }

  /** The records that left the queue, as unpacked, and those that stay are the queue. */
  lemma FlushSplits(queue: seq<Rec>)
    requires forall r :: r in queue ==> Fits(r) && Received(r) == r
    ensures var res := Flushed(queue, 0);
            queue == UnpackAll(res.0) + res.1 && |res.1| <= |queue|
  {
    var res := Flushed(queue, 0);
    FlushConserves(queue, 0);
    ReceivedSame(queue[..|queue| - |res.1|]);
  }

  /** What is unpacked now, after what was unpacked before and before what stays, given what left the queue. */
  lemma DeliveryMoves(before: seq<Rec>, fs: seq<Frame>, lost: set<nat>, rest: seq<Rec>)
    ensures var kept := UnpackAll(Arriving(fs, lost, 0));
            && Subsequence((before + kept) + rest, before + (UnpackAll(fs) + rest))
            && (lost == {} ==> (before + kept) + rest == before + (UnpackAll(fs) + rest))
  {
    var kept := UnpackAll(Arriving(fs, lost, 0));
    ArrivingUnpacks(fs, lost, 0);
    SubsequenceAppend(kept, UnpackAll(fs), rest);
    SubsequencePrepend(before, kept + rest, UnpackAll(fs) + rest);
    assert before + (kept + rest) == (before + kept) + rest;
  }

  /**
   * At every moment, what the manager has unpacked followed by what the node still holds is, in order, what
   * the node accepted, but for the records of frames that were lost.
   */
  lemma {:induction false} BatchFifo(events: seq<Event>)
    requires Genuine(events)
    ensures var t := RunTrace(events);
            && Subsequence(t.unpacked + t.queue, t.accepted) && |t.queue| <= QUEUE_MAX
            && ((forall e :: e in events && e.FlushNow? ==> e.lost == {}) ==> t.unpacked + t.queue == t.accepted)
    decreases |events|
  {
    if events != [] {
      var init, e := events[..|events| - 1], events[|events| - 1];
      assert e in events && forall x :: x in init ==> x in events;
      BatchFifo(init);
      var t := RunTrace(init);
      match e
      case Sighted(s) =>
        var r := RecordOf(s);
        SubsequenceSnoc(t.unpacked + t.queue, t.accepted, r);
        assert t.unpacked + (t.queue + [r]) == (t.unpacked + t.queue) + [r];
      case FlushNow(lost) =>
        var res := Flushed(t.queue, 0);
        FlushSplits(t.queue);
        DeliveryMoves(t.unpacked, res.0, lost, res.1);
        var u := RunTrace(events);
        assert u.unpacked == t.unpacked + UnpackAll(Arriving(res.0, lost, 0)) && u.queue == res.1;
        SubsequenceTrans(u.unpacked + u.queue, t.unpacked + t.queue, t.accepted);
    }
  }

  /** A sighting is kept unless 128 records wait already. */
  lemma KeptBelow128(events: seq<Event>, s: Sighting)
    requires Genuine(events) && s.Typed()
    ensures Genuine(events + [Sighted(s)])
    ensures var t, t1 := RunTrace(events), RunTrace(events + [Sighted(s)]);
            && t1.unpacked == t.unpacked
            && (|t.queue| < 128 ==> t1.queue == t.queue + [RecordOf(s)] && t1.accepted == t.accepted + [RecordOf(s)])
            && (|t.queue| >= 128 ==> t1 == t)
  {
    assert (events + [Sighted(s)])[..|events|] == events;
  }

  /** The place of each field in a record on the wire. */
  lemma RecOnTheWire(r: Rec)
    requires Fits(r)
    ensures var b := RecBytes(r);
            && |b| == 11 + |r.name| && b[..6] == r.mac && b[6] == r.rssi && b[7] == r.channel && b[8] == r.how
            && b[9] == r.auth && b[10] == |r.name| && b[11..] == r.name
  {
  }

  /** The manager keeps a record whole, but for the name of a Bluetooth device, of which it keeps 20 bytes. */
  lemma NamesKept(r: Rec)
    requires Fits(r)
    ensures Received(r) == r <==> r.channel != 0 || |r.name| <= 20
    ensures r.channel == 0 && |r.name| > 20 ==> Received(r) == r.(name := r.name[..20])
  {
  }
}
