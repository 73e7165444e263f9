/**
 * The receiving side of the fleet OTA byte relay: one node's transfer state,
 * its three packet handlers, and the class that keeps that state in a bitmap,
 * a few counters and two flash slots.
 */
module OtaNode {
  import opened Bytes
  import opened Bits

  const CHUNK := 192           // payload bytes of one chunk
  const MAX_CHUNKS := 16384    // bits in a node's bitmap
  const SLOT := 0x300000       // bytes in one application slot
  const ACK_PERIOD_MS := 300

  type Image = s: seq<bv8> | 1 <= |s| <= SLOT witness [0]

  datatype Status = Ready | Receiving | Resume | Done | Err
  datatype Ack = Ack(status: Status, next: nat, recv: nat)

  datatype Packet =
    | Begin(totalSize: nat, totalChunks: nat)
    | Data(index: nat, payload: seq<bv8>)
    | End

  /** What the flash driver answers to the call a handler makes, and how far a write that fails got. */
  datatype Flash = Flash(ok: bool, bootOk: bool, part: nat)

  /** A node: its transfer state, its two slots, and the slot it runs from. */
  datatype Rx = Rx(
    active: bool, totalSize: nat, totalChunks: nat, recvCount: nat, lastAckMs: nat,
    bits: seq<bool>, slots: seq<seq<bv8>>, running: nat)
  {
    ghost predicate WellFormed() {
      && |bits| == MAX_CHUNKS
      && totalChunks <= MAX_CHUNKS
      && running < 2
      && |slots| == 2 && |slots[0]| == SLOT && |slots[1]| == SLOT
      && (active ==> 0 < totalChunks)
    }

    function Target(): nat
      requires running < 2
    {
      1 - running
    }

    /** The state a reset leaves: nothing received, no transfer running. */
    function Cleared(): Rx {
      this.(active := false, totalSize := 0, totalChunks := 0, recvCount := 0, lastAckMs := 0,
            bits := NoBits())
    }
  }

  function NoBits(): (r: seq<bool>)
    ensures |r| == MAX_CHUNKS
  {
    seq(MAX_CHUNKS, _ => false)
  }

  /** Erased flash. */
  function Blank(n: nat): (r: seq<bv8>)
    ensures |r| == n
  {
    seq(n, _ => 0xFF)
  }

  /** Number of chunks among the first `k` that are marked received. */
  function Count(bits: seq<bool>, k: nat): (c: nat)
    requires k <= |bits|
    ensures c <= k
  {
    if k == 0 then 0 else Count(bits, k - 1) + if bits[k - 1] then 1 else 0
  }

  /** First index at or after `from` and below `total` whose bit is clear; `total` when there is none. */
  function FirstClear(bits: seq<bool>, from: nat, total: nat): (i: nat)
    requires from <= total <= |bits|
    ensures from <= i <= total
    ensures forall k :: from <= k < i ==> bits[k]
    ensures i < total ==> !bits[i]
    decreases total - from
  {
    if from == total || !bits[from] then from else FirstClear(bits, from + 1, total)
  }

  function FirstMissing(r: Rx): (i: nat)
    requires r.totalChunks <= |r.bits|
    ensures i <= r.totalChunks
  {
    FirstClear(r.bits, 0, r.totalChunks)
  }

  /** esp_ota_begin: the sectors the image needs read as erased flash. */
  function Erased(slot: seq<bv8>, size: nat): (r: seq<bv8>)
    requires size <= |slot|
    ensures |r| == |slot|
  {
    Overwrite(slot, 0, Blank(size))
  }

  /** esp_ota_write_with_offset: bits of the slot are cleared, never set. */
  function Programmed(slot: seq<bv8>, off: nat, d: seq<bv8>): (r: seq<bv8>)
    requires off + |d| <= |slot|
    ensures |r| == |slot|
    ensures forall k :: 0 <= k < |slot| ==> r[k] == if off <= k < off + |d| then Burnt(slot[k], d[k - off]) else slot[k]
  {
    seq(|slot|, k requires 0 <= k < |slot| => if off <= k < off + |d| then Burnt(slot[k], d[k - off]) else slot[k])
  }

  function Write(r: Rx, off: nat, d: seq<bv8>): (r1: Rx)
    requires r.WellFormed() && off + |d| <= SLOT
    ensures r1.WellFormed()
  {
    r.(slots := r.slots[r.Target() := Programmed(r.slots[r.Target()], off, d)])
  }

  function OnBegin(r: Rx, totalSize: nat, totalChunks: nat, f: Flash): (res: (Rx, Option<Ack>))
    requires r.WellFormed()
    ensures res.0.WellFormed()
  {
    if totalChunks == 0 || totalChunks > MAX_CHUNKS then (r, Some(Ack(Err, 0, 0)))
    else
      var c := r.Cleared();
      if !f.ok || totalSize > SLOT then (c, Some(Ack(Err, 0, 0)))
      else
        (c.(active := true, totalSize := totalSize, totalChunks := totalChunks,
            slots := c.slots[c.Target() := Erased(c.slots[c.Target()], totalSize)]),
         Some(Ack(Ready, 0, 0)))
  }

  /** Chunk `index` written in its place, marked and counted. */
  function Store(r: Rx, index: nat, d: seq<bv8>): (r1: Rx)
    requires r.WellFormed() && index < r.totalChunks && index * CHUNK + |d| <= SLOT
    ensures r1.WellFormed()
  {
    Write(r, index * CHUNK, d).(bits := r.bits[index := true], recvCount := (r.recvCount + 1) % 0x1_0000)
  }

  function OnData(r: Rx, index: nat, payload: seq<bv8>, nowMs: nat, f: Flash): (res: (Rx, Option<Ack>))
    requires r.WellFormed()
    ensures res.0.WellFormed()
  {
    if !r.active || index >= r.totalChunks || r.bits[index] then (r, None)
    else
      var n := Min(|payload|, CHUNK);
      var off := index * CHUNK;
      if !f.ok then (Write(r, off, payload[..Min(f.part, n)]), Some(Ack(Err, FirstMissing(r), r.recvCount)))
      else
        var r1 := Store(r, index, payload[..n]);
        if (nowMs - r.lastAckMs) % 0x1_0000_0000 > ACK_PERIOD_MS
        then (r1.(lastAckMs := nowMs), Some(Ack(Receiving, FirstMissing(r1), r1.recvCount)))
        else (r1, None)
  }

  /** On success the node marks the slot bootable, reports DONE and restarts from it. */
  function OnEnd(r: Rx, f: Flash): (res: (Rx, Option<Ack>))
    requires r.WellFormed()
    ensures res.0.WellFormed()
  {
    if !r.active then (r, None)
    else if r.recvCount < r.totalChunks then (r, Some(Ack(Resume, FirstMissing(r), r.recvCount)))
    else if !f.ok || !f.bootOk then (r.(active := false), Some(Ack(Err, 0, r.recvCount)))
    else (r.Cleared().(running := r.Target()), Some(Ack(Done, 0, r.recvCount)))
  }

  function OnPacket(r: Rx, p: Packet, nowMs: nat, f: Flash): (res: (Rx, Option<Ack>))
    requires r.WellFormed()
    ensures res.0.WellFormed()
  {
    match p
    case Begin(size, chunks) => OnBegin(r, size, chunks, f)
    case Data(index, payload) => OnData(r, index, payload, nowMs, f)
    case End => OnEnd(r, f)
  }

  // ------------------------------------------------------------------
  // The bitmap: one bit of one byte for every chunk
  // ------------------------------------------------------------------

  ghost function BitsOf(bitmap: array<bv8>): (r: seq<bool>)
    requires bitmap.Length == MAX_CHUNKS / 8
    reads bitmap
    ensures |r| == MAX_CHUNKS
    ensures forall i :: 0 <= i < MAX_CHUNKS ==> r[i] == HasBit(bitmap[i / 8], i % 8)
  {
    seq(MAX_CHUNKS, i requires 0 <= i < MAX_CHUNKS reads bitmap => HasBit(bitmap[i / 8], i % 8))
  }

  class Receiver {
    var active: bool
    var totalSize: nat
    var totalChunks: nat
    var recvCount: nat
    var lastAckMs: nat
    var running: nat
    const bitmap: array<bv8>
    const slot0: array<bv8>
    const slot1: array<bv8>

    ghost predicate Valid()
      reads this, bitmap, slot0, slot1
    {
      && bitmap.Length == MAX_CHUNKS / 8
      && slot0.Length == SLOT && slot1.Length == SLOT && slot0 != slot1
      && totalChunks <= MAX_CHUNKS
      && running < 2
      && (active ==> 0 < totalChunks)
    }

    ghost function Abs(): (r: Rx)
      requires Valid()
      reads this, bitmap, slot0, slot1
      ensures r.WellFormed()
    {
      Rx(active, totalSize, totalChunks, recvCount, lastAckMs, BitsOf(bitmap), [slot0[..], slot1[..]], running)
    }

    method BitTest(i: nat) returns (b: bool)
      requires Valid() && i < MAX_CHUNKS
      ensures b == Abs().bits[i]
    {
      b := bitmap[i / 8] & BitMask(i % 8) != 0;
    }

    method BitSet(i: nat)
      requires Valid() && i < MAX_CHUNKS
      modifies bitmap
      ensures Valid() && BitsOf(bitmap) == old(BitsOf(bitmap))[i := true]
    {
      ghost var was := bitmap[i / 8];
      bitmap[i / 8] := bitmap[i / 8] | BitMask(i % 8);
      forall j | 0 <= j < MAX_CHUNKS
        ensures BitsOf(bitmap)[j] == old(BitsOf(bitmap))[i := true][j]
      {
        if j / 8 == i / 8 {
          SetOneBit(was, i % 8, j % 8);
        }
      }
    }

    /** Linear scan for the first gap. */
    method FirstGap() returns (i: nat)
      requires Valid()
      ensures i == FirstMissing(Abs())
    {
      i := 0;
      while i < totalChunks
        invariant i <= totalChunks
        invariant FirstClear(Abs().bits, 0, totalChunks) == FirstClear(Abs().bits, i, totalChunks)
      {
        var b := BitTest(i);
        if !b { return; }
        i := i + 1;
      }
    }

    method Reset()
      requires Valid()
      modifies this, bitmap
      ensures Valid() && Abs() == old(Abs()).Cleared()
    {
      active, totalSize, totalChunks, recvCount, lastAckMs := false, 0, 0, 0, 0;
      forall k | 0 <= k < bitmap.Length { bitmap[k] := 0; }
      assert forall i :: 0 <= i < MAX_CHUNKS ==> !BitsOf(bitmap)[i];
      assert BitsOf(bitmap) == NoBits();
      assert slot0[..] == old(slot0[..]) && slot1[..] == old(slot1[..]);
    }

    /** The flash driver's write into the slot the node does not run from. */
    method Program(off: nat, d: seq<bv8>)
      requires Valid() && off + |d| <= SLOT
      modifies slot0, slot1
      ensures Valid() && Abs() == Write(old(Abs()), off, d)
    {
      var t := if running == 0 then slot1 else slot0;
      forall k | 0 <= k < |d| { t[off + k] := Burnt(t[off + k], d[k]); }
      ghost var before := old([slot0[..], slot1[..]]);
      assert t[..] == Programmed(before[1 - running], off, d);
      if running == 0 {
        assert slot0[..] == before[0];
      } else {
        assert slot1[..] == before[1];
      }
    }

    /** The flash driver's erasure of as much of that slot as an image needs. */
    method Erase(size: nat)
      requires Valid() && size <= SLOT
      modifies slot0, slot1
      ensures Valid() && Abs() == old(Abs()).(slots := [slot0[..], slot1[..]])
      ensures [slot0[..], slot1[..]] ==
          old([slot0[..], slot1[..]])[1 - running := Erased(old([slot0[..], slot1[..]])[1 - running], size)]
    {
      var t := if running == 0 then slot1 else slot0;
      forall k | 0 <= k < size { t[k] := 0xFF; }
      ghost var before := old([slot0[..], slot1[..]]);
      assert t[..] == Erased(before[1 - running], size);
      if running == 0 {
        assert slot0[..] == before[0];
      } else {
        assert slot1[..] == before[1];
      }
    }

    method StoreChunk(index: nat, d: seq<bv8>)
      requires Valid() && index < totalChunks && index * CHUNK + |d| <= SLOT
      modifies this, bitmap, slot0, slot1
      ensures Valid() && Abs() == Store(old(Abs()), index, d)
      ensures lastAckMs == old(lastAckMs)
    {
      Program(index * CHUNK, d);
      BitSet(index);
      recvCount := (recvCount + 1) % 0x1_0000;
    }

    method HandleBegin(size: nat, chunks: nat, f: Flash) returns (a: Option<Ack>)
      requires Valid()
      modifies this, bitmap, slot0, slot1
      ensures Valid() && (Abs(), a) == OnBegin(old(Abs()), size, chunks, f)
    {
      if chunks == 0 || chunks > MAX_CHUNKS {
        return Some(Ack(Err, 0, 0));
      }
      Reset();
      if !f.ok || size > SLOT {
        return Some(Ack(Err, 0, 0));
      }
      Erase(size);
      active, totalSize, totalChunks := true, size, chunks;
      a := Some(Ack(Ready, 0, 0));
    }

    method HandleData(index: nat, payload: seq<bv8>, nowMs: nat, f: Flash) returns (a: Option<Ack>)
      requires Valid()
      modifies this, bitmap, slot0, slot1
      ensures Valid() && (Abs(), a) == OnData(old(Abs()), index, payload, nowMs, f)
    {
      if !active { return None; }
      if index >= totalChunks { return None; }
      var have := BitTest(index);
      if have { return None; }
      var n := if |payload| > CHUNK then CHUNK else |payload|;
      var off := index * CHUNK;
      if !f.ok {
        Program(off, payload[..Min(f.part, n)]);
        var gap := FirstGap();
        return Some(Ack(Err, gap, recvCount));
      }
      StoreChunk(index, payload[..n]);
      a := None;
      if (nowMs - lastAckMs) % 0x1_0000_0000 > ACK_PERIOD_MS {
        lastAckMs := nowMs;
        var gap := FirstGap();
        a := Some(Ack(Receiving, gap, recvCount));
      }
    }

    method HandleEnd(f: Flash) returns (a: Option<Ack>)
      requires Valid()
      modifies this, bitmap
      ensures Valid() && (Abs(), a) == OnEnd(old(Abs()), f)
    {
      if !active { return None; }
      if recvCount < totalChunks {
        var gap := FirstGap();
        return Some(Ack(Resume, gap, recvCount));
      }
      if !f.ok || !f.bootOk {
        active := false;
        return Some(Ack(Err, 0, recvCount));
      }
      a := Some(Ack(Done, 0, recvCount));
      Reset();
      running := 1 - running;
    }
  }
}
