/**
 * The relay as a whole: a manager broadcasting one image over a link that
 * loses, repeats and reorders packets, any number of nodes, and the acks that
 * come back over the same kind of link.
 */
module OtaRelay {
  import opened Bits
  import opened Bytes
  import opened OtaNode

  // ------------------------------------------------------------------
  // Cutting an image into chunks
  // ------------------------------------------------------------------

  /** Chunk count as the manager computes it, in 32-bit arithmetic cut to 16 bits. */
  function ChunkCount(size: nat): nat {
    (size + CHUNK - 1) % 0x1_0000_0000 / CHUNK % 0x1_0000
  }

  function ChunkLen(size: nat, index: nat): nat
    requires index * CHUNK <= size
  {
    Min(size - index * CHUNK, CHUNK)
  }

  function Chunk(image: seq<bv8>, index: nat): seq<bv8>
    requires index * CHUNK <= |image|
  {
    image[index * CHUNK..index * CHUNK + ChunkLen(|image|, index)]
  }

  /** What the node does with the size the manager announces. */
  predicate Accepts(size: nat) {
    0 < ChunkCount(size) <= MAX_CHUNKS
  }

  /** The node accepts an announcement that covers the whole image exactly for images that fit the slot. */
  lemma AcceptedExactlyWhenItFits(size: nat)
    requires 1 <= size < 0x1_0000_0000
    ensures Accepts(size) && size <= ChunkCount(size) * CHUNK <==> size <= SLOT
    ensures size <= SLOT ==>
              && ChunkCount(size) * CHUNK < size + CHUNK
              && (size > SLOT - CHUNK ==> ChunkCount(size) == MAX_CHUNKS)
  {
    if size + CHUNK - 1 < 0x1_0000_0000 {
      var exact := (size + CHUNK - 1) / CHUNK;
      assert size <= exact * CHUNK < size + CHUNK;
      if size > SLOT { assert exact > MAX_CHUNKS; }
    }
  }

  /** Everything the manager may put on the air for `image`. */
  ghost predicate Genuine(image: Image, p: Packet) {
    match p
    case Begin(size, chunks) => size == |image| && chunks == ChunkCount(|image|)
    case Data(i, payload) => i < ChunkCount(|image|) && i * CHUNK <= |image| && payload == Chunk(image, i)
    case End => true
  }

  // ------------------------------------------------------------------
  // What every handler keeps
  // ------------------------------------------------------------------

  ghost predicate ChunkStored(image: Image, slot: seq<bv8>, i: nat)
    requires |slot| == SLOT
  {
    i * CHUNK <= |image| && slot[i * CHUNK..i * CHUNK + ChunkLen(|image|, i)] == Chunk(image, i)
  }

  /** A write of the chunk would leave the chunk in its place: the flash there is erased, or holds part of it. */
  ghost predicate ChunkWritable(image: Image, slot: seq<bv8>, i: nat)
    requires |slot| == SLOT && i * CHUNK <= |image|
  {
    forall k :: i * CHUNK <= k < i * CHUNK + ChunkLen(|image|, i) ==> Burnt(slot[k], image[k]) == image[k]
  }

  /** The flash is ready for what is missing and holds what is not. */
  ghost predicate ChunkOk(image: Image, slot: seq<bv8>, i: nat, stored: bool)
    requires |slot| == SLOT
  {
    if stored then ChunkStored(image, slot, i) else i * CHUNK <= |image| && ChunkWritable(image, slot, i)
  }

  /** The transfer in progress is of this image, counts its bits, and every set bit is a stored chunk. */
  ghost predicate Consistent(image: Image, r: Rx) {
    && r.WellFormed()
    && (r.active ==>
          && r.totalSize == |image|
          && r.totalChunks == ChunkCount(|image|)
          && r.recvCount == Count(r.bits, r.totalChunks)
          && forall i :: 0 <= i < r.totalChunks ==> ChunkOk(image, r.slots[r.Target()], i, r.bits[i]))
  }

  ghost predicate Holds(image: Image, slot: seq<bv8>) {
    |image| <= |slot| && slot[..|image|] == image
  }

  lemma {:induction false} CountSet(bits: seq<bool>, k: nat, i: nat)
    requires i < |bits| && k <= |bits| && !bits[i]
    ensures Count(bits[i := true], k) == Count(bits, k) + if i < k then 1 else 0
  {
    if k > 0 {
      CountSet(bits, k - 1, i);
    }
  }

  /** Pigeonhole: a full count leaves no clear bit. */
  lemma {:induction false} FullCount(bits: seq<bool>, k: nat)
    requires k <= |bits|
    ensures Count(bits, k) == k <==> forall i :: 0 <= i < k ==> bits[i]
  {
    if k > 0 {
      FullCount(bits, k - 1);
    }
  }

  lemma {:induction false} CountNone(bits: seq<bool>, k: nat)
    requires k <= |bits| && forall i :: 0 <= i < k ==> !bits[i]
    ensures Count(bits, k) == 0
  {
    if k > 0 {
      CountNone(bits, k - 1);
    }
  }

  /** All chunks stored is the whole image stored. */
  lemma ChunksMakeImage(image: Image, slot: seq<bv8>)
    requires |slot| == SLOT
    requires forall i :: 0 <= i < ChunkCount(|image|) ==> ChunkStored(image, slot, i)
    ensures Holds(image, slot)
  {
    AcceptedExactlyWhenItFits(|image|);
    forall k | 0 <= k < |image|
      ensures slot[k] == image[k]
    {
      var i := k / CHUNK;
      assert ChunkStored(image, slot, i);
      assert slot[k] == slot[i * CHUNK..i * CHUNK + ChunkLen(|image|, i)][k - i * CHUNK];
      assert image[k] == Chunk(image, i)[k - i * CHUNK];
    }
  }

  /** Writing chunk `i` in its place stores it and changes nothing about any other. */
  lemma WriteChunk(image: Image, t: seq<bv8>, i: nat, k: nat, stored: bool)
    requires |t| == SLOT && i < ChunkCount(|image|) && i * CHUNK <= |image| && ChunkWritable(image, t, i)
    requires i * CHUNK + ChunkLen(|image|, i) <= SLOT && ChunkOk(image, t, k, stored)
    ensures ChunkOk(image, Programmed(t, i * CHUNK, Chunk(image, i)), k, k == i || stored)
  {
    var d := Chunk(image, i);
    var t1 := Programmed(t, i * CHUNK, d);
    if k == i {
      assert t1[i * CHUNK..i * CHUNK + |d|] == d;
    } else {
      OtherChunk(image, t, t1, i, k, stored);
    }
  }

  lemma OtherChunk(image: Image, t: seq<bv8>, t1: seq<bv8>, i: nat, k: nat, stored: bool)
    requires |t| == |t1| == SLOT && k != i && i * CHUNK <= |image| && ChunkOk(image, t, k, stored)
    requires forall j :: 0 <= j < SLOT && !(i * CHUNK <= j < i * CHUNK + CHUNK) ==> t1[j] == t[j]
    ensures ChunkOk(image, t1, k, stored)
  {
    var n := ChunkLen(|image|, k);
    assert k * CHUNK + CHUNK <= i * CHUNK || i * CHUNK + CHUNK <= k * CHUNK;
    if stored {
      assert t1[k * CHUNK..k * CHUNK + n] == t[k * CHUNK..k * CHUNK + n];
    }
  }

  /** A write of chunk `i` that stops short leaves it writable, and changes nothing about any other. */
  lemma WritePart(image: Image, t: seq<bv8>, i: nat, n: nat, k: nat, stored: bool)
    requires |t| == SLOT && i < ChunkCount(|image|) && i * CHUNK <= |image| && ChunkWritable(image, t, i)
    requires i * CHUNK + ChunkLen(|image|, i) <= SLOT && n <= ChunkLen(|image|, i)
    requires ChunkOk(image, t, k, stored) && (k == i ==> !stored)
    ensures ChunkOk(image, Programmed(t, i * CHUNK, Chunk(image, i)[..n]), k, stored)
  {
    var d := Chunk(image, i)[..n];
    var t1 := Programmed(t, i * CHUNK, d);
    if k == i {
      forall j | i * CHUNK <= j < i * CHUNK + ChunkLen(|image|, i) ensures Burnt(t1[j], image[j]) == image[j] {
        if j < i * CHUNK + n {
          assert d[j - i * CHUNK] == image[j];
          BurntFacts(t[j], image[j]);
        }
      }
    } else {
      OtherChunk(image, t, t1, i, k, stored);
    }
  }

  lemma StoreKeeps(image: Image, r: Rx, i: nat)
    requires Consistent(image, r) && r.active && i < r.totalChunks && !r.bits[i]
    requires i * CHUNK <= |image| && i * CHUNK + ChunkLen(|image|, i) <= SLOT
    ensures Consistent(image, Store(r, i, Chunk(image, i)))
  {
    var r1 := Store(r, i, Chunk(image, i));
    CountSet(r.bits, r.totalChunks, i);
    assert ChunkOk(image, r.slots[r.Target()], i, false);
    forall k | 0 <= k < r1.totalChunks
      ensures ChunkOk(image, r1.slots[r1.Target()], k, r1.bits[k])
    {
      WriteChunk(image, r.slots[r.Target()], i, k, r.bits[k]);
    }
  }

  lemma PartKeeps(image: Image, r: Rx, i: nat, n: nat)
    requires Consistent(image, r) && r.active && i < r.totalChunks && !r.bits[i]
    requires i * CHUNK <= |image| && i * CHUNK + ChunkLen(|image|, i) <= SLOT && n <= ChunkLen(|image|, i)
    ensures Consistent(image, Write(r, i * CHUNK, Chunk(image, i)[..n]))
  {
    var r1 := Write(r, i * CHUNK, Chunk(image, i)[..n]);
    assert ChunkOk(image, r.slots[r.Target()], i, false);
    forall k | 0 <= k < r1.totalChunks
      ensures ChunkOk(image, r1.slots[r1.Target()], k, r1.bits[k])
    {
      WritePart(image, r.slots[r.Target()], i, n, k, r.bits[k]);
    }
  }

  lemma DataKeeps(image: Image, r: Rx, i: nat, nowMs: nat, f: Flash)
    requires Consistent(image, r) && i < ChunkCount(|image|) && i * CHUNK <= |image|
    ensures Consistent(image, OnData(r, i, Chunk(image, i), nowMs, f).0)
  {
    var d := Chunk(image, i);
    assert d[..|d|] == d;
    if r.active && i < r.totalChunks && !r.bits[i] && i * CHUNK + |d| <= SLOT {
      if f.ok { StoreKeeps(image, r, i); } else { PartKeeps(image, r, i, Min(f.part, |d|)); }
    }
  }

  /** Erased flash takes every chunk. */
  lemma BeginKeeps(image: Image, r: Rx, chunks: nat, f: Flash)
    requires r.WellFormed() && chunks == ChunkCount(|image|)
    ensures Consistent(image, OnBegin(r, |image|, chunks, f).0)
  {
    AcceptedExactlyWhenItFits(|image|);
    CountNone(NoBits(), chunks);
    var r1 := OnBegin(r, |image|, chunks, f).0;
    if r1.active {
      var t := r1.slots[r1.Target()];
      forall i | 0 <= i < r1.totalChunks ensures ChunkOk(image, t, i, r1.bits[i]) {
        assert i * CHUNK <= |image|;
        forall k | i * CHUNK <= k < i * CHUNK + ChunkLen(|image|, i) ensures Burnt(t[k], image[k]) == image[k] {
          assert t[k] == 0xFF;
          BurntFacts(t[k], image[k]);
        }
      }
    }
  }

  /** Every handler, given a genuine packet, keeps the transfer consistent, whatever the flash driver answers. */
  lemma PacketKeeps(image: Image, r: Rx, p: Packet, nowMs: nat, f: Flash)
    requires Consistent(image, r) && Genuine(image, p)
    ensures Consistent(image, OnPacket(r, p, nowMs, f).0)
  {
    AcceptedExactlyWhenItFits(|image|);
    match p
    case Begin(size, chunks) => BeginKeeps(image, r, chunks, f);
    case Data(i, payload) => DataKeeps(image, r, i, nowMs, f);
    case End =>
  }

  /** DONE is only ever sent by a node whose boot slot then holds the image, byte for byte. */
  lemma DoneMeansImage(image: Image, r: Rx, p: Packet, nowMs: nat, f: Flash)
    requires Consistent(image, r) && Genuine(image, p)
    requires OnPacket(r, p, nowMs, f).1.Some? && OnPacket(r, p, nowMs, f).1.value.status == Done
    ensures var r1 := OnPacket(r, p, nowMs, f).0;
            r1.running == r.Target() && Holds(image, r1.slots[r1.running])
  {
    FullCount(r.bits, r.totalChunks);
    forall i | 0 <= i < r.totalChunks ensures ChunkStored(image, r.slots[r.Target()], i) {
      assert r.bits[i] && ChunkOk(image, r.slots[r.Target()], i, r.bits[i]);
    }
    ChunksMakeImage(image, r.slots[r.Target()]);
  }

  /** Once a node runs from the image it always does, and reporting DONE means it now does. */
  lemma PacketKeepsBoot(image: Image, r: Rx, p: Packet, nowMs: nat, f: Flash, booted: bool)
    requires Consistent(image, r) && Genuine(image, p)
    requires booted ==> Holds(image, r.slots[r.running])
    ensures var (r1, a) := OnPacket(r, p, nowMs, f);
            booted || (a.Some? && a.value.status == Done) ==> Holds(image, r1.slots[r1.running])
  {
    RunningSlotUntouched(r, p, nowMs, f);
    var a := OnPacket(r, p, nowMs, f).1;
    if a.Some? && a.value.status == Done {
      DoneMeansImage(image, r, p, nowMs, f);
    }
  }

  /** No handler writes into the slot the node is running from. */
  lemma RunningSlotUntouched(r: Rx, p: Packet, nowMs: nat, f: Flash)
    requires r.WellFormed()
    ensures OnPacket(r, p, nowMs, f).0.slots[r.running] == r.slots[r.running]
    ensures OnPacket(r, p, nowMs, f).0.running != r.running ==>
              OnPacket(r, p, nowMs, f).1 == Some(Ack(Done, 0, r.recvCount))
  {
  }

  // ------------------------------------------------------------------
  // What a node answers
  // ------------------------------------------------------------------

  /** The chunks of the transfer that a node holds. */
  ghost function Held(r: Rx): set<nat>
    requires r.WellFormed()
  {
    set i: nat | i < r.totalChunks && r.bits[i]
  }

  /** `g` is the first chunk that a node lacks, or the number of chunks if it lacks none. */
  ghost predicate GapAt(r: Rx, g: nat)
    requires r.WellFormed()
  {
    && g <= r.totalChunks && (forall k :: 0 <= k < g ==> r.bits[k])
    && (g < r.totalChunks ==> !r.bits[g])
  }

  lemma {:induction false} CountIsSize(bits: seq<bool>, k: nat)
    requires k <= |bits|
    ensures Count(bits, k) == |set i: nat | i < k && bits[i]|
  {
    if k > 0 {
      CountIsSize(bits, k - 1);
      var before, all := set i: nat | i < k - 1 && bits[i], set i: nat | i < k && bits[i];
      assert all == if bits[k - 1] then before + {k - 1} else before;
    }
  }

  lemma CountsHeld(image: Image, r: Rx)
    requires Consistent(image, r) && r.active
    ensures r.recvCount == |Held(r)|
  {
    CountIsSize(r.bits, r.totalChunks);
  }

  /**
   * An END that finds chunks missing changes nothing, and the node asks to resume at the first of them, with
   * the number it holds.
   */
  lemma EndAsksForGap(image: Image, r: Rx, g: nat, nowMs: nat, f: Flash)
    requires Consistent(image, r) && r.active && GapAt(r, g) && g < r.totalChunks
    ensures OnPacket(r, End, nowMs, f) == (r, Some(Ack(Resume, g, |Held(r)|)))
  {
    CountsHeld(image, r);
    FullCount(r.bits, r.totalChunks);
  }

  /** An END that finds none missing ends the transfer; the node changes slots and says so if the driver agrees. */
  lemma EndFinishes(image: Image, r: Rx, nowMs: nat, f: Flash)
    requires Consistent(image, r) && r.active && GapAt(r, r.totalChunks)
    ensures var (r1, a) := OnPacket(r, End, nowMs, f);
            var booted := f.ok && f.bootOk;
            && a == Some(Ack(if booted then Done else Err, 0, r.totalChunks))
            && !r1.active && r1.slots == r.slots && r1.running == (if booted then 1 - r.running else r.running)
            && (booted ==> r1.totalChunks == 0 && Held(r1) == {}) && (!booted ==> Held(r1) == Held(r))
  {
    FullCount(r.bits, r.totalChunks);
  }

  /** A BEGIN of the image starts it over on erased flash, or fails with the driver; the node says which. */
  lemma BeginStartsOver(image: Image, r: Rx, nowMs: nat, f: Flash)
    requires r.WellFormed()
    ensures var (r1, a) := OnPacket(r, Begin(|image|, ChunkCount(|image|)), nowMs, f);
            && a == Some(Ack(if f.ok then Ready else Err, 0, 0)) && r1.active == f.ok && r1.running == r.running
            && (f.ok ==> Held(r1) == {} && r1.totalChunks == ChunkCount(|image|)
                         && var t := r1.slots[1 - r.running];
                            forall k :: 0 <= k < |image| ==> t[k] == 0xFF)
  {
    AcceptedExactlyWhenItFits(|image|);
  }

  lemma GapIsFirst(r: Rx, g: nat)
    requires r.WellFormed() && GapAt(r, g)
    ensures FirstMissing(r) == g
  {
  }

  lemma HeldGrows(r: Rx, r1: Rx, i: nat)
    requires r.WellFormed() && r1.WellFormed() && i < r.totalChunks == r1.totalChunks && r1.bits == r.bits[i := true]
    ensures Held(r1) == Held(r) + {i}
  {
  }

  lemma WriteIsMarked(r: Rx, i: nat, d: seq<bv8>, nowMs: nat, f: Flash)
    requires r.WellFormed() && r.active && i < r.totalChunks && !r.bits[i] && |d| <= CHUNK && i * CHUNK + |d| <= SLOT
    requires f.ok
    ensures var (r1, a) := OnPacket(r, Data(i, d), nowMs, f);
            var told := (nowMs - r.lastAckMs) % 0x1_0000_0000 > 300;
            && r1.active && r1.totalChunks == r.totalChunks && r1.bits == r.bits[i := true]
            && a == (if told then Some(Ack(Receiving, FirstMissing(r1), r1.recvCount)) else None)
            && r1.lastAckMs == if told then nowMs else r.lastAckMs
  {
  }

  /**
   * A chunk that the node lacks is held afterwards if the write works. It is then acknowledged, with the first
   * gap and the number held, unless the last such ack is at most 300 ms old.
   */
  lemma DataIsAnswered(image: Image, r: Rx, i: nat, nowMs: nat, f: Flash, g: nat)
    requires Consistent(image, r) && r.active && i < r.totalChunks && !r.bits[i] && i * CHUNK <= |image| && f.ok
    requires GapAt(OnPacket(r, Data(i, Chunk(image, i)), nowMs, f).0, g)
    ensures var (r1, a) := OnPacket(r, Data(i, Chunk(image, i)), nowMs, f);
            var told := (nowMs - r.lastAckMs) % 0x1_0000_0000 > 300;
            && Held(r1) == Held(r) + {i}
            && a == (if told then Some(Ack(Receiving, g, |Held(r1)|)) else None)
            && r1.lastAckMs == if told then nowMs else r.lastAckMs
  {
    AcceptedExactlyWhenItFits(|image|);
    WriteIsMarked(r, i, Chunk(image, i), nowMs, f);
    PacketKeeps(image, r, Data(i, Chunk(image, i)), nowMs, f);
    var r1 := OnPacket(r, Data(i, Chunk(image, i)), nowMs, f).0;
    CountsHeld(image, r1);
    GapIsFirst(r1, g);
    HeldGrows(r, r1, i);
  }

  /** A write that fails leaves the chunk missing and touches nothing but its place, and is told in any case. */
  lemma FailureIsTold(image: Image, r: Rx, i: nat, nowMs: nat, f: Flash, g: nat)
    requires Consistent(image, r) && r.active && i < r.totalChunks && !r.bits[i] && i * CHUNK <= |image| && !f.ok
    requires GapAt(r, g)
    ensures var (r1, a) := OnPacket(r, Data(i, Chunk(image, i)), nowMs, f);
            && r1 == r.(slots := r1.slots) && a == Some(Ack(Err, g, |Held(r)|))
            && r1.slots[r.running] == r.slots[r.running]
            && var was, now := r.slots[1 - r.running], r1.slots[1 - r.running];
               now[..192 * i] == was[..192 * i] && now[192 * i + 192..] == was[192 * i + 192..]
  {
    AcceptedExactlyWhenItFits(|image|);
    CountsHeld(image, r);
    GapIsFirst(r, g);
  }

  /** Any other packet changes nothing; an impossible number of chunks is told, the rest is ignored. */
  lemma OtherwiseUnchanged(r: Rx, p: Packet, nowMs: nat, f: Flash)
    requires r.WellFormed()
    requires match p
             case Begin(size, chunks) => chunks == 0 || chunks > 16384
             case Data(i, d) => !r.active || i >= r.totalChunks || i in Held(r)
             case End => !r.active
    ensures OnPacket(r, p, nowMs, f) == (r, if p.Begin? then Some(Ack(Err, 0, 0)) else None)
  {
  }
}
