/**
 * Captured records on their way over the mesh: a node cuts a record into
 * fragments, and the manager reassembles the fragments of several nodes in
 * four shared slots.
 */
module PcapFragments {
  import opened Bytes

  type NodeId = string

  const PAYLOAD_MAX := 200                 // bytes of one forwarded payload
  const FRAG := 199                        // record bytes of one fragment
  const MAX_FRAGS := 32
  const REASM_MAX := 3072                  // bytes of one reassembly buffer
  const SLOTS := 4

  // ------------------------------------------------------------------
  // Cutting a record
  // ------------------------------------------------------------------

  /** Records the forwarder accepts; longer ones are not sent at all. */
  predicate Forwardable(rec: seq<byte>) {
    1 <= |rec| <= MAX_FRAGS * FRAG
  }

  function FragCount(len: nat): nat {
    (len + FRAG - 1) / FRAG
  }

  function FragLen(len: nat, k: nat): nat
    requires k * FRAG <= len
  {
    Min(len - k * FRAG, FRAG)
  }

  function FragData(rec: seq<byte>, k: nat): (d: seq<byte>)
    requires k * FRAG <= |rec|
    ensures |d| == FragLen(|rec|, k)
  {
    rec[k * FRAG..k * FRAG + FragLen(|rec|, k)]
  }

  /** Fragment `k`: a header byte with its index and a last-fragment mark, then its share of the record. */
  function Fragment(rec: seq<byte>, k: nat): (p: seq<byte>)
    requires Forwardable(rec) && k < FragCount(|rec|)
    ensures 1 <= |p| <= PAYLOAD_MAX
  {
    [(if k == FragCount(|rec|) - 1 then 0x80 else 0) + k % 0x80] + FragData(rec, k)
  }

  datatype Packet = Packet(src: NodeId, seqNo: nat, payload: seq<byte>)

  /** The packets of record `rec`, numbered `q`, from fragment `k` on. */
  function PacketsOf(id: NodeId, q: nat, rec: seq<byte>, k: nat): (ps: seq<Packet>)
    requires Forwardable(rec) && k <= FragCount(|rec|)
    ensures |ps| == FragCount(|rec|) - k
    decreases FragCount(|rec|) - k
  {
    if k == FragCount(|rec|) then [] else [Packet(id, q, Fragment(rec, k))] + PacketsOf(id, q, rec, k + 1)
  }

  /** What waits to be transmitted, and the number the next record will bear. */
  datatype Outbox = Outbox(nextSeq: nat, queue: seq<Packet>)

  /** All fragments of a record join the queue, or none for want of room; its number is spent either way. */
  function Offered(id: NodeId, o: Outbox, rec: seq<byte>, room: int): (Outbox, bool) {
    if |rec| == 0 || |rec| > MAX_FRAGS * FRAG then (o, false)
    else
      var next := (o.nextSeq + 1) % 0x1_0000;
      if room < FragCount(|rec|) then (o.(nextSeq := next), false)
      else (Outbox(next, o.queue + PacketsOf(id, o.nextSeq, rec, 0)), true)
  }

  lemma PacketsJoin(queue: seq<Packet>, id: NodeId, q: nat, rec: seq<byte>, k: nat)
    requires Forwardable(rec) && k < FragCount(|rec|)
    ensures (queue + [Packet(id, q, Fragment(rec, k))]) + PacketsOf(id, q, rec, k + 1)
            == queue + PacketsOf(id, q, rec, k)
  {
  }

  class Forwarder {
    const self: NodeId
    const capacity: nat
    var nextSeq: nat
    var queue: seq<Packet>

    constructor (self: NodeId, capacity: nat)
      ensures this.self == self && this.capacity == capacity && nextSeq == 0 && queue == []
    {
      this.self := self;
      this.capacity := capacity;
      nextSeq := 0;
      queue := [];
    }

    method CutFragment(rec: seq<byte>, off: nat, idx: nat, totalFrags: nat) returns (payload: seq<byte>, chunk: nat)
      requires Forwardable(rec) && idx < FragCount(|rec|) == totalFrags && off == idx * FRAG
      ensures payload == Fragment(rec, idx) && chunk == FragLen(|rec|, idx)
    {
      chunk := if |rec| - off > FRAG then FRAG else |rec| - off;
      var header := (if idx == totalFrags - 1 then 0x80 else 0) + idx % 0x80;
      payload := [header] + rec[off..off + chunk];
    }

    method Forward(rec: seq<byte>) returns (queued: bool)
      modifies this
      ensures (Outbox(nextSeq, queue), queued)
              == Offered(self, old(Outbox(nextSeq, queue)), rec, capacity - old(|queue|))
      ensures |old(queue)| <= capacity ==> |queue| <= capacity
    {
      if |rec| == 0 || |rec| > MAX_FRAGS * FRAG { return false; }
      var recSeq := nextSeq;
      nextSeq := (nextSeq + 1) % 0x1_0000;
      var totalFrags := (|rec| + FRAG - 1) / FRAG;
      if capacity - |queue| < totalFrags { return false; }
      var off, idx := 0, 0;
      assert queue + PacketsOf(self, recSeq, rec, 0) == old(queue) + PacketsOf(self, recSeq, rec, 0);
      while idx < totalFrags
        invariant idx <= totalFrags && off == Min(idx * FRAG, |rec|)
        invariant nextSeq == (recSeq + 1) % 0x1_0000
        invariant queue + PacketsOf(self, recSeq, rec, idx) == old(queue) + PacketsOf(self, recSeq, rec, 0)
      {
        var payload, chunk := CutFragment(rec, off, idx, totalFrags);
        var pkt := Packet(self, recSeq, payload);
        PacketsJoin(queue, self, recSeq, rec, idx);
        queue := queue + [pkt];
        off := off + chunk;
        idx := idx + 1;
      }
      assert queue + [] == queue;
      queued := true;
    }
  }

  // ------------------------------------------------------------------
  // Reassembly
  // ------------------------------------------------------------------

  datatype Slot = Slot(
    inUse: bool, src: NodeId, seqNo: nat, lastMs: nat,
    got: seq<bool>, highest: nat, lastSeen: bool, total: nat, buf: seq<byte>)
  {
    ghost predicate WellFormed() {
      |got| == MAX_FRAGS && highest < MAX_FRAGS && |buf| == REASM_MAX && total <= REASM_MAX
    }

    predicate For(id: NodeId) { inUse && src == id }
  }

  ghost predicate SlotsOk(slots: seq<Slot>) {
    |slots| == SLOTS && forall i :: 0 <= i < SLOTS ==> slots[i].WellFormed()
  }

  function FindOwn(slots: seq<Slot>, id: NodeId, i: nat): (r: nat)
    requires i <= |slots|
    ensures i <= r <= |slots|
    ensures r < |slots| ==> slots[r].For(id)
    ensures forall k :: i <= k < r ==> !slots[k].For(id)
    decreases |slots| - i
  {
    if i == |slots| || slots[i].For(id) then i else FindOwn(slots, id, i + 1)
  }

  function FindFree(slots: seq<Slot>, i: nat): (r: nat)
    requires i <= |slots|
    ensures i <= r <= |slots|
    ensures r < |slots| ==> !slots[r].inUse
    ensures forall k :: i <= k < r ==> slots[k].inUse
    decreases |slots| - i
  {
    if i == |slots| || !slots[i].inUse then i else FindFree(slots, i + 1)
  }

  /** The slot used least recently, the first of several. */
  function FindOldest(slots: seq<Slot>, k: nat): (r: nat)
    requires 0 < k <= |slots|
    ensures r < k && forall i :: 0 <= i < k ==> slots[r].lastMs <= slots[i].lastMs
  {
    if k == 1 then 0
    else
      var r := FindOldest(slots, k - 1);
      if slots[k - 1].lastMs < slots[r].lastMs then k - 1 else r
  }

  /** The slot a fragment goes to: the node's own, else a free one, else the one least recently used. */
  function Pick(slots: seq<Slot>, id: NodeId): (r: nat)
    requires 0 < |slots|
    ensures r < |slots|
  {
    var own, free := FindOwn(slots, id, 0), FindFree(slots, 0);
    if own < |slots| then own else if free < |slots| then free else FindOldest(slots, |slots|)
  }

  function NoFrags(): (g: seq<bool>)
    ensures |g| == MAX_FRAGS && forall i :: 0 <= i < MAX_FRAGS ==> !g[i]
  {
    seq(MAX_FRAGS, _ => false)
  }

  /** The slot as the fragment finds it: kept if it holds the same record, else started afresh. */
  function Claim(s: Slot, id: NodeId, seqNo: nat, nowMs: nat): Slot {
    (if s.For(id) && s.seqNo == seqNo then s
     else s.(inUse := true, src := id, seqNo := seqNo, got := NoFrags(), highest := 0, lastSeen := false, total := 0))
    .(lastMs := nowMs)
  }

  predicate Full(s: Slot)
    requires s.highest < |s.got|
  {
    s.lastSeen && forall i :: 0 <= i <= s.highest ==> s.got[i]
  }

  /** One fragment stored in a claimed slot. */
  function Put(s: Slot, idx: nat, isLast: bool, data: seq<byte>): (r: Slot)
    requires s.WellFormed() && idx < MAX_FRAGS && idx * FRAG + |data| <= REASM_MAX
    ensures r.WellFormed()
  {
    var up := idx >= s.highest;
    s.(buf := Overwrite(s.buf, idx * FRAG, data),
       got := s.got[idx := true],
       highest := if up then idx else s.highest,
       total := if up then idx * FRAG + |data| else s.total,
       lastSeen := s.lastSeen || isLast)
  }

  /** What one slot makes of a fragment, and the record it hands on when that was the missing one. */
  function Accept(s: Slot, id: NodeId, seqNo: nat, idx: nat, isLast: bool, data: seq<byte>, nowMs: nat)
    : (res: (Slot, Option<seq<byte>>))
    requires s.WellFormed() && idx < MAX_FRAGS
    ensures res.0.WellFormed()
  {
    var c := Claim(s, id, seqNo, nowMs);
    if idx * FRAG + |data| > REASM_MAX then (c.(inUse := false), None)
    else
      var p := Put(c, idx, isLast, data);
      if Full(p) then (p.(inUse := false), Some(p.buf[..p.total])) else (p, None)
  }

  function Add(slots: seq<Slot>, pkt: Packet, nowMs: nat): (res: (seq<Slot>, Option<seq<byte>>))
    requires SlotsOk(slots)
    ensures SlotsOk(res.0)
  {
    if |pkt.payload| < 1 || pkt.payload[0] % 0x80 >= MAX_FRAGS then (slots, None)
    else
      var i := Pick(slots, pkt.src);
      var (s1, out) := Accept(slots[i], pkt.src, pkt.seqNo, pkt.payload[0] % 0x80, pkt.payload[0] >= 0x80,
                              pkt.payload[1..], nowMs);
      (slots[i := s1], out)
  }

  // ------------------------------------------------------------------
  // Safety: only whole records that were forwarded come out
  // ------------------------------------------------------------------

  type Sent = map<(NodeId, nat), seq<byte>>

  /** The packet is a fragment of the record its node forwarded under its sequence number. */
  ghost predicate Genuine(sent: Sent, pkt: Packet) {
    && (pkt.src, pkt.seqNo) in sent
    && var rec := sent[(pkt.src, pkt.seqNo)];
       Forwardable(rec) && exists k :: 0 <= k < FragCount(|rec|) && pkt.payload == Fragment(rec, k)
  }

  /** Everything marked received in the slot is the right piece of `rec`. */
  ghost predicate Partial(s: Slot, rec: seq<byte>) {
    s.WellFormed() && Forwardable(rec) && Pieces(s, rec) && Counted(s, rec)
  }

  /** The slot's counters follow from what is marked received. */
  ghost predicate Counted(s: Slot, rec: seq<byte>)
    requires s.WellFormed() && Forwardable(rec)
  {
    && (s.got == NoFrags() ==> s.highest == 0 && s.total == 0 && !s.lastSeen)
    && (s.got != NoFrags() ==>
          s.got[s.highest] && s.highest < FragCount(|rec|) && s.total == Min(|rec|, (s.highest + 1) * FRAG))
    && (forall i :: s.highest < i < MAX_FRAGS ==> !s.got[i])
    && (s.lastSeen <==> s.got[FragCount(|rec|) - 1])
  }

  ghost predicate Piece(s: Slot, rec: seq<byte>, i: nat)
    requires |s.buf| == REASM_MAX
  {
    && i < FragCount(|rec|) && i * FRAG + FragLen(|rec|, i) <= REASM_MAX
    && s.buf[i * FRAG..i * FRAG + FragLen(|rec|, i)] == FragData(rec, i)
  }

  ghost predicate Pieces(s: Slot, rec: seq<byte>)
    requires |s.buf| == REASM_MAX && |s.got| == MAX_FRAGS
  {
    forall i :: 0 <= i < MAX_FRAGS && s.got[i] ==> Piece(s, rec, i)
  }

  ghost predicate SlotHolds(sent: Sent, s: Slot) {
    s.inUse ==> (s.src, s.seqNo) in sent && Partial(s, sent[(s.src, s.seqNo)])
  }

  lemma PutPiece(s: Slot, rec: seq<byte>, k: nat, i: nat)
    requires s.WellFormed() && Forwardable(rec) && k < FragCount(|rec|) && k < MAX_FRAGS
    requires k * FRAG + FragLen(|rec|, k) <= REASM_MAX
    requires i == k || Piece(s, rec, i)
    ensures Piece(Put(s, k, k == FragCount(|rec|) - 1, FragData(rec, k)), rec, i)
  {
    var d := FragData(rec, k);
    var b := Overwrite(s.buf, k * FRAG, d);
    var n := FragLen(|rec|, i);
    if i == k {
      assert b[k * FRAG..k * FRAG + |d|] == d;
    } else {
      assert i * FRAG + FRAG <= k * FRAG || k * FRAG + FRAG <= i * FRAG;
      assert b[i * FRAG..i * FRAG + n] == s.buf[i * FRAG..i * FRAG + n];
    }
  }

  lemma PutKeepsPieces(s: Slot, rec: seq<byte>, k: nat)
    requires Partial(s, rec) && k < FragCount(|rec|) && k < MAX_FRAGS && k * FRAG + FragLen(|rec|, k) <= REASM_MAX
    ensures var p := Put(s, k, k == FragCount(|rec|) - 1, FragData(rec, k));
            p.got == s.got[k := true] && Pieces(p, rec)
  {
    var p := Put(s, k, k == FragCount(|rec|) - 1, FragData(rec, k));
    forall i | 0 <= i < MAX_FRAGS && p.got[i]
      ensures Piece(p, rec, i)
    {
      PutPiece(s, rec, k, i);
    }
  }

  lemma PutCounts(s: Slot, rec: seq<byte>, k: nat)
    requires s.WellFormed() && Forwardable(rec) && Counted(s, rec)
    requires k < FragCount(|rec|) && k < MAX_FRAGS && k * FRAG + FragLen(|rec|, k) <= REASM_MAX
    ensures Counted(Put(s, k, k == FragCount(|rec|) - 1, FragData(rec, k)), rec)
  {
    var p := Put(s, k, k == FragCount(|rec|) - 1, FragData(rec, k));
    assert p.got == s.got[k := true] && p.got[k];
    assert p.got[p.highest] && p.highest < FragCount(|rec|);
  }

  lemma PutKeepsPartial(s: Slot, rec: seq<byte>, k: nat)
    requires Partial(s, rec) && k < FragCount(|rec|) && k * FRAG + FragLen(|rec|, k) <= REASM_MAX
    ensures Partial(Put(s, k, k == FragCount(|rec|) - 1, FragData(rec, k)), rec)
    ensures Put(s, k, k == FragCount(|rec|) - 1, FragData(rec, k)).got == s.got[k := true]
  {
    var p := Put(s, k, k == FragCount(|rec|) - 1, FragData(rec, k));
    PutKeepsPieces(s, rec, k);
    PutCounts(s, rec, k);
  }

  /** All pieces in place is the record in place. */
  lemma PiecesMakeRecord(s: Slot, rec: seq<byte>)
    requires Partial(s, rec) && Full(s)
    ensures |rec| <= REASM_MAX && s.total == |rec| && s.buf[..s.total] == rec
    ensures s.highest == FragCount(|rec|) - 1
  {
    var last := FragCount(|rec|) - 1;
    assert s.highest == last;
    assert Piece(s, rec, last);
    forall j | 0 <= j < |rec|
      ensures s.buf[j] == rec[j]
    {
      var i := j / FRAG;
      assert Piece(s, rec, i);
      assert s.buf[i * FRAG..i * FRAG + FragLen(|rec|, i)][j - i * FRAG] == FragData(rec, i)[j - i * FRAG];
    }
  }

  lemma FragmentParts(rec: seq<byte>, k: nat)
    requires Forwardable(rec) && k < FragCount(|rec|)
    ensures var p := Fragment(rec, k);
            p[0] % 0x80 == k && k < MAX_FRAGS && (p[0] >= 0x80 <==> k == FragCount(|rec|) - 1)
                && p[1..] == FragData(rec, k)
  {
  }

  lemma AcceptSafe(s: Slot, id: NodeId, seqNo: nat, rec: seq<byte>, k: nat, nowMs: nat)
    requires s.WellFormed() && Forwardable(rec) && k < FragCount(|rec|) && k < MAX_FRAGS
    requires s.For(id) && s.seqNo == seqNo ==> Partial(s, rec)
    ensures var (s1, out) := Accept(s, id, seqNo, k, k == FragCount(|rec|) - 1, FragData(rec, k), nowMs);
            && (s1.inUse ==> s1.src == id && s1.seqNo == seqNo && Partial(s1, rec))
            && (out.Some? ==> out.value == rec && |rec| <= REASM_MAX)
  {
    var c := Claim(s, id, seqNo, nowMs);
    assert Partial(c, rec);
    if k * FRAG + FragLen(|rec|, k) <= REASM_MAX {
      PutKeepsPartial(c, rec, k);
      var p := Put(c, k, k == FragCount(|rec|) - 1, FragData(rec, k));
      if Full(p) { PiecesMakeRecord(p, rec); }
    }
  }

  ghost predicate AllHold(sent: Sent, slots: seq<Slot>) {
    SlotsOk(slots) && forall i :: 0 <= i < SLOTS ==> SlotHolds(sent, slots[i])
  }

  lemma AddSafe(sent: Sent, slots: seq<Slot>, pkt: Packet, nowMs: nat)
    requires AllHold(sent, slots) && Genuine(sent, pkt)
    ensures AllHold(sent, Add(slots, pkt, nowMs).0)
    ensures var out := Add(slots, pkt, nowMs).1;
            out.Some? ==> out.value == sent[(pkt.src, pkt.seqNo)] && |out.value| <= REASM_MAX
  {
    var rec := sent[(pkt.src, pkt.seqNo)];
    var k :| 0 <= k < FragCount(|rec|) && pkt.payload == Fragment(rec, k);
    FragmentParts(rec, k);
    AcceptSafe(slots[Pick(slots, pkt.src)], pkt.src, pkt.seqNo, rec, k, nowMs);
  }

  datatype Arrival = Arrival(pkt: Packet, nowMs: nat)

  function RunSlots(slots: seq<Slot>, as_: seq<Arrival>): (r: seq<Slot>)
    requires SlotsOk(slots)
    ensures SlotsOk(r)
    decreases |as_|
  {
    if as_ == [] then slots
    else Add(RunSlots(slots, as_[..|as_| - 1]), as_[|as_| - 1].pkt, as_[|as_| - 1].nowMs).0
  }

  /** What the `n`-th arrival makes the reassembler hand on. */
  function Emitted(slots: seq<Slot>, as_: seq<Arrival>, n: nat): Option<seq<byte>>
    requires SlotsOk(slots) && n < |as_|
  {
    Add(RunSlots(slots, as_[..n]), as_[n].pkt, as_[n].nowMs).1
  }

  lemma {:induction false} RunHolds(sent: Sent, slots: seq<Slot>, as_: seq<Arrival>)
    requires AllHold(sent, slots) && forall i :: 0 <= i < |as_| ==> Genuine(sent, as_[i].pkt)
    ensures AllHold(sent, RunSlots(slots, as_))
    decreases |as_|
  {
    if as_ != [] {
      RunHolds(sent, slots, as_[..|as_| - 1]);
      AddSafe(sent, RunSlots(slots, as_[..|as_| - 1]), as_[|as_| - 1].pkt, as_[|as_| - 1].nowMs);
    }
  }

  /**
   * Whatever fragments of whichever nodes arrive in whatever order, with losses and repeats and
   * slots taken over in between: a record handed on is, byte for byte, the one its node forwarded
   * under that number, and never longer than the buffer.
   */
  lemma ReassemblySafety(sent: Sent, slots: seq<Slot>, as_: seq<Arrival>, n: nat)
    requires AllHold(sent, slots) && n < |as_|
    requires forall i :: 0 <= i < |as_| ==> Genuine(sent, as_[i].pkt)
    ensures var out := Emitted(slots, as_, n);
            out.Some? ==> (as_[n].pkt.src, as_[n].pkt.seqNo) in sent
                          && out.value == sent[(as_[n].pkt.src, as_[n].pkt.seqNo)] && |out.value| <= REASM_MAX
  {
    RunHolds(sent, slots, as_[..n]);
    AddSafe(sent, RunSlots(slots, as_[..n]), as_[n].pkt, as_[n].nowMs);
  }

  // ------------------------------------------------------------------
  // Round trip: the record comes out when its last missing fragment arrives
  // ------------------------------------------------------------------

  ghost predicate Distinct(slots: seq<Slot>) {
    forall i, j :: 0 <= i < j < |slots| && slots[i].inUse && slots[j].inUse ==> slots[i].src != slots[j].src
  }

  function Below(n: nat): (r: set<nat>)
    ensures forall k: nat :: k in r <==> k < n
  {
    if n == 0 then {} else Below(n - 1) + {n - 1}
  }

  function AllFrags(rec: seq<byte>): set<nat> {
    Below(FragCount(|rec|))
  }

  /** Exactly the fragments `seen` of record `q` of node `id` are held, none of them handed on yet. */
  ghost predicate Progress(slots: seq<Slot>, id: NodeId, q: nat, rec: seq<byte>, seen: set<nat>) {
    if seen == {} then forall i :: 0 <= i < |slots| ==> !(slots[i].For(id) && slots[i].seqNo == q)
    else exists i :: 0 <= i < |slots| && HeldIn(slots[i], id, q, rec, seen)
  }

  ghost predicate HeldIn(s: Slot, id: NodeId, q: nat, rec: seq<byte>, seen: set<nat>) {
    s.For(id) && s.seqNo == q && Partial(s, rec) && forall k :: 0 <= k < MAX_FRAGS ==> (s.got[k] <==> k in seen)
  }

  ghost predicate Ready(slots: seq<Slot>, id: NodeId, q: nat, rec: seq<byte>, seen: set<nat>) {
    SlotsOk(slots) && Distinct(slots) && Progress(slots, id, q, rec, seen)
  }

  /** No slot is at work for `id`. */
  ghost predicate Idle(slots: seq<Slot>, id: NodeId) {
    SlotsOk(slots) && Distinct(slots) && forall i :: 0 <= i < |slots| ==> !slots[i].For(id)
  }

  predicate WellNumbered(pkt: Packet) {
    |pkt.payload| >= 1 && pkt.payload[0] % 0x80 < MAX_FRAGS
  }

  /** A node keeps its own slot and otherwise gets one that is no other node's any more, so no node ever has two. */
  lemma AddKeepsDistinct(slots: seq<Slot>, pkt: Packet, nowMs: nat)
    requires SlotsOk(slots) && Distinct(slots)
    ensures Distinct(Add(slots, pkt, nowMs).0)
  {
    var i, slots1 := Pick(slots, pkt.src), Add(slots, pkt, nowMs).0;
    assert forall j :: 0 <= j < |slots| && j != i ==> slots1[j] == slots[j];
    assert slots1 == slots || (slots1[i].inUse ==> slots1[i].src == pkt.src);
    forall j | 0 <= j < |slots| && slots[j].For(pkt.src) ensures j == i {
    }
  }

  /** A packet without a fragment is passed over; one that reaches beyond the buffer ends what its node had begun. */
  lemma OversizeGivesUp(slots: seq<Slot>, pkt: Packet, nowMs: nat)
    requires SlotsOk(slots) && Distinct(slots)
    ensures var n := |pkt.payload|;
            var (slots1, out) := Add(slots, pkt, nowMs);
            && (n == 0 || pkt.payload[0] % 128 >= 32 ==> slots1 == slots && out == None)
            && (n > 0 && pkt.payload[0] % 128 < 32 && (pkt.payload[0] % 128) as int * 199 + n - 1 > 3072 ==>
                  out == None && forall i :: 0 <= i < |slots1| ==> !slots1[i].For(pkt.src))
  {
    var i, slots1 := Pick(slots, pkt.src), Add(slots, pkt, nowMs).0;
    assert forall j :: 0 <= j < |slots| && j != i ==> slots1[j] == slots[j];
    forall j | 0 <= j < |slots| && slots[j].For(pkt.src) ensures j == i {
    }
  }

  /** The packet goes to the slot at work on record `q` of node `id`, but belongs to another record. */
  predicate TakesOver(slots: seq<Slot>, pkt: Packet, id: NodeId, q: nat)
    requires 0 < |slots|
  {
    && WellNumbered(pkt) && !(pkt.src == id && pkt.seqNo == q)
    && var s := slots[Pick(slots, pkt.src)]; s.For(id) && s.seqNo == q
  }

  /** Any other packet costs the record everything held of it if it takes over its slot, and nothing if not. */
  lemma OtherStep(slots: seq<Slot>, id: NodeId, q: nat, rec: seq<byte>, seen: set<nat>, pkt: Packet, nowMs: nat)
    requires Ready(slots, id, q, rec, seen) && !(pkt.src == id && pkt.seqNo == q)
    ensures Ready(Add(slots, pkt, nowMs).0, id, q, rec, if TakesOver(slots, pkt, id, q) then {} else seen)
  {
    AddKeepsDistinct(slots, pkt, nowMs);
    var i, slots1 := Pick(slots, pkt.src), Add(slots, pkt, nowMs).0;
    assert forall j :: 0 <= j < |slots| && j != i ==> slots1[j] == slots[j];
    assert slots1 == slots || !(slots1[i].For(id) && slots1[i].seqNo == q);
    if seen != {} && !TakesOver(slots, pkt, id, q) {
      var h :| 0 <= h < |slots| && HeldIn(slots[h], id, q, rec, seen);
      assert slots1[h] == slots[h];
      assert HeldIn(slots1[h], id, q, rec, seen);
    }
  }

  lemma FullWhenAllSeen(s: Slot, rec: seq<byte>, seen: set<nat>)
    requires Partial(s, rec) && seen <= AllFrags(rec) && seen != {}
    requires forall k :: 0 <= k < MAX_FRAGS ==> (s.got[k] <==> k in seen)
    ensures Full(s) <==> seen == AllFrags(rec)
  {
    var last := FragCount(|rec|) - 1;
    if Full(s) {
      assert s.highest == last by { assert s.got[last]; }
      forall k | k in AllFrags(rec) ensures k in seen { assert s.got[k]; }
    }
    if seen == AllFrags(rec) {
      assert last in seen && s.got[last];
    }
  }

  /** Claimed for the record, a slot holds what it held of it, or nothing. */
  lemma ClaimHolds(s: Slot, id: NodeId, q: nat, rec: seq<byte>, seen: set<nat>, nowMs: nat)
    requires s.WellFormed() && Forwardable(rec)
    requires if seen == {} then !(s.For(id) && s.seqNo == q) else HeldIn(s, id, q, rec, seen)
    ensures HeldIn(Claim(s, id, q, nowMs), id, q, rec, seen)
  {
  }

  lemma PutHolds(c: Slot, id: NodeId, q: nat, rec: seq<byte>, seen: set<nat>, k: nat)
    requires HeldIn(c, id, q, rec, seen) && |rec| <= REASM_MAX && k < FragCount(|rec|) && k < MAX_FRAGS
    ensures HeldIn(Put(c, k, k == FragCount(|rec|) - 1, FragData(rec, k)), id, q, rec, seen + {k})
  {
    PutKeepsPartial(c, rec, k);
  }

  lemma AcceptStep(s: Slot, id: NodeId, q: nat, rec: seq<byte>, seen: set<nat>, k: nat, nowMs: nat)
    requires s.WellFormed() && 1 <= |rec| <= REASM_MAX && seen < AllFrags(rec) && k < FragCount(|rec|) && k < MAX_FRAGS
    requires if seen == {} then !(s.For(id) && s.seqNo == q) else HeldIn(s, id, q, rec, seen)
    ensures var (s1, out) := Accept(s, id, q, k, k == FragCount(|rec|) - 1, FragData(rec, k), nowMs);
            if seen + {k} == AllFrags(rec) then out == Some(rec) && !s1.inUse
            else out == None && HeldIn(s1, id, q, rec, seen + {k})
  {
    var c := Claim(s, id, q, nowMs);
    ClaimHolds(s, id, q, rec, seen, nowMs);
    PutHolds(c, id, q, rec, seen, k);
    var p := Put(c, k, k == FragCount(|rec|) - 1, FragData(rec, k));
    FullWhenAllSeen(p, rec, seen + {k});
    if Full(p) { PiecesMakeRecord(p, rec); }
  }

  lemma AddFragmentIs(slots: seq<Slot>, id: NodeId, q: nat, rec: seq<byte>, k: nat, nowMs: nat)
    requires SlotsOk(slots) && Forwardable(rec) && k < FragCount(|rec|) && k < MAX_FRAGS
    ensures var i := Pick(slots, id);
            var (s1, out) := Accept(slots[i], id, q, k, k == FragCount(|rec|) - 1, FragData(rec, k), nowMs);
            Add(slots, Packet(id, q, Fragment(rec, k)), nowMs) == (slots[i := s1], out)
  {
    FragmentParts(rec, k);
  }

  lemma PickedHolds(slots: seq<Slot>, id: NodeId, q: nat, rec: seq<byte>, seen: set<nat>)
    requires Ready(slots, id, q, rec, seen)
    ensures var s := slots[Pick(slots, id)];
            if seen == {} then !(s.For(id) && s.seqNo == q) else HeldIn(s, id, q, rec, seen)
  {
    if seen != {} {
      var h :| 0 <= h < |slots| && HeldIn(slots[h], id, q, rec, seen);
      assert h == Pick(slots, id);
    }
  }

  /** After `id`'s slot is given up no slot is left for it. */
  lemma FreedIsIdle(slots: seq<Slot>, id: NodeId, s1: Slot)
    requires SlotsOk(slots) && Distinct(slots) && s1.WellFormed() && !s1.inUse
    ensures Idle(slots[Pick(slots, id) := s1], id)
  {
    forall j | 0 <= j < |slots| && slots[j].For(id) ensures j == Pick(slots, id) {
    }
  }

  lemma OwnStep(slots: seq<Slot>, id: NodeId, q: nat, rec: seq<byte>, seen: set<nat>, k: nat, nowMs: nat)
    requires Ready(slots, id, q, rec, seen)
    requires 1 <= |rec| <= REASM_MAX && seen < AllFrags(rec) && k < FragCount(|rec|) && k < MAX_FRAGS
    ensures var (slots1, out) := Add(slots, Packet(id, q, Fragment(rec, k)), nowMs);
            if seen + {k} == AllFrags(rec) then out == Some(rec) && Idle(slots1, id)
            else out == None && Ready(slots1, id, q, rec, seen + {k})
  {
    var i := Pick(slots, id);
    PickedHolds(slots, id, q, rec, seen);
    AcceptStep(slots[i], id, q, rec, seen, k, nowMs);
    AddFragmentIs(slots, id, q, rec, k, nowMs);
    var slots1 := Add(slots, Packet(id, q, Fragment(rec, k)), nowMs).0;
    if seen + {k} != AllFrags(rec) {
      AddKeepsDistinct(slots, Packet(id, q, Fragment(rec, k)), nowMs);
      assert HeldIn(slots1[i], id, q, rec, seen + {k});
    } else {
      FreedIsIdle(slots, id, slots1[i]);
    }
  }

  /** The indices of the record's fragments among the first `n` arrivals. */
  ghost function SeenBy(as_: seq<Arrival>, id: NodeId, q: nat, rec: seq<byte>, n: nat): (s: set<nat>)
    requires n <= |as_| && Forwardable(rec)
    ensures s <= AllFrags(rec)
  {
    set k: nat | k < FragCount(|rec|) && exists j :: 0 <= j < n && as_[j].pkt == Packet(id, q, Fragment(rec, k))
  }

  /** Every packet that bears node `id`'s number `q` is a fragment of `rec`. All else is arbitrary. */
  ghost predicate Numbered(as_: seq<Arrival>, id: NodeId, q: nat, rec: seq<byte>)
    requires Forwardable(rec)
  {
    forall j :: 0 <= j < |as_| && as_[j].pkt.src == id && as_[j].pkt.seqNo == q ==> IsFragment(as_[j].pkt, id, q, rec)
  }

  ghost predicate IsFragment(pkt: Packet, id: NodeId, q: nat, rec: seq<byte>)
    requires Forwardable(rec)
  {
    exists k :: 0 <= k < FragCount(|rec|) && pkt == Packet(id, q, Fragment(rec, k))
  }

  lemma FragmentsDiffer(rec: seq<byte>, k: nat, j: nat)
    requires Forwardable(rec) && k < FragCount(|rec|) && j < FragCount(|rec|)
    ensures Fragment(rec, k) == Fragment(rec, j) ==> k == j
  {
    FragmentParts(rec, k);
    FragmentParts(rec, j);
  }

  lemma SeenGrows(as_: seq<Arrival>, id: NodeId, q: nat, rec: seq<byte>, n: nat)
    requires n < |as_| && Forwardable(rec)
    ensures !(as_[n].pkt.src == id && as_[n].pkt.seqNo == q) ==>
              SeenBy(as_, id, q, rec, n + 1) == SeenBy(as_, id, q, rec, n)
    ensures forall k :: 0 <= k < FragCount(|rec|) && as_[n].pkt == Packet(id, q, Fragment(rec, k)) ==>
              SeenBy(as_, id, q, rec, n + 1) == SeenBy(as_, id, q, rec, n) + {k}
  {
    forall k, j | 0 <= k < FragCount(|rec|) && 0 <= j < FragCount(|rec|)
      ensures Fragment(rec, k) == Fragment(rec, j) ==> k == j
    {
      FragmentsDiffer(rec, k, j);
    }
  }

  // ------------------------------------------------------------------
  // What is held of a record at any moment of any run
  // ------------------------------------------------------------------

  /**
   * The fragments held after `n` arrivals: each of the record's own is added, the one that completes the
   * record empties the slot, and so does a packet of another record that takes the slot over.
   */
  ghost function Held(slots: seq<Slot>, as_: seq<Arrival>, id: NodeId, q: nat, rec: seq<byte>, n: nat): set<nat>
    requires SlotsOk(slots) && n <= |as_|
  {
    if n == 0 then {}
    else
      var held, before, pkt := Held(slots, as_, id, q, rec, n - 1), RunSlots(slots, as_[..n - 1]), as_[n - 1].pkt;
      if pkt.src == id && pkt.seqNo == q && WellNumbered(pkt) then
        var more := held + {pkt.payload[0] as nat % 0x80};
        if more == AllFrags(rec) then {} else more
      else if TakesOver(before, pkt, id, q) then {}
      else held
  }

  lemma RunSnoc(slots: seq<Slot>, as_: seq<Arrival>, n: nat)
    requires SlotsOk(slots) && n < |as_|
    ensures RunSlots(slots, as_[..n + 1]) == Add(RunSlots(slots, as_[..n]), as_[n].pkt, as_[n].nowMs).0
  {
    assert as_[..n + 1][..n] == as_[..n];
  }

  lemma HeldStep(slots: seq<Slot>, as_: seq<Arrival>, id: NodeId, q: nat, rec: seq<byte>, n: nat, k: nat)
    requires SlotsOk(slots) && n < |as_| && Forwardable(rec) && k < FragCount(|rec|)
    requires as_[n].pkt == Packet(id, q, Fragment(rec, k))
    ensures var more := Held(slots, as_, id, q, rec, n) + {k};
            Held(slots, as_, id, q, rec, n + 1) == if more == AllFrags(rec) then {} else more
  {
    FragmentParts(rec, k);
  }

  lemma ReadyStep(slots: seq<Slot>, as_: seq<Arrival>, id: NodeId, q: nat, rec: seq<byte>, n: nat)
    requires 1 <= |rec| <= REASM_MAX && n < |as_| && Numbered(as_, id, q, rec) && SlotsOk(slots)
    requires Ready(RunSlots(slots, as_[..n]), id, q, rec, Held(slots, as_, id, q, rec, n))
    requires Held(slots, as_, id, q, rec, n) < AllFrags(rec)
    ensures Ready(RunSlots(slots, as_[..n + 1]), id, q, rec, Held(slots, as_, id, q, rec, n + 1))
    ensures Held(slots, as_, id, q, rec, n + 1) < AllFrags(rec)
  {
    RunSnoc(slots, as_, n);
    var before, held, a := RunSlots(slots, as_[..n]), Held(slots, as_, id, q, rec, n), as_[n];
    if a.pkt.src == id && a.pkt.seqNo == q {
      var k :| 0 <= k < FragCount(|rec|) && a.pkt == Packet(id, q, Fragment(rec, k));
      FragmentParts(rec, k);
      HeldStep(slots, as_, id, q, rec, n, k);
      OwnStep(before, id, q, rec, held, k, a.nowMs);
      assert 0 in AllFrags(rec);
    } else {
      OtherStep(before, id, q, rec, held, a.pkt, a.nowMs);
    }
  }

  /** The slots hold exactly that, in every run. */
  lemma {:induction false} RunReady(slots: seq<Slot>, as_: seq<Arrival>, id: NodeId, q: nat, rec: seq<byte>, n: nat)
    requires 1 <= |rec| <= REASM_MAX && n <= |as_| && Numbered(as_, id, q, rec) && Ready(slots, id, q, rec, {})
    ensures Ready(RunSlots(slots, as_[..n]), id, q, rec, Held(slots, as_, id, q, rec, n))
    ensures Held(slots, as_, id, q, rec, n) < AllFrags(rec)
    decreases n
  {
    if n == 0 {
      assert 0 in AllFrags(rec) && as_[..0] == [];
    } else {
      RunReady(slots, as_, id, q, rec, n - 1);
      ReadyStep(slots, as_, id, q, rec, n - 1);
    }
  }

  /**
   * For every record that fits and every run, with fragments in any order and repeated, other records of
   * the same node in between, and any number of nodes competing for the slots: a fragment hands on the
   * record, and exactly the record, if it completes what is held of it at that moment; else nothing.
   */
  lemma EmittedExactly(slots: seq<Slot>, as_: seq<Arrival>, id: NodeId, q: nat, rec: seq<byte>, n: nat, k: nat)
    requires 1 <= |rec| <= REASM_MAX && n < |as_| && Numbered(as_, id, q, rec) && Ready(slots, id, q, rec, {})
    requires k < FragCount(|rec|) && as_[n].pkt == Packet(id, q, Fragment(rec, k))
    ensures Emitted(slots, as_, n)
            == if Held(slots, as_, id, q, rec, n) + {k} == AllFrags(rec) then Some(rec) else None
  {
    RunReady(slots, as_, id, q, rec, n);
    FragmentParts(rec, k);
    OwnStep(RunSlots(slots, as_[..n]), id, q, rec, Held(slots, as_, id, q, rec, n), k, as_[n].nowMs);
  }

  /** The record's slot is not taken over by any of the first `n` arrivals. */
  ghost predicate Undisturbed(slots: seq<Slot>, as_: seq<Arrival>, id: NodeId, q: nat, n: nat)
    requires SlotsOk(slots) && n <= |as_|
  {
    forall j :: 0 <= j < n ==> !TakesOver(RunSlots(slots, as_[..j]), as_[j].pkt, id, q)
  }

  lemma {:induction false} HeldIsSeen(slots: seq<Slot>, as_: seq<Arrival>, id: NodeId, q: nat, rec: seq<byte>, n: nat)
    requires Forwardable(rec) && n <= |as_| && Numbered(as_, id, q, rec)
    requires SlotsOk(slots) && Undisturbed(slots, as_, id, q, n) && SeenBy(as_, id, q, rec, n) != AllFrags(rec)
    ensures Held(slots, as_, id, q, rec, n) == SeenBy(as_, id, q, rec, n)
    decreases n
  {
    if n == 0 {
      assert SeenBy(as_, id, q, rec, 0) == {};
    } else {
      SeenGrows(as_, id, q, rec, n - 1);
      HeldIsSeen(slots, as_, id, q, rec, n - 1);
      var pkt := as_[n - 1].pkt;
      if pkt.src == id && pkt.seqNo == q {
        var k :| 0 <= k < FragCount(|rec|) && pkt == Packet(id, q, Fragment(rec, k));
        HeldStep(slots, as_, id, q, rec, n - 1, k);
      }
    }
  }

  /**
   * For every record that fits, every order of its fragments, with repeats, and whatever else arrives
   * in between, as long as its slot is not taken over: until the record is complete each of its
   * fragments is taken in silently, and the one that completes it hands on exactly the record.
   */
  lemma FragmentRoundTrip(slots: seq<Slot>, as_: seq<Arrival>, id: NodeId, q: nat, rec: seq<byte>, n: nat)
    requires 1 <= |rec| <= REASM_MAX && n < |as_| && Numbered(as_, id, q, rec) && Ready(slots, id, q, rec, {})
    requires Undisturbed(slots, as_, id, q, n)
    requires as_[n].pkt.src == id && as_[n].pkt.seqNo == q && SeenBy(as_, id, q, rec, n) != AllFrags(rec)
    ensures Emitted(slots, as_, n) == if SeenBy(as_, id, q, rec, n + 1) == AllFrags(rec) then Some(rec) else None
  {
    HeldIsSeen(slots, as_, id, q, rec, n);
    SeenGrows(as_, id, q, rec, n);
    var k :| 0 <= k < FragCount(|rec|) && as_[n].pkt == Packet(id, q, Fragment(rec, k));
    EmittedExactly(slots, as_, id, q, rec, n, k);
  }

  // ------------------------------------------------------------------
  // When no slot is taken over
  // ------------------------------------------------------------------

  predicate Of(pkt: Packet, id: NodeId, q: nat) { pkt.src == id && pkt.seqNo == q }

  /** From the record's first fragment to the `n`-th arrival its node is heard with no other record. */
  ghost predicate OneAtATime(as_: seq<Arrival>, id: NodeId, q: nat, n: nat)
    requires n <= |as_|
  {
    forall i, j :: 0 <= i < j < n && Of(as_[i].pkt, id, q) && as_[j].pkt.src == id ==> as_[j].pkt.seqNo == q
  }

  ghost function Senders(as_: seq<Arrival>): set<NodeId> {
    set a | a in as_ :: a.pkt.src
  }

  /** No two packets arrive in the same millisecond, and all arrive after what the slots remember. */
  ghost predicate Clocked(slots: seq<Slot>, as_: seq<Arrival>) {
    && (forall i, j :: 0 <= i < j < |as_| ==> as_[i].nowMs < as_[j].nowMs)
    && (as_ != [] ==> forall i :: 0 <= i < |slots| && slots[i].inUse ==> slots[i].lastMs < as_[0].nowMs)
  }

  /** The nodes heard after arrival `l` and up to arrival `j`. */
  ghost function HeardSince(as_: seq<Arrival>, l: nat, j: nat): set<NodeId>
    requires l < j < |as_|
  {
    Senders(as_[l + 1..j + 1])
  }

  /** After each fragment of the record, until its node's next packet, at most three other nodes are heard. */
  ghost predicate Sparse(as_: seq<Arrival>, id: NodeId, q: nat, n: nat)
    requires n <= |as_|
  {
    forall l, j :: 0 <= l < j < n && Of(as_[l].pkt, id, q) && id !in HeardSince(as_, l, j) ==>
      |HeardSince(as_, l, j)| <= SLOTS - 1
  }

  lemma {:induction false} RunDistinct(slots: seq<Slot>, as_: seq<Arrival>, n: nat)
    requires SlotsOk(slots) && Distinct(slots) && n <= |as_|
    ensures Distinct(RunSlots(slots, as_[..n]))
    decreases n
  {
    if n > 0 {
      RunDistinct(slots, as_, n - 1);
      RunSnoc(slots, as_, n - 1);
      AddKeepsDistinct(RunSlots(slots, as_[..n - 1]), as_[n - 1].pkt, as_[n - 1].nowMs);
    } else {
      assert as_[..0] == [];
    }
  }

  lemma AddEffect(slots: seq<Slot>, pkt: Packet, nowMs: nat, i: nat)
    requires SlotsOk(slots) && i < |slots|
    ensures var s1 := Add(slots, pkt, nowMs).0[i];
            || s1 == slots[i]
            || (WellNumbered(pkt) && i == Pick(slots, pkt.src) && Of(pkt, s1.src, s1.seqNo) && s1.lastMs == nowMs)
  {
  }

  /** A slot is as it was in the beginning, or bears node, number and time of an arrival. */
  lemma {:induction false} StampedBy(slots: seq<Slot>, as_: seq<Arrival>, n: nat, i: nat)
    requires SlotsOk(slots) && n <= |as_| && i < SLOTS
    ensures var s := RunSlots(slots, as_[..n])[i];
            s == slots[i] || exists m :: 0 <= m < n && Of(as_[m].pkt, s.src, s.seqNo) && as_[m].nowMs == s.lastMs
    decreases n
  {
    if n > 0 {
      StampedBy(slots, as_, n - 1, i);
      RunSnoc(slots, as_, n - 1);
      AddEffect(RunSlots(slots, as_[..n - 1]), as_[n - 1].pkt, as_[n - 1].nowMs, i);
    } else {
      assert as_[..0] == [];
    }
  }

  /** A packet that counts stamps its node's slot, wherever that is, with its time. */
  lemma OwnStamp(slots: seq<Slot>, pkt: Packet, nowMs: nat, i: nat)
    requires SlotsOk(slots) && Distinct(slots) && WellNumbered(pkt) && i < SLOTS
    requires Add(slots, pkt, nowMs).0[i].For(pkt.src)
    ensures Add(slots, pkt, nowMs).0[i].lastMs == nowMs
  {
    var p := Pick(slots, pkt.src);
    assert slots[i].For(pkt.src) ==> slots[p].For(pkt.src) && i == p;
    assert i == p;
  }

  /** The slot of a node is no older than any packet that went to it. */
  lemma {:induction false} NoOlder(slots: seq<Slot>, as_: seq<Arrival>, n: nat, i: nat, l: nat)
    requires SlotsOk(slots) && Distinct(slots) && Clocked(slots, as_) && l < n <= |as_| && i < SLOTS
    requires WellNumbered(as_[l].pkt) && RunSlots(slots, as_[..n])[i].For(as_[l].pkt.src)
    ensures RunSlots(slots, as_[..n])[i].lastMs >= as_[l].nowMs
    decreases n
  {
    var before, a := RunSlots(slots, as_[..n - 1]), as_[n - 1];
    RunSnoc(slots, as_, n - 1);
    RunDistinct(slots, as_, n - 1);
    if l == n - 1 {
      OwnStamp(before, a.pkt, a.nowMs, i);
    } else {
      AddEffect(before, a.pkt, a.nowMs, i);
      if RunSlots(slots, as_[..n])[i] == before[i] {
        NoOlder(slots, as_, n - 1, i, l);
      }
    }
  }

  /** The last packet of `id` before the `j`-th arrival. */
  lemma {:induction false} LastPacketOf(as_: seq<Arrival>, id: NodeId, j: nat, m: nat) returns (l: nat)
    requires m < j <= |as_| && as_[m].pkt.src == id
    ensures m <= l < j && as_[l].pkt.src == id && forall k :: l < k < j ==> as_[k].pkt.src != id
    decreases j
  {
    if as_[j - 1].pkt.src == id { l := j - 1; } else { l := LastPacketOf(as_, id, j - 1, m); }
  }

  lemma FourDistinct(slots: seq<Slot>, id: NodeId, extra: NodeId, p: nat, senders: set<NodeId>)
    requires |slots| == SLOTS && Distinct(slots) && p < SLOTS && slots[p].src == id
    requires forall i :: 0 <= i < SLOTS ==> slots[i].inUse && slots[i].src != extra
    requires extra in senders && forall i :: 0 <= i < SLOTS && i != p ==> slots[i].src in senders
    ensures |senders| >= SLOTS
  {
    var all := {slots[0].src, slots[1].src, slots[2].src, slots[3].src};
    assert |all| == 4;
    assert all - {id} + {extra} <= senders;
    SubsetSize(all - {id} + {extra}, senders);
  }

  /** A slot used no earlier than arrival `l`, and not by its node, was used by one heard since. */
  lemma UsedSince(slots: seq<Slot>, as_: seq<Arrival>, l: nat, j: nat, i: nat)
    requires SlotsOk(slots) && Clocked(slots, as_) && l < j < |as_| && i < SLOTS
    requires var s := RunSlots(slots, as_[..j])[i];
             s.inUse && s.lastMs >= as_[l].nowMs && s.src != as_[l].pkt.src
    ensures RunSlots(slots, as_[..j])[i].src in HeardSince(as_, l, j)
  {
    StampedBy(slots, as_, j, i);
    var s := RunSlots(slots, as_[..j])[i];
    assert s != slots[i];
    var w :| 0 <= w < j && Of(as_[w].pkt, s.src, s.seqNo) && as_[w].nowMs == s.lastMs;
    assert as_[w] == as_[l + 1..j + 1][w - l - 1];
  }

  /** Before a packet takes over the record's slot a fragment of the record went there, and the packet is another's. */
  lemma BeforeTakeover(slots: seq<Slot>, as_: seq<Arrival>, id: NodeId, q: nat, rec: seq<byte>, n: nat, j: nat)
    returns (m: nat)
    requires Forwardable(rec) && j < n <= |as_| && OneAtATime(as_, id, q, n) && Ready(slots, id, q, rec, {})
    requires TakesOver(RunSlots(slots, as_[..j]), as_[j].pkt, id, q)
    ensures m < j && Of(as_[m].pkt, id, q) && as_[j].pkt.src != id
  {
    var p := Pick(RunSlots(slots, as_[..j]), as_[j].pkt.src);
    StampedBy(slots, as_, j, p);
    m :| 0 <= m < j && Of(as_[m].pkt, id, q);
  }

  /** The record's slot at the `j`-th arrival is no older than its last fragment before, which the lemma finds. */
  lemma LastUseOf(slots: seq<Slot>, as_: seq<Arrival>, id: NodeId, q: nat, rec: seq<byte>, n: nat, j: nat, m: nat,
                  p: nat)
    returns (l: nat)
    requires Forwardable(rec) && m < j < n <= |as_| && Numbered(as_, id, q, rec) && OneAtATime(as_, id, q, n)
    requires Ready(slots, id, q, rec, {}) && Clocked(slots, as_) && p < SLOTS && Of(as_[m].pkt, id, q)
    requires var s := RunSlots(slots, as_[..j])[p]; s.For(id) && s.seqNo == q
    ensures l < j && Of(as_[l].pkt, id, q) && RunSlots(slots, as_[..j])[p].lastMs >= as_[l].nowMs
    ensures forall k :: l < k < j ==> as_[k].pkt.src != id
  {
    l := LastPacketOf(as_, id, j, m);
    assert Of(as_[l].pkt, id, q);
    var k :| 0 <= k < FragCount(|rec|) && as_[l].pkt == Packet(id, q, Fragment(rec, k));
    FragmentParts(rec, k);
    NoOlder(slots, as_, j, p, l);
  }

  /** The other slots and the newcomer are all of nodes heard since the slot's own node was. */
  lemma OthersHeardSince(slots: seq<Slot>, as_: seq<Arrival>, l: nat, j: nat, p: nat)
    requires SlotsOk(slots) && Clocked(slots, as_) && l < j < |as_| && p < SLOTS
    requires Distinct(RunSlots(slots, as_[..j])) && RunSlots(slots, as_[..j])[p].src == as_[l].pkt.src
    requires forall i :: 0 <= i < SLOTS ==> RunSlots(slots, as_[..j])[i].inUse
    requires forall i :: 0 <= i < SLOTS ==> RunSlots(slots, as_[..j])[i].lastMs >= as_[l].nowMs
    ensures as_[j].pkt.src in HeardSince(as_, l, j)
    ensures forall i :: 0 <= i < SLOTS && i != p ==> RunSlots(slots, as_[..j])[i].src in HeardSince(as_, l, j)
  {
    var now := RunSlots(slots, as_[..j]);
    forall i | 0 <= i < SLOTS && i != p ensures now[i].src in HeardSince(as_, l, j) {
      UsedSince(slots, as_, l, j, i);
    }
    assert as_[j] == as_[l + 1..j + 1][j - l - 1];
  }

  /** The least recently used slot is not the record's: the three others and the newcomer would be four nodes. */
  lemma NotTheOldest(slots: seq<Slot>, as_: seq<Arrival>, id: NodeId, q: nat, rec: seq<byte>, n: nat, j: nat)
    requires Forwardable(rec) && j < n <= |as_| && Numbered(as_, id, q, rec) && OneAtATime(as_, id, q, n)
    requires Ready(slots, id, q, rec, {}) && Clocked(slots, as_) && Sparse(as_, id, q, n)
    ensures !TakesOver(RunSlots(slots, as_[..j]), as_[j].pkt, id, q)
  {
    var now, src := RunSlots(slots, as_[..j]), as_[j].pkt.src;
    var p := Pick(now, src);
    if TakesOver(now, as_[j].pkt, id, q) {
      RunDistinct(slots, as_, j);
      var m := BeforeTakeover(slots, as_, id, q, rec, n, j);
      var l := LastUseOf(slots, as_, id, q, rec, n, j, m, p);
      OthersHeardSince(slots, as_, l, j, p);
      assert id !in HeardSince(as_, l, j);
      FourDistinct(now, id, src, p, HeardSince(as_, l, j));
    }
  }

  /**
   * So a record comes through whatever the size of the fleet, provided that from its first fragment on its
   * node sends no other record in between, that at most three other nodes are heard between one of its
   * fragments and the next, and that the clock tells arrivals apart.
   */
  lemma RoundTripInSparseTraffic(slots: seq<Slot>, as_: seq<Arrival>, id: NodeId, q: nat, rec: seq<byte>, n: nat)
    requires 1 <= |rec| <= REASM_MAX && n < |as_| && Numbered(as_, id, q, rec) && OneAtATime(as_, id, q, n)
    requires Ready(slots, id, q, rec, {}) && Clocked(slots, as_) && Sparse(as_, id, q, n)
    requires Of(as_[n].pkt, id, q) && SeenBy(as_, id, q, rec, n) != AllFrags(rec)
    ensures Emitted(slots, as_, n) == if SeenBy(as_, id, q, rec, n + 1) == AllFrags(rec) then Some(rec) else None
  {
    forall j | 0 <= j < n ensures !TakesOver(RunSlots(slots, as_[..j]), as_[j].pkt, id, q) {
      NotTheOldest(slots, as_, id, q, rec, n, j);
    }
    FragmentRoundTrip(slots, as_, id, q, rec, n);
  }

  /** Every slot in use belongs to a node of `nodes`. */
  ghost predicate UsedBy(slots: seq<Slot>, nodes: set<NodeId>) {
    forall i :: 0 <= i < |slots| && slots[i].inUse ==> slots[i].src in nodes
  }

  lemma {:induction false} RunUsedBy(slots: seq<Slot>, as_: seq<Arrival>, nodes: set<NodeId>, n: nat)
    requires SlotsOk(slots) && UsedBy(slots, nodes) && n <= |as_|
    requires forall j :: 0 <= j < |as_| ==> as_[j].pkt.src in nodes
    ensures UsedBy(RunSlots(slots, as_[..n]), nodes)
    decreases n
  {
    if n > 0 {
      RunUsedBy(slots, as_, nodes, n - 1);
      RunSnoc(slots, as_, n - 1);
      var now := RunSlots(slots, as_[..n]);
      forall i | 0 <= i < SLOTS && now[i].inUse ensures now[i].src in nodes {
        AddEffect(RunSlots(slots, as_[..n - 1]), as_[n - 1].pkt, as_[n - 1].nowMs, i);
      }
    } else {
      assert as_[..0] == [];
    }
  }

  /** With no more nodes than slots, no node's slot is ever taken over by another. */
  lemma NoTakeover(slots: seq<Slot>, nodes: set<NodeId>, id: NodeId)
    requires |slots| == SLOTS && Distinct(slots) && UsedBy(slots, nodes) && |nodes| <= SLOTS && id in nodes
    ensures slots[Pick(slots, id)].For(id) || !slots[Pick(slots, id)].inUse
  {
    if FindOwn(slots, id, 0) == SLOTS && FindFree(slots, 0) == SLOTS {
      var used := {slots[0].src, slots[1].src, slots[2].src, slots[3].src};
      assert |used| == 4;
      assert used <= nodes - {id};
      SubsetSize(used, nodes - {id});
      assert false;
    }
  }

  /** With four nodes at most, neither times nor gaps matter, nor what the node sends before and after. */
  lemma RoundTripAmongFour(slots: seq<Slot>, nodes: set<NodeId>, as_: seq<Arrival>, id: NodeId, q: nat,
                           rec: seq<byte>, n: nat)
    requires 1 <= |rec| <= REASM_MAX && n < |as_| && Numbered(as_, id, q, rec) && OneAtATime(as_, id, q, n)
    requires |nodes| <= SLOTS && forall j :: 0 <= j < |as_| ==> as_[j].pkt.src in nodes
    requires Ready(slots, id, q, rec, {}) && UsedBy(slots, nodes)
    requires Of(as_[n].pkt, id, q) && SeenBy(as_, id, q, rec, n) != AllFrags(rec)
    ensures Emitted(slots, as_, n) == if SeenBy(as_, id, q, rec, n + 1) == AllFrags(rec) then Some(rec) else None
  {
    forall j | 0 <= j < n ensures !TakesOver(RunSlots(slots, as_[..j]), as_[j].pkt, id, q) {
      RunDistinct(slots, as_, j);
      RunUsedBy(slots, as_, nodes, j);
      NoTakeover(RunSlots(slots, as_[..j]), nodes, as_[j].pkt.src);
      if TakesOver(RunSlots(slots, as_[..j]), as_[j].pkt, id, q) {
        var m := BeforeTakeover(slots, as_, id, q, rec, n, j);
      }
    }
    FragmentRoundTrip(slots, as_, id, q, rec, n);
  }

  // ------------------------------------------------------------------
  // That slots are taken over
  // ------------------------------------------------------------------

  /** The first `k` slots are in use by the first `k` nodes, in that order, and the others are free. */
  ghost predicate Filled(slots: seq<Slot>, ids: seq<NodeId>, k: nat) {
    && SlotsOk(slots) && k <= SLOTS <= |ids|
    && forall i :: 0 <= i < SLOTS ==>
         if i < k then slots[i].For(ids[i]) && slots[i].seqNo == 0 && slots[i].lastMs == i + 1
         else !slots[i].inUse
  }

  ghost predicate AllDifferent(ids: seq<NodeId>) {
    forall i, j :: 0 <= i < j < |ids| ==> ids[i] != ids[j]
  }

  /** The first fragment of one more node's two-fragment record fills one more slot. */
  lemma FillsNext(slots: seq<Slot>, ids: seq<NodeId>, rec: seq<byte>, k: nat)
    requires Filled(slots, ids, k) && AllDifferent(ids) && k < SLOTS && FRAG < |rec| <= 2 * FRAG
    ensures Filled(Add(slots, Packet(ids[k], 0, Fragment(rec, 0)), k + 1).0, ids, k + 1)
  {
    var id, slots1 := ids[k], Add(slots, Packet(ids[k], 0, Fragment(rec, 0)), k + 1).0;
    assert FindOwn(slots, id, 0) == SLOTS && FindFree(slots, 0) == k;
    FragmentParts(rec, 0);
    AddFragmentIs(slots, id, 0, rec, 0, k + 1);
    var c := Claim(slots[k], id, 0, k + 1);
    assert !Put(c, 0, false, FragData(rec, 0)).lastSeen;
    assert forall i :: 0 <= i < SLOTS && i != k ==> slots1[i] == slots[i];
  }

  /** Five nodes' first fragments, a millisecond apart, and then the first node's second and last. */
  function Crowd(ids: seq<NodeId>, rec: seq<byte>): (as_: seq<Arrival>)
    requires |ids| == SLOTS + 1 && FRAG < |rec| <= 2 * FRAG
    ensures |as_| == SLOTS + 2
  {
    seq(SLOTS + 1, i requires 0 <= i < SLOTS + 1 => Arrival(Packet(ids[i], 0, Fragment(rec, 0)), i + 1))
    + [Arrival(Packet(ids[0], 0, Fragment(rec, 1)), SLOTS + 2)]
  }

  lemma {:induction false} CrowdFills(slots: seq<Slot>, ids: seq<NodeId>, rec: seq<byte>, k: nat)
    requires Filled(slots, ids, 0) && AllDifferent(ids) && |ids| == SLOTS + 1 && FRAG < |rec| <= 2 * FRAG && k <= SLOTS
    ensures Filled(RunSlots(slots, Crowd(ids, rec)[..k]), ids, k)
  {
    var as_ := Crowd(ids, rec);
    if k == 0 {
      assert as_[..0] == [];
    } else {
      CrowdFills(slots, ids, rec, k - 1);
      RunSnoc(slots, as_, k - 1);
      FillsNext(RunSlots(slots, as_[..k - 1]), ids, rec, k - 1);
    }
  }

  lemma OldestIsFirst(slots: seq<Slot>, ids: seq<NodeId>, id: NodeId)
    requires Filled(slots, ids, SLOTS) && AllDifferent(ids) && forall i :: 0 <= i < SLOTS ==> ids[i] != id
    ensures Pick(slots, id) == 0
  {
    assert FindOwn(slots, id, 0) == SLOTS && FindFree(slots, 0) == SLOTS;
    var p := FindOldest(slots, SLOTS);
    assert slots[p].lastMs <= slots[0].lastMs;
  }

  /** The fifth node's fragment takes over the slot that the first node's record occupies. */
  lemma FifthTakesOver(slots: seq<Slot>, ids: seq<NodeId>, rec: seq<byte>)
    requires SlotsOk(slots) && (forall i :: 0 <= i < SLOTS ==> !slots[i].inUse)
    requires AllDifferent(ids) && |ids| == SLOTS + 1 && FRAG < |rec| <= 2 * FRAG
    ensures var as_ := Crowd(ids, rec);
            TakesOver(RunSlots(slots, as_[..SLOTS]), as_[SLOTS].pkt, ids[0], 0)
  {
    var as_ := Crowd(ids, rec);
    var now := RunSlots(slots, as_[..SLOTS]);
    assert Filled(slots, ids, 0);
    CrowdFills(slots, ids, rec, SLOTS);
    OldestIsFirst(now, ids, ids[SLOTS]);
    FragmentParts(rec, 0);
    assert as_[SLOTS].pkt == Packet(ids[SLOTS], 0, Fragment(rec, 0));
  }

  lemma CrowdNumbered(ids: seq<NodeId>, rec: seq<byte>)
    requires AllDifferent(ids) && |ids| == SLOTS + 1 && FRAG < |rec| <= 2 * FRAG
    ensures Numbered(Crowd(ids, rec), ids[0], 0, rec)
    ensures SeenBy(Crowd(ids, rec), ids[0], 0, rec, SLOTS + 2) == AllFrags(rec)
  {
    var as_ := Crowd(ids, rec);
    assert as_[0].pkt == Packet(ids[0], 0, Fragment(rec, 0));
    assert as_[SLOTS + 1].pkt == Packet(ids[0], 0, Fragment(rec, 1));
    assert FragCount(|rec|) == 2;
  }

  lemma CrowdTimely(slots: seq<Slot>, ids: seq<NodeId>, rec: seq<byte>)
    requires |slots| == SLOTS && (forall i :: 0 <= i < SLOTS ==> !slots[i].inUse)
    requires AllDifferent(ids) && |ids| == SLOTS + 1 && FRAG < |rec| <= 2 * FRAG
    ensures OneAtATime(Crowd(ids, rec), ids[0], 0, SLOTS + 2) && Clocked(slots, Crowd(ids, rec))
  {
  }

  /** Of the first node's record nothing is held before its first fragment, and nothing again before its last. */
  lemma CrowdHolds(slots: seq<Slot>, ids: seq<NodeId>, rec: seq<byte>)
    requires SlotsOk(slots) && (forall i :: 0 <= i < SLOTS ==> !slots[i].inUse)
    requires AllDifferent(ids) && |ids| == SLOTS + 1 && FRAG < |rec| <= 2 * FRAG
    ensures Held(slots, Crowd(ids, rec), ids[0], 0, rec, 0) == {}
    ensures Held(slots, Crowd(ids, rec), ids[0], 0, rec, SLOTS + 1) == {}
  {
    FifthTakesOver(slots, ids, rec);
    assert Crowd(ids, rec)[SLOTS].pkt.src != ids[0];
  }

  lemma NothingHeldNothingOut(slots: seq<Slot>, as_: seq<Arrival>, id: NodeId, q: nat, rec: seq<byte>, n: nat, k: nat)
    requires FRAG < |rec| <= REASM_MAX && n < |as_| && Numbered(as_, id, q, rec) && Ready(slots, id, q, rec, {})
    requires k < FragCount(|rec|) && as_[n].pkt == Packet(id, q, Fragment(rec, k))
    requires Held(slots, as_, id, q, rec, n) == {}
    ensures Emitted(slots, as_, n) == None
  {
    assert 0 in AllFrags(rec) && 1 in AllFrags(rec);
    EmittedExactly(slots, as_, id, q, rec, n, k);
  }

  /**
   * Take-overs happen and cost records: for every record of two fragments and any five nodes there is a run
   * in which both fragments arrive, each once and in order, and the record never comes out.
   */
  lemma TakeoverLosesRecord(slots: seq<Slot>, ids: seq<NodeId>, rec: seq<byte>)
    requires SlotsOk(slots) && (forall i :: 0 <= i < SLOTS ==> !slots[i].inUse)
    requires AllDifferent(ids) && |ids| == SLOTS + 1 && FRAG < |rec| <= 2 * FRAG
    ensures var as_ := Crowd(ids, rec);
            && OneAtATime(as_, ids[0], 0, SLOTS + 2) && Clocked(slots, as_)
            && SeenBy(as_, ids[0], 0, rec, SLOTS + 2) == AllFrags(rec)
            && !Undisturbed(slots, as_, ids[0], 0, SLOTS + 1)
            && Emitted(slots, as_, 0) == None && Emitted(slots, as_, SLOTS + 1) == None
  {
    var as_, id := Crowd(ids, rec), ids[0];
    CrowdNumbered(ids, rec);
    CrowdTimely(slots, ids, rec);
    FifthTakesOver(slots, ids, rec);
    CrowdHolds(slots, ids, rec);
    NothingHeldNothingOut(slots, as_, id, 0, rec, 0, 0);
    NothingHeldNothingOut(slots, as_, id, 0, rec, SLOTS + 1, 1);
  }

  /** Records longer than the buffer never come out, whatever arrives. */
  lemma TooLongNeverEmitted(sent: Sent, slots: seq<Slot>, as_: seq<Arrival>, n: nat)
    requires AllHold(sent, slots) && n < |as_|
    requires forall i :: 0 <= i < |as_| ==> Genuine(sent, as_[i].pkt)
    requires (as_[n].pkt.src, as_[n].pkt.seqNo) in sent && |sent[(as_[n].pkt.src, as_[n].pkt.seqNo)]| > REASM_MAX
    ensures Emitted(slots, as_, n) == None
  {
    ReassemblySafety(sent, slots, as_, n);
  }
}
