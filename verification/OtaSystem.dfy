/**
 * Runs of one relay. The network is the set of packets ever sent: delivering
 * one does not remove it, so packets may be lost, repeated and reordered
 * freely, and so may the acks on their way back.
 */
module OtaSystem {
  import opened Bytes
  import opened OtaNode
  import opened OtaRelay
  import opened OtaManager

  /** An ack in flight, with the number of BEGINs its node had handled when it sent it. */
  datatype AckMsg = AckMsg(id: NodeId, epoch: nat, ack: Ack)

  datatype Sys = Sys(
    nodes: map<NodeId, Rx>,
    epochs: map<NodeId, nat>,      // BEGINs handled by each node
    finished: set<NodeId>,         // nodes that have sent DONE
    net: set<Packet>,              // packets ever sent
    acks: set<AckMsg>,             // acks ever sent
    table: seq<Prog>,              // the manager's progress table
    heard: map<NodeId, nat>)       // epoch of the ack recorded for each node

  datatype Event =
    | Send(p: Packet)
    | Deliver(id: NodeId, p: Packet, nowMs: nat, f: Flash)
    | Hear(m: AckMsg)

  ghost predicate Initial(image: Image, s: Sys) {
    && (forall id :: id in s.nodes ==> s.nodes[id].WellFormed() && !s.nodes[id].active)
    && s.epochs.Keys == s.nodes.Keys
    && s.finished == {} && s.net == {} && s.acks == {} && s.heard == map[]
    && |s.table| == NODES_MAX && forall i :: 0 <= i < NODES_MAX ==> s.table[i].Unseen?
  }

  ghost predicate NodesOk(image: Image, s: Sys) {
    && s.epochs.Keys == s.nodes.Keys
    && s.finished <= s.nodes.Keys
    && (forall id :: id in s.nodes ==> Consistent(image, s.nodes[id]))
    && (forall id :: id in s.finished ==> Holds(image, s.nodes[id].slots[s.nodes[id].running]))
  }

  /** An ack still says something true about its node, unless the node has started over since. */
  ghost predicate AckOk(s: Sys, m: AckMsg)
    requires m.id in s.nodes && m.id in s.epochs && s.nodes[m.id].WellFormed()
  {
    && m.epoch <= s.epochs[m.id]
    && (m.ack.status == Done ==> m.id in s.finished)
    && (m.epoch == s.epochs[m.id] && s.nodes[m.id].active ==> m.ack.next <= FirstMissing(s.nodes[m.id]))
  }

  ghost predicate TableOk(s: Sys) {
    && |s.table| == NODES_MAX
    && (forall i, j :: 0 <= i < j < NODES_MAX && s.table[i].Seen? && s.table[j].Seen? ==>
          s.table[i].id != s.table[j].id)
    && forall i :: 0 <= i < NODES_MAX && s.table[i].Seen? ==> EntryOk(s, s.table[i])
  }

  /** What is recorded for a node is an ack it did send. */
  ghost predicate EntryOk(s: Sys, p: Prog)
    requires p.Seen?
  {
    p.id in s.heard && AckMsg(p.id, s.heard[p.id], Ack(p.status, p.next, p.recv)) in s.acks
  }

  ghost predicate Inv(image: Image, s: Sys) {
    && NodesOk(image, s)
    && (forall p :: p in s.net ==> Genuine(image, p))
    && (forall m :: m in s.acks ==> m.id in s.nodes && AckOk(s, m))
    && TableOk(s)
  }

  function WithAck(acks: set<AckMsg>, id: NodeId, epoch: nat, a: Option<Ack>): set<AckMsg> {
    match a case None => acks case Some(x) => acks + {AckMsg(id, epoch, x)}
  }

  function DeliverTo(s: Sys, id: NodeId, p: Packet, nowMs: nat, f: Flash): Sys
    requires id in s.nodes && id in s.epochs && s.nodes[id].WellFormed()
  {
    var (r1, a) := OnPacket(s.nodes[id], p, nowMs, f);
    var e1 := if p.Begin? then s.epochs[id] + 1 else s.epochs[id];
    s.(nodes := s.nodes[id := r1],
       epochs := s.epochs[id := e1],
       finished := if a.Some? && a.value.status == Done then s.finished + {id} else s.finished,
       acks := WithAck(s.acks, id, e1, a))
  }

  /** One event; an event that is not possible in `s` changes nothing. */
  ghost function Step(image: Image, s: Sys, e: Event): Sys {
    match e
    case Send(p) => if Genuine(image, p) then s.(net := s.net + {p}) else s
    case Deliver(id, p, nowMs, f) =>
      if p in s.net && id in s.nodes && id in s.epochs && s.nodes[id].WellFormed()
      then DeliverTo(s, id, p, nowMs, f) else s
    case Hear(m) =>
      if m !in s.acks then s
      else
        var t := Record(s.table, m.id, m.ack);
        s.(table := t, heard := if t == s.table && SlotFor(s.table, m.id) == |s.table| then s.heard
            else s.heard[m.id := m.epoch])
  }

  ghost function Run(image: Image, s: Sys, events: seq<Event>): Sys
    decreases |events|
  {
    if events == [] then s else Step(image, Run(image, s, events[..|events| - 1]), events[|events| - 1])
  }

  // ------------------------------------------------------------------
  // The invariant
  // ------------------------------------------------------------------

  lemma {:induction false} FirstClearGrows(bits: seq<bool>, bits1: seq<bool>, from: nat, total: nat)
    requires from <= total <= |bits| && |bits1| == |bits|
    requires forall i :: 0 <= i < total && bits[i] ==> bits1[i]
    ensures FirstClear(bits, from, total) <= FirstClear(bits1, from, total)
    decreases total - from
  {
    if from < total && bits[from] {
      FirstClearGrows(bits, bits1, from + 1, total);
    }
  }

  /** Without a BEGIN a node's first gap only moves forward while the transfer runs. */
  lemma GapMovesForward(r: Rx, p: Packet, nowMs: nat, f: Flash)
    requires r.WellFormed() && !p.Begin?
    ensures var r1 := OnPacket(r, p, nowMs, f).0;
            r1.active ==> r.active && FirstMissing(r) <= FirstMissing(r1)
    ensures var (r1, a) := OnPacket(r, p, nowMs, f);
            a.Some? && r1.active ==> a.value.next <= FirstMissing(r1)
  {
    var r1 := OnPacket(r, p, nowMs, f).0;
    if r1.active {
      FirstClearGrows(r.bits, r1.bits, 0, r.totalChunks);
    }
  }

  lemma DeliverKeepsNodes(image: Image, s: Sys, id: NodeId, p: Packet, nowMs: nat, f: Flash)
    requires Inv(image, s) && p in s.net && id in s.nodes
    ensures NodesOk(image, DeliverTo(s, id, p, nowMs, f))
  {
    PacketKeeps(image, s.nodes[id], p, nowMs, f);
    PacketKeepsBoot(image, s.nodes[id], p, nowMs, f, id in s.finished);
    var s1 := DeliverTo(s, id, p, nowMs, f);
    NewNodeState(image, s, id, s1);
  }

  lemma NewNodeState(image: Image, s: Sys, id: NodeId, s1: Sys)
    requires NodesOk(image, s) && id in s.nodes && id in s1.nodes
    requires s1.nodes == s.nodes[id := s1.nodes[id]] && s1.epochs.Keys == s1.nodes.Keys
    requires s.finished <= s1.finished <= s.finished + {id}
    requires Consistent(image, s1.nodes[id])
    requires id in s1.finished ==> Holds(image, s1.nodes[id].slots[s1.nodes[id].running])
    ensures NodesOk(image, s1)
  {
  }

  lemma DeliverKeepsAck(image: Image, s: Sys, id: NodeId, p: Packet, nowMs: nat, f: Flash, m: AckMsg)
    requires Inv(image, s) && p in s.net && id in s.nodes
    requires m in DeliverTo(s, id, p, nowMs, f).acks
    ensures var s1 := DeliverTo(s, id, p, nowMs, f);
            m.id in s1.nodes && s1.nodes[m.id].WellFormed() && AckOk(s1, m)
  {
    AcceptedExactlyWhenItFits(|image|);
    if !p.Begin? {
      GapMovesForward(s.nodes[id], p, nowMs, f);
    }
  }

  lemma HearKeepsTable(image: Image, s: Sys, m: AckMsg)
    requires Inv(image, s) && m in s.acks
    ensures TableOk(Step(image, s, Hear(m)))
  {
    var i := SlotFor(s.table, m.id);
    var s1 := Step(image, s, Hear(m));
    forall k | 0 <= k < NODES_MAX && s1.table[k].Seen?
      ensures EntryOk(s1, s1.table[k])
    {
      if k != i {
        assert s.table[k].Seen? && EntryOk(s, s.table[k]);
        assert i < |s.table| ==> s.table[k].id != m.id;
      }
    }
  }

  lemma StepKeepsInv(image: Image, s: Sys, e: Event)
    requires Inv(image, s)
    ensures Inv(image, Step(image, s, e))
  {
    match e
    case Send(p) =>
    case Deliver(id, p, nowMs, f) =>
      if p in s.net && id in s.nodes {
        DeliverKeepsNodes(image, s, id, p, nowMs, f);
        var s1 := DeliverTo(s, id, p, nowMs, f);
        forall m | m in s1.acks
          ensures m.id in s1.nodes && AckOk(s1, m)
        {
          DeliverKeepsAck(image, s, id, p, nowMs, f, m);
        }
        forall i | 0 <= i < NODES_MAX && s1.table[i].Seen?
          ensures EntryOk(s1, s1.table[i])
        {
          assert EntryOk(s, s.table[i]);
        }
      }
    case Hear(m) =>
      if m in s.acks { HearKeepsTable(image, s, m); }
  }

  lemma {:induction false} RunKeepsInv(image: Image, s: Sys, events: seq<Event>)
    requires Initial(image, s)
    ensures Inv(image, Run(image, s, events))
    decreases |events|
  {
    if events != [] {
      RunKeepsInv(image, s, events[..|events| - 1]);
      StepKeepsInv(image, Run(image, s, events[..|events| - 1]), events[|events| - 1]);
    }
  }

  ghost predicate Reachable(image: Image, r: Sys) {
    exists s, events :: Initial(image, s) && r == Run(image, s, events)
  }

  lemma ReachableInv(image: Image, r: Sys)
    requires Reachable(image, r)
    ensures Inv(image, r)
  {
    var s, events :| Initial(image, s) && r == Run(image, s, events);
    RunKeepsInv(image, s, events);
  }

  // ------------------------------------------------------------------
  // Safety and resume
  // ------------------------------------------------------------------

  /**
   * Whatever is lost, repeated or reordered, and whichever flash calls fail: every node that has
   * reported DONE runs from a slot holding exactly the manager's image, and goes on doing so.
   */
  lemma RelaySafety(image: Image, r: Sys, id: NodeId)
    requires Reachable(image, r) && id in r.finished
    ensures id in r.nodes && r.nodes[id].WellFormed()
    ensures Holds(image, r.nodes[id].slots[r.nodes[id].running])
  {
    ReachableInv(image, r);
  }

  /** The manager counts a node as done only when that node has indeed finished. */
  lemma DoneIsEarned(image: Image, r: Sys, i: nat)
    requires Reachable(image, r) && i < |r.table|
    requires r.table[i].Seen? && r.table[i].status == Done
    ensures r.table[i].id in r.finished
  {
    ReachableInv(image, r);
    assert EntryOk(r, r.table[i]);
  }

  /** Entry `i` was reported by a node since it last handled a BEGIN, and that node is still receiving. */
  ghost predicate CurrentReport(r: Sys, i: nat) {
    && i < |r.table| && r.table[i].Seen?
    && var id := r.table[i].id;
       && id in r.nodes && id in r.epochs && id in r.heard
       && r.nodes[id].WellFormed() && r.nodes[id].active
       && r.heard[id] == r.epochs[id]
  }

  /** The recorded `next` never runs past the node's first gap, however stale or reordered the acks were. */
  lemma RecordedNextIsSafe(image: Image, r: Sys, i: nat)
    requires Reachable(image, r) && CurrentReport(r, i)
    ensures r.table[i].next <= FirstMissing(r.nodes[r.table[i].id])
  {
    ReachableInv(image, r);
    assert EntryOk(r, r.table[i]);
  }

  // ------------------------------------------------------------------
  // A round without loss completes the nodes it resumes for
  // ------------------------------------------------------------------

  const GOOD := Flash(true, true, 0)

  function Receive(r: Rx, pkts: seq<Packet>, nowMs: nat): (r1: Rx)
    requires r.WellFormed()
    ensures r1.WellFormed()
    decreases |pkts|
  {
    if pkts == [] then r else OnPacket(Receive(r, pkts[..|pkts| - 1], nowMs), pkts[|pkts| - 1], nowMs, GOOD).0
  }

  lemma DataMarks(image: Image, r: Rx, i: nat, nowMs: nat)
    requires Consistent(image, r) && r.active && i < r.totalChunks && i * CHUNK <= |image|
    ensures var r1 := OnData(r, i, Chunk(image, i), nowMs, GOOD).0;
            && Consistent(image, r1) && r1.active && r1.totalChunks == r.totalChunks && r1.running == r.running
            && r1.bits == r.bits[i := true]
  {
    AcceptedExactlyWhenItFits(|image|);
    DataKeeps(image, r, i, nowMs, GOOD);
    assert i * CHUNK + ChunkLen(|image|, i) <= SLOT;
    assert r.bits[i] ==> r.bits == r.bits[i := true];
  }

  ghost predicate AllData(image: Image, pkts: seq<Packet>) {
    forall p :: p in pkts ==> p.Data? && Genuine(image, p)
  }

  /** Any DATA packets, in any order and with repeats: the transfer stays consistent and gains exactly their bits. */
  lemma {:induction false} ReceiveData(image: Image, r: Rx, pkts: seq<Packet>, nowMs: nat)
    requires Consistent(image, r) && r.active && AllData(image, pkts)
    ensures var r1 := Receive(r, pkts, nowMs);
            && Consistent(image, r1) && r1.active && r1.totalChunks == r.totalChunks && r1.running == r.running
            && forall i :: 0 <= i < r1.totalChunks ==>
                 (r1.bits[i] <==> r.bits[i] || exists p :: p in pkts && p.Data? && p.index == i)
    decreases |pkts|
  {
    if pkts != [] {
      var init, p := pkts[..|pkts| - 1], pkts[|pkts| - 1];
      assert pkts == init + [p];
      ReceiveData(image, r, init, nowMs);
      DataMarks(image, Receive(r, init, nowMs), p.index, nowMs);
      assert p in pkts;
    }
  }

  /** `pkts` carries, in some order and possibly repeated, every chunk from `from` on. */
  ghost predicate Covers(image: Image, pkts: seq<Packet>, from: nat) {
    from <= ChunkCount(|image|) && forall p :: p in DataFrom(image, from) ==> p in pkts
  }

  /**
   * If a round delivers every chunk from `from` on, and `from` is no later than the node's first
   * gap, the END after it makes the node finish with the image in its boot slot.
   */
  lemma LossFreeRound(image: Image, r: Rx, from: nat, pkts: seq<Packet>, nowMs: nat)
    requires Consistent(image, r) && r.active && from <= FirstMissing(r)
    requires AllData(image, pkts) && Covers(image, pkts, from)
    ensures var (r1, a) := OnEnd(Receive(r, pkts, nowMs), GOOD);
            && a == Some(Ack(Done, 0, ChunkCount(|image|)))
            && Holds(image, r1.slots[r1.running])
  {
    var r1 := Receive(r, pkts, nowMs);
    ReceiveData(image, r, pkts, nowMs);
    forall i | 0 <= i < r1.totalChunks
      ensures r1.bits[i]
    {
      if i >= from {
        var p := DataFrom(image, from)[i - from];
        assert p == Data(i, Chunk(image, i)) && p in DataFrom(image, from);
      }
    }
    FullCount(r1.bits, r1.totalChunks);
    DoneMeansImage(image, r1, End, nowMs, GOOD);
  }

  /** The manager's own resume point serves every pending node whose report does not go too far. */
  lemma RoundCompletes(image: Image, r: Sys, i: nat, pkts: seq<Packet>, nowMs: nat)
    requires Inv(image, r) && i < |r.table| && Pending(r.table[i]) && !ReportTooFar(r, i)
    requires r.table[i].id in r.nodes && r.nodes[r.table[i].id].active
    requires AllData(image, pkts) && Covers(image, pkts, MinNext(r.table, |r.table|, ChunkCount(|image|)))
    ensures var (n1, a) := OnEnd(Receive(r.nodes[r.table[i].id], pkts, nowMs), GOOD);
            && a == Some(Ack(Done, 0, ChunkCount(|image|)))
            && Holds(image, n1.slots[n1.running])
  {
    LossFreeRound(image, r.nodes[r.table[i].id], MinNext(r.table, |r.table|, ChunkCount(|image|)), pkts, nowMs);
  }

  /** In particular every node whose report is of its current transfer, whatever BEGINs other nodes handled. */
  lemma RoundCompletesPending(image: Image, r: Sys, i: nat, pkts: seq<Packet>, nowMs: nat)
    requires Reachable(image, r) && CurrentReport(r, i) && r.table[i].status != Done
    requires AllData(image, pkts) && Covers(image, pkts, MinNext(r.table, |r.table|, ChunkCount(|image|)))
    ensures var (n1, a) := OnEnd(Receive(r.nodes[r.table[i].id], pkts, nowMs), GOOD);
            && a == Some(Ack(Done, 0, ChunkCount(|image|)))
            && Holds(image, n1.slots[n1.running])
  {
    ReachableInv(image, r);
    RecordedNextIsSafe(image, r, i);
    RoundCompletes(image, r, i, pkts, nowMs);
  }

  // ------------------------------------------------------------------
  // An END is enough to learn what a node lacks
  // ------------------------------------------------------------------

  /** The node is heard of already, or there is an entry left for it. */
  ghost predicate Room(t: seq<Prog>, id: NodeId) {
    exists i :: 0 <= i < |t| && (t[i].Unseen? || t[i].id == id)
  }

  /**
   * Whatever the manager has heard before, or missed: an END delivered to a node that lacks a chunk, and the
   * ack it sends heard, leave the node pending in the table with its exact first gap.
   */
  lemma EndReportsGap(image: Image, s: Sys, id: NodeId, g: nat, nowMs: nat, f: Flash)
    returns (m: AckMsg, s2: Sys, i: nat)
    requires Inv(image, s) && End in s.net && id in s.nodes && Room(s.table, id)
    requires s.nodes[id].active && GapAt(s.nodes[id], g) && g < s.nodes[id].totalChunks
    ensures m == AckMsg(id, s.epochs[id], Ack(Resume, g, |Held(s.nodes[id])|))
    ensures var s1 := Step(image, s, Deliver(id, End, nowMs, f));
            m in s1.acks && s2 == Step(image, s1, Hear(m))
    ensures Inv(image, s2) && s2.nodes == s.nodes && s2.net == s.net
    ensures i < |s2.table| && s2.table[i] == Seen(id, Resume, |Held(s.nodes[id])|, g) && Pending(s2.table[i])
  {
    EndAsksForGap(image, s.nodes[id], g, nowMs, f);
    m := AckMsg(id, s.epochs[id], Ack(Resume, g, |Held(s.nodes[id])|));
    var s1 := Step(image, s, Deliver(id, End, nowMs, f));
    assert s1.nodes == s.nodes && m in s1.acks;
    StepKeepsInv(image, s, Deliver(id, End, nowMs, f));
    s2 := Step(image, s1, Hear(m));
    StepKeepsInv(image, s1, Hear(m));
    i := SlotFor(s.table, id);
  }

  /** Packets delivered to one node, one after the other. */
  function Deliveries(id: NodeId, pkts: seq<Packet>, nowMs: nat): seq<Event> {
    seq(|pkts|, k requires 0 <= k < |pkts| => Deliver(id, pkts[k], nowMs, GOOD))
  }

  lemma {:induction false} DeliveriesReceive(image: Image, s: Sys, id: NodeId, pkts: seq<Packet>, nowMs: nat)
    requires Inv(image, s) && id in s.nodes && forall p :: p in pkts ==> p in s.net
    ensures var r := Run(image, s, Deliveries(id, pkts, nowMs));
            Inv(image, r) && id in r.nodes && r.nodes[id] == Receive(s.nodes[id], pkts, nowMs) && r.net == s.net
    decreases |pkts|
  {
    if pkts != [] {
      var init, p := pkts[..|pkts| - 1], pkts[|pkts| - 1];
      DeliveriesReceive(image, s, id, init, nowMs);
      var es := Deliveries(id, pkts, nowMs);
      assert es[..|es| - 1] == Deliveries(id, init, nowMs);
      assert p in pkts;
      StepKeepsInv(image, Run(image, s, Deliveries(id, init, nowMs)), Deliver(id, p, nowMs, GOOD));
    }
  }

  lemma OneMoreEvent(image: Image, s: Sys, es: seq<Event>, e: Event)
    ensures Run(image, s, es + [e]) == Step(image, Run(image, s, es), e)
  {
    assert (es + [e])[..|es|] == es;
  }

  /** The node has reported DONE and runs from the image. */
  ghost predicate RunsImage(image: Image, r: Sys, id: NodeId) {
    && id in r.finished && id in r.nodes && r.nodes[id].WellFormed()
    && Holds(image, r.nodes[id].slots[r.nodes[id].running])
  }

  /** An END after all it lacks has arrived makes a node finish. */
  lemma ResendFinishes(image: Image, s: Sys, id: NodeId, from: nat, pkts: seq<Packet>, nowMs: nat) returns (r: Sys)
    requires Inv(image, s) && End in s.net && id in s.nodes && s.nodes[id].active && from <= FirstMissing(s.nodes[id])
    requires AllData(image, pkts) && Covers(image, pkts, from) && forall p :: p in pkts ==> p in s.net
    ensures r == Run(image, s, Deliveries(id, pkts, nowMs) + [Deliver(id, End, nowMs, GOOD)])
    ensures RunsImage(image, r, id)
  {
    DeliveriesReceive(image, s, id, pkts, nowMs);
    LossFreeRound(image, s.nodes[id], from, pkts, nowMs);
    OneMoreEvent(image, s, Deliveries(id, pkts, nowMs), Deliver(id, End, nowMs, GOOD));
    r := Run(image, s, Deliveries(id, pkts, nowMs) + [Deliver(id, End, nowMs, GOOD)]);
  }

  /**
   * So the relay needs no earlier report: one END and its ack, the chunks from the table's least pending
   * resume point, and another END, all of which arrive, make any node that takes part run the image.
   */
  lemma EndThenResendFinishes(image: Image, s: Sys, id: NodeId, g: nat, pkts: seq<Packet>, nowMs: nat, f: Flash)
    returns (m: AckMsg, s2: Sys, r: Sys)
    requires Inv(image, s) && End in s.net && id in s.nodes && Room(s.table, id)
    requires s.nodes[id].active && GapAt(s.nodes[id], g) && g < s.nodes[id].totalChunks
    requires AllData(image, pkts) && forall p :: p in pkts ==> p in s.net
    ensures s2 == Step(image, Step(image, s, Deliver(id, End, nowMs, f)), Hear(m))
    ensures MinNext(s2.table, |s2.table|, ChunkCount(|image|)) <= g
    ensures r == Run(image, s2, Deliveries(id, pkts, nowMs) + [Deliver(id, End, nowMs, GOOD)])
    ensures Covers(image, pkts, MinNext(s2.table, |s2.table|, ChunkCount(|image|))) ==> RunsImage(image, r, id)
  {
    var i;
    m, s2, i := EndReportsGap(image, s, id, g, nowMs, f);
    var from := MinNext(s2.table, |s2.table|, ChunkCount(|image|));
    assert from <= s2.table[i].next;
    GapIsFirst(s.nodes[id], g);
    if Covers(image, pkts, from) {
      r := ResendFinishes(image, s2, id, from, pkts, nowMs);
    } else {
      r := Run(image, s2, Deliveries(id, pkts, nowMs) + [Deliver(id, End, nowMs, GOOD)]);
    }
  }

  // ------------------------------------------------------------------
  // Exactly when a report becomes unsafe
  // ------------------------------------------------------------------

  /** Resuming at `next` leaves out nothing the node lacks. */
  ghost predicate SafeFor(n: Rx, next: nat)
    requires n.WellFormed()
  {
    n.active ==> next <= FirstMissing(n)
  }

  /** A packet spoils a report of progress exactly if it is a BEGIN that starts the node over. */
  lemma ReportSpoiledExactly(image: Image, n: Rx, p: Packet, nowMs: nat, f: Flash, next: nat)
    requires Consistent(image, n) && Genuine(image, p) && SafeFor(n, next)
    ensures SafeFor(OnPacket(n, p, nowMs, f).0, next) <==> !(p.Begin? && f.ok && next > 0)
  {
    AcceptedExactlyWhenItFits(|image|);
    if !p.Begin? {
      GapMovesForward(n, p, nowMs, f);
    }
  }

  /** Every ack ever sent, and so every report recorded, is safe for its node as it is now. */
  ghost predicate AllSafe(s: Sys) {
    forall m :: m in s.acks ==> m.id in s.nodes && s.nodes[m.id].WellFormed() && SafeFor(s.nodes[m.id], m.ack.next)
  }

  /** A BEGIN starts a node over that has already acknowledged progress. */
  ghost predicate Restarts(s: Sys, e: Event) {
    && e.Deliver? && e.p.Begin? && e.p in s.net && e.id in s.nodes && e.f.ok
    && exists m :: m in s.acks && m.id == e.id && m.ack.next > 0
  }

  lemma AckSafeAfter(image: Image, s: Sys, id: NodeId, p: Packet, nowMs: nat, f: Flash, m: AckMsg)
    requires Inv(image, s) && AllSafe(s) && p in s.net && id in s.nodes
    requires m in DeliverTo(s, id, p, nowMs, f).acks
    ensures var s1 := DeliverTo(s, id, p, nowMs, f);
            && m.id in s1.nodes && s1.nodes[m.id].WellFormed()
            && (SafeFor(s1.nodes[m.id], m.ack.next) <==> !(m.id == id && p.Begin? && f.ok && m.ack.next > 0))
  {
    var n := s.nodes[id];
    if m in s.acks {
      if m.id == id { ReportSpoiledExactly(image, n, p, nowMs, f, m.ack.next); }
    } else {
      AcceptedExactlyWhenItFits(|image|);
      if !p.Begin? { GapMovesForward(n, p, nowMs, f); }
    }
  }

  lemma DeliverSafety(image: Image, s: Sys, id: NodeId, p: Packet, nowMs: nat, f: Flash)
    requires Inv(image, s) && AllSafe(s) && p in s.net && id in s.nodes
    ensures AllSafe(DeliverTo(s, id, p, nowMs, f)) <==> !Restarts(s, Deliver(id, p, nowMs, f))
  {
    var s1 := DeliverTo(s, id, p, nowMs, f);
    forall m | m in s1.acks
      ensures m.id in s1.nodes && s1.nodes[m.id].WellFormed()
      ensures SafeFor(s1.nodes[m.id], m.ack.next) <==> !(m.id == id && p.Begin? && f.ok && m.ack.next > 0)
    {
      AckSafeAfter(image, s, id, p, nowMs, f, m);
    }
    assert s.acks <= s1.acks;
    if p.Begin? {
      AcceptedExactlyWhenItFits(|image|);
      assert forall m :: m in s1.acks && m !in s.acks ==> m.ack.next == 0;
    }
  }

  /** One event keeps all reports safe exactly if it does not start a node over that has acknowledged progress. */
  lemma ReportsStaySafeExactly(image: Image, s: Sys, e: Event)
    requires Inv(image, s) && AllSafe(s)
    ensures AllSafe(Step(image, s, e)) <==> !Restarts(s, e)
  {
    if e.Deliver? && e.p in s.net && e.id in s.nodes {
      DeliverSafety(image, s, e.id, e.p, e.nowMs, e.f);
    }
  }

  lemma {:induction false} ReportsStaySafeInRuns(image: Image, s: Sys, events: seq<Event>)
    requires Initial(image, s)
    requires forall k :: 0 <= k < |events| ==> !Restarts(Run(image, s, events[..k]), events[k])
    ensures AllSafe(Run(image, s, events))
    decreases |events|
  {
    if events != [] {
      var init := events[..|events| - 1];
      forall k | 0 <= k < |init| ensures !Restarts(Run(image, s, init[..k]), init[k]) {
        assert init[..k] == events[..k];
      }
      ReportsStaySafeInRuns(image, s, init);
      RunKeepsInv(image, s, init);
      ReportsStaySafeExactly(image, Run(image, s, init), events[|events| - 1]);
    }
  }

  /** The manager has recorded for a node a point beyond that node's first gap. */
  ghost predicate ReportTooFar(r: Sys, i: nat) {
    && i < |r.table| && r.table[i].Seen? && r.table[i].id in r.nodes
    && var n := r.nodes[r.table[i].id];
       n.WellFormed() && n.active && r.table[i].next > FirstMissing(n)
  }

  /** Then, no node's recorded resume point lies beyond its first gap, whatever epoch the report is from. */
  lemma NoReportTooFar(image: Image, s: Sys, events: seq<Event>, i: nat)
    requires Initial(image, s)
    requires forall k :: 0 <= k < |events| ==> !Restarts(Run(image, s, events[..k]), events[k])
    ensures !ReportTooFar(Run(image, s, events), i)
  {
    ReportsStaySafeInRuns(image, s, events);
    RunKeepsInv(image, s, events);
    var r := Run(image, s, events);
    if i < |r.table| && r.table[i].Seen? {
      assert EntryOk(r, r.table[i]);
    }
  }

  /**
   * What is recorded goes too far, by any event but an ack heard, exactly if that is a BEGIN starting its
   * node over.
   */
  lemma TooFarAfterExactly(image: Image, s: Sys, e: Event, i: nat)
    requires Inv(image, s) && i < |s.table| && s.table[i].Seen? && !ReportTooFar(s, i) && !e.Hear?
    ensures ReportTooFar(Step(image, s, e), i) <==>
            e.Deliver? && e.p.Begin? && e.p in s.net && e.id == s.table[i].id && e.f.ok && s.table[i].next > 0
  {
    assert EntryOk(s, s.table[i]);
    var id := s.table[i].id;
    assert id in s.nodes && Consistent(image, s.nodes[id]);
    if e.Deliver? && e.p in s.net && e.id == id {
      ReportSpoiledExactly(image, s.nodes[id], e.p, e.nowMs, e.f, s.table[i].next);
      PacketKeeps(image, s.nodes[id], e.p, e.nowMs, e.f);
    }
  }

  /** An unsafe ack makes the table unsafe as soon as it is heard, if the table has room for its node. */
  lemma UnsafeAckHeard(image: Image, s: Sys, m: AckMsg)
    requires Inv(image, s) && m in s.acks && !SafeFor(s.nodes[m.id], m.ack.next)
    requires SlotFor(s.table, m.id) < |s.table|
    ensures ReportTooFar(Step(image, s, Hear(m)), SlotFor(s.table, m.id))
  {
  }

  // ------------------------------------------------------------------
  // Why "since it last handled a BEGIN" is needed
  // ------------------------------------------------------------------

  lemma ReachOneMore(image: Image, r: Sys, e: Event)
    requires Reachable(image, r)
    ensures Reachable(image, Step(image, r, e))
  {
    var s, events :| Initial(image, s) && r == Run(image, s, events);
    assert (events + [e])[..|events|] == events;
    assert Step(image, r, e) == Run(image, s, events + [e]);
  }

  /** BEGIN, one chunk, BEGIN again: the chunk is acked as received and then forgotten. */
  lemma RestartForgets(image: Image, n: Rx)
    requires n.WellFormed() && !n.active
    ensures var chunks := ChunkCount(|image|);
            var n1 := OnBegin(n, |image|, chunks, GOOD).0;
            var (n2, a) := OnData(n1, 0, Chunk(image, 0), 1000, GOOD);
            var n3 := OnBegin(n2, |image|, chunks, GOOD).0;
            && a == Some(Ack(Receiving, FirstMissing(n2), n2.recvCount))
            && 0 < FirstMissing(n2)
            && n3.active && FirstMissing(n3) == 0
  {
    AcceptedExactlyWhenItFits(|image|);
    var n1 := OnBegin(n, |image|, ChunkCount(|image|), GOOD).0;
    var n2 := OnData(n1, 0, Chunk(image, 0), 1000, GOOD).0;
    assert n2.bits[0];
  }

  /** A repeated BEGIN that arrives late restarts the node behind the manager's back, for every image. */
  lemma LateBeginOvertakesReport(image: Image, node: Rx) returns (r: Sys)
    requires node.WellFormed() && !node.active
    ensures Reachable(image, r) && ReportTooFar(r, 0)
  {
    var b, d := Begin(|image|, ChunkCount(|image|)), Data(0, Chunk(image, 0));
    AcceptedExactlyWhenItFits(|image|);
    var s0 := Sys(map["n" := node], map["n" := 0], {}, {}, {}, seq(NODES_MAX, _ => Unseen), map[]);
    assert Initial(image, s0) && s0 == Run(image, s0, []);
    var s2 := s0.(net := {b, d});
    assert s2 == Step(image, Step(image, s0, Send(b)), Send(d));
    ReachOneMore(image, s0, Send(b));
    ReachOneMore(image, Step(image, s0, Send(b)), Send(d));
    r := LateBeginHead(image, s2, b, d);
  }

  lemma LateBeginHead(image: Image, s2: Sys, b: Packet, d: Packet) returns (r: Sys)
    requires Reachable(image, s2) && s2.net == {b, d}
    requires b == Begin(|image|, ChunkCount(|image|)) && d == Data(0, Chunk(image, 0))
    requires "n" in s2.nodes && "n" in s2.epochs && s2.nodes["n"].WellFormed() && !s2.nodes["n"].active
    requires |s2.table| == NODES_MAX && forall i :: 0 <= i < NODES_MAX ==> s2.table[i].Unseen?
    ensures Reachable(image, r) && ReportTooFar(r, 0)
  {
    RestartForgets(image, s2.nodes["n"]);
    ReachOneMore(image, s2, Deliver("n", b, 0, GOOD));
    r := LateBeginTail(image, Step(image, s2, Deliver("n", b, 0, GOOD)), b, d);
  }

  lemma LateBeginTail(image: Image, s3: Sys, b: Packet, d: Packet) returns (r: Sys)
    requires Reachable(image, s3) && b in s3.net && d in s3.net && d.Data? && b.Begin?
    requires "n" in s3.nodes && "n" in s3.epochs && s3.nodes["n"].WellFormed()
    requires |s3.table| == NODES_MAX && forall i :: 0 <= i < NODES_MAX ==> s3.table[i].Unseen?
    requires var (n2, a) := OnPacket(s3.nodes["n"], d, 1000, GOOD);
             && a == Some(Ack(Receiving, FirstMissing(n2), n2.recvCount)) && 0 < FirstMissing(n2)
             && var n3 := OnPacket(n2, b, 2000, GOOD).0;
                n3.active && FirstMissing(n3) == 0
    ensures Reachable(image, r) && ReportTooFar(r, 0)
  {
    var (n2, a) := OnPacket(s3.nodes["n"], d, 1000, GOOD);
    var s4 := Step(image, s3, Deliver("n", d, 1000, GOOD));
    ReachOneMore(image, s3, Deliver("n", d, 1000, GOOD));
    var m := AckMsg("n", s3.epochs["n"], a.value);
    assert m in s4.acks;
    var s5 := Step(image, s4, Hear(m));
    ReachOneMore(image, s4, Hear(m));
    assert SlotFor(s4.table, "n") == 0;
    r := Step(image, s5, Deliver("n", b, 2000, GOOD));
    ReachOneMore(image, s5, Deliver("n", b, 2000, GOOD));
  }
}
