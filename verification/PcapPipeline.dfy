/**
 * The pipeline from the radio to the manager: captured records are drained,
 * split, cut into fragments, queued and transmitted, some of them lost on the
 * way, and reassembled.
 */
module PcapPipeline {
  import opened Bytes
  import opened PcapFragments
  import PcapCapture
  import PcapPhone

  // ------------------------------------------------------------------
  // What the slots hand on
  // ------------------------------------------------------------------

  /** The records handed on while `pkts` arrive one after the other. */
  function Outputs(slots: seq<Slot>, pkts: seq<Packet>, nowMs: nat): seq<seq<byte>>
    requires SlotsOk(slots)
    decreases |pkts|
  {
    if pkts == [] then []
    else
      var (s1, out) := Add(slots, pkts[0], nowMs);
      AsSeq(out) + Outputs(s1, pkts[1..], nowMs)
  }

  function AsSeq(out: Option<seq<byte>>): seq<seq<byte>> {
    match out case None => [] case Some(rec) => [rec]
  }

  lemma OutputsStep(slots: seq<Slot>, p: Packet, rest: seq<Packet>, nowMs: nat)
    requires SlotsOk(slots)
    ensures var (s1, out) := Add(slots, p, nowMs);
            Outputs(slots, [p] + rest, nowMs) == AsSeq(out) + Outputs(s1, rest, nowMs)
  {
    assert ([p] + rest)[1..] == rest;
  }

  /** The packets that survive a link which keeps their order and loses those `keep` says no to. */
  function Survivors(ps: seq<Packet>, keep: Packet -> bool): seq<Packet> {
    if ps == [] then [] else (if keep(ps[0]) then [ps[0]] else []) + Survivors(ps[1..], keep)
  }

  lemma SurvivorsStep(p: Packet, rest: seq<Packet>, keep: Packet -> bool)
    ensures Survivors([p] + rest, keep) == if keep(p) then [p] + Survivors(rest, keep) else Survivors(rest, keep)
  {
    assert ([p] + rest)[1..] == rest;
  }

  // ------------------------------------------------------------------
  // One record over a lossy link
  // ------------------------------------------------------------------

  /** Whatever the slots hold of `id` belongs to an earlier record than number `q`. */
  ghost predicate Behind(slots: seq<Slot>, id: NodeId, q: nat) {
    SlotsOk(slots) && Distinct(slots) && forall i :: 0 <= i < |slots| && slots[i].For(id) ==> slots[i].seqNo < q
  }

  /** The fragments before `k` that were not lost. */
  ghost function Kept(keep: Packet -> bool, id: NodeId, q: nat, rec: seq<byte>, k: nat): (s: set<nat>)
    requires Forwardable(rec) && k <= FragCount(|rec|)
    ensures s <= AllFrags(rec)
  {
    set j: nat | j < k && keep(Packet(id, q, Fragment(rec, j)))
  }

  ghost predicate Whole(keep: Packet -> bool, id: NodeId, q: nat, rec: seq<byte>)
    requires Forwardable(rec)
  {
    forall j :: 0 <= j < FragCount(|rec|) ==> keep(Packet(id, q, Fragment(rec, j)))
  }

  lemma KeptStep(keep: Packet -> bool, id: NodeId, q: nat, rec: seq<byte>, k: nat)
    requires Forwardable(rec) && k < FragCount(|rec|)
    ensures Kept(keep, id, q, rec, k) < AllFrags(rec)
    ensures Kept(keep, id, q, rec, k + 1)
            == Kept(keep, id, q, rec, k) + if keep(Packet(id, q, Fragment(rec, k))) then {k} else {}
    ensures Kept(keep, id, q, rec, k + 1) == AllFrags(rec) <==>
              k + 1 == FragCount(|rec|) && Whole(keep, id, q, rec)
  {
    var last, kept := FragCount(|rec|) - 1, Kept(keep, id, q, rec, k + 1);
    assert k in AllFrags(rec) && k !in Kept(keep, id, q, rec, k);
    if kept == AllFrags(rec) {
      assert last in kept;
      forall j | 0 <= j < FragCount(|rec|) ensures keep(Packet(id, q, Fragment(rec, j))) {
        assert j in kept;
      }
    }
  }

  /** Adding a fragment of record `q` leaves nothing of `id` in the slots but of records up to `q`. */
  lemma StaysBehind(slots: seq<Slot>, id: NodeId, q: nat, rec: seq<byte>, k: nat, nowMs: nat)
    requires Behind(slots, id, q + 1) && Forwardable(rec) && k < FragCount(|rec|) && k < MAX_FRAGS
    ensures Behind(Add(slots, Packet(id, q, Fragment(rec, k)), nowMs).0, id, q + 1)
  {
    var p := Packet(id, q, Fragment(rec, k));
    AddKeepsDistinct(slots, p, nowMs);
    AddFragmentIs(slots, id, q, rec, k, nowMs);
  }

  function AfterOne(slots: seq<Slot>, p: Packet, keep: Packet -> bool, nowMs: nat): (r: seq<Slot>)
    requires SlotsOk(slots)
    ensures SlotsOk(r)
  {
    if keep(p) then Add(slots, p, nowMs).0 else slots
  }

  lemma OneFragment(slots: seq<Slot>, id: NodeId, q: nat, rec: seq<byte>, k: nat, keep: Packet -> bool, nowMs: nat)
    requires 1 <= |rec| <= REASM_MAX && k < FragCount(|rec|)
    requires Ready(slots, id, q, rec, Kept(keep, id, q, rec, k)) && Behind(slots, id, q + 1)
    ensures var p := Packet(id, q, Fragment(rec, k));
            var slots1 := AfterOne(slots, p, keep, nowMs);
            && Behind(slots1, id, q + 1)
            && (k + 1 < FragCount(|rec|) ==> Ready(slots1, id, q, rec, Kept(keep, id, q, rec, k + 1)))
            && (k + 1 == FragCount(|rec|) && Whole(keep, id, q, rec) ==> Idle(slots1, id))
            && (keep(p) ==> Add(slots, p, nowMs).1
                            == if k + 1 == FragCount(|rec|) && Whole(keep, id, q, rec) then Some(rec) else None)
  {
    KeptStep(keep, id, q, rec, k);
    if keep(Packet(id, q, Fragment(rec, k))) {
      OwnStep(slots, id, q, rec, Kept(keep, id, q, rec, k), k, nowMs);
      StaysBehind(slots, id, q, rec, k, nowMs);
    }
  }

  lemma OutputsOne(slots: seq<Slot>, p: Packet, tail: seq<Packet>, keep: Packet -> bool, nowMs: nat)
    requires SlotsOk(slots)
    ensures Outputs(slots, Survivors([p] + tail, keep), nowMs)
            == (if keep(p) then AsSeq(Add(slots, p, nowMs).1) else [])
               + Outputs(AfterOne(slots, p, keep, nowMs), Survivors(tail, keep), nowMs)
  {
    SurvivorsStep(p, tail, keep);
    if keep(p) { OutputsStep(slots, p, Survivors(tail, keep), nowMs); }
  }

  lemma PacketsStep(id: NodeId, q: nat, rec: seq<byte>, k: nat, rest: seq<Packet>)
    requires Forwardable(rec) && k < FragCount(|rec|)
    ensures PacketsOf(id, q, rec, k) + rest == [Packet(id, q, Fragment(rec, k))] + (PacketsOf(id, q, rec, k + 1) + rest)
    ensures k + 1 == FragCount(|rec|) ==> PacketsOf(id, q, rec, k + 1) + rest == rest
  {
  }

  ghost function ComesOut(slots: seq<Slot>, ps: seq<Packet>, keep: Packet -> bool, nowMs: nat): seq<seq<byte>>
    requires SlotsOk(slots)
  {
    Outputs(slots, Survivors(ps, keep), nowMs)
  }

  /** The slots hold what arrived of the first `k` fragments of the record, and nothing of later records. */
  ghost predicate Midway(slots: seq<Slot>, id: NodeId, q: nat, rec: seq<byte>, k: nat, keep: Packet -> bool)
    requires Forwardable(rec) && k <= FragCount(|rec|)
  {
    Ready(slots, id, q, rec, Kept(keep, id, q, rec, k)) && Behind(slots, id, q + 1)
  }

  /** All of the record that arrived has been dealt with. */
  ghost predicate Past(slots: seq<Slot>, id: NodeId, q: nat, rec: seq<byte>, keep: Packet -> bool)
    requires Forwardable(rec)
  {
    Behind(slots, id, q + 1) && (Whole(keep, id, q, rec) ==> Idle(slots, id))
  }

  /** What has come out of it. */
  ghost function HandedOn(id: NodeId, q: nat, rec: seq<byte>, keep: Packet -> bool): seq<seq<byte>>
    requires Forwardable(rec)
  {
    if Whole(keep, id, q, rec) then [rec] else []
  }

  lemma MidwayStart(slots: seq<Slot>, id: NodeId, q: nat, rec: seq<byte>, keep: Packet -> bool)
    requires Forwardable(rec) && Behind(slots, id, q)
    ensures Midway(slots, id, q, rec, 0, keep)
  {
    BehindIsReady(slots, id, q, rec);
    assert Kept(keep, id, q, rec, 0) == {};
  }

  lemma SilentOne(slots: seq<Slot>, p: Packet, tail: seq<Packet>, keep: Packet -> bool, nowMs: nat)
    requires SlotsOk(slots) && (keep(p) ==> Add(slots, p, nowMs).1 == None)
    ensures ComesOut(slots, [p] + tail, keep, nowMs) == ComesOut(AfterOne(slots, p, keep, nowMs), tail, keep, nowMs)
  {
    OutputsOne(slots, p, tail, keep, nowMs);
    var more := ComesOut(AfterOne(slots, p, keep, nowMs), tail, keep, nowMs);
    assert [] + more == more;
  }

  /** A packet of the record that is not its last hands nothing on. */
  lemma MidwayStep(slots: seq<Slot>, id: NodeId, q: nat, rec: seq<byte>, k: nat, keep: Packet -> bool, nowMs: nat)
    returns (p: Packet, after: seq<Slot>, k1: nat)
    requires 1 <= |rec| <= REASM_MAX && k + 1 < FragCount(|rec|) && Midway(slots, id, q, rec, k, keep)
    ensures p == Packet(id, q, Fragment(rec, k)) && SlotsOk(slots) && (keep(p) ==> Add(slots, p, nowMs).1 == None)
    ensures k1 == k + 1 && after == AfterOne(slots, p, keep, nowMs) && Midway(after, id, q, rec, k1, keep)
  {
    p := Packet(id, q, Fragment(rec, k));
    OneFragment(slots, id, q, rec, k, keep, nowMs);
    after, k1 := AfterOne(slots, p, keep, nowMs), k + 1;
  }

  lemma RecordStep(slots: seq<Slot>, id: NodeId, q: nat, rec: seq<byte>, k: nat, ps: seq<Packet>,
                   rest: seq<Packet>, keep: Packet -> bool, nowMs: nat)
    returns (after: seq<Slot>, k1: nat, ps1: seq<Packet>)
    requires 1 <= |rec| <= REASM_MAX && k + 1 < FragCount(|rec|) && Midway(slots, id, q, rec, k, keep)
    requires ps == PacketsOf(id, q, rec, k) + rest
    ensures k1 == k + 1 && Midway(after, id, q, rec, k1, keep) && ps1 == PacketsOf(id, q, rec, k1) + rest
    ensures ComesOut(slots, ps, keep, nowMs) == ComesOut(after, ps1, keep, nowMs)
  {
    var p;
    p, after, k1 := MidwayStep(slots, id, q, rec, k, keep, nowMs);
    ps1 := PacketsOf(id, q, rec, k1) + rest;
    PacketsStep(id, q, rec, k, rest);
    SilentOne(slots, p, ps1, keep, nowMs);
  }

  /** Its last packet hands it on if nothing of it was lost. */
  lemma RecordLast(slots: seq<Slot>, id: NodeId, q: nat, rec: seq<byte>, k: nat, rest: seq<Packet>,
                   keep: Packet -> bool, nowMs: nat)
    requires 1 <= |rec| <= REASM_MAX && k + 1 == FragCount(|rec|) && Midway(slots, id, q, rec, k, keep)
    ensures var after := AfterOne(slots, Packet(id, q, Fragment(rec, k)), keep, nowMs);
            && Past(after, id, q, rec, keep)
            && ComesOut(slots, PacketsOf(id, q, rec, k) + rest, keep, nowMs)
               == HandedOn(id, q, rec, keep) + ComesOut(after, rest, keep, nowMs)
  {
    PacketsStep(id, q, rec, k, rest);
    OneFragment(slots, id, q, rec, k, keep, nowMs);
    OutputsOne(slots, Packet(id, q, Fragment(rec, k)), rest, keep, nowMs);
  }

  lemma {:induction false} SilentUpTo(slots: seq<Slot>, id: NodeId, q: nat, rec: seq<byte>, k: nat,
                                      rest: seq<Packet>, keep: Packet -> bool, nowMs: nat)
    returns (at: seq<Slot>, ps: seq<Packet>, out: seq<seq<byte>>)
    requires 1 <= |rec| <= REASM_MAX && k < FragCount(|rec|) && Behind(slots, id, q)
    ensures Midway(at, id, q, rec, k, keep) && ps == PacketsOf(id, q, rec, k) + rest
    ensures out == ComesOut(slots, PacketsOf(id, q, rec, 0) + rest, keep, nowMs)
    ensures out == ComesOut(at, ps, keep, nowMs)
  {
    if k == 0 {
      MidwayStart(slots, id, q, rec, keep);
      at, ps := slots, PacketsOf(id, q, rec, 0) + rest;
      out := ComesOut(at, ps, keep, nowMs);
    } else {
      var j, before, ps0, k1 := k - 1, slots, [], 0;
      before, ps0, out := SilentUpTo(slots, id, q, rec, j, rest, keep, nowMs);
      at, k1, ps := RecordStep(before, id, q, rec, j, ps0, rest, keep, nowMs);
    }
  }

  /** The record comes out if nothing of it was lost, and in any case what follows is not affected by it. */
  lemma RecordComesOut(slots: seq<Slot>, id: NodeId, q: nat, rec: seq<byte>, rest: seq<Packet>,
                       keep: Packet -> bool, nowMs: nat)
    returns (after: seq<Slot>)
    requires 1 <= |rec| <= REASM_MAX && Behind(slots, id, q)
    ensures Past(after, id, q, rec, keep)
    ensures ComesOut(slots, PacketsOf(id, q, rec, 0) + rest, keep, nowMs)
            == HandedOn(id, q, rec, keep) + ComesOut(after, rest, keep, nowMs)
  {
    var last := FragCount(|rec|) - 1;
    var before, ps, out := SilentUpTo(slots, id, q, rec, last, rest, keep, nowMs);
    RecordLast(before, id, q, rec, last, rest, keep, nowMs);
    after := AfterOne(before, Packet(id, q, Fragment(rec, last)), keep, nowMs);
  }

  // ------------------------------------------------------------------
  // Many records
  // ------------------------------------------------------------------

  /** A record as it was queued, under its number. */
  datatype Item = Item(number: nat, rec: seq<byte>)

  type Queued = x: Item | Forwardable(x.rec) witness Item(0, [0])

  ghost predicate AllFit(recs: seq<seq<byte>>) {
    forall r :: r in recs ==> 1 <= |r| <= REASM_MAX
  }

  /** Records that fit a reassembly buffer, under rising numbers. */
  ghost predicate Rising(l: seq<Queued>) {
    && (forall x :: x in l ==> 1 <= |x.rec| <= REASM_MAX)
    && forall i, j :: 0 <= i < j < |l| ==> l[i].number < l[j].number
  }

  function PacketsOfAll(id: NodeId, l: seq<Queued>): seq<Packet>
  {
    if l == [] then [] else PacketsOf(id, l[0].number, l[0].rec, 0) + PacketsOfAll(id, l[1..])
  }

  function Recs(l: seq<Queued>): seq<seq<byte>> {
    if l == [] then [] else [l[0].rec] + Recs(l[1..])
  }

  /** The records none of whose fragments is lost, in order. */
  ghost function WholeOnes(id: NodeId, l: seq<Queued>, keep: Packet -> bool): seq<seq<byte>>
  {
    if l == [] then []
    else (if Whole(keep, id, l[0].number, l[0].rec) then [l[0].rec] else []) + WholeOnes(id, l[1..], keep)
  }

  lemma BehindIsReady(slots: seq<Slot>, id: NodeId, q: nat, rec: seq<byte>)
    requires Behind(slots, id, q)
    ensures Ready(slots, id, q, rec, {}) && Behind(slots, id, q + 1)
  {
  }

  /**
   * Over a link that keeps order and loses whatever it likes, exactly the records of which nothing was lost
   * come out, in order. What is left of the others never mixes with what follows.
   */
  lemma {:induction false} LossyLink(slots: seq<Slot>, id: NodeId, l: seq<Queued>, keep: Packet -> bool, nowMs: nat)
    requires Rising(l) && SlotsOk(slots) && Distinct(slots) && (l != [] ==> Behind(slots, id, l[0].number))
    ensures ComesOut(slots, PacketsOfAll(id, l), keep, nowMs) == WholeOnes(id, l, keep)
    decreases |l|
  {
    if l != [] {
      var q, rec, tail := l[0].number, l[0].rec, l[1..];
      var after := RecordComesOut(slots, id, q, rec, PacketsOfAll(id, tail), keep, nowMs);
      LossyLink(after, id, tail, keep, nowMs);
    }
  }

  // ------------------------------------------------------------------
  // The node's queue
  // ------------------------------------------------------------------

  /** A record offered while the queue has `room`, and one packet transmitted. */
  datatype QueueEvent = Offer(rec: seq<byte>, room: int) | Transmit

  /** The queue, what has been transmitted, and which records were taken in. */
  datatype Sending = Sending(box: Outbox, sent: seq<Packet>, taken: seq<Queued>)

  function SendStep(id: NodeId, s: Sending, e: QueueEvent): Sending {
    match e
    case Offer(rec, room) =>
      var (o, ok) := Offered(id, s.box, rec, room);
      s.(box := o, taken := if ok then s.taken + [Item(s.box.nextSeq, rec)] else s.taken)
    case Transmit =>
      if s.box.queue == [] then s
      else s.(box := s.box.(queue := s.box.queue[1..]), sent := s.sent + [s.box.queue[0]])
  }

  function SendRun(id: NodeId, es: seq<QueueEvent>): Sending {
    if es == [] then Sending(Outbox(0, []), [], []) else SendStep(id, SendRun(id, es[..|es| - 1]), es[|es| - 1])
  }

  function Offers(es: seq<QueueEvent>): seq<seq<byte>> {
    if es == [] then []
    else Offers(es[..|es| - 1]) + match es[|es| - 1] case Offer(rec, _) => [rec] case Transmit => []
  }

  lemma {:induction false} PacketsSnoc(id: NodeId, l: seq<Queued>, x: Queued)
    ensures PacketsOfAll(id, l + [x]) == PacketsOfAll(id, l) + PacketsOf(id, x.number, x.rec, 0)
    decreases |l|
  {
    if l == [] {
      assert [x][1..] == [];
      assert l + [x] == [x];
    } else {
      var tail := l[1..];
      assert (l + [x])[1..] == tail + [x] && (l + [x])[0] == l[0];
      PacketsSnoc(id, tail, x);
    }
  }

  lemma {:induction false} RecsSnoc(l: seq<Queued>, x: Queued)
    ensures Recs(l + [x]) == Recs(l) + [x.rec]
    decreases |l|
  {
    if l == [] {
      assert l + [x] == [x] && [x][1..] == [];
    } else {
      assert (l + [x])[1..] == l[1..] + [x];
      RecsSnoc(l[1..], x);
    }
  }

  /** The numbers of what was taken in rise, and are all spent. */
  ghost predicate NumbersOk(taken: seq<Queued>, next: nat) {
    && (forall x :: x in taken ==> x.number < next)
    && forall i, j :: 0 <= i < j < |taken| ==> taken[i].number < taken[j].number
  }

  /** Transmitted and waiting packets are those of the records taken in, which are among the offered ones in order. */
  ghost predicate SendOk(id: NodeId, s: Sending, offers: seq<seq<byte>>) {
    && NumbersOk(s.taken, s.box.nextSeq) && s.box.nextSeq <= |offers|
    && s.sent + s.box.queue == PacketsOfAll(id, s.taken)
    && Subsequence(Recs(s.taken), offers)
  }

  lemma NumbersSnoc(taken: seq<Queued>, x: Queued)
    requires NumbersOk(taken, x.number)
    ensures NumbersOk(taken + [x], x.number + 1)
  {
  }

  lemma QueueGrows(id: NodeId, sent: seq<Packet>, queue: seq<Packet>, taken: seq<Queued>, x: Queued)
    requires sent + queue == PacketsOfAll(id, taken)
    ensures sent + (queue + PacketsOf(id, x.number, x.rec, 0)) == PacketsOfAll(id, taken + [x])
  {
    PacketsSnoc(id, taken, x);
    assert sent + (queue + PacketsOf(id, x.number, x.rec, 0)) == (sent + queue) + PacketsOf(id, x.number, x.rec, 0);
  }

  lemma TakenKeeps(id: NodeId, s: Sending, offers: seq<seq<byte>>, x: Queued)
    requires SendOk(id, s, offers) && x.number == s.box.nextSeq
    ensures SendOk(id, Sending(Outbox(x.number + 1, s.box.queue + PacketsOf(id, x.number, x.rec, 0)), s.sent,
                               s.taken + [x]), offers + [x.rec])
  {
    NumbersSnoc(s.taken, x);
    QueueGrows(id, s.sent, s.box.queue, s.taken, x);
    RecsSnoc(s.taken, x);
    SubsequenceSnoc(Recs(s.taken), offers, x.rec);
  }

  lemma RefusedKeeps(id: NodeId, s: Sending, offers: seq<seq<byte>>, rec: seq<byte>, room: int)
    requires SendOk(id, s, offers) && |offers| < 0xFFFF && !Offered(id, s.box, rec, room).1
    ensures SendOk(id, SendStep(id, s, Offer(rec, room)), offers + [rec])
  {
    var s1 := SendStep(id, s, Offer(rec, room));
    assert s1.taken == s.taken && s1.sent == s.sent && s1.box.queue == s.box.queue;
    assert s.box.nextSeq <= s1.box.nextSeq <= s.box.nextSeq + 1;
    SubsequenceSnoc(Recs(s.taken), offers, rec);
  }

  lemma OfferTaken(id: NodeId, s: Sending, rec: seq<byte>, room: int)
    requires s.box.nextSeq < 0xFFFF && Offered(id, s.box, rec, room).1
    ensures Forwardable(rec)
    ensures var q := s.box.nextSeq;
            SendStep(id, s, Offer(rec, room))
            == Sending(Outbox(q + 1, s.box.queue + PacketsOf(id, q, rec, 0)), s.sent, s.taken + [Item(q, rec)])
  {
    assert (s.box.nextSeq + 1) % 0x1_0000 == s.box.nextSeq + 1;
  }

  lemma OfferKeeps(id: NodeId, s: Sending, offers: seq<seq<byte>>, rec: seq<byte>, room: int)
    requires SendOk(id, s, offers) && |offers| < 0xFFFF
    ensures SendOk(id, SendStep(id, s, Offer(rec, room)), offers + [rec])
  {
    if Offered(id, s.box, rec, room).1 {
      OfferTaken(id, s, rec, room);
      TakenKeeps(id, s, offers, Item(s.box.nextSeq, rec));
    } else {
      RefusedKeeps(id, s, offers, rec, room);
    }
  }

  lemma {:induction false} SendKeeps(id: NodeId, es: seq<QueueEvent>)
    requires |Offers(es)| <= 0xFFFF
    ensures SendOk(id, SendRun(id, es), Offers(es))
    decreases |es|
  {
    if es != [] {
      var init, e := es[..|es| - 1], es[|es| - 1];
      SendKeeps(id, init);
      match e
      case Offer(rec, room) => OfferKeeps(id, SendRun(id, init), Offers(init), rec, room);
      case Transmit =>
        var s := SendRun(id, init);
        assert Offers(es) == Offers(init);
        if s.box.queue != [] {
          assert s.sent + [s.box.queue[0]] + s.box.queue[1..] == s.sent + s.box.queue;
        }
    }
  }

  /** What is offered and can be sent: 1 to 32 fragments of 199 bytes, for all of which the queue has room. */
  function Sendable(es: seq<QueueEvent>): seq<seq<byte>> {
    if es == [] then []
    else
      var e := es[|es| - 1];
      Sendable(es[..|es| - 1])
      + if e.Offer? && 1 <= |e.rec| <= 32 * 199 && (|e.rec| + 198) / 199 <= e.room then [e.rec] else []
  }

  /** That is exactly what is taken in. */
  lemma {:induction false} TakenExactly(id: NodeId, es: seq<QueueEvent>)
    ensures Recs(SendRun(id, es).taken) == Sendable(es)
  {
    if es != [] {
      var init, e := es[..|es| - 1], es[|es| - 1];
      var s := SendRun(id, init);
      TakenExactly(id, init);
      if e.Offer? && Offered(id, s.box, e.rec, e.room).1 {
        RecsSnoc(s.taken, Item(s.box.nextSeq, e.rec));
      }
    }
  }

  /** How many of the records offered can be cut, whether there is room or not. */
  function Numbered(es: seq<QueueEvent>): nat {
    if es == [] then 0
    else
      var e := es[|es| - 1];
      Numbered(es[..|es| - 1]) + if e.Offer? && 1 <= |e.rec| <= 32 * 199 then 1 else 0
  }

  lemma NextNumber(n: nat, q: nat)
    requires q == n % 65536
    ensures (q + 1) % 65536 == (n + 1) % 65536
  {
  }

  /** Each of those spends a 16-bit number. */
  lemma {:induction false} NumbersSpent(id: NodeId, es: seq<QueueEvent>)
    ensures SendRun(id, es).box.nextSeq == Numbered(es) % 65536
  {
    if es != [] {
      var init := es[..|es| - 1];
      NumbersSpent(id, init);
      NextNumber(Numbered(init), SendRun(id, init).box.nextSeq);
    }
  }

  /** The queue has room for every record offered, and each of them can be cut. */
  ghost predicate RoomForEach(es: seq<QueueEvent>) {
    forall e :: e in es && e.Offer? ==> 1 <= |e.rec| <= 32 * 199 && (|e.rec| + 198) / 199 <= e.room
  }

  lemma {:induction false} AllSendable(es: seq<QueueEvent>)
    requires RoomForEach(es)
    ensures Sendable(es) == Offers(es)
  {
    if es != [] {
      assert es[|es| - 1] in es && forall e :: e in es[..|es| - 1] ==> e in es;
      AllSendable(es[..|es| - 1]);
    }
  }

  /** Every transmission takes the packet that has waited longest, until none waits. */
  lemma {:induction false} TransmitsInTurn(id: NodeId, es: seq<QueueEvent>, n: nat)
    requires n <= |SendRun(id, es).box.queue|
    ensures var s, s1 := SendRun(id, es), SendRun(id, es + Repeat(Transmit, n));
            s1.sent == s.sent + s.box.queue[..n] && s1.box.queue == s.box.queue[n..]
  {
    if n == 0 {
      assert es + Repeat(Transmit, 0) == es;
    } else {
      TransmitsInTurn(id, es, n - 1);
      var more := es + Repeat(Transmit, n);
      assert more[..|more| - 1] == es + Repeat(Transmit, n - 1) && more[|more| - 1] == Transmit;
      var q := SendRun(id, es).box.queue;
      assert q[..n - 1] + [q[n - 1]] == q[..n] && q[n - 1..][1..] == q[n..];
    }
  }

  // ------------------------------------------------------------------
  // From the radio to the manager
  // ------------------------------------------------------------------

  lemma PrependAssoc(p: Packet, a: seq<Packet>, b: seq<Packet>)
    ensures [p] + (a + b) == ([p] + a) + b
  {
  }

  lemma {:induction false} SurvivorsAppend(a: seq<Packet>, b: seq<Packet>, keep: Packet -> bool)
    returns (all: seq<Packet>, first: seq<Packet>)
    ensures all == Survivors(a + b, keep) && first == Survivors(a, keep)
    ensures all == first + Survivors(b, keep)
    decreases |a|
  {
    all, first := Survivors(a + b, keep), Survivors(a, keep);
    if a == [] {
      assert a + b == b;
    } else {
      var p, rest := a[0], a[1..];
      assert a == [p] + rest && a + b == [p] + (rest + b);
      SurvivorsStep(p, rest, keep);
      SurvivorsStep(p, rest + b, keep);
      var all1, first1 := SurvivorsAppend(rest, b, keep);
      PrependAssoc(p, first1, Survivors(b, keep));
    }
  }

  /** What has come out so far stays what it is when more packets arrive. */
  lemma {:induction false} OutputsGrow(slots: seq<Slot>, a: seq<Packet>, b: seq<Packet>, nowMs: nat)
    requires SlotsOk(slots)
    ensures Outputs(slots, a, nowMs) <= Outputs(slots, a + b, nowMs)
    decreases |a|
  {
    if a != [] {
      var rest := a[1..];
      assert (a + b)[0] == a[0] && (a + b)[1..] == rest + b;
      var (s1, out) := Add(slots, a[0], nowMs);
      OutputsGrow(s1, rest, b, nowMs);
      assert Outputs(slots, a, nowMs) == AsSeq(out) + Outputs(s1, rest, nowMs);
      assert Outputs(slots, a + b, nowMs) == AsSeq(out) + Outputs(s1, rest + b, nowMs);
    }
  }

  lemma {:induction false} WholeOnesAre(id: NodeId, l: seq<Queued>, keep: Packet -> bool)
    ensures Subsequence(WholeOnes(id, l, keep), Recs(l)) && |Recs(l)| == |l|
    ensures (forall p :: keep(p)) ==> WholeOnes(id, l, keep) == Recs(l)
    decreases |l|
  {
    if l != [] {
      WholeOnesAre(id, l[1..], keep);
      var rest := WholeOnes(id, l[1..], keep);
      assert Recs(l)[1..] == Recs(l[1..]);
      if Whole(keep, id, l[0].number, l[0].rec) {
        assert WholeOnes(id, l, keep) == [l[0].rec] + rest && WholeOnes(id, l, keep)[1..] == rest;
      } else {
        assert WholeOnes(id, l, keep) == rest;
      }
    }
  }

  lemma {:induction false} TakenFit(id: NodeId, es: seq<QueueEvent>, x: Queued)
    requires AllFit(Offers(es)) && x in SendRun(id, es).taken
    ensures 1 <= |x.rec| <= REASM_MAX
    decreases |es|
  {
    var init, e := es[..|es| - 1], es[|es| - 1];
    if x in SendRun(id, init).taken {
      TakenFit(id, init, x);
    } else {
      assert e.Offer? && x.rec == e.rec;
      assert e.rec in Offers(es);
    }
  }

  /**
   * A node's queue and the link behind it: whatever is refused for want of room, whenever packets are
   * transmitted, and whichever of them are lost, what has come out is a beginning of the records taken in
   * of which nothing was lost, and all of them once the queue is empty.
   */
  lemma QueueAndLink(es: seq<QueueEvent>, slots: seq<Slot>, id: NodeId, keep: Packet -> bool, nowMs: nat)
    requires AllFit(Offers(es)) && |Offers(es)| <= 0xFFFF && Idle(slots, id)
    ensures var s := SendRun(id, es);
            var out := ComesOut(slots, s.sent, keep, nowMs);
            && Subsequence(Recs(s.taken), Offers(es))
            && out <= WholeOnes(id, s.taken, keep)
            && (s.box.queue == [] ==> out == WholeOnes(id, s.taken, keep))
  {
    var s := SendRun(id, es);
    SendKeeps(id, es);
    forall x | x in s.taken ensures 1 <= |x.rec| <= REASM_MAX {
      TakenFit(id, es, x);
    }
    LossyLink(slots, id, s.taken, keep, nowMs);
    var all, first := SurvivorsAppend(s.sent, s.box.queue, keep);
    OutputsGrow(slots, Survivors(s.sent, keep), Survivors(s.box.queue, keep), nowMs);
    assert s.box.queue == [] ==> s.sent + s.box.queue == s.sent;
  }

  /** Captured records fit a reassembly buffer. */
  lemma DrainedFit(events: seq<PcapCapture.Event>)
    requires forall i :: 0 <= i < |events| && events[i].Captured? ==> PcapCapture.IsRecord(events[i].rec)
    ensures AllFit(Concat(PcapCapture.RunTrace(events).blockRecs))
  {
    var parts := PcapCapture.RunTrace(events).blockRecs;
    PcapCapture.CaptureFifo(events);
    var t := PcapCapture.RunTrace(events);
    forall r | r in Concat(parts)
      ensures 1 <= |r| <= REASM_MAX
    {
      assert r in t.accepted;
      PcapCapture.AcceptedWereCaptured(events, r);
    }
  }

  /**
   * From the radio to the manager: for every run of captures and drains, the drained blocks split into
   * records that with those still buffered are the accepted ones in order. Offered to the queue, and sent
   * over a link that loses what it likes, what has come out is at every moment a subsequence of them; it is
   * all that was drained if there was room for each, nothing is left in the queue, and nothing was lost.
   */
  lemma CaptureToManager(events: seq<PcapCapture.Event>, es: seq<QueueEvent>, slots: seq<Slot>, id: NodeId,
                         keep: Packet -> bool, nowMs: nat)
    requires forall i :: 0 <= i < |events| && events[i].Captured? ==> PcapCapture.IsRecord(events[i].rec)
    requires Offers(es) == Concat(PcapCapture.RunTrace(events).blockRecs) && |Offers(es)| <= 0xFFFF
    requires Idle(slots, id)
    ensures var t, s := PcapCapture.RunTrace(events), SendRun(id, es);
            var out := ComesOut(slots, s.sent, keep, nowMs);
            && (forall k :: 0 <= k < |t.blocks| ==>
                  k < |t.blockRecs| && PcapCapture.SplitFrom(t.blocks[k], 0) == Some(t.blockRecs[k]))
            && Concat(t.blockRecs) + t.older + t.newer == t.accepted
            && Subsequence(out, Concat(t.blockRecs)) && Subsequence(out, t.accepted)
            && (s.box.queue == [] && RoomForEach(es) && (forall p :: keep(p)) ==> out == Concat(t.blockRecs))
  {
    var t, s := PcapCapture.RunTrace(events), SendRun(id, es);
    DrainedFit(events);
    forall k | 0 <= k < |t.blocks|
      ensures k < |t.blockRecs| && PcapCapture.SplitFrom(t.blocks[k], 0) == Some(t.blockRecs[k])
    {
      PcapCapture.BlocksSplitExactly(events, k);
    }
    PcapCapture.CaptureFifo(events);
    QueueAndLink(es, slots, id, keep, nowMs);
    OutIsSubsequence(es, ComesOut(slots, s.sent, keep, nowMs), id, keep, t.accepted);
    WholeOnesAre(id, s.taken, keep);
    TakenExactly(id, es);
    if RoomForEach(es) { AllSendable(es); }
  }

  /** A beginning of the whole records taken in is a subsequence of those offered, and of any list these begin. */
  lemma OutIsSubsequence(es: seq<QueueEvent>, out: seq<seq<byte>>, id: NodeId, keep: Packet -> bool,
                         accepted: seq<seq<byte>>)
    requires out <= WholeOnes(id, SendRun(id, es).taken, keep)
    requires Subsequence(Recs(SendRun(id, es).taken), Offers(es)) && Offers(es) <= accepted
    ensures Subsequence(out, Offers(es)) && Subsequence(out, accepted)
  {
    var taken := SendRun(id, es).taken;
    PrefixIsSubsequence(out, WholeOnes(id, taken, keep));
    WholeOnesAre(id, taken, keep);
    SubsequenceTrans(out, WholeOnes(id, taken, keep), Recs(taken));
    SubsequenceTrans(out, Recs(taken), Offers(es));
    PrefixIsSubsequence(Offers(es), accepted);
    SubsequenceTrans(out, Offers(es), accepted);
  }

  // ------------------------------------------------------------------
  // Without loss
  // ------------------------------------------------------------------

  /** Records under consecutive numbers, modulo 2^16. */
  function NumberedFrom(q: nat, recs: seq<seq<byte>>): seq<Queued>
    requires AllFit(recs)
    decreases |recs|
  {
    if recs == [] then [] else [Item(q, recs[0])] + NumberedFrom((q + 1) % 0x1_0000, recs[1..])
  }

  predicate Always(p: Packet) { true }

  lemma {:induction false} AllSurvive(ps: seq<Packet>)
    ensures Survivors(ps, Always) == ps
    decreases |ps|
  {
    if ps != [] {
      AllSurvive(ps[1..]);
      assert ps == [ps[0]] + ps[1..];
    }
  }

  lemma FirstThrough(slots: seq<Slot>, id: NodeId, q: nat, rec: seq<byte>, rest: seq<Packet>, nowMs: nat)
    returns (after: seq<Slot>)
    requires 1 <= |rec| <= REASM_MAX && Idle(slots, id)
    ensures Idle(after, id)
    ensures ComesOut(slots, PacketsOf(id, q, rec, 0) + rest, Always, nowMs)
            == [rec] + ComesOut(after, rest, Always, nowMs)
  {
    after := RecordComesOut(slots, id, q, rec, rest, Always, nowMs);
    assert Whole(Always, id, q, rec);
  }

  /** However many are sent without a loss, and though numbers come round again, exactly they come out, in order. */
  lemma {:induction false} RecordsThrough(slots: seq<Slot>, id: NodeId, q: nat, recs: seq<seq<byte>>, nowMs: nat)
    requires AllFit(recs) && Idle(slots, id)
    ensures ComesOut(slots, PacketsOfAll(id, NumberedFrom(q, recs)), Always, nowMs) == recs
    decreases |recs|
  {
    if recs != [] {
      var next, tail := (q + 1) % 0x1_0000, recs[1..];
      var all, rest := NumberedFrom(q, recs), NumberedFrom(next, tail);
      assert all[0] == Item(q, recs[0]) && all[1..] == rest;
      assert PacketsOfAll(id, all) == PacketsOf(id, q, recs[0], 0) + PacketsOfAll(id, rest);
      var after := FirstThrough(slots, id, q, recs[0], PacketsOfAll(id, rest), nowMs);
      RecordsThrough(after, id, next, tail, nowMs);
      assert recs == [recs[0]] + tail;
    }
  }

  /**
   * The buffer for the phone is smaller than a reassembly buffer. Every captured frame survives
   * the mesh, but its record can wait for the phone exactly when the frame is at most 2020 bytes;
   * the capture itself allows 2324.
   */
  lemma LongFramesStopAtTheManager(frame: seq<byte>, us: nat, slots: seq<Slot>, id: NodeId, q: nat, nowMs: nat)
    requires |frame| <= PcapCapture.SNAPLEN && us < 0x1_0000_0000 && Idle(slots, id)
    ensures var rec := PcapCapture.Record(frame, us);
            && AllFit([rec]) && Outputs(slots, PacketsOf(id, q, rec, 0), nowMs) == [rec]
            && ((exists f: PcapPhone.Feed :: PcapPhone.Stash(f, rec).1) <==> |frame| <= 2020)
  {
    var rec := PcapCapture.Record(frame, us);
    assert NumberedFrom(q, [rec]) == [Item(q, rec)];
    RecordsThrough(slots, id, q, [rec], nowMs);
    assert PacketsOfAll(id, [Item(q, rec)]) == PacketsOf(id, q, rec, 0) + [] == PacketsOf(id, q, rec, 0);
    AllSurvive(PacketsOf(id, q, rec, 0));
    if |frame| <= 2020 {
      assert PcapPhone.Stash(PcapPhone.Feed([], false, 0, 0), rec).1;
    }
  }
}
