/**
 * The sending side of the fleet OTA byte relay: the table of nodes heard from,
 * and the firmware job that announces, streams and resends one staged image.
 */
module OtaManager {
  import opened Bytes
  import opened OtaNode
  import opened OtaRelay

  type NodeId = string

  const NODES_MAX := 16
  const ANNOUNCEMENTS := 5
  const END_REPEATS := 3

  datatype Prog = Unseen | Seen(id: NodeId, status: Status, recv: nat, next: nat)

  /** Index of the entry for `id`, else of the first free entry, else the table's length. */
  function FindSeen(t: seq<Prog>, id: NodeId, from: nat): (i: nat)
    requires from <= |t|
    ensures from <= i <= |t|
    ensures i < |t| ==> t[i].Seen? && t[i].id == id
    ensures forall k :: from <= k < i ==> !(t[k].Seen? && t[k].id == id)
    decreases |t| - from
  {
    if from == |t| || (t[from].Seen? && t[from].id == id) then from else FindSeen(t, id, from + 1)
  }

  function FindFree(t: seq<Prog>, from: nat): (i: nat)
    requires from <= |t|
    ensures from <= i <= |t|
    ensures i < |t| ==> t[i].Unseen?
    ensures forall k :: from <= k < i ==> t[k].Seen?
    decreases |t| - from
  {
    if from == |t| || t[from].Unseen? then from else FindFree(t, from + 1)
  }

  function SlotFor(t: seq<Prog>, id: NodeId): (i: nat)
    ensures i <= |t|
  {
    var i := FindSeen(t, id, 0);
    if i < |t| then i else FindFree(t, 0)
  }

  /** The newest ack heard replaces what was recorded for its node; a full table ignores new nodes. */
  function Record(t: seq<Prog>, id: NodeId, a: Ack): (r: seq<Prog>)
    ensures |r| == |t|
  {
    var i := SlotFor(t, id);
    if i == |t| then t else t[i := Seen(id, a.status, a.recv, a.next)]
  }

  predicate Pending(p: Prog) {
    p.Seen? && p.status != Done
  }

  /** Where the next round resumes: the smallest gap any pending node reported, or the end if none did. */
  function MinNext(t: seq<Prog>, k: nat, chunks: nat): (m: nat)
    requires k <= |t|
    ensures m <= chunks
    ensures forall i :: 0 <= i < k && Pending(t[i]) ==> m <= t[i].next
    ensures m == chunks || exists i :: 0 <= i < k && Pending(t[i]) && t[i].next == m
  {
    if k == 0 then chunks
    else
      var m := MinNext(t, k - 1, chunks);
      if Pending(t[k - 1]) && t[k - 1].next < m then t[k - 1].next else m
  }

  function Marked(t: seq<Prog>, k: nat, doneOnly: bool): (c: nat)
    requires k <= |t|
    ensures c <= k
  {
    if k == 0 then 0
    else Marked(t, k - 1, doneOnly) + if t[k - 1].Seen? && (doneOnly ==> t[k - 1].status == Done) then 1 else 0
  }

  /** The DATA packets of chunks `from`.. in order. */
  function DataFrom(image: Image, from: nat): (r: seq<Packet>)
    requires from <= ChunkCount(|image|)
    ensures |r| == ChunkCount(|image|) - from
    ensures forall i :: from <= i < ChunkCount(|image|) ==>
              i * CHUNK <= |image| && r[i - from] == Data(i, Chunk(image, i))
    decreases ChunkCount(|image|) - from
  {
    AcceptedExactlyWhenItFits(|image|);
    if from == ChunkCount(|image|) then []
    else [Data(from, Chunk(image, from))] + DataFrom(image, from + 1)
  }

  class Initiator {
    const image: Image
    const nodes: array<Prog>
    var chunks: nat
    /** Every packet handed to the radio, in order. */
    var sent: seq<Packet>

    ghost predicate Valid()
      reads this
    {
      nodes.Length == NODES_MAX && chunks == ChunkCount(|image|)
    }

    constructor (image: Image)
      ensures Valid() && fresh(nodes) && this.image == image && sent == []
      ensures forall i :: 0 <= i < NODES_MAX ==> nodes[i] == Unseen
    {
      this.image := image;
      nodes := new Prog[NODES_MAX](_ => Unseen);
      chunks := ChunkCount(|image|);
      sent := [];
    }

    method Slot(id: NodeId) returns (i: nat)
      requires Valid()
      ensures i == SlotFor(nodes[..], id)
    {
      ghost var t := nodes[..];
      i := 0;
      while i < nodes.Length
        invariant i <= nodes.Length && FindSeen(t, id, 0) == FindSeen(t, id, i)
      {
        if nodes[i].Seen? && nodes[i].id == id { return; }
        i := i + 1;
      }
      i := 0;
      while i < nodes.Length
        invariant i <= nodes.Length && FindFree(t, 0) == FindFree(t, i)
      {
        if nodes[i].Unseen? { return; }
        i := i + 1;
      }
    }

    method OnAck(id: NodeId, a: Ack)
      requires Valid()
      modifies nodes
      ensures nodes[..] == Record(old(nodes[..]), id, a)
    {
      var i := Slot(id);
      if i < nodes.Length {
        nodes[i] := Seen(id, a.status, a.recv, a.next);
      }
    }

    method SendChunk(index: nat)
      requires Valid() && index < chunks
      modifies this`sent
      ensures index * CHUNK <= |image| && sent == old(sent) + [Data(index, Chunk(image, index))]
    {
      AcceptedExactlyWhenItFits(|image|);
      var off := index * CHUNK;
      var remain := |image| - off;
      var n := if remain >= CHUNK then CHUNK else remain;
      sent := sent + [Data(index, image[off..off + n])];
    }

    method Stream(from: nat)
      requires Valid() && from <= chunks
      modifies this`sent
      ensures sent == old(sent) + DataFrom(image, from)
    {
      var i := from;
      while i < chunks
        invariant from <= i <= chunks
        invariant sent + DataFrom(image, i) == old(sent) + DataFrom(image, from)
      {
        ghost var before := sent;
        SendChunk(i);
        assert before + DataFrom(image, i) == sent + DataFrom(image, i + 1);
        i := i + 1;
      }
    }

    /** Announce the image and stream it once. */
    method Announce()
      requires Valid()
      modifies this`sent
      ensures sent == old(sent) + Repeat(Begin(|image|, ChunkCount(|image|)), ANNOUNCEMENTS) + DataFrom(image, 0)
    {
      var b := Begin(|image|, chunks);
      var i := 0;
      while i < ANNOUNCEMENTS
        invariant i <= ANNOUNCEMENTS && sent == old(sent) + Repeat(b, i)
      {
        sent := sent + [b];
        i := i + 1;
        assert Repeat(b, i) == Repeat(b, i - 1) + [b];
      }
      Stream(0);
    }

    /** What that job reads out of the table between two rounds. */
    method Scan() returns (minNext: nat, anyPending: bool, doneN: nat, seenN: nat)
      requires Valid()
      ensures minNext == MinNext(nodes[..], NODES_MAX, chunks)
      ensures anyPending == exists i :: 0 <= i < NODES_MAX && Pending(nodes[i])
      ensures seenN == Marked(nodes[..], NODES_MAX, false)
      ensures doneN == Marked(nodes[..], NODES_MAX, true)
    {
      minNext, anyPending, doneN, seenN := chunks, false, 0, 0;
      var i := 0;
      while i < nodes.Length
        invariant i <= nodes.Length
        invariant minNext == MinNext(nodes[..], i, chunks)
        invariant anyPending == exists k :: 0 <= k < i && Pending(nodes[k])
        invariant seenN == Marked(nodes[..], i, false) && doneN == Marked(nodes[..], i, true)
      {
        if nodes[i].Seen? {
          seenN := seenN + 1;
          if nodes[i].status == Done {
            doneN := doneN + 1;
          } else {
            anyPending := true;
            if nodes[i].next < minNext { minNext := nodes[i].next; }
          }
        }
        i := i + 1;
      }
    }

    /** One round: END three times, the acks that arrive meanwhile, then a resend from the smallest gap. */
    method Round(acks: seq<(NodeId, Ack)>) returns (finished: bool)
      requires Valid()
      modifies this`sent, nodes
      ensures Valid() && nodes[..] == RecordAll(old(nodes[..]), acks)
      ensures finished <==> forall i :: 0 <= i < NODES_MAX ==> !Pending(nodes[i])
      ensures sent == old(sent) + Repeat(End, END_REPEATS)
                      + if finished then [] else DataFrom(image, MinNext(nodes[..], NODES_MAX, chunks))
    {
      var i := 0;
      while i < END_REPEATS
        invariant i <= END_REPEATS && sent == old(sent) + Repeat(End, i) && nodes[..] == old(nodes[..])
      {
        sent := sent + [End];
        i := i + 1;
        assert Repeat(End, i) == Repeat(End, i - 1) + [End];
      }
      i := 0;
      assert acks[0..] == acks;
      while i < |acks|
        invariant i <= |acks| && RecordAll(nodes[..], acks[i..]) == RecordAll(old(nodes[..]), acks)
        invariant sent == old(sent) + Repeat(End, END_REPEATS)
      {
        OnAck(acks[i].0, acks[i].1);
        assert acks[i..][1..] == acks[i + 1..];
        i := i + 1;
      }
      var minNext, anyPending, doneN, seenN := Scan();
      finished := !anyPending;
      if anyPending {
        Stream(minNext);
      }
    }
  }

  function RecordAll(t: seq<Prog>, acks: seq<(NodeId, Ack)>): seq<Prog>
    decreases |acks|
  {
    if acks == [] then t else RecordAll(Record(t, acks[0].0, acks[0].1), acks[1..])
  }

  /** Nothing but genuine packets of the image ever leaves the manager. */
  lemma StreamIsGenuine(image: Image, from: nat)
    requires from <= ChunkCount(|image|)
    ensures forall p :: p in DataFrom(image, from) ==> Genuine(image, p)
    ensures Genuine(image, Begin(|image|, ChunkCount(|image|))) && Genuine(image, End)
  {
    var d := DataFrom(image, from);
    forall p | p in d
      ensures Genuine(image, p)
    {
      var k :| 0 <= k < |d| && d[k] == p;
      var i := from + k;
      assert d[i - from] == Data(i, Chunk(image, i));
    }
  }

  predicate Marks(p: Prog, doneOnly: bool) { p.Seen? && (doneOnly ==> p.status == Done) }

  /** The entries of nodes heard from, or only of those that are done, among the first `k`. */
  ghost function MarkedSet(t: seq<Prog>, k: nat, doneOnly: bool): set<nat>
    requires k <= |t|
  {
    set i: nat | i < k && Marks(t[i], doneOnly)
  }

  lemma OneMoreMarked(t: seq<Prog>, k: nat, doneOnly: bool)
    requires k < |t|
    ensures |MarkedSet(t, k + 1, doneOnly)| == |MarkedSet(t, k, doneOnly)| + if Marks(t[k], doneOnly) then 1 else 0
  {
    var before, all := MarkedSet(t, k, doneOnly), MarkedSet(t, k + 1, doneOnly);
    if Marks(t[k], doneOnly) {
      assert all == before + {k};
    } else {
      assert all == before;
    }
  }

  /** That is what the two counts of a round count. */
  lemma {:induction false} MarkedIsCount(t: seq<Prog>, k: nat, doneOnly: bool)
    requires k <= |t|
    ensures Marked(t, k, doneOnly) == |MarkedSet(t, k, doneOnly)|
  {
    if k > 0 {
      MarkedIsCount(t, k - 1, doneOnly);
      OneMoreMarked(t, k - 1, doneOnly);
    }
  }
}
