/** The manager's reassembly slots, in place. */
module PcapManager {
  import opened Bytes
  import opened PcapFragments

  // ------------------------------------------------------------------
  // The reassembly slots, in place
  // ------------------------------------------------------------------

  class ReasmSlot {
    var inUse: bool
    var src: NodeId
    var seqNo: nat
    var lastMs: nat
    var got: seq<bool>
    var highest: nat
    var lastSeen: bool
    var total: nat
    const buf: array<byte>

    ghost predicate Valid()
      reads this, buf
    {
      buf.Length == REASM_MAX && |got| == MAX_FRAGS && highest < MAX_FRAGS && total <= REASM_MAX
    }

    ghost function Abs(): (s: Slot)
      reads this, buf
    {
      Slot(inUse, src, seqNo, lastMs, got, highest, lastSeen, total, buf[..])
    }

    constructor ()
      ensures Valid() && fresh(buf) && !inUse
    {
      inUse, src, seqNo, lastMs, got, highest, lastSeen, total := false, "", 0, 0, NoFrags(), 0, false, 0;
      buf := new byte[REASM_MAX];
    }

    method ClaimFor(id: NodeId, q: nat, nowMs: nat)
      requires Valid()
      modifies this
      ensures Valid() && Abs() == Claim(old(Abs()), id, q, nowMs)
    {
      if !inUse || src != id || seqNo != q {
        inUse, src, seqNo, got, highest, lastSeen, total := true, id, q, NoFrags(), 0, false, 0;
      }
      lastMs := nowMs;
    }

    method Store(idx: nat, isLast: bool, data: seq<byte>)
      requires Valid() && idx < MAX_FRAGS && idx * FRAG + |data| <= REASM_MAX
      modifies this, buf
      ensures Valid() && Abs() == Put(old(Abs()), idx, isLast, data)
    {
      var off := idx * FRAG;
      forall k | 0 <= k < |data| { buf[off + k] := data[k]; }
      assert buf[..] == Overwrite(old(buf[..]), off, data);
      got := got[idx := true];
      if idx >= highest {
        highest := idx;
        total := off + |data|;
      }
      if isLast { lastSeen := true; }
    }

    method AcceptFragment(id: NodeId, q: nat, idx: nat, isLast: bool, data: seq<byte>, nowMs: nat)
      returns (out: Option<seq<byte>>)
      requires Valid() && idx < MAX_FRAGS
      modifies this, buf
      ensures Valid() && (Abs(), out) == Accept(old(Abs()), id, q, idx, isLast, data, nowMs)
    {
      ClaimFor(id, q, nowMs);
      if idx * FRAG + |data| > REASM_MAX {
        inUse := false;
        return None;
      }
      Store(idx, isLast, data);
      out := None;
      if lastSeen {
        var full := AllGot(highest + 1);
        if full {
          out := Some(buf[..total]);
          inUse := false;
        }
      }
    }

    method AllGot(n: nat) returns (all: bool)
      requires Valid() && n <= MAX_FRAGS
      ensures all <==> forall i :: 0 <= i < n ==> got[i]
    {
      var i := 0;
      while i < n
        invariant i <= n && forall k :: 0 <= k < i ==> got[k]
      {
        if !got[i] { return false; }
        i := i + 1;
      }
      all := true;
    }
  }

  class Reassembler {
    const slots: seq<ReasmSlot>

    ghost function Repr(): set<object> {
      (set i | 0 <= i < |slots| :: slots[i] as object) + (set i | 0 <= i < |slots| :: slots[i].buf as object)
    }

    ghost predicate Valid()
      reads Repr()
    {
      && |slots| == SLOTS
      && (forall i :: 0 <= i < SLOTS ==> slots[i].Valid())
      && (forall i, j :: 0 <= i < j < SLOTS ==> slots[i] != slots[j] && slots[i].buf != slots[j].buf)
    }

    ghost function Abs(): (r: seq<Slot>)
      reads Repr()
    {
      seq(|slots|, i requires 0 <= i < |slots| reads Repr() => slots[i].Abs())
    }

    constructor ()
      ensures Valid() && fresh(Repr())
      ensures forall i :: 0 <= i < SLOTS ==> !slots[i].inUse
    {
      var a := new ReasmSlot(); var b := new ReasmSlot(); var c := new ReasmSlot(); var d := new ReasmSlot();
      slots := [a, b, c, d];
    }

    /** Search order: own slot first, else the first free one, else the one used least recently. */
    method FindSlot(id: NodeId) returns (slot: nat)
      requires Valid()
      ensures slot == Pick(Abs(), id)
    {
      var i, free, oldest := 0, SLOTS, 0;
      while i < SLOTS
        invariant i <= SLOTS && FindOwn(Abs(), id, 0) == FindOwn(Abs(), id, i)
        invariant free == SLOTS ==> FindFree(Abs(), 0) == FindFree(Abs(), i)
        invariant free < SLOTS ==> free == FindFree(Abs(), 0)
        invariant oldest < SLOTS && (i > 0 ==> oldest == FindOldest(Abs(), i))
        invariant free <= SLOTS
      {
        if slots[i].inUse && slots[i].src == id { return i; }
        if !slots[i].inUse && free == SLOTS { free := i; }
        if i == 0 || slots[i].lastMs < slots[oldest].lastMs { oldest := i; }
        i := i + 1;
      }
      slot := if free < SLOTS then free else oldest;
    }

    /** Nothing is taken unless capture is wanted: commanded, or in the time of an automatic capture. */
    method AddFragment(pkt: Packet, nowMs: nat, capturing: bool) returns (out: Option<seq<byte>>)
      requires Valid()
      modifies Repr()
      ensures Valid() && (Abs(), out) == if capturing then Add(old(Abs()), pkt, nowMs) else (old(Abs()), None)
    {
      if |pkt.payload| < 1 { return None; }
      if !capturing { return None; }
      var hdr := pkt.payload[0];
      var idx := hdr % 0x80;
      if idx >= MAX_FRAGS { return None; }
      var i := FindSlot(pkt.src);
      out := slots[i].AcceptFragment(pkt.src, pkt.seqNo, idx, hdr >= 0x80, pkt.payload[1..], nowMs);
      forall j | 0 <= j < SLOTS && j != i
        ensures slots[j].Valid() && slots[j].Abs() == old(Abs())[j]
      {
      }
      assert Abs() == old(Abs())[i := slots[i].Abs()];
    }
  }
}
