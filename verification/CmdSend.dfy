/**
 * The manager's side of a mesh command: a table of sixteen pending commands,
 * retransmitted until enough nodes acknowledge or the retries are used up.
 */
module CmdSend {
  import opened Bytes
  import opened CmdReceive

  const PENDING := 16
  const RETRY_MS := 300

  /** A slot; `id` numbers the commands ever issued, of which the radio carries the low byte. */
  datatype Pend = Pend(inUse: bool, id: nat, cmd: Cmd, lastSend: nat, left: nat, acks: nat, expected: nat)

  datatype Tx = Tx(id: nat, cmd: Cmd)

  datatype Issued = Issued(cmd: Cmd, cap: nat)

  /** The table, every command issued so far with its retry limit, and every transmission. */
  datatype Sender = Sender(slots: seq<Pend>, issued: seq<Issued>, sent: seq<Tx>)

  /** The sequence byte of a command: a counter incremented before each use. */
  function Wire(id: nat): byte { (id + 1) % 256 }

  /** Enable, disable and disable-all are never retried. */
  function Cap(command: byte, maxRetries: nat): nat {
    if command == 0x00 || command == 0x01 || command == 0x0F then 0 else maxRetries
  }

  /** A payload too long for the packet is dropped whole. */
  function Carried(cmd: Cmd): Cmd {
    if |cmd.payload| <= PAYLOAD_MAX then cmd else cmd.(payload := [])
  }

  function FirstFree(slots: seq<Pend>, i: nat): (r: nat)
    requires i <= |slots|
    ensures i <= r <= |slots| && (r < |slots| ==> !slots[r].inUse)
    ensures forall k :: i <= k < r ==> slots[k].inUse
    decreases |slots| - i
  {
    if i == |slots| || !slots[i].inUse then i else FirstFree(slots, i + 1)
  }

  /** A full table forgets every command it holds. */
  function Flushed(slots: seq<Pend>): (r: seq<Pend>)
    ensures |r| == |slots|
    ensures forall i :: 0 <= i < |slots| ==> r[i] == slots[i].(inUse := false)
  {
    seq(|slots|, i requires 0 <= i < |slots| => slots[i].(inUse := false))
  }

  predicate WellFormed(s: Sender) { |s.slots| == PENDING }

  function Broadcast(s: Sender, cmd: Cmd, maxRetries: nat, now: nat, reachable: nat): (r: Sender)
    requires WellFormed(s)
    ensures WellFormed(r)
  {
    var id, cap, c := |s.issued|, Cap(cmd.command, maxRetries), Carried(cmd);
    var free := FirstFree(s.slots, 0);
    var slots := if free < PENDING then s.slots else Flushed(s.slots);
    var slot := if free < PENDING then free else 0;
    Sender(slots[slot := Pend(true, id, c, now, cap, 0, if reachable == 0 then 1 else reachable)],
           s.issued + [Issued(c, cap)], s.sent + [Tx(id, c)])
  }

  function FirstAcked(slots: seq<Pend>, seqNo: byte, i: nat): (r: nat)
    requires i <= |slots|
    ensures i <= r <= |slots| && (r < |slots| ==> slots[r].inUse && Wire(slots[r].id) == seqNo)
    decreases |slots| - i
  {
    if i == |slots| || (slots[i].inUse && Wire(slots[i].id) == seqNo) then i else FirstAcked(slots, seqNo, i + 1)
  }

  function CountAck(p: Pend): Pend {
    p.(acks := p.acks + 1, inUse := p.acks + 1 < p.expected)
  }

  function Acked(s: Sender, seqNo: byte): (r: Sender)
    requires WellFormed(s)
    ensures WellFormed(r)
  {
    var i := FirstAcked(s.slots, seqNo, 0);
    if i < PENDING then s.(slots := s.slots[i := CountAck(s.slots[i])]) else s
  }

  /** The retry task's look at one slot. */
  function Retry(s: Sender, i: nat, now: nat): (r: Sender)
    requires WellFormed(s) && i < PENDING
    ensures WellFormed(r)
  {
    var p := s.slots[i];
    if !p.inUse || Elapsed(now, p.lastSend) < RETRY_MS then s
    else if p.left == 0 then s.(slots := s.slots[i := p.(inUse := false)])
    else s.(slots := s.slots[i := p.(left := p.left - 1, lastSend := now)], sent := s.sent + [Tx(p.id, p.cmd)])
  }

  function RetryAll(s: Sender, i: nat, now: nat): Sender
    requires WellFormed(s) && i <= PENDING
    decreases PENDING - i
  {
    if i == PENDING then s else RetryAll(Retry(s, i, now), i + 1, now)
  }

  // ------------------------------------------------------------------
  // The table as the firmware keeps it
  // ------------------------------------------------------------------

  class CommandTable {
    const slots: array<Pend>
    var count: nat
    ghost var issued: seq<Issued>
    ghost var sent: seq<Tx>

    ghost predicate Valid()
      reads this
    {
      slots.Length == PENDING && count == |issued|
    }

    ghost function Abs(): Sender
      reads this, slots
    {
      Sender(slots[..], issued, sent)
    }

    constructor ()
      ensures Valid() && fresh(slots)
      ensures issued == [] && sent == [] && forall i :: 0 <= i < PENDING ==> !slots[i].inUse
    {
      slots := new Pend[PENDING](_ => Pend(false, 0, Cmd(0, 0, []), 0, 0, 0, 0));
      count, issued, sent := 0, [], [];
    }

    method FindFree() returns (free: nat)
      requires Valid()
      ensures free == FirstFree(slots[..], 0)
    {
      free := 0;
      while free < PENDING && slots[free].inUse
        invariant free <= PENDING && FirstFree(slots[..], 0) == FirstFree(slots[..], free)
      {
        free := free + 1;
      }
    }

    method Clear()
      requires Valid()
      modifies slots
      ensures slots[..] == Flushed(old(slots[..]))
    {
      for i := 0 to PENDING
        invariant forall k :: 0 <= k < i ==> slots[k] == old(slots[k]).(inUse := false)
        invariant forall k :: i <= k < PENDING ==> slots[k] == old(slots[k])
      {
        slots[i] := slots[i].(inUse := false);
      }
    }

    method Send(cmd: Cmd, maxRetries: nat, now: nat, reachable: nat) returns (tx: Tx)
      requires Valid()
      modifies this, slots
      ensures Valid() && Abs() == Broadcast(old(Abs()), cmd, maxRetries, now, reachable)
      ensures sent == old(sent) + [tx]
    {
      var retries := if cmd.command == 0x00 || cmd.command == 0x01 || cmd.command == 0x0F then 0 else maxRetries;
      var slot := FindFree();
      if slot == PENDING {
        Clear();
        slot := 0;
      }
      var c := if |cmd.payload| <= PAYLOAD_MAX then cmd else cmd.(payload := []);
      slots[slot] := Pend(true, count, c, now, retries, 0, if reachable == 0 then 1 else reachable);
      tx := Tx(count, c);
      count := count + 1;
      issued, sent := issued + [Issued(c, retries)], sent + [tx];
    }

    method Ack(seqNo: byte)
      requires Valid()
      modifies slots
      ensures Valid() && Abs() == Acked(old(Abs()), seqNo)
    {
      var i := 0;
      while i < PENDING && !(slots[i].inUse && Wire(slots[i].id) == seqNo)
        invariant 0 <= i <= PENDING && FirstAcked(slots[..], seqNo, 0) == FirstAcked(slots[..], seqNo, i)
      {
        i := i + 1;
      }
      if i < PENDING {
        var p := slots[i];
        slots[i] := p.(acks := p.acks + 1);
        if p.acks + 1 >= p.expected { slots[i] := slots[i].(inUse := false); }
      }
    }

    method RetryPass(now: nat) returns (txs: seq<Tx>)
      requires Valid()
      modifies this, slots
      ensures Valid() && Abs() == RetryAll(old(Abs()), 0, now) && sent == old(sent) + txs
    {
      txs := [];
      for i := 0 to PENDING
        invariant Valid() && RetryAll(Abs(), i, now) == RetryAll(old(Abs()), 0, now) && sent == old(sent) + txs
      {
        var p := slots[i];
        if p.inUse && Elapsed(now, p.lastSend) >= RETRY_MS {
          if p.left == 0 {
            slots[i] := p.(inUse := false);
          } else {
            slots[i] := p.(left := p.left - 1, lastSend := now);
            var tx := Tx(p.id, p.cmd);
            txs, sent := txs + [tx], sent + [tx];
          }
        }
      }
    }
  }

  // ------------------------------------------------------------------
  // How often a command is transmitted
  // ------------------------------------------------------------------

  function Copies(sent: seq<Tx>, id: nat): nat {
    if sent == [] then 0 else Copies(sent[..|sent| - 1], id) + if sent[|sent| - 1].id == id then 1 else 0
  }

  lemma CopiesSnoc(sent: seq<Tx>, tx: Tx, id: nat)
    ensures Copies(sent + [tx], id) == Copies(sent, id) + if tx.id == id then 1 else 0
  {
    assert (sent + [tx])[..|sent|] == sent;
  }

  /**
   * Every command has gone out at least once and at most once more than its limit; a slot in use knows how
   * often it still may.
   */
  ghost predicate Inv(s: Sender) {
    && WellFormed(s)
    && (forall i :: 0 <= i < PENDING && s.slots[i].inUse ==> SlotFits(s, i))
    && (forall i, j :: 0 <= i < j < PENDING && s.slots[i].inUse && s.slots[j].inUse ==> s.slots[i].id != s.slots[j].id)
    && (forall tx :: tx in s.sent ==> tx.id < |s.issued| && tx.cmd == s.issued[tx.id].cmd)
    && (forall id :: 0 <= id < |s.issued| ==> 1 <= Copies(s.sent, id) <= 1 + s.issued[id].cap)
    && (forall id :: |s.issued| <= id ==> Copies(s.sent, id) == 0)
  }

  ghost predicate SlotFits(s: Sender, i: nat)
    requires i < |s.slots|
  {
    var p := s.slots[i];
    p.id < |s.issued| && p.cmd == s.issued[p.id].cmd && Copies(s.sent, p.id) + p.left == 1 + s.issued[p.id].cap
  }

  lemma BroadcastKeeps(s: Sender, cmd: Cmd, maxRetries: nat, now: nat, reachable: nat)
    requires Inv(s)
    ensures Inv(Broadcast(s, cmd, maxRetries, now, reachable))
  {
    var r := Broadcast(s, cmd, maxRetries, now, reachable);
    var id := |s.issued|;
    forall k: nat ensures Copies(r.sent, k) == Copies(s.sent, k) + if k == id then 1 else 0 {
      CopiesSnoc(s.sent, Tx(id, Carried(cmd)), k);
    }
    forall i | 0 <= i < PENDING && r.slots[i].inUse ensures SlotFits(r, i) {
      assert s.slots[i].inUse && r.slots[i] == s.slots[i] ==> SlotFits(s, i);
    }
  }

  /** A slot whose retry is used up is given up. */
  lemma GiveUpKeeps(s: Sender, i: nat)
    requires Inv(s) && i < PENDING
    ensures Inv(s.(slots := s.slots[i := s.slots[i].(inUse := false)]))
  {
    var r := s.(slots := s.slots[i := s.slots[i].(inUse := false)]);
    forall j | 0 <= j < PENDING && r.slots[j].inUse ensures SlotFits(r, j) {
      assert SlotFits(s, j);
    }
  }

  /** A slot in use that has a retry left spends it on one more transmission. */
  lemma ResendKeeps(s: Sender, i: nat, now: nat)
    requires Inv(s) && i < PENDING && s.slots[i].inUse && s.slots[i].left > 0
    ensures var p := s.slots[i];
            Inv(s.(slots := s.slots[i := p.(left := p.left - 1, lastSend := now)], sent := s.sent + [Tx(p.id, p.cmd)]))
  {
    var p := s.slots[i];
    var r := s.(slots := s.slots[i := p.(left := p.left - 1, lastSend := now)], sent := s.sent + [Tx(p.id, p.cmd)]);
    assert SlotFits(s, i);
    forall k: nat ensures Copies(r.sent, k) == Copies(s.sent, k) + if k == p.id then 1 else 0 {
      CopiesSnoc(s.sent, Tx(p.id, p.cmd), k);
    }
    forall j | 0 <= j < PENDING && r.slots[j].inUse ensures SlotFits(r, j) {
      assert j != i ==> SlotFits(s, j);
    }
  }

  lemma RetryKeeps(s: Sender, i: nat, now: nat)
    requires Inv(s) && i < PENDING
    ensures Inv(Retry(s, i, now))
  {
    var p := s.slots[i];
    if p.inUse && Elapsed(now, p.lastSend) >= RETRY_MS {
      if p.left == 0 { GiveUpKeeps(s, i); } else { ResendKeeps(s, i, now); }
    }
  }

  lemma AckKeeps(s: Sender, seqNo: byte)
    requires Inv(s)
    ensures Inv(Acked(s, seqNo))
  {
    var r := Acked(s, seqNo);
    forall j | 0 <= j < PENDING && r.slots[j].inUse ensures SlotFits(r, j) {
      assert SlotFits(s, j);
    }
  }

  datatype Event =
    | EBroadcast(cmd: Cmd, maxRetries: nat, now: nat, reachable: nat)
    | EAck(seqNo: byte)
    | ERetry(slot: nat, at: nat)

  function Step(s: Sender, e: Event): (r: Sender)
    requires WellFormed(s)
    ensures WellFormed(r)
  {
    match e
    case EBroadcast(cmd, maxRetries, now, reachable) => Broadcast(s, cmd, maxRetries, now, reachable)
    case EAck(seqNo) => Acked(s, seqNo)
    case ERetry(slot, at) => if slot < PENDING then Retry(s, slot, at) else s
  }

  function Run(s: Sender, es: seq<Event>): (r: Sender)
    requires WellFormed(s)
    ensures WellFormed(r)
  {
    if es == [] then s else Step(Run(s, es[..|es| - 1]), es[|es| - 1])
  }

  function Boot(): (s: Sender)
    ensures WellFormed(s) && Inv(s)
  {
    Sender(seq(PENDING, _ => Pend(false, 0, Cmd(0, 0, []), 0, 0, 0, 0)), [], [])
  }

  lemma {:induction false} RunKeeps(s: Sender, es: seq<Event>)
    requires Inv(s)
    ensures Inv(Run(s, es))
  {
    if es != [] {
      var p, e := Run(s, es[..|es| - 1]), es[|es| - 1];
      RunKeeps(s, es[..|es| - 1]);
      match e
      case EBroadcast(cmd, maxRetries, now, reachable) => BroadcastKeeps(p, cmd, maxRetries, now, reachable);
      case EAck(seqNo) => AckKeeps(p, seqNo);
      case ERetry(slot, at) => if slot < PENDING { RetryKeeps(p, slot, at); }
    }
  }

  /**
   * In every run, with acknowledgements of any kind and order, the command issued as number `id` is
   * transmitted at least once, at most once plus its retries, exactly once if it is never retried,
   * and every copy carries the command as issued.
   */
  lemma TransmittedWithinLimit(es: seq<Event>, id: nat)
    requires id < |Run(Boot(), es).issued|
    ensures var s := Run(Boot(), es);
            && 1 <= Copies(s.sent, id) <= 1 + s.issued[id].cap
            && (s.issued[id].cmd.command in {0x00, 0x01, 0x0F} ==> Copies(s.sent, id) == 1)
            && (forall tx :: tx in s.sent && tx.id == id ==> tx.cmd == s.issued[id].cmd)
  {
    RunKeeps(Boot(), es);
    CapsHold(es, id);
  }

  lemma {:induction false} CapsHold(es: seq<Event>, id: nat)
    requires id < |Run(Boot(), es).issued|
    ensures Run(Boot(), es).issued[id].cmd.command in {0x00, 0x01, 0x0F} ==> Run(Boot(), es).issued[id].cap == 0
  {
    if es != [] {
      var p := Run(Boot(), es[..|es| - 1]);
      if id < |p.issued| {
        CapsHold(es[..|es| - 1], id);
      }
    }
  }

  /** A slot given up by time-out has used every one of its transmissions. */
  lemma TimeOutUsesAll(s: Sender, i: nat, now: nat)
    requires Inv(s) && i < PENDING && s.slots[i].inUse && !Retry(s, i, now).slots[i].inUse
    ensures Copies(s.sent, s.slots[i].id) == 1 + s.issued[s.slots[i].id].cap
  {
    assert SlotFits(s, i);
  }

  ghost predicate Retired(s: Sender, id: nat) {
    id < |s.issued| && forall i :: 0 <= i < |s.slots| && s.slots[i].inUse ==> s.slots[i].id != id
  }

  lemma BroadcastSlots(s: Sender, cmd: Cmd, maxRetries: nat, now: nat, reachable: nat, i: nat)
    requires WellFormed(s) && i < PENDING
    ensures var r := Broadcast(s, cmd, maxRetries, now, reachable);
            r.slots[i].inUse ==> r.slots[i].id == |s.issued| || r.slots[i] == s.slots[i]
  {
  }

  lemma RetiredBroadcast(s: Sender, cmd: Cmd, maxRetries: nat, now: nat, reachable: nat, id: nat)
    requires WellFormed(s) && Retired(s, id)
    ensures Retired(Broadcast(s, cmd, maxRetries, now, reachable), id)
  {
    forall i | 0 <= i < PENDING {
      BroadcastSlots(s, cmd, maxRetries, now, reachable, i);
    }
  }

  lemma BroadcastCopies(s: Sender, cmd: Cmd, maxRetries: nat, now: nat, reachable: nat, id: nat)
    requires WellFormed(s) && id < |s.issued|
    ensures Copies(Broadcast(s, cmd, maxRetries, now, reachable).sent, id) == Copies(s.sent, id)
  {
    CopiesSnoc(s.sent, Tx(|s.issued|, Carried(cmd)), id);
  }

  lemma RetiredRetry(s: Sender, i: nat, now: nat, id: nat)
    requires WellFormed(s) && Retired(s, id) && i < PENDING
    ensures Retired(Retry(s, i, now), id) && Copies(Retry(s, i, now).sent, id) == Copies(s.sent, id)
  {
    CopiesSnoc(s.sent, Tx(s.slots[i].id, s.slots[i].cmd), id);
  }

  lemma RetiredStep(s: Sender, e: Event, id: nat)
    requires WellFormed(s) && Retired(s, id)
    ensures Retired(Step(s, e), id) && Copies(Step(s, e).sent, id) == Copies(s.sent, id)
  {
    match e
    case EBroadcast(cmd, maxRetries, now, reachable) =>
      RetiredBroadcast(s, cmd, maxRetries, now, reachable, id);
      BroadcastCopies(s, cmd, maxRetries, now, reachable, id);
    case EAck(seqNo) =>
    case ERetry(slot, at) => if slot < PENDING { RetiredRetry(s, slot, at, id); }
  }

  /** Once a command has left the table, by acknowledgement, time-out or a full table, no run transmits it again. */
  lemma {:induction false} RetiredForGood(s: Sender, es: seq<Event>, id: nat)
    requires WellFormed(s) && Retired(s, id)
    ensures Retired(Run(s, es), id) && Copies(Run(s, es).sent, id) == Copies(s.sent, id)
  {
    if es != [] {
      RetiredForGood(s, es[..|es| - 1], id);
      RetiredStep(Run(s, es[..|es| - 1]), es[|es| - 1], id);
    }
  }
}
