/**
 * What the retries of a command do: which commands a pass sends again, how
 * often a command nobody answers goes out, and when answers end it.
 */
module CmdRetry {
  import opened Bytes
  import opened CmdReceive
  import opened CmdSend

  // ------------------------------------------------------------------
  // One pass
  // ------------------------------------------------------------------

  /** A command whose last copy is 300 ms old and that has a retry left. */
  predicate Due(p: Pend, now: nat) {
    p.inUse && Elapsed(now, p.lastSend) >= 300 && p.left > 0
  }

  ghost predicate DueFrom(s: Sender, i: nat, now: nat, id: nat)
    requires WellFormed(s)
  {
    exists k :: i <= k < PENDING && s.slots[k].id == id && Due(s.slots[k], now)
  }

  lemma RetryCopies(s: Sender, i: nat, now: nat, id: nat)
    requires WellFormed(s) && i < PENDING
    ensures Copies(Retry(s, i, now).sent, id)
            == Copies(s.sent, id) + if s.slots[i].id == id && Due(s.slots[i], now) then 1 else 0
    ensures forall k :: 0 <= k < PENDING && k != i ==> Retry(s, i, now).slots[k] == s.slots[k]
  {
    CopiesSnoc(s.sent, Tx(s.slots[i].id, s.slots[i].cmd), id);
  }

  lemma DueNext(s: Sender, s1: Sender, i: nat, now: nat, id: nat)
    requires WellFormed(s) && WellFormed(s1) && i < PENDING
    requires forall k :: 0 <= k < PENDING && k != i ==> s1.slots[k] == s.slots[k]
    ensures DueFrom(s, i, now, id) <==> (s.slots[i].id == id && Due(s.slots[i], now)) || DueFrom(s1, i + 1, now, id)
  {
    if DueFrom(s, i, now, id) && !(s.slots[i].id == id && Due(s.slots[i], now)) {
      var k :| i <= k < PENDING && s.slots[k].id == id && Due(s.slots[k], now);
      assert s1.slots[k].id == id && Due(s1.slots[k], now);
    }
    if DueFrom(s1, i + 1, now, id) {
      var k :| i + 1 <= k < PENDING && s1.slots[k].id == id && Due(s1.slots[k], now);
      assert s.slots[k].id == id && Due(s.slots[k], now);
    }
  }

  /** No command is due twice. */
  lemma DueOnce(s: Sender, s1: Sender, i: nat, now: nat)
    requires Inv(s) && WellFormed(s1) && i < PENDING && Due(s.slots[i], now)
    requires forall k :: 0 <= k < PENDING && k != i ==> s1.slots[k] == s.slots[k]
    ensures !DueFrom(s1, i + 1, now, s.slots[i].id)
  {
  }

  lemma {:induction false} PassCopiesFrom(s: Sender, i: nat, now: nat, id: nat)
    requires Inv(s) && i <= PENDING
    ensures Copies(RetryAll(s, i, now).sent, id) == Copies(s.sent, id) + if DueFrom(s, i, now, id) then 1 else 0
    decreases PENDING - i
  {
    if i < PENDING {
      var s1 := Retry(s, i, now);
      RetryKeeps(s, i, now);
      RetryCopies(s, i, now, id);
      DueNext(s, s1, i, now, id);
      if Due(s.slots[i], now) { DueOnce(s, s1, i, now); }
      PassCopiesFrom(s1, i + 1, now, id);
      assert RetryAll(s, i, now) == RetryAll(s1, i + 1, now);
    }
  }

  /** A pass sends one copy of every command that is due, and none of any other. */
  lemma PassSendsDue(s: Sender, now: nat, id: nat)
    requires Inv(s)
    ensures Copies(RetryAll(s, 0, now).sent, id)
            == Copies(s.sent, id)
               + if exists k :: 0 <= k < PENDING && s.slots[k].id == id && Due(s.slots[k], now) then 1 else 0
  {
    PassCopiesFrom(s, 0, now, id);
  }

  /** What a pass leaves of a slot. */
  function AfterPass(p: Pend, now: nat): Pend {
    if Due(p, now) then p.(left := p.left - 1, lastSend := now)
    else if p.inUse && Elapsed(now, p.lastSend) >= 300 then p.(inUse := false)
    else p
  }

  lemma RetrySlots(s: Sender, i: nat, now: nat)
    requires Inv(s) && i < PENDING
    ensures var r := Retry(s, i, now);
            && Inv(r) && r.issued == s.issued && r.slots[i] == AfterPass(s.slots[i], now)
            && forall k :: 0 <= k < PENDING && k != i ==> r.slots[k] == s.slots[k]
  {
    RetryKeeps(s, i, now);
  }

  lemma {:induction false} PassSlots(s: Sender, i: nat, now: nat, k: nat)
    requires Inv(s) && i <= PENDING && k < PENDING
    ensures var r := RetryAll(s, i, now);
            && Inv(r) && r.issued == s.issued
            && r.slots[k] == if k < i then s.slots[k] else AfterPass(s.slots[k], now)
    decreases PENDING - i
  {
    if i < PENDING {
      RetrySlots(s, i, now);
      PassSlots(Retry(s, i, now), i + 1, now, k);
      assert RetryAll(s, i, now) == RetryAll(Retry(s, i, now), i + 1, now);
    }
  }

  // ------------------------------------------------------------------
  // A command that nobody answers
  // ------------------------------------------------------------------

  function AckAll(s: Sender, acks: seq<byte>): (r: Sender)
    requires WellFormed(s)
    ensures WellFormed(r)
  {
    if acks == [] then s else Acked(AckAll(s, acks[..|acks| - 1]), acks[|acks| - 1])
  }

  /** Some acknowledgements, and then a pass. */
  datatype Round = Round(acks: seq<byte>, at: nat)

  function RetryPass(s: Sender, now: nat): (r: Sender)
    requires WellFormed(s)
    ensures WellFormed(r)
  {
    PassWellFormed(s, 0, now);
    RetryAll(s, 0, now)
  }

  lemma {:induction false} PassWellFormed(s: Sender, i: nat, now: nat)
    requires WellFormed(s) && i <= PENDING
    ensures WellFormed(RetryAll(s, i, now))
    decreases PENDING - i
  {
    if i < PENDING {
      PassWellFormed(Retry(s, i, now), i + 1, now);
    }
  }

  function Rounds(s: Sender, rs: seq<Round>): (r: Sender)
    requires WellFormed(s)
    ensures WellFormed(r)
  {
    if rs == [] then s
    else RetryPass(AckAll(Rounds(s, rs[..|rs| - 1]), rs[|rs| - 1].acks), rs[|rs| - 1].at)
  }

  /** Slot `i` holds command `id`, last sent at `at`, with `left` retries to go. */
  ghost predicate Waits(s: Sender, i: nat, id: nat, left: nat, at: nat) {
    && Inv(s) && i < PENDING
    && var p := s.slots[i]; p.inUse && p.id == id && p.left == left && p.lastSend == at
  }

  lemma {:induction false} FirstAckedFinds(slots: seq<Pend>, seqNo: byte, j: nat, i: nat)
    requires j <= i < |slots| && slots[i].inUse && Wire(slots[i].id) == seqNo
    ensures FirstAcked(slots, seqNo, j) <= i
    decreases i - j
  {
    if j < i {
      FirstAckedFinds(slots, seqNo, j + 1, i);
    }
  }

  lemma {:induction false} OtherAcks(s: Sender, i: nat, acks: seq<byte>)
    requires Inv(s) && i < PENDING && s.slots[i].inUse && forall a :: a in acks ==> a != Wire(s.slots[i].id)
    ensures var r := AckAll(s, acks);
            Inv(r) && r.slots[i] == s.slots[i] && r.sent == s.sent && r.issued == s.issued
  {
    if acks != [] {
      var init, a := acks[..|acks| - 1], acks[|acks| - 1];
      assert a in acks && forall x :: x in init ==> x in acks;
      OtherAcks(s, i, init);
      AckKeeps(AckAll(s, init), a);
    }
  }

  function LastAt(start: nat, rs: seq<Round>): nat { if rs == [] then start else rs[|rs| - 1].at }

  /** Each pass comes 300 ms or more after the one before, and nobody acknowledges command `id`. */
  ghost predicate Unanswered(id: nat, start: nat, rs: seq<Round>) {
    rs != [] ==>
      var init, r := rs[..|rs| - 1], rs[|rs| - 1];
      Unanswered(id, start, init) && Wire(id) !in r.acks && LastAt(start, init) + 300 <= r.at < 0x1_0000_0000
  }

  lemma PassFreesNone(s: Sender, i: nat, id: nat, at: nat, now: nat, k: nat)
    requires Waits(s, i, id, 0, at) && at + 300 <= now < 0x1_0000_0000 && k < PENDING
    ensures AfterPass(s.slots[k], now).inUse ==> AfterPass(s.slots[k], now).id != id
  {
  }

  lemma PassRetires(s: Sender, i: nat, id: nat, at: nat, now: nat)
    requires Waits(s, i, id, 0, at) && at + 300 <= now < 0x1_0000_0000
    ensures Retired(RetryPass(s, now), id)
  {
    var r := RetryPass(s, now);
    assert SlotFits(s, i);
    PassSlots(s, 0, now, i);
    forall k | 0 <= k < PENDING ensures r.slots[k].inUse ==> r.slots[k].id != id {
      PassSlots(s, 0, now, k);
      PassFreesNone(s, i, id, at, now, k);
    }
  }

  lemma PassWaits(s: Sender, i: nat, id: nat, left: nat, at: nat, now: nat)
    requires Waits(s, i, id, left, at) && at + 300 <= now < 0x1_0000_0000
    ensures var s1 := RetryPass(s, now);
            && Copies(s1.sent, id) == Copies(s.sent, id) + (if left > 0 then 1 else 0)
            && (if left > 0 then Waits(s1, i, id, left - 1, now) else Retired(s1, id))
  {
    PassSlots(s, 0, now, i);
    PassSendsDue(s, now, id);
    assert Due(s.slots[i], now) <==> left > 0;
    if left == 0 {
      PassRetires(s, i, id, at, now);
      assert forall k :: 0 <= k < PENDING && s.slots[k].id == id && s.slots[k].inUse ==> k == i;
    }
  }

  lemma RoundWaits(s: Sender, i: nat, id: nat, left: nat, at: nat, r: Round)
    requires Waits(s, i, id, left, at) && Wire(id) !in r.acks && at + 300 <= r.at < 0x1_0000_0000
    ensures var s1 := RetryPass(AckAll(s, r.acks), r.at);
            && Copies(s1.sent, id) == Copies(s.sent, id) + (if left > 0 then 1 else 0)
            && (if left > 0 then Waits(s1, i, id, left - 1, r.at) else Retired(s1, id))
  {
    OtherAcks(s, i, r.acks);
    PassWaits(AckAll(s, r.acks), i, id, left, at, r.at);
  }

  lemma {:induction false} WaitsThrough(s: Sender, i: nat, id: nat, left: nat, start: nat, rs: seq<Round>)
    requires Waits(s, i, id, left, start) && Unanswered(id, start, rs) && |rs| <= left
    ensures var r := Rounds(s, rs);
            Waits(r, i, id, left - |rs|, LastAt(start, rs)) && Copies(r.sent, id) == Copies(s.sent, id) + |rs|
  {
    if rs != [] {
      var init := rs[..|rs| - 1];
      WaitsThrough(s, i, id, left, start, init);
      RoundWaits(Rounds(s, init), i, id, left - |init|, LastAt(start, init), rs[|rs| - 1]);
    }
  }

  lemma Placed(s: Sender, cmd: Cmd, maxRetries: nat, now: nat, reachable: nat) returns (i: nat)
    requires Inv(s)
    ensures var cap := if cmd.command in {0x00, 0x01, 0x0F} then 0 else maxRetries;
            var r := Broadcast(s, cmd, maxRetries, now, reachable);
            && Waits(r, i, |s.issued|, cap, now) && Copies(r.sent, |s.issued|) == 1
            && r.slots[i].acks == 0 && r.slots[i].expected == if reachable == 0 then 1 else reachable
  {
    BroadcastKeeps(s, cmd, maxRetries, now, reachable);
    CopiesSnoc(s.sent, Tx(|s.issued|, Carried(cmd)), |s.issued|);
    var free := FirstFree(s.slots, 0);
    i := if free < PENDING then free else 0;
  }

  /** Sent again by every pass until no retry is left, and then given up. */
  ghost predicate GoesOut(s: Sender, id: nat, cap: nat, passes: nat) {
    && (passes <= cap ==> Copies(s.sent, id) == 1 + passes && !Retired(s, id))
    && (passes == cap + 1 ==> Copies(s.sent, id) == 1 + cap && Retired(s, id))
  }

  lemma WaitsGoesOut(s: Sender, i: nat, id: nat, cap: nat, now: nat, rs: seq<Round>)
    requires Waits(s, i, id, cap, now) && Copies(s.sent, id) == 1 && Unanswered(id, now, rs)
    ensures GoesOut(Rounds(s, rs), id, cap, |rs|)
  {
    if |rs| <= cap {
      WaitsThrough(s, i, id, cap, now, rs);
    } else if |rs| == cap + 1 {
      var init := rs[..cap];
      WaitsThrough(s, i, id, cap, now, init);
      RoundWaits(Rounds(s, init), i, id, 0, LastAt(now, init), rs[cap]);
    }
  }

  /**
   * A command nobody acknowledges, whatever other acknowledgements come in: every pass, 300 ms or more after the
   * one before, sends one more copy until its retries are used up, and the next pass gives it up for good.
   */
  lemma UnansweredGoesOut(s: Sender, cmd: Cmd, maxRetries: nat, now: nat, reachable: nat, rs: seq<Round>)
    requires Inv(s) && Unanswered(|s.issued|, now, rs)
    ensures var cap := if cmd.command in {0x00, 0x01, 0x0F} then 0 else maxRetries;
            GoesOut(Rounds(Broadcast(s, cmd, maxRetries, now, reachable), rs), |s.issued|, cap, |rs|)
  {
    var cap := if cmd.command in {0x00, 0x01, 0x0F} then 0 else maxRetries;
    var i := Placed(s, cmd, maxRetries, now, reachable);
    WaitsGoesOut(Broadcast(s, cmd, maxRetries, now, reachable), i, |s.issued|, cap, now, rs);
  }

  // ------------------------------------------------------------------
  // A command that is answered
  // ------------------------------------------------------------------

  /** Slot `i` alone waits for acknowledgements with the number of command `id`, and has counted `n`. */
  ghost predicate Counts(s: Sender, i: nat, id: nat, n: nat, expected: nat) {
    && Inv(s) && i < PENDING && s.slots[i].inUse && s.slots[i].id == id
    && s.slots[i].acks == n && s.slots[i].expected == expected
    && forall j :: 0 <= j < PENDING && j != i && s.slots[j].inUse ==> Wire(s.slots[j].id) != Wire(id)
  }

  lemma OneMoreAck(s: Sender, i: nat, id: nat, n: nat, expected: nat)
    requires Counts(s, i, id, n, expected)
    ensures var r := Acked(s, Wire(id));
            if n + 1 < expected then Counts(r, i, id, n + 1, expected) else Retired(r, id)
  {
    AckKeeps(s, Wire(id));
    FirstAckedFinds(s.slots, Wire(id), 0, i);
    assert FirstAcked(s.slots, Wire(id), 0) == i;
    assert SlotFits(s, i);
  }

  lemma {:induction false} CountsUpTo(s: Sender, i: nat, id: nat, expected: nat, n: nat)
    requires Counts(s, i, id, 0, expected) && n < expected
    ensures Counts(AckAll(s, Repeat(Wire(id), n)), i, id, n, expected)
  {
    if n > 0 {
      CountsUpTo(s, i, id, expected, n - 1);
      assert Repeat(Wire(id), n)[..n - 1] == Repeat(Wire(id), n - 1);
      OneMoreAck(AckAll(s, Repeat(Wire(id), n - 1)), i, id, n - 1, expected);
    }
  }

  lemma NumbersApart(a: nat, b: nat)
    requires a < b < a + 256
    ensures (a + 1) % 256 != (b + 1) % 256
  {
  }

  /** Among the last 256 commands an acknowledgement is counted for the one it names, and for no other. */
  lemma AckIsCounted(s: Sender, i: nat)
    requires Inv(s) && i < PENDING && s.slots[i].inUse
    requires forall j :: 0 <= j < PENDING && s.slots[j].inUse ==> |s.issued| <= s.slots[j].id + 256
    ensures var r := Acked(s, (s.slots[i].id + 1) % 256);
            && r.slots[i].acks == s.slots[i].acks + 1
            && forall j :: 0 <= j < PENDING && j != i ==> r.slots[j] == s.slots[j]
  {
    FirstAckedFinds(s.slots, Wire(s.slots[i].id), 0, i);
    forall j | 0 <= j < PENDING && s.slots[j].inUse && j != i
      ensures Wire(s.slots[j].id) != (s.slots[i].id + 1) % 256
    {
      assert SlotFits(s, i) && SlotFits(s, j);
      var a, b := s.slots[i].id, s.slots[j].id;
      if a < b { NumbersApart(a, b); } else { NumbersApart(b, a); }
    }
  }

  /**
   * Unless another command waits under the same byte, a command is done with the acknowledgement of the last
   * node that was reachable, or the first if none was, and not before.
   */
  lemma AnsweredByAll(s: Sender, cmd: Cmd, maxRetries: nat, now: nat, reachable: nat, n: nat)
    requires Inv(s)
    requires forall j :: 0 <= j < PENDING && s.slots[j].inUse ==> Wire(s.slots[j].id) != Wire(|s.issued|)
    requires n <= if reachable == 0 then 1 else reachable
    ensures var id := |s.issued|;
            var r := AckAll(Broadcast(s, cmd, maxRetries, now, reachable), Repeat(Wire(id), n));
            Retired(r, id) <==> n == if reachable == 0 then 1 else reachable
  {
    var id, s1 := |s.issued|, Broadcast(s, cmd, maxRetries, now, reachable);
    var i := Placed(s, cmd, maxRetries, now, reachable);
    var expected := if reachable == 0 then 1 else reachable;
    assert Counts(s1, i, id, 0, expected);
    if n < expected {
      CountsUpTo(s1, i, id, expected, n);
    } else {
      CountsUpTo(s1, i, id, expected, n - 1);
      assert Repeat(Wire(id), n)[..n - 1] == Repeat(Wire(id), n - 1);
      OneMoreAck(AckAll(s1, Repeat(Wire(id), n - 1)), i, id, n - 1, expected);
    }
  }

  // ------------------------------------------------------------------
  // Where a command is put
  // ------------------------------------------------------------------

  /** With a slot free every command that waits goes on waiting; a full table gives all sixteen up for the new one. */
  lemma FullTableForgets(s: Sender, cmd: Cmd, maxRetries: nat, now: nat, reachable: nat)
    requires Inv(s)
    ensures var r := Broadcast(s, cmd, maxRetries, now, reachable);
            if exists i :: 0 <= i < PENDING && !s.slots[i].inUse
            then forall i :: 0 <= i < PENDING && s.slots[i].inUse ==> r.slots[i] == s.slots[i]
            else forall id :: 0 <= id < |s.issued| ==> Retired(r, id)
  {
    if FirstFree(s.slots, 0) == PENDING {
      var r := Broadcast(s, cmd, maxRetries, now, reachable);
      forall id | 0 <= id < |s.issued| ensures Retired(r, id) {
        assert forall i :: 0 < i < PENDING ==> !r.slots[i].inUse;
      }
    }
  }
}
