/**
 * The update received over Bluetooth: START declares a length and a CRC, DATA
 * appends, COMMIT checks both before the new image may boot.
 */
module BleUpdate {
  import opened Crc

  const OP_START: bv8 := 1
  const OP_DATA: bv8 := 2
  const OP_COMMIT: bv8 := 3
  const OP_ABORT: bv8 := 4

  type Packet = seq<bv8>

  function LengthOf(p: Packet): nat
    requires |p| >= 9
  {
    p[1] as nat + 0x100 * (p[2] as nat) + 0x1_0000 * (p[3] as nat) + 0x100_0000 * (p[4] as nat)
  }

  function Or(low: bv32, high: bv32): bv32 { low | (high << 8) }

  /** Four bytes as a word, the first one lowest. */
  function SumOf(p: Packet): bv32
    requires |p| >= 9
  {
    Or(p[5] as bv32, Or(p[6] as bv32, Or(p[7] as bv32, p[8] as bv32)))
  }

  /** Idle, or in the middle of an image of which `data` has arrived. */
  datatype Session = Idle | Receiving(length: nat, sum: bv32, data: seq<bv8>)

  /** How the flash driver answers the calls one packet may make. */
  datatype Driver = Driver(size: nat, begins: bool, writes: bool, ends: bool, boots: bool)

  datatype Status = Silent | Ok | TooLarge | BeginFailed | WriteFailed | Mismatch | EndFailed | BootFailed | Done
      | Aborted | Unknown

  datatype Reply = Reply(accepted: bool, status: Status)

  function OnStart(s: Session, p: Packet, d: Driver): (Session, Reply) {
    if |p| < 9 then (s, Reply(false, Silent))
    else if LengthOf(p) > d.size then (Idle, Reply(false, TooLarge))
    else if !d.begins then (Idle, Reply(false, BeginFailed))
    else (Receiving(LengthOf(p), SumOf(p), []), Reply(true, Ok))
  }

  function OnData(s: Session, p: Packet, d: Driver): (Session, Reply) {
    if s.Idle? || |p| < 3 then (s, Reply(false, Silent))
    else if |s.data| + |p| - 3 > s.length || !d.writes then (Idle, Reply(false, WriteFailed))
    else (s.(data := s.data + p[3..]), Reply(true, Silent))
  }

  function OnCommit(s: Session, d: Driver): (Session, Reply) {
    if s.Idle? then (s, Reply(false, Silent))
    else if |s.data| != s.length || Crc32(s.data) != s.sum then (Idle, Reply(false, Mismatch))
    else if !d.ends then (Idle, Reply(false, EndFailed))
    else if !d.boots then (Idle, Reply(false, BootFailed))
    else (Idle, Reply(true, Done))
  }

  function OnPacket(s: Session, p: Packet, d: Driver): (Session, Reply) {
    if |p| < 1 then (s, Reply(false, Silent))
    else if p[0] == OP_START then OnStart(s, p, d)
    else if p[0] == OP_DATA then OnData(s, p, d)
    else if p[0] == OP_COMMIT then OnCommit(s, d)
    else if p[0] == OP_ABORT then (Idle, Reply(true, Aborted))
    else (s, Reply(false, Unknown))
  }

  lemma RegisterStep(before: seq<bv8>, payload: seq<bv8>, i: nat)
    requires i < |payload|
    ensures Register(before + payload[..i + 1]) == ByteStep(Register(before + payload[..i]), payload[i])
  {
    RegisterSnoc(before + payload[..i], payload[i]);
    assert before + payload[..i + 1] == (before + payload[..i]) + [payload[i]];
  }

  // ------------------------------------------------------------------
  // The handler: a running CRC and a byte count stand for the data
  // ------------------------------------------------------------------

  class Handler {
    var active: bool
    var expectedLength: nat
    var expectedSum: bv32
    var received: nat
    var running: bv32
    ghost var data: seq<bv8>

    ghost predicate Valid()
      reads this
    {
      active ==> received == |data| && running == Register(data)
    }

    ghost function Abs(): Session
      reads this
    {
      if active then Receiving(expectedLength, expectedSum, data) else Idle
    }

    constructor ()
      ensures Valid() && Abs() == Idle
    {
      active, expectedLength, expectedSum, received, running, data := false, 0, 0, 0, START, [];
    }

    method Reset()
      modifies this
      ensures Valid() && Abs() == Idle
    {
      active, expectedLength, expectedSum, received, running := false, 0, 0, 0, START;
    }

    method UpdateSum(payload: seq<bv8>, ghost before: seq<bv8>)
      requires running == Register(before)
      modifies `running
      ensures running == Register(before + payload)
    {
      assert before + payload[..0] == before;
      for i := 0 to |payload|
        invariant running == Register(before + payload[..i])
      {
        RegisterStep(before, payload, i);
        running := StepByteBranching(running, payload[i]);
      }
      assert payload[..|payload|] == payload;
    }

    method Append(payload: seq<bv8>)
      requires Valid() && active
      modifies `running, `received, `data
      ensures Valid() && data == old(data) + payload
    {
      UpdateSum(payload, data);
      received := received + |payload|;
      data := data + payload;
    }

    method HandleStart(p: Packet, d: Driver) returns (r: Reply)
      requires Valid()
      modifies this
      ensures Valid() && (Abs(), r) == OnStart(old(Abs()), p, d)
    {
      if |p| < 9 { return Reply(false, Silent); }
      if active { Reset(); }
      expectedLength, expectedSum := LengthOf(p), SumOf(p);
      if expectedLength > d.size { return Reply(false, TooLarge); }
      if !d.begins {
        Reset();
        return Reply(false, BeginFailed);
      }
      active, running, received, data := true, START, 0, [];
      return Reply(true, Ok);
    }

    method HandleData(p: Packet, d: Driver) returns (r: Reply)
      requires Valid()
      modifies this
      ensures Valid() && (Abs(), r) == OnData(old(Abs()), p, d)
    {
      if !active || |p| < 3 { return Reply(false, Silent); }
      var payload := p[3..];
      if received + |payload| > expectedLength || !d.writes {
        Reset();
        return Reply(false, WriteFailed);
      }
      Append(payload);
      return Reply(true, Silent);
    }

    method HandleCommit(d: Driver) returns (r: Reply)
      requires Valid()
      modifies this
      ensures Valid() && (Abs(), r) == OnCommit(old(Abs()), d)
    {
      if !active { return Reply(false, Silent); }
      if received != expectedLength || Final(running) != expectedSum {
        Reset();
        return Reply(false, Mismatch);
      }
      r := if !d.ends then Reply(false, EndFailed) else if !d.boots then Reply(false, BootFailed)
          else Reply(true, Done);
      Reset();
    }

    method Handle(p: Packet, d: Driver) returns (r: Reply)
      requires Valid()
      modifies this
      ensures Valid() && (Abs(), r) == OnPacket(old(Abs()), p, d)
    {
      if |p| < 1 { return Reply(false, Silent); }
      if p[0] == OP_START {
        r := HandleStart(p, d);
      } else if p[0] == OP_DATA {
        r := HandleData(p, d);
      } else if p[0] == OP_COMMIT {
        r := HandleCommit(d);
      } else if p[0] == OP_ABORT {
        Reset();
        r := Reply(true, Aborted);
      } else {
        r := Reply(false, Unknown);
      }
    }
  }

  // ------------------------------------------------------------------
  // Whole runs, judged from the packets alone
  // ------------------------------------------------------------------

  datatype Write = Write(p: Packet, d: Driver)

  function Run(s: Session, ws: seq<Write>): Session {
    if ws == [] then s else OnPacket(Run(s, ws[..|ws| - 1]), ws[|ws| - 1].p, ws[|ws| - 1].d).0
  }

  predicate IsStart(p: Packet) { |p| >= 9 && p[0] == OP_START }

  /** What a packet adds to an image. */
  function Payload(p: Packet): seq<bv8> {
    if |p| >= 3 && p[0] == OP_DATA then p[3..] else []
  }

  /** The last START among the packets, whether or not it was accepted. */
  function LastStart(ws: seq<Write>): (m: int)
    ensures -1 <= m < |ws| && (m >= 0 ==> IsStart(ws[m].p))
    ensures forall k :: m < k < |ws| ==> !IsStart(ws[k].p)
  {
    if ws == [] then -1 else if IsStart(ws[|ws| - 1].p) then |ws| - 1 else LastStart(ws[..|ws| - 1])
  }

  /** The payloads of all packets after the `m`-th, put together. */
  function PayloadsAfter(ws: seq<Write>, m: int): seq<bv8>
    requires -1 <= m
    decreases |ws|
  {
    if |ws| - 1 <= m then [] else PayloadsAfter(ws[..|ws| - 1], m) + Payload(ws[|ws| - 1].p)
  }

  /** A session under way was declared by the last START and holds the payloads since. */
  lemma {:induction false} SessionIsLastStart(ws: seq<Write>)
    ensures var s, m := Run(Idle, ws), LastStart(ws);
            s.Receiving? ==>
              && m >= 0 && s.length == LengthOf(ws[m].p) && s.sum == SumOf(ws[m].p)
              && s.data == PayloadsAfter(ws, m)
  {
    if ws != [] {
      var init, w := ws[..|ws| - 1], ws[|ws| - 1];
      SessionIsLastStart(init);
      var s0, s, m := Run(Idle, init), Run(Idle, ws), LastStart(ws);
      assert s == OnPacket(s0, w.p, w.d).0;
      if s.Receiving? && !IsStart(w.p) {
        assert m == LastStart(init) && ws[m] == init[m];
        assert PayloadsAfter(ws, m) == PayloadsAfter(init, m) + Payload(w.p);
        assert s.data == s0.data + Payload(w.p);
      }
    }
  }

  lemma DoneMeans(s: Session, p: Packet, d: Driver)
    requires OnPacket(s, p, d).1.status == Done
    ensures s.Receiving? && |s.data| == s.length && Crc32(s.data) == s.sum
  {
  }

  /**
   * An image boots only if the packets since the last START, put together, have the length and the
   * CRC-32 that START declared.
   */
  lemma CommitIsChecked(ws: seq<Write>, p: Packet, d: Driver)
    requires OnPacket(Run(Idle, ws), p, d).1.status == Done
    ensures var m := LastStart(ws);
            m >= 0 && |PayloadsAfter(ws, m)| == LengthOf(ws[m].p) && Crc32(PayloadsAfter(ws, m)) == SumOf(ws[m].p)
  {
    DoneMeans(Run(Idle, ws), p, d);
    SessionIsLastStart(ws);
  }

  /** The packets of a complete transfer, every driver call succeeding. */
  predicate Sends(ws: seq<Write>, start: Packet, image: seq<bv8>) {
    && IsStart(start) && ws != [] && ws[0].p == start
    && (forall k :: 1 <= k < |ws| ==> |ws[k].p| >= 3 && ws[k].p[0] == OP_DATA)
    && (forall k :: 0 <= k < |ws| ==> ws[k].d.begins && ws[k].d.writes && ws[k].d.size >= |image|)
    && LengthOf(start) == |image| && SumOf(start) == Crc32(image)
    && PayloadsAfter(ws, 0) == image
  }

  lemma {:induction false} TransferArrives(s: Session, ws: seq<Write>, length: nat, sum: bv32)
    requires ws != [] && IsStart(ws[0].p) && LengthOf(ws[0].p) == length && SumOf(ws[0].p) == sum
    requires forall k :: 1 <= k < |ws| ==> |ws[k].p| >= 3 && ws[k].p[0] == OP_DATA
    requires forall k :: 0 <= k < |ws| ==> ws[k].d.begins && ws[k].d.writes && ws[k].d.size >= length
    requires |PayloadsAfter(ws, 0)| <= length
    ensures Run(s, ws) == Receiving(length, sum, PayloadsAfter(ws, 0))
    decreases |ws|
  {
    var init, w := ws[..|ws| - 1], ws[|ws| - 1];
    if |ws| > 1 {
      TransferArrives(s, init, length, sum);
      assert PayloadsAfter(ws, 0) == PayloadsAfter(init, 0) + w.p[3..];
    } else {
      assert Run(s, init) == s;
    }
  }

  /** And the other way: from any state, an image sent whole, in packets of any size, commits. */
  lemma TransferCommits(s: Session, ws: seq<Write>, start: Packet, image: seq<bv8>, d: Driver)
    requires Sends(ws, start, image) && d.ends && d.boots
    ensures OnPacket(Run(s, ws), [OP_COMMIT], d).1 == Reply(true, Done)
  {
    TransferArrives(s, ws, |image|, Crc32(image));
  }

  // ------------------------------------------------------------------
  // Exactly when
  // ------------------------------------------------------------------

  lemma FourShifts(a: bv32, b: bv32, c: bv32, d: bv32)
    ensures Or(a, Or(b, Or(c, d))) == a | (b << 8) | (c << 16) | (d << 24)
  {
  }

  /**
   * START, a length and a sum, each in four bytes with the lowest first: refused for more than the partition
   * holds, or if the driver fails, and then no session is left; else a session of that length and sum begins.
   */
  lemma StartIsAnswered(s: Session, n: seq<bv8>, c: seq<bv8>, more: seq<bv8>, d: Driver)
    requires |n| == |c| == 4
    ensures var length := n[0] as nat + 256 * (n[1] as nat) + 65536 * (n[2] as nat) + 16777216 * (n[3] as nat);
            var sum := (c[0] as bv32) | ((c[1] as bv32) << 8) | ((c[2] as bv32) << 16) | ((c[3] as bv32) << 24);
            OnPacket(s, [1] + n + c + more, d)
            == if length > d.size then (Idle, Reply(false, TooLarge))
               else if !d.begins then (Idle, Reply(false, BeginFailed))
               else (Session.Receiving(length, sum, []), Reply(true, Ok))
  {
    var p := [1] + n + c + more;
    assert p[1] == n[0] && p[2] == n[1] && p[3] == n[2] && p[4] == n[3];
    assert p[5] == c[0] && p[6] == c[1] && p[7] == c[2] && p[8] == c[3];
    FourShifts(c[0] as bv32, c[1] as bv32, c[2] as bv32, c[3] as bv32);
  }

  /** A packet that leaves a session of `length` bytes alive, with the data up to it put together. */
  predicate Harmless(w: Write, data: seq<bv8>, length: nat) {
    |w.p| >= 1 ==>
      && w.p[0] != 3 && w.p[0] != 4
      && (w.p[0] == 2 && |w.p| >= 3 ==> w.d.writes && |data| <= length)
  }

  /**
   * What a session takes: the last START was accepted, and no packet since was a COMMIT or an ABORT, failed to be
   * written, or carried more data than declared.
   */
  predicate Alive(ws: seq<Write>) {
    && ws != []
    && var w := ws[|ws| - 1];
       if IsStart(w.p) then LengthOf(w.p) <= w.d.size && w.d.begins
       else
         var m := LastStart(ws);
         && Alive(ws[..|ws| - 1]) && m >= 0
         && Harmless(w, PayloadsAfter(ws, m), LengthOf(ws[m].p))
  }

  /** The packets that do nothing and get no answer. */
  lemma IgnoredExactly(s: Session, p: Packet, d: Driver)
    ensures OnPacket(s, p, d) == (s, Reply(false, Silent)) <==>
            || |p| == 0 || (p[0] == 1 && |p| < 9) || (p[0] == 2 && |p| < 3) || (p[0] in {2, 3} && s.Idle?)
  {
  }

  lemma OtherPacket(s: Session, w: Write)
    requires !IsStart(w.p)
    ensures OnPacket(s, w.p, w.d).0.Receiving? <==>
            s.Receiving? && Harmless(w, s.data + Payload(w.p), s.length)
  {
  }

  lemma {:induction false} AliveExactly(ws: seq<Write>)
    ensures Run(Idle, ws).Receiving? <==> Alive(ws)
    decreases |ws|
  {
    if ws != [] {
      var init, w := ws[..|ws| - 1], ws[|ws| - 1];
      AliveExactly(init);
      if !IsStart(w.p) {
        OtherPacket(Run(Idle, init), w);
        SessionIsLastStart(init);
        var m := LastStart(init);
        assert LastStart(ws) == m;
        if m >= 0 {
          assert ws[m] == init[m];
          assert PayloadsAfter(ws, m) == PayloadsAfter(init, m) + Payload(w.p);
        }
      }
    }
  }

  /**
   * In every run a COMMIT boots the image if and only if a session is under way whose data have the length and
   * the CRC-32 declared, and the driver ends the image and switches to it; else the reply says what is wrong.
   */
  lemma BootsExactly(ws: seq<Write>, more: seq<bv8>, d: Driver)
    ensures var (s1, r) := OnPacket(Run(Idle, ws), [3] + more, d);
            var m := LastStart(ws);
            && s1 == Idle
            && r == if !Alive(ws) then Reply(false, Silent)
                    else if |PayloadsAfter(ws, m)| != LengthOf(ws[m].p)
                            || Crc32(PayloadsAfter(ws, m)) != SumOf(ws[m].p) then Reply(false, Mismatch)
                    else if !d.ends then Reply(false, EndFailed)
                    else if !d.boots then Reply(false, BootFailed)
                    else Reply(true, Done)
  {
    AliveExactly(ws);
    SessionIsLastStart(ws);
  }
}
