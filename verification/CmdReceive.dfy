/**
 * The node's side of a mesh command: a ring of the last thirty-two commands
 * suppresses copies heard within five seconds, and every copy is acknowledged.
 */
module CmdReceive {
  import opened Bytes

  const SLOTS := 32
  const WINDOW_MS := 5000

  /** Who sent a command and its one-byte sequence number. */
  datatype Key = Key(src: seq<byte>, seqNo: byte)

  datatype Stamp = Stamp(key: Key, ts: nat)

  datatype Seen = Seen(slots: seq<Stamp>, idx: nat) {
    predicate WellFormed() { |slots| == SLOTS && idx < SLOTS }
  }

  /** The entry suppresses a command: a zero time stamp marks an unused entry. */
  predicate Suppresses(e: Stamp, key: Key, now: nat) {
    e.ts != 0 && Elapsed(now, e.ts) <= WINDOW_MS && e.key == key
  }

  predicate Dupe(s: Seen, key: Key, now: nat) {
    exists i :: 0 <= i < |s.slots| && Suppresses(s.slots[i], key, now)
  }

  /** One copy heard: the ring afterwards, and whether the command is run. */
  function Receive(s: Seen, key: Key, now: nat): (r: (Seen, bool))
    requires s.WellFormed()
    ensures r.0.WellFormed()
  {
    if Dupe(s, key, now) then (s, false)
    else (Seen(s.slots[s.idx := Stamp(key, now)], Next(s.idx, SLOTS)), true)
  }

  // ------------------------------------------------------------------
  // What a command that passes the ring does
  // ------------------------------------------------------------------

  const ENABLE: byte := 0x01
  const DENY: byte := 0x12
  const PAYLOAD_MAX := 32
  const ENGINES := 8

  datatype Cmd = Cmd(command: byte, engine: byte, payload: seq<byte>)

  datatype Effect = Nothing | Denies(mask: byte) | Executes(cmd: Cmd)

  const TARGET_PREFIX: byte := 0xFE

  /** A payload addressed to another node is refused; an unaddressed one is meant for all. */
  function Strip(payload: seq<byte>, self: seq<byte>): Option<seq<byte>> {
    if |payload| < 6 || payload[0] != TARGET_PREFIX then Some(payload)
    else if payload[1..5] != self then None
    else Some(payload[6..])
  }

  /** Engines that are enabled on one node at a time: the foxhunter, UniPwn and the capture. */
  predicate Targetable(engine: byte) {
    engine == 3 || engine == 5 || engine == 7
  }

  /** A node's id is four characters and a NUL, which an enable of such an engine carries whole. */
  function Effects(self: seq<byte>, phone: bool, cmd: Cmd): Effect {
    if cmd.command == DENY then
      var stripped := Strip(cmd.payload, self);
      if !phone && stripped.Some? && |stripped.value| >= 1 then Denies(stripped.value[0]) else Nothing
    else if Targetable(cmd.engine) && cmd.command == ENABLE
            && (|cmd.payload| < 5 || cmd.payload[..5] != self + [0]) then Nothing
    else if phone then Nothing
    else Executes(cmd.(payload := cmd.payload[..Min(|cmd.payload|, PAYLOAD_MAX)]))
  }

  datatype Ack = Ack(seqNo: byte, command: byte, engine: byte)

  class CommandFilter {
    const self: seq<byte>
    const slots: array<Stamp>
    var idx: nat

    ghost predicate Valid()
      reads this
    {
      slots.Length == SLOTS && idx < SLOTS
    }

    ghost function Abs(): Seen
      reads this, slots
    {
      Seen(slots[..], idx)
    }

    constructor (self: seq<byte>)
      ensures Valid() && fresh(slots) && this.self == self && forall i :: 0 <= i < SLOTS ==> slots[i].ts == 0
    {
      this.self := self;
      slots := new Stamp[SLOTS](_ => Stamp(Key([], 0), 0));
      idx := 0;
    }

    /** The loop over the ring, and the entry written when no entry suppresses the copy. */
    method Filter(key: Key, now: nat) returns (run: bool)
      requires Valid()
      modifies this, slots
      ensures Valid() && (Abs(), run) == Receive(old(Abs()), key, now)
    {
      var i := 0;
      while i < SLOTS
        invariant 0 <= i <= SLOTS && Valid() && Abs() == old(Abs())
        invariant forall k :: 0 <= k < i ==> !Suppresses(slots[k], key, now)
      {
        if slots[i].ts != 0 && Elapsed(now, slots[i].ts) <= WINDOW_MS
           && slots[i].key.seqNo == key.seqNo && slots[i].key.src == key.src {
          assert Suppresses(slots[..][i], key, now);
          return false;
        }
        i := i + 1;
      }
      slots[idx] := Stamp(key, now);
      idx := Next(idx, SLOTS);
      run := true;
    }

    /** Suppressed, refused or carried out, every copy is acknowledged. */
    method Hear(key: Key, cmd: Cmd, now: nat, phone: bool) returns (effect: Effect, ack: Ack)
      requires Valid()
      modifies this, slots
      ensures Valid() && Abs() == Receive(old(Abs()), key, now).0
      ensures effect == if Receive(old(Abs()), key, now).1 then Effects(self, phone, cmd) else Nothing
      ensures ack == Ack(key.seqNo, cmd.command, cmd.engine)
    {
      ack := Ack(key.seqNo, cmd.command, cmd.engine);
      effect := Nothing;
      var run := Filter(key, now);
      if !run { return; }
      if cmd.command == DENY {
        var stripped := Strip(cmd.payload, self);
        if !phone && stripped.Some? && |stripped.value| >= 1 { effect := Denies(stripped.value[0]); }
        return;
      }
      var forThis := true;
      if cmd.engine < ENGINES && Targetable(cmd.engine) && cmd.command == ENABLE {
        if |cmd.payload| < 5 || cmd.payload[..5] != self + [0] { forThis := false; }
      }
      if forThis && !phone {
        var n := if |cmd.payload| > PAYLOAD_MAX then PAYLOAD_MAX else |cmd.payload|;
        effect := Executes(cmd.(payload := cmd.payload[..n]));
      }
    }
  }

  // ------------------------------------------------------------------
  // At most once
  // ------------------------------------------------------------------

  /** A copy of a command as it arrives, and whether a phone is then connected to the node. */
  datatype Heard = Heard(key: Key, cmd: Cmd, now: nat, phone: bool)

  function RunSeen(s: Seen, hs: seq<Heard>): (r: Seen)
    requires s.WellFormed()
    ensures r.WellFormed()
    decreases |hs|
  {
    if hs == [] then s else RunSeen(Receive(s, hs[0].key, hs[0].now).0, hs[1..])
  }

  /** How many of the copies heard are run, of every key. */
  function News(s: Seen, hs: seq<Heard>): nat
    requires s.WellFormed()
    decreases |hs|
  {
    if hs == [] then 0
    else
      var (s1, run) := Receive(s, hs[0].key, hs[0].now);
      (if run then 1 else 0) + News(s1, hs[1..])
  }

  /** How many of the copies heard of one command are run. */
  function Runs(s: Seen, hs: seq<Heard>, key: Key): nat
    requires s.WellFormed()
    decreases |hs|
  {
    if hs == [] then 0
    else
      var (s1, run) := Receive(s, hs[0].key, hs[0].now);
      (if run && hs[0].key == key then 1 else 0) + Runs(s1, hs[1..], key)
  }

  /** Where the entry written `age` entries ago stands. */
  function Pos(idx: nat, age: nat): (p: nat)
    requires idx < SLOTS && age < SLOTS
    ensures p < SLOTS
  {
    if age < idx then idx - 1 - age else idx + SLOTS - 1 - age
  }

  ghost predicate Recorded(s: Seen, key: Key, ts: nat, age: nat) {
    s.WellFormed() && age < SLOTS && s.slots[Pos(s.idx, age)] == Stamp(key, ts)
  }

  lemma RecordedKeeps(s: Seen, key: Key, ts: nat, age: nat, other: Key, now: nat)
    requires Recorded(s, key, ts, age)
    ensures var (s1, run) := Receive(s, other, now);
            if !run then Recorded(s1, key, ts, age) else age + 1 < SLOTS ==> Recorded(s1, key, ts, age + 1)
  {
  }

  /** A recorded command suppresses every copy within its window while fewer than thirty-two are recorded after it. */
  lemma {:induction false} SuppressedWhileRecorded(s: Seen, key: Key, ts: nat, age: nat, hs: seq<Heard>)
    requires Recorded(s, key, ts, age) && ts > 0
    requires forall h :: h in hs && h.key == key ==> ts <= h.now <= ts + WINDOW_MS
    requires age + News(s, hs) < SLOTS
    ensures Runs(s, hs, key) == 0
    ensures Recorded(RunSeen(s, hs), key, ts, age + News(s, hs))
    decreases |hs|
  {
    if hs != [] {
      var h, rest := hs[0], hs[1..];
      var (s1, run) := Receive(s, h.key, h.now);
      assert News(s, hs) == (if run then 1 else 0) + News(s1, rest);
      RecordedKeeps(s, key, ts, age, h.key, h.now);
      if h.key == key {
        assert Suppresses(s.slots[Pos(s.idx, age)], key, h.now);
      }
      SuppressedWhileRecorded(s1, key, ts, if run then age + 1 else age, rest);
      assert Runs(s, hs, key) == Runs(s1, rest, key);
      assert RunSeen(s, hs) == RunSeen(s1, rest);
    }
  }

  ghost predicate Ordered(hs: seq<Heard>) {
    forall i, j :: 0 <= i < j < |hs| ==> hs[i].now <= hs[j].now
  }

  /**
   * Whatever the node has heard before, if all copies of a command arrive within five seconds of each
   * other and at most thirty-two commands are recorded meanwhile, it is run at most once.
   */
  lemma {:induction false} AtMostOnce(s: Seen, hs: seq<Heard>, key: Key, first: nat)
    requires s.WellFormed() && Ordered(hs) && first > 0
    requires forall h :: h in hs && h.key == key ==> first <= h.now <= first + WINDOW_MS
    requires News(s, hs) <= SLOTS
    ensures Runs(s, hs, key) <= 1
    decreases |hs|
  {
    if hs != [] {
      var h, rest := hs[0], hs[1..];
      var (s1, run) := Receive(s, h.key, h.now);
      assert News(s, hs) == (if run then 1 else 0) + News(s1, rest);
      assert forall x :: x in rest ==> h.now <= x.now;
      if run && h.key == key {
        assert Recorded(s1, key, h.now, 0);
        SuppressedWhileRecorded(s1, key, h.now, 0, rest);
      } else {
        AtMostOnce(s1, rest, key, first);
      }
      assert Runs(s, hs, key) == (if run && h.key == key then 1 else 0) + Runs(s1, rest, key);
    }
  }

  ghost predicate Unheard(s: Seen, key: Key) {
    s.WellFormed() && forall i :: 0 <= i < SLOTS ==> s.slots[i].ts == 0 || s.slots[i].key != key
  }

  /** A command not in the ring is run exactly once if any copy of it is heard. */
  lemma {:induction false} ExactlyOnce(s: Seen, hs: seq<Heard>, key: Key, first: nat)
    requires Unheard(s, key) && Ordered(hs) && first > 0
    requires exists h :: h in hs && h.key == key
    requires forall h :: h in hs && h.key == key ==> first <= h.now <= first + WINDOW_MS
    requires News(s, hs) <= SLOTS
    ensures Runs(s, hs, key) == 1
    decreases |hs|
  {
    AtMostOnce(s, hs, key, first);
    var h, rest := hs[0], hs[1..];
    var (s1, run) := Receive(s, h.key, h.now);
    assert News(s, hs) == (if run then 1 else 0) + News(s1, rest);
    if h.key != key {
      assert forall x :: x in hs && x.key == key ==> x in rest;
      ExactlyOnce(s1, rest, key, first);
    }
    assert Runs(s, hs, key) == (if run && h.key == key then 1 else 0) + Runs(s1, rest, key);
  }

  // ------------------------------------------------------------------
  // When a copy is let through again
  // ------------------------------------------------------------------

  /** Of the entries for `key` only the one written at `ts`, `n` entries ago, may suppress; overwritten, none does. */
  ghost predicate OnlyEntry(s: Seen, key: Key, ts: nat, n: nat) {
    && s.WellFormed() && (n < SLOTS ==> Recorded(s, key, ts, n))
    && forall i :: 0 <= i < SLOTS && (n < SLOTS ==> i != Pos(s.idx, n)) ==> s.slots[i].ts == 0 || s.slots[i].key != key
  }

  lemma OnlyEntryStep(s: Seen, key: Key, ts: nat, n: nat, other: Key, now: nat)
    requires OnlyEntry(s, key, ts, n)
    ensures var (s1, run) := Receive(s, other, now);
            if !run then s1 == s else other != key ==> OnlyEntry(s1, key, ts, n + 1)
  {
    if n < SLOTS {
      RecordedKeeps(s, key, ts, n, other, now);
    }
  }

  lemma {:induction false} OnlyEntryRun(s: Seen, key: Key, ts: nat, n: nat, hs: seq<Heard>)
    requires OnlyEntry(s, key, ts, n) && Runs(s, hs, key) == 0
    ensures OnlyEntry(RunSeen(s, hs), key, ts, n + News(s, hs))
    decreases |hs|
  {
    if hs != [] {
      var h, rest := hs[0], hs[1..];
      var (s1, run) := Receive(s, h.key, h.now);
      assert Runs(s, hs, key) == (if run && h.key == key then 1 else 0) + Runs(s1, rest, key);
      assert News(s, hs) == (if run then 1 else 0) + News(s1, rest);
      OnlyEntryStep(s, key, ts, n, h.key, h.now);
      OnlyEntryRun(s1, key, ts, if run then n + 1 else n, rest);
      assert RunSeen(s, hs) == RunSeen(s1, rest);
    }
  }

  /**
   * After a command has been let through at `ts`, and whatever else is heard then: the first copy let
   * through again is one that comes more than five seconds later, or after thirty-two other commands
   * have been recorded, or any at all if the command came at time zero.
   */
  lemma RunsAgainExactly(s: Seen, key: Key, ts: nat, hs: seq<Heard>, now: nat)
    requires OnlyEntry(s, key, ts, 0) && Runs(s, hs, key) == 0 && ts <= now < 0x1_0000_0000
    ensures Receive(RunSeen(s, hs), key, now).1 <==> now - ts > WINDOW_MS || ts == 0 || News(s, hs) >= SLOTS
  {
    OnlyEntryRun(s, key, ts, 0, hs);
    var s1, n := RunSeen(s, hs), News(s, hs);
    if n < SLOTS {
      assert Suppresses(s1.slots[Pos(s1.idx, n)], key, now) <==> now - ts <= WINDOW_MS && ts != 0;
    }
  }

  /** Such a state is what letting the command through leaves. */
  lemma JustLetThrough(s: Seen, key: Key, now: nat)
    requires Unheard(s, key)
    ensures Receive(s, key, now).1 && OnlyEntry(Receive(s, key, now).0, key, now, 0)
  {
  }

  /** Commands of one sender under consecutive numbers from `m` on, all in the same millisecond. */
  function Burst(src: seq<byte>, m: nat, n: nat, cmd: Cmd, now: nat): seq<Heard>
    requires m + n <= 256
    decreases n
  {
    if n == 0 then [] else [Heard(Key(src, m), cmd, now, false)] + Burst(src, m + 1, n - 1, cmd, now)
  }

  /** The ring knows only commands of that sender under numbers below `m`. */
  ghost predicate KnowsBelow(s: Seen, src: seq<byte>, m: nat) {
    && s.WellFormed()
    && forall i :: 0 <= i < SLOTS && s.slots[i].ts != 0 ==> s.slots[i].key.src == src && s.slots[i].key.seqNo < m
  }

  lemma {:induction false} BurstPasses(s: Seen, src: seq<byte>, m: nat, n: nat, cmd: Cmd, now: nat)
    requires KnowsBelow(s, src, m) && 1 <= m && m + n <= 256
    ensures News(s, Burst(src, m, n, cmd, now)) == n && Runs(s, Burst(src, m, n, cmd, now), Key(src, 0)) == 0
    decreases n
  {
    if n > 0 {
      var hs, rest := Burst(src, m, n, cmd, now), Burst(src, m + 1, n - 1, cmd, now);
      assert hs[0] == Heard(Key(src, m), cmd, now, false) && hs[1..] == rest;
      var (s1, run) := Receive(s, Key(src, m), now);
      assert run;
      BurstPasses(s1, src, m + 1, n - 1, cmd, now);
      assert News(s, hs) == 1 + News(s1, rest);
      assert Runs(s, hs, Key(src, 0)) == Runs(s1, rest, Key(src, 0));
    }
  }

  /** Thirty-two commands do make the node forget one: a copy then passes again even in the same millisecond. */
  lemma FloodForgets(s: Seen, src: seq<byte>, cmd: Cmd, now: nat)
    requires s.WellFormed() && (forall i :: 0 <= i < SLOTS ==> s.slots[i].ts == 0) && 0 < now < 0x1_0000_0000
    ensures var key := Key(src, 0);
            var (s1, first) := Receive(s, key, now);
            first && Receive(RunSeen(s1, Burst(src, 1, SLOTS, cmd, now)), key, now).1
  {
    var key := Key(src, 0);
    JustLetThrough(s, key, now);
    var s1 := Receive(s, key, now).0;
    BurstPasses(s1, src, 1, SLOTS, cmd, now);
    RunsAgainExactly(s1, key, now, Burst(src, 1, SLOTS, cmd, now), now);
  }

  // ------------------------------------------------------------------
  // How often a command takes effect
  // ------------------------------------------------------------------

  /** How many of the copies heard of one command take effect on the node. */
  function Done(s: Seen, self: seq<byte>, hs: seq<Heard>, key: Key): nat
    requires s.WellFormed()
    decreases |hs|
  {
    if hs == [] then 0
    else
      var (s1, run) := Receive(s, hs[0].key, hs[0].now);
      (if run && hs[0].key == key && Effects(self, hs[0].phone, hs[0].cmd) != Nothing then 1 else 0)
      + Done(s1, self, hs[1..], key)
  }

  lemma {:induction false} DoneAtMostRuns(s: Seen, self: seq<byte>, hs: seq<Heard>, key: Key)
    requires s.WellFormed()
    ensures Done(s, self, hs, key) <= Runs(s, hs, key)
    decreases |hs|
  {
    if hs != [] {
      var s1 := Receive(s, hs[0].key, hs[0].now).0;
      DoneAtMostRuns(s1, self, hs[1..], key);
    }
  }

  /**
   * Under the same bounds the first copy heard decides: the command takes effect, once, exactly if that
   * copy finds the node addressed and no phone connected. Later copies cannot make up for it.
   */
  lemma {:induction false} FirstCopyDecides(s: Seen, self: seq<byte>, hs: seq<Heard>, key: Key, first: nat, m: nat)
    requires Unheard(s, key) && Ordered(hs) && first > 0
    requires m < |hs| && hs[m].key == key && forall j :: 0 <= j < m ==> hs[j].key != key
    requires forall h :: h in hs && h.key == key ==> first <= h.now <= first + WINDOW_MS
    requires News(s, hs) <= SLOTS
    ensures Done(s, self, hs, key) == if Effects(self, hs[m].phone, hs[m].cmd) != Nothing then 1 else 0
    decreases |hs|
  {
    var h, rest := hs[0], hs[1..];
    var (s1, run) := Receive(s, h.key, h.now);
    assert News(s, hs) == (if run then 1 else 0) + News(s1, rest);
    assert Done(s, self, hs, key) == (if run && h.key == key && Effects(self, h.phone, h.cmd) != Nothing then 1 else 0)
                                     + Done(s1, self, rest, key);
    assert forall x :: x in rest ==> h.now <= x.now;
    if m == 0 {
      JustLetThrough(s, key, h.now);
      SuppressedWhileRecorded(s1, key, h.now, 0, rest);
      DoneAtMostRuns(s1, self, rest, key);
    } else {
      assert rest[m - 1] == hs[m];
      FirstCopyDecides(s1, self, rest, key, first, m - 1);
    }
  }

  // ------------------------------------------------------------------
  // Whom a command concerns
  // ------------------------------------------------------------------

  /** The command as it is carried out: its payload cut at 32 bytes. */
  function Cut(cmd: Cmd): Cmd {
    cmd.(payload := if |cmd.payload| > 32 then cmd.payload[..32] else cmd.payload)
  }

  /**
   * An enable of the foxhunter, of UniPwn or of the capture must carry the node's id and a NUL; any other
   * command but a denial is for every node. No phone may be connected.
   */
  lemma TakesEffectExactly(self: seq<byte>, phone: bool, cmd: Cmd)
    requires |self| == 4 && cmd.command != 0x12
    ensures Effects(self, phone, cmd)
            == if !phone && (cmd.command == 0x01 && cmd.engine in {3, 5, 7} ==>
                               |cmd.payload| >= 5 && cmd.payload[..4] == self && cmd.payload[4] == 0)
               then Executes(Cut(cmd)) else Nothing
  {
    if |cmd.payload| >= 5 {
      assert cmd.payload[..5] == cmd.payload[..4] + [cmd.payload[4]];
    }
  }

  ghost predicate Fleet(ids: seq<seq<byte>>) {
    && (forall j :: 0 <= j < |ids| ==> |ids[j]| == 4)
    && forall j, k :: 0 <= j < k < |ids| ==> ids[j] != ids[k]
  }

  /** Of a fleet exactly the node named carries out such an enable, and none if the name is cut short. */
  lemma EnableNamesOne(ids: seq<seq<byte>>, i: nat, engine: byte, j: nat)
    requires Fleet(ids) && i < |ids| && j < |ids| && engine in {3, 5, 7}
    ensures var cmd := Cmd(0x01, engine, ids[i] + [0]);
            Effects(ids[j], false, cmd) == if j == i then Executes(cmd) else Nothing
    ensures forall n: nat :: n < 5 ==> Effects(ids[j], false, Cmd(0x01, engine, (ids[i] + [0])[..n])) == Nothing
  {
    var cmd := Cmd(0x01, engine, ids[i] + [0]);
    assert cmd.payload[..4] == ids[i];
    TakesEffectExactly(ids[j], false, cmd);
    forall n: nat | n < 5
      ensures Effects(ids[j], false, Cmd(0x01, engine, (ids[i] + [0])[..n])) == Nothing
    {
      TakesEffectExactly(ids[j], false, Cmd(0x01, engine, (ids[i] + [0])[..n]));
    }
  }

  /** A denial that names a node reaches that node alone, with the byte behind the address; one that does not, all. */
  lemma DenialNamesOne(ids: seq<seq<byte>>, i: nat, engine: byte, mask: byte, j: nat)
    requires Fleet(ids) && i < |ids| && j < |ids|
    ensures Effects(ids[j], false, Cmd(0x12, engine, [0xFE] + ids[i] + [0] + [mask]))
            == if j == i then Denies(mask) else Nothing
    ensures forall p :: p != [] && (|p| < 6 || p[0] != 0xFE) ==>
              Effects(ids[j], false, Cmd(0x12, engine, p)) == Denies(p[0])
    ensures Effects(ids[j], false, Cmd(0x12, engine, [])) == Nothing
    ensures forall p :: Effects(ids[j], true, Cmd(0x12, engine, p)) == Nothing
  {
    var p := [0xFE] + ids[i] + [0] + [mask];
    assert p[1..5] == ids[i] && p[6..] == [mask];
  }

  /** All copies of `key` that are heard carry `cmd` and find no phone. */
  ghost predicate AllCarry(hs: seq<Heard>, key: Key, cmd: Cmd) {
    forall h :: h in hs && h.key == key ==> h.cmd == cmd && !h.phone
  }

  /**
   * Whatever copies of it each node of a fleet hears, and what else: such an enable starts the engine once on the
   * node it names, and on no other.
   */
  lemma EnableStartsOne(s: Seen, ids: seq<seq<byte>>, i: nat, engine: byte, j: nat, hs: seq<Heard>, key: Key,
                        first: nat, m: nat)
    requires Fleet(ids) && i < |ids| && j < |ids| && engine in {3, 5, 7}
    requires AllCarry(hs, key, Cmd(0x01, engine, ids[i] + [0]))
    requires Unheard(s, key) && Ordered(hs) && first > 0
    requires m < |hs| && hs[m].key == key && forall k :: 0 <= k < m ==> hs[k].key != key
    requires forall h :: h in hs && h.key == key ==> first <= h.now <= first + WINDOW_MS
    requires News(s, hs) <= SLOTS
    ensures Done(s, ids[j], hs, key) == if j == i then 1 else 0
  {
    EnableNamesOne(ids, i, engine, j);
    assert hs[m] in hs;
    FirstCopyDecides(s, ids[j], hs, key, first, m);
  }
}
