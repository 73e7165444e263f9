/**
 * The node's side of channel slicing: a configuration addressed to one node
 * sets its channel range, from which it builds the schedule it hops through.
 */
module WardriveNode {
  import opened Bytes
  import opened Slicing
  import opened CmdReceive
  import CmdSend

  const MAX_HOPS := 32
  const MESH_CHANNEL: byte := 1
  const CONFIGURE: byte := 0x10
  const WARDRIVE: byte := 6

  datatype Settings = Settings(
    radio: byte, priorityMs: nat, normalMs: nat, bleMs: nat, bleEveryMs: nat, start: byte, end: byte)

  function AtLeast(x: nat, least: nat): nat { if x < least then least else x }

  /** The settings a stripped, non-empty payload leaves: each group only if the payload is long enough. */
  function Applied(s: Settings, p: seq<byte>): Settings
    requires |p| >= 1
  {
    var radio := if p[0] % 4 == 0 then 3 else p[0] % 4;
    var s1 := s.(radio := radio);
    var s2 := if |p| < 5 then s1
              else s1.(priorityMs := AtLeast(Le16(p[1], p[2]), 50), normalMs := AtLeast(Le16(p[3], p[4]), 50));
    var s3 := if |p| < 9 then s2
              else
                var dur := AtLeast(Le16(p[5], p[6]), 100);
                s2.(bleMs := dur, bleEveryMs := AtLeast(Le16(p[7], p[8]), Min(dur + 100, 0xFFFF)));
    if |p| >= 11 && Range(p[9], p[10]) then s3.(start := p[9], end := p[10]) else s3
  }

  // ------------------------------------------------------------------
  // The hop schedule
  // ------------------------------------------------------------------

  function Channels(lo: byte, hi: byte): (cs: seq<byte>)
    requires hi < 255
    ensures forall c: byte :: c in cs <==> lo <= c <= hi
    ensures |cs| == if lo <= hi then hi - lo + 1 else 0
    decreases hi - lo
  {
    if lo > hi then [] else [lo] + Channels(lo + 1, hi)
  }

  lemma {:induction false} ChannelsSnoc(lo: byte, c: byte)
    requires 1 <= lo <= c < 255
    ensures Channels(lo, c) == Channels(lo, c - 1) + [c]
    decreases c - lo
  {
    if lo < c {
      ChannelsSnoc(lo + 1, c);
      assert Channels(lo, c) == [lo] + Channels(lo + 1, c);
      assert Channels(lo, c - 1) == [lo] + Channels(lo + 1, c - 1);
    }
  }

  function Priorities(lo: byte, hi: byte): (cs: seq<byte>)
    ensures |cs| <= 3 && forall c :: c in cs ==> lo <= c <= hi
  {
    (if lo <= 1 <= hi then [1] else []) + (if lo <= 6 <= hi then [6] else []) + (if lo <= 11 <= hi then [11] else [])
  }

  /**
   * The range once through, its busy channels again, and the mesh channel if a manager is heard and it is not
   * there yet.
   */
  function Schedule(lo: byte, hi: byte, meshed: bool): seq<byte>
    requires hi < 255
  {
    var base := Channels(lo, hi) + Priorities(lo, hi);
    base + if meshed && MESH_CHANNEL !in base then [MESH_CHANNEL] else []
  }

  /** The schedule holds the whole range and nothing else but the mesh channel, and fits the table. */
  lemma ScheduleHolds(lo: byte, hi: byte, meshed: bool)
    requires Range(lo, hi)
    ensures var s := Schedule(lo, hi, meshed);
            && 1 <= |s| <= MAX_HOPS
            && (forall c: byte :: lo <= c <= hi ==> c in s)
            && (forall c :: c in s ==> lo <= c <= hi || (meshed && c == MESH_CHANNEL))
            && (meshed ==> MESH_CHANNEL in s)
  {
  }

  /** A node: its settings, whether it scans, and its schedule with the position in it. */
  datatype Node = Node(conf: Settings, active: bool, sched: seq<byte>, hop: nat)

  ghost predicate Sound(n: Node) {
    && Range(n.conf.start, n.conf.end)
    && 1 <= |n.sched| <= MAX_HOPS && n.hop < |n.sched|
    && (n.active ==> forall c: byte :: n.conf.start <= c <= n.conf.end ==> c in n.sched)
  }

  function Rebuilt(n: Node, s: Settings, meshed: bool): Node
    requires Range(s.start, s.end)
  {
    Node(s, n.active, Schedule(s.start, s.end, meshed), 0)
  }

  /** A configuration that changes nothing the schedule depends on leaves it alone while scanning. */
  predicate Rebuilds(n: Node, s: Settings) {
    !n.active || s.radio != n.conf.radio || s.start != n.conf.start || s.end != n.conf.end
    || s.priorityMs != n.conf.priorityMs || s.normalMs != n.conf.normalMs
  }

  function Configured(n: Node, self: Id, payload: seq<byte>, meshed: bool): Node
    requires Range(n.conf.start, n.conf.end)
  {
    if |payload| < 1 then n
    else
      var stripped := Strip(payload, self);
      if stripped.None? || |stripped.value| < 1 then n
      else
        var s := Applied(n.conf, stripped.value);
        if Rebuilds(n, s) then Rebuilt(n, s, meshed) else n.(conf := s)
  }

  lemma ConfiguredSound(n: Node, self: Id, payload: seq<byte>, meshed: bool)
    requires Sound(n)
    ensures Sound(Configured(n, self, payload, meshed))
  {
    var r := Configured(n, self, payload, meshed);
    ScheduleHolds(r.conf.start, r.conf.end, meshed);
  }

  function Hopped(n: Node): Node
    requires n.hop < |n.sched|
  {
    n.(hop := if n.hop + 1 >= |n.sched| then 0 else n.hop + 1)
  }

  class WardriveEngine {
    const schedule: array<byte>
    const dwell: array<nat>
    var len: nat
    var hopIdx: nat
    var channel: byte
    var active: bool
    var conf: Settings

    ghost predicate Valid()
      reads this, schedule, dwell
    {
      && schedule.Length == MAX_HOPS && dwell.Length == MAX_HOPS && len <= MAX_HOPS && Sound(Abs())
      && (active ==> channel == schedule[hopIdx] && forall i :: 0 <= i < len ==> dwell[i] == Dwell(conf, schedule[i]))
    }

    ghost function Abs(): Node
      requires len <= schedule.Length
      reads this, schedule
    {
      Node(conf, active, schedule[..len], hopIdx)
    }

    constructor ()
      ensures Valid() && fresh(schedule) && fresh(dwell)
      ensures Abs() == Node(Settings(3, 300, 110, 800, 3000, 1, 14), false, [0], 0)
    {
      schedule := new byte[MAX_HOPS](_ => 0);
      dwell := new nat[MAX_HOPS](_ => 0);
      len, hopIdx, channel, active := 1, 0, 1, false;
      conf := Settings(3, 300, 110, 800, 3000, 1, 14);
      new;
      assert schedule[..1] == [0];
    }

    /** Every slot carries the dwell of its channel. */
    ghost predicate Timed()
      reads this, schedule, dwell
    {
      && schedule.Length == MAX_HOPS && dwell.Length == MAX_HOPS && len <= MAX_HOPS
      && forall i :: 0 <= i < len ==> dwell[i] == Dwell(conf, schedule[i])
    }

    method Put(c: byte)
      requires Timed() && len < MAX_HOPS
      modifies schedule, dwell, `len
      ensures Timed() && len == old(len) + 1 && schedule[..len] == old(schedule[..len]) + [c]
    {
      schedule[len], dwell[len] := c, Dwell(conf, c);
      len := len + 1;
    }

    method PutRange()
      requires schedule.Length == MAX_HOPS && dwell.Length == MAX_HOPS && len == 0 && Range(conf.start, conf.end)
      modifies schedule, dwell, `len
      ensures Timed() && schedule[..len] == Channels(conf.start, conf.end)
    {
      var c := conf.start;
      while c <= conf.end && len < MAX_HOPS
        invariant conf.start <= c <= conf.end + 1 && Timed() && len == c - conf.start
        invariant schedule[..len] == Channels(conf.start, c - 1)
        decreases conf.end + 1 - c
      {
        ChannelsSnoc(conf.start, c);
        Put(c);
        c := c + 1;
      }
    }

    method PutPriority(c: byte)
      requires Timed() && len < MAX_HOPS
      modifies schedule, dwell, `len
      ensures Timed() && len <= old(len) + 1
      ensures schedule[..len] == old(schedule[..len]) + if conf.start <= c <= conf.end then [c] else []
    {
      if c >= conf.start && c <= conf.end { Put(c); }
    }

    method PutPriorities()
      requires Timed() && len + 3 <= MAX_HOPS
      modifies schedule, dwell, `len
      ensures Timed() && len <= old(len) + 3
      ensures schedule[..len] == old(schedule[..len]) + Priorities(conf.start, conf.end)
    {
      PutPriority(1);
      PutPriority(6);
      PutPriority(11);
    }

    method PutMesh(meshed: bool)
      requires Timed() && len < MAX_HOPS
      modifies schedule, dwell, `len
      ensures Timed()
      ensures schedule[..len] ==
          old(schedule[..len]) + if meshed && MESH_CHANNEL !in old(schedule[..len]) then [MESH_CHANNEL] else []
    {
      if meshed {
        var has := HasMeshChannel();
        if !has { Put(MESH_CHANNEL); }
      }
    }

    method BuildSchedule(meshed: bool)
      requires schedule.Length == MAX_HOPS && dwell.Length == MAX_HOPS && Range(conf.start, conf.end)
      modifies schedule, dwell, `len, `hopIdx, `channel
      ensures Timed() && 1 <= len && schedule[..len] == Schedule(conf.start, conf.end, meshed)
      ensures hopIdx == 0 && channel == schedule[0]
    {
      len := 0;
      PutRange();
      PutPriorities();
      PutMesh(meshed);
      ScheduleHolds(conf.start, conf.end, meshed);
      hopIdx, channel := 0, schedule[0];
    }

    method HasMeshChannel() returns (has: bool)
      requires len <= schedule.Length
      ensures has <==> MESH_CHANNEL in schedule[..len]
    {
      has := false;
      for i := 0 to len
        invariant has <==> MESH_CHANNEL in schedule[..i]
      {
        if schedule[i] == MESH_CHANNEL { has := true; }
      }
    }

    method Configure(self: Id, payload: seq<byte>, meshed: bool)
      requires Valid()
      modifies this, schedule, dwell
      ensures Valid() && Abs() == Configured(old(Abs()), self, payload, meshed)
    {
      ConfiguredSound(Abs(), self, payload, meshed);
      if |payload| < 1 { return; }
      var stripped := Strip(payload, self);
      if stripped.None? || |stripped.value| < 1 { return; }
      var was := conf;
      conf := Applied(conf, stripped.value);
      if (active && conf.radio != was.radio)
         || conf.start != was.start || conf.end != was.end
         || conf.priorityMs != was.priorityMs || conf.normalMs != was.normalMs || !active {
        BuildSchedule(meshed);
      }
    }

    method Start(meshed: bool)
      requires Valid()
      modifies this, schedule, dwell
      ensures Valid() && Abs() == Rebuilt(old(Abs()), old(conf), meshed).(active := true)
    {
      active := true;
      ScheduleHolds(conf.start, conf.end, meshed);
      BuildSchedule(meshed);
    }

    method Hop()
      requires Valid() && active
      modifies `hopIdx, `channel
      ensures Valid() && Abs() == Hopped(old(Abs())) && channel == Abs().sched[hopIdx]
    {
      hopIdx := hopIdx + 1;
      if hopIdx >= len { hopIdx := 0; }
      channel := schedule[hopIdx];
    }
  }

  predicate Busy(c: byte) {
    c == 1 || c == 6 || c == 11 || c == 44 || c == 149 || c == 157
  }

  function Dwell(s: Settings, c: byte): nat { if Busy(c) then s.priorityMs else s.normalMs }

  // ------------------------------------------------------------------
  // A sweep
  // ------------------------------------------------------------------

  function Hops(n: Node, k: nat): (r: Node)
    requires n.hop < |n.sched|
    ensures r.sched == n.sched && r.hop < |r.sched|
  {
    if k == 0 then n else Hopped(Hops(n, k - 1))
  }

  lemma {:induction false} HopsAhead(n: Node, k: nat)
    requires n.hop + k < |n.sched|
    ensures Hops(n, k).hop == n.hop + k
  {
    if k > 0 {
      HopsAhead(n, k - 1);
    }
  }

  lemma {:induction false} HopsWrap(n: Node, k: nat)
    requires n.hop < |n.sched| && |n.sched| <= n.hop + k < 2 * |n.sched|
    ensures Hops(n, k).hop == n.hop + k - |n.sched|
  {
    if n.hop + k == |n.sched| {
      HopsAhead(n, k - 1);
    } else {
      HopsWrap(n, k - 1);
    }
  }

  /** Wherever the hopping stands, every channel of the schedule is tuned within one schedule's length of hops. */
  lemma SweepTunes(n: Node, c: byte) returns (k: nat)
    requires n.hop < |n.sched| && c in n.sched
    ensures 1 <= k <= |n.sched| && Hops(n, k).sched[Hops(n, k).hop] == c
  {
    var t :| 0 <= t < |n.sched| && n.sched[t] == c;
    if t > n.hop {
      k := t - n.hop;
      HopsAhead(n, k);
    } else {
      k := t + |n.sched| - n.hop;
      HopsWrap(n, k);
    }
  }

  // ------------------------------------------------------------------
  // The fleet
  // ------------------------------------------------------------------

  /** The configuration message for one node: its id, then the common settings with its radio and channels. */
  function Message(cfg: seq<byte>, s: Share): seq<byte>
    requires 11 <= |cfg|
  {
    [TARGET_PREFIX] + s.id + [0] + cfg[..Min(|cfg|, 64)][0 := s.radio][9 := s.start][10 := s.end]
  }

  /**
   * What the message does to a node that hears it: it is broadcast as a command, and carried out if no phone
   * is there.
   */
  function Delivered(n: Node, self: Id, cfg: seq<byte>, s: Share, phone: bool, meshed: bool): (r: Node)
    requires Range(n.conf.start, n.conf.end) && 11 <= |cfg|
    ensures Range(r.conf.start, r.conf.end) && r.active == n.active
  {
    var e := Effects(self, phone, CmdSend.Carried(Cmd(CONFIGURE, WARDRIVE, Message(cfg, s))));
    if e.Executes? then Configured(n, self, e.cmd.payload, meshed) else n
  }

  /** A command carries 32 bytes, six of which are the address. */
  const CFG_MAX := 26

  lemma CarriedWhole(self: Id, phone: bool, cfg: seq<byte>, s: Share)
    requires 11 <= |cfg| && |s.id| == 4
    ensures var m := Message(cfg, s);
            Effects(self, phone, CmdSend.Carried(Cmd(CONFIGURE, WARDRIVE, m)))
            == if phone then Nothing
               else Executes(Cmd(CONFIGURE, WARDRIVE, if |cfg| <= CFG_MAX then m else []))
  {
    var m := Message(cfg, s);
    assert |m| == 6 + Min(|cfg|, 64);
    assert |m| <= PAYLOAD_MAX ==> m[..Min(|m|, PAYLOAD_MAX)] == m;
  }

  /** The four times are those of the configuration, each no less than the least the node allows. */
  predicate TimesOf(s: Settings, cfg: seq<byte>)
    requires 11 <= |cfg|
  {
    && s.priorityMs == AtLeast(Le16(cfg[1], cfg[2]), 50) && s.normalMs == AtLeast(Le16(cfg[3], cfg[4]), 50)
    && s.bleMs == AtLeast(Le16(cfg[5], cfg[6]), 100)
    && s.bleEveryMs == AtLeast(Le16(cfg[7], cfg[8]), Min(s.bleMs + 100, 0xFFFF))
  }

  /**
   * The node a share is meant for takes exactly its channels and schedules them all, if the configuration
   * fits a command and no phone is connected to the node; else it stays as it was.
   */
  lemma MessageArrives(n: Node, cfg: seq<byte>, s: Share, phone: bool, meshed: bool)
    requires Sound(n) && 11 <= |cfg| && |s.id| == 4 && Range(s.start, s.end)
    ensures var r := Delivered(n, s.id, cfg, s, phone, meshed);
            && Sound(r)
            && (if |cfg| <= CFG_MAX && !phone then
                  && r.conf.start == s.start && r.conf.end == s.end
                  && r.conf.radio == (if s.radio % 4 == 0 then 3 else s.radio % 4)
                  && TimesOf(r.conf, cfg)
                  && forall c: byte :: s.start <= c <= s.end ==> c in r.sched
                else r == n)
  {
    CarriedWhole(s.id, phone, cfg, s);
    if |cfg| <= CFG_MAX && !phone {
      TakesShare(n, cfg, s, meshed);
      ConfiguredSound(n, s.id, Message(cfg, s), meshed);
    }
  }

  /** What the address leaves of the message: the common settings with the node's radio and channels. */
  lemma MessageBody(cfg: seq<byte>, s: Share) returns (body: seq<byte>)
    requires 11 <= |cfg| && |s.id| == 4
    ensures Strip(Message(cfg, s), s.id) == Some(body)
    ensures |body| >= 11 && body[0] == s.radio && body[9] == s.start && body[10] == s.end
    ensures forall k :: 1 <= k < 9 ==> body[k] == cfg[k]
  {
    var m := Message(cfg, s);
    body := cfg[..Min(|cfg|, 64)][0 := s.radio][9 := s.start][10 := s.end];
    assert m[1..5] == s.id && m[6..] == body;
  }

  lemma AppliedShare(c: Settings, body: seq<byte>)
    requires |body| >= 11 && Range(body[9], body[10])
    ensures var r := Applied(c, body);
            && r.start == body[9] && r.end == body[10] && TimesOf(r, body)
            && r.radio == if body[0] % 4 == 0 then 3 else body[0] % 4
  {
  }

  /** Whether or not the schedule is built anew, it then holds the whole range. */
  lemma ScheduleFollows(n: Node, s: Settings, meshed: bool)
    requires Sound(n) && Range(s.start, s.end)
    ensures var r := if Rebuilds(n, s) then Rebuilt(n, s, meshed) else n.(conf := s);
            r.conf == s && forall c: byte :: s.start <= c <= s.end ==> c in r.sched
  {
    ScheduleHolds(s.start, s.end, meshed);
  }

  lemma TakesShare(n: Node, cfg: seq<byte>, s: Share, meshed: bool)
    requires Sound(n) && 11 <= |cfg| && |s.id| == 4 && Range(s.start, s.end)
    ensures var r := Configured(n, s.id, Message(cfg, s), meshed);
            && r.conf.start == s.start && r.conf.end == s.end && TimesOf(r.conf, cfg)
            && r.conf.radio == (if s.radio % 4 == 0 then 3 else s.radio % 4)
            && forall c: byte :: s.start <= c <= s.end ==> c in r.sched
  {
    var body := MessageBody(cfg, s);
    AppliedShare(n.conf, body);
    ScheduleFollows(n, Applied(n.conf, body), meshed);
  }

  /** Every other node ignores it. */
  lemma OthersIgnore(n: Node, self: Id, cfg: seq<byte>, s: Share, phone: bool, meshed: bool)
    requires Sound(n) && 11 <= |cfg| && |s.id| == 4 && self != s.id
    ensures Delivered(n, self, cfg, s, phone, meshed) == n
  {
    CarriedWhole(self, phone, cfg, s);
    assert Message(cfg, s)[1..5] == s.id;
  }

  /** A node after the messages for the first `m` nodes, all of which it hears. */
  function AfterAll(n: Node, self: Id, cfg: seq<byte>, shares: seq<Share>, m: nat, phone: bool, meshed: bool): (r: Node)
    requires Range(n.conf.start, n.conf.end) && 11 <= |cfg| && m <= |shares|
    ensures Range(r.conf.start, r.conf.end) && r.active == n.active
  {
    if m == 0 then n
    else Delivered(AfterAll(n, self, cfg, shares, m - 1, phone, meshed), self, cfg, shares[m - 1], phone, meshed)
  }

  ghost predicate Addressed(shares: seq<Share>) {
    && (forall j :: 0 <= j < |shares| ==> |shares[j].id| == 4)
    && forall j, k :: 0 <= j < k < |shares| ==> shares[j].id != shares[k].id
  }

  lemma DeliveredSound(n: Node, cfg: seq<byte>, s: Share, phone: bool, meshed: bool)
    requires Sound(n) && 11 <= |cfg| && |s.id| == 4 && Range(s.start, s.end)
    ensures Sound(Delivered(n, s.id, cfg, s, phone, meshed))
  {
    MessageArrives(n, cfg, s, phone, meshed);
  }

  lemma {:induction false} IgnoredBefore(n: Node, cfg: seq<byte>, shares: seq<Share>, i: nat, m: nat, phone: bool,
                                         meshed: bool)
    requires Sound(n) && 11 <= |cfg| && Addressed(shares) && m <= i < |shares|
    ensures AfterAll(n, shares[i].id, cfg, shares, m, phone, meshed) == n
  {
    if m > 0 {
      IgnoredBefore(n, cfg, shares, i, m - 1, phone, meshed);
      OthersIgnore(n, shares[i].id, cfg, shares[m - 1], phone, meshed);
    }
  }

  lemma {:induction false} IgnoredAfter(n: Node, own: Node, cfg: seq<byte>, shares: seq<Share>, i: nat, m: nat,
                                        phone: bool, meshed: bool)
    requires Sound(n) && 11 <= |cfg| && Addressed(shares) && i < m <= |shares| && Sound(own)
    requires own == AfterAll(n, shares[i].id, cfg, shares, i + 1, phone, meshed)
    ensures AfterAll(n, shares[i].id, cfg, shares, m, phone, meshed) == own
    decreases m
  {
    if m > i + 1 {
      IgnoredAfter(n, own, cfg, shares, i, m - 1, phone, meshed);
      assert shares[m - 1].id != shares[i].id;
      OthersIgnore(own, shares[i].id, cfg, shares[m - 1], phone, meshed);
    }
  }

  /** Of all the messages a node hears only its own counts. */
  lemma OnlyOwnCounts(n: Node, cfg: seq<byte>, shares: seq<Share>, i: nat, phone: bool, meshed: bool)
    requires Sound(n) && 11 <= |cfg| && Addressed(shares) && i < |shares|
    requires Range(shares[i].start, shares[i].end)
    ensures AfterAll(n, shares[i].id, cfg, shares, |shares|, phone, meshed)
            == Delivered(n, shares[i].id, cfg, shares[i], phone, meshed)
  {
    IgnoredBefore(n, cfg, shares, i, i, phone, meshed);
    DeliveredSound(n, cfg, shares[i], phone, meshed);
    var own := AfterAll(n, shares[i].id, cfg, shares, i + 1, phone, meshed);
    assert own == Delivered(n, shares[i].id, cfg, shares[i], phone, meshed);
    IgnoredAfter(n, own, cfg, shares, i, |shares|, phone, meshed);
  }

  /** So a node that scans ends up with its own share, and goes on scanning. */
  lemma OwnShareTaken(n: Node, cfg: seq<byte>, shares: seq<Share>, i: nat, meshed: bool) returns (r: Node)
    requires Sound(n) && 11 <= |cfg| <= CFG_MAX && Addressed(shares) && i < |shares|
    requires Range(shares[i].start, shares[i].end) && shares[i].radio % 2 == 1
    ensures r == AfterAll(n, shares[i].id, cfg, shares, |shares|, false, meshed)
    ensures Sound(r) && r.active == n.active && r.conf.radio % 2 == 1
    ensures forall c: byte :: shares[i].start <= c <= shares[i].end ==> c in r.sched
  {
    OnlyOwnCounts(n, cfg, shares, i, false, meshed);
    MessageArrives(n, cfg, shares[i], false, meshed);
    OddRadio(shares[i].radio);
    r := AfterAll(n, shares[i].id, cfg, shares, |shares|, false, meshed);
  }

  lemma OddRadio(radio: byte)
    requires radio % 2 == 1
    ensures radio % 4 != 0 && radio % 4 % 2 == 1
  {
  }

  /** The shares the manager's loop sends out. */
  function Shares(ids: seq<Id>, radios: seq<RadioEntry>, fanout: bool, cfg: seq<byte>): (shares: seq<Share>)
    requires 11 <= |cfg|
    ensures |shares| == |ids| && forall i :: 0 <= i < |ids| ==> shares[i].id == ids[i]
  {
    var sky, lo, hi := Sky(fanout, ids), First(cfg[9]), Last(cfg[9], cfg[10]);
    seq(|ids|, i requires 0 <= i < |ids| => ShareOf(radios, sky, ids, lo, hi, Rank(radios, sky, ids, |ids|), i))
  }

  /**
   * The payloads the manager broadcasts for a configuration: the configuration itself if it holds no channels
   * or no node is live, else one message for each node, in the order of the list.
   */
  method Broadcast(cfg: seq<byte>, ids: seq<Id>, radios: seq<RadioEntry>, fanout: bool) returns (out: seq<seq<byte>>)
    ensures |cfg| < 11 || ids == [] ==> out == [cfg]
    ensures |cfg| >= 11 && ids != [] ==>
              var shares := Shares(ids, radios, fanout, cfg);
              |out| == |ids| && forall i :: 0 <= i < |ids| ==> out[i] == Message(cfg, shares[i])
  {
    if |cfg| < 11 || |ids| == 0 { return [cfg]; }
    var shares := SliceFleet(ids, radios, fanout, cfg[9], cfg[10]);
    assert shares == Shares(ids, radios, fanout, cfg);
    out := [];
    for i := 0 to |ids|
      invariant |out| == i && forall j :: 0 <= j < i ==> out[j] == Message(cfg, shares[j])
    {
      out := out + [Message(cfg, shares[i])];
    }
  }

  /** Nodes of different ids, all of which scan. */
  ghost predicate Scanning(ids: seq<Id>, nodes: seq<Node>) {
    && |nodes| == |ids|
    && (forall j :: 0 <= j < |ids| ==> |ids[j]| == 4)
    && (forall j :: 0 <= j < |nodes| ==> Sound(nodes[j]) && nodes[j].active)
    && forall j, m :: 0 <= j < m < |ids| ==> ids[j] != ids[m]
  }

  /**
   * The main result: whatever the nodes did before, once each has heard every message of the broadcast, the
   * fleet tunes every channel of the range asked for, each within one sweep of some node that scans WiFi.
   */
  lemma FleetSweeps(ids: seq<Id>, radios: seq<RadioEntry>, fanout: bool, cfg: seq<byte>, nodes: seq<Node>,
                    meshed: bool, c: byte)
    returns (i: nat, node: Node, k: nat)
    requires 11 <= |cfg| <= CFG_MAX && Scanning(ids, nodes)
    requires Range(First(cfg[9]), Last(cfg[9], cfg[10])) && First(cfg[9]) <= c <= Last(cfg[9], cfg[10])
    requires Rank(radios, Sky(fanout, ids), ids, |ids|) >= 1
    ensures i < |ids| && Scans(radios, Sky(fanout, ids), ids[i]) && Sound(nodes[i])
    ensures node == AfterAll(nodes[i], ids[i], cfg, Shares(ids, radios, fanout, cfg), |ids|, false, meshed)
    ensures Sound(node) && node.active && node.conf.radio % 2 == 1
    ensures 1 <= k <= |node.sched| && Hops(node, k).sched[Hops(node, k).hop] == c
  {
    var sky, lo, hi := Sky(fanout, ids), First(cfg[9]), Last(cfg[9], cfg[10]);
    i := SharesCover(radios, sky, ids, lo, hi, c);
    SharesInRange(radios, sky, ids, lo, hi, i);
    var shares := Shares(ids, radios, fanout, cfg);
    assert Addressed(shares);
    node := OwnShareTaken(nodes[i], cfg, shares, i, meshed);
    k := SweepTunes(node, c);
  }
}
