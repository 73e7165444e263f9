/**
 * What the times of a wardriving configuration do: how they arrive at a node,
 * and how long it then stays on each channel.
 */
module WardriveSettings {
  import opened Bytes
  import opened Slicing
  import opened CmdReceive
  import opened WardriveNode

  /** A configuration as its sender writes it: a radio mask, four times, and the first and last channel. */
  function Written(c: Settings): (p: seq<byte>)
    requires c.priorityMs < 0x1_0000 && c.normalMs < 0x1_0000 && c.bleMs < 0x1_0000 && c.bleEveryMs < 0x1_0000
    ensures |p| == 11
  {
    [c.radio] + ToLe16(c.priorityMs) + ToLe16(c.normalMs) + ToLe16(c.bleMs) + ToLe16(c.bleEveryMs) + [c.start, c.end]
  }

  function Most(a: nat, b: nat): nat { if a >= b then a else b }

  /**
   * Each group arrives if the payload is long enough for it: the radios, both if none is named; the two dwell
   * times, at least 50 ms; a Bluetooth scan of at least 100 ms, and a period at least 100 ms longer as far as
   * 16 bits go; and the channels, if they are a range from 1 to 14.
   */
  lemma SettingsArrive(n: Node, self: Id, c: Settings, k: nat, meshed: bool)
    requires Sound(n) && k <= 11 && c.radio != 0xFE
    requires c.priorityMs < 0x1_0000 && c.normalMs < 0x1_0000 && c.bleMs < 0x1_0000 && c.bleEveryMs < 0x1_0000
    ensures var r, was := Configured(n, self, Written(c)[..k], meshed).conf, n.conf;
            && r.radio == (if k < 1 then was.radio else if c.radio % 4 == 0 then 3 else c.radio % 4)
            && r.priorityMs == (if k < 5 then was.priorityMs else Most(c.priorityMs, 50))
            && r.normalMs == (if k < 5 then was.normalMs else Most(c.normalMs, 50))
            && r.bleMs == (if k < 9 then was.bleMs else Most(c.bleMs, 100))
            && r.bleEveryMs == (if k < 9 then was.bleEveryMs
                                else Most(c.bleEveryMs, Min(Most(c.bleMs, 100) + 100, 65535)))
            && (if k == 11 && 1 <= c.start <= c.end <= 14 then r.start == c.start && r.end == c.end
                else r.start == was.start && r.end == was.end)
  {
    var p := Written(c);
    FieldsStand(c);
    assert forall i :: 0 <= i < k ==> p[..k][i] == p[i];
  }

  /**
   * A scan under way goes on where it is if the radios, the two dwell times and the channels stay as they were;
   * any other configuration that a node takes sends it back to the start of its schedule.
   */
  lemma SweepGoesOn(n: Node, self: Id, c: Settings, k: nat, meshed: bool)
    requires Sound(n) && 1 <= k <= 11 && c.radio != 0xFE
    requires c.priorityMs < 0x1_0000 && c.normalMs < 0x1_0000 && c.bleMs < 0x1_0000 && c.bleEveryMs < 0x1_0000
    ensures var r := Configured(n, self, Written(c)[..k], meshed);
            && (n.active && (r.conf.radio, r.conf.priorityMs, r.conf.normalMs, r.conf.start, r.conf.end)
                            == (n.conf.radio, n.conf.priorityMs, n.conf.normalMs, n.conf.start, n.conf.end)
                ==> r.hop == n.hop && r.sched == n.sched)
            && (!n.active || (r.conf.radio, r.conf.priorityMs, r.conf.normalMs, r.conf.start, r.conf.end)
                             != (n.conf.radio, n.conf.priorityMs, n.conf.normalMs, n.conf.start, n.conf.end)
                ==> r.hop == 0 && r.sched == Schedule(r.conf.start, r.conf.end, meshed))
            && r.active == n.active
  {
    var p := Written(c);
    assert forall i :: 0 <= i < k ==> p[..k][i] == p[i];
  }

  lemma FieldsStand(c: Settings)
    requires c.priorityMs < 0x1_0000 && c.normalMs < 0x1_0000 && c.bleMs < 0x1_0000 && c.bleEveryMs < 0x1_0000
    ensures var p := Written(c);
            && p[0] == c.radio && Le16(p[1], p[2]) == c.priorityMs && Le16(p[3], p[4]) == c.normalMs
            && Le16(p[5], p[6]) == c.bleMs && Le16(p[7], p[8]) == c.bleEveryMs && p[9] == c.start && p[10] == c.end
  {
  }

  /** How long a sequence of channels takes. */
  function TimeOn(s: Settings, cs: seq<byte>): nat {
    if cs == [] then 0 else TimeOn(s, cs[..|cs| - 1]) + Dwell(s, cs[|cs| - 1])
  }

  lemma {:induction false} TimeAppend(s: Settings, a: seq<byte>, b: seq<byte>)
    ensures TimeOn(s, a + b) == TimeOn(s, a) + TimeOn(s, b)
    decreases |b|
  {
    if b == [] {
      assert a + b == a;
    } else {
      TimeAppend(s, a, b[..|b| - 1]);
      assert (a + b)[..|a + b| - 1] == a + b[..|b| - 1];
    }
  }

  /** How many of the three busy channels lie in a range. */
  function Busies(lo: byte, hi: byte): nat {
    (if lo <= 1 <= hi then 1 else 0) + (if lo <= 6 <= hi then 1 else 0) + (if lo <= 11 <= hi then 1 else 0)
  }

  /** The time of `b` busy channels and `n` others. */
  function Together(s: Settings, b: nat, n: nat): nat { b * s.priorityMs + n * s.normalMs }

  lemma OneMore(s: Settings, b: nat, n: nat)
    ensures Together(s, b + 1, n) == Together(s, b, n) + s.priorityMs
    ensures Together(s, b, n + 1) == Together(s, b, n) + s.normalMs
  {
  }

  function Others(lo: byte, hi: byte): nat
    requires 1 <= lo && hi <= 14
  {
    (if lo <= hi then hi - lo + 1 else 0) - Busies(lo, hi)
  }

  lemma {:induction false} TimeOfRange(s: Settings, lo: byte, hi: byte)
    requires 1 <= lo && hi <= 14
    ensures TimeOn(s, Channels(lo, hi)) == Together(s, Busies(lo, hi), Others(lo, hi))
    decreases hi - lo
  {
    if lo <= hi {
      var rest := Channels(lo + 1, hi);
      TimeOfRange(s, lo + 1, hi);
      TimeAppend(s, [lo], rest);
      TimeOfOne(s, lo, true);
      OneMore(s, Busies(lo + 1, hi), Others(lo + 1, hi));
    } else {
      assert Channels(lo, hi) == [];
    }
  }

  lemma TimeOfOne(s: Settings, c: byte, there: bool)
    ensures TimeOn(s, if there then [c] else []) == if there then Dwell(s, c) else 0
  {
    assert [c][..0] == [];
  }

  lemma TimeOfBusies(s: Settings, lo: byte, hi: byte)
    ensures TimeOn(s, Priorities(lo, hi)) == Together(s, Busies(lo, hi), 0)
  {
    var a, b, c := if lo <= 1 <= hi then [1] else [], if lo <= 6 <= hi then [6] else [],
        if lo <= 11 <= hi then [11] else [];
    TimeAppend(s, a + b, c);
    TimeAppend(s, a, b);
    TimeOfOne(s, 1, lo <= 1 <= hi);
    TimeOfOne(s, 6, lo <= 6 <= hi);
    TimeOfOne(s, 11, lo <= 11 <= hi);
    OneMore(s, 0, 0);
    OneMore(s, 1, 0);
    OneMore(s, 2, 0);
  }

  /**
   * One sweep takes the priority time twice for each of the channels 1, 6 and 11 in the range, and the normal
   * time once for each other channel; the mesh channel adds its own if the range leaves it out.
   */
  lemma SweepTakes(s: Settings, meshed: bool)
    requires 1 <= s.start <= s.end <= 14
    ensures var b := Busies(s.start, s.end);
            TimeOn(s, Schedule(s.start, s.end, meshed))
            == Together(s, b + b + (if meshed && s.start > 1 then 1 else 0), s.end - s.start + 1 - b)
  {
    var lo, hi := s.start, s.end;
    var base := Channels(lo, hi) + Priorities(lo, hi);
    BaseTakes(s, lo, hi);
    MeshLeftOut(lo, hi);
    var left := meshed && MESH_CHANNEL !in base;
    TimeAppend(s, base, if left then [MESH_CHANNEL] else []);
    TimeOfOne(s, MESH_CHANNEL, left);
    OneMore(s, Busies(lo, hi) + Busies(lo, hi), Others(lo, hi));
  }

  lemma BaseTakes(s: Settings, lo: byte, hi: byte)
    requires 1 <= lo <= hi <= 14
    ensures TimeOn(s, Channels(lo, hi) + Priorities(lo, hi))
            == Together(s, Busies(lo, hi) + Busies(lo, hi), Others(lo, hi))
  {
    TimeOfRange(s, lo, hi);
    TimeOfBusies(s, lo, hi);
    TimeAppend(s, Channels(lo, hi), Priorities(lo, hi));
    Added(s, Busies(lo, hi), Others(lo, hi), Busies(lo, hi), 0);
  }

  lemma Added(s: Settings, b: nat, n: nat, b1: nat, n1: nat)
    ensures Together(s, b, n) + Together(s, b1, n1) == Together(s, b + b1, n + n1)
  {
  }

  lemma MeshLeftOut(lo: byte, hi: byte)
    requires 1 <= lo <= hi <= 14
    ensures MESH_CHANNEL in Channels(lo, hi) + Priorities(lo, hi) <==> lo == 1
  {
  }
}
