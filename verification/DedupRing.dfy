/**
 * The cooldown ring that suppresses repeated sightings of a device: a fixed
 * array of (MAC, time of last acceptance), filled once and then overwritten in
 * order of insertion.
 */
module DedupRing {
  import opened Bytes

  type Mac = seq<byte>

  datatype Entry = Entry(mac: Mac, ts: nat)

  /** The ring in use: its entries, the next one to overwrite, its size and cooldown. */
  datatype Ring = Ring(entries: seq<Entry>, head: nat, size: nat, cooldownMs: nat) {
    ghost predicate WellFormed() {
      && 0 < size && |entries| <= size && head < size
      && (|entries| < size ==> head == 0)
      && forall i, j :: 0 <= i < j < |entries| ==> entries[i].mac != entries[j].mac
    }
  }

  function Find(es: seq<Entry>, mac: Mac, i: nat): (r: nat)
    requires i <= |es|
    ensures i <= r <= |es|
    ensures r < |es| ==> es[r].mac == mac
    ensures forall k :: i <= k < r ==> es[k].mac != mac
    decreases |es| - i
  {
    if i == |es| || es[i].mac == mac then i else Find(es, mac, i + 1)
  }

  /** One sighting: the ring afterwards, and whether it is suppressed. */
  function Check(r: Ring, mac: Mac, now: nat): (res: (Ring, bool))
    requires r.WellFormed()
    ensures res.0.WellFormed()
  {
    var i := Find(r.entries, mac, 0);
    if i < |r.entries| then
      if now - r.entries[i].ts < r.cooldownMs then (r, true)
      else (r.(entries := r.entries[i := Entry(mac, now)]), false)
    else if |r.entries| < r.size then (r.(entries := r.entries + [Entry(mac, now)]), false)
    else (r.(entries := r.entries[r.head := Entry(mac, now)], head := Next(r.head, r.size)), false)
  }

  class DedupTable {
    const ring: array<Entry>
    var head: nat
    var count: nat
    var cooldownMs: nat

    ghost predicate Valid()
      reads this, ring
    {
      0 < ring.Length && count <= ring.Length && Abs().WellFormed()
    }

    ghost function Abs(): (r: Ring)
      requires count <= ring.Length
      reads this, ring
    {
      Ring(ring[..count], head, ring.Length, cooldownMs)
    }

    constructor (size: nat, cooldownMs: nat)
      requires 0 < size
      ensures Valid() && fresh(ring) && Abs() == Ring([], 0, size, cooldownMs)
    {
      ring := new Entry[size](_ => Entry([], 0));
      head, count, this.cooldownMs := 0, 0, cooldownMs;
    }

    method SetCooldown(ms: nat)
      requires Valid()
      modifies this
      ensures Valid() && Abs() == old(Abs()).(cooldownMs := ms)
    {
      cooldownMs := ms;
    }

    method Sighting(mac: Mac, now: nat) returns (suppressed: bool)
      requires Valid()
      modifies this, ring
      ensures Valid() && (Abs(), suppressed) == Check(old(Abs()), mac, now)
    {
      var i := 0;
      while i < count
        invariant i <= count && Find(ring[..count], mac, 0) == Find(ring[..count], mac, i)
        invariant Abs() == old(Abs())
      {
        if ring[i].mac == mac {
          assert Find(ring[..count], mac, i) == i;
          if now - ring[i].ts < cooldownMs { return true; }
          ring[i] := Entry(mac, now);
          assert ring[..count] == old(ring[..count])[i := Entry(mac, now)];
          return false;
        }
        i := i + 1;
      }
      if count < ring.Length {
        ring[count] := Entry(mac, now);
        count := count + 1;
        assert ring[..count] == old(ring[..count]) + [Entry(mac, now)];
      } else {
        ring[head] := Entry(mac, now);
        assert ring[..count] == old(ring[..count])[head := Entry(mac, now)];
        head := (head + 1) % ring.Length;
      }
      suppressed := false;
    }

    method Reset()
      requires Valid()
      modifies this
      ensures Valid() && Abs() == old(Abs()).(entries := [], head := 0)
    {
      head, count := 0, 0;
    }
  }

  // ------------------------------------------------------------------
  // Against an unbounded map of last acceptances
  // ------------------------------------------------------------------

  datatype Sighted = Sighted(mac: Mac, now: nat)

  /** The rule the ring stands for: remember for ever when each MAC was last accepted. */
  function MapCheck(m: map<Mac, nat>, cooldownMs: nat, mac: Mac, now: nat): (map<Mac, nat>, bool) {
    if mac in m && now - m[mac] < cooldownMs then (m, true) else (m[mac := now], false)
  }

  /** The last acceptance of each MAC, by the ring's own answers. */
  function Accepted(m: map<Mac, nat>, suppressed: bool, mac: Mac, now: nat): map<Mac, nat> {
    if suppressed then m else m[mac := now]
  }

  datatype Both = Both(ring: Ring, accepted: map<Mac, nat>)

  function RunRing(s: Both, sightings: seq<Sighted>): (r: Both)
    requires s.ring.WellFormed()
    ensures r.ring.WellFormed()
    decreases |sightings|
  {
    if sightings == [] then s
    else
      var p := RunRing(s, sightings[..|sightings| - 1]);
      var e := sightings[|sightings| - 1];
      var (r1, sup) := Check(p.ring, e.mac, e.now);
      Both(r1, Accepted(p.accepted, sup, e.mac, e.now))
  }

  /** The ring's answer to the last of a non-empty list of sightings. */
  function LastAnswer(s: Both, sightings: seq<Sighted>): bool
    requires s.ring.WellFormed() && sightings != []
  {
    var e := sightings[|sightings| - 1];
    Check(RunRing(s, sightings[..|sightings| - 1]).ring, e.mac, e.now).1
  }

  ghost predicate Agrees(s: Both) {
    && s.ring.WellFormed()
    && forall i :: 0 <= i < |s.ring.entries| ==>
         s.ring.entries[i].mac in s.accepted && s.accepted[s.ring.entries[i].mac] == s.ring.entries[i].ts
  }

  lemma {:induction false} RingAgrees(s: Both, sightings: seq<Sighted>)
    requires Agrees(s)
    ensures Agrees(RunRing(s, sightings))
    decreases |sightings|
  {
    if sightings != [] {
      RingAgrees(s, sightings[..|sightings| - 1]);
    }
  }

  /** Only a MAC accepted within the cooldown is ever suppressed, whatever was overwritten in between. */
  lemma SuppressesOnlyRecent(s: Both, sightings: seq<Sighted>)
    requires Agrees(s) && sightings != []
    requires LastAnswer(s, sightings)
    ensures var e, m := sightings[|sightings| - 1], RunRing(s, sightings[..|sightings| - 1]).accepted;
            e.mac in m && e.now - m[e.mac] < s.ring.cooldownMs
  {
    RingAgrees(s, sightings[..|sightings| - 1]);
    CooldownFixed(s, sightings[..|sightings| - 1]);
  }

  lemma {:induction false} CooldownFixed(s: Both, sightings: seq<Sighted>)
    requires s.ring.WellFormed()
    ensures RunRing(s, sightings).ring.cooldownMs == s.ring.cooldownMs
    ensures RunRing(s, sightings).ring.size == s.ring.size
    decreases |sightings|
  {
    if sightings != [] {
      CooldownFixed(s, sightings[..|sightings| - 1]);
    }
  }

  function RunMap(m: map<Mac, nat>, cooldownMs: nat, sightings: seq<Sighted>): map<Mac, nat>
    decreases |sightings|
  {
    if sightings == [] then m
    else
      var e := sightings[|sightings| - 1];
      MapCheck(RunMap(m, cooldownMs, sightings[..|sightings| - 1]), cooldownMs, e.mac, e.now).0
  }

  function Macs(es: seq<Entry>): (ms: set<Mac>)
    ensures forall k :: 0 <= k < |es| ==> es[k].mac in ms
  {
    if es == [] then {} else Macs(es[..|es| - 1]) + {es[|es| - 1].mac}
  }

  lemma {:induction false} MacHasEntry(es: seq<Entry>, mac: Mac)
    requires mac in Macs(es)
    ensures exists k :: 0 <= k < |es| && es[k].mac == mac
  {
    var n := |es| - 1;
    if es[n].mac != mac {
      MacHasEntry(es[..n], mac);
      var k :| 0 <= k < n && es[..n][k].mac == mac;
      assert es[k].mac == mac;
    }
  }

  lemma {:induction false} MacsCount(es: seq<Entry>)
    requires forall i, j :: 0 <= i < j < |es| ==> es[i].mac != es[j].mac
    ensures |Macs(es)| == |es|
  {
    if es != [] {
      var init, mac := es[..|es| - 1], es[|es| - 1].mac;
      MacsCount(init);
      if mac in Macs(init) {
        MacHasEntry(init, mac);
      }
    }
  }

  /** A ring that still has room, or already knows the MAC, forgets nothing. */
  ghost predicate SameAs(s: Both) {
    Agrees(s) && s.accepted.Keys == Macs(s.ring.entries)
  }

  lemma {:induction false} MacsRefresh(es: seq<Entry>, i: nat, e: Entry)
    requires i < |es| && e.mac == es[i].mac
    ensures Macs(es[i := e]) == Macs(es)
  {
    var n := |es| - 1;
    if i < n {
      MacsRefresh(es[..n], i, e);
      assert es[i := e][..n] == es[..n][i := e];
    } else {
      assert es[i := e][..n] == es[..n];
    }
  }

  lemma KnownOrRoom(s: Both, mac: Mac, known: set<Mac>)
    requires SameAs(s) && s.accepted.Keys <= known && mac in known && |known| <= s.ring.size
    ensures Find(s.ring.entries, mac, 0) < |s.ring.entries| <==> mac in s.accepted
    ensures mac !in s.accepted ==> |s.ring.entries| < s.ring.size
  {
    var es := s.ring.entries;
    if Find(es, mac, 0) == |es| {
      if mac in Macs(es) {
        MacHasEntry(es, mac);
      }
      MacsCount(es);
      SubsetSize(Macs(es) + {mac}, known);
    }
  }

  lemma SameStep(s: Both, mac: Mac, now: nat, known: set<Mac>)
    requires SameAs(s) && s.accepted.Keys <= known && mac in known && |known| <= s.ring.size
    ensures var (r1, sup) := Check(s.ring, mac, now);
            && (Accepted(s.accepted, sup, mac, now), sup) == MapCheck(s.accepted, s.ring.cooldownMs, mac, now)
            && SameAs(Both(r1, Accepted(s.accepted, sup, mac, now)))
  {
    KnownOrRoom(s, mac, known);
    if mac in s.accepted {
      SameKnown(s, mac, now);
    } else {
      SameNew(s, mac, now);
    }
  }

  lemma SameKnown(s: Both, mac: Mac, now: nat)
    requires SameAs(s) && mac in s.accepted && Find(s.ring.entries, mac, 0) < |s.ring.entries|
    ensures var (r1, sup) := Check(s.ring, mac, now);
            && (Accepted(s.accepted, sup, mac, now), sup) == MapCheck(s.accepted, s.ring.cooldownMs, mac, now)
            && SameAs(Both(r1, Accepted(s.accepted, sup, mac, now)))
  {
    var i := Find(s.ring.entries, mac, 0);
    assert s.accepted[mac] == s.ring.entries[i].ts;
    if now - s.ring.entries[i].ts >= s.ring.cooldownMs {
      RefreshAgrees(s, mac, now, i);
    }
  }

  lemma RefreshAgrees(s: Both, mac: Mac, now: nat, i: nat)
    requires SameAs(s) && i < |s.ring.entries| && s.ring.entries[i].mac == mac
    ensures SameAs(Both(s.ring.(entries := s.ring.entries[i := Entry(mac, now)]), s.accepted[mac := now]))
  {
    var es, acc := s.ring.entries, s.accepted[mac := now];
    var es1 := es[i := Entry(mac, now)];
    MacsRefresh(es, i, Entry(mac, now));
    assert mac in s.accepted && acc.Keys == s.accepted.Keys;
    forall k | 0 <= k < |es1| ensures es1[k].mac in acc && acc[es1[k].mac] == es1[k].ts {
      if k != i {
        assert es1[k] == es[k] && es[k].mac != mac;
      }
    }
  }

  lemma SameNew(s: Both, mac: Mac, now: nat)
    requires SameAs(s) && mac !in s.accepted && |s.ring.entries| < s.ring.size
    requires Find(s.ring.entries, mac, 0) == |s.ring.entries|
    ensures var (r1, sup) := Check(s.ring, mac, now);
            && (Accepted(s.accepted, sup, mac, now), sup) == MapCheck(s.accepted, s.ring.cooldownMs, mac, now)
            && SameAs(Both(r1, Accepted(s.accepted, sup, mac, now)))
  {
    AppendAgrees(s, mac, now);
  }

  lemma AppendAgrees(s: Both, mac: Mac, now: nat)
    requires SameAs(s) && mac !in s.accepted && |s.ring.entries| < s.ring.size
    ensures SameAs(Both(s.ring.(entries := s.ring.entries + [Entry(mac, now)]), s.accepted[mac := now]))
  {
    var es, acc := s.ring.entries, s.accepted[mac := now];
    var es1 := es + [Entry(mac, now)];
    assert es1[..|es|] == es && Macs(es1) == Macs(es) + {mac};
    assert acc.Keys == s.accepted.Keys + {mac};
    forall k | 0 <= k < |es1| ensures es1[k].mac in acc && acc[es1[k].mac] == es1[k].ts {
      if k < |es| {
        assert es1[k] == es[k] && es[k].mac in s.accepted;
      }
    }
  }

  /** With no more distinct MACs than entries, the ring remembers exactly what the unbounded map does. */
  lemma {:induction false} RemembersWhenFewMacs(s: Both, sightings: seq<Sighted>, known: set<Mac>)
    requires SameAs(s) && s.accepted.Keys <= known && |known| <= s.ring.size
    requires forall e :: e in sightings ==> e.mac in known
    ensures var r := RunRing(s, sightings);
            SameAs(r) && r.accepted == RunMap(s.accepted, s.ring.cooldownMs, sightings) && r.accepted.Keys <= known
    decreases |sightings|
  {
    if sightings == [] {
      assert RunRing(s, sightings) == s;
    } else {
      var init, e := sightings[..|sightings| - 1], sightings[|sightings| - 1];
      RemembersWhenFewMacs(s, init, known);
      CooldownFixed(s, init);
      var p := RunRing(s, init);
      SameStep(p, e.mac, e.now, known);
      var (r1, sup) := Check(p.ring, e.mac, e.now);
      assert RunRing(s, sightings) == Both(r1, Accepted(p.accepted, sup, e.mac, e.now));
    }
  }

  /** And so it answers exactly as the map does. */
  lemma ExactWhenFewMacs(s: Both, sightings: seq<Sighted>, known: set<Mac>)
    requires SameAs(s) && s.accepted.Keys <= known && |known| <= s.ring.size
    requires sightings != [] && forall e :: e in sightings ==> e.mac in known
    ensures var init, e := sightings[..|sightings| - 1], sightings[|sightings| - 1];
            LastAnswer(s, sightings)
            == MapCheck(RunMap(s.accepted, s.ring.cooldownMs, init), s.ring.cooldownMs, e.mac, e.now).1
  {
    var init, e := sightings[..|sightings| - 1], sightings[|sightings| - 1];
    RemembersWhenFewMacs(s, init, known);
    CooldownFixed(s, init);
    SameStep(RunRing(s, init), e.mac, e.now, known);
  }

  // ------------------------------------------------------------------
  // How long an entry lives
  // ------------------------------------------------------------------

  /** The sighting puts a new entry in the ring, as opposed to finding one. */
  predicate Inserts(r: Ring, mac: Mac) {
    Find(r.entries, mac, 0) == |r.entries|
  }

  function InsertionsIn(s: Both, sightings: seq<Sighted>): (n: nat)
    requires s.ring.WellFormed()
    decreases |sightings|
  {
    if sightings == [] then 0
    else
      var init := sightings[..|sightings| - 1];
      InsertionsIn(s, init) + if Inserts(RunRing(s, init).ring, sightings[|sightings| - 1].mac) then 1 else 0
  }

  /** Insertions left until entry `i` is the one overwritten. */
  function Life(r: Ring, i: nat): (n: nat)
    requires r.WellFormed() && i < |r.entries|
    ensures 1 <= n <= r.size
  {
    if |r.entries| < r.size then r.size - |r.entries| + i + 1
    else if i >= r.head then i - r.head + 1 else i + r.size - r.head + 1
  }

  /** A new entry is given the full life of the ring. */
  lemma NewEntryLives(r: Ring, mac: Mac, now: nat)
    requires r.WellFormed() && Inserts(r, mac)
    ensures var r1 := Check(r, mac, now).0;
            exists i :: 0 <= i < |r1.entries| && r1.entries[i].mac == mac && Life(r1, i) == r.size
  {
    var r1 := Check(r, mac, now).0;
    var i := if |r.entries| < r.size then |r.entries| else r.head;
    assert r1.entries[i].mac == mac && Life(r1, i) == r.size;
  }

  lemma LifeStep(r: Ring, i: nat, mac: Mac, now: nat)
    requires r.WellFormed() && i < |r.entries|
    ensures var r1 := Check(r, mac, now).0;
            if !Inserts(r, mac) then i < |r1.entries| && r1.entries[i].mac == r.entries[i].mac
                && Life(r1, i) == Life(r, i)
            else if Life(r, i) > 1 then i < |r1.entries| && r1.entries[i].mac == r.entries[i].mac
                && Life(r1, i) == Life(r, i) - 1
            else forall k :: 0 <= k < |r1.entries| ==> r1.entries[k].mac != r.entries[i].mac
  {
  }

  /** An entry survives exactly until the `Life`-th later insertion, which for a new entry is the SIZE-th. */
  lemma {:induction false} SurvivesExactly(s: Both, i: nat, sightings: seq<Sighted>)
    requires s.ring.WellFormed() && i < |s.ring.entries|
    ensures InsertionsIn(s, sightings) < Life(s.ring, i) ==>
              var r := RunRing(s, sightings).ring;
              i < |r.entries| && r.entries[i].mac == s.ring.entries[i].mac
              && Life(r, i) == Life(s.ring, i) - InsertionsIn(s, sightings)
    ensures sightings != [] && InsertionsIn(s, sightings) == Life(s.ring, i)
            && InsertionsIn(s, sightings[..|sightings| - 1]) < Life(s.ring, i) ==>
              forall k :: 0 <= k < |RunRing(s, sightings).ring.entries| ==>
                RunRing(s, sightings).ring.entries[k].mac != s.ring.entries[i].mac
    decreases |sightings|
  {
    if sightings != [] {
      var init, e := sightings[..|sightings| - 1], sightings[|sightings| - 1];
      SurvivesExactly(s, i, init);
      if InsertionsIn(s, init) < Life(s.ring, i) {
        LifeStep(RunRing(s, init).ring, i, e.mac, e.now);
      }
    }
  }
}
