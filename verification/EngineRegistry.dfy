/**
 * The registry as the firmware keeps it: arrays of states, one-byte engine
 * masks and loops over them. Every method does what the operation of the same
 * meaning in `Registry` says.
 */
module EngineRegistry {
  import opened Bytes
  import opened Bits
  import opened DedupRing
  import opened Registry

  ghost function Members(s: seq<bool>): set<nat> {
    set i: nat | i < |s| && s[i]
  }

  ghost function MaskSet(b: bv8): (s: set<nat>)
    ensures forall i :: i in s <==> i < 8 && HasBit(b, i)
  {
    set i: nat | i < 8 && HasBit(b, i)
  }

  lemma MaskEmpty()
    ensures MaskSet(0) == {}
  {
    forall i | 0 <= i < 8 ensures !HasBit(0, i) {
    }
  }

  lemma MaskAdd(b: bv8, i: nat)
    requires i < 8
    ensures MaskSet(b | BitMask(i)) == MaskSet(b) + {i}
  {
    forall j: nat | j < 8 ensures HasBit(b | BitMask(i), j) == (i == j || HasBit(b, j)) {
      SetOneBit(b, i, j);
    }
  }

  lemma MaskRemove(b: bv8, i: nat)
    requires i < 8
    ensures MaskSet(b & !BitMask(i)) == MaskSet(b) - {i}
  {
    forall j: nat | j < 8 ensures HasBit(b & !BitMask(i), j) == (i != j && HasBit(b, j)) {
      ClearOneBit(b, i, j);
    }
  }

  lemma BitsDetermine(a: bv8, b: bv8)
    requires forall i: nat {:trigger HasBit(a, i)} | i < 8 :: HasBit(a, i) == HasBit(b, i)
    ensures a == b
  {
    assert HasBit(a, 0) == HasBit(b, 0) && HasBit(a, 1) == HasBit(b, 1);
    assert HasBit(a, 2) == HasBit(b, 2) && HasBit(a, 3) == HasBit(b, 3);
    assert HasBit(a, 4) == HasBit(b, 4) && HasBit(a, 5) == HasBit(b, 5);
    assert HasBit(a, 6) == HasBit(b, 6) && HasBit(a, 7) == HasBit(b, 7);
  }

  /** A mask is the set it stands for: two masks are equal exactly when the sets are. */
  lemma MaskInjective(a: bv8, b: bv8)
    ensures MaskSet(a) == MaskSet(b) <==> a == b
  {
    if MaskSet(a) == MaskSet(b) {
      forall i: nat | i < 8 ensures HasBit(a, i) == HasBit(b, i) {
        assert i in MaskSet(a) <==> i in MaskSet(b);
      }
      BitsDetermine(a, b);
    }
  }

  class EngineTable {
    const registered: seq<bool>
    const states: array<bool>
    const recent: DedupTable
    var denyMask: bv8
    var pausedMask: bv8
    var pcapUp: bool
    var pcapMode: Mode
    var enabled: bool
    var durationSec: nat
    var cooldownSec: nat
    var pending: bool
    var observed: bool
    var cancelled: bool
    var deadline: nat
    var armed: bool
    var fired: bool
    var cooldownUntil: nat
    var triggers: nat

    ghost predicate Shaped()
    {
      |registered| == COUNT && states.Length == COUNT
    }

    ghost predicate Valid()
      reads this, states, recent, recent.ring
    {
      Shaped() && recent.Valid() && registered[PCAP]
      && forall i :: 0 <= i < COUNT && states[i] ==> registered[i]
    }

    ghost function Win(): Window
      reads this
    {
      Window(pending, observed, cancelled, MaskSet(pausedMask), deadline, armed, fired)
    }

    ghost function Abs(): Reg
      requires Shaped() && recent.Valid()
      reads this, states, recent, recent.ring
    {
      Reg(Members(registered), Members(states[..]), MaskSet(denyMask), pcapUp, pcapMode,
          enabled, durationSec, cooldownSec, Win(), cooldownUntil, triggers, recent.Abs())
    }

    /** At boot every engine is off; the capture engine is always registered. */
    constructor (available: seq<bool>, rediscoverMs: nat)
      requires |available| == COUNT && available[PCAP]
      ensures Valid() && fresh(states) && fresh(recent) && fresh(recent.ring)
      ensures registered == available
      ensures Abs() == Reg(Members(registered), {}, {}, false, Wifi, false, 10, 0,
                           Window(false, false, false, {}, 0, false, false), 0, 0, Ring([], 0, 32, rediscoverMs))
    {
      registered := available;
      states := new bool[COUNT](_ => false);
      recent := new DedupTable(32, rediscoverMs);
      denyMask, pausedMask, pcapUp, pcapMode := 0, 0, false, Wifi;
      enabled, durationSec, cooldownSec := false, 10, 0;
      pending, observed, cancelled, deadline, armed, fired := false, false, false, 0, false, false;
      cooldownUntil, triggers := 0, 0;
      new;
      MaskEmpty();
      assert registered == available;
      assert Members(states[..]) == {};
    }

    method StopEngine(id: nat) returns (known: bool)
      requires Valid()
      modifies states, `pcapUp
      ensures Valid() && (Abs(), known) == Disable(old(Abs()), id)
    {
      if id >= COUNT || !registered[id] { return false; }
      if !states[id] { return true; }
      if id == PCAP { pcapUp := false; }
      states[id] := false;
      assert Members(states[..]) == old(Members(states[..])) - {id};
      return true;
    }

    /** The start callbacks: the capture may fail to start, the foxhunter stops three engines. */
    method RunStart(id: nat, ok: bool)
      requires Valid()
      modifies states, `pcapUp
      ensures Valid() && Abs() == StartHook(old(Abs()), id, ok)
    {
      if id == PCAP {
        pcapUp := pcapUp || ok;
      } else if id == FOXHUNTER && !states[WARDRIVE] {
        states[DETECTOR], states[FLOCK_WIFI], states[SKYSPY] := false, false, false;
      }
      assert Members(states[..]) == old(Members(states[..])) - Stops(old(Members(states[..])), id);
    }

    /** The radio hand-over between WiFi engines: every pair of them coexists, so it finds none to stop. */
    method HandOver(id: nat)
      requires Valid() && id < COUNT
      ensures Losers(Abs(), id) == {}
    {
      if IsWifi(id) {
        for i := 0 to COUNT {
          if i != id && IsWifi(i) && states[i] && !CoexCompatible(id, i) {
            assert false;
          }
        }
      }
      NoLosers(Abs(), id);
    }

    predicate Blocked(id: nat)
      requires Shaped()
      reads this, states
    {
      && id != PCAP && (states[PCAP] || pending)
      && if pcapUp && pcapMode == Ble then IsBleScan(id) else IsWifi(id) || IsBleScan(id)
    }

    method MarkRunning(id: nat)
      requires Valid() && id < COUNT && registered[id]
      modifies states
      ensures Valid() && Abs() == old(Abs()).(active := old(Abs()).active + {id})
    {
      states[id] := true;
      assert Members(states[..]) == old(Members(states[..])) + {id};
    }

    method StartEngine(id: nat, ok: bool) returns (accepted: bool)
      requires Valid()
      modifies states, `pcapUp
      ensures Valid() && (Abs(), accepted) == Enable(old(Abs()), id, ok)
    {
      if id >= COUNT || !registered[id] { return false; }
      if states[id] { return true; }
      if Blocked(id) { return false; }
      HandOver(id);
      assert Abs().active - {} == Abs().active;
      RunStart(id, ok);
      MarkRunning(id);
      return true;
    }

    method DropPaused(id: nat)
      requires Valid() && id < COUNT
      modifies `pausedMask
      ensures Valid() && Abs() == old(Abs()).(win := old(Abs()).win.(paused := old(Abs()).win.paused - {id}))
    {
      MaskRemove(pausedMask, id);
      pausedMask := pausedMask & !BitMask(id);
    }

    method CommandEnable(id: nat, ok: bool) returns (accepted: bool)
      requires Valid()
      modifies states, `pcapUp, `pausedMask
      ensures Valid() && (Abs(), accepted) == EnableCmd(old(Abs()), id, ok)
    {
      if id >= COUNT || HasBit(denyMask, id) { return false; }
      accepted := StartEngine(id, ok);
      if accepted { DropPaused(id); }
    }

    /** The user's disable of a paused engine, or of the capture itself, is remembered in the window's state. */
    method GiveUpEngine(id: nat)
      requires Valid() && id < COUNT
      modifies `pausedMask, `cancelled
      ensures Valid() && Abs() == GiveUp(old(Abs()), id)
    {
      if HasBit(pausedMask, id) {
        DropPaused(id);
      } else {
        assert Abs().win.paused - {id} == Abs().win.paused;
      }
      if id == PCAP && pending {
        cancelled, pausedMask := true, 0;
        MaskEmpty();
      }
    }

    method CommandDisable(id: nat)
      requires Valid()
      modifies states, `pcapUp, `pausedMask, `cancelled
      ensures Valid() && Abs() == DisableCmd(old(Abs()), id)
    {
      if id < COUNT {
        GiveUpEngine(id);
        var _ := StopEngine(id);
      }
    }

    method StopStates()
      requires Valid()
      modifies states, `pcapUp
      ensures Valid() && Abs() == old(Abs()).(active := {}, pcapUp := old(pcapUp) && !old(states[PCAP]))
    {
      pcapUp := pcapUp && !states[PCAP];
      for i := 0 to COUNT
        invariant forall k :: 0 <= k < i ==> !states[k]
        modifies states
      {
        states[i] := false;
      }
      assert Members(states[..]) == {};
    }

    method ShutWindow()
      requires Valid()
      modifies `armed, `pending, `observed, `cancelled, `pausedMask
      ensures Shaped() && recent.Valid() && Abs() == old(Abs()).(win := Win())
      ensures !armed && !pending && !observed && !cancelled && pausedMask == 0
    {
      armed, pending, observed, cancelled, pausedMask := false, false, false, false, 0;
    }

    method StopAll()
      requires Valid()
      modifies this, states
      ensures Valid() && Abs() == DisableAll(old(Abs()))
    {
      ShutWindow();
      MaskEmpty();
      StopStates();
    }

    method SetDenyMask(mask: bv8)
      requires Valid()
      modifies states, `pcapUp, `denyMask
      ensures Valid() && Abs() == SetDeny(old(Abs()), MaskSet(mask))
    {
      MaskInjective(mask, denyMask);
      if mask == denyMask { return; }
      ghost var r := Abs();
      denyMask := mask;
      for i := 0 to COUNT
        invariant Valid()
        invariant Abs() == Denied(r, MaskSet(mask), i)
        modifies states, `pcapUp
      {
        if HasBit(mask, i) && states[i] {
          DisableEffect(Abs(), i);
          var _ := StopEngine(i);
        }
        DeniedStep(r, MaskSet(mask), i);
      }
      assert Below(MaskSet(mask), COUNT) == MaskSet(mask);
    }

    method NotePaused(id: nat)
      requires Valid() && id < COUNT
      modifies `pausedMask
      ensures Valid() && Abs() == old(Abs()).(win := old(Abs()).win.(paused := old(Abs()).win.paused + {id}))
    {
      MaskAdd(pausedMask, id);
      pausedMask := pausedMask | BitMask(id);
    }

    method PauseOne(id: nat)
      requires Valid() && id < PCAP
      modifies states, `pcapUp, `pausedMask
      ensures Valid()
      ensures Abs() == old(Abs()).(active := old(Abs()).active - {id},
                                   win := old(Abs()).win.(paused := old(Abs()).win.paused + {id}))
    {
      NotePaused(id);
      DisableEffect(Abs(), id);
      var _ := StopEngine(id);
    }

    method PauseIfConflicting(ble: bool, id: nat)
      requires Valid() && id < COUNT
      modifies states, `pcapUp, `pausedMask
      ensures Valid()
      ensures var r := old(Abs());
              Abs() == if id in r.active && Conflicts(ble, id)
                       then r.(active := r.active - {id}, win := r.win.(paused := r.win.paused + {id})) else r
    {
      assert id in Abs().active <==> states[id];
      if states[id] && Conflicts(ble, id) { PauseOne(id); }
    }

    method ForgetPaused()
      requires Valid()
      modifies `pausedMask
      ensures Valid() && Abs() == old(Abs()).(win := old(Abs()).win.(paused := {}))
    {
      MaskEmpty();
      pausedMask := 0;
    }

    /** The engines that conflict with the capture are stopped one by one and noted in the mask. */
    method PauseConflicts(ble: bool)
      requires Valid()
      modifies states, `pcapUp, `pausedMask
      ensures Valid()
      ensures var r, paused := old(Abs()), ConflictsIn(old(Abs()).active, ble);
              Abs() == r.(active := r.active - paused, win := r.win.(paused := paused))
    {
      ghost var r := Abs();
      ForgetPaused();
      PausedNone(r, ble);
      for i := 0 to COUNT
        invariant Valid() && Abs() == PausedUpTo(r, ble, i)
        modifies states, `pcapUp, `pausedMask
      {
        PausedStep(r, ble, i);
        PauseIfConflicting(ble, i);
      }
      PausedAll(r, ble);
    }

    method RaiseFlags()
      requires Valid()
      modifies `triggers, `pending, `observed, `cancelled
      ensures Shaped() && recent.Valid() && Abs() == old(Abs()).(triggers := triggers, win := Win())
      ensures triggers == old(triggers) + 1 && pending && !observed && !cancelled
    {
      triggers := triggers + 1;
      pending, observed, cancelled := true, false, false;
    }

    method StartClock(now: nat)
      requires Valid()
      modifies `deadline, `armed, `fired
      ensures Shaped() && recent.Valid() && Abs() == old(Abs()).(win := Win())
      ensures deadline == now + durationSec * 1000 && armed && !fired
    {
      deadline := now + durationSec * 1000;
      armed, fired := true, false;
    }

    method PauseForCapture(ble: bool, now: nat)
      requires Valid()
      modifies this, states
      ensures Valid() && Abs() == Paused(old(Abs()), ble, now)
    {
      pcapMode := if ble then Ble else Wifi;
      PauseConflicts(ble);
      RaiseFlags();
      StartClock(now);
    }

    method OpenCapture(ble: bool, now: nat, ok: bool)
      requires Valid()
      modifies this, states
      ensures Valid() && Abs() == OpenWindow(old(Abs()), ble, now, ok)
    {
      PauseForCapture(ble, now);
      var _ := StartEngine(PCAP, ok);
    }

    method RequestCapture(src: nat, channel: nat, mac: Option<Mac>, now: nat, ok: bool)
      requires Valid()
      modifies this, states, recent, recent.ring
      ensures Valid() && Abs() == Trigger(old(Abs()), src, channel, mac, now, ok)
    {
      if !enabled || !Triggering(src) || pending || states[PCAP] || now < cooldownUntil { return; }
      cooldownUntil := 0;
      if mac.Some? {
        var seen := recent.Sighting(mac.value, now);
        if seen { return; }
      }
      OpenCapture(OnBle(src, channel), now, ok);
    }

    method RestoreMask(mask: bv8)
      requires Valid()
      modifies states, `pcapUp
      ensures Valid() && Abs() == Restore(old(Abs()), MaskSet(mask), 0)
    {
      for i := 0 to COUNT
        invariant Valid() && Restore(Abs(), MaskSet(mask), i) == Restore(old(Abs()), MaskSet(mask), 0)
        modifies states, `pcapUp
      {
        if HasBit(mask, i) && registered[i] && !states[i] {
          var _ := StartEngine(i, true);
        }
      }
    }

    method CloseCapture(now: nat)
      requires Valid()
      modifies this, states
      ensures Valid() && Abs() == Close(old(Abs()), now)
    {
      var mask := if cancelled then 0 else pausedMask;
      MaskEmpty();
      if !cancelled && cooldownSec > 0 { cooldownUntil := now + cooldownSec * 1000; }
      ShutWindow();
      assert Abs() == Closed(old(Abs()), now);
      RestoreMask(mask);
    }

    method AutoTick(now: nat)
      requires Valid()
      modifies this, states
      ensures Valid() && Abs() == Tick(old(Abs()), now)
    {
      if !pending { return; }
      var down := !states[PCAP];
      if !down { observed := true; }
      if !down && (fired || now >= deadline) {
        var _ := StopEngine(PCAP);
        down := true;
      }
      assert Abs() == Look(old(Abs()), now);
      if down && (observed || cancelled) { CloseCapture(now); }
    }
  }

  /** The registry once the engines of a new deny mask before the `i`-th have been stopped. */
  ghost function Denied(r: Reg, mask: set<nat>, i: nat): Reg {
    var gone := Below(mask, i);
    r.(deny := mask, pcapUp := r.pcapUp && !(PCAP in gone && PCAP in r.active), active := r.active - gone)
  }

  lemma DeniedStep(r: Reg, mask: set<nat>, i: nat)
    requires r.active <= r.registered
    ensures Denied(r, mask, i + 1)
            == if i in mask then Disable(Denied(r, mask, i), i).0 else Denied(r, mask, i)
  {
    assert Below(mask, i + 1) == Below(mask, i) + (if i in mask then {i} else {});
    DisableEffect(Denied(r, mask, i), i);
  }

  /** The registry once the conflicting engines before the `i`-th have been stopped and noted. */
  ghost function PausedUpTo(r: Reg, ble: bool, i: nat): Reg {
    var gone := Below(ConflictsIn(r.active, ble), i);
    r.(active := r.active - gone, win := r.win.(paused := gone))
  }

  lemma PausedNone(r: Reg, ble: bool)
    ensures PausedUpTo(r, ble, 0) == r.(win := r.win.(paused := {}))
  {
    assert Below(ConflictsIn(r.active, ble), 0) == {} && r.active - {} == r.active;
  }

  lemma PausedStep(r: Reg, ble: bool, i: nat)
    ensures var p := PausedUpTo(r, ble, i);
            PausedUpTo(r, ble, i + 1)
            == if i in p.active && Conflicts(ble, i) then
                p.(active := p.active - {i}, win := p.win.(paused := p.win.paused + {i})) else p
  {
    var all := ConflictsIn(r.active, ble);
    assert Below(all, i + 1) == Below(all, i) + (if i in all then {i} else {});
    assert r.active - Below(all, i + 1) == (r.active - Below(all, i)) - (if i in all then {i} else {});
  }

  lemma PausedAll(r: Reg, ble: bool)
    requires forall i :: i in r.active ==> i < COUNT
    ensures var paused := ConflictsIn(r.active, ble);
            PausedUpTo(r, ble, COUNT) == r.(active := r.active - paused, win := r.win.(paused := paused))
  {
    assert Below(ConflictsIn(r.active, ble), COUNT) == ConflictsIn(r.active, ble);
  }
}
