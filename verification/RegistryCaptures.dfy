/**
 * A capture keeps the radio it was opened on: when a detection opens a window,
 * on which radio, what it stops, and what may run or be started beside it.
 */
module RegistryCaptures {
  import opened Bytes
  import opened DedupRing
  import opened Registry
  import opened RegistryRuns

  /** The engines that may not run beside a capture: those that listen on Bluetooth, or all of them. */
  ghost function Rivals(ble: bool): set<nat> {
    if ble then {DETECTOR, FLOCK_BLE, FOXHUNTER, UNIPWN}
        else {DETECTOR, FLOCK_BLE, FLOCK_WIFI, FOXHUNTER, SKYSPY, UNIPWN, WARDRIVE}
  }

  /** Two sources are always on Bluetooth, one never, and two are if they name no channel. */
  predicate OnBluetooth(src: nat, channel: nat) {
    src in {FLOCK_BLE, UNIPWN} || (src in {DETECTOR, SKYSPY} && channel == 0)
  }

  /** A detection is taken up if and only if all of this holds. */
  predicate TakenUp(r: Reg, src: nat, mac: Option<Mac>, now: nat)
    requires r.macs.WellFormed()
  {
    && r.enabled && src in {DETECTOR, FLOCK_BLE, FLOCK_WIFI, SKYSPY, UNIPWN}
    && !r.win.pending && PCAP !in r.active && r.cooldownUntil <= now
    && (mac.Some? ==> !Check(r.macs, mac.value, now).1)
  }

  lemma RivalsConflict(r: Reg, ble: bool)
    requires Inv(r) && PCAP !in r.active
    ensures ConflictsIn(r.active, ble) == r.active * Rivals(ble)
  {
  }

  /** What is open then, what it has stopped, and until when; otherwise what runs stays as it is. */
  lemma TriggerOpensExactly(r: Reg, src: nat, channel: nat, mac: Option<Mac>, now: nat, ok: bool)
    requires Inv(r)
    ensures var r1, ble := Trigger(r, src, channel, mac, now, ok), OnBluetooth(src, channel);
            if TakenUp(r, src, mac, now) then
              && r1.active == (r.active - Rivals(ble)) + {PCAP} && r1.win.paused == r.active * Rivals(ble)
              && r1.win.pending && !r1.win.cancelled && !r1.win.observed
              && r1.win.deadline == now + r.durationSec * 1000 && r1.win.armed && !r1.win.fired
              && r1.pcapMode == (if ble then Ble else Wifi) && r1.pcapUp == (r.pcapUp || ok)
              && r1.triggers == r.triggers + 1 && r1.cooldownUntil == 0
              && r1.macs == (if mac.Some? then Check(r.macs, mac.value, now).0 else r.macs)
            else r1 == r || (r1 == r.(cooldownUntil := 0) && r.cooldownUntil <= now)
  {
    if Admits(r, src, now) {
      var (r1, recent) := Recent(r.(cooldownUntil := 0), mac, now);
      if !recent {
        RivalsConflict(r1, OnBle(src, channel));
        OpenKeeps(r1, OnBle(src, channel), now, ok);
        assert r1.active - r1.active * Rivals(OnBle(src, channel)) == r1.active - Rivals(OnBle(src, channel));
        EnableEffect(Paused(r1, OnBle(src, channel), now), PCAP, ok);
      }
    }
  }

  /** The user's enable, answered and carried out. */
  lemma EnableAnswersExactly(r: Reg, id: nat, ok: bool)
    requires Inv(r)
    ensures var (r1, accepted) := EnableCmd(r, id, ok);
            && (accepted <==>
                && id in r.registered && id !in r.deny
                && (|| id in r.active || id == PCAP || (PCAP !in r.active && !r.win.pending)
                    || (r.pcapUp && r.pcapMode == Ble && id in {FLOCK_WIFI, SKYSPY, WARDRIVE})))
            && (!accepted ==> r1 == r)
            && (accepted && id in r.active ==> r1.active == r.active)
            && (accepted && id !in r.active ==>
                r1.active == {id} + if id == FOXHUNTER && WARDRIVE !in r.active
                                    then r.active - {DETECTOR, FLOCK_WIFI, SKYSPY} else r.active)
  {
    EnableEffect(r, id, ok);
  }

  // ------------------------------------------------------------------
  // As long as the capture is up
  // ------------------------------------------------------------------

  /** The capture counts as recording only while it runs. */
  ghost predicate Tidy(r: Reg) { r.pcapUp ==> PCAP in r.active }

  lemma {:induction false} RestoreTidy(r: Reg, mask: set<nat>, i: nat)
    requires Inv(r) && Tidy(r) && !r.win.pending && mask <= r.registered - {PCAP}
    ensures Tidy(Restore(r, mask, i))
    decreases COUNT - i
  {
    if i < COUNT {
      RestoreOneKeeps(r, mask, i);
      EnableEffect(r, i, true);
      RestoreTidy(RestoreOne(r, mask, i), mask, i + 1);
      assert Restore(r, mask, i) == Restore(RestoreOne(r, mask, i), mask, i + 1);
    }
  }

  lemma TickTidy(r: Reg, now: nat)
    requires Inv(r) && Tidy(r)
    ensures Tidy(Tick(r, now))
  {
    if r.win.pending && Closes(Look(r, now)) {
      LookEffect(r, now);
      RestoreTidy(Closed(Look(r, now), now), if r.win.cancelled then {} else r.win.paused, 0);
    }
  }

  lemma StepTidy(r: Reg, e: Event)
    requires Inv(r) && Tidy(r)
    ensures Tidy(Step(r, e))
  {
    match e
    case EEnable(id, ok) => EnableEffect(r, id, ok);
    case EDisable(id) => DisableEffect(GiveUp(r, id), id);
    case ETrigger(src, channel, mac, now, ok) => TriggerOpensExactly(r, src, channel, mac, now, ok);
    case ETick(now) => TickTidy(r, now);
    case _ =>
  }

  lemma {:induction false} RunTidy(r: Reg, es: seq<Event>)
    requires Inv(r) && Tidy(r)
    ensures Tidy(Run(r, es))
    decreases |es|
  {
    if es != [] {
      RunTidy(r, es[..|es| - 1]);
      StepTidy(Run(r, es[..|es| - 1]), es[|es| - 1]);
    }
  }

  /** The capture runs on its radio, with no rival. */
  ghost predicate Owns(r: Reg, ble: bool, up: bool) {
    && PCAP in r.active && r.pcapMode == (if ble then Ble else Wifi) && r.pcapUp == up
    && r.active !! Rivals(ble)
  }

  lemma EnableOwns(r: Reg, ble: bool, up: bool, id: nat, ok: bool)
    requires Inv(r) && Owns(r, ble, up)
    ensures Owns(EnableCmd(r, id, ok).0, ble, up)
  {
    EnableAnswersExactly(r, id, ok);
    EnableEffect(r, id, ok);
  }

  lemma StepOwns(r: Reg, ble: bool, up: bool, e: Event)
    requires Inv(r) && Owns(r, ble, up) && !e.EPcapStart? && PCAP in Step(r, e).active
    ensures Owns(Step(r, e), ble, up)
  {
    match e
    case EEnable(id, ok) => EnableOwns(r, ble, up, id, ok);
    case EDisable(id) => DisableEffect(GiveUp(r, id), id);
    case ETick(now) =>
      if r.win.pending {
        LookEffect(r, now);
        if Closes(Look(r, now)) {
          CloseRestores(Look(r, now), now);
        }
      }
    case _ =>
  }

  /** Event number `t` of a run is a detection that opens a window, and the capture is up after every event since. */
  ghost predicate CapturesSince(r: Reg, es: seq<Event>, t: nat)
    requires Inv(r)
    decreases |es|
  {
    && t < |es|
    && var n := |es| - 1;
       if t == n then es[n].ETrigger? && !Run(r, es[..n]).win.pending && Run(r, es).win.pending
       else !es[n].EPcapStart? && PCAP in Run(r, es).active && CapturesSince(r, es[..n], t)
  }

  lemma TriggerOwns(p: Reg, e: Event)
    requires Inv(p) && Tidy(p) && e.ETrigger? && !p.win.pending && Step(p, e).win.pending
    ensures Owns(Step(p, e), OnBluetooth(e.src, e.channel), e.ok)
  {
    TriggerOpensExactly(p, e.src, e.channel, e.mac, e.now, e.ok);
  }

  lemma OwnsFirst(r: Reg, init: seq<Event>, e: Event)
    requires Inv(r) && Tidy(r) && e.ETrigger? && !Run(r, init).win.pending && Run(r, init + [e]).win.pending
    ensures Owns(Run(r, init + [e]), OnBluetooth(e.src, e.channel), e.ok)
  {
    RunTidy(r, init);
    RunSnoc(r, init, e);
    TriggerOwns(Run(r, init), e);
  }

  lemma OwnsNext(r: Reg, init: seq<Event>, e: Event, ble: bool, up: bool)
    requires Inv(r) && Owns(Run(r, init), ble, up) && !e.EPcapStart? && PCAP in Run(r, init + [e]).active
    ensures Owns(Run(r, init + [e]), ble, up)
  {
    RunSnoc(r, init, e);
    StepOwns(Run(r, init), ble, up, e);
  }

  lemma {:induction false} OwnsSince(r: Reg, es: seq<Event>, t: nat)
    requires Inv(r) && Tidy(r) && CapturesSince(r, es, t)
    ensures es[t].ETrigger? && Owns(Run(r, es), OnBluetooth(es[t].src, es[t].channel), es[t].ok)
    decreases |es|
  {
    var init, e := es[..|es| - 1], es[|es| - 1];
    assert init + [e] == es;
    if t == |init| {
      OwnsFirst(r, init, e);
    } else {
      OwnsSince(r, init, t);
      assert init[t] == es[t];
      OwnsNext(r, init, e, OnBluetooth(es[t].src, es[t].channel), es[t].ok);
    }
  }

  /**
   * What the user's enables meet: an engine is accepted exactly if it already runs or, beside a capture that
   * records on Bluetooth, is one of the three that leave Bluetooth alone.
   */
  ghost predicate AcceptsBeside(r: Reg, records: bool) {
    forall id: nat, ok: bool ::
      EnableCmd(r, id, ok).1 <==>
      id in r.registered && id !in r.deny && (id in r.active || (records && id in {FLOCK_WIFI, SKYSPY, WARDRIVE}))
  }

  lemma OwnerAccepts(r: Reg, ble: bool, up: bool)
    requires Inv(r) && Owns(r, ble, up)
    ensures AcceptsBeside(r, ble && up)
  {
    forall id: nat, ok: bool
      ensures EnableCmd(r, id, ok).1 <==>
              id in r.registered && id !in r.deny
              && (id in r.active || (ble && up && id in {FLOCK_WIFI, SKYSPY, WARDRIVE}))
    {
      EnableAnswersExactly(r, id, ok);
    }
  }

  lemma OwnerAlone(r: Reg)
    requires Inv(r) && PCAP in r.active && r.active !! Rivals(false)
    ensures r.active == {PCAP}
  {
  }

  /**
   * From the detection that opens a window until its capture is down, whatever the user and the ticks do: beside
   * a capture on Bluetooth no engine that listens there runs, beside one on WiFi no engine at all.
   */
  lemma CaptureKeepsRadio(r: Reg, es: seq<Event>, t: nat) returns (r1: Reg, ble: bool)
    requires Inv(r) && Tidy(r) && CapturesSince(r, es, t)
    ensures es[t].ETrigger? && r1 == Run(r, es) && (ble <==> OnBluetooth(es[t].src, es[t].channel))
    ensures ble ==> r1.active !! {DETECTOR, FLOCK_BLE, FOXHUNTER, UNIPWN}
    ensures !ble ==> r1.active == {PCAP}
    ensures AcceptsBeside(r1, ble && es[t].ok)
  {
    OwnsSince(r, es, t);
    r1, ble := Run(r, es), OnBluetooth(es[t].src, es[t].channel);
    OwnerAccepts(r1, ble, es[t].ok);
    if !ble { OwnerAlone(r1); }
  }

  /**
   * A start written to the configuration of a capture that runs stops nothing; it changes only the radio that the
   * registry takes the capture to be on. From then on the user's enables are answered as beside a capture there.
   */
  lemma StartChangesAnswers(r: Reg, mode: Mode)
    requires Inv(r) && PCAP in r.active
    ensures var r1 := Step(r, EPcapStart(mode));
            && Inv(r1) && r1.active == r.active && r1.pcapMode == mode
            && AcceptsBeside(r1, r.pcapUp && mode == Ble)
  {
    var r1 := Step(r, EPcapStart(mode));
    StepKeepsInv(r, EPcapStart(mode));
    forall id: nat, ok: bool
      ensures EnableCmd(r1, id, ok).1 <==>
              id in r1.registered && id !in r1.deny
              && (id in r1.active || (r.pcapUp && mode == Ble && id in {FLOCK_WIFI, SKYSPY, WARDRIVE}))
    {
      EnableAnswersExactly(r1, id, ok);
    }
  }

  // ------------------------------------------------------------------
  // The two settings
  // ------------------------------------------------------------------

  /** The next window is as long as the user has set, ten seconds for a setting of 0. */
  lemma DurationGoverns(r: Reg, s: nat, src: nat, channel: nat, mac: Option<Mac>, now: nat, ok: bool)
    requires Inv(r) && TakenUp(r, src, mac, now)
    ensures Inv(Step(r, EDuration(s)))
    ensures Step(Step(r, EDuration(s)), ETrigger(src, channel, mac, now, ok)).win.deadline
            == now + 1000 * if s == 0 then 10 else s
  {
    StepKeepsInv(r, EDuration(s));
    TriggerOpensExactly(Step(r, EDuration(s)), src, channel, mac, now, ok);
  }

  /** The timer started with the window stops the capture at the next tick; without it the deadline does. */
  lemma CaptureEndsExactly(r: Reg, now: nat)
    requires Inv(r) && r.win.pending && PCAP in r.active
    ensures PCAP !in Tick(r, now).active <==> r.win.fired || now >= r.win.deadline
    ensures r.win.armed ==> PCAP !in Tick(Step(r, ETimer), now).active
  {
    LookEffect(r, now);
    if Closes(Look(r, now)) { CloseRestores(Look(r, now), now); }
    var r1 := Step(r, ETimer);
    LookEffect(r1, now);
    if Closes(Look(r1, now)) { CloseRestores(Look(r1, now), now); }
  }

  lemma StepEnabled(r: Reg, e: Event)
    requires Inv(r)
    ensures Step(r, e).enabled == if e.EAuto? then e.on else r.enabled
  {
    match e
    case EEnable(id, ok) => EnableEffect(r, id, ok);
    case EDisable(id) => DisableEffect(GiveUp(r, id), id);
    case ETrigger(src, channel, mac, now, ok) => TriggerOpensExactly(r, src, channel, mac, now, ok);
    case ETick(now) =>
      if r.win.pending {
        LookEffect(r, now);
        RestoreKeeps(Closed(Look(r, now), now), if r.win.cancelled then {} else r.win.paused, 0);
      }
    case _ =>
  }

  /** The last setting written for automatic captures. */
  function LastAuto(on: bool, es: seq<Event>): bool {
    if es == [] then on else if es[|es| - 1].EAuto? then es[|es| - 1].on else LastAuto(on, es[..|es| - 1])
  }

  /** Detections are taken up or not as the user last set it. */
  lemma {:induction false} AutoGoverns(r: Reg, es: seq<Event>)
    requires Inv(r)
    ensures Run(r, es).enabled == LastAuto(r.enabled, es)
    decreases |es|
  {
    if es != [] {
      AutoGoverns(r, es[..|es| - 1]);
      StepEnabled(Run(r, es[..|es| - 1]), es[|es| - 1]);
    }
  }

  /** Closing arms the cooldown, unless the user cancelled the window or wants none. */
  lemma CloseArms(r: Reg, now: nat)
    requires Inv(r) && r.win.pending && Closes(Look(r, now))
    ensures Inv(Tick(r, now))
    ensures Tick(r, now).cooldownUntil
            == if r.win.cancelled || r.cooldownSec == 0 then r.cooldownUntil else now + r.cooldownSec * 1000
  {
    LookEffect(r, now);
    TickKeeps(r, now);
    RestoreKeeps(Closed(Look(r, now), now), if r.win.cancelled then {} else r.win.paused, 0);
  }

  /** A cooldown set to 0 ends the one that runs. */
  lemma NoCooldown(r: Reg, src: nat, mac: Option<Mac>, now: nat)
    requires Inv(r) && r.cooldownSec > 0
    ensures Inv(Step(r, ECooldown(0)))
    ensures TakenUp(Step(r, ECooldown(0)), src, mac, now) <==> TakenUp(r.(cooldownUntil := 0), src, mac, now)
  {
    StepKeepsInv(r, ECooldown(0));
  }

  /** After a window that was not cancelled nothing is taken up for as long as the user has set. */
  lemma CooldownGoverns(r: Reg, s: nat, now: nat, src: nat, mac: Option<Mac>, at: nat) returns (r1: Reg)
    requires Inv(r) && r.win.pending && !r.win.cancelled && s > 0 && Closes(Look(SetCooldown(r, s), now))
    ensures r1 == Tick(SetCooldown(r, s), now) && Inv(r1)
    ensures at < now + 1000 * s ==> !TakenUp(r1, src, mac, at)
  {
    StepKeepsInv(r, ECooldown(s));
    CloseArms(SetCooldown(r, s), now);
    r1 := Tick(SetCooldown(r, s), now);
  }
}
