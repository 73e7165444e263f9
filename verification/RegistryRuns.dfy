/**
 * What automatic captures keep over whole runs: the set of engines the user
 * wants (running or paused) changes only by the user's own commands, and every
 * window closes.
 */
module RegistryRuns {
  import opened Bytes
  import opened DedupRing
  import opened Registry

  /** The engines that run or will run again, the capture itself aside. */
  ghost function Intended(r: Reg): set<nat> {
    (r.active + r.win.paused) - {PCAP}
  }

  ghost predicate NoFoxhunter(r: Reg) {
    FOXHUNTER !in r.active && FOXHUNTER !in r.win.paused
  }

  // ------------------------------------------------------------------
  // One step keeps the invariant
  // ------------------------------------------------------------------

  /** An enable touches only what runs; any engine but the foxhunter adds itself and stops nothing. */
  lemma EnableEffect(r: Reg, id: nat, ok: bool)
    ensures var (r1, accepted) := Enable(r, id, ok);
            && r1 == r.(active := r1.active, pcapUp := r1.pcapUp)
            && (!accepted ==> r1 == r)
            && (accepted && id in r.active ==> r1.active == r.active)
            && (accepted && id !in r.active ==> r1.active == (r.active - Stops(r.active, id)) + {id})
            && (accepted <==> id in r.registered && (id in r.active || !Refuses(r, id)))
  {
    NoLosers(r, id);
    assert r.active - Losers(r, id) == r.active;
  }

  lemma EnableKeeps(r: Reg, id: nat, ok: bool)
    requires Inv(r)
    ensures Inv(EnableCmd(r, id, ok).0)
    ensures Closable(r) ==> Closable(EnableCmd(r, id, ok).0)
  {
    EnableEffect(r, id, ok);
  }

  lemma {:induction false} RestoreKeeps(r: Reg, mask: set<nat>, i: nat)
    requires Inv(r) && !r.win.pending
    ensures var r1 := Restore(r, mask, i);
            Inv(r1) && r1 == r.(active := r1.active, pcapUp := r1.pcapUp)
    decreases COUNT - i
  {
    if i < COUNT {
      RestoreOneKeeps(r, mask, i);
      var r1 := RestoreOne(r, mask, i);
      RestoreKeeps(r1, mask, i + 1);
      assert Restore(r, mask, i) == Restore(r1, mask, i + 1);
    }
  }

  lemma RestoreOneKeeps(r: Reg, mask: set<nat>, i: nat)
    requires Inv(r) && !r.win.pending
    ensures var r1 := RestoreOne(r, mask, i);
            Inv(r1) && !r1.win.pending && r1 == r.(active := r1.active, pcapUp := r1.pcapUp)
  {
    EnableEffect(r, i, true);
  }

  lemma LookEffect(r: Reg, now: nat)
    requires Inv(r) && r.win.pending
    ensures var r1 := Look(r, now);
            && Inv(r1)
            && r1 == r.(active := r1.active, pcapUp := r1.pcapUp,
                  win := r.win.(observed := r.win.observed || PCAP in r.active))
            && r1.active == r.active - if r.win.fired || now >= r.win.deadline then {PCAP} else {}
  {
  }

  lemma CloseKeeps(r: Reg, now: nat)
    requires Inv(r)
    ensures Inv(Close(r, now)) && !Close(r, now).win.pending && Close(r, now).win.paused == {}
  {
    RestoreKeeps(Closed(r, now), if r.win.cancelled then {} else r.win.paused, 0);
  }

  lemma TickKeeps(r: Reg, now: nat)
    requires Inv(r)
    ensures Inv(Tick(r, now))
    ensures Closable(r) ==> Closable(Tick(r, now))
  {
    if r.win.pending {
      LookEffect(r, now);
      CloseKeeps(Look(r, now), now);
    }
  }

  /** Opening a window only moves engines from running to paused. */
  lemma OpenKeeps(r: Reg, ble: bool, now: nat, ok: bool)
    requires Inv(r) && !r.win.pending && PCAP !in r.active
    ensures var r1 := OpenWindow(r, ble, now, ok);
            && Inv(r1) && r1.win.pending && PCAP in r1.active
            && r1.win.paused == ConflictsIn(r.active, ble)
            && r1.active == (r.active - r1.win.paused) + {PCAP}
            && Intended(r1) == Intended(r)
            && r1.win.deadline == now + r.durationSec * 1000
  {
    assert ConflictsIn(r.active, ble) <= r.active - {PCAP};
    EnableEffect(Paused(r, ble, now), PCAP, ok);
  }

  lemma TriggerKeeps(r: Reg, src: nat, channel: nat, mac: Option<Mac>, now: nat, ok: bool)
    requires Inv(r)
    ensures var r1 := Trigger(r, src, channel, mac, now, ok);
            && Inv(r1) && (Closable(r) ==> Closable(r1))
            && Intended(r1) == Intended(r) && (NoFoxhunter(r) ==> NoFoxhunter(r1))
            && (!r1.win.pending ==> r1.active == r.active)
  {
    if Admits(r, src, now) {
      var (r1, recent) := Recent(r.(cooldownUntil := 0), mac, now);
      if !recent {
        OpenKeeps(r1, OnBle(src, channel), now, ok);
      }
    }
  }

  lemma DisableKeeps(r: Reg, id: nat)
    requires Inv(r)
    ensures Inv(DisableCmd(r, id))
    ensures Closable(r) ==> Closable(DisableCmd(r, id))
  {
    DisableEffect(GiveUp(r, id), id);
  }

  lemma DenyKeeps(r: Reg, mask: set<nat>)
    requires Inv(r)
    ensures Inv(SetDeny(r, mask))
    ensures Closable(r) && PCAP !in mask ==> Closable(SetDeny(r, mask))
  {
  }

  /** The two operations that take the capture down behind the window's back. */
  predicate StopsCapture(e: Event) {
    e.EPcapStop? || (e.EDeny? && PCAP in e.mask)
  }

  lemma StepKeepsInv(r: Reg, e: Event)
    requires Inv(r)
    ensures Inv(Step(r, e))
    ensures Closable(r) && !StopsCapture(e) ==> Closable(Step(r, e))
  {
    match e
    case EEnable(id, ok) => EnableKeeps(r, id, ok);
    case EDisable(id) => DisableKeeps(r, id);
    case EDeny(mask) => DenyKeeps(r, mask);
    case ETrigger(src, channel, mac, now, ok) => TriggerKeeps(r, src, channel, mac, now, ok);
    case ETick(now) => TickKeeps(r, now);
    case _ =>
  }

  // ------------------------------------------------------------------
  // Closing gives back what was taken
  // ------------------------------------------------------------------

  ghost function From(mask: set<nat>, i: nat): set<nat> {
    set k | k in mask && i <= k
  }

  lemma RestoreOneEffect(r: Reg, mask: set<nat>, i: nat)
    requires Inv(r) && !r.win.pending && PCAP !in r.active && mask <= r.registered - {PCAP}
    ensures i != FOXHUNTER ==> RestoreOne(r, mask, i) == r.(active := r.active + (mask * {i}))
    ensures i == FOXHUNTER && i in mask && i !in r.active ==>
              RestoreOne(r, mask, i) == r.(active := (r.active - Stops(r.active, i)) + {i})
  {
    EnableEffect(r, i, true);
    if i in mask {
      assert mask * {i} == {i};
      assert i in r.active ==> r.active + {i} == r.active;
    } else {
      assert mask * {i} == {};
      assert r.active + {} == r.active;
    }
  }

  /** With no capture in the way and no foxhunter still to come, every engine of the mask is started. */
  lemma {:induction false} RestoreAll(r: Reg, mask: set<nat>, i: nat)
    requires Inv(r) && !r.win.pending && PCAP !in r.active && mask <= r.registered - {PCAP}
    requires FOXHUNTER in mask ==> FOXHUNTER < i
    ensures Restore(r, mask, i).active == r.active + From(mask, i)
    decreases COUNT - i
  {
    if i < COUNT {
      RestoreOneEffect(r, mask, i);
      RestoreOneKeeps(r, mask, i);
      var r1 := RestoreOne(r, mask, i);
      assert r1 == r.(active := r.active + (mask * {i}));
      RestoreAll(r1, mask, i + 1);
      assert Restore(r, mask, i) == Restore(r1, mask, i + 1);
      assert (r.active + (mask * {i})) + From(mask, i + 1) == r.active + From(mask, i);
    } else {
      assert From(mask, i) == {};
    }
  }

  /** What the foxhunter's own start costs when it is one of the engines given back. */
  ghost function LostToFoxhunter(r: Reg): set<nat> {
    if FOXHUNTER in r.win.paused && WARDRIVE !in r.active then {DETECTOR, FLOCK_WIFI} + ({SKYSPY} - r.win.paused)
        else {}
  }

  /** The state once the first `i` engines of the mask are back. */
  ghost function Started(r: Reg, mask: set<nat>, i: nat): Reg {
    r.(active := r.active + Below(mask, i))
  }

  lemma {:induction false} RestoreUpTo(r: Reg, mask: set<nat>, i: nat)
    requires Inv(r) && !r.win.pending && PCAP !in r.active && mask <= r.registered - {PCAP} && i <= FOXHUNTER
    ensures Inv(Started(r, mask, i)) && Restore(r, mask, 0) == Restore(Started(r, mask, i), mask, i)
  {
    if i == 0 {
      assert r.active + Below(mask, 0) == r.active;
    } else {
      RestoreUpTo(r, mask, i - 1);
      RestoreOneEffect(Started(r, mask, i - 1), mask, i - 1);
      assert (r.active + Below(mask, i - 1)) + (mask * {i - 1}) == r.active + Below(mask, i);
    }
  }

  lemma RestoreFoxhunter(r: Reg, mask: set<nat>)
    requires Inv(r) && !r.win.pending && PCAP !in r.active && mask <= r.registered - {PCAP}
    requires FOXHUNTER in mask && r.active !! mask
    ensures Restore(r, mask, 0).active
            == (r.active + mask) - if WARDRIVE !in r.active then {DETECTOR, FLOCK_WIFI} + ({SKYSPY} - mask) else {}
  {
    RestoreUpTo(r, mask, FOXHUNTER);
    var r3 := Started(r, mask, FOXHUNTER);
    RestoreOneEffect(r3, mask, FOXHUNTER);
    RestoreAll(RestoreOne(r3, mask, FOXHUNTER), mask, FOXHUNTER + 1);
    assert WARDRIVE in r3.active <==> WARDRIVE in r.active;
    assert Below(mask, FOXHUNTER) + {FOXHUNTER} + From(mask, FOXHUNTER + 1) == mask;
  }

  /**
   * A window that closes without a cancel leaves the intended engines running, but for what the foxhunter's
   * start costs.
   */
  lemma CloseRestores(r: Reg, now: nat)
    requires Inv(r) && Closes(r)
    ensures Close(r, now).active == Intended(r) - LostToFoxhunter(r)
    ensures r.win.cancelled ==> Close(r, now).active == r.active
  {
    if FOXHUNTER in r.win.paused {
      RestoreFoxhunter(Closed(r, now), r.win.paused);
    } else {
      RestoreAll(Closed(r, now), r.win.paused, 0);
      assert From(r.win.paused, 0) == r.win.paused;
    }
  }

  /** Exactly when everything paused comes back. */
  lemma RestoresAllExactly(r: Reg, now: nat)
    requires Inv(r) && Closes(r)
    ensures Close(r, now).active == Intended(r)
            <==> !(FOXHUNTER in r.win.paused && WARDRIVE !in r.active
                   && (DETECTOR in r.active + r.win.paused || FLOCK_WIFI in r.active + r.win.paused
                       || SKYSPY in r.active))
  {
    CloseRestores(r, now);
    var kept, lost := Close(r, now).active, LostToFoxhunter(r);
    assert kept == Intended(r) - lost;
    assert (DETECTOR in Intended(r) <==> DETECTOR in r.active + r.win.paused)
        && (FLOCK_WIFI in Intended(r) <==> FLOCK_WIFI in r.active + r.win.paused)
        && (SKYSPY in Intended(r) <==> SKYSPY in r.active + r.win.paused);
    assert (DETECTOR in lost ==> DETECTOR !in kept) && (FLOCK_WIFI in lost ==> FLOCK_WIFI !in kept)
        && (SKYSPY in lost ==> SKYSPY !in kept);
    if lost * Intended(r) == {} {
      assert kept == Intended(r);
    }
  }

  lemma TickIntended(r: Reg, now: nat)
    requires Inv(r) && NoFoxhunter(r)
    ensures Intended(Tick(r, now)) == Intended(r) && NoFoxhunter(Tick(r, now))
    ensures r.win.pending && !Tick(r, now).win.pending ==> Tick(r, now).active == Intended(r)
  {
    if r.win.pending {
      LookEffect(r, now);
      var r1 := Look(r, now);
      assert Intended(r1) == Intended(r);
      if Closes(r1) {
        CloseRestores(r1, now);
        CloseKeeps(r1, now);
      }
    }
  }

  // ------------------------------------------------------------------
  // Only the user's commands change what is intended
  // ------------------------------------------------------------------

  /** How the user's own commands change the wanted set. No trigger and no tick appears here. */
  ghost function WantAfter(r: Reg, want: set<nat>, e: Event): set<nat> {
    match e
    case EEnable(id, ok) => if EnableCmd(r, id, ok).1 then want + ({id} - {PCAP}) else want
    case EDisable(id) => if id == PCAP && r.win.pending then want - r.win.paused else want - {id}
    case EDisableAll => {}
    case EDeny(mask) => if mask == r.deny then want else want - (mask * r.active)
    case _ => want
  }

  lemma EnableIntended(r: Reg, id: nat, ok: bool)
    requires Inv(r) && NoFoxhunter(r) && id != FOXHUNTER
    ensures NoFoxhunter(EnableCmd(r, id, ok).0)
    ensures Intended(EnableCmd(r, id, ok).0) == if EnableCmd(r, id, ok).1 then Intended(r) + ({id} - {PCAP})
        else Intended(r)
  {
    EnableEffect(r, id, ok);
  }

  lemma DisableIntended(r: Reg, id: nat)
    requires Inv(r) && NoFoxhunter(r)
    ensures NoFoxhunter(DisableCmd(r, id))
    ensures Intended(DisableCmd(r, id)) == if id == PCAP && r.win.pending then Intended(r) - r.win.paused
        else Intended(r) - {id}
  {
    DisableEffect(GiveUp(r, id), id);
  }

  lemma DenyIntended(r: Reg, mask: set<nat>)
    requires Inv(r) && NoFoxhunter(r)
    ensures NoFoxhunter(SetDeny(r, mask))
    ensures Intended(SetDeny(r, mask)) == if mask == r.deny then Intended(r) else Intended(r) - (mask * r.active)
  {
  }

  lemma StepIntended(r: Reg, e: Event)
    requires Inv(r) && NoFoxhunter(r) && !(e.EEnable? && e.id == FOXHUNTER)
    ensures NoFoxhunter(Step(r, e)) && Intended(Step(r, e)) == WantAfter(r, Intended(r), e)
  {
    match e
    case EEnable(id, ok) => EnableIntended(r, id, ok);
    case EDisable(id) => DisableIntended(r, id);
    case EDeny(mask) => DenyIntended(r, mask);
    case ETrigger(src, channel, mac, now, ok) => TriggerKeeps(r, src, channel, mac, now, ok);
    case ETick(now) => TickIntended(r, now);
    case _ =>
  }

  // ------------------------------------------------------------------
  // Whole runs
  // ------------------------------------------------------------------

  ghost function Run(r: Reg, es: seq<Event>): (r1: Reg)
    requires Inv(r)
    ensures Inv(r1)
    decreases |es|
  {
    if es == [] then r
    else
      var p, e := Run(r, es[..|es| - 1]), es[|es| - 1];
      StepKeepsInv(p, e);
      Step(p, e)
  }

  /** What the user wants after a run, kept up from the user's commands alone. */
  ghost function Want(r: Reg, want: set<nat>, es: seq<Event>): set<nat>
    requires Inv(r)
    decreases |es|
  {
    if es == [] then want
    else WantAfter(Run(r, es[..|es| - 1]), Want(r, want, es[..|es| - 1]), es[|es| - 1])
  }

  lemma {:induction false} CapturesAreTransparent(r: Reg, es: seq<Event>)
    requires Inv(r) && NoFoxhunter(r)
    requires forall e :: e in es ==> !(e.EEnable? && e.id == FOXHUNTER)
    ensures NoFoxhunter(Run(r, es)) && Intended(Run(r, es)) == Want(r, Intended(r), es)
    ensures !Run(r, es).win.pending ==> Run(r, es).active - {PCAP} == Want(r, Intended(r), es)
    decreases |es|
  {
    if es != [] {
      CapturesAreTransparent(r, es[..|es| - 1]);
      StepIntended(Run(r, es[..|es| - 1]), es[|es| - 1]);
    }
  }

  /** The tick that closes a window leaves running exactly what the user wants, no matter what happened meanwhile. */
  lemma ClosingGivesBack(r: Reg, es: seq<Event>, now: nat)
    requires Inv(r) && NoFoxhunter(r)
    requires forall e :: e in es ==> !(e.EEnable? && e.id == FOXHUNTER)
    requires Run(r, es).win.pending && !Tick(Run(r, es), now).win.pending
    ensures Tick(Run(r, es), now).active == Want(r, Intended(r), es)
  {
    CapturesAreTransparent(r, es);
    TickIntended(Run(r, es), now);
  }

  // ------------------------------------------------------------------
  // Windows close
  // ------------------------------------------------------------------

  /** A tick at or after the deadline closes the window exactly when the capture is up, was seen up or was cancelled. */
  lemma ClosesExactly(r: Reg, now: nat)
    requires Inv(r) && r.win.pending && (r.win.fired || now >= r.win.deadline)
    ensures !Tick(r, now).win.pending <==> PCAP in r.active || r.win.observed || r.win.cancelled
    ensures !(PCAP in r.active || r.win.observed || r.win.cancelled) ==> Tick(r, now) == r
  {
    LookEffect(r, now);
    if Closes(Look(r, now)) {
      CloseKeeps(Look(r, now), now);
    }
  }

  lemma {:induction false} StaysClosable(r: Reg, es: seq<Event>)
    requires Inv(r) && Closable(r) && forall e :: e in es ==> !StopsCapture(e)
    ensures Closable(Run(r, es))
    decreases |es|
  {
    if es != [] {
      StaysClosable(r, es[..|es| - 1]);
      StepKeepsInv(Run(r, es[..|es| - 1]), es[|es| - 1]);
    }
  }

  /** Unless the capture is stopped behind the window's back, the first tick at the deadline closes the window. */
  lemma WindowsClose(r: Reg, es: seq<Event>, now: nat)
    requires Inv(r) && Closable(r) && forall e :: e in es ==> !StopsCapture(e)
    requires Run(r, es).win.pending && now >= Run(r, es).win.deadline
    ensures !Tick(Run(r, es), now).win.pending && Tick(Run(r, es), now).win.paused == {}
  {
    StaysClosable(r, es);
    ClosesExactly(Run(r, es), now);
    TickKeeps(Run(r, es), now);
  }

  /**
   * Stopped through its configuration before the first tick, the capture leaves the window open for ever: no
   * tick and no trigger ends it.
   */
  lemma {:induction false} StoppedEarlyStaysOpen(r: Reg, es: seq<Event>)
    requires Inv(r) && r.win.pending && !Closable(r)
    requires forall e :: e in es ==> !e.EDisableAll? && !(e.EEnable? && e.id == PCAP) && !(e.EDisable? && e.id == PCAP)
    ensures Run(r, es).win.pending && !Closable(Run(r, es))
    ensures Run(r, es).triggers == r.triggers
    decreases |es|
  {
    if es != [] {
      StoppedEarlyStaysOpen(r, es[..|es| - 1]);
      OpenStep(Run(r, es[..|es| - 1]), es[|es| - 1]);
    }
  }

  lemma OpenStep(r: Reg, e: Event)
    requires Inv(r) && r.win.pending && !Closable(r)
    requires !e.EDisableAll? && !(e.EEnable? && e.id == PCAP) && !(e.EDisable? && e.id == PCAP)
    ensures Step(r, e).win.pending && !Closable(Step(r, e)) && Step(r, e).triggers == r.triggers
  {
    match e
    case EEnable(id, ok) => EnableEffect(r, id, ok);
    case EDisable(id) => DisableEffect(GiveUp(r, id), id);
    case ETick(now) => LookEffect(r, now);
    case _ =>
  }

  /** The state above is reached: any accepted trigger, followed at once by the capture's own stop. */
  lemma StopBeforeFirstTick(r: Reg, src: nat, channel: nat, now: nat, ok: bool)
    requires Inv(r) && Admits(r, src, now)
    ensures var r1 := Run(r, [ETrigger(src, channel, None, now, ok), EPcapStop]);
            Inv(r1) && r1.win.pending && !Closable(r1)
  {
    var e := ETrigger(src, channel, None, now, ok);
    assert [e, EPcapStop][..1] == [e] && [e][..0] == [];
    var r0 := r.(cooldownUntil := 0);
    OpenKeeps(r0, OnBle(src, channel), now, ok);
    assert Run(r, []) == r;
    assert Run(r, [e]) == Step(r, e) == OpenWindow(r0, OnBle(src, channel), now, ok);
    EnableEffect(Paused(r0, OnBle(src, channel), now), PCAP, ok);
  }

  // ------------------------------------------------------------------
  // The cooldown
  // ------------------------------------------------------------------

  lemma QuietStep(r: Reg, e: Event)
    requires Inv(r) && !r.win.pending
    requires (e.ETrigger? ==> e.now < r.cooldownUntil) && !(e.ECooldown? && e.s == 0)
    ensures var r1 := Step(r, e);
            !r1.win.pending && r1.triggers == r.triggers && r1.cooldownUntil == r.cooldownUntil
  {
    match e
    case EEnable(id, ok) => EnableEffect(r, id, ok);
    case EDisable(id) => DisableEffect(GiveUp(r, id), id);
    case _ =>
  }

  /** Before the cooldown runs out no trigger opens a window, whatever else the user does. */
  lemma {:induction false} CooldownHolds(r: Reg, es: seq<Event>)
    requires Inv(r) && !r.win.pending
    requires forall e :: e in es ==> (e.ETrigger? ==> e.now < r.cooldownUntil) && !(e.ECooldown? && e.s == 0)
    ensures var r1 := Run(r, es);
            !r1.win.pending && r1.triggers == r.triggers && r1.cooldownUntil == r.cooldownUntil
    decreases |es|
  {
    if es != [] {
      CooldownHolds(r, es[..|es| - 1]);
      QuietStep(Run(r, es[..|es| - 1]), es[|es| - 1]);
    }
  }

  /** After a window that was not cancelled has closed, the next one opens no earlier than the cooldown allows. */
  lemma CooldownAfterClose(r: Reg, now: nat, es: seq<Event>)
    requires Inv(r) && r.win.pending && !r.win.cancelled && r.cooldownSec > 0 && !Tick(r, now).win.pending
    requires forall e :: e in es ==>
               (e.ETrigger? ==> e.now < now + 1000 * r.cooldownSec) && !(e.ECooldown? && e.s == 0)
    ensures Inv(Tick(r, now))
    ensures var r1 := Run(Tick(r, now), es);
            !r1.win.pending && r1.triggers == r.triggers
  {
    LookEffect(r, now);
    var r1 := Look(r, now);
    TickKeeps(r, now);
    RestoreKeeps(Closed(r1, now), r1.win.paused, 0);
    CooldownHolds(Tick(r, now), es);
  }

  // ------------------------------------------------------------------
  // Denied engines
  // ------------------------------------------------------------------

  ghost predicate DenyHolds(r: Reg) { r.active !! r.deny }

  /** The detection passes every check, its address included, and so starts a capture. */
  predicate Opens(r: Reg, e: Event)
    requires r.macs.WellFormed()
  {
    e.ETrigger? && Admits(r, e.src, e.now) && !Recent(r, e.mac, e.now).1
  }

  /** The tick finds the capture down after it was up, and nobody has cancelled. */
  predicate GivesBack(r: Reg, e: Event) {
    e.ETick? && r.win.pending && !r.win.cancelled && Closes(Look(r, e.now))
  }

  /** The two steps that start a denied engine: a capture that is itself denied, and an engine denied while paused. */
  ghost predicate StartsDenied(r: Reg, e: Event)
    requires r.macs.WellFormed()
  {
    || (Opens(r, e) && PCAP in r.deny)
    || (GivesBack(r, e) && (r.win.paused - LostToFoxhunter(Look(r, e.now))) * r.deny != {})
  }

  lemma TriggerDeny(r: Reg, e: Event)
    requires Inv(r) && DenyHolds(r) && e.ETrigger?
    ensures DenyHolds(Step(r, e)) <==> !StartsDenied(r, e)
  {
    if Opens(r, e) {
      var r1 := Recent(r.(cooldownUntil := 0), e.mac, e.now).0;
      OpenKeeps(r1, OnBle(e.src, e.channel), e.now, e.ok);
      EnableEffect(Paused(r1, OnBle(e.src, e.channel), e.now), PCAP, e.ok);
      assert Step(r, e).deny == r.deny;
      assert PCAP in Step(r, e).active;
    }
  }

  lemma TickDeny(r: Reg, e: Event)
    requires Inv(r) && DenyHolds(r) && e.ETick?
    ensures DenyHolds(Step(r, e)) <==> !StartsDenied(r, e)
  {
    if r.win.pending {
      LookEffect(r, e.now);
      var r1 := Look(r, e.now);
      if Closes(r1) {
        CloseRestores(r1, e.now);
        RestoreKeeps(Closed(r1, e.now), if r.win.cancelled then {} else r.win.paused, 0);
        assert Step(r, e).deny == r.deny;
        if GivesBack(r, e) {
          var back := r.win.paused - LostToFoxhunter(r1);
          assert back <= Step(r, e).active <= r1.active + back;
        }
      }
    }
  }

  /** One step keeps denied engines from running exactly if it is neither of the two. */
  lemma DenyHoldsExactly(r: Reg, e: Event)
    requires Inv(r) && DenyHolds(r)
    ensures DenyHolds(Step(r, e)) <==> !StartsDenied(r, e)
  {
    match e
    case EEnable(id, ok) => EnableEffect(r, id, ok);
    case EDisable(id) => DisableEffect(GiveUp(r, id), id);
    case ETrigger(_, _, _, _, _) => TriggerDeny(r, e);
    case ETick(_) => TickDeny(r, e);
    case _ =>
  }

  lemma {:induction false} DenyHoldsInRuns(r: Reg, es: seq<Event>)
    requires Inv(r) && DenyHolds(r)
    requires forall i :: 0 <= i < |es| ==> !StartsDenied(Run(r, es[..i]), es[i])
    ensures DenyHolds(Run(r, es))
    decreases |es|
  {
    if es != [] {
      var init := es[..|es| - 1];
      forall i | 0 <= i < |init| ensures !StartsDenied(Run(r, init[..i]), init[i]) {
        assert init[..i] == es[..i];
      }
      DenyHoldsInRuns(r, init);
      DenyHoldsExactly(Run(r, init), es[|es| - 1]);
    }
  }

  lemma RunSnoc(r: Reg, es: seq<Event>, e: Event)
    requires Inv(r)
    ensures Run(r, es + [e]) == Step(Run(r, es), e)
  {
    assert (es + [e])[..|es|] == es;
  }

  /** A registry at rest: nothing runs, no window is open, and captures are allowed. */
  ghost predicate AtRest(r: Reg, now: nat) {
    Inv(r) && r.active == {} && !r.win.pending && r.cooldownUntil <= now && r.enabled
  }

  /** A detection of the detector's own opens a window, which pauses it and whatever else listens on Bluetooth. */
  lemma DetectorIsPaused(r: Reg, now: nat)
    requires Inv(r) && !r.win.pending && r.cooldownUntil <= now && r.enabled && PCAP !in r.active
    requires r.active <= {DETECTOR, FOXHUNTER}
    ensures var r1 := Step(r, ETrigger(DETECTOR, 0, None, now, true));
            && Inv(r1) && r1.win.pending && !r1.win.cancelled && r1.win.paused == r.active && r1.active == {PCAP}
            && r1.win.deadline == now + r.durationSec * 1000 && r1.deny == r.deny
  {
    var r0 := r.(cooldownUntil := 0);
    OpenKeeps(r0, true, now, true);
    EnableEffect(Paused(r0, true, now), PCAP, true);
    assert ConflictsIn(r0.active, true) == r.active;
    assert (r.active - r.active) + {PCAP} == {PCAP};
  }

  lemma DetectorStarts(r: Reg, now: nat)
    requires Inv(r) && !r.win.pending && r.active <= {FOXHUNTER} && DETECTOR in r.registered && DETECTOR !in r.deny
    ensures var r1 := Step(r, EEnable(DETECTOR, true));
            Inv(r1) && r1 == r.(active := r.active + {DETECTOR}, win := r1.win) && !r1.win.pending
  {
    EnableEffect(r, DETECTOR, true);
    EnableKeeps(r, DETECTOR, true);
  }

  /** Then the user starts the detector, and it is caught by its own detection. */
  ghost function Caught(es: seq<Event>, now: nat): seq<Event> {
    es + [EEnable(DETECTOR, true)] + [ETrigger(DETECTOR, 0, None, now, true)]
  }

  lemma CaughtIsPaused(r: Reg, es: seq<Event>, now: nat) returns (r1: Reg)
    requires Inv(r)
    requires var p := Run(r, es);
             && !p.win.pending && p.cooldownUntil <= now && p.enabled && p.active <= {FOXHUNTER}
             && DETECTOR in p.registered && DETECTOR !in p.deny
    ensures var p := Run(r, es);
            && r1 == Run(r, Caught(es, now)) && Inv(r1)
            && r1.win.pending && !r1.win.cancelled && r1.win.paused == p.active + {DETECTOR} && r1.active == {PCAP}
            && r1.win.deadline == now + p.durationSec * 1000 && r1.deny == p.deny
  {
    var e := EEnable(DETECTOR, true);
    RunSnoc(r, es, e);
    RunSnoc(r, es + [e], ETrigger(DETECTOR, 0, None, now, true));
    PausedAfterStart(Run(r, es), now);
    r1 := Run(r, Caught(es, now));
  }

  lemma PausedAfterStart(p: Reg, now: nat)
    requires Inv(p) && !p.win.pending && p.cooldownUntil <= now && p.enabled && p.active <= {FOXHUNTER}
    requires DETECTOR in p.registered && DETECTOR !in p.deny
    ensures Inv(Step(p, EEnable(DETECTOR, true)))
    ensures var r1 := Step(Step(p, EEnable(DETECTOR, true)), ETrigger(DETECTOR, 0, None, now, true));
            && Inv(r1)
            && r1.win.pending && !r1.win.cancelled && r1.win.paused == p.active + {DETECTOR} && r1.active == {PCAP}
            && r1.win.deadline == now + p.durationSec * 1000 && r1.deny == p.deny
  {
    DetectorStarts(p, now);
    DetectorIsPaused(Step(p, EEnable(DETECTOR, true)), now);
  }

  lemma TickKeepsDeny(r: Reg, now: nat)
    requires Inv(r)
    ensures Tick(r, now).deny == r.deny
  {
    if r.win.pending && Closes(Look(r, now)) {
      LookEffect(r, now);
      RestoreKeeps(Closed(Look(r, now), now), if r.win.cancelled then {} else r.win.paused, 0);
    }
  }

  /** Denied while it is paused, the engine is started again by the tick that closes the window. */
  lemma DeniedComesBack(r: Reg, mask: set<nat>, now: nat)
    returns (r1: Reg)
    requires Inv(r) && r.win.pending && !r.win.cancelled && r.win.paused == {DETECTOR} && r.active == {PCAP}
    requires now >= r.win.deadline && DETECTOR in mask && PCAP !in mask
    ensures Inv(Step(r, EDeny(mask))) && r1 == Step(Step(r, EDeny(mask)), ETick(now))
    ensures r1.active == {DETECTOR} && r1.deny == mask && SetDeny(r1, mask) == r1
  {
    StepKeepsInv(r, EDeny(mask));
    var r0 := Step(r, EDeny(mask));
    assert {PCAP} - mask == {PCAP};
    assert r0 == r.(deny := mask, active := {PCAP});
    LookEffect(r0, now);
    CloseRestores(Look(r0, now), now);
    TickKeepsDeny(r0, now);
    r1 := Step(r0, ETick(now));
  }

  /**
   * From any state at rest there is a run after which the detector runs though a mask denies it; sending the
   * same mask again does not stop it. A manager sends such a mask, of the detector, Flock-WiFi, the foxhunter
   * and wardrive, to the node it has chosen for the drone scan.
   */
  lemma DeniedEngineRuns(r: Reg, mask: set<nat>, now: nat) returns (p: Reg, r1: Reg)
    requires AtRest(r, now) && DETECTOR in r.registered && DETECTOR !in r.deny
    requires DETECTOR in mask && PCAP !in mask
    ensures p == Run(r, Caught([], now))
    ensures r1 == Step(Step(p, EDeny(mask)), ETick(now + r.durationSec * 1000))
    ensures DETECTOR in r1.active && r1.deny == mask && SetDeny(r1, mask) == r1
  {
    assert Run(r, []) == r;
    p := CaughtIsPaused(r, [], now);
    assert {} + {DETECTOR} == {DETECTOR};
    r1 := DeniedComesBack(p, mask, now + r.durationSec * 1000);
  }

  /** And from any there is one after which the capture runs though it is denied. */
  lemma DeniedCaptureRuns(r: Reg, now: nat) returns (r1: Reg)
    requires AtRest(r, now) && DETECTOR in r.registered
    ensures r1 == Run(r, Caught([EDeny({PCAP})], now)) && PCAP in r1.active && PCAP in r1.deny
  {
    var e := EDeny({PCAP});
    assert Run(r, []) == r && [] + [e] == [e];
    RunSnoc(r, [], e);
    r1 := CaughtIsPaused(r, [e], now);
  }

  // ------------------------------------------------------------------
  // Engines lost to the foxhunter
  // ------------------------------------------------------------------

  ghost predicate Allows(r: Reg, id: nat) { id in r.registered && id !in r.deny }

  lemma FoxhunterStarts(r: Reg, now: nat)
    requires AtRest(r, now) && FOXHUNTER in r.registered && FOXHUNTER !in r.deny
    ensures var r1 := Step(r, EEnable(FOXHUNTER, true));
            Inv(r1) && r1 == r.(active := {FOXHUNTER}, win := r1.win) && !r1.win.pending
  {
    EnableEffect(r, FOXHUNTER, true);
    EnableKeeps(r, FOXHUNTER, true);
    assert ({} - Stops({}, FOXHUNTER)) + {FOXHUNTER} == {FOXHUNTER};
  }

  /** A window holds the foxhunter and the detector until `deadline`. */
  ghost predicate HoldsBoth(r: Reg, deadline: nat) {
    && r.win.pending && !r.win.cancelled && r.win.paused == {FOXHUNTER, DETECTOR} && r.active == {PCAP}
    && r.win.deadline == deadline
  }

  lemma BothArePaused(r: Reg, now: nat) returns (p: Reg, r1: Reg)
    requires AtRest(r, now) && Allows(r, DETECTOR) && Allows(r, FOXHUNTER)
    ensures p == Step(r, EEnable(FOXHUNTER, true)) && Inv(p) && r1 == Run(p, Caught([], now))
    ensures Inv(r1) && HoldsBoth(r1, now + r.durationSec * 1000)
  {
    FoxhunterStarts(r, now);
    p := Step(r, EEnable(FOXHUNTER, true));
    assert Run(p, []) == p;
    r1 := CaughtIsPaused(p, [], now);
    assert {FOXHUNTER} + {DETECTOR} == {FOXHUNTER, DETECTOR};
  }

  lemma OnlyFoxhunterBack(r: Reg, now: nat) returns (r2: Reg)
    requires Inv(r) && HoldsBoth(r, now)
    ensures r2 == Step(r, ETick(now)) && !r2.win.pending && r2.active == {FOXHUNTER}
  {
    LookEffect(r, now);
    var r1 := Look(r, now);
    CloseRestores(r1, now);
    CloseKeeps(r1, now);
    assert LostToFoxhunter(r1) == {DETECTOR, FLOCK_WIFI} + ({SKYSPY} - r1.win.paused);
    r2 := Step(r, ETick(now));
  }

  /**
   * That does happen: the user starts the foxhunter and then the detector, a detection pauses both, and when
   * the window has closed only the foxhunter is back.
   */
  lemma FoxhunterCostsDetector(r: Reg, now: nat) returns (p: Reg, r1: Reg, r2: Reg)
    requires AtRest(r, now) && Allows(r, DETECTOR) && Allows(r, FOXHUNTER)
    ensures p == Step(r, EEnable(FOXHUNTER, true)) && Inv(p) && r1 == Run(p, Caught([], now))
    ensures HoldsBoth(r1, now + r.durationSec * 1000)
    ensures r2 == Step(r1, ETick(now + r.durationSec * 1000)) && !r2.win.pending && r2.active == {FOXHUNTER}
  {
    p, r1 := BothArePaused(r, now);
    r2 := OnlyFoxhunterBack(r1, now + r.durationSec * 1000);
  }
}
