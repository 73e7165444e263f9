/**
 * The engine registry with automatic captures: which scanning engines run, and
 * how a detection pauses some of them for a timed capture and gives them back.
 * Every operation is a function from one registry value to the next.
 */
module Registry {
  import opened Bytes
  import opened DedupRing

  const DETECTOR := 0
  const FLOCK_BLE := 1
  const FLOCK_WIFI := 2
  const FOXHUNTER := 3
  const SKYSPY := 4
  const UNIPWN := 5
  const WARDRIVE := 6
  const PCAP := 7
  const COUNT := 8

  predicate IsWifi(id: nat) {
    id == FLOCK_WIFI || id == SKYSPY || id == WARDRIVE || id == PCAP
  }

  predicate IsBleScan(id: nat) {
    id == FLOCK_BLE || id == UNIPWN || id == FOXHUNTER || id == DETECTOR || id == PCAP
  }

  predicate CoexGroup(id: nat) {
    id == WARDRIVE || id == FLOCK_WIFI || id == SKYSPY || id == PCAP
  }

  predicate CoexCompatible(a: nat, b: nat) { CoexGroup(a) && CoexGroup(b) }

  datatype Mode = Wifi | Ble

  /** One capture window: what it paused, and how far it has got. */
  datatype Window = Window(
    pending: bool, observed: bool, cancelled: bool, paused: set<nat>,
    deadline: nat, armed: bool, fired: bool)

  datatype Reg = Reg(
    registered: set<nat>, active: set<nat>, deny: set<nat>,
    pcapUp: bool, pcapMode: Mode,
    enabled: bool, durationSec: nat, cooldownSec: nat,
    win: Window, cooldownUntil: nat, triggers: nat, macs: Ring)

  // ------------------------------------------------------------------
  // Enable and disable
  // ------------------------------------------------------------------

  /** While a capture owns the radio, engines it conflicts with are refused. */
  predicate Refuses(r: Reg, id: nat) {
    && id != PCAP && (PCAP in r.active || r.win.pending)
    && if r.pcapUp && r.pcapMode == Ble then IsBleScan(id) else IsWifi(id) || IsBleScan(id)
  }

  function StopHook(r: Reg, id: nat): Reg {
    if id == PCAP then r.(pcapUp := false) else r
  }

  function Disable(r: Reg, id: nat): (Reg, bool) {
    if id !in r.registered then (r, false)
    else if id !in r.active then (r, true)
    else (StopHook(r, id).(active := r.active - {id}), true)
  }

  /** The WiFi engines that have to give way to `id`. */
  function Losers(r: Reg, id: nat): set<nat> {
    set i | i in r.active && IsWifi(id) && i != id && IsWifi(i) && !CoexCompatible(id, i)
  }

  lemma DisableEffect(r: Reg, id: nat)
    requires r.active <= r.registered
    ensures Disable(r, id).0 == r.(active := r.active - {id}, pcapUp := r.pcapUp && !(id == PCAP && PCAP in r.active))
  {
    if id !in r.active {
      assert r.active - {id} == r.active;
    }
  }

  /** The foxhunter's start stops three engines unless wardrive runs; no other start stops any. */
  function Stops(active: set<nat>, id: nat): set<nat> {
    if id == FOXHUNTER && WARDRIVE !in active then {DETECTOR, FLOCK_WIFI, SKYSPY} else {}
  }

  /** Starting the capture may fail to get memory; the registry then still counts it as running. */
  function StartHook(r: Reg, id: nat, ok: bool): Reg {
    r.(active := r.active - Stops(r.active, id), pcapUp := r.pcapUp || (id == PCAP && ok))
  }

  function Enable(r: Reg, id: nat, ok: bool): (Reg, bool) {
    if id !in r.registered then (r, false)
    else if id in r.active then (r, true)
    else if Refuses(r, id) then (r, false)
    else
      var r1 := r.(active := r.active - Losers(r, id), pcapUp := r.pcapUp && PCAP !in Losers(r, id));
      var r2 := StartHook(r1, id, ok);
      (r2.(active := r2.active + {id}), true)
  }

  /** All WiFi engines coexist, so the hand-over between them never stops one. */
  lemma NoLosers(r: Reg, id: nat)
    ensures Losers(r, id) == {}
  {
  }

  // ------------------------------------------------------------------
  // Commands
  // ------------------------------------------------------------------

  function EnableCmd(r: Reg, id: nat, ok: bool): (Reg, bool) {
    if id >= COUNT || id in r.deny then (r, false)
    else
      var (r1, accepted) := Enable(r, id, ok);
      (if accepted then r1.(win := r1.win.(paused := r1.win.paused - {id})) else r1, accepted)
  }

  /** The user gives up a paused engine, or the whole window. */
  function GiveUp(r: Reg, id: nat): Reg {
    if id == PCAP && r.win.pending then r.(win := r.win.(cancelled := true, paused := {}))
    else r.(win := r.win.(paused := r.win.paused - {id}))
  }

  function DisableCmd(r: Reg, id: nat): Reg {
    if id >= COUNT then r else Disable(GiveUp(r, id), id).0
  }

  /** No window: the deadline and the timer's flag are left as they are. */
  function Shut(w: Window): Window {
    w.(pending := false, observed := false, cancelled := false, paused := {}, armed := false)
  }

  function DisableAll(r: Reg): Reg {
    r.(pcapUp := r.pcapUp && PCAP !in r.active, active := {}, win := Shut(r.win))
  }

  /** A stop written to the capture's own configuration bypasses the registry's bookkeeping. */
  function StopCapture(r: Reg): Reg {
    r.(pcapUp := false, active := r.active - {PCAP})
  }

  function SetDeny(r: Reg, mask: set<nat>): Reg {
    if mask == r.deny then r
    else r.(deny := mask, pcapUp := r.pcapUp && !(PCAP in mask && PCAP in r.active), active := r.active - mask)
  }

  function SetCooldown(r: Reg, s: nat): Reg {
    if s == r.cooldownSec then r else r.(cooldownSec := s, cooldownUntil := if s == 0 then 0 else r.cooldownUntil)
  }

  function SetDuration(r: Reg, s: nat): Reg {
    r.(durationSec := if s == 0 then 10 else s)
  }

  /** The members of a set before the `i`-th engine. */
  ghost function Below(s: set<nat>, i: nat): set<nat> {
    set k | k in s && k < i
  }

  // ------------------------------------------------------------------
  // A detection asks for a capture
  // ------------------------------------------------------------------

  predicate Triggering(src: nat) {
    src == DETECTOR || src == FLOCK_BLE || src == FLOCK_WIFI || src == SKYSPY || src == UNIPWN
  }

  predicate OnBle(src: nat, channel: nat) {
    if src == FLOCK_BLE || src == UNIPWN then true else if src == FLOCK_WIFI then false else channel == 0
  }

  predicate Conflicts(ble: bool, id: nat) {
    id != PCAP && if ble then IsBleScan(id) else IsWifi(id) || IsBleScan(id)
  }

  function ConflictsIn(active: set<nat>, ble: bool): set<nat> {
    set i | i in active && Conflicts(ble, i)
  }

  /** The request passes every check that does not depend on the device's address. */
  predicate Admits(r: Reg, src: nat, now: nat) {
    r.enabled && Triggering(src) && !r.win.pending && PCAP !in r.active && r.cooldownUntil <= now
  }

  function Recent(r: Reg, mac: Option<Mac>, now: nat): (Reg, bool)
    requires r.macs.WellFormed()
  {
    match mac
    case None => (r, false)
    case Some(m) =>
      var (ring, sup) := Check(r.macs, m, now);
      (r.(macs := ring), sup)
  }

  /** The conflicting engines stopped and remembered, and the window's clock started. */
  function Paused(r: Reg, ble: bool, now: nat): Reg {
    var paused := ConflictsIn(r.active, ble);
    r.(pcapMode := if ble then Ble else Wifi, active := r.active - paused, triggers := r.triggers + 1,
       win := Window(true, false, false, paused, now + r.durationSec * 1000, true, false))
  }

  function OpenWindow(r: Reg, ble: bool, now: nat, ok: bool): Reg {
    Enable(Paused(r, ble, now), PCAP, ok).0
  }

  function Trigger(r: Reg, src: nat, channel: nat, mac: Option<Mac>, now: nat, ok: bool): Reg
    requires r.macs.WellFormed()
  {
    if !Admits(r, src, now) then r
    else
      var r0 := r.(cooldownUntil := 0);
      var (r1, recent) := Recent(r0, mac, now);
      if recent then r1 else OpenWindow(r1, OnBle(src, channel), now, ok)
  }

  // ------------------------------------------------------------------
  // The tick that closes a window
  // ------------------------------------------------------------------

  function RestoreOne(r: Reg, mask: set<nat>, i: nat): Reg {
    if i in mask && i in r.registered && i !in r.active then Enable(r, i, true).0 else r
  }

  function Restore(r: Reg, mask: set<nat>, i: nat): Reg
    decreases COUNT - i
  {
    if i >= COUNT then r else Restore(RestoreOne(r, mask, i), mask, i + 1)
  }

  /** The capture, once due, is stopped; the tick then knows whether it is down and was ever seen up. */
  function Look(r: Reg, now: nat): Reg {
    var r1 := r.(win := r.win.(observed := r.win.observed || PCAP in r.active));
    if PCAP in r.active && (r.win.fired || now >= r.win.deadline) then Disable(r1, PCAP).0 else r1
  }

  predicate Closes(r: Reg) {
    PCAP !in r.active && (r.win.observed || r.win.cancelled)
  }

  /** The window's state cleared, and the cooldown armed unless the user cancelled. */
  function Closed(r: Reg, now: nat): Reg {
    r.(cooldownUntil := if !r.win.cancelled && r.cooldownSec > 0 then now + r.cooldownSec * 1000 else r.cooldownUntil,
       win := Shut(r.win))
  }

  function Close(r: Reg, now: nat): Reg {
    Restore(Closed(r, now), if r.win.cancelled then {} else r.win.paused, 0)
  }

  function Tick(r: Reg, now: nat): Reg {
    if !r.win.pending then r
    else
      var r1 := Look(r, now);
      if Closes(r1) then Close(r1, now) else r1
  }

  // ------------------------------------------------------------------
  // Runs
  // ------------------------------------------------------------------

  datatype Event =
    | EEnable(id: nat, ok: bool)
    | EDisable(id: nat)
    | EDisableAll
    | EDeny(mask: set<nat>)
    | EPcapStart(mode: Mode)             // configuration writes to the capture engine
    | EPcapStop
    | EAuto(on: bool)
    | EDuration(s: nat)
    | ECooldown(s: nat)
    | ETrigger(src: nat, channel: nat, mac: Option<Mac>, now: nat, ok: bool)
    | ETimer
    | ETick(now: nat)

  function Step(r: Reg, e: Event): Reg
    requires r.macs.WellFormed()
  {
    match e
    case EEnable(id, ok) => EnableCmd(r, id, ok).0
    case EDisable(id) => DisableCmd(r, id)
    case EDisableAll => DisableAll(r)
    case EDeny(mask) => SetDeny(r, mask)
    case EPcapStart(mode) => r.(pcapMode := mode)
    case EPcapStop => StopCapture(r)
    case EAuto(on) => r.(enabled := on)
    case EDuration(s) => SetDuration(r, s)
    case ECooldown(s) => SetCooldown(r, s)
    case ETrigger(src, channel, mac, now, ok) => Trigger(r, src, channel, mac, now, ok)
    case ETimer => if r.win.armed then r.(win := r.win.(fired := true, armed := false)) else r
    case ETick(now) => Tick(r, now)
  }

  ghost predicate Inv(r: Reg) {
    && r.macs.WellFormed()
    && r.active <= r.registered && PCAP in r.registered
    && (forall i :: i in r.registered ==> i < COUNT)
    && r.win.paused <= r.registered - {PCAP}
    && r.active !! r.win.paused
    && (!r.win.pending || r.win.cancelled ==> r.win.paused == {})
  }

  /** An open window has a capture that is up, was seen up, or was cancelled. */
  ghost predicate Closable(r: Reg) {
    r.win.pending ==> PCAP in r.active || r.win.observed || r.win.cancelled
  }
}
