/**
 * The manager's last stage: finished records wait in one buffer and leave for
 * the phone in acknowledged indications.
 */
module PcapPhone {
  import opened Bytes

  const COALESCE_BUF := 2048
  const WATERMARK := 480
  const MAX_AGE_MS := 100
  const IND_MAX := 480
  const WATCHDOG_MS := 2000

  datatype Feed = Feed(pend: seq<byte>, inFlight: bool, sentMs: nat, lastFlushMs: nat) {
    ghost predicate Fits() { |pend| <= COALESCE_BUF }
  }

  /** The phone's side: linked, capture wanted (commanded or an auto-capture window open), subscribed. */
  datatype Phone = Phone(connected: bool, capturing: bool, subscribed: bool)

  /** A finished record waits whole, or is dropped whole. */
  function Stash(f: Feed, rec: seq<byte>): (Feed, bool) {
    if |f.pend| + |rec| <= COALESCE_BUF then (f.(pend := f.pend + rec), true) else (f, false)
  }

  function Flush(f: Feed, ph: Phone, now: nat): (Feed, Option<seq<byte>>) {
    if !ph.connected then (f, None)
    else if !ph.capturing then (f.(pend := []), None)
    else if !ph.subscribed then (f, None)
    else if f.inFlight && Elapsed(now, f.sentMs) <= WATCHDOG_MS then (f, None)
    else
      var n := |f.pend|;
      if n == 0 || (n < WATERMARK && Elapsed(now, f.lastFlushMs) < MAX_AGE_MS)
      then (f.(inFlight := false), None)
      else
        var chunk := Min(n, IND_MAX);
        (Feed(f.pend[chunk..], true, now, now), Some(f.pend[..chunk]))
  }

  class PhoneFeed {
    const buf: array<byte>
    var len: nat
    var inFlight: bool
    var sentMs: nat
    var lastFlushMs: nat
    var recsOk: nat
    var recsDropped: nat

    ghost predicate Valid()
      reads this
    {
      buf.Length == COALESCE_BUF && len <= COALESCE_BUF
    }

    ghost function Abs(): (f: Feed)
      requires Valid()
      reads this, buf
    {
      Feed(buf[..len], inFlight, sentMs, lastFlushMs)
    }

    constructor ()
      ensures Valid() && fresh(buf) && Abs() == Feed([], false, 0, 0) && recsOk == recsDropped == 0
    {
      buf := new byte[COALESCE_BUF];
      len, inFlight, sentMs, lastFlushMs, recsOk, recsDropped := 0, false, 0, 0, 0, 0;
    }

    method StashRecord(rec: seq<byte>)
      requires Valid()
      modifies this, buf
      ensures Valid() && Abs() == Stash(old(Abs()), rec).0
      ensures Stash(old(Abs()), rec).1 ==> recsOk == old(recsOk) + 1 && recsDropped == old(recsDropped)
      ensures !Stash(old(Abs()), rec).1 ==> recsOk == old(recsOk) && recsDropped == old(recsDropped) + 1
    {
      if len + |rec| <= COALESCE_BUF {
        forall k | 0 <= k < |rec| { buf[len + k] := rec[k]; }
        len := len + |rec|;
        recsOk := recsOk + 1;
      } else {
        recsDropped := recsDropped + 1;
      }
    }

    /** What one wake-up of the flush task does; the result is the indication sent, if any. */
    method FlushOnce(ph: Phone, now: nat) returns (ind: Option<seq<byte>>)
      requires Valid()
      modifies this, buf
      ensures Valid() && (Abs(), ind) == Flush(old(Abs()), ph, now)
    {
      if !ph.connected { return None; }
      if !ph.capturing {
        len := 0;
        return None;
      }
      if !ph.subscribed { return None; }
      if inFlight {
        if Elapsed(now, sentMs) > WATCHDOG_MS { inFlight := false; } else { return None; }
      }
      var n := len;
      if n == 0 || (n < WATERMARK && Elapsed(now, lastFlushMs) < MAX_AGE_MS) { return None; }
      var chunk := if n > IND_MAX then IND_MAX else n;
      ind := Some(buf[..chunk]);
      var rem := n - chunk;
      forall k | 0 <= k < rem { buf[k] := buf[chunk + k]; }
      len := rem;
      assert forall k :: 0 <= k < rem ==> buf[k] == old(buf[..len])[chunk + k];
      assert buf[..len] == old(buf[..len])[chunk..];
      assert ind.value == old(buf[..len])[..chunk];
      inFlight, sentMs, lastFlushMs := true, now, now;
    }

    method OnIndicationStatus()
      requires Valid()
      modifies this
      ensures Valid() && Abs() == old(Abs()).(inFlight := false)
    {
      inFlight := false;
    }
  }

  // ------------------------------------------------------------------
  // First in, first out
  // ------------------------------------------------------------------

  datatype Event = Finished(rec: seq<byte>) | Wakeup(ph: Phone, now: nat) | Acked

  /** A run: the feed, the bytes stashed, and the bytes indicated to the phone. */
  datatype Trace = Trace(feed: Feed, stashed: seq<byte>, indicated: seq<byte>)

  const EMPTY := Trace(Feed([], false, 0, 0), [], [])

  function StepTrace(t: Trace, e: Event): Trace {
    match e
    case Finished(rec) =>
      var (f, ok) := Stash(t.feed, rec);
      t.(feed := f, stashed := if ok then t.stashed + rec else t.stashed)
    case Wakeup(ph, now) =>
      var (f, ind) := Flush(t.feed, ph, now);
      t.(feed := f, indicated := if ind.Some? then t.indicated + ind.value else t.indicated)
    case Acked => t.(feed := t.feed.(inFlight := false))
  }

  function RunTrace(t: Trace, events: seq<Event>): Trace
    decreases |events|
  {
    if events == [] then t else RunTrace(StepTrace(t, events[0]), events[1..])
  }

  /** The clear path: the phone is linked but capture is no longer wanted. */
  predicate Clears(e: Event) {
    e.Wakeup? && e.ph.connected && !e.ph.capturing
  }

  /**
   * As long as the clear path is not taken, bytes indicated and bytes waiting are exactly the bytes stashed,
   * in order.
   */
  lemma {:induction false} PhoneFifo(t: Trace, events: seq<Event>)
    requires t.feed.Fits() && t.indicated + t.feed.pend == t.stashed
    requires forall i :: 0 <= i < |events| ==> !Clears(events[i])
    ensures var r := RunTrace(t, events);
            r.feed.Fits() && r.indicated + r.feed.pend == r.stashed
    decreases |events|
  {
    if events != [] {
      var t1 := StepTrace(t, events[0]);
      assert t1.indicated + t1.feed.pend == t1.stashed by {
        match events[0] {
          case Finished(rec) => assert t.indicated + (t.feed.pend + rec) == t.stashed + rec;
          case Wakeup(ph, now) =>
            var ind := Flush(t.feed, ph, now).1;
            if ind.Some? {
              assert t.feed.pend == ind.value + t1.feed.pend;
              assert t.indicated + ind.value + t1.feed.pend == t.stashed;
            }
          case Acked =>
        }
      }
      PhoneFifo(t1, events[1..]);
    }
  }

  const LISTENING := Phone(true, true, true)

  /** The wake-ups and acknowledgements of `n` indications in a row. */
  function Flushes(n: nat, now: nat): seq<Event>
    decreases n
  {
    if n == 0 then [] else [Wakeup(LISTENING, now), Acked] + Flushes(n - 1, now + MAX_AGE_MS)
  }

  /** One indication and its acknowledgement move up to 480 waiting bytes to the phone. */
  lemma OneFlush(t: Trace, now: nat)
    requires !t.feed.inFlight && t.feed.pend != []
    requires t.feed.lastFlushMs + MAX_AGE_MS <= now < 0x1_0000_0000
    ensures var n := Min(|t.feed.pend|, IND_MAX);
            StepTrace(StepTrace(t, Wakeup(LISTENING, now)), Acked)
            == Trace(Feed(t.feed.pend[n..], false, now, now), t.stashed, t.indicated + t.feed.pend[..n])
  {
    assert Elapsed(now, t.feed.lastFlushMs) == now - t.feed.lastFlushMs;
  }

  lemma FlushesUnfold(t: Trace, n: nat, now: nat)
    requires n > 0
    ensures RunTrace(t, Flushes(n, now))
            == RunTrace(StepTrace(StepTrace(t, Wakeup(LISTENING, now)), Acked), Flushes(n - 1, now + MAX_AGE_MS))
  {
    var es := Flushes(n, now);
    assert es[0] == Wakeup(LISTENING, now) && es[1..][0] == Acked;
    assert es[1..][1..] == Flushes(n - 1, now + MAX_AGE_MS);
  }

  /** A listening phone that acknowledges gets everything: one indication per 480 waiting bytes empties the buffer. */
  lemma {:induction false} FlushesEmpty(t: Trace, n: nat, now: nat)
    requires !t.feed.inFlight && |t.feed.pend| <= n * IND_MAX
    requires t.feed.lastFlushMs + MAX_AGE_MS <= now && now + n * MAX_AGE_MS < 0x1_0000_0000
    ensures var r := RunTrace(t, Flushes(n, now));
            r.feed.pend == [] && r.indicated == t.indicated + t.feed.pend && r.stashed == t.stashed
    decreases n
  {
    if t.feed.pend == [] {
      NothingToFlush(t, n, now);
    } else {
      OneFlush(t, now);
      FlushesUnfold(t, n, now);
      var k := Min(|t.feed.pend|, IND_MAX);
      var t2 := Trace(Feed(t.feed.pend[k..], false, now, now), t.stashed, t.indicated + t.feed.pend[..k]);
      FlushesEmpty(t2, n - 1, now + MAX_AGE_MS);
      assert t2.indicated + t2.feed.pend == t.indicated + t.feed.pend;
    }
  }

  lemma {:induction false} NothingToFlush(t: Trace, n: nat, now: nat)
    requires t.feed.pend == [] && !t.feed.inFlight
    ensures RunTrace(t, Flushes(n, now)) == t
    decreases n
  {
    if n > 0 {
      FlushesUnfold(t, n, now);
      NothingToFlush(t, n - 1, now + MAX_AGE_MS);
    }
  }

  // ------------------------------------------------------------------
  // When bytes wait, and when they leave
  // ------------------------------------------------------------------

  /** The feed with `d` stashed behind what waits. */
  function Plus(t: Trace, d: seq<byte>): Trace {
    t.(feed := t.feed.(pend := t.feed.pend + d), stashed := t.stashed + d)
  }

  lemma PlusTwice(t: Trace, a: seq<byte>, b: seq<byte>)
    ensures Plus(Plus(t, a), b) == Plus(t, a + b) && Plus(t, []) == t
  {
    assert (t.feed.pend + a) + b == t.feed.pend + (a + b) && (t.stashed + a) + b == t.stashed + (a + b);
    assert t.feed.pend + [] == t.feed.pend && t.stashed + [] == t.stashed;
  }

  lemma OneFits(t: Trace, rec: seq<byte>)
    requires |t.feed.pend| + |rec| <= 2048
    ensures StepTrace(t, Finished(rec)) == Plus(t, rec)
  {
  }

  /** No record is dropped as long as all that waits fits in 2048 bytes. */
  lemma {:induction false} AllFitInBuffer(t: Trace, recs: seq<seq<byte>>)
    requires |t.feed.pend| + |Concat(recs)| <= 2048
    ensures RunTrace(t, FinishedAll(recs)) == Plus(t, Concat(recs))
    decreases |recs|
  {
    if recs == [] {
      PlusTwice(t, [], []);
    } else {
      var rec, rest, es := recs[0], recs[1..], FinishedAll(recs);
      assert Concat(recs) == rec + Concat(rest);
      OneFits(t, rec);
      AllFitInBuffer(Plus(t, rec), rest);
      PlusTwice(t, rec, Concat(rest));
      assert es[0] == Finished(rec) && es[1..] == FinishedAll(rest);
      assert RunTrace(t, es) == RunTrace(Plus(t, rec), FinishedAll(rest));
    }
  }

  function FinishedAll(recs: seq<seq<byte>>): (es: seq<Event>)
    ensures |es| == |recs|
  {
    seq(|recs|, i requires 0 <= i < |recs| => Finished(recs[i]))
  }

  /**
   * A wake-up indicates something if and only if all of this holds, and then the first bytes that wait; they are
   * forgotten unsent only when a phone is there and capture is not wanted. An answer that is overdue is not
   * awaited any longer.
   */
  lemma IndicatesExactly(f: Feed, ph: Phone, now: nat)
    ensures var (f1, ind) := Flush(f, ph, now);
            f1.pend == if ind.Some? then f.pend[|ind.value|..] else if ph.connected && !ph.capturing then [] else f.pend
    ensures var ind := Flush(f, ph, now).1;
            var n := |f.pend|;
            if && ph.connected && ph.capturing && ph.subscribed && n > 0
               && (f.inFlight ==> Elapsed(now, f.sentMs) > 2000)
               && (n >= 480 || Elapsed(now, f.lastFlushMs) >= 100)
            then ind == Some(f.pend[..if n < 480 then n else 480]) else ind == None
    ensures var (f1, ind) := Flush(f, ph, now);
            f1.inFlight == if ind.Some? then true
                           else if ph.connected && ph.capturing && ph.subscribed
                           then f.inFlight && Elapsed(now, f.sentMs) <= 2000
                           else f.inFlight
  {
  }

  /** Since its last indication, at `at`, the feed has sent nothing; it waits for the answer unless there was one. */
  ghost predicate QuietSince(f: Feed, at: nat, answered: bool) {
    f.sentMs == f.lastFlushMs == at && (!answered ==> f.inFlight)
  }

  /** Wake-ups no later than the answer is awaited, as the counter tells. */
  ghost predicate Within(es: seq<Event>, at: nat, ms: nat) {
    forall e :: e in es && e.Wakeup? ==> Elapsed(e.now, at) <= ms
  }

  /** As long as an indication is unanswered and less than 2000 ms old nothing more is indicated. */
  lemma {:induction false} OneAtATime(t: Trace, es: seq<Event>, at: nat)
    requires QuietSince(t.feed, at, false) && Acked !in es && Within(es, at, 2000)
    ensures var r := RunTrace(t, es);
            r.indicated == t.indicated && QuietSince(r.feed, at, false)
    decreases |es|
  {
    if es != [] {
      var t1, e := StepTrace(t, es[0]), es[0];
      assert e in es && forall x :: x in es[1..] ==> x in es;
      OneAtATime(t1, es[1..], at);
    }
  }

  /** Between indications the feed remembers when the last one was. */
  lemma {:induction false} QuietRun(t: Trace, es: seq<Event>, at: nat)
    requires t.feed.sentMs == t.feed.lastFlushMs == at && RunTrace(t, es).indicated == t.indicated
    ensures RunTrace(t, es).feed.sentMs == RunTrace(t, es).feed.lastFlushMs == at
    decreases |es|
  {
    if es != [] {
      var t1 := StepTrace(t, es[0]);
      IndicatedGrows(t1, es[1..]);
      assert |t1.indicated| == |t.indicated|;
      QuietRun(t1, es[1..], at);
    }
  }

  lemma {:induction false} IndicatedGrows(t: Trace, es: seq<Event>)
    ensures t.indicated <= RunTrace(t, es).indicated
    decreases |es|
  {
    if es != [] {
      IndicatedGrows(StepTrace(t, es[0]), es[1..]);
    }
  }

  /**
   * Two indications in a row, whatever happens in between: the second comes after an answer to the first or more
   * than 2000 ms later, and it is a full 480 bytes or comes at least 100 ms later.
   */
  lemma IndicationsSpaced(t: Trace, ph: Phone, at: nat, es: seq<Event>, ph1: Phone, now: nat)
    requires Flush(t.feed, ph, at).1.Some?
    requires var r := RunTrace(StepTrace(t, Wakeup(ph, at)), es);
             r.indicated == StepTrace(t, Wakeup(ph, at)).indicated && Flush(r.feed, ph1, now).1.Some?
    requires Within(es, at, Elapsed(now, at))
    ensures Acked in es || Elapsed(now, at) > 2000
    ensures var ind := Flush(RunTrace(StepTrace(t, Wakeup(ph, at)), es).feed, ph1, now).1.value;
            0 < |ind| <= 480 && (|ind| == 480 || Elapsed(now, at) >= 100)
  {
    var t1 := StepTrace(t, Wakeup(ph, at));
    var r := RunTrace(t1, es);
    QuietRun(t1, es, at);
    IndicatesExactly(r.feed, ph1, now);
    if Acked !in es && Elapsed(now, at) <= 2000 {
      OneAtATime(t1, es, at);
      assert false;
    }
  }

  /** An answer that never comes stops nothing for longer: the next wake-up after 2000 ms indicates again. */
  lemma UnansweredGoesOn(t: Trace, ph: Phone, at: nat, es: seq<Event>, now: nat)
    requires Flush(t.feed, ph, at).1.Some? && Acked !in es && Within(es, at, 2000) && Elapsed(now, at) > 2000
    requires RunTrace(StepTrace(t, Wakeup(ph, at)), es).feed.pend != []
    ensures Flush(RunTrace(StepTrace(t, Wakeup(ph, at)), es).feed, LISTENING, now).1.Some?
  {
    OneAtATime(StepTrace(t, Wakeup(ph, at)), es, at);
    IndicatesExactly(RunTrace(StepTrace(t, Wakeup(ph, at)), es).feed, LISTENING, now);
  }
}
