/**
 * Capture on the node: frames are appended to one of two buffers by the radio
 * callback while a sender task drains the other, and a drained block is split
 * back into records before it is forwarded over the mesh.
 */
module PcapCapture {
  import opened Bytes

  const BUF_SIZE := 16384
  const SNAPLEN := 2324
  const MAGIC := 0xCAFEBABE
  const TRAILER := 0xDEADBEEF
  const OVERHEAD := 28       // header and trailer around a captured frame

  /** One captured frame as the stream carries it. */
  function Record(frame: seq<byte>, us: nat): (r: seq<byte>)
    requires |frame| <= SNAPLEN && us < 0x1_0000_0000
    ensures |r| == OVERHEAD + |frame|
  {
    ToLe32(MAGIC) + ToLe32(16 + |frame|) + ToLe32(us / 1_000_000) + ToLe32(us - us / 1_000_000 * 1_000_000)
    + ToLe32(|frame|) + ToLe32(|frame|) + frame + ToLe32(TRAILER)
  }

  function Word(buf: seq<byte>, i: nat): nat
    requires i + 4 <= |buf|
  {
    Le32(buf[i], buf[i + 1], buf[i + 2], buf[i + 3])
  }

  /**
   * What a reader finds in a record, word by word: a marker, the number of bytes up to the trailer, the capture
   * time in seconds and microseconds, the frame's length as kept and as heard, the frame, and a second marker.
   */
  lemma RecordFields(frame: seq<byte>, us: nat)
    requires |frame| <= SNAPLEN && us < 0x1_0000_0000
    ensures var r := Record(frame, us);
            && Word(r, 0) == 0xCAFE_BABE && Word(r, 4) == |r| - 12
            && Word(r, 8) * 1_000_000 + Word(r, 12) == us && Word(r, 12) < 1_000_000
            && Word(r, 16) == Word(r, 20) == |frame| && r[24..24 + |frame|] == frame
            && |r| == 28 + |frame| && Word(r, 24 + |frame|) == 0xDEAD_BEEF
  {
    var r, n := Record(frame, us), |frame|;
    var ws := [MAGIC, 16 + n, us / 1_000_000, us - us / 1_000_000 * 1_000_000, n, n];
    var head := ToLe32(ws[0]) + ToLe32(ws[1]) + ToLe32(ws[2]) + ToLe32(ws[3]) + ToLe32(ws[4]) + ToLe32(ws[5]);
    assert r == head + frame + ToLe32(TRAILER);
    HeadWord(head, frame + ToLe32(TRAILER), [], ws[0], head[4..]);
    HeadWord(head, frame + ToLe32(TRAILER), head[..4], ws[1], head[8..]);
    HeadWord(head, frame + ToLe32(TRAILER), head[..8], ws[2], head[12..]);
    HeadWord(head, frame + ToLe32(TRAILER), head[..12], ws[3], head[16..]);
    HeadWord(head, frame + ToLe32(TRAILER), head[..16], ws[4], head[20..]);
    HeadWord(head, frame + ToLe32(TRAILER), head[..20], ws[5], []);
    HeadWord(r, [], head + frame, TRAILER, []);
  }

  /** A word that stands in `head` stands there too when more follows. */
  lemma HeadWord(head: seq<byte>, more: seq<byte>, before: seq<byte>, w: nat, after: seq<byte>)
    requires w < 0x1_0000_0000 && head == before + ToLe32(w) + after
    ensures Word(head + more, |before|) == w
  {
    var b := ToLe32(w);
    assert (head + more)[|before|] == b[0] && (head + more)[|before| + 1] == b[1]
        && (head + more)[|before| + 2] == b[2] && (head + more)[|before| + 3] == b[3];
  }

  // ------------------------------------------------------------------
  // The double buffer
  // ------------------------------------------------------------------

  datatype Buffers = Buffers(a: seq<byte>, b: seq<byte>, useA: bool) {
    function Active(): seq<byte> { if useA then a else b }
    function Inactive(): seq<byte> { if useA then b else a }

    ghost predicate Fits() { |a| <= BUF_SIZE && |b| <= BUF_SIZE }
  }

  /** A record goes to the active buffer; when that is full and the other is empty the two swap; else it is dropped. */
  function Append(s: Buffers, rec: seq<byte>): (res: (Buffers, bool)) {
    if |s.Active()| + |rec| <= BUF_SIZE then
      (if s.useA then s.(a := s.a + rec) else s.(b := s.b + rec), true)
    else if s.Inactive() == [] then
      (if s.useA then Buffers(s.a, rec, false) else Buffers(rec, s.b, true), true)
    else (s, false)
  }

  /** The older buffer is drained first; with nothing older the active one is taken and the other becomes active. */
  function Drain(s: Buffers): (res: (Buffers, seq<byte>)) {
    if s.Inactive() != [] then
      (if s.useA then s.(b := []) else s.(a := []), s.Inactive())
    else if s.Active() != [] then
      (if s.useA then Buffers([], s.b, false) else Buffers(s.a, [], true), s.Active())
    else (s, [])
  }

  class DoubleBuffer {
    const bufA: array<byte>
    const bufB: array<byte>
    var sizeA: nat
    var sizeB: nat
    var useA: bool
    var dropped: nat

    ghost predicate Valid()
      reads this
    {
      bufA.Length == BUF_SIZE && bufB.Length == BUF_SIZE && bufA != bufB && sizeA <= BUF_SIZE && sizeB <= BUF_SIZE
    }

    ghost function Abs(): (s: Buffers)
      requires Valid()
      reads this, bufA, bufB
    {
      Buffers(bufA[..sizeA], bufB[..sizeB], useA)
    }

    constructor ()
      ensures Valid() && fresh(bufA) && fresh(bufB) && Abs() == Buffers([], [], true) && dropped == 0
    {
      bufA := new byte[BUF_SIZE];
      bufB := new byte[BUF_SIZE];
      sizeA, sizeB, useA, dropped := 0, 0, true, 0;
    }

    method AppendFrame(frame: seq<byte>, us: nat) returns (accepted: bool)
      requires Valid() && |frame| <= SNAPLEN && us < 0x1_0000_0000
      modifies this, bufA, bufB
      ensures Valid() && (Abs(), accepted) == Append(old(Abs()), Record(frame, us))
      ensures dropped == old(dropped) + if accepted then 0 else 1
    {
      var rec := Record(frame, us);
      accepted := Add(rec, 24 + |frame| + 4);
    }

    method Add(rec: seq<byte>, need: nat) returns (accepted: bool)
      requires Valid() && |rec| == need <= BUF_SIZE
      modifies this, bufA, bufB
      ensures Valid() && (Abs(), accepted) == Append(old(Abs()), rec)
      ensures dropped == old(dropped) + if accepted then 0 else 1
    {
      assert [] + rec == rec;
      if useA {
        if sizeA + need > BUF_SIZE {
          if sizeB == 0 {
            useA := false;
            WriteB(rec);
            return true;
          }
          dropped := dropped + 1;
          return false;
        }
        WriteA(rec);
      } else {
        if sizeB + need > BUF_SIZE {
          if sizeA == 0 {
            useA := true;
            WriteA(rec);
            return true;
          }
          dropped := dropped + 1;
          return false;
        }
        WriteB(rec);
      }
      accepted := true;
    }

    method WriteA(rec: seq<byte>)
      requires Valid() && sizeA + |rec| <= BUF_SIZE
      modifies this`sizeA, bufA
      ensures Valid() && bufA[..sizeA] == old(bufA[..sizeA]) + rec
    {
      forall k | 0 <= k < |rec| { bufA[sizeA + k] := rec[k]; }
      sizeA := sizeA + |rec|;
    }

    method WriteB(rec: seq<byte>)
      requires Valid() && sizeB + |rec| <= BUF_SIZE
      modifies this`sizeB, bufB
      ensures Valid() && bufB[..sizeB] == old(bufB[..sizeB]) + rec
    {
      forall k | 0 <= k < |rec| { bufB[sizeB + k] := rec[k]; }
      sizeB := sizeB + |rec|;
    }

    /** The block the sender task takes, as a snapshot made under the lock. */
    method DrainBlock() returns (block: seq<byte>)
      requires Valid()
      modifies this`sizeA, this`sizeB, this`useA
      ensures Valid() && (Abs(), block) == Drain(old(Abs()))
    {
      block := [];
      if useA && sizeB > 0 {
        block := bufB[..sizeB]; sizeB := 0;
      } else if !useA && sizeA > 0 {
        block := bufA[..sizeA]; sizeA := 0;
      } else if sizeA > 0 && useA {
        block := bufA[..sizeA]; sizeA := 0; useA := false;
      } else if sizeB > 0 && !useA {
        block := bufB[..sizeB]; sizeB := 0; useA := true;
      }
    }
  }

  // ------------------------------------------------------------------
  // First in, first out, record by record
  // ------------------------------------------------------------------

  datatype Event = Captured(rec: seq<byte>) | Drained

  /** A run: the buffers, and which records were accepted, are waiting, and have left in which block. */
  datatype Trace = Trace(
    bufs: Buffers,
    accepted: seq<seq<byte>>,
    older: seq<seq<byte>>, newer: seq<seq<byte>>,
    blocks: seq<seq<byte>>, blockRecs: seq<seq<seq<byte>>>)

  const EMPTY := Trace(Buffers([], [], true), [], [], [], [], [])

  function StepTrace(t: Trace, e: Event): Trace {
    match e
    case Captured(rec) =>
      var (s1, ok) := Append(t.bufs, rec);
      if !ok then t
      else if s1.useA == t.bufs.useA then t.(bufs := s1, accepted := t.accepted + [rec], newer := t.newer + [rec])
      else t.(bufs := s1, accepted := t.accepted + [rec], older := t.newer, newer := [rec])
    case Drained =>
      var (s1, block) := Drain(t.bufs);
      if block == [] then t
      else if s1.useA == t.bufs.useA
      then t.(bufs := s1, blocks := t.blocks + [block], blockRecs := t.blockRecs + [t.older], older := [])
      else t.(bufs := s1, blocks := t.blocks + [block], blockRecs := t.blockRecs + [t.newer], newer := [])
  }

  function RunTrace(events: seq<Event>): Trace
    decreases |events|
  {
    if events == [] then EMPTY else StepTrace(RunTrace(events[..|events| - 1]), events[|events| - 1])
  }

  ghost predicate NonEmpty(recs: seq<seq<byte>>) {
    forall i :: 0 <= i < |recs| ==> recs[i] != []
  }

  ghost predicate Captures(events: seq<Event>) {
    forall i :: 0 <= i < |events| && events[i].Captured? ==> 0 < |events[i].rec| <= BUF_SIZE
  }

  ghost predicate TraceOk(t: Trace) {
    && t.bufs.Fits()
    && t.bufs.Inactive() == Concat(t.older) && t.bufs.Active() == Concat(t.newer)
    && NonEmpty(t.older) && NonEmpty(t.newer)
    && |t.blocks| == |t.blockRecs|
    && (forall i :: 0 <= i < |t.blocks| ==> t.blocks[i] == Concat(t.blockRecs[i]))
    && Concat(t.blockRecs) + t.older + t.newer == t.accepted
  }

  lemma NoBytesNoRecords(recs: seq<seq<byte>>)
    requires NonEmpty(recs)
    ensures Concat(recs) == [] <==> recs == []
  {
  }

  lemma CapturedKeeps(t: Trace, rec: seq<byte>)
    requires TraceOk(t) && 0 < |rec| <= BUF_SIZE
    ensures TraceOk(StepTrace(t, Captured(rec)))
  {
    ConcatSnoc(t.newer, rec);
    assert Concat([rec]) == rec + Concat([]);
    NoBytesNoRecords(t.older);
    var t1 := StepTrace(t, Captured(rec));
    if t1 != t {
      assert Concat(t1.blockRecs) + t1.older + t1.newer == t1.accepted;
    }
  }

  lemma DrainedKeeps(t: Trace)
    requires TraceOk(t)
    ensures TraceOk(StepTrace(t, Drained))
  {
    NoBytesNoRecords(t.older);
    ConcatSnoc(t.blockRecs, t.older);
    ConcatSnoc(t.blockRecs, t.newer);
    var t1 := StepTrace(t, Drained);
    if t1 != t {
      assert Concat(t1.blockRecs) + t1.older + t1.newer == t1.accepted;
    }
  }

  /**
   * In every run, the records that have left (in block order), then those in the inactive buffer,
   * then those in the active one, are exactly the accepted records in the order of capture; every
   * block is a whole number of records.
   */
  lemma {:induction false} CaptureFifo(events: seq<Event>)
    requires Captures(events)
    ensures var t := RunTrace(events);
            && TraceOk(t)
            && Concat(t.blockRecs) + t.older + t.newer == t.accepted
            && Concat(t.blocks) + t.bufs.Inactive() + t.bufs.Active() == Concat(t.accepted)
    decreases |events|
  {
    if events != [] {
      var init, e := events[..|events| - 1], events[|events| - 1];
      CaptureFifo(init);
      match e {
        case Captured(rec) => CapturedKeeps(RunTrace(init), rec);
        case Drained => DrainedKeeps(RunTrace(init));
      }
    }
    var t := RunTrace(events);
    BlockBytes(t.blocks, t.blockRecs);
    ConcatAppend(Concat(t.blockRecs), t.older);
    ConcatAppend(Concat(t.blockRecs) + t.older, t.newer);
  }

  /** Every accepted record is one that was captured, so a block holds nothing else. */
  lemma {:induction false} AcceptedWereCaptured(events: seq<Event>, rec: seq<byte>)
    requires rec in RunTrace(events).accepted
    ensures Captured(rec) in events
    decreases |events|
  {
    var init, e := events[..|events| - 1], events[|events| - 1];
    if rec in RunTrace(init).accepted {
      AcceptedWereCaptured(init, rec);
    }
  }

  lemma {:induction false} BlockBytes(blocks: seq<seq<byte>>, recs: seq<seq<seq<byte>>>)
    requires |blocks| == |recs| && forall i :: 0 <= i < |blocks| ==> blocks[i] == Concat(recs[i])
    ensures Concat(blocks) == Concat(Concat(recs))
  {
    if blocks != [] {
      BlockBytes(blocks[1..], recs[1..]);
      ConcatAppend(recs[0], Concat(recs[1..]));
    }
  }

  /** Once capture stops, two drains empty both buffers: nothing accepted is left behind. */
  lemma TwoDrainsEmpty(s: Buffers)
    ensures var s2 := Drain(Drain(s).0).0; s2.a == [] && s2.b == []
    ensures Drain(s).1 + Drain(Drain(s).0).1 == s.Inactive() + s.Active()
  {
  }

  // ------------------------------------------------------------------
  // When a record is dropped
  // ------------------------------------------------------------------

  /** Only if it does not fit behind the active bytes and the other buffer is still waiting to be drained. */
  lemma DroppedExactly(s: Buffers, rec: seq<byte>)
    requires |rec| <= BUF_SIZE
    ensures var (s1, accepted) := Append(s, rec);
            && (!accepted <==> |s.Active()| + |rec| > BUF_SIZE && s.Inactive() != [])
            && (!accepted ==> s1 == s)
            && (accepted ==> s1.Inactive() + s1.Active() == s.Inactive() + s.Active() + rec)
  {
  }

  const RECORD_MAX := SNAPLEN + OVERHEAD

  ghost predicate Sized(events: seq<Event>) {
    forall i :: 0 <= i < |events| && events[i].Captured? ==> 0 < |events[i].rec| <= RECORD_MAX
  }

  /** A buffer is left only when one more record would not have fitted. */
  ghost predicate LeftFull(s: Buffers) {
    s.Fits() && (s.Inactive() == [] || |s.Inactive()| + RECORD_MAX > BUF_SIZE)
  }

  lemma StepLeavesFull(t: Trace, e: Event)
    requires LeftFull(t.bufs) && (e.Captured? ==> 0 < |e.rec| <= RECORD_MAX)
    ensures LeftFull(StepTrace(t, e).bufs)
  {
  }

  lemma {:induction false} AlwaysLeftFull(events: seq<Event>)
    requires Sized(events)
    ensures LeftFull(RunTrace(events).bufs)
    decreases |events|
  {
    if events != [] {
      AlwaysLeftFull(events[..|events| - 1]);
      StepLeavesFull(RunTrace(events[..|events| - 1]), events[|events| - 1]);
    }
  }

  /**
   * In every run of captures and drains a record is dropped only when, with it, more waits than both buffers
   * hold but for one record of the largest size.
   */
  lemma DroppedOnlyWhenBothFull(events: seq<Event>, rec: seq<byte>)
    requires Sized(events) && 0 < |rec| <= RECORD_MAX
    ensures var t := RunTrace(events);
            RunTrace(events + [Captured(rec)]).accepted != t.accepted + [rec] ==>
              |t.bufs.a| + |t.bufs.b| + |rec| > 2 * 16384 - 2352
  {
    AlwaysLeftFull(events);
    assert (events + [Captured(rec)])[..|events|] == events;
  }

  function Captureds(recs: seq<seq<byte>>): (events: seq<Event>)
    ensures |events| == |recs| && forall i :: 0 <= i < |recs| ==> events[i] == Captured(recs[i])
  {
    seq(|recs|, i requires 0 <= i < |recs| => Captured(recs[i]))
  }

  /** All of `recs` has been taken, and nothing has left. */
  ghost predicate Took(t: Trace, recs: seq<seq<byte>>) {
    t.accepted == recs && t.bufs.Inactive() + t.bufs.Active() == Concat(recs)
  }

  lemma TakenWhileRoom(events: seq<Event>, recs: seq<seq<byte>>, rec: seq<byte>) returns (t: Trace)
    requires Sized(events) && 0 < |rec| <= RECORD_MAX
    requires Took(RunTrace(events), recs) && |Concat(recs)| + |rec| <= 2 * 16384 - 2352
    ensures t == RunTrace(events + [Captured(rec)]) && Took(t, recs + [rec])
  {
    ConcatSnoc(recs, rec);
    AlwaysLeftFull(events);
    DroppedExactly(RunTrace(events).bufs, rec);
    assert (events + [Captured(rec)])[..|events|] == events;
    t := RunTrace(events + [Captured(rec)]);
  }

  lemma OneMoreCaptured(recs: seq<seq<byte>>)
    requires recs != []
    ensures Captureds(recs) == Captureds(recs[..|recs| - 1]) + [Captured(recs[|recs| - 1])]
  {
  }

  lemma CapturedsSized(recs: seq<seq<byte>>)
    requires forall r :: r in recs ==> 0 < |r| <= RECORD_MAX
    ensures Sized(Captureds(recs))
  {
  }

  /** So that much is taken from empty buffers without any drain. */
  lemma {:induction false} AllFitWithoutDrain(recs: seq<seq<byte>>) returns (t: Trace)
    requires (forall r :: r in recs ==> 0 < |r| <= RECORD_MAX) && |Concat(recs)| <= 2 * 16384 - 2352
    ensures t == RunTrace(Captureds(recs)) && Took(t, recs)
    decreases |recs|
  {
    if recs == [] {
      t := EMPTY;
      assert Captureds(recs) == [];
    } else {
      var init, rec := recs[..|recs| - 1], recs[|recs| - 1];
      assert recs == init + [rec];
      ConcatSnoc(init, rec);
      OneMoreCaptured(recs);
      CapturedsSized(init);
      var before := AllFitWithoutDrain(init);
      t := TakenWhileRoom(Captureds(init), init, rec);
    }
  }

  // ------------------------------------------------------------------
  // Splitting a block back into records
  // ------------------------------------------------------------------

  datatype Find = Skip | Take(n: nat) | Short | Wrap

  /** What the splitter makes of position `i`, its cursor being 32 bits wide. */
  function Look(buf: seq<byte>, i: nat): (f: Find)
    requires i + 12 <= |buf|
    ensures f.Take? ==> 12 <= f.n && i + f.n <= |buf|
  {
    var full := 8 + Word(buf, i + 4) + 4;
    if Word(buf, i) != MAGIC then Skip
    else if i + full >= 0x1_0000_0000 then Wrap
    else if i + full > |buf| then Short
    else Take(full)
  }

  /**
   * The records found from `i` on; `None` when a claimed length wraps the cursor and the loop would not move
   * forward.
   */
  function SplitFrom(buf: seq<byte>, i: nat): Option<seq<seq<byte>>>
    requires i <= |buf|
    decreases |buf| - i
  {
    if i + 12 > |buf| then Some([])
    else
      match Look(buf, i)
      case Skip => SplitFrom(buf, i + 1)
      case Wrap => None
      case Short => Some([])
      case Take(n) =>
        match SplitFrom(buf, i + n)
        case None => None
        case Some(rest) => Some([buf[i..i + n]] + rest)
  }

  /** 32-bit unsigned addition. */
  function Add32(a: nat, b: nat): (r: nat)
    ensures a + b < 0x1_0000_0000 ==> r == a + b
  {
    (a + b) % 0x1_0000_0000
  }

  method LookAt(buf: seq<byte>, i: nat) returns (f: Find)
    requires i + 12 <= |buf| < 0x1_0000_0000
    ensures f == Look(buf, i)
  {
    if Word(buf, i) != MAGIC { return Skip; }
    var recLen := Word(buf, i + 4);
    var fullLen := Add32(recLen, 12);
    if fullLen < recLen || Add32(i, fullLen) < i { return Wrap; }
    f := if Add32(i, fullLen) > |buf| then Short else Take(fullLen);
  }

  /** What the rest of a block adds to the records found before it. */
  ghost function Found(recs: seq<seq<byte>>, rest: Option<seq<seq<byte>>>): Option<seq<seq<byte>>> {
    match rest case None => None case Some(more) => Some(recs + more)
  }

  lemma TakeStep(buf: seq<byte>, i: nat, n: nat, recs: seq<seq<byte>>)
    requires i + 12 <= |buf| && Look(buf, i) == Take(n)
    ensures Found(recs, SplitFrom(buf, i)) == Found(recs + [buf[i..i + n]], SplitFrom(buf, i + n))
  {
    var rest := SplitFrom(buf, i + n);
    if rest.Some? {
      assert SplitFrom(buf, i) == Some([buf[i..i + n]] + rest.value);
      assert recs + ([buf[i..i + n]] + rest.value) == (recs + [buf[i..i + n]]) + rest.value;
    }
  }

  lemma OtherSteps(buf: seq<byte>, i: nat)
    requires i + 12 <= |buf|
    ensures Look(buf, i) == Skip ==> SplitFrom(buf, i) == SplitFrom(buf, i + 1)
    ensures Look(buf, i) == Short ==> SplitFrom(buf, i) == Some([])
    ensures Look(buf, i) == Wrap ==> SplitFrom(buf, i) == None
  {
  }

  lemma FoundAtEnd(recs: seq<seq<byte>>)
    ensures Found(recs, Some([])) == Some(recs)
  {
    assert recs + [] == recs;
  }

  lemma FoundFirst(rest: Option<seq<seq<byte>>>)
    ensures Found([], rest) == rest
  {
    if rest.Some? {
      assert [] + rest.value == rest.value;
    }
  }

  /** `None` reports a claimed length that wraps the 32-bit cursor, at which the code stops making progress. */
  method Split(buf: seq<byte>) returns (found: Option<seq<seq<byte>>>)
    requires |buf| < 0x1_0000_0000
    ensures found == SplitFrom(buf, 0)
  {
    ghost var want := SplitFrom(buf, 0);
    var i, recs := 0, [];
    FoundFirst(want);
    while i + 12 <= |buf|
      invariant i <= |buf| && want == Found(recs, SplitFrom(buf, i))
      decreases |buf| - i
    {
      OtherSteps(buf, i);
      var f := LookAt(buf, i);
      match f {
        case Skip =>
          i := i + 1;
        case Take(n) =>
          TakeStep(buf, i, n, recs);
          recs := recs + [buf[i..i + n]];
          i := i + n;
        case Short =>
          FoundAtEnd(recs);
          return Some(recs);
        case Wrap =>
          return None;
      }
    }
    FoundAtEnd(recs);
    found := Some(recs);
  }

  ghost predicate IsRecord(rec: seq<byte>) {
    exists frame: seq<byte>, us: nat :: |frame| <= SNAPLEN && us < 0x1_0000_0000 && rec == Record(frame, us)
  }

  /** What the splitter reads of a record: the magic word and a length covering the rest of it. */
  ghost predicate Framed(rec: seq<byte>) {
    12 <= |rec| && Word(rec, 0) == MAGIC && Word(rec, 4) + 12 == |rec|
  }

  lemma RecordIsFramed(rec: seq<byte>)
    requires IsRecord(rec)
    ensures Framed(rec)
  {
    var frame: seq<byte>, us: nat :| |frame| <= SNAPLEN && us < 0x1_0000_0000 && rec == Record(frame, us);
    RecordStart(frame, us);
  }

  lemma RecordStart(frame: seq<byte>, us: nat)
    requires |frame| <= SNAPLEN && us < 0x1_0000_0000
    ensures Framed(Record(frame, us))
  {
    var rec := Record(frame, us);
    var a, b := ToLe32(MAGIC), ToLe32(16 + |frame|);
    assert rec[0] == a[0] && rec[1] == a[1] && rec[2] == a[2] && rec[3] == a[3];
    assert rec[4] == b[0] && rec[5] == b[1] && rec[6] == b[2] && rec[7] == b[3];
  }

  lemma WordInside(buf: seq<byte>, i: nat, n: nat, k: nat)
    requires i + n <= |buf| && k + 4 <= n
    ensures Word(buf, i + k) == Word(buf[i..i + n], k)
  {
  }

  /** Records, and then something else. */
  function Followed(recs: seq<seq<byte>>, tail: seq<byte>): seq<byte> {
    if recs == [] then tail else recs[0] + Followed(recs[1..], tail)
  }

  lemma {:induction false} FollowedIs(recs: seq<seq<byte>>, tail: seq<byte>)
    ensures Followed(recs, tail) == Concat(recs) + tail
    decreases |recs|
  {
    if recs != [] {
      FollowedIs(recs[1..], tail);
      assert (recs[0] + Concat(recs[1..])) + tail == recs[0] + (Concat(recs[1..]) + tail);
    }
  }

  /** One record in front is taken. */
  lemma HeadSplits(rec: seq<byte>, more: seq<byte>, buf: seq<byte>, i: nat)
    returns (found: Option<seq<seq<byte>>>, next: nat, rest: Option<seq<seq<byte>>>)
    requires Framed(rec) && i <= |buf| <= BUF_SIZE && buf[i..] == rec + more
    ensures i < next <= |buf| && buf[next..] == more
    ensures found == SplitFrom(buf, i) && rest == SplitFrom(buf, next)
    ensures found == Found([rec], rest)
  {
    HeadRecord(rec, more, buf, i);
    found, next := SplitFrom(buf, i), i + |rec|;
    rest := SplitFrom(buf, next);
  }

  lemma FoundMore(rec: seq<byte>, recs: seq<seq<byte>>, more: Option<seq<seq<byte>>>)
    ensures Found([rec], Found(recs, more)) == Found([rec] + recs, more)
  {
    if more.Some? { assert [rec] + (recs + more.value) == ([rec] + recs) + more.value; }
  }

  lemma {:induction false} SplitThrough(recs: seq<seq<byte>>, tail: seq<byte>, buf: seq<byte>, i: nat)
    returns (found: Option<seq<seq<byte>>>, more: Option<seq<seq<byte>>>)
    requires forall r :: r in recs ==> Framed(r)
    requires i <= |buf| <= BUF_SIZE && buf[i..] == Followed(recs, tail)
    ensures |tail| <= |buf| && found == SplitFrom(buf, i) && more == SplitFrom(buf, |buf| - |tail|)
    ensures found == Found(recs, more)
    decreases |recs|
  {
    if recs == [] {
      found, more := SplitFrom(buf, i), SplitFrom(buf, |buf| - |tail|);
      FoundFirst(more);
    } else {
      var next, rest;
      found, next, rest := HeadSplits(recs[0], Followed(recs[1..], tail), buf, i);
      rest, more := SplitThrough(recs[1..], tail, buf, next);
      FoundMore(recs[0], recs[1..], more);
      assert [recs[0]] + recs[1..] == recs;
    }
  }

  /** A block that begins with whole records splits into those and what is found in the rest. */
  lemma SplitFront(recs: seq<seq<byte>>, tail: seq<byte>, buf: seq<byte>)
    requires (forall r :: r in recs ==> Framed(r)) && |buf| <= BUF_SIZE && buf == Concat(recs) + tail
    ensures SplitFrom(buf, 0) == Found(recs, SplitFrom(buf, |buf| - |tail|))
  {
    FollowedIs(recs, tail);
    assert buf[0..] == buf;
    var found, more := SplitThrough(recs, tail, buf, 0);
  }

  lemma HeadRecord(rec: seq<byte>, more: seq<byte>, buf: seq<byte>, i: nat)
    requires Framed(rec) && i <= |buf| <= BUF_SIZE && buf[i..] == rec + more
    ensures var n := |rec|;
            && i + 12 <= |buf| && i + n <= |buf| && Look(buf, i) == Take(n)
            && buf[i..i + n] == rec && buf[i + n..] == more
  {
    var n := |rec|;
    assert buf[i..i + n] == buf[i..][..n] == rec;
    assert buf[i + n..] == buf[i..][n..] == more;
    WordInside(buf, i, n, 0);
    WordInside(buf, i, n, 4);
  }

  /** The beginning of a record, at the end of a block, is not taken. */
  lemma CutIsShort(buf: seq<byte>, i: nat, cut: seq<byte>, rec: seq<byte>)
    requires Framed(rec) && |rec| <= RECORD_MAX && cut < rec && i <= |buf| <= BUF_SIZE && buf[i..] == cut
    ensures SplitFrom(buf, i) == Some([])
  {
    assert |buf| - i == |cut|;
    if |cut| >= 12 {
      assert buf[i..i + |cut|] == cut;
      WordInside(buf, i, |cut|, 0);
      WordInside(buf, i, |cut|, 4);
      assert Word(cut, 0) == Word(rec, 0) && Word(cut, 4) == Word(rec, 4);
      OtherSteps(buf, i);
    }
  }

  /** A block made of whole records splits into exactly those records. */
  lemma SplitBlock(recs: seq<seq<byte>>, buf: seq<byte>)
    requires (forall r :: r in recs ==> Framed(r)) && |buf| <= BUF_SIZE && buf == Concat(recs)
    ensures SplitFrom(buf, 0) == Some(recs)
  {
    assert buf == Concat(recs) + [];
    SplitFront(recs, [], buf);
    FoundAtEnd(recs);
  }

  /** What is cut off at the end of a block is left out, and costs nothing before it. */
  lemma CutTailIsLeftOut(recs: seq<seq<byte>>, cut: seq<byte>, rec: seq<byte>)
    requires (forall r :: r in recs ==> Framed(r)) && Framed(rec) && |rec| <= RECORD_MAX && cut < rec
    requires |Concat(recs)| + |cut| <= BUF_SIZE
    ensures SplitFrom(Concat(recs) + cut, 0) == Some(recs)
  {
    var buf := Concat(recs) + cut;
    SplitFront(recs, cut, buf);
    assert buf[|Concat(recs)|..] == cut;
    CutIsShort(buf, |Concat(recs)|, cut, rec);
    FoundAtEnd(recs);
  }

  /** Bytes at which no marker begins are passed over. */
  lemma {:induction false} JunkIsPassedOver(buf: seq<byte>, i: nat, j: nat)
    requires i <= j && j + 12 <= |buf| && forall k :: i <= k < j ==> Word(buf, k) != 0xCAFE_BABE
    ensures SplitFrom(buf, i) == SplitFrom(buf, j)
    decreases j - i
  {
    if i < j {
      OtherSteps(buf, i);
      JunkIsPassedOver(buf, i + 1, j);
    }
  }

  lemma {:induction false} InConcat<T>(parts: seq<seq<T>>, i: nat, x: T)
    requires i < |parts| && x in parts[i]
    ensures x in Concat(parts)
  {
    if i > 0 {
      InConcat(parts[1..], i - 1, x);
    }
  }

  lemma {:induction false} PartFits<T>(parts: seq<seq<T>>, i: nat)
    requires i < |parts|
    ensures |parts[i]| <= |Concat(parts)|
  {
    if i > 0 {
      PartFits(parts[1..], i - 1);
    }
  }

  /** In every run of captures and drains, each block taken fits a buffer and splits into exactly its records. */
  lemma {:induction false} BlocksSplitExactly(events: seq<Event>, k: nat)
    requires forall i :: 0 <= i < |events| && events[i].Captured? ==> IsRecord(events[i].rec)
    requires k < |RunTrace(events).blocks|
    ensures var t := RunTrace(events);
            && k < |t.blockRecs| && |t.blocks[k]| <= BUF_SIZE
            && SplitFrom(t.blocks[k], 0) == Some(t.blockRecs[k])
    decreases |events|
  {
    CaptureFifo(events);
    var t := RunTrace(events);
    forall j | 0 <= j < |t.blockRecs[k]|
      ensures Framed(t.blockRecs[k][j])
    {
      InConcat(t.blockRecs, k, t.blockRecs[k][j]);
      assert t.blockRecs[k][j] in Concat(t.blockRecs) + t.older + t.newer;
      AcceptedWereCaptured(events, t.blockRecs[k][j]);
      RecordIsFramed(t.blockRecs[k][j]);
    }
    BlockFits(events, k);
    SplitBlock(t.blockRecs[k], t.blocks[k]);
  }

  lemma TraceFits(events: seq<Event>)
    requires Captures(events)
    ensures RunTrace(events).bufs.Fits()
  {
    CaptureFifo(events);
  }

  lemma StepFits(t: Trace, e: Event, k: nat)
    requires t.bufs.Fits() && k < |StepTrace(t, e).blocks| && (k < |t.blocks| ==> |t.blocks[k]| <= BUF_SIZE)
    ensures |StepTrace(t, e).blocks[k]| <= BUF_SIZE
  {
  }

  lemma {:induction false} BlockFits(events: seq<Event>, k: nat)
    requires Captures(events) && k < |RunTrace(events).blocks|
    ensures |RunTrace(events).blocks[k]| <= BUF_SIZE
    decreases |events|
  {
    var init := events[..|events| - 1];
    TraceFits(init);
    if k < |RunTrace(init).blocks| {
      BlockFits(init, k);
    }
    StepFits(RunTrace(init), events[|events| - 1], k);
  }
}
