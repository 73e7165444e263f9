/**
 * The offline spool: a bounded table with one slot per device and engine, which
 * keeps the latest sighting and a saturating count, evicts the oldest sighting
 * when full, and is written to a file now and then.
 */
module Spool {
  import opened Bytes

  const HITS_MAX := 0xFFFF
  const FLUSH_MS := 5000

  datatype Key = Key(engine: byte, mac: seq<byte>)

  datatype Detection = Detection(key: Key, timestamp: nat, rest: seq<byte>)

  datatype Slot = Slot(evt: Detection, hits: nat)

  datatype Table = Table(slots: seq<Slot>, dropped: nat, cap: nat)

  function Saturate(n: nat): nat { Min(n, HITS_MAX) }

  function Find(slots: seq<Slot>, key: Key, i: nat): (r: nat)
    requires i <= |slots|
    ensures i <= r <= |slots| && (r < |slots| ==> slots[r].evt.key == key)
    ensures forall k :: i <= k < r ==> slots[k].evt.key != key
    decreases |slots| - i
  {
    if i == |slots| || slots[i].evt.key == key then i else Find(slots, key, i + 1)
  }

  /** The first slot among those of the least timestamp. */
  function Oldest(slots: seq<Slot>): (r: nat)
    requires slots != []
    ensures r < |slots|
    ensures forall k :: 0 <= k < |slots| ==> slots[r].evt.timestamp <= slots[k].evt.timestamp
    ensures forall k :: 0 <= k < r ==> slots[r].evt.timestamp < slots[k].evt.timestamp
  {
    var n := |slots| - 1;
    if n == 0 then 0
    else
      var o := Oldest(slots[..n]);
      assert forall k :: 0 <= k < n ==> slots[..n][k] == slots[k];
      if slots[n].evt.timestamp < slots[o].evt.timestamp then n else o
  }

  function Append(t: Table, e: Detection): Table {
    var i := Find(t.slots, e.key, 0);
    if i < |t.slots| then t.(slots := t.slots[i := Slot(e, Saturate(t.slots[i].hits + 1))])
    else if |t.slots| < t.cap then t.(slots := t.slots + [Slot(e, 1)])
    else if t.slots != [] then t.(slots := t.slots[Oldest(t.slots) := Slot(e, 1)], dropped := Saturate(t.dropped + 1))
    else t
  }

  function Clear(t: Table): Table { t.(slots := [], dropped := 0) }

  const MAGIC := 0x4F535031

  datatype Header = Header(magic: nat, count: nat, dropped: nat)

  /** The file: a header, if it is there in full, and as many slots as are there in full. */
  datatype File = File(header: Option<Header>, body: seq<Slot>)

  /** How far a write of the file gets: whether it opens, whether the header fits, and how many slots do. */
  datatype Disk = Disk(opens: bool, header: bool, slots: nat)

  function Persisted(t: Table, d: Disk): File {
    File(if d.header then Some(Header(MAGIC, |t.slots|, t.dropped)) else None,
         if d.header then t.slots[..Min(d.slots, |t.slots|)] else [])
  }

  /** A file without a proper header loads as nothing; else the slots announced that are there and have room. */
  function Load(file: File, cap: nat): Table {
    match file.header
    case None => Table([], 0, cap)
    case Some(h) =>
      if h.magic != MAGIC then Table([], 0, cap)
      else Table(file.body[..Min(Min(h.count, cap), |file.body|)], h.dropped, cap)
  }

  /** What a boot finds: of a file not its own nothing, else the slots that are announced, there, and have room. */
  lemma LoadsOnlyItsOwn(file: File, cap: nat, i: nat)
    ensures var t, ours := Load(file, cap), file.header.Some? && file.header.value.magic == 0x4F535031;
            && (i < |t.slots| <==> ours && i < file.header.value.count && i < cap && i < |file.body|)
            && (i < |t.slots| ==> t.slots[i] == file.body[i])
            && t.dropped == (if ours then file.header.value.dropped else 0) && t.cap == cap
  {
  }

  class SpoolStore {
    const slots: array<Slot>
    var count: nat
    var dropped: nat
    var dirty: bool
    var lastFlush: nat
    var file: Option<File>

    ghost predicate Valid()
      reads this, slots
    {
      count <= slots.Length && dropped <= HITS_MAX && forall i :: 0 <= i < count ==> slots[i].hits <= HITS_MAX
    }

    ghost function Abs(): Table
      requires count <= slots.Length
      reads this, slots
    {
      Table(slots[..count], dropped, slots.Length)
    }

    /** Boot: the table is read back from the file, if there is one. */
    constructor (cap: nat, saved: Option<File>)
      requires saved.Some? && saved.value.header.Some? ==> saved.value.header.value.dropped <= HITS_MAX
      requires saved.Some? ==> forall s :: s in saved.value.body ==> s.hits <= HITS_MAX
      ensures Valid() && fresh(slots) && file == saved && !dirty
      ensures Abs() == if saved.Some? then Load(saved.value, cap) else Table([], 0, cap)
    {
      var blank := Slot(Detection(Key(0, []), 0, []), 0);
      var got: seq<Slot>, lost := [], 0;
      if saved.Some? && saved.value.header.Some? {
        var h := saved.value.header.value;
        if h.magic == MAGIC {
          var n := if h.count > cap then cap else h.count;
          got, lost := saved.value.body[..Min(n, |saved.value.body|)], h.dropped;
        }
      }
      slots := new Slot[cap](i requires 0 <= i => if i < |got| then got[i] else blank);
      count, dropped := |got|, lost;
      dirty, lastFlush, file := false, 0, saved;
      new;
      assert slots[..count] == got;
    }

    method FindSlot(key: Key) returns (i: nat)
      requires Valid()
      ensures i == Find(slots[..count], key, 0)
    {
      i := 0;
      while i < count && slots[i].evt.key != key
        invariant i <= count && Find(slots[..count], key, 0) == Find(slots[..count], key, i)
      {
        i := i + 1;
      }
    }

    method OldestSlot() returns (oldest: nat)
      requires Valid() && 0 < count
      ensures oldest == Oldest(slots[..count])
    {
      oldest := 0;
      var best := slots[0].evt.timestamp;
      for i := 1 to count
        invariant oldest == Oldest(slots[..i]) && best == slots[oldest].evt.timestamp
      {
        assert slots[..i + 1][..i] == slots[..i];
        if slots[i].evt.timestamp < best {
          best := slots[i].evt.timestamp;
          oldest := i;
        }
      }
    }

    method Record(e: Detection)
      requires Valid()
      modifies slots, `count, `dropped, `dirty
      ensures Valid() && Abs() == Append(old(Abs()), e)
      ensures !dirty ==> Abs() == old(Abs())
    {
      var i := FindSlot(e.key);
      if i < count {
        var hc := slots[i].hits;
        slots[i] := Slot(e, if hc < 0xFFFF then hc + 1 else hc);
        dirty := true;
      } else if count < slots.Length {
        slots[count] := Slot(e, 1);
        count := count + 1;
        dirty := true;
      } else if 0 < count {
        var o := OldestSlot();
        slots[o] := Slot(e, 1);
        if dropped < 0xFFFF { dropped := dropped + 1; }
        dirty := true;
      }
    }

    method Reset()
      requires Valid()
      modifies this
      ensures Valid() && Abs() == Clear(old(Abs())) && file == None && !dirty
    {
      file := None;
      count, dropped, dirty := 0, 0, false;
    }

    /**
     * Writes the table out when it has changed and the last write is five seconds old. If the file does
     * not open, the table counts as written all the same.
     */
    method FlushIfDirty(now: nat, d: Disk)
      requires Valid()
      modifies this
      ensures Valid() && Abs() == old(Abs())
      ensures var due := old(dirty) && Elapsed(now, old(lastFlush)) >= FLUSH_MS;
              && file == (if due && d.opens then Some(Persisted(Abs(), d)) else old(file))
              && dirty == (old(dirty) && !due)
              && lastFlush == (if due then now else old(lastFlush))
    {
      if !dirty || Elapsed(now, lastFlush) < FLUSH_MS { return; }
      lastFlush := now;
      if d.opens {
        var header := if d.header then Some(Header(MAGIC, count, dropped)) else None;
        var body := if d.header then slots[..Min(d.slots, count)] else [];
        assert slots[..count][..Min(d.slots, count)] == slots[..Min(d.slots, count)];
        assert File(header, body) == Persisted(Abs(), d);
        file := Some(File(header, body));
      }
      dirty := false;
      assert Abs() == old(Abs());
    }
  }

  /**
   * What is read back of a table is a beginning of it: as many slots as were written and there is room for,
   * with its drop count, or nothing at all if the header was not written. Nothing is lost, and the table may
   * even move to a larger one, if and only if every slot was written.
   */
  lemma ReloadsWhatWasWritten(t: Table, d: Disk, cap: nat)
    ensures var r := Load(Persisted(t, d), cap);
            && r == (if d.header then Table(t.slots[..Min(Min(|t.slots|, cap), d.slots)], t.dropped, cap)
                     else Table([], 0, cap))
            && (d.header && |t.slots| <= cap ==> (r.slots == t.slots <==> d.slots >= |t.slots|))
  {
    var k := Min(d.slots, |t.slots|);
    assert t.slots[..k][..Min(Min(|t.slots|, cap), k)] == t.slots[..Min(Min(|t.slots|, cap), d.slots)];
  }

  // ------------------------------------------------------------------
  // Against the history of sightings since the last clear
  // ------------------------------------------------------------------

  function CountKey(es: seq<Detection>, key: Key): nat {
    if es == [] then 0 else CountKey(es[..|es| - 1], key) + if es[|es| - 1].key == key then 1 else 0
  }

  /** The last sighting of a key. */
  function Latest(es: seq<Detection>, key: Key): Option<Detection> {
    if es == [] then None else if es[|es| - 1].key == key then Some(es[|es| - 1]) else Latest(es[..|es| - 1], key)
  }

  /**
   * A table beside its history: for each slot the position in the history of the sighting that
   * inserted it, and how many insertions and evictions there were.
   */
  datatype Track = Track(t: Table, history: seq<Detection>, born: seq<nat>, inserted: nat, evicted: nat)

  /** A sighting of a key without a slot is inserted, unless the table has no room at all. */
  predicate Inserts(t: Table, e: Detection) {
    Find(t.slots, e.key, 0) == |t.slots| && t.cap > 0
  }

  predicate Evicts(t: Table, e: Detection) {
    Inserts(t, e) && |t.slots| >= t.cap && t.slots != []
  }

  ghost function BornAfter(k: Track, e: Detection): seq<nat> {
    if !Inserts(k.t, e) then k.born
    else if !Evicts(k.t, e) then k.born + [|k.history|]
    else if Oldest(k.t.slots) < |k.born| then k.born[Oldest(k.t.slots) := |k.history|]
    else k.born
  }

  ghost function Follow(k: Track, e: Detection): Track {
    Track(Append(k.t, e), k.history + [e], BornAfter(k, e),
          k.inserted + (if Inserts(k.t, e) then 1 else 0), k.evicted + (if Evicts(k.t, e) then 1 else 0))
  }

  /** The slot, inserted by sighting number `b`, holds the latest of its key and counts those since. */
  ghost predicate SlotFrom(s: Slot, es: seq<Detection>, b: nat) {
    && b < |es| && es[b].key == s.evt.key
    && Latest(es, s.evt.key) == Some(s.evt)
    && s.hits == Saturate(CountKey(es[b..], s.evt.key))
  }

  ghost predicate Distinct(slots: seq<Slot>) {
    forall i, j :: 0 <= i < j < |slots| ==> slots[i].evt.key != slots[j].evt.key
  }

  ghost predicate Accounts(slots: seq<Slot>, born: seq<nat>, es: seq<Detection>) {
    && |born| == |slots| && Distinct(slots)
    && forall i :: 0 <= i < |slots| ==> SlotFrom(slots[i], es, born[i])
  }

  ghost predicate Inv(k: Track) {
    && Accounts(k.t.slots, k.born, k.history) && |k.t.slots| <= k.t.cap
    && k.inserted == |k.t.slots| + k.evicted
    && k.t.dropped == Saturate(k.evicted)
  }

  lemma HistoryGrows(es: seq<Detection>, e: Detection, b: nat, key: Key)
    requires b <= |es|
    ensures CountKey((es + [e])[b..], key) == CountKey(es[b..], key) + if e.key == key then 1 else 0
    ensures Latest(es + [e], key) == if e.key == key then Some(e) else Latest(es, key)
  {
    assert (es + [e])[b..] == es[b..] + [e];
    assert (es[b..] + [e])[..|es[b..]|] == es[b..];
    assert (es + [e])[..|es|] == es;
  }

  lemma SlotNew(es: seq<Detection>, e: Detection)
    ensures SlotFrom(Slot(e, 1), es + [e], |es|)
  {
    HistoryGrows(es, e, |es|, e.key);
    assert es[|es|..] == [];
  }

  lemma SlotKept(s: Slot, es: seq<Detection>, b: nat, e: Detection)
    requires SlotFrom(s, es, b) && e.key != s.evt.key
    ensures SlotFrom(s, es + [e], b)
  {
    HistoryGrows(es, e, b, s.evt.key);
  }

  lemma SlotRefreshed(s: Slot, es: seq<Detection>, b: nat, e: Detection)
    requires SlotFrom(s, es, b) && e.key == s.evt.key
    ensures SlotFrom(Slot(e, Saturate(s.hits + 1)), es + [e], b)
  {
    HistoryGrows(es, e, b, s.evt.key);
  }

  /** Replacing the only slot that may have the key by a true one keeps the account true. */
  lemma ReplaceKeeps(slots: seq<Slot>, born: seq<nat>, es: seq<Detection>, e: Detection, at: nat, s: Slot, b: nat)
    requires Accounts(slots, born, es) && at < |slots|
    requires forall i :: 0 <= i < |slots| && i != at ==> slots[i].evt.key != e.key
    requires s.evt == e && SlotFrom(s, es + [e], b)
    ensures Accounts(slots[at := s], born[at := b], es + [e])
  {
    forall i | 0 <= i < |slots| && i != at ensures SlotFrom(slots[i], es + [e], born[i]) {
      SlotKept(slots[i], es, born[i], e);
    }
  }

  lemma AddKeeps(slots: seq<Slot>, born: seq<nat>, es: seq<Detection>, e: Detection)
    requires Accounts(slots, born, es)
    requires forall i :: 0 <= i < |slots| ==> slots[i].evt.key != e.key
    ensures Accounts(slots + [Slot(e, 1)], born + [|es|], es + [e])
  {
    SlotNew(es, e);
    forall i | 0 <= i < |slots| ensures SlotFrom(slots[i], es + [e], born[i]) {
      SlotKept(slots[i], es, born[i], e);
    }
  }

  lemma RefreshKeeps(k: Track, e: Detection)
    requires Inv(k) && Find(k.t.slots, e.key, 0) < |k.t.slots|
    ensures Inv(Follow(k, e))
  {
    var slots := k.t.slots;
    var i := Find(slots, e.key, 0);
    var s := Slot(e, Saturate(slots[i].hits + 1));
    SlotRefreshed(slots[i], k.history, k.born[i], e);
    ReplaceKeeps(slots, k.born, k.history, e, i, s, k.born[i]);
    assert k.born[i := k.born[i]] == k.born;
    assert Follow(k, e).t == k.t.(slots := slots[i := s]) && Follow(k, e).born == k.born;
  }

  lemma InsertKeeps(k: Track, e: Detection)
    requires Inv(k) && Find(k.t.slots, e.key, 0) == |k.t.slots| < k.t.cap
    ensures Inv(Follow(k, e))
  {
    AddKeeps(k.t.slots, k.born, k.history, e);
  }

  lemma EvictKeeps(k: Track, e: Detection)
    requires Inv(k) && Evicts(k.t, e)
    ensures Inv(Follow(k, e))
  {
    var slots := k.t.slots;
    var o := Oldest(slots);
    SlotNew(k.history, e);
    ReplaceKeeps(slots, k.born, k.history, e, o, Slot(e, 1), |k.history|);
    assert Follow(k, e).t.slots == slots[o := Slot(e, 1)] && Follow(k, e).born == k.born[o := |k.history|];
  }

  lemma FollowKeeps(k: Track, e: Detection)
    requires Inv(k)
    ensures Inv(Follow(k, e))
  {
    if Find(k.t.slots, e.key, 0) < |k.t.slots| {
      RefreshKeeps(k, e);
    } else if |k.t.slots| < k.t.cap {
      InsertKeeps(k, e);
    } else if k.t.slots != [] {
      EvictKeeps(k, e);
    } else {
      assert Follow(k, e).t == k.t && Follow(k, e).born == k.born == [];
    }
  }

  ghost function RunTrack(cap: nat, es: seq<Detection>): (k: Track)
    decreases |es|
  {
    if es == [] then Track(Table([], 0, cap), [], [], 0, 0)
    else Follow(RunTrack(cap, es[..|es| - 1]), es[|es| - 1])
  }

  /** The table after the sightings since a clear. */
  function RunTable(cap: nat, es: seq<Detection>): Table
    decreases |es|
  {
    if es == [] then Table([], 0, cap) else Append(RunTable(cap, es[..|es| - 1]), es[|es| - 1])
  }

  /** A clear, whatever was in the table, starts that history. */
  lemma ClearStartsOver(t: Table)
    ensures Clear(t) == RunTable(t.cap, [])
  {
  }

  lemma {:induction false} TrackIsTable(cap: nat, es: seq<Detection>)
    ensures var k := RunTrack(cap, es);
            k.t == RunTable(cap, es) && k.history == es && k.t.cap == cap
    decreases |es|
  {
    if es != [] {
      TrackIsTable(cap, es[..|es| - 1]);
      assert es[..|es| - 1] + [es[|es| - 1]] == es;
    }
  }

  lemma {:induction false} TrackKeeps(cap: nat, es: seq<Detection>)
    ensures Inv(RunTrack(cap, es))
    decreases |es|
  {
    if es == [] {
      assert RunTrack(cap, es) == Track(Table([], 0, cap), [], [], 0, 0);
    } else {
      var k, e := RunTrack(cap, es[..|es| - 1]), es[|es| - 1];
      TrackKeeps(cap, es[..|es| - 1]);
      FollowKeeps(k, e);
      assert RunTrack(cap, es) == Follow(k, e);
    }
  }

  lemma TableSound(cap: nat, es: seq<Detection>)
    ensures var t := RunTable(cap, es);
            t.cap == cap && |t.slots| <= cap && Distinct(t.slots)
  {
    TrackIsTable(cap, es);
    TrackKeeps(cap, es);
  }

  /**
   * Whatever was sighted since the last clear: keys are distinct, the table is within its size, every
   * slot holds its key's latest sighting and the sightings counted since it was last inserted, and
   * insertions are accounted for by the slots and the dropped count, until that saturates.
   */
  lemma SpoolIsFaithful(cap: nat, es: seq<Detection>)
    ensures var k := RunTrack(cap, es);
            && k.t == RunTable(cap, es) && |k.t.slots| <= cap
            && Accounts(k.t.slots, k.born, es)
            && (k.t.dropped < HITS_MAX ==> k.inserted == |k.t.slots| + k.t.dropped)
  {
    TrackIsTable(cap, es);
    TrackKeeps(cap, es);
  }

  /** An eviction removes a slot no other slot is older than, and no other. */
  lemma EvictsAnOldest(t: Table, e: Detection)
    requires |t.slots| == t.cap > 0 && Find(t.slots, e.key, 0) == t.cap
    ensures var r := Append(t, e);
            exists o :: 0 <= o < t.cap && r.slots == t.slots[o := Slot(e, 1)]
              && forall i :: 0 <= i < t.cap ==> t.slots[o].evt.timestamp <= t.slots[i].evt.timestamp
  {
    var o := Oldest(t.slots);
    assert Append(t, e).slots == t.slots[o := Slot(e, 1)];
  }

  /** The sighting just recorded is always in the table. */
  lemma JustRecorded(t: Table, e: Detection)
    requires t.cap > 0 && |t.slots| <= t.cap
    ensures exists i :: 0 <= i < |Append(t, e).slots| && Append(t, e).slots[i].evt == e
  {
    var r := Append(t, e);
    var i := Find(t.slots, e.key, 0);
    var at := if i < |t.slots| then i else if |t.slots| < t.cap then |t.slots| else Oldest(t.slots);
    assert r.slots[at].evt == e;
  }

  // ------------------------------------------------------------------
  // Few devices: nothing is lost
  // ------------------------------------------------------------------

  function KeysOf(slots: seq<Slot>): (ks: set<Key>)
    ensures forall i :: 0 <= i < |slots| ==> slots[i].evt.key in ks
  {
    if slots == [] then {} else KeysOf(slots[..|slots| - 1]) + {slots[|slots| - 1].evt.key}
  }

  lemma {:induction false} KeyHasSlot(slots: seq<Slot>, key: Key)
    requires key in KeysOf(slots)
    ensures exists i :: 0 <= i < |slots| && slots[i].evt.key == key
  {
    var n := |slots| - 1;
    if slots[n].evt.key != key {
      KeyHasSlot(slots[..n], key);
      var i :| 0 <= i < n && slots[..n][i].evt.key == key;
      assert slots[i].evt.key == key;
    }
  }

  lemma {:induction false} KeysCount(slots: seq<Slot>)
    requires Distinct(slots)
    ensures |KeysOf(slots)| == |slots|
  {
    if slots != [] {
      var init, key := slots[..|slots| - 1], slots[|slots| - 1].evt.key;
      KeysCount(init);
      if key in KeysOf(init) {
        KeyHasSlot(init, key);
      }
    }
  }

  lemma RoomForKnown(t: Table, key: Key, known: set<Key>)
    requires Distinct(t.slots)
    requires (forall i :: 0 <= i < |t.slots| ==> t.slots[i].evt.key in known) && key in known && |known| <= t.cap
    requires Find(t.slots, key, 0) == |t.slots|
    ensures |t.slots| < t.cap
  {
    KeysCount(t.slots);
    forall k | k in KeysOf(t.slots) + {key} ensures k in known {
      if k != key {
        KeyHasSlot(t.slots, k);
      }
    }
    if key in KeysOf(t.slots) {
      KeyHasSlot(t.slots, key);
    }
    SubsetSize(KeysOf(t.slots) + {key}, known);
  }

  /** Every key sighted has a slot with its latest sighting and its exact, saturating count. */
  ghost predicate Complete(t: Table, es: seq<Detection>) {
    && t.dropped == 0
    && (forall e :: e in es ==> exists i :: 0 <= i < |t.slots| && t.slots[i].evt.key == e.key)
    && (forall i :: 0 <= i < |t.slots| ==>
          && Latest(es, t.slots[i].evt.key) == Some(t.slots[i].evt)
          && t.slots[i].hits == Saturate(CountKey(es, t.slots[i].evt.key)))
  }

  ghost predicate Within(slots: seq<Slot>, known: set<Key>) {
    forall i :: 0 <= i < |slots| ==> slots[i].evt.key in known
  }

  lemma KnownStep(t: Table, es: seq<Detection>, e: Detection, known: set<Key>)
    requires Complete(t, es) && Within(t.slots, known) && |t.slots| <= t.cap && Distinct(t.slots)
    requires e.key in known && |known| <= t.cap
    ensures Complete(Append(t, e), es + [e]) && Within(Append(t, e).slots, known)
  {
    SubsetSize({e.key}, known);
    if Find(t.slots, e.key, 0) == |t.slots| {
      RoomForKnown(t, e.key, known);
    }
    AppendComplete(t, es, e);
  }

  ghost predicate Exact(t: Table, es: seq<Detection>, known: set<Key>) {
    Complete(t, es) && Within(t.slots, known)
  }

  lemma ExactStep(cap: nat, es: seq<Detection>, e: Detection, known: set<Key>)
    requires Exact(RunTable(cap, es), es, known) && e.key in known && |known| <= cap
    ensures Exact(RunTable(cap, es + [e]), es + [e], known)
  {
    TableSound(cap, es);
    KnownStep(RunTable(cap, es), es, e, known);
    assert (es + [e])[..|es|] == es && RunTable(cap, es + [e]) == Append(RunTable(cap, es), e);
  }

  /** With no more distinct keys than slots, nothing is dropped and every count is exact. */
  lemma {:induction false} FewKeysLoseNothing(cap: nat, es: seq<Detection>, known: set<Key>)
    requires (forall e :: e in es ==> e.key in known) && |known| <= cap
    ensures Exact(RunTable(cap, es), es, known)
    decreases |es|
  {
    if es != [] {
      var init, e := es[..|es| - 1], es[|es| - 1];
      assert e in es && forall x :: x in init ==> x in es;
      FewKeysLoseNothing(cap, init, known);
      ExactStep(cap, init, e, known);
      assert init + [e] == es;
    } else {
      assert RunTable(cap, es) == Table([], 0, cap);
    }
  }

  lemma {:induction false} Unseen(es: seq<Detection>, key: Key)
    requires forall e :: e in es ==> e.key != key
    ensures CountKey(es, key) == 0
  {
    if es != [] {
      Unseen(es[..|es| - 1], key);
    }
  }

  lemma AppendComplete(t: Table, es: seq<Detection>, e: Detection)
    requires Complete(t, es) && |t.slots| <= t.cap && t.cap > 0
    requires Find(t.slots, e.key, 0) < |t.slots| || |t.slots| < t.cap
    requires Distinct(t.slots)
    ensures Complete(Append(t, e), es + [e])
  {
    var r := Append(t, e);
    var i := Find(t.slots, e.key, 0);
    if i == |t.slots| {
      Unseen(es, e.key);
    }
    forall k | 0 <= k < |r.slots|
      ensures Latest(es + [e], r.slots[k].evt.key) == Some(r.slots[k].evt)
      ensures r.slots[k].hits == Saturate(CountKey(es + [e], r.slots[k].evt.key))
    {
      HistoryGrows(es, e, 0, r.slots[k].evt.key);
      assert es[0..] == es && (es + [e])[0..] == es + [e];
    }
    assert r.slots[if i < |t.slots| then i else |t.slots|].evt.key == e.key;
    forall x | x in es + [e]
      ensures exists k :: 0 <= k < |r.slots| && r.slots[k].evt.key == x.key
    {
      if x in es {
        var k :| 0 <= k < |t.slots| && t.slots[k].evt.key == x.key;
        assert r.slots[k].evt.key == x.key;
      }
    }
  }
}
