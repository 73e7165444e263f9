/**
 * A message pack inside a Neighbor Awareness Networking action frame (sections
 * 2.8.1 and 2.8.2 of the Neighbor Awareness Networking Specification): the
 * builder writes it behind a moving cursor, the receiver walks the same cursor.
 */
module NanFrame {
  import opened Bytes
  import opened OdidMessages
  import opened OdidControl
  import opened OdidPack

  const MGMT := 24
  const DISCOVERY := 6
  const DESCRIPTOR := 13
  const EXTENSION := 7
  const PACK_AT := 44          // behind the three headers and the message counter

  const TARGET: seq<byte> := [0x51, 0x6F, 0x9A, 0x01, 0x00, 0x00]
  const CLUSTER: seq<byte> := [0x50, 0x6F, 0x9A, 0x01, 0x00, 0xFF]
  const OUI: seq<byte> := [0x50, 0x6F, 0x9A]
  const SERVICE: seq<byte> := [0x88, 0x69, 0x19, 0x9D, 0x92, 0x09]

  // ------------------------------------------------------------------
  // The frame as bytes
  // ------------------------------------------------------------------

  function MgmtHeader(mac: seq<byte>): (h: seq<byte>)
    requires |mac| == 6
    ensures |h| == MGMT
  {
    [0xD0, 0, 0, 0] + TARGET + mac + CLUSTER + [0, 0]
  }

  function Discovery(): (h: seq<byte>)
    ensures |h| == DISCOVERY
  {
    [0x04, 0x09] + OUI + [0x13]
  }

  /** The descriptor states its own length and that of the service information behind it. */
  function Descriptor(info: byte): (h: seq<byte>)
    ensures |h| == DESCRIPTOR
  {
    [0x03] + ToLe16(10 + info) + SERVICE + [0x01, 0x00, 0x10, info]
  }

  function Extension(counter: byte): (h: seq<byte>)
    ensures |h| == EXTENSION
  {
    [0x0E, 4, 0, 0x01, 0x00, 0x02, counter]
  }

  function PackBytes(msgs: seq<seq<byte>>): (p: seq<byte>)
    requires |msgs| <= PACK_MAX
  {
    [Head(PACKED), MESSAGE, |msgs|] + Concat(msgs)
  }

  /** The service information: a counter, then the pack. */
  function ServiceInfo(counter: byte, msgs: seq<seq<byte>>): seq<byte>
    requires |msgs| <= PACK_MAX
  {
    [counter] + PackBytes(msgs)
  }

  function FrameBytes(mac: seq<byte>, counter: byte, msgs: seq<seq<byte>>): seq<byte>
    requires |mac| == 6 && |msgs| <= PACK_MAX
  {
    MgmtHeader(mac) + Discovery() + Descriptor(4 + MESSAGE * |msgs|) + ServiceInfo(counter, msgs) + Extension(counter)
  }

  // ------------------------------------------------------------------
  // The receiver
  // ------------------------------------------------------------------

  /** `Outside`: the code goes on to decode a pack that does not lie within the frame. */
  datatype Verdict = Accepted(mac: seq<byte>, uas: Uas) | Invalid | NoMemory | Outside

  predicate MgmtOk(f: seq<byte>) {
    |f| >= MGMT && f[0] / 4 == 0xD0 / 4 && f[4..10] == TARGET
  }

  predicate DiscoveryOk(f: seq<byte>) {
    |f| >= 30 && f[24] == 0x04 && f[25] == 0x09 && f[26..29] == OUI && f[29] == 0x13
  }

  predicate DescriptorOk(f: seq<byte>) {
    |f| >= 43 && f[30] == 0x03 && f[33..39] == SERVICE && f[39] == 0x01 && f[41] == 0x10
  }

  /** The pack's extent, from the count it states. */
  function PackSize(f: seq<byte>): nat
    requires |f| > PACK_AT + 2
  {
    3 + MESSAGE * f[PACK_AT + 2]
  }

  predicate LengthsOk(f: seq<byte>)
    requires |f| > PACK_AT + 2
  {
    f[42] == 1 + PackSize(f) && Le16(f[31], f[32]) - 10 == f[42]
  }

  predicate ExtensionOk(f: seq<byte>, at: nat)
    requires at + EXTENSION <= |f|
  {
    f[at] == 0x0E && Le16(f[at + 1], f[at + 2]) == 4 && f[at + 3] == 0x01 && Le16(f[at + 4], f[at + 5]) == 0x0200
  }

  /** After the pack: the lengths stated before it, and the trailer behind it. */
  function Judge(f: seq<byte>, r: Uas, ok: bool): Verdict
    requires |f| > PACK_AT + 2
  {
    if !ok || !LengthsOk(f) then Invalid
    else if PACK_AT + PackSize(f) + EXTENSION > |f| then NoMemory
    else if !ExtensionOk(f, PACK_AT + PackSize(f)) then Invalid
    else Accepted(f[10..16], r)
  }

  predicate HeadersOk(f: seq<byte>) {
    MgmtOk(f) && DiscoveryOk(f) && DescriptorOk(f)
  }

  /** The room the pack is given: what is left behind the headers less the trailer, in 32-bit arithmetic. */
  function Room(len: nat): nat { (len - 43 - EXTENSION) % 0x1_0000_0000 }

  /** What there is of the pack does not yet refuse it: its head, and the kind of its first message. */
  predicate DecodesOn(f: seq<byte>) {
    && (|f| > PACK_AT ==> f[PACK_AT] / 16 == PACKED)
    && (|f| > PACK_AT + 1 ==> f[PACK_AT + 1] == MESSAGE)
    && (|f| > PACK_AT + 2 ==> 1 <= f[PACK_AT + 2] <= PACK_MAX)
    && (|f| > PACK_AT + 3 ==> f[PACK_AT + 3] / 16 <= OPERATOR_ID)
  }

  /** The verdict on a frame that the pack does not lie in. */
  function CutOff(f: seq<byte>): Verdict { if DecodesOn(f) then Outside else Invalid }

  function Receive(f: seq<byte>): Verdict {
    if !HeadersOk(f) then Invalid
    else if |f| <= PACK_AT + 2 then CutOff(f)
    else if PackSize(f) > Room(|f|) then Invalid
    else if PACK_AT + PackSize(f) > |f| then CutOff(f)
    else
      var (r, ok) := DecodePackAt(DecodeOne, Init(), f, PACK_AT);
      Judge(f, r, ok)
  }

  /**
   * That happens exactly to frames cut off less than seven bytes behind the headers, if what is there looks
   * like a pack.
   */
  lemma OutsideExactly(f: seq<byte>)
    requires |f| < 0x1_0000_0000
    ensures Receive(f) == Outside <==>
            HeadersOk(f) && |f| < 43 + EXTENSION && DecodesOn(f)
  {
    if |f| >= 43 + EXTENSION {
      assert Room(|f|) == |f| - 43 - EXTENSION;
    } else if HeadersOk(f) {
      assert Room(|f|) == 0x1_0000_0000 + |f| - 43 - EXTENSION;
    }
  }

  // ------------------------------------------------------------------
  // A built frame, taken apart
  // ------------------------------------------------------------------

  lemma {:induction false} ConcatSized(msgs: seq<seq<byte>>)
    requires Sized(msgs)
    ensures |Concat(msgs)| == MESSAGE * |msgs|
  {
    if msgs != [] {
      ConcatSized(msgs[1..]);
    }
  }

  lemma FiveParts(a: seq<byte>, b: seq<byte>, c: seq<byte>, d: seq<byte>, e: seq<byte>)
    ensures var f, k2, k3, k4 := a + b + c + d + e, |a| + |b|, |a| + |b| + |c|, |a| + |b| + |c| + |d|;
            f[..|a|] == a && f[|a|..k2] == b && f[k2..k3] == c && f[k3..k4] == d && f[k4..] == e
  {
  }

  lemma InfoParts(counter: byte, msgs: seq<seq<byte>>)
    requires |msgs| <= PACK_MAX && Sized(msgs)
    ensures var info, n := ServiceInfo(counter, msgs), |msgs|;
            && |info| == 4 + MESSAGE * n
            && info[1..4] == [Head(PACKED), MESSAGE, n] && info[4..4 + MESSAGE * n] == Concat(msgs)
  {
    ConcatSized(msgs);
    var head, all := [Head(PACKED), MESSAGE, |msgs|], Concat(msgs);
    assert [counter] + (head + all) == ([counter] + head) + all;
  }

  lemma FrameParts(mac: seq<byte>, counter: byte, msgs: seq<seq<byte>>)
    requires |mac| == 6 && |msgs| <= PACK_MAX && Sized(msgs)
    ensures var f, n := FrameBytes(mac, counter, msgs), |msgs|;
            && |f| == 54 + MESSAGE * n
            && f[..24] == MgmtHeader(mac) && f[24..30] == Discovery() && f[30..43] == Descriptor(4 + MESSAGE * n)
            && f[44..47] == [Head(PACKED), MESSAGE, n] && f[47..47 + MESSAGE * n] == Concat(msgs)
            && f[47 + MESSAGE * n..] == Extension(counter)
  {
    var f, n, info := FrameBytes(mac, counter, msgs), |msgs|, ServiceInfo(counter, msgs);
    InfoParts(counter, msgs);
    FiveParts(MgmtHeader(mac), Discovery(), Descriptor(4 + MESSAGE * n), info, Extension(counter));
    assert f[43..47 + MESSAGE * n] == info;
    SliceOfSlice(f, 43, 47 + MESSAGE * n, 1, 4);
    SliceOfSlice(f, 43, 47 + MESSAGE * n, 4, 4 + MESSAGE * n);
  }

  lemma MgmtArrives(f: seq<byte>, mac: seq<byte>)
    requires |mac| == 6 && |f| >= 24 && f[..24] == MgmtHeader(mac)
    ensures MgmtOk(f) && f[10..16] == mac
  {
    var h := f[..24];
    assert f[0] == h[0] && f[4..10] == h[4..10] && f[10..16] == h[10..16];
  }

  lemma DiscoveryArrives(f: seq<byte>)
    requires |f| >= 30 && f[24..30] == Discovery()
    ensures DiscoveryOk(f)
  {
    var h := f[24..30];
    assert f[24] == h[0] && f[25] == h[1] && f[29] == h[5];
    SliceOfSlice(f, 24, 30, 2, 5);
    assert ([0x04, 0x09] + OUI + [0x13])[2..5] == OUI;
  }

  lemma DescriptorArrives(f: seq<byte>, info: byte)
    requires |f| >= 43 && f[30..43] == Descriptor(info)
    ensures DescriptorOk(f) && f[42] == info && Le16(f[31], f[32]) - 10 == info
  {
    var h, l := f[30..43], ToLe16(10 + info);
    assert f[30] == h[0] && f[39] == h[9] && f[41] == h[11] && f[42] == h[12];
    SliceOfSlice(f, 30, 43, 3, 9);
    assert f[31] == h[1] == l[0] && f[32] == h[2] == l[1];
    assert ([0x03] + l + SERVICE + [0x01, 0x00, 0x10, info])[3..9] == SERVICE;
  }

  lemma Halves(f: seq<byte>, base: nat, end: nat, a: seq<byte>, b: seq<byte>)
    requires base <= end <= |f| && f[base..end] == a + b
    ensures base + |a| <= end && f[base..base + |a|] == a && f[base + |a|..end] == b
  {
    assert |a| + |b| == end - base;
    forall i | 0 <= i < |a| ensures f[base + i] == a[i] {
      assert f[base + i] == f[base..end][i];
    }
    forall i | 0 <= i < |b| ensures f[base + |a| + i] == b[i] {
      assert f[base + |a| + i] == f[base..end][|a| + i];
    }
  }

  lemma {:induction false} MessagesInMemory(f: seq<byte>, base: nat, msgs: seq<seq<byte>>)
    requires Sized(msgs) && base + MESSAGE * |msgs| <= |f| && f[base..base + MESSAGE * |msgs|] == Concat(msgs)
    ensures MessagesAt(f, base, |msgs|) == msgs
    decreases |msgs|
  {
    if msgs != [] {
      var n := |msgs| - 1;
      var init, m := msgs[..n], msgs[n];
      assert msgs == init + [m];
      ConcatSnoc(init, m);
      ConcatSized(init);
      Halves(f, base, base + MESSAGE * |msgs|, Concat(init), m);
      MessagesInMemory(f, base, init);
    }
  }

  // ------------------------------------------------------------------
  // What is gathered always passes the content check
  // ------------------------------------------------------------------

  function CountIn(msgs: seq<seq<byte>>, kind: nat): nat
    requires forall m :: m in msgs ==> |m| > 0
  {
    if msgs == [] then 0 else CountIn(msgs[..|msgs| - 1], kind) + if Kind(msgs[|msgs| - 1]) == kind then 1 else 0
  }

  lemma {:induction false} CountsAgree(f: seq<byte>, base: nat, n: nat, kind: nat)
    requires base + MESSAGE * n <= |f| && Sized(MessagesAt(f, base, n))
    ensures CountKind(f, base, n, kind) == CountIn(MessagesAt(f, base, n), kind)
  {
    if n > 0 {
      var ms, m := MessagesAt(f, base, n - 1), f[base + MESSAGE * (n - 1)..base + MESSAGE * n];
      assert MessagesAt(f, base, n) == ms + [m];
      assert Sized(ms) by {
        assert forall x :: x in ms ==> x in ms + [m];
      }
      CountsAgree(f, base, n - 1, kind);
      CountSnoc(ms, m, kind);
    }
  }

  /** At most so many messages of each kind, and of no other kind. */
  ghost predicate Bounded(msgs: seq<seq<byte>>, basic: nat, location: nat, auth: nat, self: nat, system: nat,
                          operator: nat) {
    && Sized(msgs) && |msgs| <= PACK_MAX
    && (forall m :: m in msgs ==> Kind(m) <= OPERATOR_ID)
    && CountIn(msgs, BASIC_ID) <= basic && CountIn(msgs, LOCATION) <= location && CountIn(msgs, AUTH) <= auth
    && CountIn(msgs, SELF_ID) <= self && CountIn(msgs, SYSTEM) <= system && CountIn(msgs, OPERATOR_ID) <= operator
  }

  ghost predicate Allowed(msgs: seq<seq<byte>>) { Bounded(msgs, BASIC_IDS, 1, AUTH_PAGES, 1, 1, 1) }

  lemma CountSnoc(msgs: seq<seq<byte>>, m: seq<byte>, kind: nat)
    requires Sized(msgs) && |m| == MESSAGE
    ensures CountIn(msgs + [m], kind) == CountIn(msgs, kind) + if Kind(m) == kind then 1 else 0
  {
    assert (msgs + [m])[..|msgs|] == msgs;
  }

  lemma PutBounded(acc: seq<seq<byte>>, valid: bool, enc: Option<seq<byte>>, kind: nat,
                   basic: nat, location: nat, auth: nat, self: nat, system: nat, operator: nat)
    requires Bounded(acc, basic, location, auth, self, system, operator) && kind <= OPERATOR_ID
    requires enc.Some? ==> |enc.value| == MESSAGE && Kind(enc.value) == kind
    requires Put(Some(acc), valid, enc).Some?
    ensures Bounded(Put(Some(acc), valid, enc).value,
                    if kind == BASIC_ID then basic + 1 else basic, if kind == LOCATION then location + 1 else location,
                    if kind == AUTH then auth + 1 else auth, if kind == SELF_ID then self + 1 else self,
                    if kind == SYSTEM then system + 1 else system,
                    if kind == OPERATOR_ID then operator + 1 else operator)
  {
    if valid && enc.Some? {
      var m := enc.value;
      CountSnoc(acc, m, BASIC_ID);
      CountSnoc(acc, m, LOCATION);
      CountSnoc(acc, m, AUTH);
      CountSnoc(acc, m, SELF_ID);
      CountSnoc(acc, m, SYSTEM);
      CountSnoc(acc, m, OPERATOR_ID);
    }
  }

  lemma {:induction false} BasicBounded(u: Uas, i: nat)
    requires Typed(u) && i <= BASIC_IDS && GatherBasic(u, i).Some?
    ensures Bounded(GatherBasic(u, i).value, i, 0, 0, 0, 0, 0)
  {
    if i == 0 {
      assert GatherBasic(u, 0).value == [];
    } else {
      BasicBounded(u, i - 1);
      PutBounded(GatherBasic(u, i - 1).value, u.basicValid[i - 1], TryBasic(u.basic[i - 1]), BASIC_ID, i - 1, 0, 0,
          0, 0, 0);
    }
  }

  lemma {:induction false} AuthBounded(u: Uas, i: nat)
    requires Typed(u) && i <= AUTH_PAGES && GatherAuth(u, i).Some?
    ensures Bounded(GatherAuth(u, i).value, BASIC_IDS, 1, i, 0, 0, 0)
  {
    if i == 0 {
      BasicBounded(u, BASIC_IDS);
      PutBounded(GatherBasic(u, BASIC_IDS).value, u.locationValid, TryLocation(u.location), LOCATION, BASIC_IDS, 0,
          0, 0, 0, 0);
    } else {
      AuthBounded(u, i - 1);
      PutBounded(GatherAuth(u, i - 1).value, u.authValid[i - 1], TryAuth(u.auth[i - 1]), AUTH, BASIC_IDS, 1, i - 1,
          0, 0, 0);
    }
  }

  lemma GatheredBounded(u: Uas)
    requires Typed(u) && Gather(u).Some?
    ensures Allowed(Gather(u).value)
  {
    AuthBounded(u, AUTH_PAGES);
    var a0, a1, a2 := GatherAuth(u, AUTH_PAGES).value, GatherSelfId(u).value, GatherSystem(u).value;
    PutBounded(a0, u.selfIdValid, TrySelfId(u.selfId), SELF_ID, BASIC_IDS, 1, AUTH_PAGES, 0, 0, 0);
    PutBounded(a1, u.systemValid, TrySystem(u.system), SYSTEM, BASIC_IDS, 1, AUTH_PAGES, 1, 0, 0);
    PutBounded(a2, u.operatorIdValid, TryOperatorId(u.operatorId), OPERATOR_ID, BASIC_IDS, 1, AUTH_PAGES, 1, 1, 0);
  }

  lemma KindThere(f: seq<byte>, base: nat, n: nat, i: nat, m: seq<byte>)
    requires base + MESSAGE * n <= |f| && i < n && MessagesAt(f, base, n)[i] == m && |m| == MESSAGE
    ensures KindAt(f, base, i) == Kind(m)
  {
    MessageThere(f, base, n, i);
    assert m[0] == f[base + MESSAGE * i];
  }

  lemma KnownInMemory(f: seq<byte>, base: nat, msgs: seq<seq<byte>>)
    requires Sized(msgs) && (forall m :: m in msgs ==> Kind(m) <= OPERATOR_ID)
    requires base + MESSAGE * |msgs| <= |f| && MessagesAt(f, base, |msgs|) == msgs
    ensures OnlyMessages(f, base, |msgs|)
  {
    forall i | 0 <= i < |msgs| ensures KindAt(f, base, i) <= OPERATOR_ID {
      assert msgs[i] in msgs;
      KindThere(f, base, |msgs|, i, msgs[i]);
    }
  }

  lemma AllowedIsContent(f: seq<byte>, base: nat, msgs: seq<seq<byte>>)
    requires Allowed(msgs) && msgs != []
    requires base + MESSAGE * |msgs| <= |f| && MessagesAt(f, base, |msgs|) == msgs
    ensures ContentOk(f, base, |msgs|)
  {
    var n := |msgs|;
    KnownInMemory(f, base, msgs);
    CountsAgree(f, base, n, BASIC_ID);
    CountsAgree(f, base, n, LOCATION);
    CountsAgree(f, base, n, AUTH);
    CountsAgree(f, base, n, SELF_ID);
    CountsAgree(f, base, n, SYSTEM);
    CountsAgree(f, base, n, OPERATOR_ID);
  }

  // ------------------------------------------------------------------
  // The round trip
  // ------------------------------------------------------------------

  lemma ExtensionArrives(f: seq<byte>, at: nat, counter: byte)
    requires at + EXTENSION == |f| && f[at..] == Extension(counter)
    ensures ExtensionOk(f, at)
  {
    var e := f[at..];
    assert f[at] == e[0] && f[at + 1] == e[1] && f[at + 2] == e[2] && f[at + 3] == e[3] && f[at + 4] == e[4]
        && f[at + 5] == e[5];
  }

  lemma PackHeadArrives(f: seq<byte>, n: byte)
    requires 47 <= |f| && f[44..47] == [Head(PACKED), MESSAGE, n]
    ensures f[44] / 16 == PACKED && f[45] == MESSAGE && f[46] == n
  {
    var head := f[44..47];
    assert f[44] == head[0] && f[45] == head[1] && f[46] == head[2];
  }

  lemma PackDecodes(s: Uas, f: seq<byte>, msgs: seq<seq<byte>>)
    requires Allowed(msgs) && msgs != []
    requires 47 + MESSAGE * |msgs| <= |f| && f[44] / 16 == PACKED && f[45] == MESSAGE && f[46] == |msgs|
    requires f[47..47 + MESSAGE * |msgs|] == Concat(msgs)
    ensures DecodePackAt(DecodeOne, s, f, PACK_AT) == (After(s, msgs), true)
  {
    MessagesInMemory(f, 47, msgs);
    AllowedIsContent(f, 47, msgs);
    PackIsFold(DecodeOne, s, f, PACK_AT);
  }

  lemma JudgeAccepts(f: seq<byte>, n: byte, r: Uas)
    requires |f| == 54 + MESSAGE * n && f[46] == n
    requires LengthsOk(f) && ExtensionOk(f, 47 + MESSAGE * n)
    ensures Judge(f, r, true) == Accepted(f[10..16], r)
  {
  }

  lemma RoomForPack(f: seq<byte>, n: byte)
    requires |f| == 54 + MESSAGE * n && f[46] == n
    ensures PackSize(f) <= Room(|f|) && PACK_AT + PackSize(f) <= |f|
  {
    assert Room(|f|) == |f| - 43 - EXTENSION;
  }

  lemma Accepts(f: seq<byte>, r: Uas)
    requires HeadersOk(f) && |f| > PACK_AT + 2 && PackSize(f) <= Room(|f|) && PACK_AT + PackSize(f) <= |f|
    requires DecodePackAt(DecodeOne, Init(), f, PACK_AT) == (r, true)
    ensures Receive(f) == Judge(f, r, true)
  {
  }

  /** The frame built from any messages that pass the content check is accepted, with their fold as the data. */
  lemma FrameAccepted(mac: seq<byte>, counter: byte, msgs: seq<seq<byte>>)
    requires |mac| == 6 && Allowed(msgs) && msgs != []
    ensures Receive(FrameBytes(mac, counter, msgs)) == Accepted(mac, After(Init(), msgs))
  {
    var f, n := FrameBytes(mac, counter, msgs), |msgs|;
    FrameParts(mac, counter, msgs);
    MgmtArrives(f, mac);
    DiscoveryArrives(f);
    DescriptorArrives(f, 4 + MESSAGE * n);
    PackHeadArrives(f, n);
    PackDecodes(Init(), f, msgs);
    ExtensionArrives(f, 47 + MESSAGE * n, counter);
    RoomForPack(f, n);
    JudgeAccepts(f, n, After(Init(), msgs));
    Accepts(f, After(Init(), msgs));
  }

  /**
   * The round trip: the receiver accepts the frame the builder makes of a drone's data, reports the
   * sender's address, and holds for every message sent the decode of its encoding, and nothing else.
   */
  lemma NanRoundTrip(u: Uas, mac: seq<byte>, counter: byte)
    requires Typed(u) && Distinguishable(u) && |mac| == 6
    requires Gather(u).Some? && Gather(u).value != []
    ensures |Gather(u).value| <= PACK_MAX
    ensures var v := Receive(FrameBytes(mac, counter, Gather(u).value));
            v.Accepted? && v.mac == mac && Shaped(v.uas) && Received(u, v.uas)
  {
    GatheredBounded(u);
    FrameAccepted(mac, counter, Gather(u).value);
    InitIsBlank();
    GatheredIsReceived(u, Init());
  }
}
