/**
 * The codec as the firmware runs it: the decoders fill one structure in place,
 * and the frame builder and receiver work on a byte buffer behind a cursor.
 */
module NanCodec {
  import opened Bytes
  import opened OdidMessages
  import opened OdidControl
  import opened OdidPack
  import opened NanFrame

  const EINVAL := -22
  const ENOMEM := -12

  // ------------------------------------------------------------------
  // Decoding in place
  // ------------------------------------------------------------------

  class UasData {
    const basic: array<BasicId>
    const basicValid: array<bool>
    const auth: array<Auth>
    const authValid: array<bool>
    var location: Location
    var locationValid: bool
    var selfId: SelfId
    var selfIdValid: bool
    var system: System
    var systemValid: bool
    var operatorId: OperatorId
    var operatorIdValid: bool

    ghost predicate Valid()
      reads this
    {
      && basic.Length == basicValid.Length == BASIC_IDS && auth.Length == authValid.Length == AUTH_PAGES
      && basicValid != authValid
    }

    ghost function Abs(): Uas
      reads this, basic, basicValid, auth, authValid
    {
      Uas(basic[..], basicValid[..], location, locationValid, auth[..], authValid[..],
          selfId, selfIdValid, system, systemValid, operatorId, operatorIdValid)
    }

    constructor ()
      ensures Valid() && fresh(basic) && fresh(basicValid) && fresh(auth) && fresh(authValid)
      ensures Abs() == Init()
    {
      basic, basicValid := new BasicId[BASIC_IDS](_ => NO_BASIC), new bool[BASIC_IDS](_ => false);
      auth, authValid := new Auth[AUTH_PAGES](_ => NO_AUTH), new bool[AUTH_PAGES](_ => false);
      location, locationValid := NO_LOCATION, false;
      selfId, selfIdValid := SelfId(0, Zeros(24)), false;
      system, systemValid := NO_SYSTEM, false;
      operatorId, operatorIdValid := OperatorId(0, Zeros(21)), false;
      new;
      assert basic[..] == Repeat(NO_BASIC, BASIC_IDS) && basicValid[..] == Repeat(false, BASIC_IDS);
      assert auth[..] == Repeat(NO_AUTH, AUTH_PAGES) && authValid[..] == Repeat(false, AUTH_PAGES);
    }

    method Value() returns (u: Uas)
      ensures u == Abs()
    {
      u := Uas(basic[..], basicValid[..], location, locationValid, auth[..], authValid[..],
               selfId, selfIdValid, system, systemValid, operatorId, operatorIdValid);
    }

    /** The id goes to the first slot that is free or holds its type. */
    method KeepBasic(d: BasicId) returns (kind: Option<nat>)
      requires Valid()
      modifies basic, basicValid
      ensures (Abs(), kind) == StoreBasic(old(Abs()), d)
    {
      var i := 0;
      while i < BASIC_IDS && basic[i].idType != 0 && basic[i].idType != d.idType
        invariant i <= BASIC_IDS && SlotFor(basic[..], d.idType, 0) == SlotFor(basic[..], d.idType, i)
      {
        i := i + 1;
      }
      if i == BASIC_IDS { return None; }
      basic[i], basicValid[i] := d, true;
      return Some(BASIC_ID);
    }

    method KeepAuth(m: seq<byte>) returns (kind: Option<nat>)
      requires Valid() && |m| == MESSAGE
      modifies auth, authValid
      ensures (Abs(), kind) == StoreAuth(old(Abs()), m)
    {
      var page := m[1] % 16;
      if page == 0 && (m[2] >= AUTH_PAGES || m[3] > PAGE_ZERO_DATA + m[2] * PAGE_DATA) { return None; }
      auth[page], authValid[page] := DecodeAuth(auth[page], m), true;
      return Some(AUTH);
    }

    method Keep(m: seq<byte>) returns (kind: Option<nat>)
      requires Valid() && |m| == MESSAGE
      modifies this, basic, basicValid, auth, authValid
      ensures (Abs(), kind) == DecodeOne(old(Abs()), m)
    {
      var k := Kind(m);
      if k == BASIC_ID {
        kind := KeepBasic(DecodeBasicId(m));
      } else if k == LOCATION {
        location, locationValid, kind := DecodeLocation(m), true, Some(LOCATION);
      } else if k == AUTH {
        kind := KeepAuth(m);
      } else if k == SELF_ID {
        selfId, selfIdValid, kind := DecodeSelfId(m), true, Some(SELF_ID);
      } else if k == SYSTEM {
        system, systemValid, kind := DecodeSystem(m), true, Some(SYSTEM);
      } else if k == OPERATOR_ID {
        operatorId, operatorIdValid, kind := DecodeOperatorId(m), true, Some(OPERATOR_ID);
      } else {
        kind := None;
      }
    }

    method DecodeMessage(mem: seq<byte>, off: nat) returns (kind: Option<nat>)
      requires Valid() && Readable(mem, off)
      modifies this, basic, basicValid, auth, authValid
      ensures (Abs(), kind) == DecodeAt(DecodeOne, old(Abs()), mem, off)
      decreases if mem[off] / 16 == PACKED then 2 else 0
    {
      if mem[off] / 16 == PACKED {
        var ok := DecodePack(mem, off);
        kind := if ok then Some(PACKED) else None;
      } else {
        kind := Keep(mem[off..off + MESSAGE]);
      }
    }

    method DecodePack(mem: seq<byte>, off: nat) returns (ok: bool)
      requires Valid() && off + 3 <= |mem| && off + 3 + MESSAGE * mem[off + 2] <= |mem|
      modifies this, basic, basicValid, auth, authValid
      ensures (Abs(), ok) == DecodePackAt(DecodeOne, old(Abs()), mem, off)
      decreases 1, 1
    {
      var n := mem[off + 2];
      if mem[off] / 16 != PACKED || mem[off + 1] != MESSAGE { return false; }
      ok := CheckContent(mem, off + 3, n);
      if ok { DecodeAll(mem, off + 3, n); }
    }

    /** The pack's loop, over messages of which none is a pack. */
    method DecodeAll(mem: seq<byte>, base: nat, n: nat)
      requires Valid() && base + MESSAGE * n <= |mem| && OnlyMessages(mem, base, n)
      modifies this, basic, basicValid, auth, authValid
      ensures Abs() == DecodeEach(DecodeOne, old(Abs()), mem, base, 0, n)
      decreases 1, 0
    {
      ghost var start := Abs();
      for i := 0 to n
        invariant DecodeEach(DecodeOne, Abs(), mem, base, i, n) == DecodeEach(DecodeOne, start, mem, base, 0, n)
      {
        assert KindAt(mem, base, i) <= OPERATOR_ID;
        var _ := DecodeMessage(mem, base + MESSAGE * i);
      }
    }
  }

  // ------------------------------------------------------------------
  // The receiver
  // ------------------------------------------------------------------

  method ReadHeaders(f: seq<byte>) returns (ok: bool, len: nat)
    ensures ok == HeadersOk(f) && (ok ==> len == 43)
  {
    len := 0;
    if len + MGMT > |f| || f[0] / 4 != 0xD0 / 4 || f[4..10] != TARGET { return false, len; }
    len := len + MGMT;
    if len + DISCOVERY > |f| || f[len] != 0x04 || f[len + 1] != 0x09 || f[len + 2..len + 5] != OUI
       || f[len + 5] != 0x13 {
      return false, len;
    }
    len := len + DISCOVERY;
    if len + DESCRIPTOR > |f| || f[len] != 0x03 || f[len + 3..len + 9] != SERVICE || f[len + 9] != 0x01
       || f[len + 11] != 0x10 {
      return false, len;
    }
    len := len + DESCRIPTOR;
    ok := true;
  }

  method ReadExtension(f: seq<byte>, len: nat) returns (ok: bool)
    requires len + EXTENSION <= |f|
    ensures ok == ExtensionOk(f, len)
  {
    ok := f[len] == 0x0E && Le16(f[len + 1], f[len + 2]) == 4 && f[len + 3] == 0x01
        && Le16(f[len + 4], f[len + 5]) == 0x0200;
  }

  method ReadPack(f: seq<byte>, at: nat) returns (ok: bool, uas: Uas)
    requires at + 3 <= |f| && at + 3 + MESSAGE * f[at + 2] <= |f|
    ensures (uas, ok) == DecodePackAt(DecodeOne, Init(), f, at)
  {
    var data := new UasData();
    ok := data.DecodePack(f, at);
    uas := data.Value();
  }

  method JudgeFrame(f: seq<byte>, size: nat, uas: Uas, decoded: bool) returns (v: Verdict)
    requires |f| > PACK_AT + 2 && size == PackSize(f)
    ensures v == Judge(f, uas, decoded)
  {
    if !decoded || f[42] != 1 + size || Le16(f[31], f[32]) - 10 != f[42] { return Invalid; }
    var len := PACK_AT + size;
    if len + EXTENSION > |f| { return NoMemory; }
    var ok := ReadExtension(f, len);
    v := if ok then Accepted(f[10..16], uas) else Invalid;
  }

  /** The decoder's first tests, on as many bytes as the frame has of the pack. */
  method JudgeCutOff(f: seq<byte>, at: nat) returns (v: Verdict)
    requires at == PACK_AT
    ensures v == CutOff(f)
  {
    if |f| > at && f[at] / 16 != PACKED { return Invalid; }
    if |f| > at + 1 && f[at + 1] != MESSAGE { return Invalid; }
    if |f| > at + 2 && (f[at + 2] == 0 || f[at + 2] > PACK_MAX) { return Invalid; }
    if |f| > at + 3 && f[at + 3] / 16 > OPERATOR_ID { return Invalid; }
    v := Outside;
  }

  /** The pack's size against the room it is given, then its decoding. */
  method ReceivePack(f: seq<byte>, len: nat) returns (v: Verdict)
    requires HeadersOk(f) && len == 43 && |f| > PACK_AT + 2
    ensures v == Receive(f)
  {
    var size := 3 + MESSAGE * f[len + 3];
    if size > (|f| - len - EXTENSION) % 0x1_0000_0000 { return Invalid; }
    if len + 1 + size > |f| {
      v := JudgeCutOff(f, len + 1);
    } else {
      var decoded, uas := ReadPack(f, len + 1);
      v := JudgeFrame(f, size, uas, decoded);
    }
  }

  /** Walks the headers, has the pack decoded into fresh data, then checks the lengths stated and the trailer. */
  method ReceiveFrame(f: seq<byte>) returns (v: Verdict)
    ensures v == Receive(f)
  {
    var ok, len := ReadHeaders(f);
    if !ok { return Invalid; }
    if |f| <= len + 1 + 2 {
      v := JudgeCutOff(f, len + 1);
    } else {
      v := ReceivePack(f, len);
    }
  }

  // ------------------------------------------------------------------
  // The builder
  // ------------------------------------------------------------------

  /** A further message behind those collected, or the failure of the whole pack. */
  method AddMessage(acc: seq<seq<byte>>, valid: bool, enc: Option<seq<byte>>) returns (ok: bool, more: seq<seq<byte>>)
    ensures (if ok then Some(more) else None) == Put(Some(acc), valid, enc)
  {
    ok, more := true, acc;
    if valid {
      if |acc| >= PACK_MAX { return false, acc; }
      if enc.Some? { more := acc + [enc.value]; }
    }
  }

  method CollectBasic(u: Uas) returns (ok: bool, msgs: seq<seq<byte>>)
    requires Typed(u)
    ensures (if ok then Some(msgs) else None) == GatherBasic(u, BASIC_IDS)
  {
    ok, msgs := true, [];
    for i := 0 to BASIC_IDS
      invariant ok && GatherBasic(u, i) == Some(msgs)
    {
      assert GatherBasic(u, i + 1) == Put(Some(msgs), u.basicValid[i], TryBasic(u.basic[i]));
      ok, msgs := AddMessage(msgs, u.basicValid[i], TryBasic(u.basic[i]));
      if !ok {
        StaysFailed(u, i + 1);
        return;
      }
    }
  }

  lemma {:induction false} StaysFailed(u: Uas, i: nat)
    requires Typed(u) && i <= BASIC_IDS && GatherBasic(u, i).None?
    ensures GatherBasic(u, BASIC_IDS).None?
    decreases BASIC_IDS - i
  {
    if i < BASIC_IDS {
      assert GatherBasic(u, i + 1).None?;
      StaysFailed(u, i + 1);
    }
  }

  lemma {:induction false} PagesStayFailed(u: Uas, i: nat)
    requires Typed(u) && i <= AUTH_PAGES && GatherAuth(u, i).None?
    ensures GatherAuth(u, AUTH_PAGES).None?
    decreases AUTH_PAGES - i
  {
    if i < AUTH_PAGES {
      assert GatherAuth(u, i + 1).None?;
      PagesStayFailed(u, i + 1);
    }
  }

  method CollectAuth(u: Uas) returns (ok: bool, msgs: seq<seq<byte>>)
    requires Typed(u)
    ensures (if ok then Some(msgs) else None) == GatherAuth(u, AUTH_PAGES)
  {
    ok, msgs := CollectBasic(u);
    if ok { ok, msgs := AddMessage(msgs, u.locationValid, TryLocation(u.location)); }
    if !ok {
      PagesStayFailed(u, 0);
      return;
    }
    for i := 0 to AUTH_PAGES
      invariant ok && GatherAuth(u, i) == Some(msgs)
    {
      ok, msgs := AddMessage(msgs, u.authValid[i], TryAuth(u.auth[i]));
      if !ok {
        PagesStayFailed(u, i + 1);
        return;
      }
    }
  }

  method Collect(u: Uas) returns (ok: bool, msgs: seq<seq<byte>>)
    requires Typed(u)
    ensures (if ok then Some(msgs) else None) == Gather(u)
  {
    ok, msgs := CollectAuth(u);
    if ok { ok, msgs := AddMessage(msgs, u.selfIdValid, TrySelfId(u.selfId)); }
    if ok { ok, msgs := AddMessage(msgs, u.systemValid, TrySystem(u.system)); }
    if ok { ok, msgs := AddMessage(msgs, u.operatorIdValid, TryOperatorId(u.operatorId)); }
  }

  /** Copies bytes into the buffer. */
  method Write(buf: array<byte>, at: nat, bytes: seq<byte>)
    requires at + |bytes| <= buf.Length
    modifies buf
    ensures buf[..] == Overwrite(old(buf[..]), at, bytes)
  {
    for i := 0 to |bytes|
      invariant forall k :: 0 <= k < buf.Length ==> buf[k] == if at <= k < at + i then bytes[k - at] else old(buf[k])
    {
      buf[at + i] := bytes[i];
    }
  }

  /** The pack's size, once written at the cursor, or an error code. */
  ghost function PackResult(u: Uas, room: int): int
    requires Typed(u)
  {
    if Gather(u).None? || Gather(u).value == [] then EINVAL
    else if 3 + MESSAGE * |Gather(u).value| > room then ENOMEM
    else 3 + MESSAGE * |Gather(u).value|
  }

  ghost function BuildResult(u: Uas, room: int): int
    requires Typed(u)
  {
    if room < PACK_AT then ENOMEM
    else if PackResult(u, room - PACK_AT) < 0 then PackResult(u, room - PACK_AT)
    else if PACK_AT + PackResult(u, room - PACK_AT) + EXTENSION > room then ENOMEM
    else PACK_AT + PackResult(u, room - PACK_AT) + EXTENSION
  }

  method BuildPack(u: Uas, buf: array<byte>, at: nat) returns (ret: int)
    requires Typed(u) && at <= buf.Length
    modifies buf
    ensures ret == PackResult(u, buf.Length - at)
    ensures ret < 0 ==> buf[..] == old(buf[..])
    ensures ret >= 0 ==> && |Gather(u).value| <= PACK_MAX && |PackBytes(Gather(u).value)| == ret <= buf.Length - at
                         && buf[..] == Overwrite(old(buf[..]), at, PackBytes(Gather(u).value))
  {
    var ok, msgs := Collect(u);
    if !ok || msgs == [] { return EINVAL; }
    var size := 3 + MESSAGE * |msgs|;
    if size > buf.Length - at { return ENOMEM; }
    GatheredBounded(u);
    ConcatSized(msgs);
    var all := Concat(msgs);
    assert all[0..MESSAGE * |msgs|] == all;
    MessagesInMemory(all, 0, msgs);
    AllowedIsContent(all, 0, msgs);
    ok := CheckContent(all, 0, |msgs|);
    assert ok;
    Write(buf, at, PackBytes(msgs));
    ret := size;
  }

  lemma OverwriteParts(s: seq<byte>, at: nat, d: seq<byte>)
    requires at + |d| <= |s|
    ensures var r := Overwrite(s, at, d);
            r[..at] == s[..at] && r[at..at + |d|] == d && r[at + |d|..] == s[at + |d|..]
  {
  }

  /** What both ends of the descriptor hold before the lengths between them are known. */
  ghost predicate Framed(b: seq<byte>, mac: seq<byte>, counter: byte)
    requires |mac| == 6
  {
    && |b| >= PACK_AT && b[..24] == MgmtHeader(mac) && b[24..30] == Discovery()
    && b[30] == 0x03 && b[33..42] == SERVICE + [0x01, 0x00, 0x10] && b[43] == counter
  }

  method WriteHeaders(buf: array<byte>, mac: seq<byte>, counter: byte)
    requires |mac| == 6 && buf.Length >= PACK_AT
    modifies buf
    ensures Framed(buf[..], mac, counter)
  {
    Write(buf, 0, MgmtHeader(mac));
    OverwriteParts(old(buf[..]), 0, MgmtHeader(mac));
    ghost var b1 := buf[..];
    Write(buf, 24, Discovery());
    OverwriteParts(b1, 24, Discovery());
    ghost var b2 := buf[..];
    assert b2[..24] == b1[..24] && b2[24..30] == Discovery();
    buf[30] := 0x03;
    Write(buf, 33, SERVICE + [0x01, 0x00, 0x10]);
    buf[43] := counter;
    assert buf[..24] == b2[..24] && buf[24..30] == b2[24..30];
  }

  /** The lengths are filled in once the pack's size is known. */
  method WriteLengths(buf: array<byte>, info: byte)
    requires buf.Length >= PACK_AT && buf[30] == 0x03 && buf[33..42] == SERVICE + [0x01, 0x00, 0x10]
    modifies buf
    ensures buf[30..43] == Descriptor(info)
    ensures forall k :: 0 <= k < buf.Length && !(30 <= k < 43) ==> buf[k] == old(buf[k])
  {
    var l := ToLe16(10 + info);
    buf[42], buf[31], buf[32] := info, l[0], l[1];
    var d := Descriptor(info);
    assert d == [0x03] + l + (SERVICE + [0x01, 0x00, 0x10]) + [info];
    assert buf[30..43] == [buf[30]] + buf[31..33] + buf[33..42] + [buf[42]];
  }

  lemma Joined(b: seq<byte>, k1: nat, k2: nat, k3: nat, k4: nat, k5: nat)
    requires k1 <= k2 <= k3 <= k4 <= k5 <= |b|
    ensures b[..k5] == b[..k1] + b[k1..k2] + b[k2..k3] + b[k3..k4] + b[k4..k5]
  {
    assert b[..k2] == b[..k1] + b[k1..k2];
    assert b[..k3] == b[..k2] + b[k2..k3];
    assert b[..k4] == b[..k3] + b[k3..k4];
    assert b[..k5] == b[..k4] + b[k4..k5];
  }

  lemma FrameComplete(b: seq<byte>, mac: seq<byte>, counter: byte, msgs: seq<seq<byte>>)
    requires |mac| == 6 && |msgs| <= PACK_MAX && Sized(msgs)
    requires var n := MESSAGE * |msgs|;
             && |b| >= 54 + n && b[..24] == MgmtHeader(mac) && b[24..30] == Discovery()
             && b[30..43] == Descriptor(4 + n)
             && b[43] == counter && b[44..47 + n] == PackBytes(msgs) && b[47 + n..54 + n] == Extension(counter)
    ensures b[..54 + MESSAGE * |msgs|] == FrameBytes(mac, counter, msgs)
  {
    var n := MESSAGE * |msgs|;
    assert b[43..47 + n] == [b[43]] + b[44..47 + n];
    Joined(b, 24, 30, 43, 47 + n, 54 + n);
  }

  /** The lengths and the trailer, around a pack already written. */
  method FinishFrame(buf: array<byte>, mac: seq<byte>, counter: byte, size: nat, ghost msgs: seq<seq<byte>>)
    returns (ret: int)
    requires |mac| == 6 && |msgs| <= PACK_MAX && Sized(msgs) && size == 3 + MESSAGE * |msgs| <= buf.Length - PACK_AT
    requires Framed(buf[..], mac, counter) && buf[44..44 + size] == PackBytes(msgs)
    modifies buf
    ensures ret == if PACK_AT + size + EXTENSION > buf.Length then ENOMEM else PACK_AT + size + EXTENSION
    ensures ret >= 0 ==> buf[..ret] == FrameBytes(mac, counter, msgs)
  {
    ghost var b2 := buf[..];
    assert buf[33..42] == b2[33..42];
    WriteLengths(buf, 1 + size);
    if PACK_AT + size + EXTENSION > buf.Length { return ENOMEM; }
    ghost var b3 := buf[..];
    OutsideKept(b2, b3, 44 + size);
    Write(buf, PACK_AT + size, Extension(counter));
    OverwriteParts(b3, PACK_AT + size, Extension(counter));
    ret := PACK_AT + size + EXTENSION;
    ghost var b := buf[..];
    PrefixParts(b3, b, PACK_AT + size);
    FrameComplete(b, mac, counter, msgs);
    assert buf[..ret] == b[..ret];
  }

  lemma OutsideKept(b2: seq<byte>, b3: seq<byte>, end: nat)
    requires 44 <= end <= |b2| == |b3|
    requires forall k :: 0 <= k < |b2| && !(30 <= k < 43) ==> b3[k] == b2[k]
    ensures b3[..24] == b2[..24] && b3[24..30] == b2[24..30] && b3[43] == b2[43] && b3[44..end] == b2[44..end]
  {
  }

  lemma PrefixParts(b3: seq<byte>, b: seq<byte>, end: nat)
    requires PACK_AT <= end <= |b3| == |b| && b[..end] == b3[..end]
    ensures b[..24] == b3[..24] && b[24..30] == b3[24..30] && b[30..43] == b3[30..43] && b[43] == b3[43]
        && b[44..end] == b3[44..end]
  {
    SliceOfSlice(b, 0, end, 0, 24);
    SliceOfSlice(b3, 0, end, 0, 24);
    SliceOfSlice(b, 0, end, 24, 30);
    SliceOfSlice(b3, 0, end, 24, 30);
    SliceOfSlice(b, 0, end, 30, 43);
    SliceOfSlice(b3, 0, end, 30, 43);
    SliceOfSlice(b, 0, end, 44, end);
    SliceOfSlice(b3, 0, end, 44, end);
    assert b[43] == b[..end][43] == b3[..end][43];
  }

  /** The builder: the frame's length with the frame in the buffer, or why it could not be built. */
  method BuildFrame(u: Uas, mac: seq<byte>, counter: byte, buf: array<byte>) returns (ret: int)
    requires Typed(u) && |mac| == 6
    modifies buf
    ensures ret == BuildResult(u, buf.Length)
    ensures ret >= 0 ==> |Gather(u).value| <= PACK_MAX && ret <= buf.Length
                         && buf[..ret] == FrameBytes(mac, counter, Gather(u).value)
  {
    if buf.Length < PACK_AT { return ENOMEM; }
    WriteHeaders(buf, mac, counter);
    ghost var b1 := buf[..];
    var size := BuildPack(u, buf, PACK_AT);
    if size < 0 { return size; }
    ghost var msgs := Gather(u).value;
    OverwriteParts(b1, PACK_AT, PackBytes(msgs));
    StillFramed(b1, buf[..], mac, counter);
    GatheredBounded(u);
    ret := FinishFrame(buf, mac, counter, size, msgs);
  }

  lemma StillFramed(b1: seq<byte>, b2: seq<byte>, mac: seq<byte>, counter: byte)
    requires |mac| == 6 && Framed(b1, mac, counter) && |b2| == |b1| && b2[..PACK_AT] == b1[..PACK_AT]
    ensures Framed(b2, mac, counter)
  {
    SliceOfSlice(b1, 0, PACK_AT, 0, 24);
    SliceOfSlice(b2, 0, PACK_AT, 0, 24);
    SliceOfSlice(b1, 0, PACK_AT, 24, 30);
    SliceOfSlice(b2, 0, PACK_AT, 24, 30);
    SliceOfSlice(b1, 0, PACK_AT, 33, 42);
    SliceOfSlice(b2, 0, PACK_AT, 33, 42);
    assert b2[30] == b2[..PACK_AT][30] == b1[30] && b2[43] == b2[..PACK_AT][43] == b1[43];
  }

  /** What one program builds the other accepts: the two methods, put together. */
  method Exchange(u: Uas, mac: seq<byte>, counter: byte, room: nat) returns (v: Verdict)
    requires Typed(u) && Distinguishable(u) && |mac| == 6
    requires Gather(u).Some? && Gather(u).value != [] && room >= 54 + MESSAGE * |Gather(u).value|
    ensures v.Accepted? && v.mac == mac && Shaped(v.uas) && Received(u, v.uas)
  {
    var buf := new byte[room](_ => 0);
    var len := BuildFrame(u, mac, counter, buf);
    NanRoundTrip(u, mac, counter);
    v := ReceiveFrame(buf[..len]);
  }
}
