/**
 * The drone messages as another receiver reads them: where each field stands
 * on the wire and in what unit, for the six messages of section 5.4.5 of ASTM
 * F3411-22a, the pack, and the frame that carries it.
 */
module OdidWire {
  import opened Bytes
  import opened OdidQuant
  import opened OdidMessages
  import opened OdidControl
  import opened OdidPack
  import opened NanFrame

  /** Words on the wire have their lowest byte first. */
  function Unsigned32(m: seq<byte>, i: nat): nat
    requires i + 4 <= |m|
  {
    var a: nat, b: nat, c: nat, d: nat := m[i], m[i + 1], m[i + 2], m[i + 3];
    a + 256 * b + 65536 * c + 16777216 * d
  }

  function Signed32(m: seq<byte>, i: nat): int
    requires i + 4 <= |m|
  {
    var n := Unsigned32(m, i);
    if n >= 0x8000_0000 then n - 0x1_0000_0000 else n
  }

  function Unsigned16(m: seq<byte>, i: nat): nat
    requires i + 2 <= |m|
  {
    var a: nat, b: nat := m[i], m[i + 1];
    a + 256 * b
  }

  function Signed8(b: byte): int { if b >= 128 then b - 256 else b }

  /** Degrees in ten-millionths. */
  ghost predicate Degrees(m: seq<byte>, i: nat, x: real)
    requires i + 4 <= |m|
  {
    Abs(Signed32(m, i) as real / 10000000.0 - x) < 0.0000001
  }

  /** Metres in halves, from a thousand below zero. */
  ghost predicate Metres(m: seq<byte>, i: nat, x: real)
    requires i + 2 <= |m|
  {
    0.0 <= x - (Unsigned16(m, i) as real / 2.0 - 1000.0) < 0.5
  }

  lemma BasicIdOnTheWire(d: BasicId)
    requires BasicIdTyped(d) && BasicIdOk(d)
    ensures var m := EncodeBasicId(d);
            && |m| == 25 && m[0] == 0x02 && m[1] / 16 == d.idType && m[1] % 16 == d.uaType
            && m[2..22] == Padded(d.uasId, 20) && m[22..] == [0, 0, 0]
  {
  }

  lemma LocationFlagsOnTheWire(d: Location)
    requires LocationOk(d)
    ensures var m := EncodeLocation(d);
            && |m| == 25 && m[0] == 0x12 && m[1] / 16 == d.status && m[1] / 4 % 2 == d.heightType
            && m[1] / 2 % 2 == EncodeDirection(d.direction).1 && m[1] % 2 == EncodeSpeed(d.speed).1
            && m[19] % 16 == d.horizAcc && m[19] / 16 == d.vertAcc && m[20] % 16 == d.speedAcc
            && m[20] / 16 == d.baroAcc && m[23] % 16 == d.timeAcc && m[24] == 0
  {
    LocationFlags(d);
    LocationTail(d);
    FlagBits(EncodeSpeed(d.speed).1, EncodeDirection(d.direction).1, d.heightType, d.status);
    Nibbles(d.horizAcc, d.vertAcc);
    Nibbles(d.speedAcc, d.baroAcc);
    Nibbles(d.timeAcc, 0);
  }

  lemma SignedIs(m: seq<byte>, i: nat)
    requires i + 4 <= |m|
    ensures Signed32(m, i) == FromU32(Le32(m[i], m[i + 1], m[i + 2], m[i + 3]))
  {
  }

  lemma DegreesSent(m: seq<byte>, i: nat, x: real)
    requires i + 4 <= |m| && LatLonOk(x)
    requires FromU32(Le32(m[i], m[i + 1], m[i + 2], m[i + 3])) == EncodeLatLon(x)
    ensures Degrees(m, i, x)
  {
    SignedIs(m, i);
    LatLonBound(x);
  }

  lemma MetresSent(m: seq<byte>, i: nat, x: real)
    requires i + 2 <= |m| && AltitudeOk(x) && Le16(m[i], m[i + 1]) == EncodeAltitude(x)
    ensures Metres(m, i, x)
  {
    AltitudeBound(x);
  }

  /**
   * Where the measured fields of a location stand: a direction in degrees below and from 180, a speed in quarters
   * or, beyond 63.75 m/s, in three quarters of a metre per second, a climb in halves, and tenths of a second.
   */
  lemma LocationOnTheWire(d: Location)
    requires LocationOk(d)
    ensures var m := EncodeLocation(d);
            && |m| == 25
            && Abs(m[2] as real + 180.0 * (m[1] / 2 % 2) as real - d.direction) <= 0.5
            && (m[1] % 2 == 1 <==> d.speed > 63.75)
            && (m[1] % 2 == 0 ==> 0.0 <= d.speed - m[3] as real * 0.25 < 0.25)
            && (m[1] % 2 == 1 ==> 0.0 <= d.speed - (m[3] as real * 0.75 + 63.75) < 0.75)
            && Abs(Signed8(m[4]) as real * 0.5 - d.climb) < 0.5
            && Degrees(m, 5, d.lat) && Degrees(m, 9, d.lon)
            && Metres(m, 13, d.altBaro) && Metres(m, 15, d.altGeo) && Metres(m, 17, d.height)
            && (if Unsigned16(m, 21) == 0xFFFF then d.time == 65535.0
                else Abs(Unsigned16(m, 21) as real / 10.0 - d.time) <= 0.05)
  {
    var m := EncodeLocation(d);
    LocationFlagsOnTheWire(d);
    LocationBytes(d);
    LocationWords(d);
    DirectionBound(d.direction);
    SpeedBound(d.speed);
    VSpeedBound(d.climb);
    DegreesSent(m, 5, d.lat);
    DegreesSent(m, 9, d.lon);
    MetresSent(m, 13, d.altBaro);
    MetresSent(m, 15, d.altGeo);
    MetresSent(m, 17, d.height);
    TimeBound(d.time);
  }

  lemma AuthOnTheWire(d: Auth)
    requires AuthTyped(d) && AuthOk(d)
    ensures var m := EncodeAuth(d);
            && |m| == 25 && m[0] == 0x22 && m[1] % 16 == d.page && m[1] / 16 == d.authType
            && (if d.page == 0 then
                  && m[2] == d.lastPage && m[3] == d.length
                  && Unsigned32(m, 4) == d.timestamp && m[8..] == d.data[..17]
                else m[2..] == d.data[..23])
  {
    var m := EncodeAuth(d);
    if d.page == 0 {
      var t := ToLe32(d.timestamp);
      assert m[4] == t[0] && m[5] == t[1] && m[6] == t[2] && m[7] == t[3];
    }
  }

  lemma SelfIdOnTheWire(d: SelfId)
    requires SelfIdTyped(d) && SelfIdOk(d)
    ensures var m := EncodeSelfId(d);
            |m| == 25 && m[0] == 0x32 && m[1] == d.descType && m[2..] == Padded(d.desc, 23)
  {
  }

  lemma SystemOnTheWire(d: System)
    requires SystemTyped(d) && SystemOk(d)
    ensures var m := EncodeSystem(d);
            && |m| == 25 && m[0] == 0x42 && m[1] % 4 == d.placeType && m[1] / 4 % 8 == d.classification
            && Degrees(m, 2, d.lat) && Degrees(m, 6, d.lon)
            && Unsigned16(m, 10) == d.areaCount && m[12] == d.areaRadius / 10
            && Metres(m, 13, d.ceiling) && Metres(m, 15, d.floor) && m[17] / 16 == d.category && m[17] % 16 == d.class_
            && Metres(m, 18, d.altGeo)
            && Unsigned32(m, 20) == d.timestamp && m[24] == 0
  {
    var m := EncodeSystem(d);
    SystemBytes(d);
    SystemWords(d);
    PlaceBits(d.placeType, d.classification);
    Nibbles(d.class_, d.category);
    DegreesSent(m, 2, d.lat);
    DegreesSent(m, 6, d.lon);
    MetresSent(m, 13, d.ceiling);
    MetresSent(m, 15, d.floor);
    MetresSent(m, 18, d.altGeo);
  }

  lemma OperatorIdOnTheWire(d: OperatorId)
    requires OperatorIdTyped(d) && OperatorIdOk(d)
    ensures var m := EncodeOperatorId(d);
            && |m| == 25 && m[0] == 0x52 && m[1] == d.idType && m[2..22] == Padded(d.id, 20) && m[22..] == [0, 0, 0]
  {
  }

  // ------------------------------------------------------------------
  // The frame
  // ------------------------------------------------------------------

  /** An action frame to the network's address, from the sender, of the default cluster. */
  function Header80211(mac: seq<byte>): seq<byte> {
    [0xD0, 0, 0, 0, 0x51, 0x6F, 0x9A, 0x01, 0x00, 0x00] + mac + [0x50, 0x6F, 0x9A, 0x01, 0x00, 0xFF, 0, 0]
  }

  /** A public action of the Wi-Fi Alliance. */
  const PUBLIC_ACTION: seq<byte> := [0x04, 0x09, 0x50, 0x6F, 0x9A, 0x13]

  /** The descriptor of the service, ten bytes and the information, whose length comes last. */
  function ServiceDescriptor(n: byte): seq<byte>
    requires n <= 229
  {
    [0x03, 10 + n, 0, 0x88, 0x69, 0x19, 0x9D, 0x92, 0x09, 0x01, 0x00, 0x10, n]
  }

  function PackHead(n: byte): seq<byte> { [0xF2, 25, n] }

  function Trailer(counter: byte): seq<byte> { [0x0E, 0x04, 0x00, 0x01, 0x00, 0x02, counter] }

  /** A frame, part by part: whom it is addressed to, what it announces, a counter, the pack, and the trailer. */
  ghost predicate Standard(f: seq<byte>, mac: seq<byte>, counter: byte, n: nat, pack: seq<byte>) {
    && n <= 9 && |f| == 54 + 25 * n && f[..24] == Header80211(mac) && f[24..30] == PUBLIC_ACTION
    && f[30..43] == ServiceDescriptor(4 + 25 * n) && f[43] == counter && f[44..47] == PackHead(n)
    && f[47..47 + 25 * n] == pack && f[47 + 25 * n..] == Trailer(counter)
  }

  /** The same parts as the builder names them. */
  ghost predicate Built(f: seq<byte>, mac: seq<byte>, counter: byte, n: nat, pack: seq<byte>) {
    && n <= 9 && |mac| == 6 && |f| == 54 + 25 * n && f[..24] == MgmtHeader(mac) && f[24..30] == Discovery()
    && f[30..43] == Descriptor(4 + 25 * n) && f[43] == counter && f[44..47] == [Head(PACKED), MESSAGE, n]
    && f[47..47 + 25 * n] == pack && f[47 + 25 * n..] == Extension(counter)
  }

  lemma BuiltIsStandard(f: seq<byte>, mac: seq<byte>, counter: byte, n: nat, pack: seq<byte>)
    requires Built(f, mac, counter, n, pack)
    ensures Standard(f, mac, counter, n, pack)
  {
    MgmtOnTheWire(mac);
    DescriptorOnTheWire(4 + 25 * n);
  }

  lemma FrameIsBuilt(mac: seq<byte>, counter: byte, msgs: seq<seq<byte>>) returns (f: seq<byte>)
    requires |mac| == 6 && |msgs| <= 9 && forall x :: x in msgs ==> |x| == 25
    ensures f == FrameBytes(mac, counter, msgs) && Built(f, mac, counter, |msgs|, Concat(msgs))
  {
    FrameParts(mac, counter, msgs);
    CounterOnTheWire(mac, counter, msgs);
    f := FrameBytes(mac, counter, msgs);
  }

  lemma FrameOnTheWire(mac: seq<byte>, counter: byte, msgs: seq<seq<byte>>) returns (f: seq<byte>)
    requires |mac| == 6 && |msgs| <= 9 && forall x :: x in msgs ==> |x| == 25
    ensures f == FrameBytes(mac, counter, msgs) && Standard(f, mac, counter, |msgs|, Concat(msgs))
  {
    f := FrameIsBuilt(mac, counter, msgs);
    BuiltIsStandard(f, mac, counter, |msgs|, Concat(msgs));
  }

  lemma CounterOnTheWire(mac: seq<byte>, counter: byte, msgs: seq<seq<byte>>)
    requires |mac| == 6 && |msgs| <= 9
    ensures |FrameBytes(mac, counter, msgs)| > 43 && FrameBytes(mac, counter, msgs)[43] == counter
  {
  }

  lemma MgmtOnTheWire(mac: seq<byte>)
    requires |mac| == 6
    ensures MgmtHeader(mac) == Header80211(mac) && Discovery() == PUBLIC_ACTION
  {
  }

  lemma DescriptorOnTheWire(n: byte)
    requires n <= 229
    ensures Descriptor(n) == ServiceDescriptor(n)
  {
  }

  // ------------------------------------------------------------------
  // What a receiver takes
  // ------------------------------------------------------------------

  /** A frame that carries a pack of `n` messages as it should; what is not tested is left open. */
  predicate Carries(f: seq<byte>, n: nat) {
    && |f| >= 54 + 25 * n
    && f[0] / 4 == 52 && f[4..10] == [0x51, 0x6F, 0x9A, 0x01, 0x00, 0x00]
    && f[24] == 0x04 && f[25] == 0x09 && f[26..29] == [0x50, 0x6F, 0x9A] && f[29] == 0x13
    && f[30] == 0x03 && Unsigned16(f, 31) == 14 + 25 * n
    && f[33..39] == [0x88, 0x69, 0x19, 0x9D, 0x92, 0x09] && f[39] == 0x01 && f[41] == 0x10 && f[42] == 4 + 25 * n
    && f[44] / 16 == 15 && f[45] == 25 && f[46] == n
    && var t := f[47 + 25 * n..];
       t[0] == 0x0E && t[1] == 4 && t[2] == 0 && t[3] == 0x01 && t[4] == 0x00 && t[5] == 0x02
  }

  lemma TrailerExactly(f: seq<byte>, at: nat)
    requires at + 7 <= |f|
    ensures ExtensionOk(f, at) <==>
            var t := f[at..]; t[0] == 0x0E && t[1] == 4 && t[2] == 0 && t[3] == 0x01 && t[4] == 0x00 && t[5] == 0x02
  {
    var t := f[at..];
    assert f[at] == t[0] && f[at + 1] == t[1] && f[at + 2] == t[2] && f[at + 3] == t[3] && f[at + 4] == t[4]
        && f[at + 5] == t[5];
  }

  lemma HeadersExactly(f: seq<byte>)
    requires |f| >= 54
    ensures HeadersOk(f) <==>
              && f[0] / 4 == 52 && f[4..10] == [0x51, 0x6F, 0x9A, 0x01, 0x00, 0x00]
              && f[24] == 0x04 && f[25] == 0x09 && f[26..29] == [0x50, 0x6F, 0x9A] && f[29] == 0x13
              && f[30] == 0x03 && f[33..39] == [0x88, 0x69, 0x19, 0x9D, 0x92, 0x09] && f[39] == 0x01 && f[41] == 0x10
  {
  }

  lemma ShortIsRefused(f: seq<byte>)
    requires |f| < 50
    ensures !Receive(f).Accepted?
  {
    if 43 <= |f| { assert Room(|f|) == 0x1_0000_0000 + |f| - 50; }
  }

  lemma JudgedOnPack(f: seq<byte>)
    requires 50 <= |f| < 0x1_0000_0000 && HeadersOk(f)
    ensures PackSize(f) <= |f| - 50 ==>
              var d := DecodePackAt(DecodeOne, Init(), f, 44);
              Receive(f) == Judge(f, d.0, d.1)
    ensures PackSize(f) > |f| - 50 ==> Receive(f) == Invalid
  {
    assert Room(|f|) == |f| - 50;
  }

  /** The pack and the trailer lie in the frame, and the lengths stated before them are right. */
  predicate Encloses(f: seq<byte>) {
    |f| >= 50 && PackSize(f) + 51 <= |f| && LengthsOk(f) && ExtensionOk(f, 44 + PackSize(f))
  }

  lemma JudgeExactly(f: seq<byte>, u: Uas, ok: bool)
    requires 50 <= |f|
    ensures Judge(f, u, ok).Accepted? <==> ok && Encloses(f)
    ensures Judge(f, u, ok).Accepted? ==> Judge(f, u, ok) == Accepted(f[10..16], u)
  {
  }

  lemma LengthsExactly(f: seq<byte>)
    requires |f| >= 54
    ensures LengthsOk(f) <==> f[42] == 4 + 25 * (f[46] as int) && Unsigned16(f, 31) == 14 + 25 * (f[46] as int)
  {
  }

  lemma CarriesExactly(f: seq<byte>)
    requires |f| >= 54 && f[46] <= 9
    ensures Carries(f, f[46]) <==>
              HeadersOk(f) && Encloses(f) && f[44] / 16 == PACKED && f[45] == MESSAGE
  {
    HeadersExactly(f);
    LengthsExactly(f);
    if 54 + 25 * (f[46] as int) <= |f| { TrailerExactly(f, 44 + PackSize(f)); }
  }

  predicate Sound(f: seq<byte>) {
    HeadersOk(f) && Encloses(f) && f[44] / 16 == PACKED && f[45] == MESSAGE && ContentOk(f, 47, f[46])
  }

  lemma AcceptsSound(f: seq<byte>)
    requires |f| < 0x1_0000_0000
    ensures Receive(f).Accepted? <==> Sound(f)
    ensures Sound(f) ==> Receive(f) == Accepted(f[10..16], Fold(DecodeOne, Init(), MessagesAt(f, 47, f[46])))
  {
    if |f| < 50 {
      ShortIsRefused(f);
    } else if HeadersOk(f) {
      JudgedOnPack(f);
      if PackSize(f) <= |f| - 50 {
        var d := DecodePackAt(DecodeOne, Init(), f, 44);
        JudgeExactly(f, d.0, d.1);
        PackIsFold(DecodeOne, Init(), f, 44);
      }
    }
  }

  lemma SoundExactly(f: seq<byte>)
    ensures Sound(f) <==> |f| >= 54 && f[46] <= 9 && Carries(f, f[46]) && ContentOk(f, 47, f[46])
  {
    if |f| >= 54 && f[46] <= 9 { CarriesExactly(f); }
  }

  /**
   * The receiver accepts exactly the frames that carry, as they should, a pack whose messages pass the content
   * check, and then reports the sender and the messages decoded one after the other.
   */
  lemma AcceptsExactly(f: seq<byte>)
    requires |f| < 0x1_0000_0000
    ensures Receive(f).Accepted? <==> |f| >= 54 && f[46] <= 9 && Carries(f, f[46]) && ContentOk(f, 47, f[46])
    ensures Receive(f).Accepted? ==>
              && |f| >= 54 && Carries(f, f[46])
              && Receive(f) == Accepted(f[10..16], Fold(DecodeOne, Init(), MessagesAt(f, 47, f[46])))
  {
    AcceptsSound(f);
    SoundExactly(f);
  }

  /** An identification goes to the first slot that is empty or of its type, and is refused if neither is. */
  lemma IdentificationKept(u: Uas, m: seq<byte>)
    requires Shaped(u) && |m| == 25 && m[0] / 16 == 0
    ensures var d, r := DecodeBasicId(m), DecodeOne(u, m);
            if u.basic[0].idType in {0, m[1] / 16}
            then r == (u.(basic := u.basic[0 := d], basicValid := u.basicValid[0 := true]), Some(0))
            else if u.basic[1].idType in {0, m[1] / 16}
            then r == (u.(basic := u.basic[1 := d], basicValid := u.basicValid[1 := true]), Some(0))
            else r == (u, None)
  {
  }

  /** A page is kept under its number, unless it is page 0 and claims more than sixteen pages or their bytes. */
  lemma PageKeptExactly(u: Uas, m: seq<byte>)
    requires Shaped(u) && |m| == 25 && m[0] / 16 == 2
    ensures var page, r := m[1] % 16, DecodeOne(u, m);
            if page == 0 && (m[2] >= 16 || m[3] > 17 + 23 * (m[2] as int)) then r == (u, None)
            else
              && r.1 == Some(2) && r.0.authValid == u.authValid[page := true]
              && r.0 == u.(auth := r.0.auth, authValid := r.0.authValid)
              && r.0.auth == u.auth[page := r.0.auth[page]]
  {
  }

  /** One case has an answer of its own: a frame that ends one byte before its trailer does. */
  lemma NoMemoryExactly(f: seq<byte>)
    requires |f| < 0x1_0000_0000
    ensures Receive(f) == NoMemory <==>
            && |f| >= 53 && |f| == 53 + 25 * (f[46] as int) && HeadersOk(f) && LengthsOk(f)
            && f[44] / 16 == 15 && f[45] == 25 && ContentOk(f, 47, f[46])
  {
    if |f| < 50 {
      if 43 <= |f| { assert Room(|f|) == 0x1_0000_0000 + |f| - 50; }
    } else if HeadersOk(f) {
      JudgedOnPack(f);
    }
  }

  // ------------------------------------------------------------------
  // Which parts are built into a pack
  // ------------------------------------------------------------------

  /** A part of the data: whether it is valid, and its message, if it can be encoded. */
  datatype Part = Part(valid: bool, enc: Option<seq<byte>>)

  /** The 22 parts in the order they are taken: two ids, the location, sixteen pages, and the other three. */
  ghost function PartAt(u: Uas, k: nat): Part
    requires Typed(u) && k < 22
  {
    if k < 2 then Part(u.basicValid[k], TryBasic(u.basic[k]))
    else if k == 2 then Part(u.locationValid, TryLocation(u.location))
    else if k < 19 then Part(u.authValid[k - 3], TryAuth(u.auth[k - 3]))
    else if k == 19 then Part(u.selfIdValid, TrySelfId(u.selfId))
    else if k == 20 then Part(u.systemValid, TrySystem(u.system))
    else Part(u.operatorIdValid, TryOperatorId(u.operatorId))
  }

  /** The messages of the valid ones of the first `n` parts that can be encoded. */
  ghost function Encodable(u: Uas, n: nat): seq<seq<byte>>
    requires Typed(u) && n <= 22
  {
    if n == 0 then []
    else
      var p := PartAt(u, n - 1);
      Encodable(u, n - 1) + if p.valid && p.enc.Some? then [p.enc.value] else []
  }

  /** What the builder has after the first `n` parts. */
  ghost function Putting(u: Uas, n: nat): Option<seq<seq<byte>>>
    requires Typed(u) && n <= 22
  {
    if n == 0 then Some([]) else Put(Putting(u, n - 1), PartAt(u, n - 1).valid, PartAt(u, n - 1).enc)
  }

  ghost predicate Finds9(u: Uas, n: nat)
    requires Typed(u) && n <= 22
  {
    exists k :: 0 <= k < n && PartAt(u, k).valid && |Encodable(u, k)| >= 9
  }

  lemma FindsNext(u: Uas, n: nat)
    requires Typed(u) && n < 22
    ensures Finds9(u, n + 1) <==> Finds9(u, n) || (PartAt(u, n).valid && |Encodable(u, n)| >= 9)
  {
  }

  lemma PutNext(es: seq<seq<byte>>, p: Part)
    ensures Put(Some(es), p.valid, p.enc)
            == if p.valid && |es| >= 9 then None else Some(es + if p.valid && p.enc.Some? then [p.enc.value] else [])
  {
    assert es + [] == es;
  }

  lemma {:induction false} PuttingExactly(u: Uas, n: nat)
    requires Typed(u) && n <= 22
    ensures Putting(u, n) == if Finds9(u, n) then None else Some(Encodable(u, n))
  {
    if n > 0 {
      PuttingExactly(u, n - 1);
      FindsNext(u, n - 1);
      PutNext(Encodable(u, n - 1), PartAt(u, n - 1));
    }
  }

  lemma {:induction false} PuttingIds(u: Uas, i: nat)
    requires Typed(u) && i <= BASIC_IDS
    ensures GatherBasic(u, i) == Putting(u, i)
  {
    if i > 0 { PuttingIds(u, i - 1); }
  }

  lemma {:induction false} PuttingPages(u: Uas, i: nat)
    requires Typed(u) && i <= AUTH_PAGES
    ensures GatherAuth(u, i) == Putting(u, 3 + i)
  {
    if i > 0 { PuttingPages(u, i - 1); } else { PuttingIds(u, BASIC_IDS); }
  }

  /**
   * The builder takes every valid part that can be encoded, in order. It fails if and only if it meets a valid
   * part, which may be one that cannot be encoded, with nine taken.
   */
  lemma GatherExactly(u: Uas)
    requires Typed(u)
    ensures Gather(u) == if exists k :: 0 <= k < 22 && PartAt(u, k).valid && |Encodable(u, k)| >= 9 then None
                         else Some(Encodable(u, 22))
  {
    PuttingPages(u, AUTH_PAGES);
    PuttingExactly(u, 22);
    assert Putting(u, 20) == Put(Putting(u, 19), PartAt(u, 19).valid, PartAt(u, 19).enc);
    assert Putting(u, 21) == Put(Putting(u, 20), PartAt(u, 20).valid, PartAt(u, 20).enc);
    assert Putting(u, 22) == Put(Putting(u, 21), PartAt(u, 21).valid, PartAt(u, 21).enc);
  }

  // ------------------------------------------------------------------
  // What a receiver makes of any bytes
  // ------------------------------------------------------------------

  function Altitude(m: seq<byte>, i: nat): real
    requires i + 2 <= |m|
  {
    Unsigned16(m, i) as real * 0.5 - 1000.0
  }

  /** Whoever sent it, every location is read like this. */
  lemma LocationRead(m: seq<byte>)
    requires |m| == 25
    ensures var d := DecodeLocation(m);
            && d.status == m[1] / 16 && d.heightType == m[1] / 4 % 2
            && d.direction == m[2] as real + (if m[1] / 2 % 2 == 1 then 180.0 else 0.0)
            && d.speed == (if m[1] % 2 == 1 then m[3] as real * 0.75 + 63.75 else m[3] as real * 0.25)
            && d.climb == Signed8(m[4]) as real * 0.5
            && d.lat == Signed32(m, 5) as real / 10000000.0 && d.lon == Signed32(m, 9) as real / 10000000.0
            && d.altBaro == Altitude(m, 13) && d.altGeo == Altitude(m, 15) && d.height == Altitude(m, 17)
            && d.horizAcc == m[19] % 16 && d.vertAcc == m[19] / 16 && d.baroAcc == m[20] / 16
            && d.speedAcc == m[20] % 16 && d.timeAcc == m[23] % 16
            && d.time == (if Unsigned16(m, 21) == 0xFFFF then 65535.0 else Unsigned16(m, 21) as real / 10.0)
  {
    SignedIs(m, 5);
    SignedIs(m, 9);
  }

  lemma SystemRead(m: seq<byte>)
    requires |m| == 25
    ensures var d := DecodeSystem(m);
            && d.placeType == m[1] % 4 && d.classification == m[1] / 4 % 8
            && d.lat == Signed32(m, 2) as real / 10000000.0 && d.lon == Signed32(m, 6) as real / 10000000.0
            && d.areaCount == Unsigned16(m, 10) && d.areaRadius == 10 * m[12] as int
            && d.ceiling == Altitude(m, 13) && d.floor == Altitude(m, 15) && d.altGeo == Altitude(m, 18)
            && d.category == m[17] / 16 && d.class_ == m[17] % 16 && d.timestamp == Unsigned32(m, 20)
  {
    SignedIs(m, 2);
    SignedIs(m, 6);
  }
}
