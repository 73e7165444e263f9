/**
 * The six Open Drone ID messages (section 5.4.5 of ASTM F3411-22a): how each is
 * laid out in twenty-five bytes, and what decoding gives back of what was encoded.
 */
module OdidMessages {
  import opened Bytes
  import opened OdidQuant

  const MESSAGE := 25
  const VERSION := 2
  const AUTH_PAGES := 16
  const PAGE_ZERO_DATA := 17
  const PAGE_DATA := 23

  const BASIC_ID := 0
  const LOCATION := 1
  const AUTH := 2
  const SELF_ID := 3
  const SYSTEM := 4
  const OPERATOR_ID := 5
  const PACKED := 15

  datatype BasicId = BasicId(uaType: nat, idType: nat, uasId: seq<byte>)

  datatype Location = Location(
    status: nat, direction: real, speed: real, climb: real, lat: real, lon: real,
    altBaro: real, altGeo: real, heightType: nat, height: real,
    horizAcc: nat, vertAcc: nat, baroAcc: nat, speedAcc: nat, timeAcc: nat, time: real)

  datatype Auth = Auth(page: nat, authType: nat, lastPage: nat, length: nat, timestamp: nat, data: seq<byte>)

  datatype SelfId = SelfId(descType: nat, desc: seq<byte>)

  datatype System = System(
    placeType: nat, classification: nat, lat: real, lon: real, areaCount: nat, areaRadius: nat,
    ceiling: real, floor: real, category: nat, class_: nat, altGeo: real, timestamp: nat)

  datatype OperatorId = OperatorId(idType: nat, id: seq<byte>)

  // ------------------------------------------------------------------
  // Text fields
  // ------------------------------------------------------------------

  /** The first `n` characters of a C string, padded with zeros after its end. */
  function Padded(s: seq<byte>, n: nat): (r: seq<byte>)
    ensures |r| == n
    decreases n
  {
    if n == 0 then [] else if s == [] || s[0] == 0 then [0] + Padded([], n - 1) else [s[0]] + Padded(s[1..], n - 1)
  }

  lemma {:induction false} PaddedTwice(s: seq<byte>, n: nat, rest: seq<byte>)
    ensures Padded(Padded(s, n) + rest, n) == Padded(s, n)
    decreases n
  {
    if n > 0 {
      var p := Padded(s, n);
      var tail := if s == [] || s[0] == 0 then [] else s[1..];
      PaddedTwice(tail, n - 1, rest);
      assert p == [p[0]] + Padded(tail, n - 1);
      assert (p + rest)[1..] == Padded(tail, n - 1) + rest;
      if p[0] == 0 {
        PaddedEmpty(n - 1);
      }
    }
  }

  lemma {:induction false} PaddedEmpty(n: nat)
    ensures forall rest: seq<byte> :: n > 0 ==> Padded([0] + rest, n) == Padded([], n)
    ensures Padded([], n) == Padded(Padded([], n), n)
  {
    if n > 0 {
      PaddedEmpty(n - 1);
    }
  }

  // ------------------------------------------------------------------
  // What can be encoded
  // ------------------------------------------------------------------

  /** The sizes and widths the C structures give the fields. */
  predicate BasicIdTyped(d: BasicId) { |d.uasId| == 21 }

  predicate AuthTyped(d: Auth) {
    && d.page < 256 && d.lastPage < 256 && d.length < 256 && d.timestamp < 0x1_0000_0000
    && |d.data| == 24
  }

  predicate SelfIdTyped(d: SelfId) { |d.desc| == 24 }

  predicate SystemTyped(d: System) { d.areaCount < 0x1_0000 && d.areaRadius < 0x1_0000 && d.timestamp < 0x1_0000_0000 }

  predicate OperatorIdTyped(d: OperatorId) { |d.id| == 21 }

  predicate BasicIdOk(d: BasicId) { d.idType <= 15 && d.uaType <= 15 }

  predicate LocationOk(d: Location) {
    && d.status <= 15 && d.heightType <= 1 && d.horizAcc <= 15 && d.vertAcc <= 15 && d.baroAcc <= 15
    && d.speedAcc <= 15 && d.timeAcc <= 15
    && DirectionOk(d.direction) && SpeedOk(d.speed) && VSpeedOk(d.climb)
    && -90.0 <= d.lat <= 90.0 && LatLonOk(d.lon)
    && AltitudeOk(d.altBaro) && AltitudeOk(d.altGeo) && AltitudeOk(d.height)
    && TimeOk(d.time)
  }

  predicate AuthOk(d: Auth) {
    && d.authType <= 15 && d.page < AUTH_PAGES
    && (d.page == 0 ==> d.lastPage < AUTH_PAGES && d.length <= PAGE_ZERO_DATA + d.lastPage * PAGE_DATA)
  }

  predicate SelfIdOk(d: SelfId) { d.descType <= 255 }

  predicate SystemOk(d: System) {
    && d.placeType <= 3 && d.classification <= 7 && d.category <= 15 && d.class_ <= 15
    && -90.0 <= d.lat <= 90.0 && LatLonOk(d.lon) && d.areaRadius <= 2550
    && AltitudeOk(d.ceiling) && AltitudeOk(d.floor) && AltitudeOk(d.altGeo)
  }

  predicate OperatorIdOk(d: OperatorId) { d.idType <= 255 }

  // ------------------------------------------------------------------
  // The layouts
  // ------------------------------------------------------------------

  function Head(kind: nat): byte
    requires kind < 16
  {
    16 * kind + VERSION
  }

  function Kind(m: seq<byte>): nat
    requires |m| > 0
  {
    m[0] / 16
  }

  function EncodeBasicId(d: BasicId): (m: seq<byte>)
    requires BasicIdTyped(d) && BasicIdOk(d)
    ensures |m| == MESSAGE && Kind(m) == BASIC_ID
  {
    [Head(BASIC_ID), 16 * d.idType + d.uaType] + Padded(d.uasId, 20) + [0, 0, 0]
  }

  function DecodeBasicId(m: seq<byte>): BasicId
    requires |m| == MESSAGE
  {
    BasicId(m[1] % 16, m[1] / 16, Padded(m[2..22], 20) + [0])
  }

  function EncodeLocation(d: Location): (m: seq<byte>)
    requires LocationOk(d)
    ensures |m| == MESSAGE && Kind(m) == LOCATION
  {
    var (dir, ew) := EncodeDirection(d.direction);
    var (spd, mult) := EncodeSpeed(d.speed);
    var la, lo := ToLe32(ToU32(EncodeLatLon(d.lat))), ToLe32(ToU32(EncodeLatLon(d.lon)));
    var ab, ag, he := ToLe16(EncodeAltitude(d.altBaro)), ToLe16(EncodeAltitude(d.altGeo)),
        ToLe16(EncodeAltitude(d.height));
    var ti := ToLe16(EncodeTime(d.time));
    [Head(LOCATION), mult + 2 * ew + 4 * d.heightType + 16 * d.status, dir, spd, ToU8(EncodeVSpeed(d.climb)),
     la[0], la[1], la[2], la[3], lo[0], lo[1], lo[2], lo[3], ab[0], ab[1], ag[0], ag[1], he[0], he[1],
     d.horizAcc + 16 * d.vertAcc, d.speedAcc + 16 * d.baroAcc, ti[0], ti[1], d.timeAcc, 0]
  }

  function DecodeLocation(m: seq<byte>): Location
    requires |m| == MESSAGE
  {
    Location(m[1] / 16, DecodeDirection(m[2], m[1] / 2 % 2), DecodeSpeed(m[3], m[1] % 2), DecodeVSpeed(FromU8(m[4])),
             DecodeLatLon(FromU32(Le32(m[5], m[6], m[7], m[8]))),
             DecodeLatLon(FromU32(Le32(m[9], m[10], m[11], m[12]))),
             DecodeAltitude(Le16(m[13], m[14])), DecodeAltitude(Le16(m[15], m[16])), m[1] / 4 % 2,
             DecodeAltitude(Le16(m[17], m[18])), m[19] % 16, m[19] / 16, m[20] / 16, m[20] % 16, m[23] % 16,
             DecodeTime(Le16(m[21], m[22])))
  }

  function EncodeAuth(d: Auth): (m: seq<byte>)
    requires AuthTyped(d) && AuthOk(d)
    ensures |m| == MESSAGE && Kind(m) == AUTH
  {
    var head := [Head(AUTH), d.page + 16 * d.authType];
    if d.page == 0 then head + [d.lastPage, d.length] + ToLe32(d.timestamp) + d.data[..PAGE_ZERO_DATA]
    else head + d.data[..PAGE_DATA]
  }

  /** Refused if page zero claims more data than its pages hold. */
  predicate AuthFits(m: seq<byte>)
    requires |m| == MESSAGE
  {
    m[1] % 16 == 0 ==> m[2] < AUTH_PAGES && m[3] <= PAGE_ZERO_DATA + m[2] * PAGE_DATA
  }

  /** Zeros to fill a field. */
  function Zeros(n: nat): (z: seq<byte>)
    ensures |z| == n
  {
    if n == 0 then [] else [0] + Zeros(n - 1)
  }

  /** A later page leaves the fields only page zero carries as they were. */
  function DecodeAuth(old_: Auth, m: seq<byte>): Auth
    requires |m| == MESSAGE
  {
    if m[1] % 16 == 0 then
      Auth(0, m[1] / 16, m[2], m[3], Le32(m[4], m[5], m[6], m[7]), m[8..25] + Zeros(7))
    else old_.(page := m[1] % 16, authType := m[1] / 16, data := m[2..25] + Zeros(1))
  }

  function EncodeSelfId(d: SelfId): (m: seq<byte>)
    requires SelfIdTyped(d) && SelfIdOk(d)
    ensures |m| == MESSAGE && Kind(m) == SELF_ID
  {
    [Head(SELF_ID), d.descType] + Padded(d.desc, 23)
  }

  function DecodeSelfId(m: seq<byte>): SelfId
    requires |m| == MESSAGE
  {
    SelfId(m[1], Padded(m[2..25], 23) + [0])
  }

  function EncodeSystem(d: System): (m: seq<byte>)
    requires SystemTyped(d) && SystemOk(d)
    ensures |m| == MESSAGE && Kind(m) == SYSTEM
  {
    var la, lo := ToLe32(ToU32(EncodeLatLon(d.lat))), ToLe32(ToU32(EncodeLatLon(d.lon)));
    var co, ce, fl := ToLe16(d.areaCount), ToLe16(EncodeAltitude(d.ceiling)), ToLe16(EncodeAltitude(d.floor));
    var al, ts := ToLe16(EncodeAltitude(d.altGeo)), ToLe32(d.timestamp);
    [Head(SYSTEM), d.placeType + 4 * d.classification,
     la[0], la[1], la[2], la[3], lo[0], lo[1], lo[2], lo[3], co[0], co[1], EncodeRadius(d.areaRadius),
     ce[0], ce[1], fl[0], fl[1], d.class_ + 16 * d.category, al[0], al[1], ts[0], ts[1], ts[2], ts[3], 0]
  }

  function DecodeSystem(m: seq<byte>): System
    requires |m| == MESSAGE
  {
    System(m[1] % 4, m[1] / 4 % 8,
           DecodeLatLon(FromU32(Le32(m[2], m[3], m[4], m[5]))), DecodeLatLon(FromU32(Le32(m[6], m[7], m[8], m[9]))),
           Le16(m[10], m[11]), DecodeRadius(m[12]), DecodeAltitude(Le16(m[13], m[14])),
           DecodeAltitude(Le16(m[15], m[16])),
           m[17] / 16, m[17] % 16, DecodeAltitude(Le16(m[18], m[19])), Le32(m[20], m[21], m[22], m[23]))
  }

  function EncodeOperatorId(d: OperatorId): (m: seq<byte>)
    requires OperatorIdTyped(d) && OperatorIdOk(d)
    ensures |m| == MESSAGE && Kind(m) == OPERATOR_ID
  {
    [Head(OPERATOR_ID), d.idType] + Padded(d.id, 20) + [0, 0, 0]
  }

  function DecodeOperatorId(m: seq<byte>): OperatorId
    requires |m| == MESSAGE
  {
    OperatorId(m[1], Padded(m[2..22], 20) + [0])
  }

  // ------------------------------------------------------------------
  // What comes back
  // ------------------------------------------------------------------

  lemma BasicIdRoundTrip(d: BasicId)
    requires BasicIdTyped(d) && BasicIdOk(d)
    ensures DecodeBasicId(EncodeBasicId(d)) == d.(uasId := Padded(d.uasId, 20) + [0])
  {
    var m := EncodeBasicId(d);
    assert m[2..22] == Padded(d.uasId, 20);
    PaddedTwice(d.uasId, 20, []);
    assert Padded(d.uasId, 20) + [] == Padded(d.uasId, 20);
  }

  lemma OperatorIdRoundTrip(d: OperatorId)
    requires OperatorIdTyped(d) && OperatorIdOk(d)
    ensures DecodeOperatorId(EncodeOperatorId(d)) == d.(id := Padded(d.id, 20) + [0])
  {
    var m := EncodeOperatorId(d);
    assert m[2..22] == Padded(d.id, 20);
    PaddedTwice(d.id, 20, []);
    assert Padded(d.id, 20) + [] == Padded(d.id, 20);
  }

  lemma SelfIdRoundTrip(d: SelfId)
    requires SelfIdTyped(d) && SelfIdOk(d)
    ensures DecodeSelfId(EncodeSelfId(d)) == d.(desc := Padded(d.desc, 23) + [0])
  {
    var m := EncodeSelfId(d);
    assert m[2..25] == Padded(d.desc, 23);
    PaddedTwice(d.desc, 23, []);
    assert Padded(d.desc, 23) + [] == Padded(d.desc, 23);
  }

  /** Page zero comes back with its seventeen bytes, a later page with its twenty-three and nothing else new. */
  lemma AuthRoundTrip(d: Auth, old_: Auth)
    requires AuthTyped(d) && AuthOk(d)
    ensures AuthFits(EncodeAuth(d))
    ensures DecodeAuth(old_, EncodeAuth(d))
            == if d.page == 0 then d.(data := d.data[..PAGE_ZERO_DATA] + Zeros(7))
               else old_.(page := d.page, authType := d.authType, data := d.data[..PAGE_DATA] + Zeros(1))
  {
    var m := EncodeAuth(d);
    if d.page == 0 {
      var t := ToLe32(d.timestamp);
      assert m[4] == t[0] && m[5] == t[1] && m[6] == t[2] && m[7] == t[3];
      assert m[8..25] == d.data[..PAGE_ZERO_DATA];
    } else {
      assert m[2..25] == d.data[..PAGE_DATA];
    }
  }

  /** What the wire leaves of a location: every measured field quantised, the rest as it was. */
  function LocationKept(d: Location): Location
    requires LocationOk(d)
  {
    var (dir, ew) := EncodeDirection(d.direction);
    var (spd, mult) := EncodeSpeed(d.speed);
    d.(direction := DecodeDirection(dir, ew), speed := DecodeSpeed(spd, mult),
       climb := DecodeVSpeed(EncodeVSpeed(d.climb)),
       lat := DecodeLatLon(EncodeLatLon(d.lat)), lon := DecodeLatLon(EncodeLatLon(d.lon)),
       altBaro := DecodeAltitude(EncodeAltitude(d.altBaro)), altGeo := DecodeAltitude(EncodeAltitude(d.altGeo)),
       height := DecodeAltitude(EncodeAltitude(d.height)), time := DecodeTime(EncodeTime(d.time)))
  }

  lemma FlagBits(mult: nat, ew: nat, height: nat, status: nat)
    requires mult <= 1 && ew <= 1 && height <= 1 && status <= 15
    ensures var b := mult + 2 * ew + 4 * height + 16 * status;
            b < 256 && b % 2 == mult && b / 2 % 2 == ew && b / 4 % 2 == height && b / 16 == status
  {
  }

  lemma Nibbles(lo: nat, hi: nat)
    requires lo <= 15 && hi <= 15
    ensures (lo + 16 * hi) % 16 == lo && (lo + 16 * hi) / 16 == hi
  {
  }

  lemma LocationFlags(d: Location)
    requires LocationOk(d)
    ensures EncodeLocation(d)[1]
            == EncodeSpeed(d.speed).1 + 2 * EncodeDirection(d.direction).1 + 4 * d.heightType + 16 * d.status
  {
  }

  lemma LocationBytes(d: Location)
    requires LocationOk(d)
    ensures var m := EncodeLocation(d);
            && m[2] == EncodeDirection(d.direction).0 && m[3] == EncodeSpeed(d.speed).0
            && m[4] == ToU8(EncodeVSpeed(d.climb))
  {
  }

  lemma LocationTail(d: Location)
    requires LocationOk(d)
    ensures var m := EncodeLocation(d);
            && m[19] == d.horizAcc + 16 * d.vertAcc && m[20] == d.speedAcc + 16 * d.baroAcc && m[23] == d.timeAcc
  {
  }

  lemma LocationWords(d: Location)
    requires LocationOk(d)
    ensures var m := EncodeLocation(d);
            && FromU32(Le32(m[5], m[6], m[7], m[8])) == EncodeLatLon(d.lat)
            && FromU32(Le32(m[9], m[10], m[11], m[12])) == EncodeLatLon(d.lon)
            && Le16(m[13], m[14]) == EncodeAltitude(d.altBaro) && Le16(m[15], m[16]) == EncodeAltitude(d.altGeo)
            && Le16(m[17], m[18]) == EncodeAltitude(d.height) && Le16(m[21], m[22]) == EncodeTime(d.time)
  {
  }

  /** A message whose fields carry the codes of a location decodes to what is kept of it. */
  lemma DecodesToKept(m: seq<byte>, d: Location)
    requires LocationOk(d) && |m| == MESSAGE
    requires m[1] == EncodeSpeed(d.speed).1 + 2 * EncodeDirection(d.direction).1 + 4 * d.heightType + 16 * d.status
    requires m[2] == EncodeDirection(d.direction).0 && m[3] == EncodeSpeed(d.speed).0
        && m[4] == ToU8(EncodeVSpeed(d.climb))
    requires m[19] == d.horizAcc + 16 * d.vertAcc && m[20] == d.speedAcc + 16 * d.baroAcc && m[23] == d.timeAcc
    requires FromU32(Le32(m[5], m[6], m[7], m[8])) == EncodeLatLon(d.lat)
    requires FromU32(Le32(m[9], m[10], m[11], m[12])) == EncodeLatLon(d.lon)
    requires Le16(m[13], m[14]) == EncodeAltitude(d.altBaro) && Le16(m[15], m[16]) == EncodeAltitude(d.altGeo)
    requires Le16(m[17], m[18]) == EncodeAltitude(d.height) && Le16(m[21], m[22]) == EncodeTime(d.time)
    ensures DecodeLocation(m) == LocationKept(d)
  {
    FlagBits(EncodeSpeed(d.speed).1, EncodeDirection(d.direction).1, d.heightType, d.status);
    Nibbles(d.horizAcc, d.vertAcc);
    Nibbles(d.speedAcc, d.baroAcc);
    Nibbles(d.timeAcc, 0);
  }

  lemma LocationRoundTrip(d: Location)
    requires LocationOk(d)
    ensures DecodeLocation(EncodeLocation(d)) == LocationKept(d)
  {
    LocationFlags(d);
    LocationBytes(d);
    LocationTail(d);
    LocationWords(d);
    DecodesToKept(EncodeLocation(d), d);
  }

  /** Each field of a location that has been through the wire is within its quantum of what was sent. */
  lemma LocationClose(d: Location)
    requires LocationOk(d)
    ensures var k := DecodeLocation(EncodeLocation(d));
            && k.(direction := d.direction, speed := d.speed, climb := d.climb, lat := d.lat, lon := d.lon,
                  altBaro := d.altBaro, altGeo := d.altGeo, height := d.height, time := d.time) == d
            && Abs(k.direction - d.direction) <= 0.5
            && 0.0 <= d.speed - k.speed < (if d.speed <= SPEED_TURN then 0.25 else 0.75)
            && Abs(k.climb - d.climb) < 0.5
            && Abs(k.lat - d.lat) < 0.0000001 && Abs(k.lon - d.lon) < 0.0000001
            && 0.0 <= d.altBaro - k.altBaro < 0.5 && 0.0 <= d.altGeo - k.altGeo < 0.5
            && 0.0 <= d.height - k.height < 0.5
            && Abs(k.time - d.time) <= 0.05
  {
    LocationRoundTrip(d);
    DirectionBound(d.direction);
    SpeedBound(d.speed);
    VSpeedBound(d.climb);
    LatLonBound(d.lat);
    LatLonBound(d.lon);
    AltitudeBound(d.altBaro);
    AltitudeBound(d.altGeo);
    AltitudeBound(d.height);
    TimeBound(d.time);
  }

  /** A location received can be sent on, and is then received unchanged. */
  lemma LocationStable(d: Location)
    requires LocationOk(d)
    ensures var k := DecodeLocation(EncodeLocation(d));
            LocationOk(k) && DecodeLocation(EncodeLocation(k)) == k
  {
    LocationRoundTrip(d);
    var k := LocationKept(d);
    DirectionStable(d.direction);
    SpeedStable(d.speed);
    VSpeedStable(d.climb);
    LatLonBound(d.lat);
    LatitudeStays(d.lat);
    LatLonBound(d.lon);
    LatLonStable(d.lat);
    LatLonStable(d.lon);
    AltitudeBound(d.altBaro);
    AltitudeBound(d.altGeo);
    AltitudeBound(d.height);
    AltitudeCodesAgain(EncodeAltitude(d.altBaro));
    AltitudeCodesAgain(EncodeAltitude(d.altGeo));
    AltitudeCodesAgain(EncodeAltitude(d.height));
    TimeBound(d.time);
    TimeStable(d.time);
    LocationRoundTrip(k);
  }

  lemma LatitudeStays(x: real)
    requires -90.0 <= x <= 90.0
    ensures -90.0 <= DecodeLatLon(EncodeLatLon(x)) <= 90.0
  {
  }

  function SystemKept(d: System): System {
    d.(lat := DecodeLatLon(EncodeLatLon(d.lat)), lon := DecodeLatLon(EncodeLatLon(d.lon)),
       areaRadius := DecodeRadius(EncodeRadius(d.areaRadius)),
       ceiling := DecodeAltitude(EncodeAltitude(d.ceiling)), floor := DecodeAltitude(EncodeAltitude(d.floor)),
       altGeo := DecodeAltitude(EncodeAltitude(d.altGeo)))
  }

  lemma PlaceBits(place: nat, classification: nat)
    requires place <= 3 && classification <= 7
    ensures (place + 4 * classification) % 4 == place && (place + 4 * classification) / 4 % 8 == classification
  {
  }

  lemma SystemBytes(d: System)
    requires SystemTyped(d) && SystemOk(d)
    ensures var m := EncodeSystem(d);
            && m[1] == d.placeType + 4 * d.classification && m[12] == EncodeRadius(d.areaRadius)
            && m[17] == d.class_ + 16 * d.category
  {
  }

  lemma SystemWords(d: System)
    requires SystemTyped(d) && SystemOk(d)
    ensures var m := EncodeSystem(d);
            && FromU32(Le32(m[2], m[3], m[4], m[5])) == EncodeLatLon(d.lat)
            && FromU32(Le32(m[6], m[7], m[8], m[9])) == EncodeLatLon(d.lon)
            && Le16(m[10], m[11]) == d.areaCount
            && Le16(m[13], m[14]) == EncodeAltitude(d.ceiling) && Le16(m[15], m[16]) == EncodeAltitude(d.floor)
            && Le16(m[18], m[19]) == EncodeAltitude(d.altGeo) && Le32(m[20], m[21], m[22], m[23]) == d.timestamp
  {
  }

  lemma SystemRoundTrip(d: System)
    requires SystemTyped(d) && SystemOk(d)
    ensures DecodeSystem(EncodeSystem(d)) == SystemKept(d)
  {
    SystemBytes(d);
    PlaceBits(d.placeType, d.classification);
    Nibbles(d.class_, d.category);
    SystemWords(d);
  }

  /** Each field of a system message that has been through the wire is within its quantum of what was sent. */
  lemma SystemClose(d: System)
    requires SystemTyped(d) && SystemOk(d)
    ensures var k := DecodeSystem(EncodeSystem(d));
            && k.(lat := d.lat, lon := d.lon, areaRadius := d.areaRadius, ceiling := d.ceiling, floor := d.floor,
                  altGeo := d.altGeo) == d
            && Abs(k.lat - d.lat) < 0.0000001 && Abs(k.lon - d.lon) < 0.0000001
            && 0 <= d.areaRadius - k.areaRadius < 10
            && 0.0 <= d.ceiling - k.ceiling < 0.5 && 0.0 <= d.floor - k.floor < 0.5 && 0.0 <= d.altGeo - k.altGeo < 0.5
  {
    SystemRoundTrip(d);
    LatLonBound(d.lat);
    LatLonBound(d.lon);
    RadiusBound(d.areaRadius);
    AltitudeBound(d.ceiling);
    AltitudeBound(d.floor);
    AltitudeBound(d.altGeo);
  }
}
