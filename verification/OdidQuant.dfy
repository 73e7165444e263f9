/**
 * The field quantisers of the Open Drone ID messages (section 5.4.5 of ASTM
 * F3411-22a) over the reals: what each keeps of a value, and what a value that
 * has been through the wire once keeps after that.
 */
module OdidQuant {
  import opened Bytes

  const LATLON_MULT := 10000000
  const INV_TIMESTAMP := 65535.0

  /** Conversion of a real to an integer in C: the fraction is dropped. */
  function Trunc(x: real): int {
    if x >= 0.0 then x.Floor else -((-x).Floor)
  }

  /** Rounding to nearest, halves away from zero. */
  function Round(x: real): int {
    if x >= 0.0 then (x + 0.5).Floor else -((0.5 - x).Floor)
  }

  function Clamp(x: int, lo: int, hi: int): (r: int)
    requires lo <= hi
    ensures lo <= r <= hi && (lo <= x <= hi ==> r == x)
  {
    if x < lo then lo else if x > hi then hi else x
  }

  function Abs(x: real): real { if x >= 0.0 then x else -x }

  // ------------------------------------------------------------------
  // Direction: a byte and an east/west flag
  // ------------------------------------------------------------------

  predicate DirectionOk(d: real) { 0.0 <= d <= 360.0 || d == 361.0 }

  /** The code and the flag. */
  function EncodeDirection(d: real): (r: (byte, byte))
    requires DirectionOk(d)
    ensures r.1 <= 1
  {
    var n := Round(d);
    if n < 180 then (Clamp(n, 0, 255), 0) else (Clamp(n - 180, 0, 255), 1)
  }

  function DecodeDirection(code: byte, ew: byte): real {
    if ew != 0 then code as real + 180.0 else code as real
  }

  lemma DirectionBound(d: real)
    requires DirectionOk(d)
    ensures var (c, ew) := EncodeDirection(d);
            Abs(DecodeDirection(c, ew) - d) <= 0.5 && (d == 361.0 <==> DecodeDirection(c, ew) == 361.0)
  {
  }

  lemma DirectionStable(d: real)
    requires DirectionOk(d)
    ensures var (c, ew) := EncodeDirection(d);
            DirectionOk(DecodeDirection(c, ew)) && EncodeDirection(DecodeDirection(c, ew)) == (c, ew)
  {
    DirectionBound(d);
  }

  // ------------------------------------------------------------------
  // Horizontal speed: quarter metres per second, then three quarters
  // ------------------------------------------------------------------

  const SPEED_TURN := 63.75

  predicate SpeedOk(s: real) { 0.0 <= s <= 254.25 || s == 255.0 }

  function EncodeSpeed(s: real): (r: (byte, byte))
    requires SpeedOk(s)
    ensures r.1 <= 1
  {
    if s <= SPEED_TURN then (Clamp(Trunc(s / 0.25), 0, 255), 0)
    else (Clamp(Trunc((s - SPEED_TURN) / 0.75), 0, 255), 1)
  }

  function DecodeSpeed(code: byte, mult: byte): real {
    if mult != 0 then code as real * 0.75 + SPEED_TURN else code as real * 0.25
  }

  lemma SpeedBound(s: real)
    requires SpeedOk(s)
    ensures var (c, m) := EncodeSpeed(s);
            var d := s - DecodeSpeed(c, m);
            0.0 <= d && (s <= SPEED_TURN ==> d < 0.25) && (s > SPEED_TURN ==> d < 0.75)
  {
    if s <= SPEED_TURN {
      assert 0.0 <= s / 0.25 <= 255.0;
    } else {
      assert 0.0 <= (s - SPEED_TURN) / 0.75 <= 255.0;
    }
  }

  /** Every code comes back from its own speed, but for the upper scale's zero, which is the lower scale's 255. */
  lemma SpeedCodesAgain(code: byte, mult: byte)
    requires mult <= 1
    ensures SpeedOk(DecodeSpeed(code, mult))
    ensures EncodeSpeed(DecodeSpeed(code, mult)) == if code == 0 && mult == 1 then (255, 0) else (code, mult)
  {
    var s := DecodeSpeed(code, mult);
    if mult == 0 {
      assert s / 0.25 == code as real;
    } else if code == 0 {
      assert s / 0.25 == 255.0;
    } else {
      assert (s - SPEED_TURN) / 0.75 == code as real;
    }
  }

  /** So a decoded speed stays what it is. */
  lemma SpeedStable(s: real)
    requires SpeedOk(s)
    ensures var (c, m) := EncodeSpeed(s);
            && SpeedOk(DecodeSpeed(c, m))
            && DecodeSpeed(EncodeSpeed(DecodeSpeed(c, m)).0, EncodeSpeed(DecodeSpeed(c, m)).1) == DecodeSpeed(c, m)
  {
    var (c, m) := EncodeSpeed(s);
    SpeedCodesAgain(c, m);
  }

  // ------------------------------------------------------------------
  // Vertical speed
  // ------------------------------------------------------------------

  predicate VSpeedOk(v: real) { -62.0 <= v <= 62.0 || v == 63.0 }

  function EncodeVSpeed(v: real): (r: int)
    requires VSpeedOk(v)
    ensures -128 <= r < 128
  {
    Clamp(Trunc(v / 0.5), -128, 127)
  }

  function DecodeVSpeed(code: int): real { code as real * 0.5 }

  lemma VSpeedBound(v: real)
    requires VSpeedOk(v)
    ensures Abs(DecodeVSpeed(EncodeVSpeed(v)) - v) < 0.5
    ensures v >= 0.0 ==> 0.0 <= DecodeVSpeed(EncodeVSpeed(v)) <= v
    ensures v <= 0.0 ==> v <= DecodeVSpeed(EncodeVSpeed(v)) <= 0.0
  {
    assert -124.0 <= v / 0.5 <= 126.0;
  }

  lemma VSpeedStable(v: real)
    requires VSpeedOk(v)
    ensures var d := DecodeVSpeed(EncodeVSpeed(v));
            VSpeedOk(d) && EncodeVSpeed(d) == EncodeVSpeed(v)
  {
    VSpeedBound(v);
    var c := EncodeVSpeed(v);
    assert DecodeVSpeed(c) / 0.5 == c as real;
  }

  // ------------------------------------------------------------------
  // Latitude and longitude
  // ------------------------------------------------------------------

  predicate LatLonOk(x: real) { -180.0 <= x <= 180.0 }

  function EncodeLatLon(x: real): (r: int)
    ensures -1800000000 <= r <= 1800000000
  {
    Clamp(Trunc(x * LATLON_MULT as real), -1800000000, 1800000000)
  }

  function DecodeLatLon(code: int): real { code as real / LATLON_MULT as real }

  lemma LatLonBound(x: real)
    requires LatLonOk(x)
    ensures Abs(DecodeLatLon(EncodeLatLon(x)) - x) < 1.0 / LATLON_MULT as real
    ensures LatLonOk(DecodeLatLon(EncodeLatLon(x)))
  {
  }

  lemma LatLonStable(x: real)
    requires LatLonOk(x)
    ensures EncodeLatLon(DecodeLatLon(EncodeLatLon(x))) == EncodeLatLon(x)
  {
    var c := EncodeLatLon(x);
    assert DecodeLatLon(c) * LATLON_MULT as real == c as real;
  }

  // ------------------------------------------------------------------
  // Altitude and height
  // ------------------------------------------------------------------

  predicate AltitudeOk(a: real) { -1000.0 <= a <= 31767.5 }

  function EncodeAltitude(a: real): (r: nat)
    ensures r < 0x1_0000
  {
    Clamp(Trunc((a + 1000.0) / 0.5), 0, 0xFFFF)
  }

  function DecodeAltitude(code: nat): real { code as real * 0.5 - 1000.0 }

  lemma AltitudeBound(a: real)
    requires AltitudeOk(a)
    ensures 0.0 <= a - DecodeAltitude(EncodeAltitude(a)) < 0.5
    ensures AltitudeOk(DecodeAltitude(EncodeAltitude(a)))
  {
    assert 0.0 <= (a + 1000.0) / 0.5 <= 65535.0;
  }

  /** Every altitude code comes back from its own altitude. */
  lemma AltitudeCodesAgain(code: nat)
    requires code < 0x1_0000
    ensures EncodeAltitude(DecodeAltitude(code)) == code
  {
    assert (DecodeAltitude(code) + 1000.0) / 0.5 == code as real;
  }

  // ------------------------------------------------------------------
  // Time stamp and area radius
  // ------------------------------------------------------------------

  predicate TimeOk(t: real) { 0.0 <= t <= 3600.0 || t == INV_TIMESTAMP }

  function EncodeTime(t: real): (r: nat)
    ensures r < 0x1_0000
  {
    if t == INV_TIMESTAMP then 0xFFFF else Clamp(Round(t * 10.0), 0, 36000)
  }

  function DecodeTime(code: nat): real { if code == 0xFFFF then INV_TIMESTAMP else code as real / 10.0 }

  lemma TimeBound(t: real)
    requires TimeOk(t)
    ensures Abs(DecodeTime(EncodeTime(t)) - t) <= 0.05
    ensures TimeOk(DecodeTime(EncodeTime(t))) && (t == INV_TIMESTAMP <==> DecodeTime(EncodeTime(t)) == INV_TIMESTAMP)
  {
  }

  lemma TimeStable(t: real)
    requires TimeOk(t)
    ensures EncodeTime(DecodeTime(EncodeTime(t))) == EncodeTime(t)
  {
    TimeBound(t);
    if t != INV_TIMESTAMP {
      assert DecodeTime(EncodeTime(t)) * 10.0 == EncodeTime(t) as real;
    }
  }

  function EncodeRadius(r: nat): byte { Clamp(r / 10, 0, 255) }

  function DecodeRadius(code: byte): nat { code * 10 }

  lemma RadiusBound(r: nat)
    requires r <= 2550
    ensures 0 <= r - DecodeRadius(EncodeRadius(r)) < 10
    ensures EncodeRadius(DecodeRadius(EncodeRadius(r))) == EncodeRadius(r)
  {
  }

  // ------------------------------------------------------------------
  // Signed integers on the wire
  // ------------------------------------------------------------------

  function ToU8(x: int): (r: byte)
    requires -128 <= x < 128
  {
    if x < 0 then x + 256 else x
  }

  function FromU8(b: byte): int { if b >= 128 then b - 256 else b }

  function ToU32(x: int): (r: nat)
    requires -0x8000_0000 <= x < 0x8000_0000
    ensures r < 0x1_0000_0000
  {
    if x < 0 then x + 0x1_0000_0000 else x
  }

  function FromU32(n: nat): int { if n >= 0x8000_0000 then n - 0x1_0000_0000 else n }
}
