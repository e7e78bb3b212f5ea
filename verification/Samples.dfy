/** What a simulated device reports, and the conversions of its values to wire integers. */
module Samples {
  import opened Options
  import opened Wire

  datatype Sample = Sample(lat: real, lon: real, speed: int, heading: int, ignition: bool, movement: bool,
                           powerMV: int, batteryMV: int, odometerM: int)

  /** Conversion of a float to an integer drops the fraction, towards zero. */
  function Truncated(x: real): int {
    if x >= 0.0 then x.Floor else -((-x).Floor)
  }

  /** Degrees as a fixed-point integer. */
  function Scaled(degrees: real): int {
    Truncated(degrees * 10000000.0)
  }

  /** Conversion of a signed integer to an unsigned one of `k` bytes keeps its low bytes. */
  function Unsigned(n: int, k: nat): (u: nat)
    ensures u < Pow256(k)
  {
    n % Pow256(k)
  }

  /** Reinterpretation of four unsigned bytes as a signed integer. */
  function Signed32(u: nat): int {
    if u < 0x8000_0000 then u else u - 0x1_0000_0000
  }

  function Flag(b: bool): nat {
    if b then 1 else 0
  }

  /** A coordinate whose scaled value a signed 32-bit integer holds. */
  predicate Encodable(degrees: real) {
    -0x8000_0000 <= Scaled(degrees) < 0x8000_0000
  }

  /** What a receiver learns from a record. */
  datatype Reading = Reading(timestamp: nat, lon: int, lat: int, heading: nat, speed: nat,
                             ignition: Option<nat>, movement: Option<nat>,
                             powerMV: Option<nat>, odometerM: Option<nat>)

  /** The value of the first element with this identifier. */
  function Lookup(ios: seq<Io>, id: nat): Option<nat> {
    if ios == [] then None
    else if ios[0].id == id then Some(ios[0].value)
    else Lookup(ios[1..], id)
  }

  /** The reading a sample and a clock value must produce. */
  function Expected(timestamp: nat, s: Sample): Reading {
    Reading(timestamp, Scaled(s.lon), Scaled(s.lat), Unsigned(s.heading, 2), Unsigned(s.speed, 2),
            Some(Flag(s.ignition)), Some(Flag(s.movement)),
            Some(Unsigned(s.powerMV, 2)), Some(Unsigned(s.odometerM, 4)))
  }

  lemma ProductBound(m: int, q: int)
    requires m >= 0
    ensures q >= 1 ==> m * q >= m
    ensures q <= -1 ==> m * q <= -m
  {
  }

  lemma SmallRemainder(n: nat, m: nat)
    requires n < m
    ensures n % m == n
  {
    assert n == m * (n / m) + n % m;
    ProductBound(m, n / m);
  }

  /** An integer survives the conversion exactly when it was in range. */
  lemma {:induction false} UnsignedExact(n: int, k: nat)
    ensures Unsigned(n, k) == n <==> 0 <= n < Pow256(k)
  {
    if 0 <= n < Pow256(k) {
      SmallRemainder(n, Pow256(k));
    }
  }

  lemma PowerValues()
    ensures Pow256(1) == 0x100 && Pow256(2) == 0x1_0000
    ensures Pow256(4) == 0x1_0000_0000 && Pow256(8) == 0x1_0000_0000_0000_0000
  {
    assert Pow256(3) == 0x100_0000;
    assert Pow256(5) == 0x100_0000_0000;
    assert Pow256(6) == 0x1_0000_0000_0000;
    assert Pow256(7) == 0x100_0000_0000_0000;
  }

  /** Every place on Earth has encodable coordinates. */
  lemma GeographicIsEncodable(degrees: real)
    requires -180.0 <= degrees <= 180.0
    ensures Encodable(degrees)
  {
  }

  lemma SignedUnsigned(n: int)
    requires -0x8000_0000 <= n < 0x8000_0000
    ensures Signed32(Unsigned(n, 4)) == n
  {
    PowerValues();
  }

  lemma TruncationBound(x: real)
    ensures x >= 0.0 ==> 0.0 <= Truncated(x) as real <= x < Truncated(x) as real + 1.0
    ensures x <= 0.0 ==> Truncated(x) as real - 1.0 < x <= Truncated(x) as real <= 0.0
  {
  }

  /** A coordinate sent as four big-endian bytes comes back within 1e-7 degrees, never
      farther from zero than it was and never on the other side of zero. */
  lemma CoordinateBound(degrees: real)
    requires Encodable(degrees)
    ensures var received := Signed32(Get(Put(Unsigned(Scaled(degrees), 4), 4))) as real / 10000000.0;
            && (degrees >= 0.0 ==> 0.0 <= received <= degrees < received + 0.0000001)
            && (degrees <= 0.0 ==> received - 0.0000001 < degrees <= received <= 0.0)
  {
    var n := Scaled(degrees);
    GetPut(Unsigned(n, 4), 4);
    SignedUnsigned(n);
    TruncationBound(degrees * 10000000.0);
    var received := n as real / 10000000.0;
    assert received * 10000000.0 == n as real;
  }
}
