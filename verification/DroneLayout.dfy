/** Where every field of a drone is in its 65 bytes and in its C struct, bit by bit. */
module DroneLayout {
  import opened Bits
  import opened Schema
  import opened Memory
  import opened Places
  import opened RoundTrip
  import opened Messages
  import opened Drone

  /** The fields of struct Drone in order: bit on the wire, bits, offset in the struct, bytes, signed. */
  ghost function Layout(): seq<Place> {
    // status
    [Place(0, 3, 0, 1, false)]
    // position: latitude, longitude, altitude
    + [Place(3, 32, 4, 4, true), Place(35, 32, 8, 4, true), Place(67, 32, 12, 4, true)]
    // flight.pose: yaw, pitch, roll
    + [Place(99, 32, 16, 4, true), Place(131, 32, 20, 4, true), Place(163, 32, 24, 4, true)]
    // flight.velocity, flight.acceleration
    + [Place(195, 32, 28, 4, true), Place(227, 32, 32, 4, true), Place(259, 32, 36, 4, true)]
    + [Place(291, 32, 40, 4, true), Place(323, 32, 44, 4, true), Place(355, 32, 48, 4, true)]
    // propellers: id, status, direction
    + [Place(387, 8, 52, 1, false), Place(395, 2, 53, 1, false), Place(397, 2, 54, 1, false)]
    + [Place(399, 8, 55, 1, false), Place(407, 2, 56, 1, false), Place(409, 2, 57, 1, false)]
    + [Place(411, 8, 58, 1, false), Place(419, 2, 59, 1, false), Place(421, 2, 60, 1, false)]
    + [Place(423, 8, 61, 1, false), Place(431, 2, 62, 1, false), Place(433, 2, 63, 1, false)]
    // power: battery, status, is_charging
    + [Place(435, 8, 64, 1, false), Place(443, 2, 65, 1, false), Place(445, 1, 66, 1, false)]
    // network: signal, heartbeat_at
    + [Place(446, 4, 72, 1, false), Place(450, 64, 80, 8, true)]
    // landing_gear: status
    + [Place(514, 2, 88, 1, false)]
  }

  // ----- The places of the types -----

  /** The scalars of a type that begins at a bit and an offset are at these places. */
  ghost predicate Laid(t: Type, bit: nat, at: nat, ls: seq<Place>) {
    forall l :: IsPlace(t, bit, at, l) <==> l in ls
  }

  ghost predicate FieldsLaid(fs: Fields, bit: nat, at: nat, ls: seq<Place>) {
    forall l :: IsFieldPlace(fs, bit, at, l) <==> l in ls
  }

  ghost predicate ItemsLaid(e: Type, cap: nat, bit: nat, at: nat, ls: seq<Place>) {
    forall l :: IsItemPlace(e, cap, bit, at, l) <==> l in ls
  }

  /** One field more in front. */
  lemma NextLaid(offset: nat, t: Type, n: nat, bytes: nat, rest: Fields, bit: nat, next: nat, at: nat, here: nat,
                 xs: seq<Place>, ys: seq<Place>)
    requires Described(t, n, bytes) && next == bit + n && here == at + offset
    requires Laid(t, bit, here, xs) && FieldsLaid(rest, next, at, ys)
    ensures FieldsLaid(Next(offset, t, rest), bit, at, xs + ys)
  {
  }

  lemma NextItemLaid(e: Type, n: nat, bytes: nat, cap: nat, bit: nat, next: nat, at: nat, there: nat, xs: seq<Place>,
                     ys: seq<Place>)
    requires Described(e, n, bytes) && cap > 0 && next == bit + n && there == at + bytes
    requires Laid(e, bit, at, xs) && ItemsLaid(e, cap - 1, next, there, ys)
    ensures ItemsLaid(e, cap, bit, at, xs + ys)
  {
  }

  lemma NoneLaid(e: Type, bit: nat, at: nat)
    ensures ItemsLaid(e, 0, bit, at, []) && FieldsLaid(End, bit, at, [])
  {
  }

  lemma MessageLaid(t: Type, bit: nat, at: nat, ls: seq<Place>)
    requires t.Message? && FieldsLaid(t.fields, bit, at, ls)
    ensures Laid(t, bit, at, ls)
  {
  }

  lemma ArrayLaid(t: Type, bit: nat, at: nat, ls: seq<Place>)
    requires t.Array? && ItemsLaid(t.element, t.cap, bit, at, ls)
    ensures Laid(t, bit, at, ls)
  {
  }

  function Triple(bit: nat, at: nat): seq<Place> {
    [Place(bit, 32, at, 4, true), Place(bit + 32, 32, at + 4, 4, true), Place(bit + 64, 32, at + 8, 4, true)]
  }

  function Rotor(bit: nat, at: nat): seq<Place> {
    [Place(bit, 8, at, 1, false), Place(bit + 8, 2, at + 1, 1, false), Place(bit + 10, 2, at + 2, 1, false)]
  }

  lemma PositionLaid(t: Type, bit: nat, at: nat)
    requires t == POSITION
    ensures Laid(t, bit, at, Triple(bit, at))
  {
  }

  lemma TernaryLaid(t: Type, bit: nat, at: nat)
    requires t == TERNARY
    ensures Laid(t, bit, at, Triple(bit, at))
  {
  }

  lemma RotorLaid(t: Type, bit: nat, at: nat)
    requires t == PROPELLER
    ensures Laid(t, bit, at, Rotor(bit, at))
  {
  }

  function PowerPlaces(bit: nat, at: nat): seq<Place> {
    [Place(bit, 8, at, 1, false), Place(bit + 8, 2, at + 1, 1, false), Place(bit + 10, 1, at + 2, 1, false)]
  }

  lemma PowerLaid(t: Type, bit: nat, at: nat)
    requires t == POWER
    ensures Laid(t, bit, at, PowerPlaces(bit, at))
  {
  }

  function NetworkPlaces(bit: nat, at: nat): seq<Place> {
    [Place(bit, 4, at, 1, false), Place(bit + 4, 64, at + 8, 8, true)]
  }

  lemma NetworkLaid(t: Type, bit: nat, at: nat)
    requires t == NETWORK
    ensures Laid(t, bit, at, NetworkPlaces(bit, at))
  {
  }

  lemma GearLaid(t: Type, bit: nat, at: nat)
    requires t == LANDING_GEAR
    ensures Laid(t, bit, at, [Place(bit, 2, at, 1, false)])
  {
  }

  lemma StatusLaid(t: Type, bit: nat, at: nat)
    requires t == Scalar(ENUM, 3, 1)
    ensures Laid(t, bit, at, [Place(bit, 3, at, 1, false)])
  {
  }

  // ----- Their parts put together -----

  lemma FlightOf(pose: Type, velocity: Type, acceleration: Type, t: Type, xs: seq<Place>, ys: seq<Place>,
                 zs: seq<Place>)
    requires Described(pose, 96, 12) && Described(velocity, 96, 12) && Described(acceleration, 96, 12)
    requires Laid(pose, 99, 16, xs) && Laid(velocity, 195, 28, ys) && Laid(acceleration, 291, 40, zs)
    requires t.Message? && t.fields == Next(0, pose, Next(12, velocity, Next(24, acceleration, End)))
    ensures Laid(t, 99, 16, xs + (ys + (zs + [])))
  {
    NoneLaid(pose, 387, 16);
    NextLaid(24, acceleration, 96, 12, End, 291, 387, 16, 40, zs, []);
    NextLaid(12, velocity, 96, 12, Next(24, acceleration, End), 195, 291, 16, 28, ys, zs + []);
    NextLaid(0, pose, 96, 12, Next(12, velocity, Next(24, acceleration, End)), 99, 195, 16, 16, xs, ys + (zs + []));
    MessageLaid(t, 99, 16, xs + (ys + (zs + [])));
  }

  lemma FlightLaid(t: Type)
    requires t == FLIGHT
    ensures Laid(t, 99, 16, Triple(99, 16) + (Triple(195, 28) + (Triple(291, 40) + [])))
  {
    PositionLaid(POSE, 99, 16);
    TernaryLaid(TERNARY, 195, 28);
    TernaryLaid(TERNARY, 291, 40);
    PositionType();
    TernaryType(TERNARY);
    FlightOf(POSE, TERNARY, TERNARY, t, Triple(99, 16), Triple(195, 28), Triple(291, 40));
  }

  lemma TernaryType(t: Type)
    requires t == TERNARY
    ensures Described(t, 96, 12)
  {
    ScalarDescribed(INT, 32, 4);
    ArrayDescribed(3, INT32, 32, 4);
  }

  lemma PropellersOf(e: Type, t: Type, xs: seq<Place>, ys: seq<Place>, zs: seq<Place>, us: seq<Place>)
    requires Described(e, 12, 3) && t == Array(false, 4, e)
    requires Laid(e, 387, 52, xs) && Laid(e, 399, 55, ys) && Laid(e, 411, 58, zs) && Laid(e, 423, 61, us)
    ensures Laid(t, 387, 52, xs + (ys + (zs + (us + []))))
  {
    NoneLaid(e, 435, 64);
    NextItemLaid(e, 12, 3, 1, 423, 435, 61, 64, us, []);
    NextItemLaid(e, 12, 3, 2, 411, 423, 58, 61, zs, us + []);
    NextItemLaid(e, 12, 3, 3, 399, 411, 55, 58, ys, zs + (us + []));
    NextItemLaid(e, 12, 3, 4, 387, 399, 52, 55, xs, ys + (zs + (us + [])));
    ArrayLaid(t, 387, 52, xs + (ys + (zs + (us + []))));
  }

  lemma PropellersLaid(e: Type, t: Type)
    requires e == PROPELLER && t == Array(false, 4, e)
    ensures Laid(t, 387, 52, Rotor(387, 52) + (Rotor(399, 55) + (Rotor(411, 58) + (Rotor(423, 61) + []))))
  {
    SmallTypes();
    RotorLaid(e, 387, 52);
    RotorLaid(e, 399, 55);
    RotorLaid(e, 411, 58);
    RotorLaid(e, 423, 61);
    PropellersOf(e, t, Rotor(387, 52), Rotor(399, 55), Rotor(411, 58), Rotor(423, 61));
  }

  lemma LastOf(power: Type, network: Type, gear: Type, fs: Fields, xs: seq<Place>, ys: seq<Place>, zs: seq<Place>)
    requires Described(power, 11, 3) && Described(network, 68, 16) && Described(gear, 2, 1)
    requires Laid(power, 435, 64, xs) && Laid(network, 446, 72, ys) && Laid(gear, 514, 88, zs)
    requires fs == Next(64, power, Next(72, network, Next(88, gear, End)))
    ensures FieldsLaid(fs, 435, 0, xs + (ys + (zs + [])))
  {
    NoneLaid(power, 516, 0);
    NextLaid(88, gear, 2, 1, End, 514, 516, 0, 88, zs, []);
    NextLaid(72, network, 68, 16, Next(88, gear, End), 446, 514, 0, 72, ys, zs + []);
    NextLaid(64, power, 11, 3, Next(72, network, Next(88, gear, End)), 435, 446, 0, 64, xs, ys + (zs + []));
  }

  lemma FirstOf(status: Type, position: Type, flight: Type, propellers: Type, fs: Fields, t: Type, xs: seq<Place>,
                ys: seq<Place>, zs: seq<Place>, us: seq<Place>, more: seq<Place>)
    requires Described(status, 3, 1) && Described(position, 96, 12) && Described(flight, 288, 36)
      && Described(propellers, 48, 12)
    requires Laid(status, 0, 0, xs) && Laid(position, 3, 4, ys) && Laid(flight, 99, 16, zs)
      && Laid(propellers, 387, 52, us) && FieldsLaid(fs, 435, 0, more)
    requires t.Message?
      && t.fields == Next(0, status, Next(4, position, Next(16, flight, Next(52, propellers, fs))))
    ensures Laid(t, 0, 0, xs + (ys + (zs + (us + more))))
  {
    NextLaid(52, propellers, 48, 12, fs, 387, 435, 0, 52, us, more);
    NextLaid(16, flight, 288, 36, Next(52, propellers, fs), 99, 387, 0, 16, zs, us + more);
    NextLaid(4, position, 96, 12, Next(16, flight, Next(52, propellers, fs)), 3, 99, 0, 4, ys, zs + (us + more));
    NextLaid(0, status, 3, 1, Next(4, position, Next(16, flight, Next(52, propellers, fs))), 0, 3, 0, 0, xs,
      ys + (zs + (us + more)));
    MessageLaid(t, 0, 0, xs + (ys + (zs + (us + more))));
  }

  lemma DroneOf(status: Type, position: Type, flight: Type, propellers: Type, power: Type, network: Type, gear: Type,
                t: Type, a: seq<Place>, b: seq<Place>, c: seq<Place>, d: seq<Place>, e: seq<Place>, f: seq<Place>,
                g: seq<Place>)
    requires Described(status, 3, 1) && Described(position, 96, 12) && Described(flight, 288, 36)
      && Described(propellers, 48, 12) && Described(power, 11, 3) && Described(network, 68, 16)
      && Described(gear, 2, 1)
    requires Laid(status, 0, 0, a) && Laid(position, 3, 4, b) && Laid(flight, 99, 16, c)
      && Laid(propellers, 387, 52, d) && Laid(power, 435, 64, e) && Laid(network, 446, 72, f) && Laid(gear, 514, 88, g)
    requires t == Message(false, 516, 96, Next(0, status, Next(4, position, Next(16, flight, Next(52, propellers,
                          Next(64, power, Next(72, network, Next(88, gear, End))))))))
    ensures Laid(t, 0, 0, a + (b + (c + (d + (e + (f + (g + [])))))))
  {
    var fs := Next(64, power, Next(72, network, Next(88, gear, End)));
    LastOf(power, network, gear, fs, e, f, g);
    FirstOf(status, position, flight, propellers, fs, t, a, b, c, d, e + (f + (g + [])));
  }

  /** The same places, nested as in the types and in a row. */
  lemma Flat(a: seq<Place>, b: seq<Place>, c: seq<Place>, d: seq<Place>, e: seq<Place>, f: seq<Place>, g: seq<Place>,
             h: seq<Place>, i: seq<Place>, j: seq<Place>, k: seq<Place>, l: seq<Place>)
    ensures a + (b + ((c + (d + (e + []))) + ((f + (g + (h + (i + [])))) + (j + (k + (l + []))))))
         == a + b + c + d + e + f + g + h + i + j + k + l
  {
    assert c + (d + (e + [])) == c + d + e;
    assert f + (g + (h + (i + []))) == f + g + h + i;
    assert j + (k + (l + [])) == j + k + l;
    var x, y, z := c + d + e, f + g + h + i, j + k + l;
    assert a + (b + (x + (y + z))) == a + b + x + y + z;
    assert a + b + x == a + b + c + d + e;
    assert a + b + c + d + e + y == a + b + c + d + e + f + g + h + i;
    assert a + b + c + d + e + f + g + h + i + z == a + b + c + d + e + f + g + h + i + j + k + l;
  }

  lemma LayoutIs()
    ensures Layout() == [Place(0, 3, 0, 1, false)] + Triple(3, 4) + Triple(99, 16) + Triple(195, 28) + Triple(291, 40)
      + Rotor(387, 52) + Rotor(399, 55) + Rotor(411, 58) + Rotor(423, 61) + PowerPlaces(435, 64)
      + NetworkPlaces(446, 72) + [Place(514, 2, 88, 1, false)]
  {
  }

  lemma PartsLaid(status: Type, position: Type, flight: Type, propellers: Type, power: Type, network: Type, gear: Type,
                  t: Type)
    requires status == Scalar(ENUM, 3, 1) && position == POSITION && flight == FLIGHT
      && propellers == Array(false, 4, PROPELLER) && power == POWER && network == NETWORK && gear == LANDING_GEAR
    requires t == Message(false, 516, 96, Next(0, status, Next(4, position, Next(16, flight, Next(52, propellers,
                          Next(64, power, Next(72, network, Next(88, gear, End))))))))
    ensures Laid(t, 0, 0, [Place(0, 3, 0, 1, false)] + (Triple(3, 4)
              + ((Triple(99, 16) + (Triple(195, 28) + (Triple(291, 40) + [])))
              + ((Rotor(387, 52) + (Rotor(399, 55) + (Rotor(411, 58) + (Rotor(423, 61) + []))))
              + (PowerPlaces(435, 64) + (NetworkPlaces(446, 72) + ([Place(514, 2, 88, 1, false)] + [])))))))
  {
    ScalarDescribed(ENUM, 3, 1);
    DroneParts(position, flight, propellers, power, network, gear);
    StatusLaid(status, 0, 0);
    PositionLaid(position, 3, 4);
    FlightLaid(flight);
    PropellersLaid(PROPELLER, propellers);
    PowerLaid(power, 435, 64);
    NetworkLaid(network, 446, 72);
    GearLaid(gear, 514, 88);
    DroneOf(status, position, flight, propellers, power, network, gear, t, [Place(0, 3, 0, 1, false)], Triple(3, 4),
      Triple(99, 16) + (Triple(195, 28) + (Triple(291, 40) + [])),
      Rotor(387, 52) + (Rotor(399, 55) + (Rotor(411, 58) + (Rotor(423, 61) + []))), PowerPlaces(435, 64),
      NetworkPlaces(446, 72), [Place(514, 2, 88, 1, false)]);
  }

  /** The scalars of a drone are at these places. */
  lemma DroneLaid()
    ensures Laid(DRONE, 0, 0, Layout())
  {
    PartsLaid(Scalar(ENUM, 3, 1), POSITION, FLIGHT, Array(false, 4, PROPELLER), POWER, NETWORK, LANDING_GEAR, DRONE);
    Flat([Place(0, 3, 0, 1, false)], Triple(3, 4), Triple(99, 16), Triple(195, 28), Triple(291, 40), Rotor(387, 52),
      Rotor(399, 55), Rotor(411, 58), Rotor(423, 61), PowerPlaces(435, 64), NetworkPlaces(446, 72),
      [Place(514, 2, 88, 1, false)]);
    LayoutIs();
  }

  // ----- The 65 bytes -----

  lemma SentLaid(t: Type, bits: nat, bytes: nat, big: bool, wire: Bytes, mem: Bytes, p: nat, ls: seq<Place>)
    requires Described(t, bits, bytes) && bits <= 8 * |wire| && ClearFrom(wire, 0) && p + bytes <= |mem|
    requires Laid(t, 0, 0, ls) && ls != []
    ensures var sent := Sent(big, t, wire, 0, mem, p).wire;
      && |sent| == |wire| && ClearFrom(sent, bits)
      && forall l, k :: l in ls && 0 <= k < l.n ==> PlaceBit(big, mem, p, l, k) == BitAt(sent, l.bit + k)
  {
    SentPlace(t, bits, bytes, big, wire, mem, p, ls[0]);
    forall l, k | l in ls && 0 <= k < l.n
      ensures PlaceBit(big, mem, p, l, k) == BitAt(Sent(big, t, wire, 0, mem, p).wire, l.bit + k)
    {
      SentPlace(t, bits, bytes, big, wire, mem, p, l);
    }
  }

  /** Signed numbers fill their C integers. */
  ghost predicate SignedFull(ls: seq<Place>) {
    forall l :: l in ls && l.signed ==> l.n == 8 * l.bytes
  }

  lemma OneSignedFull(l: Place)
    requires l in Layout()
    ensures l.signed ==> l.n == 8 * l.bytes
  {
  }

  lemma LayoutSignedFull()
    ensures SignedFull(Layout())
  {
    forall l | l in Layout()
      ensures l.signed ==> l.n == 8 * l.bytes
    {
      OneSignedFull(l);
    }
  }

  lemma ReceivedLaid(t: Type, bits: nat, bytes: nat, big: bool, wire: Bytes, mem: Bytes, p: nat, ls: seq<Place>)
    requires Described(t, bits, bytes) && bits <= 8 * |wire| && p + bytes <= |mem| && (big || Blank(mem, p, p + bytes))
    requires Laid(t, 0, 0, ls) && ls != [] && SignedFull(ls)
    ensures var got := Received(big, t, wire, 0, mem, p).mem;
      && SameOutside(mem, got, p, p + bytes)
      && forall l, k :: l in ls && 0 <= k < 8 * l.bytes ==>
          PlaceBit(big, got, p, l, k) == (k < l.n && BitAt(wire, l.bit + k))
  {
    ReceivedPlace(t, bits, bytes, big, wire, mem, p, ls[0]);
    forall l, k | l in ls && 0 <= k < 8 * l.bytes
      ensures PlaceBit(big, Received(big, t, wire, 0, mem, p).mem, p, l, k) == (k < l.n && BitAt(wire, l.bit + k))
    {
      ReceivedPlace(t, bits, bytes, big, wire, mem, p, l);
    }
  }

  /** The struct is encoded bit by bit as the layout says. Whatever the 96 bytes of the struct hold, on a
      host of either byte order: on clear bytes, the low bits of every field stand in their place, and
      nothing behind bit 515. */
  lemma DroneSent(big: bool, wire: Bytes, mem: Bytes, p: nat)
    requires |wire| >= 65 && ClearFrom(wire, 0) && p + 96 <= |mem|
    ensures var sent := Sent(big, DRONE, wire, 0, mem, p).wire;
      && |sent| == |wire| && ClearFrom(sent, 516)
      && forall l, k :: l in Layout() && 0 <= k < l.n ==> PlaceBit(big, mem, p, l, k) == BitAt(sent, l.bit + k)
  {
    DroneType();
    DroneLaid();
    SentLaid(DRONE, 516, 96, big, wire, mem, p, Layout());
  }

  /** And any 65 bytes are decoded bit by bit as it says, into a struct that is clear unless the host is a
      big-endian one: every field gets the bits of its place, and none above them. */
  lemma DroneReceived(big: bool, wire: Bytes, mem: Bytes, p: nat)
    requires |wire| >= 65 && p + 96 <= |mem| && (big || Blank(mem, p, p + 96))
    ensures var got := Received(big, DRONE, wire, 0, mem, p).mem;
      && SameOutside(mem, got, p, p + 96)
      && forall l, k :: l in Layout() && 0 <= k < 8 * l.bytes ==>
          PlaceBit(big, got, p, l, k) == (k < l.n && BitAt(wire, l.bit + k))
  {
    DroneType();
    DroneLaid();
    LayoutSignedFull();
    ReceivedLaid(DRONE, 516, 96, big, wire, mem, p, Layout());
  }
}
