/** The messages of drone.bitproto as the generated processors describe them, and their encoder
    and decoder (src/bitproto/drone_bp.c). Offsets follow the natural alignment of the C structs. */
module Drone {
  import opened Bits
  import opened Schema
  import opened Memory
  import opened RoundTrip
  import opened Messages

  const INT32 := Scalar(INT, 32, 4)
  const TIMESTAMP := Alias(Scalar(INT, 64, 8))
  const TERNARY := Alias(Array(false, 3, INT32))
  const PROPELLER := Message(false, 12, 3,
    Next(0, Scalar(UINT, 8, 1), Next(1, Scalar(ENUM, 2, 1), Next(2, Scalar(ENUM, 2, 1), End))))
  const POWER := Message(false, 11, 3,
    Next(0, Scalar(UINT, 8, 1), Next(1, Scalar(ENUM, 2, 1), Next(2, Scalar(BOOL, 1, 1), End))))
  const NETWORK := Message(false, 68, 16, Next(0, Scalar(UINT, 4, 1), Next(8, TIMESTAMP, End)))
  const LANDING_GEAR := Message(false, 2, 1, Next(0, Scalar(ENUM, 2, 1), End))
  const POSITION := Message(false, 96, 12, Next(0, INT32, Next(4, INT32, Next(8, INT32, End))))
  const POSE := POSITION
  const FLIGHT := Message(false, 288, 36, Next(0, POSE, Next(12, TERNARY, Next(24, TERNARY, End))))
  const DRONE := Message(false, 516, 96,
    Next(0, Scalar(ENUM, 3, 1),
    Next(4, POSITION,
    Next(16, FLIGHT,
    Next(52, Array(false, 4, PROPELLER),
    Next(64, POWER,
    Next(72, NETWORK,
    Next(88, LANDING_GEAR, End))))))))

  const BYTES_LENGTH_DRONE := 65

  // ----- The types are well-formed, and have the bits and bytes their descriptors state -----

  lemma PositionType()
    ensures Described(POSITION, 96, 12)
  {
    ScalarDescribed(INT, 32, 4);
    ThreeDescribed(INT32, 32, 4, INT32, 32, 0);
    MessageDescribed(96, 12, POSITION.fields);
  }

  lemma FlightType()
    ensures Described(FLIGHT, 288, 36)
  {
    ScalarDescribed(INT, 32, 4);
    ArrayDescribed(3, INT32, 32, 4);
    PositionType();
    NextDescribed(24, TERNARY, 96, 12, End, 0, 24, 36);
    NextDescribed(12, TERNARY, 96, 12, Next(24, TERNARY, End), 96, 12, 36);
    NextDescribed(0, POSE, 96, 12, Next(12, TERNARY, Next(24, TERNARY, End)), 192, 0, 36);
    MessageDescribed(288, 36, FLIGHT.fields);
  }

  lemma SmallTypes()
    ensures Described(PROPELLER, 12, 3) && Described(LANDING_GEAR, 2, 1)
  {
    ScalarDescribed(UINT, 8, 1);
    ScalarDescribed(ENUM, 2, 1);
    var two := Next(1, Scalar(ENUM, 2, 1), Next(2, Scalar(ENUM, 2, 1), End));
    NextDescribed(2, Scalar(ENUM, 2, 1), 2, 1, End, 0, 2, 3);
    NextDescribed(1, Scalar(ENUM, 2, 1), 2, 1, Next(2, Scalar(ENUM, 2, 1), End), 2, 1, 3);
    NextDescribed(0, Scalar(UINT, 8, 1), 8, 1, two, 4, 0, 3);
    MessageDescribed(12, 3, PROPELLER.fields);
    NextDescribed(0, Scalar(ENUM, 2, 1), 2, 1, End, 0, 0, 1);
    MessageDescribed(2, 1, LANDING_GEAR.fields);
  }

  lemma PowerType()
    ensures Described(POWER, 11, 3)
  {
    ScalarDescribed(UINT, 8, 1);
    ScalarDescribed(ENUM, 2, 1);
    ScalarDescribed(BOOL, 1, 1);
    var last := Next(2, Scalar(BOOL, 1, 1), End);
    NextDescribed(2, Scalar(BOOL, 1, 1), 1, 1, End, 0, 2, 3);
    NextDescribed(1, Scalar(ENUM, 2, 1), 2, 1, last, 1, 1, 3);
    NextDescribed(0, Scalar(UINT, 8, 1), 8, 1, Next(1, Scalar(ENUM, 2, 1), last), 3, 0, 3);
    MessageDescribed(11, 3, POWER.fields);
  }

  lemma NetworkType()
    ensures Described(NETWORK, 68, 16)
  {
    ScalarDescribed(UINT, 4, 1);
    ScalarDescribed(INT, 64, 8);
    NextDescribed(8, TIMESTAMP, 64, 8, End, 0, 1, 16);
    NextDescribed(0, Scalar(UINT, 4, 1), 4, 1, Next(8, TIMESTAMP, End), 64, 0, 16);
    MessageDescribed(68, 16, NETWORK.fields);
  }

  lemma DroneParts(position: Type, flight: Type, propellers: Type, power: Type, network: Type, gear: Type)
    requires position == POSITION && flight == FLIGHT && propellers == Array(false, 4, PROPELLER)
    requires power == POWER && network == NETWORK && gear == LANDING_GEAR
    ensures Described(position, 96, 12) && Described(flight, 288, 36) && Described(propellers, 48, 12)
    ensures Described(power, 11, 3) && Described(network, 68, 16) && Described(gear, 2, 1)
  {
    PositionType();
    FlightType();
    SmallTypes();
    PowerType();
    NetworkType();
    ArrayDescribed(4, PROPELLER, 12, 3);
  }

  lemma DroneOf(position: Type, flight: Type, propellers: Type, power: Type, network: Type, gear: Type, t: Type)
    requires Described(position, 96, 12) && Described(flight, 288, 36) && Described(propellers, 48, 12)
    requires Described(power, 11, 3) && Described(network, 68, 16) && Described(gear, 2, 1)
    requires t == Message(false, 516, 96,
      Next(0, Scalar(ENUM, 3, 1), Next(4, position, Next(16, flight, Next(52, propellers,
                          Next(64, power, Next(72, network, Next(88, gear, End))))))))
    ensures Described(t, 516, 96)
  {
    ScalarDescribed(ENUM, 3, 1);
    DroneFields(Scalar(ENUM, 3, 1), position, flight, propellers, power, network, gear);
    MessageDescribed(516, 96, t.fields);
  }

  lemma DroneType()
    ensures Described(DRONE, 516, 96)
  {
    DroneParts(POSITION, FLIGHT, Array(false, 4, PROPELLER), POWER, NETWORK, LANDING_GEAR);
    DroneOf(POSITION, FLIGHT, Array(false, 4, PROPELLER), POWER, NETWORK, LANDING_GEAR, DRONE);
  }

  lemma DroneFields(status: Type, position: Type, flight: Type, propellers: Type, power: Type, network: Type,
                    gear: Type)
    requires Described(status, 3, 1) && Described(position, 96, 12) && Described(flight, 288, 36)
    requires Described(propellers, 48, 12) && Described(power, 11, 3) && Described(network, 68, 16)
      && Described(gear, 2, 1)
    ensures FieldsDescribed(Next(0, status, Next(4, position, Next(16, flight, Next(52, propellers,
                            Next(64, power, Next(72, network, Next(88, gear, End))))))), 0, 96, 516)
  {
    var f7 := Next(88, gear, End);
    var f6 := Next(72, network, f7);
    var f5 := Next(64, power, f6);
    var f4 := Next(52, propellers, f5);
    var f3 := Next(16, flight, f4);
    var f2 := Next(4, position, f3);
    NextDescribed(88, gear, 2, 1, End, 0, 88, 96);
    NextDescribed(72, network, 68, 16, f7, 2, 67, 96);
    NextDescribed(64, power, 11, 3, f6, 70, 64, 96);
    NextDescribed(52, propellers, 48, 12, f5, 81, 52, 96);
    NextDescribed(16, flight, 288, 36, f4, 129, 16, 96);
    NextDescribed(4, position, 96, 12, f3, 417, 1, 96);
    NextDescribed(0, status, 3, 1, f2, 513, 0, 96);
  }

  // ----- Encoding and decoding -----

  method EncodeDrone(big: bool, m: array<byte>, p: nat, s: array<byte>) returns (n: nat)
    requires m != s && p + 96 <= m.Length && BYTES_LENGTH_DRONE <= s.Length
    modifies s, m
    ensures n == BYTES_LENGTH_DRONE && m[..] == old(m[..])
    ensures s[..] == Sent(big, DRONE, old(s[..]), 0, m[..], p).wire
  {
    DroneType();
    n := EncodeMessageType(DRONE, 516, 96, BYTES_LENGTH_DRONE, big, m, p, s);
  }

  method DecodeDrone(big: bool, m: array<byte>, p: nat, s: array<byte>) returns (n: nat)
    requires m != s && p + 96 <= m.Length && BYTES_LENGTH_DRONE <= s.Length
    modifies s, m
    ensures n == BYTES_LENGTH_DRONE && s[..] == old(s[..])
    ensures m[..] == Received(big, DRONE, s[..], 0, old(m[..]), p).mem
  {
    DroneType();
    n := DecodeMessageType(DRONE, 516, 96, BYTES_LENGTH_DRONE, big, m, p, s);
  }

  /** Any drone in range that is encoded into 65 zero bytes, by a host of either byte order, is
      decoded to itself by a host of either byte order, into a zeroed struct unless it is a
      big-endian one; the wire takes 516
      bits, the four after them stay clear, and both cursors stop there. */
  lemma DroneRoundTrip(bigW: bool, bigR: bool, memW: Bytes, pW: nat, memR: Bytes, pR: nat)
    requires pW + 96 <= |memW| && pR + 96 <= |memR| && (bigR || Blank(memR, pR, pR + 96))
    requires InRange(DRONE, Read(bigW, DRONE, memW, pW))
    ensures var sent := Sent(bigW, DRONE, Zeros(BYTES_LENGTH_DRONE), 0, memW, pW);
      var got := Received(bigR, DRONE, sent.wire, 0, memR, pR);
      && sent.i == got.i == 516
      && ClearFrom(sent.wire, 516)
      && Slice(sent.wire, 0, 516) == WireBits(DRONE, Read(bigW, DRONE, memW, pW))
      && Read(bigR, DRONE, got.mem, pR) == Read(bigW, DRONE, memW, pW)
      && SameOutside(memR, got.mem, pR, pR + 96)
  {
    DroneType();
    RoundTripOf(DRONE, 516, 96, BYTES_LENGTH_DRONE, bigW, bigR, memW, pW, memR, pR);
  }
}
