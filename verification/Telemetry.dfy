/** Drones over the wire (src/drone.c): the round of one drone that a peer is to echo, and lists of
    drones, encoded, framed and sent by one host, and read and decoded by another. */
module Telemetry {
  import opened Bits
  import opened Schema
  import opened RoundTrip
  import opened Drone
  import opened Sockets
  import opened Framing

  ghost function DronePayload(big: bool, mem: Bytes): (p: Bytes)
    ensures |p| == BYTES_LENGTH_DRONE
  {
    Sent(big, DRONE, Zeros(BYTES_LENGTH_DRONE), 0, mem, 0).wire
  }

  ghost function DronePayloads(big: bool, mems: seq<Bytes>): (ps: seq<Bytes>)
    ensures |ps| == |mems| && Sendable(ps, BYTES_LENGTH_DRONE)
    ensures forall k :: 0 <= k < |mems| ==> ps[k] == DronePayload(big, mems[k])
  {
    seq(|mems|, k requires 0 <= k < |mems| => DronePayload(big, mems[k]))
  }

  /** A struct in memory with all its fields in range. */
  ghost predicate CarriesDrone(big: bool, mem: Bytes) {
    |mem| == 96 && InRange(DRONE, Read(big, DRONE, mem, 0))
  }

  /** One struct, as bytes in memory, encoded into a cleared payload. */
  method EncodePayload(big: bool, mem: Bytes) returns (payload: array<byte>)
    requires |mem| == 96
    ensures fresh(payload) && payload[..] == DronePayload(big, mem)
  {
    var drone := new byte[96](k requires 0 <= k < 96 => mem[k]);
    payload := new byte[BYTES_LENGTH_DRONE](_ => 0);
    assert drone[..] == mem && payload[..] == Zeros(BYTES_LENGTH_DRONE);
    var n := EncodeDrone(big, drone, 0, payload);
  }

  /** One payload, decoded into a cleared struct. */
  method DecodePayload(big: bool, payload: array<byte>) returns (drone: array<byte>)
    requires payload.Length == BYTES_LENGTH_DRONE
    modifies payload
    ensures payload[..] == old(payload[..]) && fresh(drone) && drone[..] == DroneFrom(big, payload[..])
  {
    drone := new byte[96](_ => 0);
    assert drone[..] == Zeros(96);
    var n := DecodeDrone(big, drone, 0, payload);
  }

  /** The struct that a payload is decoded to. */
  ghost function DroneFrom(big: bool, payload: Bytes): Bytes {
    Received(big, DRONE, payload, 0, Zeros(96), 0).mem
  }

  lemma DroneComesBack(bigW: bool, bigR: bool, mem: Bytes)
    requires CarriesDrone(bigW, mem)
    ensures Read(bigR, DRONE, DroneFrom(bigR, DronePayload(bigW, mem)), 0) == Read(bigW, DRONE, mem, 0)
  {
    DroneRoundTrip(bigW, bigR, mem, 0, Zeros(96), 0);
  }

  // ----- One round -----

  /** One round of run_roundtrip_session on a connected socket: a drone is encoded and sent, a frame
      is read, and if it is the echo of what was sent, it is decoded. The round fails only for the
      reply or because of the socket. */
  method Round(sock: Socket, big: bool, mem: Bytes)
    returns (status: Status, replyDrone: array<byte>, ghost calls: seq<Call>)
    requires |mem| == 96
    modifies sock
    ensures sock.calls == old(sock.calls) + calls && fresh(replyDrone)
    ensures status == OK || status == EIO || status == EBADMSG || status == EMSGSIZE
    ensures status == OK ==>
      && sock.outgoing == old(sock.outgoing) + Frame(DronePayload(big, mem))
      && ReadStep(old(sock.incoming), DronePayload(big, mem), sock.incoming, BYTES_LENGTH_DRONE)
      && replyDrone[..] == DroneFrom(big, DronePayload(big, mem))
    ensures status == OK && CarriesDrone(big, mem) ==> Read(big, DRONE, replyDrone[..], 0) == Read(big, DRONE, mem, 0)
    ensures status == EBADMSG ==> Parse(old(sock.incoming), BYTES_LENGTH_DRONE) == BadMessage
    ensures status == EMSGSIZE ==> Parse(old(sock.incoming), BYTES_LENGTH_DRONE) == TooLong
    ensures status == EIO ==>
      || Refuses(calls) || old(sock.now) + 30000 <= sock.now
      || exists p :: Parse(old(sock.incoming), BYTES_LENGTH_DRONE) == Payload(p) && p != DronePayload(big, mem)
  {
    replyDrone := new byte[96](_ => 0);
    ghost var record, start := sock.calls, sock.now;
    var payload := EncodePayload(big, mem);
    ghost var first, second;
    status, first, second := WriteFrame(sock, big, payload, BYTES_LENGTH_DRONE);
    assert payload[..BYTES_LENGTH_DRONE] == payload[..];
    ghost var wrote, middle := first.calls + second.calls, sock.now;
    calls := wrote;
    if status != OK { return; }
    var reply, replyLen := new byte[BYTES_LENGTH_DRONE](_ => 0), new nat[1];
    status, first, second := ReadFrame(sock, big, reply, BYTES_LENGTH_DRONE, replyLen);
    ghost var had := first.calls + second.calls;
    calls := wrote + had;
    MoreCalls(record, wrote, had, start, middle, sock.now);
    if status != OK {
      if status == EIO { Ended(wrote, had, start, middle, sock.now); }
      return;
    }
    assert Parse(old(sock.incoming), BYTES_LENGTH_DRONE) == Payload(reply[..replyLen[0]]);
    if replyLen[0] != BYTES_LENGTH_DRONE { return EIO, replyDrone, calls; }
    assert reply[..replyLen[0]] == reply[..];
    if reply[..] != payload[..] { return EIO, replyDrone, calls; }
    replyDrone := DecodePayload(big, reply);
    if CarriesDrone(big, mem) { DroneComesBack(big, big, mem); }
  }

  // ----- Many drones -----

  /** Encodes drones and sends each in a frame, until one cannot be sent. */
  method SendDrones(sock: Socket, big: bool, mems: seq<Bytes>)
    returns (status: Status, sent: nat, ghost torn: nat, ghost out: Bytes, ghost calls: seq<Call>, ghost settled: nat)
    requires forall k :: 0 <= k < |mems| ==> |mems[k]| == 96
    modifies sock
    ensures sock.outgoing == old(sock.outgoing) + out && sock.incoming == old(sock.incoming)
    ensures sock.calls == old(sock.calls) + calls
    ensures Wrote(status, DronePayloads(big, mems), sent, torn, out, calls, settled, old(sock.now), sock.now)
  {
    var payloads: seq<array<byte>> := [];
    while |payloads| < |mems|
      invariant |payloads| <= |mems| && unchanged(sock)
      invariant forall k :: 0 <= k < |payloads| ==> fresh(payloads[k]) && payloads[k][..] == DronePayload(big, mems[k])
    {
      var payload := EncodePayload(big, mems[|payloads|]);
      payloads := payloads + [payload];
    }
    assert Contents(payloads) == DronePayloads(big, mems);
    status, sent, torn, out, calls, settled := WriteFrames(sock, big, payloads);
  }

  /** Reads frames until there are enough or a read fails, and decodes what was read, each into a
      cleared struct, up to a payload of another length than a drone's. */
  method ReceiveDrones(sock: Socket, big: bool, count: nat)
    returns (status: Status, drones: seq<array<byte>>, results: seq<Bytes>,
             ghost streams: seq<Bytes>, ghost calls: seq<Call>, ghost settled: nat)
    modifies sock
    ensures sock.outgoing == old(sock.outgoing) && sock.calls == old(sock.calls) + calls
    ensures Had(status, results, streams, BYTES_LENGTH_DRONE, count, calls, settled, old(sock.now), sock.now)
    ensures streams[0] == old(sock.incoming)
    ensures |drones| <= |results| && (|drones| < |results| ==> |results[|drones|]| != BYTES_LENGTH_DRONE)
    ensures forall k :: 0 <= k < |drones| ==>
      |results[k]| == BYTES_LENGTH_DRONE && drones[k][..] == DroneFrom(big, results[k])
  {
    var reply := new byte[BYTES_LENGTH_DRONE](_ => 0);
    status, results, streams, calls, settled := ReadFrames(sock, big, reply, count);
    drones := DecodeAll(big, results);
  }

  /** The structs of the payloads up to one of another length. */
  method DecodeAll(big: bool, results: seq<Bytes>) returns (drones: seq<array<byte>>)
    ensures |drones| <= |results| && (|drones| < |results| ==> |results[|drones|]| != BYTES_LENGTH_DRONE)
    ensures forall k :: 0 <= k < |drones| ==>
      |results[k]| == BYTES_LENGTH_DRONE && drones[k][..] == DroneFrom(big, results[k])
  {
    drones := [];
    while |drones| < |results| && |results[|drones|]| == BYTES_LENGTH_DRONE
      invariant |drones| <= |results|
      invariant forall k :: 0 <= k < |drones| ==>
        |results[k]| == BYTES_LENGTH_DRONE && drones[k][..] == DroneFrom(big, results[k])
    {
      var r := results[|drones|];
      var payload := new byte[BYTES_LENGTH_DRONE](k requires 0 <= k < BYTES_LENGTH_DRONE => r[k]);
      assert payload[..] == r;
      var drone := DecodePayload(big, payload);
      drones := drones + [drone];
    }
  }

  /** End to end: of the drones that a host of either byte order sent, however its connection
      ended, a host of either byte order that reads those bytes gets the first ones, in order and
      with every field as it was, and never more than were sent whole. */
  lemma DronesArrive(bigW: bool, bigR: bool, mems: seq<Bytes>, sent: nat, torn: nat, out: Bytes,
                     streams: seq<Bytes>, results: seq<Bytes>)
    requires forall k :: 0 <= k < |mems| ==> CarriesDrone(bigW, mems[k])
    requires Outgoing(out, DronePayloads(bigW, mems), sent, torn)
    requires ReadRun(streams, results, BYTES_LENGTH_DRONE) && streams[0] == out
    ensures |results| <= sent
    ensures forall k :: 0 <= k < |results| ==>
      |results[k]| == BYTES_LENGTH_DRONE
          && Read(bigR, DRONE, DroneFrom(bigR, results[k]), 0) == Read(bigW, DRONE, mems[k], 0)
  {
    FramesArrive(DronePayloads(bigW, mems), sent, torn, streams, results, BYTES_LENGTH_DRONE);
    forall k | 0 <= k < |results|
      ensures |results[k]| == BYTES_LENGTH_DRONE
      ensures Read(bigR, DRONE, DroneFrom(bigR, results[k]), 0) == Read(bigW, DRONE, mems[k], 0)
    {
      assert results[k] == DronePayloads(bigW, mems)[k] && CarriesDrone(bigW, mems[k]);
      DroneComesBack(bigW, bigR, mems[k]);
    }
  }

  /** If neither side is interrupted, all of them: every drone is sent, and as many are received as
      are asked for. */
  lemma AllDronesArrive(bigW: bool, bigR: bool, mems: seq<Bytes>,
                        statusW: Status, sent: nat, torn: nat, out: Bytes,
                        callsW: seq<Call>, settledW: nat, startW: int, nowW: int,
                        statusR: Status, results: seq<Bytes>, streams: seq<Bytes>,
                        callsR: seq<Call>, settledR: nat, startR: int, nowR: int)
    requires forall k :: 0 <= k < |mems| ==> CarriesDrone(bigW, mems[k])
    requires Wrote(statusW, DronePayloads(bigW, mems), sent, torn, out, callsW, settledW, startW, nowW)
    requires Had(statusR, results, streams, BYTES_LENGTH_DRONE, |mems|, callsR, settledR, startR, nowR)
    requires streams[0] == out
    requires !Interrupted(callsW, settledW, startW, nowW) && !Interrupted(callsR, settledR, startR, nowR)
    ensures statusW == OK == statusR && |results| == |mems|
    ensures forall k :: 0 <= k < |mems| ==>
      Read(bigR, DRONE, DroneFrom(bigR, results[k]), 0) == Read(bigW, DRONE, mems[k], 0)
  {
    var ps := DronePayloads(bigW, mems);
    AllFramesSent(statusW, ps, sent, torn, out, callsW, settledW, startW, nowW);
    AllFramesArrive(ps, sent, torn, statusR, results, streams, BYTES_LENGTH_DRONE, |mems|, callsR, settledR, startR,
        nowR);
    DronesArrive(bigW, bigR, mems, sent, torn, out, streams, results);
  }
}
