/** Frames over a byte stream (src/bitproto/protocol_utls.c): a four-byte header with a magic
    number, a payload type and a length, and then the payload. */
module Framing {
  import opened Bits
  import opened Sockets
  import opened FrameHeader

  // ----- What is on the stream -----

  function DroneHeader(length: nat): (h: Header) {
    Header(FRAME_MAGIC, 0, PAYLOAD_TYPE_DRONE, length)
  }

  function Frame(payload: Bytes): (f: Bytes)
    requires |payload| <= UINT16_MAX
    ensures |f| == BYTES_LENGTH_FRAMEHEADER + |payload|
  {
    HeaderBytes(DroneHeader(|payload|)) + payload
  }

  /** A frame as bytes: the magic number, version 0 below payload type 1, the length, least significant
      byte first, and the payload. */
  lemma FrameIs(payload: Bytes)
    requires |payload| <= 0xFFFF
    ensures Frame(payload) == [0xB1, 8, |payload| % 256, |payload| / 256] + payload
  {
  }

  ghost predicate Sendable(payloads: seq<Bytes>, capacity: nat) {
    forall k :: 0 <= k < |payloads| ==> |payloads[k]| <= UINT16_MAX && |payloads[k]| <= capacity
  }

  /** Frames one after the other. */
  ghost function Stream(payloads: seq<Bytes>): Bytes
    requires forall k :: 0 <= k < |payloads| ==> |payloads[k]| <= UINT16_MAX
  {
    if payloads == [] then [] else Frame(payloads[0]) + Stream(payloads[1..])
  }

  /** One frame more at the end. */
  lemma {:induction false} StreamAppend(payloads: seq<Bytes>, p: Bytes)
    requires |p| <= UINT16_MAX && forall k :: 0 <= k < |payloads| ==> |payloads[k]| <= UINT16_MAX
    ensures Stream(payloads + [p]) == Stream(payloads) + Frame(p)
  {
    var all := payloads + [p];
    if payloads == [] {
      assert Stream([]) == [] && all[1..] == [];
    } else {
      var first, rest := Frame(payloads[0]), Stream(payloads[1..]);
      StreamAppend(payloads[1..], p);
      assert all[1..] == payloads[1..] + [p];
      assert Stream(all) == first + (rest + Frame(p)) == first + rest + Frame(p);
    }
  }

  /** What the front of a stream is to a reader with a buffer of the given capacity. */
  datatype Parsed = Payload(bytes: Bytes) | BadMessage | TooLong | Incomplete

  function Parse(stream: Bytes, capacity: nat): Parsed {
    if |stream| < BYTES_LENGTH_FRAMEHEADER then Incomplete
    else
      var h := HeaderOf(stream[..BYTES_LENGTH_FRAMEHEADER]);
      if h.magic != FRAME_MAGIC || h.payloadType != PAYLOAD_TYPE_DRONE then BadMessage
      else if h.payloadLength > capacity then TooLong
      else if |stream| < BYTES_LENGTH_FRAMEHEADER + h.payloadLength then Incomplete
      else Payload(stream[BYTES_LENGTH_FRAMEHEADER..][..h.payloadLength])
  }

  /** A stream parses to a payload exactly when it begins with that payload's length and bytes,
      behind the magic number and any of the eight versions. */
  lemma Accepted(stream: Bytes, capacity: nat, p: Bytes)
    ensures Parse(stream, capacity) == Payload(p) <==>
      && |p| <= capacity && 4 + |p| <= |stream|
      && stream[0] == 0xB1 && 8 <= stream[1] < 16 && stream[2] == |p| % 256 && stream[3] == |p| / 256
      && stream[4..4 + |p|] == p
    ensures Parse(stream, capacity) == BadMessage <==>
      4 <= |stream| && !(stream[0] == 0xB1 && 8 <= stream[1] < 16)
    ensures Parse(stream, capacity) == TooLong <==>
      && 4 <= |stream| && stream[0] == 0xB1 && 8 <= stream[1] < 16
      && (stream[3] > capacity / 256 || (stream[3] == capacity / 256 && stream[2] > capacity % 256))
  {
    if 4 <= |stream| {
      var n := HeaderOf(stream[..4]).payloadLength;
      if 4 + n <= |stream| { assert stream[4..][..n] == stream[4..4 + n]; }
    }
  }

  /** A frame parses to its payload, and is told to be too long when it is. */
  lemma WholeFrame(p: Bytes, rest: Bytes, capacity: nat)
    requires |p| <= UINT16_MAX
    ensures Parse(Frame(p) + rest, capacity) == if |p| <= capacity then Payload(p) else TooLong
    ensures (Frame(p) + rest)[4 + |p|..] == rest
  {
    var s := Frame(p) + rest;
    var w := HeaderBytes(DroneHeader(|p|));
    assert s[..4] == w;
    HeaderBijection(DroneHeader(|p|), w);
    if |p| <= capacity { assert s[4..][..|p|] == p; }
  }

  /** Part of a frame never parses to a payload, nor to a bad message. */
  lemma TornFrame(p: Bytes, k: nat, capacity: nat)
    requires |p| <= UINT16_MAX && k < |Frame(p)|
    ensures Parse(Frame(p)[..k], capacity) == if 4 <= k && capacity < |p| then TooLong else Incomplete
  {
    var w := HeaderBytes(DroneHeader(|p|));
    HeaderBijection(DroneHeader(|p|), w);
    if 4 <= k { assert Frame(p)[..k][..4] == w; }
  }

  // ----- Runs -----

  /** Some successful reads in a row: the stream before and after each, and what each returned. */
  ghost predicate ReadRun(streams: seq<Bytes>, results: seq<Bytes>, capacity: nat) {
    && |streams| == |results| + 1
    && forall k :: 0 <= k < |results| ==> ReadStep(streams[k], results[k], streams[k + 1], capacity)
  }

  ghost predicate ReadStep(before: Bytes, result: Bytes, after: Bytes, capacity: nat) {
    && Parse(before, capacity) == Payload(result)
    && 4 + |result| <= |before| && after == before[4 + |result|..]
  }

  /** Reads from a stream of frames return their payloads in order and stop between frames. */
  lemma {:induction false} ReadsInOrder(payloads: seq<Bytes>, tail: Bytes, streams: seq<Bytes>, results: seq<Bytes>,
                                        capacity: nat)
    requires Sendable(payloads, capacity)
    requires ReadRun(streams, results, capacity) && streams[0] == Stream(payloads) + tail
    requires |results| <= |payloads|
    ensures results == payloads[..|results|]
    ensures streams[|results|] == Stream(payloads[|results|..]) + tail
  {
    if results != [] {
      var p, more := payloads[0], payloads[1..];
      assert streams[0] == Frame(p) + (Stream(more) + tail);
      WholeFrame(p, Stream(more) + tail, capacity);
      assert ReadStep(streams[0], results[0], streams[1], capacity);
      var streams', results' := streams[1..], results[1..];
      forall k | 0 <= k < |results'|
        ensures ReadStep(streams'[k], results'[k], streams'[k + 1], capacity)
      {
        assert ReadStep(streams[k + 1], results[k + 1], streams[k + 2], capacity);
      }
      ReadsInOrder(more, tail, streams', results', capacity);
      assert payloads[|results|..] == more[|results'|..];
      assert streams[|results|] == streams'[|results'|];
    }
  }

  lemma NextFrame(payloads: seq<Bytes>, tail: Bytes, capacity: nat)
    requires Sendable(payloads, capacity)
    ensures Parse(Stream(payloads) + tail, capacity) == if payloads == [] then Parse(tail, capacity)
      else Payload(payloads[0])
  {
    if payloads == [] {
      assert Stream(payloads) + tail == tail;
    } else {
      var rest := Stream(payloads[1..]) + tail;
      WholeFrame(payloads[0], rest, capacity);
      assert Stream(payloads) + tail == Frame(payloads[0]) + rest;
    }
  }

  lemma NoMoreReads(payloads: seq<Bytes>, tail: Bytes, streams: seq<Bytes>, results: seq<Bytes>, capacity: nat)
    requires Sendable(payloads, capacity) && !Parse(tail, capacity).Payload?
    requires ReadRun(streams, results, capacity) && streams[0] == Stream(payloads) + tail
    ensures |results| <= |payloads|
  {
    var n := |payloads|;
    if n < |results| {
      var streams', results' := streams[..n + 1], results[..n];
      assert ReadStep(streams[n], results[n], streams[n + 1], capacity);
      forall j | 0 <= j < n
        ensures ReadStep(streams'[j], results'[j], streams'[j + 1], capacity)
      {
        assert ReadStep(streams[j], results[j], streams[j + 1], capacity);
      }
      NextFrame(payloads[n..], tail, capacity);
      ReadsInOrder(payloads, tail, streams', results', capacity);
    }
  }

  /** However the writer's connection ends, the reader gets the payloads whose frames were sent
      whole, and no others: after some frames and a part of one more, exactly those are read. */
  lemma OnlyWholeFrames(payloads: seq<Bytes>, p: Bytes, k: nat, streams: seq<Bytes>, results: seq<Bytes>, capacity: nat)
    requires Sendable(payloads, capacity) && |p| <= UINT16_MAX && |p| <= capacity && k < |Frame(p)|
    requires ReadRun(streams, results, capacity) && streams[0] == Stream(payloads) + Frame(p)[..k]
    ensures |results| <= |payloads| && results == payloads[..|results|]
    ensures Parse(streams[|results|], capacity) == Incomplete <==> |results| == |payloads|
  {
    var tail := Frame(p)[..k];
    TornFrame(p, k, capacity);
    NoMoreReads(payloads, tail, streams, results, capacity);
    ReadsInOrder(payloads, tail, streams, results, capacity);
    NextFrame(payloads[|results|..], tail, capacity);
  }

  /** The stream says what was sent: two lists of payloads with the same frames are the same. */
  lemma {:induction false} StreamInjective(ps: seq<Bytes>, qs: seq<Bytes>)
    requires Sendable(ps, UINT16_MAX) && Sendable(qs, UINT16_MAX) && Stream(ps) == Stream(qs)
    ensures ps == qs
  {
    if ps != [] && qs != [] {
      WholeFrame(ps[0], Stream(ps[1..]), UINT16_MAX);
      WholeFrame(qs[0], Stream(qs[1..]), UINT16_MAX);
      StreamInjective(ps[1..], qs[1..]);
      assert ps == [ps[0]] + ps[1..] && qs == [qs[0]] + qs[1..];
    }
  }

  /** A frame refused for its length stays in the stream without its header, so that the next
      read takes the payload for a frame. */
  lemma RefusedFrameStays(p: Bytes, rest: Bytes, capacity: nat)
    requires capacity < |p| <= UINT16_MAX
    ensures Parse(Frame(p) + rest, capacity) == TooLong && (Frame(p) + rest)[4..] == p + rest
  {
    WholeFrame(p, rest, capacity);
  }

  // ----- Writing and reading -----

  lemma PartOfFrame(out: Bytes, header: Bytes, body: Bytes, frame: Bytes, k: nat)
    requires k <= |body| && frame == header + body && |header| == 4
    ensures out + header + body[..k] == out + frame[..4 + k]
    ensures k == |body| ==> out + header + body[..k] == out + frame
  {
    assert header + body[..k] == frame[..4 + k];
    assert out + header + body[..k] == out + (header + body[..k]);
    assert k == |body| ==> body[..k] == body;
  }

  /** The header of a frame, filled in and encoded. */
  method BuildHeader(big: bool, payloadLen: nat) returns (hdrBuf: array<byte>)
    requires payloadLen <= UINT16_MAX
    ensures fresh(hdrBuf) && hdrBuf.Length == 4 && hdrBuf[..] == HeaderBytes(DroneHeader(payloadLen))
  {
    var hdr := new byte[6](_ => 0);
    hdrBuf := new byte[BYTES_LENGTH_FRAMEHEADER](_ => 0);
    hdr[0] := FRAME_MAGIC;
    hdr[2] := PAYLOAD_TYPE_DRONE;
    hdr[if big then 5 else 4] := payloadLen % 256;
    hdr[if big then 4 else 5] := payloadLen / 256;
    assert hdrBuf[..] == Zeros(4);
    assert HeaderAt(big, hdr[..], 0) == DroneHeader(payloadLen);
    var n := EncodeFrameHeader(big, hdr, hdrBuf);
  }

  /** A failure is the socket's: a call that it refused, or the time. */
  lemma FailedMeans(log: Log, len: nat, now: int, start: int, x: seq<Call>, y: seq<Call>)
    requires Failed(log, len, now) && start + 30000 <= log.deadline && (log.calls == x || log.calls == y)
    ensures Refuses(x + y) || start + 30000 <= now
  {
    var n := |log.calls| - 1;
    if log.calls[n].Refused? {
      if log.calls == x { assert (x + y)[n] == x[n]; } else { assert (x + y)[|x| + n] == y[n]; }
    }
  }

  /** The calls of two loops, one after the other. */
  lemma TwoLoops(before: seq<Call>, x: seq<Call>, y: seq<Call>, start: int, middle: int, end: int)
    requires LastAt(x, start) <= middle <= end && LastAt(y, middle) <= end
    ensures before + x + y == before + (x + y) && LastAt(x + y, start) <= end
    ensures Total(x + y) == Total(x) + Total(y)
  {
    TotalJoin(x, y);
    if y == [] { assert x + y == x; }
  }

  /** Writes one frame. A payload that is too long sends nothing, and a failure a part of the frame.
      It fails only if the socket refuses a call, or the time is up. */
  method WriteFrame(sock: Socket, big: bool, payload: array<byte>, payloadLen: nat)
    returns (status: Status, ghost first: Log, ghost second: Log)
    requires payloadLen <= payload.Length
    modifies sock
    ensures sock.calls == old(sock.calls) + (first.calls + second.calls)
    ensures old(sock.now) <= sock.now && LastAt(first.calls + second.calls, old(sock.now)) <= sock.now
    ensures sock.incoming == old(sock.incoming)
    ensures status == OK || status == EINVAL || status == EIO
    ensures status == EINVAL <==> payloadLen > 0xFFFF
    ensures status == EINVAL ==> sock.outgoing == old(sock.outgoing) && first.calls == second.calls == []
    ensures status == OK ==> Completed(first, 4) && Completed(second, payloadLen)
    ensures status == EIO ==>
      Failed(first, 4, sock.now) || (Completed(first, 4) && Failed(second, payloadLen, sock.now))
    ensures status == EIO ==>
      Refuses(first.calls + second.calls) || old(sock.now) + 30000 <= sock.now
    ensures status == OK ==> sock.outgoing == old(sock.outgoing) + Frame(payload[..payloadLen])
    ensures Total(first.calls + second.calls) == Total(first.calls) + Total(second.calls)
    ensures status == EIO ==>
      var sent := Total(first.calls + second.calls);
      sent < 4 + payloadLen && sock.outgoing == old(sock.outgoing) + Frame(payload[..payloadLen])[..sent]
  {
    first, second := Log([], 0), Log([], 0);
    if payloadLen > UINT16_MAX { return EINVAL, first, second; }
    ghost var record, start := sock.calls, sock.now;
    var hdrBuf := BuildHeader(big, payloadLen);
    ghost var body := payload[..payloadLen];
    assert Frame(body) == hdrBuf[..] + body;
    status, first := SendAll(sock, hdrBuf, BYTES_LENGTH_FRAMEHEADER);
    ghost var middle := sock.now;
    if status != OK {
      assert hdrBuf[..Total(first.calls)] == Frame(body)[..Total(first.calls)];
      TwoLoops(record, first.calls, [], start, middle, middle);
      FailedMeans(first, 4, middle, start, first.calls, []);
      return EIO, first, second;
    }
    assert hdrBuf[..4] == hdrBuf[..];
    status, second := SendAll(sock, payload, payloadLen);
    TwoLoops(record, first.calls, second.calls, start, middle, sock.now);
    if status == EIO { FailedMeans(second, payloadLen, sock.now, start, first.calls, second.calls); }
    PartOfFrame(old(sock.outgoing), hdrBuf[..], body, Frame(body), Total(second.calls));
    assert body[..Total(second.calls)] == payload[..Total(second.calls)];
  }

  /** The length that the header in front of a stream announces. */
  function Announced(stream: Bytes): nat {
    if |stream| < 4 then 0 else HeaderOf(stream[..4]).payloadLength
  }

  /** Reads one frame, as the front of the stream parses. A status other than EIO is what `Parse`
      says; EIO is given exactly when a loop failed: the socket refused a call, or the time was up. */
  method ReadFrame(sock: Socket, big: bool, payload: array<byte>, capacity: nat, outLen: array<nat>)
    returns (status: Status, ghost first: Log, ghost second: Log)
    requires capacity <= payload.Length && outLen.Length == 1
    modifies sock, payload, outLen
    ensures sock.calls == old(sock.calls) + (first.calls + second.calls)
    ensures old(sock.now) <= sock.now && LastAt(first.calls + second.calls, old(sock.now)) <= sock.now
    ensures sock.outgoing == old(sock.outgoing)
    ensures status != EINVAL
    ensures status == EIO <==>
      || Failed(first, 4, sock.now)
      || (Completed(first, 4) && Failed(second, Announced(old(sock.incoming)), sock.now))
    ensures status == EIO ==>
      Refuses(first.calls + second.calls) || old(sock.now) + 30000 <= sock.now
    ensures status == OK ==> outLen[0] <= capacity && Completed(first, 4) && Completed(second, outLen[0])
    ensures status == OK ==> ReadStep(old(sock.incoming), payload[..outLen[0]], sock.incoming, capacity)
    ensures status == OK ==> payload[outLen[0]..] == old(payload[..])[outLen[0]..]
    ensures status == EBADMSG ==> Parse(old(sock.incoming), capacity) == BadMessage
    ensures status == EMSGSIZE ==> Parse(old(sock.incoming), capacity) == TooLong
    ensures status == EBADMSG || status == EMSGSIZE ==>
      4 <= |old(sock.incoming)| && sock.incoming == old(sock.incoming)[4..] && payload[..] == old(payload[..])
    ensures status != OK ==> outLen[0] == old(outLen[0])
    ensures Total(first.calls + second.calls) == Total(first.calls) + Total(second.calls)
    ensures var got := Total(first.calls + second.calls);
      got <= |old(sock.incoming)| && sock.incoming == old(sock.incoming)[got..]
  {
    first, second := Log([], 0), Log([], 0);
    var hdrBuf := new byte[BYTES_LENGTH_FRAMEHEADER](_ => 0);
    ghost var stream, record, start := sock.incoming, sock.calls, sock.now;
    status, first := RecvAll(sock, hdrBuf, BYTES_LENGTH_FRAMEHEADER);
    ghost var middle := sock.now;
    TwoLoops(record, first.calls, [], start, middle, middle);
    if status != OK {
      FailedMeans(first, 4, middle, start, first.calls, []);
      return EIO, first, second;
    }
    assert hdrBuf[..] == stream[..4];
    var magic, payloadType, length := ReadHeader(big, hdrBuf);
    if magic != FRAME_MAGIC || payloadType != PAYLOAD_TYPE_DRONE { return EBADMSG, first, second; }
    if length > capacity { return EMSGSIZE, first, second; }
    status, second := RecvAll(sock, payload, length);
    TwoLoops(record, first.calls, second.calls, start, middle, sock.now);
    assert stream[4..][Total(second.calls)..] == stream[4 + Total(second.calls)..];
    if status != OK {
      FailedMeans(second, length, sock.now, start, first.calls, second.calls);
      return EIO, first, second;
    }
    outLen[0] := length;
    assert payload[..length] == stream[4..][..length];
    return OK, first, second;
  }

  /** The fields of a header that a reader looks at. */
  method ReadHeader(big: bool, hdrBuf: array<byte>) returns (magic: byte, payloadType: byte, length: nat)
    requires hdrBuf.Length == 4
    modifies hdrBuf
    ensures hdrBuf[..] == old(hdrBuf[..])
    ensures var h := HeaderOf(hdrBuf[..]);
      magic == h.magic && payloadType == h.payloadType && length == h.payloadLength
  {
    var hdr := new byte[6](_ => 0);
    assert hdr[..] == Zeros(6);
    var n := DecodeFrameHeader(big, hdr, hdrBuf);
    magic, payloadType := hdr[0], hdr[2];
    length := if big then Word(hdr[5], hdr[4]) else Word(hdr[4], hdr[5]);
    assert HeaderAt(big, hdr[..], 0) == HeaderOf(hdrBuf[..]);
  }

  // ----- One frame after the other -----

  ghost function Contents(buffers: seq<array<byte>>): (r: seq<Bytes>)
    reads buffers
    ensures |r| == |buffers| && forall k :: 0 <= k < |r| ==> r[k] == buffers[k][..]
  {
    seq(|buffers|, k requires 0 <= k < |buffers| reads buffers => buffers[k][..])
  }

  /** The first `sent` payloads went out in whole frames, and `torn` bytes of the next frame. */
  ghost predicate Outgoing(out: Bytes, payloads: seq<Bytes>, sent: nat, torn: nat) {
    && sent <= |payloads| && (forall k :: 0 <= k < sent ==> |payloads[k]| <= UINT16_MAX)
    && if torn == 0 then out == Stream(payloads[..sent])
       else
         && sent < |payloads| && |payloads[sent]| <= UINT16_MAX && torn < |Frame(payloads[sent])|
         && out == Stream(payloads[..sent]) + Frame(payloads[sent])[..torn]
  }

  lemma OneMoreSent(out: Bytes, payloads: seq<Bytes>, sent: nat)
    requires Outgoing(out, payloads, sent, 0) && sent < |payloads| && |payloads[sent]| <= UINT16_MAX
    ensures Outgoing(out + Frame(payloads[sent]), payloads, sent + 1, 0)
  {
    assert payloads[..sent + 1] == payloads[..sent] + [payloads[sent]];
    StreamAppend(payloads[..sent], payloads[sent]);
  }

  lemma PartSent(out: Bytes, payloads: seq<Bytes>, sent: nat, torn: nat)
    requires Outgoing(out, payloads, sent, 0) && sent < |payloads| && |payloads[sent]| <= UINT16_MAX
    requires torn < |Frame(payloads[sent])|
    ensures Outgoing(out + Frame(payloads[sent])[..torn], payloads, sent, torn)
  {
    assert out + Frame(payloads[sent])[..0] == out;
  }

  /** What may end a run: a call that the socket refused, or the time since the call that completed
      the last whole frame. `settled` is the number of calls up to that one. */
  ghost predicate Interrupted(calls: seq<Call>, settled: nat, start: int, now: int)
    requires settled <= |calls|
  {
    Refuses(calls) || LastAt(calls[..settled], start) + 30000 <= now
  }

  /** One loop more that failed, after calls that all belong to whole frames. */
  lemma Ended(calls: seq<Call>, more: seq<Call>, start: int, began: int, now: int)
    requires LastAt(calls, start) <= began && (Refuses(more) || began + 30000 <= now)
    ensures Interrupted(calls + more, |calls|, start, now) && Total((calls + more)[..|calls|]) == Total(calls)
    ensures Total(calls + more) == Total(calls) + Total(more)
  {
    assert (calls + more)[..|calls|] == calls;
    TotalJoin(calls, more);
    if Refuses(more) {
      var k :| 0 <= k < |more| && more[k].Refused?;
      assert (calls + more)[|calls| + k].Refused?;
    }
  }

  /** A run of writes: what is on the wire are the frames that succeeded, and a proper prefix of the
      one that did not; and it ends early only for a payload that is too long or because of the socket. */
  ghost predicate Wrote(status: Status, payloads: seq<Bytes>, sent: nat, torn: nat, out: Bytes,
                        calls: seq<Call>, settled: nat, start: int, now: int) {
    && Outgoing(out, payloads, sent, torn)
    && (status == OK || status == EINVAL || status == EIO) && (status == OK <==> sent == |payloads|)
    && settled <= |calls| && Total(calls) == |out| && Total(calls[..settled]) == |Stream(payloads[..sent])|
    && (status == EINVAL ==> |payloads[sent]| > UINT16_MAX && torn == 0)
    && (status == EIO ==> Interrupted(calls, settled, start, now))
  }

  /** The end of a run at a payload that was not sent whole. */
  lemma StopsWriting(status: Status, payloads: seq<Bytes>, sent: nat, torn: nat, out: Bytes, part: Bytes,
                     calls: seq<Call>, more: seq<Call>, start: int, began: int, now: int)
    requires Outgoing(out, payloads, sent, 0) && Total(calls) == |out| && sent < |payloads|
      && LastAt(calls, start) <= began
    requires status == EINVAL || status == EIO
    requires status == EINVAL ==> |payloads[sent]| > UINT16_MAX && torn == 0 && part == [] && more == []
    requires status == EIO ==>
      && |payloads[sent]| <= UINT16_MAX && Total(more) == torn < |Frame(payloads[sent])|
      && part == Frame(payloads[sent])[..torn] && (Refuses(more) || began + 30000 <= now)
    ensures Wrote(status, payloads, sent, torn, out + part, calls + more, |calls|, start, now)
  {
    TotalJoin(calls, more);
    assert (calls + more)[..|calls|] == calls;
    if status == EIO {
      PartSent(out, payloads, sent, torn);
      Ended(calls, more, start, began, now);
    } else {
      assert out + part == out;
    }
  }

  lemma AllWritten(payloads: seq<Bytes>, out: Bytes, calls: seq<Call>, start: int, now: int)
    requires Outgoing(out, payloads, |payloads|, 0) && Total(calls) == |out|
    ensures Wrote(OK, payloads, |payloads|, 0, out, calls, |calls|, start, now)
  {
    assert calls[..|calls|] == calls;
  }

  lemma Regroup(x: Bytes, y: Bytes, z: Bytes)
    ensures x + y + z == x + (y + z)
  {
  }

  /** Writes frames until one fails. */
  method WriteFrames(sock: Socket, big: bool, payloads: seq<array<byte>>)
    returns (status: Status, sent: nat, ghost torn: nat, ghost out: Bytes, ghost calls: seq<Call>, ghost settled: nat)
    modifies sock
    ensures sock.outgoing == old(sock.outgoing) + out && sock.incoming == old(sock.incoming)
    ensures sock.calls == old(sock.calls) + calls
    ensures Wrote(status, Contents(payloads), sent, torn, out, calls, settled, old(sock.now), sock.now)
  {
    status, sent, torn, out, calls, settled := OK, 0, 0, [], [], 0;
    ghost var all, start, record, gone := Contents(payloads), sock.now, sock.calls, sock.outgoing;
    while sent < |payloads|
      invariant sent <= |payloads| && all == Contents(payloads)
      invariant sock.outgoing == gone + out && sock.incoming == old(sock.incoming)
      invariant sock.calls == record + calls && LastAt(calls, start) <= sock.now && Total(calls) == |out|
      invariant status == OK && Outgoing(out, all, sent, 0)
    {
      ghost var first, second;
      ghost var began, before := sock.now, calls;
      var p := payloads[sent];
      assert p[..p.Length] == p[..] == all[sent];
      status, first, second := WriteFrame(sock, big, p, p.Length);
      ghost var more := first.calls + second.calls;
      calls, settled := before + more, |before|;
      MoreCalls(record, before, more, start, began, sock.now);
      if status != OK {
        torn := Total(more);
        ghost var part := if status == EIO then Frame(all[sent])[..torn] else [];
        StopsWriting(status, all, sent, torn, out, part, before, more, start, began, sock.now);
        Regroup(gone, out, part);
        out := out + part;
        return;
      }
      OneMoreSent(out, all, sent);
      Regroup(gone, out, Frame(all[sent]));
      out := out + Frame(all[sent]);
      sent := sent + 1;
    }
    settled := |calls|;
    AllWritten(all, out, calls, start, sock.now);
  }

  lemma MoreCalls(record: seq<Call>, calls: seq<Call>, more: seq<Call>, start: int, began: int, now: int)
    requires LastAt(calls, start) <= began <= now && LastAt(more, began) <= now
    ensures record + calls + more == record + (calls + more) && LastAt(calls + more, start) <= now
    ensures Total(calls + more) == Total(calls) + Total(more) && (calls + more)[..|calls|] == calls
  {
    TwoLoops(record, calls, more, start, began, now);
  }

  /** Without a refusal or a delay, every frame is sent. */
  lemma AllFramesSent(status: Status, payloads: seq<Bytes>, sent: nat, torn: nat, out: Bytes,
                      calls: seq<Call>, settled: nat, start: int, now: int)
    requires Wrote(status, payloads, sent, torn, out, calls, settled, start, now)
    requires Sendable(payloads, UINT16_MAX) && !Interrupted(calls, settled, start, now)
    ensures status == OK && sent == |payloads| && out == Stream(payloads)
  {
    assert payloads[..|payloads|] == payloads;
  }

  /** A run of reads: each result and the stream behind it are what the front of the stream parses to;
      and it ends early only because of the next frame or the socket. */
  ghost predicate Had(status: Status, results: seq<Bytes>, streams: seq<Bytes>, capacity: nat, count: nat,
                      calls: seq<Call>, settled: nat, start: int, now: int) {
    && ReadRun(streams, results, capacity)
    && |results| <= count && status != EINVAL && (status == OK <==> |results| == count)
    && settled <= |calls| && Total(calls[..settled]) + |streams[|results|]| == |streams[0]|
    && (status == EBADMSG ==> Parse(streams[|results|], capacity) == BadMessage)
    && (status == EMSGSIZE ==> Parse(streams[|results|], capacity) == TooLong)
    && (status == EIO ==> Interrupted(calls, settled, start, now))
  }

  /** Reads frames until there are enough or a read fails. */
  method ReadFrames(sock: Socket, big: bool, buffer: array<byte>, count: nat)
    returns (status: Status, results: seq<Bytes>, ghost streams: seq<Bytes>, ghost calls: seq<Call>, ghost settled: nat)
    modifies sock, buffer
    ensures sock.outgoing == old(sock.outgoing) && sock.calls == old(sock.calls) + calls
    ensures Had(status, results, streams, buffer.Length, count, calls, settled, old(sock.now), sock.now)
    ensures streams[0] == old(sock.incoming) && (status == OK ==> sock.incoming == streams[count])
  {
    status, results, streams, calls, settled := OK, [], [sock.incoming], [], 0;
    var outLen := new nat[1];
    ghost var start, record := sock.now, sock.calls;
    while |results| < count
      invariant status == OK && |results| <= count && fresh(outLen) && outLen.Length == 1
      invariant sock.outgoing == old(sock.outgoing)
      invariant ReadRun(streams, results, buffer.Length) && streams[0] == old(sock.incoming)
      invariant streams[|results|] == sock.incoming && Total(calls) + |sock.incoming| == |streams[0]|
      invariant sock.calls == record + calls && LastAt(calls, start) <= sock.now
    {
      ghost var first, second;
      ghost var began, before := sock.now, calls;
      status, first, second := ReadFrame(sock, big, buffer, buffer.Length, outLen);
      ghost var more := first.calls + second.calls;
      calls, settled := before + more, |before|;
      MoreCalls(record, before, more, start, began, sock.now);
      if status != OK {
        if status == EIO { Ended(before, more, start, began, sock.now); }
        return;
      }
      ghost var s, r := streams, results;
      results := results + [buffer[..outLen[0]]];
      streams := streams + [sock.incoming];
      OneMoreRead(s, r, sock.incoming, buffer[..outLen[0]], buffer.Length);
    }
    settled := |calls|;
    assert calls[..settled] == calls;
  }

  lemma OneMoreRead(streams: seq<Bytes>, results: seq<Bytes>, after: Bytes, result: Bytes, capacity: nat)
    requires ReadRun(streams, results, capacity) && ReadStep(streams[|results|], result, after, capacity)
    ensures ReadRun(streams + [after], results + [result], capacity)
  {
    var ss, rs := streams + [after], results + [result];
    forall k | 0 <= k < |rs|
      ensures ReadStep(ss[k], rs[k], ss[k + 1], capacity)
    {
      if k < |results| { assert ReadStep(streams[k], results[k], streams[k + 1], capacity); }
    }
  }

  /** What a run of reads gets from the bytes that a run of writes left, however either ended: the
      first payloads that were sent whole. If the reads stop only for want of bytes, all of them. */
  lemma FramesArrive(payloads: seq<Bytes>, sent: nat, torn: nat, streams: seq<Bytes>, results: seq<Bytes>,
                     capacity: nat)
    requires Sendable(payloads, capacity) && ReadRun(streams, results, capacity)
    requires Outgoing(streams[0], payloads, sent, torn)
    ensures |results| <= sent && results == payloads[..|results|]
    ensures Parse(streams[|results|], capacity)
      == (if |results| < sent then Payload(payloads[|results|]) else Incomplete)
  {
    var whole := payloads[..sent];
    var tail := if torn == 0 then [] else Frame(payloads[sent])[..torn];
    assert streams[0] == Stream(whole) + tail;
    if torn > 0 { TornFrame(payloads[sent], torn, capacity); }
    NoMoreReads(whole, tail, streams, results, capacity);
    ReadsInOrder(whole, tail, streams, results, capacity);
    NextFrame(whole[|results|..], tail, capacity);
  }

  /** And under any chunking, EAGAINs and delays that do not interrupt the run, all of them: as many
      reads as frames were sent, or fewer, succeed, and return the payloads in order. */
  lemma AllFramesArrive(payloads: seq<Bytes>, sent: nat, torn: nat, status: Status, results: seq<Bytes>,
                        streams: seq<Bytes>, capacity: nat, count: nat,
                        calls: seq<Call>, settled: nat, start: int, now: int)
    requires Sendable(payloads, capacity) && count <= sent
    requires Had(status, results, streams, capacity, count, calls, settled, start, now)
    requires Outgoing(streams[0], payloads, sent, torn)
    requires !Interrupted(calls, settled, start, now)
    ensures status == OK && results == payloads[..count]
  {
    FramesArrive(payloads, sent, torn, streams, results, capacity);
  }
}
