/** Sending and receiving whole buffers over a stream socket (src/bitproto/socket_utls.c).

    The socket may accept or deliver any part of what it is asked for, ask to be called again,
    refuse, or fail, and any time may pass in every call: all of that is left open by the bodies
    of the socket's methods. The socket records its calls, so that the outcome of a loop can be
    stated in terms of what the socket did. */
module Sockets {
  import opened Bits

  const GPSEC_IO_TIMEOUT_MS := 30000
  const RETRY_DELAY_MS := 100

  datatype Status = OK | EINVAL | EIO | EBADMSG | EMSGSIZE

  /** How a call went, and when it returned: some bytes moved, EAGAIN, or anything else (another
      error, or no bytes). */
  datatype Call = Moved(n: nat, at: int) | Again(at: int) | Refused(at: int)

  function CallOf(n: int, again: bool, at: int): Call {
    if n > 0 then Moved(n, at) else if n < 0 && again then Again(at) else Refused(at)
  }

  datatype Log = Log(calls: seq<Call>, deadline: int)

  function Moves(c: Call): nat {
    if c.Moved? then c.n else 0
  }

  /** The bytes that some calls moved. */
  function Total(calls: seq<Call>): (n: nat) {
    if calls == [] then 0 else Total(calls[..|calls| - 1]) + Moves(calls[|calls| - 1])
  }

  /** When the last call returned. */
  function LastAt(calls: seq<Call>, start: int): int {
    if calls == [] then start else calls[|calls| - 1].at
  }

  predicate Tolerated(c: Call, deadline: int) {
    c.Moved? || (c.Again? && c.at < deadline)
  }

  ghost predicate Refuses(calls: seq<Call>) {
    exists k :: 0 <= k < |calls| && calls[k].Refused?
  }

  /** Every call moved bytes or was worth repeating, and len bytes have moved. */
  ghost predicate Completed(log: Log, len: nat) {
    && (forall k :: 0 <= k < |log.calls| ==> Tolerated(log.calls[k], log.deadline))
    && Total(log.calls) == len
  }

  /** The last call was refused, or asked for another one and the time is up; no other was; and
      bytes are missing. */
  ghost predicate Failed(log: Log, len: nat, now: int) {
    && log.calls != [] && (forall k :: 0 <= k < |log.calls| - 1 ==> Tolerated(log.calls[k], log.deadline))
    && Total(log.calls) < len
    && var last := log.calls[|log.calls| - 1];
       last.Refused? || (last.Again? && log.deadline <= now)
  }

  /** One call more. */
  ghost function Then(log: Log, c: Call): (r: Log)
    ensures r.calls == log.calls + [c] && r.deadline == log.deadline
  {
    log.(calls := log.calls + [c])
  }

  /** The record of a socket after the calls of a log. */
  ghost function Recorded(before: seq<Call>, log: Log): seq<Call> {
    before + log.calls
  }

  lemma RecordMore(before: seq<Call>, log: Log, c: Call, start: int)
    ensures Recorded(before, log) + [c] == Recorded(before, Then(log, c))
    ensures LastAt(Then(log, c).calls, start) == c.at
  {
  }

  lemma OneMore(log: Log, at: nat, c: Call)
    requires Completed(log, at)
    ensures Tolerated(c, log.deadline) ==> Completed(Then(log, c), at + Moves(c))
    ensures Total(Then(log, c).calls) == at + Moves(c)
  {
    var r := Then(log, c);
    assert r.calls[..|log.calls|] == log.calls;
  }

  lemma LastCall(log: Log, at: nat, c: Call, len: nat, now: int)
    requires Completed(log, at) && at < len && (c.Refused? || (c.Again? && log.deadline <= now))
    ensures Failed(Then(log, c), len, now) && Total(Then(log, c).calls) == at
  {
    OneMore(log, at, c);
  }

  lemma {:induction false} TotalJoin(x: seq<Call>, y: seq<Call>)
    ensures Total(x + y) == Total(x) + Total(y)
    decreases |y|
  {
    if y == [] {
      assert x + y == x;
    } else {
      assert (x + y)[..|x + y| - 1] == x + y[..|y| - 1];
      TotalJoin(x, y[..|y| - 1]);
    }
  }

  class Socket {
    /** What the peer has sent and will send, and has not been received here. */
    var incoming: Bytes
    /** What the socket has accepted. */
    var outgoing: Bytes
    /** Milliseconds since the start. */
    var now: int
    /** The calls so far. */
    ghost var calls: seq<Call>

    constructor (incoming: Bytes)
      ensures this.incoming == incoming && outgoing == [] && calls == []
    {
      this.incoming := incoming;
      outgoing := [];
      now := 0;
      calls := [];
    }

    /** k_uptime_get: time passes, never backwards. */
    method Uptime() returns (t: int)
      modifies this`now
      ensures old(now) <= now && t == now
    {
      t :| now <= t;
      now := t;
    }

    method Sleep(ms: nat)
      modifies this`now
      ensures old(now) + ms <= now
    {
      var late: nat :| true;
      now := now + ms + late;
    }

    /** zsock_send: n bytes are accepted, or n < 0. */
    method Send(buf: array<byte>, at: nat, len: nat) returns (n: int, again: bool)
      requires at + len <= buf.Length
      modifies this
      ensures old(now) <= now && incoming == old(incoming)
      ensures -1 <= n <= len && calls == old(calls) + [CallOf(n, again, now)]
      ensures outgoing == if n < 0 then old(outgoing) else old(outgoing) + buf[..][at..at + n]
    {
      n :| -1 <= n <= len;
      again :| again || !again;
      if n > 0 { outgoing := outgoing + buf[..][at..at + n]; }
      var t := Uptime();
      calls := calls + [CallOf(n, again, now)];
    }

    /** zsock_recv: n bytes arrive in the buffer, or n < 0. */
    method Recv(buf: array<byte>, at: nat, len: nat) returns (n: int, again: bool)
      requires at + len <= buf.Length
      modifies this, buf
      ensures old(now) <= now && outgoing == old(outgoing)
      ensures -1 <= n <= len && n <= |old(incoming)| && calls == old(calls) + [CallOf(n, again, now)]
      ensures n < 0 ==> incoming == old(incoming) && buf[..] == old(buf[..])
      ensures n >= 0 ==> incoming == old(incoming)[n..]
      ensures n >= 0 ==> buf[..] == old(buf[..])[..at] + old(incoming)[..n] + old(buf[..])[at + n..]
    {
      n :| -1 <= n <= len && n <= |incoming|;
      again :| again || !again;
      if n > 0 {
        forall k | 0 <= k < n { buf[at + k] := incoming[k]; }
        incoming := incoming[n..];
      }
      var t := Uptime();
      calls := calls + [CallOf(n, again, now)];
    }
  }

  /** After an error: EAGAIN before the deadline is worth another try, a little later. */
  method MayRetry(sock: Socket, c: Call, deadline: int, ghost log: Log, ghost at: nat, ghost len: nat)
    returns (retry: bool)
    requires Completed(log, at) && at < len && log.deadline == deadline && !c.Moved? && c.at <= sock.now
    modifies sock`now
    ensures old(sock.now) <= sock.now && Total(Then(log, c).calls) == at
    ensures if retry then Completed(Then(log, c), at) else Failed(Then(log, c), len, sock.now)
    ensures retry ==> old(sock.now) < deadline && old(sock.now) + 100 <= sock.now
  {
    OneMore(log, at, c);
    retry := false;
    if c.Again? {
      var t := sock.Uptime();
      retry := t < deadline;
      if retry { sock.Sleep(RETRY_DELAY_MS); }
    }
    if !retry { LastCall(log, at, c, len, sock.now); }
  }

  /** Sends the first len bytes of buf. It fails only if the socket refuses, or asks for another call
      when the time is up; then a shorter prefix has been sent. */
  method SendAll(sock: Socket, buf: array<byte>, len: nat) returns (status: Status, ghost log: Log)
    requires len <= buf.Length
    modifies sock
    ensures sock.calls == old(sock.calls) + log.calls
    ensures old(sock.now) + 30000 <= log.deadline <= sock.now + 30000
    ensures LastAt(log.calls, old(sock.now)) <= sock.now
    ensures status == OK || status == EIO
    ensures if status == OK then Completed(log, len) else Failed(log, len, sock.now)
    ensures sock.outgoing == old(sock.outgoing) + buf[..][..Total(log.calls)] && sock.incoming == old(sock.incoming)
    ensures |log.calls| <= len + 1 + 300
  {
    var start := sock.Uptime();
    var deadline := start + GPSEC_IO_TIMEOUT_MS;
    var at: nat, left: nat := 0, len;
    log := Log([], deadline);
    ghost var agains, record := 0, sock.calls;
    assert Recorded(record, log) == record;
    ghost var before, text := sock.outgoing, buf[..];
    MoreGone(before, text, 0, 0);
    while left > 0
      invariant at <= len && left == len - at && log.deadline == deadline && Completed(log, at)
      invariant sock.calls == Recorded(record, log) && LastAt(log.calls, old(sock.now)) <= sock.now
      invariant sock.outgoing == Gone(before, text, at) && sock.incoming == old(sock.incoming) && buf[..] == text
      invariant |log.calls| <= at + agains && start + RETRY_DELAY_MS * agains <= sock.now
      invariant agains <= GPSEC_IO_TIMEOUT_MS / RETRY_DELAY_MS
      decreases left, deadline + RETRY_DELAY_MS - sock.now
    {
      var n, again := sock.Send(buf, at, left);
      ghost var was, c := log, CallOf(n, again, sock.now);
      RecordMore(record, was, c, old(sock.now));
      log := Then(log, c);
      if n < 0 {
        var retry := MayRetry(sock, CallOf(n, again, sock.now), deadline, was, at, len);
        if !retry { return EIO, log; }
        agains := agains + 1;
        continue;
      }
      MoreGone(before, text, at, n);
      if n == 0 {
        LastCall(was, at, c, len, sock.now);
        return EIO, log;
      }
      OneMore(was, at, c);
      at, left := at + n, left - n;
    }
    return OK, log;
  }

  /** The bytes that were sent, after those that were sent before. */
  ghost function Gone(before: Bytes, text: Bytes, at: nat): Bytes
    requires at <= |text|
  {
    before + text[..at]
  }

  lemma MoreGone(before: Bytes, text: Bytes, at: nat, n: nat)
    requires at + n <= |text|
    ensures Gone(before, text, at) + text[at..at + n] == Gone(before, text, at + n)
    ensures Gone(before, text, 0) == before
  {
    assert text[..at] + text[at..at + n] == text[..at + n];
  }

  /** One call: n more bytes of the stream have arrived, or n < 0. */
  method RecvSome(sock: Socket, buf: array<byte>, at: nat, len: nat, ghost stream: Bytes, ghost was: Bytes)
    returns (n: int, again: bool)
    requires at + len <= buf.Length == |was| && at <= |stream|
    requires sock.incoming == stream[at..] && buf[..] == Arrived(stream, was, at)
    modifies sock, buf
    ensures old(sock.now) <= sock.now && sock.outgoing == old(sock.outgoing)
    ensures -1 <= n <= len && sock.calls == old(sock.calls) + [CallOf(n, again, sock.now)]
    ensures var arrived := if n < 0 then at else at + n;
      arrived <= |stream| && sock.incoming == stream[arrived..] && buf[..] == Arrived(stream, was, arrived)
  {
    n, again := sock.Recv(buf, at, len);
    if n >= 0 { MoreArrived(buf[..], stream, was, at, n); }
  }

  /** Receives len bytes into buf. It fails only if the socket refuses, or asks for another call when
      the time is up; then fewer bytes have arrived. */
  method RecvAll(sock: Socket, buf: array<byte>, len: nat) returns (status: Status, ghost log: Log)
    requires len <= buf.Length
    modifies sock, buf
    ensures sock.calls == old(sock.calls) + log.calls
    ensures old(sock.now) + 30000 <= log.deadline <= sock.now + 30000
    ensures LastAt(log.calls, old(sock.now)) <= sock.now
    ensures status == OK || status == EIO
    ensures if status == OK then Completed(log, len) else Failed(log, len, sock.now)
    ensures sock.outgoing == old(sock.outgoing)
    ensures var got := Total(log.calls);
      && got <= |old(sock.incoming)| && got <= buf.Length
      && sock.incoming == old(sock.incoming)[got..]
      && buf[..] == old(sock.incoming)[..got] + old(buf[..])[got..]
    ensures |log.calls| <= len + 1 + 300
  {
    var start := sock.Uptime();
    var deadline := start + GPSEC_IO_TIMEOUT_MS;
    var at: nat, left: nat := 0, len;
    log := Log([], deadline);
    ghost var agains, record := 0, sock.calls;
    assert Recorded(record, log) == record;
    ghost var stream, was := sock.incoming, buf[..];
    NoneArrived(stream, was);
    while left > 0
      invariant at <= len && left == len - at && at <= |stream| && log.deadline == deadline && Completed(log, at)
      invariant sock.calls == Recorded(record, log) && LastAt(log.calls, old(sock.now)) <= sock.now
      invariant sock.outgoing == old(sock.outgoing) && sock.incoming == stream[at..]
      invariant buf[..] == Arrived(stream, was, at)
      invariant |log.calls| <= at + agains && start + RETRY_DELAY_MS * agains <= sock.now
      invariant agains <= GPSEC_IO_TIMEOUT_MS / RETRY_DELAY_MS
      decreases left, deadline + RETRY_DELAY_MS - sock.now
    {
      var n, again := RecvSome(sock, buf, at, left, stream, was);
      ghost var earlier, c := log, CallOf(n, again, sock.now);
      RecordMore(record, earlier, c, old(sock.now));
      log := Then(log, c);
      if n < 0 {
        var retry := MayRetry(sock, CallOf(n, again, sock.now), deadline, earlier, at, len);
        if !retry { return EIO, log; }
        agains := agains + 1;
        continue;
      }
      if n == 0 {
        LastCall(earlier, at, c, len, sock.now);
        return EIO, log;
      }
      OneMore(earlier, at, c);
      at, left := at + n, left - n;
    }
    return OK, log;
  }

  /** A buffer into which `at` bytes of a stream have gone. */
  ghost function Arrived(stream: Bytes, was: Bytes, at: nat): Bytes
    requires at <= |stream| && at <= |was|
  {
    stream[..at] + was[at..]
  }

  lemma NoneArrived(stream: Bytes, was: Bytes)
    ensures Arrived(stream, was, 0) == was && stream[0..] == stream
  {
  }

  lemma MoreArrived(after: Bytes, stream: Bytes, was: Bytes, at: nat, n: nat)
    requires at + n <= |stream| && at + n <= |was|
    requires after == Arrived(stream, was, at)[..at] + stream[at..][..n] + Arrived(stream, was, at)[at + n..]
    ensures after == Arrived(stream, was, at + n) && stream[at..][n..] == stream[at + n..]
  {
  }
}
