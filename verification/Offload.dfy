/** The one socket of the modem (drivers/ec801e/ec801e_socket_offload.c) on top of the driver's
    own flag for an open connection (drivers/ec801e/ec801e.c).

    What the modem, the network stack and the descriptor table answer is an input. */
module Offload {

  datatype Errno = EMFILE | EINVAL | ENOTCONN | EOPNOTSUPP | EBADF | EISCONN | EOTHER(code: nat)

  datatype Outcome = Done | Failed(errno: Errno)
  datatype Result = Ok(value: nat) | Fail(errno: Errno)

  const IPPROTO_TCP: nat := 6
  const IPPROTO_TLS_1_0: nat := 256
  const IPPROTO_TLS_1_3: nat := 259

  datatype Address = Address(ip: nat, port: nat)

  /** The socket: a slot, and the flag that the driver keeps beside it. */
  datatype State = State(taken: bool, connected: bool, useTls: bool, fd: int, protocol: nat, peer: Address,
      isOpen: bool)

  datatype Operation =
    | Create(protocol: nat, reserved: int, reserveErrno: Errno)
    | Connect(addr: Address, valid: bool, stack: Outcome, printable: bool, open: Outcome)
    | Send(len: nat, buffer: bool, plain: bool, modem: Outcome)
    | Receive(len: nat, buffer: bool, plain: bool, modem: Outcome, got: nat)
    | Close(modem: Outcome)

  function Boot(): State {
    State(false, false, false, -1, 0, Address(0, 0), false)
  }

  /** Opening on the driver's side: the TCP opener sets the flag when it succeeds, the TLS one never. */
  function Open(st: State, addr: Address, open: Outcome): (State, Outcome) {
    if addr.port == 0 then (st, Failed(EINVAL))
    else (if !st.useTls && open.Done? then st.(isOpen := true) else st, open)
  }

  function Step(st: State, op: Operation): (State, Result) {
    match op
    case Create(protocol, reserved, errno) =>
      if st.taken then (st, Fail(EMFILE))
      else if reserved < 0 then (st, Fail(errno))
      else
        var p := if protocol == 0 then IPPROTO_TCP else protocol;
        (State(true, false, IPPROTO_TLS_1_0 <= p <= IPPROTO_TLS_1_3, reserved, p, st.peer, st.isOpen), Ok(reserved))
    case Connect(addr, valid, stack, printable, open) =>
      if !st.taken || !valid then (st, Fail(EINVAL))
      else if st.connected then (st, Ok(0))
      else if stack.Failed? then (st, Fail(stack.errno))
      else if !printable then (st, Fail(EINVAL))
      else
        var (after, isOpen) := Open(st, addr, open);
        if isOpen.Failed? && isOpen.errno != EISCONN then (after, Fail(isOpen.errno))
        else (after.(peer := addr, connected := true), Ok(0))
    case Send(len, buffer, plain, modem) =>
      if !st.taken || !buffer || len == 0 then (st, Fail(EINVAL))
      else if !st.connected then (st, Fail(ENOTCONN))
      else if !plain then (st, Fail(EOPNOTSUPP))
      else if !st.isOpen then (st, Fail(ENOTCONN))
      else (st, if modem.Done? then Ok(len) else Fail(modem.errno))
    case Receive(len, buffer, plain, modem, got) =>
      if !st.taken || !buffer || len == 0 then (st, Fail(EINVAL))
      else if !st.connected then (st, Fail(ENOTCONN))
      else if !plain then (st, Fail(EOPNOTSUPP))
      else if !st.isOpen then (st, Fail(ENOTCONN))
      else (st, if modem.Done? then Ok(if got > len then len else got) else Fail(modem.errno))
    case Close(modem) =>
      if !st.taken then (st, Fail(EBADF))
      else
        (State(false, false, false, -1, IPPROTO_TCP, Address(0, 0), st.isOpen && !st.connected),
         if st.connected && modem.Failed? then Fail(modem.errno) else Ok(0))
  }

  function After(st: State, ops: seq<Operation>): State
    decreases |ops|
  {
    if ops == [] then st else Step(After(st, ops[..|ops| - 1]), ops[|ops| - 1]).0
  }

  // ----- Every run -----

  /** The two layers agree as far as they ever do: a connection has a slot, and an open one in the
      driver is a connection without TLS. */
  ghost predicate Layered(st: State) {
    && (st.connected ==> st.taken)
    && (st.isOpen ==> st.connected && !st.useTls)
    && (st.useTls ==> st.taken)
  }

  lemma {:induction false} AlwaysLayered(ops: seq<Operation>)
    ensures Layered(After(Boot(), ops))
    decreases |ops|
  {
    if ops != [] { AlwaysLayered(ops[..|ops| - 1]); }
  }

  /** A TCP connection that the modem reports as there already is taken for one, unopened. */
  ghost predicate TakenAsConnected(st: State, op: Operation) {
    && op.Connect? && st.taken && op.valid && !st.connected && op.stack.Done? && op.printable
    && !st.useTls && op.addr.port != 0 && op.open == Failed(EISCONN)
  }

  /** The driver's flag is set exactly for connections without TLS, unless the current connection
      was taken as such. */
  ghost predicate OpenedIsTcp(st: State) {
    st.isOpen <==> st.connected && !st.useTls
  }

  /** One step from agreement loses it exactly when a connection is taken for one. */
  lemma OpenedLost(st: State, op: Operation)
    requires Layered(st) && OpenedIsTcp(st)
    ensures OpenedIsTcp(Step(st, op).0) <==> !TakenAsConnected(st, op)
  {
  }

  /** No connection in the run was taken for one. */
  ghost predicate NoneTaken(ops: seq<Operation>)
    decreases |ops|
  {
    ops == [] ||
    (NoneTaken(ops[..|ops| - 1]) && !TakenAsConnected(After(Boot(), ops[..|ops| - 1]), ops[|ops| - 1]))
  }

  lemma {:induction false} OpenedExactly(ops: seq<Operation>)
    requires NoneTaken(ops)
    ensures OpenedIsTcp(After(Boot(), ops))
    decreases |ops|
  {
    if ops != [] {
      var before := ops[..|ops| - 1];
      OpenedExactly(before);
      AlwaysLayered(before);
      OpenedLost(After(Boot(), before), ops[|ops| - 1]);
    }
  }

  /** As neither opener reports that, the flag is set exactly for connections without TLS in all
      the runs of this driver. */
  lemma {:induction false} OpenedAlways(ops: seq<Operation>)
    requires forall k :: 0 <= k < |ops| && ops[k].Connect? ==> ops[k].open != Failed(EISCONN)
    ensures NoneTaken(ops) && OpenedIsTcp(After(Boot(), ops))
    decreases |ops|
  {
    if ops != [] { OpenedAlways(ops[..|ops| - 1]); }
    OpenedExactly(ops);
  }

  /** Over TLS, a connection can be made and nothing can be sent or received: the opener for TLS
      does not set the flag that sending and receiving ask for. */
  lemma TlsCarriesNothing(ops: seq<Operation>, op: Operation)
    requires After(Boot(), ops).useTls && (op.Send? || op.Receive?)
    ensures var st := After(Boot(), ops);
      Step(st, op).0 == st && Step(st, op).1.Fail?
    ensures var st := After(Boot(), ops);
      st.connected && op.buffer && op.len > 0 && op.plain ==> Step(st, op).1 == Fail(ENOTCONN)
  {
    AlwaysLayered(ops);
  }

  /** Such a run: a TLS socket (protocol 258) is created and connected, and cannot send. */
  lemma TlsConnected(addr: Address, fd: nat, errno: Errno, len: nat, modem: Outcome)
    requires addr.port != 0 && len > 0
    ensures var ops := [Create(258, fd, errno), Connect(addr, true, Done, true, Done)];
      var st := After(Boot(), ops);
      && st.useTls && st.connected && st.peer == addr && !st.isOpen
      && Step(st, Send(len, true, true, modem)) == (st, Fail(ENOTCONN))
  {
    var ops := [Create(258, fd, errno), Connect(addr, true, Done, true, Done)];
    assert ops[..1] == [Create(258, fd, errno)] && ops[..1][..0] == [];
    assert After(Boot(), ops[..1]) == Step(Boot(), Create(258, fd, errno)).0;
  }

  /** A free slot becomes a socket that is neither connected nor open, with TLS exactly for the
      protocols 256 to 259; protocol 0 stands for TCP. */
  lemma Created(ops: seq<Operation>, protocol: nat, fd: nat, errno: Errno)
    requires !After(Boot(), ops).taken
    ensures var (st, r) := Step(After(Boot(), ops), Create(protocol, fd, errno));
      && r == Ok(fd) && st.taken && !st.connected && !st.isOpen && st.fd == fd
      && st.protocol == (if protocol == 0 then 6 else protocol)
      && (st.useTls <==> 256 <= protocol <= 259)
  {
    AlwaysLayered(ops);
  }

  /** Whatever run led to a free slot, a socket of any protocol that is not one of TLS, 0 and 6 among
      them, can be connected to any port but 0, and then sends and receives what the modem does. */
  lemma CreatedCarries(ops: seq<Operation>, protocol: nat, fd: nat, errno: Errno, addr: Address, len: nat,
                       modem: Outcome, got: nat)
    requires !After(Boot(), ops).taken && !(256 <= protocol <= 259) && addr.port != 0 && len > 0
    ensures var created := Step(After(Boot(), ops), Create(protocol, fd, errno)).0;
      var (st, r) := Step(created, Connect(addr, true, Done, true, Done));
      && r == Ok(0) && st.connected && st.isOpen && !st.useTls && st.peer == addr
      && Step(st, Send(len, true, true, modem)) == (st, if modem.Done? then Ok(len) else Fail(modem.errno))
      && Step(st, Receive(len, true, true, modem, got))
         == (st, if modem.Failed? then Fail(modem.errno) else if got <= len then Ok(got) else Ok(len))
  {
    Created(ops, protocol, fd, errno);
  }

  /** Exactly when the operations succeed. */
  lemma Successes(st: State, op: Operation)
    ensures Step(st, op).1.Ok? <==>
      match op
      case Create(_, reserved, _) => !st.taken && reserved >= 0
      case Connect(addr, valid, stack, printable, open) =>
        && st.taken && valid
        && (st.connected || (stack.Done? && printable && addr.port != 0 && (open.Done? || open.errno == EISCONN)))
      case Send(len, buffer, plain, modem) =>
        st.taken && st.connected && st.isOpen && buffer && len > 0 && plain && modem.Done?
      case Receive(len, buffer, plain, modem, _) =>
        st.taken && st.connected && st.isOpen && buffer && len > 0 && plain && modem.Done?
      case Close(modem) => st.taken && (st.connected ==> modem.Done?)
  {
  }

  /** What a failure is reported as. */
  lemma Failures(st: State, op: Operation)
    requires Step(st, op).1.Fail?
    ensures Step(st, op).1.errno ==
      match op
      case Create(_, _, errno) => if st.taken then EMFILE else errno
      case Connect(addr, valid, stack, printable, open) =>
        if st.taken && valid && stack.Failed? then stack.errno
        else if st.taken && valid && printable && addr.port != 0 then open.errno
        else EINVAL
      case Send(len, buffer, plain, modem) => TransferError(st, len, buffer, plain, modem)
      case Receive(len, buffer, plain, modem, _) => TransferError(st, len, buffer, plain, modem)
      case Close(modem) => if st.taken then modem.errno else EBADF
  {
  }

  /** The modem is only asked by a transfer that is allowed over an open connection. */
  ghost function TransferError(st: State, len: nat, buffer: bool, plain: bool, modem: Outcome): Errno {
    if !(st.taken && buffer && len > 0) then EINVAL
    else if st.connected && !plain then EOPNOTSUPP
    else if !(st.connected && st.isOpen) || modem.Done? then ENOTCONN
    else modem.errno
  }

  /** Over TCP, sending and receiving on a connection are what the modem makes of them. */
  lemma TcpCarries(ops: seq<Operation>, len: nat, modem: Outcome, got: nat)
    requires NoneTaken(ops)
    requires After(Boot(), ops).connected && !After(Boot(), ops).useTls && len > 0
    ensures Step(After(Boot(), ops), Send(len, true, true, modem)).1
         == if modem.Done? then Ok(len) else Fail(modem.errno)
    ensures Step(After(Boot(), ops), Receive(len, true, true, modem, got)).1
         == if modem.Done? then Ok(if got > len then len else got) else Fail(modem.errno)
  {
    OpenedExactly(ops);
    AlwaysLayered(ops);
  }

  /** Closing frees the slot and the connection whatever the modem answers, and its failure is all
      that is reported; the slot can then be taken again at once. */
  lemma CloseFrees(ops: seq<Operation>, modem: Outcome, protocol: nat, fd: nat)
    requires After(Boot(), ops).taken
    ensures var st := After(Boot(), ops);
      var (closed, r) := Step(st, Close(modem));
      && closed == State(false, false, false, -1, 6, Address(0, 0), false)
      && (r == Ok(0) <==> !st.connected || modem.Done?)
      && Step(closed, Create(protocol, fd, EMFILE)).1 == Ok(fd)
  {
    AlwaysLayered(ops);
  }

  /** An operation that fails changes nothing, but for closing. Sending and receiving never do. */
  lemma FailuresKeep(st: State, op: Operation)
    requires !op.Close?
    ensures Step(st, op).1.Fail? || op.Send? || op.Receive? ==> Step(st, op).0 == st
    ensures Step(st, op).1.Ok? && op.Connect? ==> Step(st, op).0.connected && Step(st, op).0.taken
    ensures Step(st, op).1.Ok? && op.Connect? && !st.connected ==> Step(st, op).0.peer == op.addr
    ensures Step(st, op).1.Ok? && (op.Send? || op.Receive?) ==>
      st.connected && st.isOpen && Step(st, op).1.value <= op.len
  {
  }

  /** There is one slot: while it is taken, nothing but closing it makes room. */
  lemma OneSlot(st: State, op: Operation, protocol: nat, fd: int, errno: Errno)
    requires st.taken && !op.Close?
    ensures var next := Step(st, op).0;
      next.taken && next.fd == st.fd && Step(next, Create(protocol, fd, errno)) == (next, Fail(EMFILE))
  {
  }

  /** Connecting again succeeds and changes nothing, whatever the address. */
  lemma ConnectAgain(st: State, first: Address, second: Address, open: Outcome)
    requires st.taken && !st.connected && first.port != 0 && open.Done?
    ensures var (once, r) := Step(st, Connect(first, true, Done, true, open));
      && r == Ok(0) && once.connected && once.peer == first
      && forall stack, printable, again :: Step(once, Connect(second, true, stack, printable, again)) == (once, Ok(0))
  {
  }

  // ----- The operations -----

  class Modem {
    var socketOpened: bool

    constructor ()
      ensures !socketOpened
    {
      socketOpened := false;
    }

    /** ec801e_socket_open_tcp */
    method OpenTcp(port: nat, result: Outcome) returns (r: Outcome)
      modifies this
      ensures r == if port == 0 then Failed(EINVAL) else result
      ensures socketOpened == (old(socketOpened) || (port != 0 && result.Done?))
    {
      if port == 0 { return Failed(EINVAL); }
      if result.Failed? { return result; }
      socketOpened := true;
      return Done;
    }

    /** ec801e_socket_open_ssl */
    method OpenSsl(port: nat, result: Outcome) returns (r: Outcome)
      ensures r == if port == 0 then Failed(EINVAL) else result
    {
      if port == 0 { return Failed(EINVAL); }
      return result;
    }

    /** ec801e_socket_close */
    method CloseSocket(result: Outcome) returns (r: Outcome)
      modifies this
      ensures r == result && !socketOpened
    {
      socketOpened := false;
      return result;
    }
  }

  class Socket {
    const modem: Modem
    var taken: bool
    var connected: bool
    var useTls: bool
    var fd: int
    var protocol: nat
    var peer: Address

    ghost function Now(): State
      reads this, modem
    {
      State(taken, connected, useTls, fd, protocol, peer, modem.socketOpened)
    }

    constructor ()
      ensures Now() == Boot() == State(false, false, false, -1, 0, Address(0, 0), false) && fresh(modem)
    {
      modem := new Modem();
      taken, connected, useTls, fd, protocol, peer := false, false, false, -1, 0, Address(0, 0);
    }

    method SocketCreate(proto: nat, reserved: int, errno: Errno) returns (r: Result)
      modifies this
      ensures (Now(), r) == Step(old(Now()), Create(proto, reserved, errno))
    {
      if taken { return Fail(EMFILE); }
      if reserved < 0 { return Fail(errno); }
      fd := reserved;
      protocol := if proto == 0 then IPPROTO_TCP else proto;
      taken := true;
      connected := false;
      useTls := IPPROTO_TLS_1_0 <= protocol && protocol <= IPPROTO_TLS_1_3;
      return Ok(reserved);
    }

    method SockConnect(addr: Address, valid: bool, stack: Outcome, printable: bool, open: Outcome) returns (r: Result)
      modifies this, modem
      ensures (Now(), r) == Step(old(Now()), Connect(addr, valid, stack, printable, open))
    {
      if !taken || !valid { return Fail(EINVAL); }
      if connected { return Ok(0); }
      if stack.Failed? { return Fail(stack.errno); }
      if !printable { return Fail(EINVAL); }
      var ret;
      if useTls { ret := modem.OpenSsl(addr.port, open); } else { ret := modem.OpenTcp(addr.port, open); }
      if ret == Failed(EISCONN) { ret := Done; }
      if ret.Failed? { return Fail(ret.errno); }
      peer := addr;
      connected := true;
      return Ok(0);
    }

    method SockSend(len: nat, buffer: bool, plain: bool, result: Outcome) returns (r: Result)
      modifies this, modem
      ensures (Now(), r) == Step(old(Now()), Send(len, buffer, plain, result))
    {
      if !taken || !buffer || len == 0 { return Fail(EINVAL); }
      if !connected { return Fail(ENOTCONN); }
      if !plain { return Fail(EOPNOTSUPP); }
      if !modem.socketOpened { return Fail(ENOTCONN); }
      if result.Failed? { return Fail(result.errno); }
      return Ok(len);
    }

    method SockRecv(len: nat, buffer: bool, plain: bool, result: Outcome, got: nat) returns (r: Result)
      modifies this, modem
      ensures (Now(), r) == Step(old(Now()), Receive(len, buffer, plain, result, got))
    {
      if !taken || !buffer || len == 0 { return Fail(EINVAL); }
      if !connected { return Fail(ENOTCONN); }
      if !plain { return Fail(EOPNOTSUPP); }
      if !modem.socketOpened { return Fail(ENOTCONN); }
      if result.Failed? { return Fail(result.errno); }
      return Ok(if got > len then len else got);
    }

    method SockClose(result: Outcome) returns (r: Result)
      modifies this, modem
      ensures (Now(), r) == Step(old(Now()), Close(result))
    {
      if !taken { return Fail(EBADF); }
      var ret := Done;
      if connected { ret := modem.CloseSocket(result); }
      fd := -1;
      protocol := IPPROTO_TCP;
      taken := false;
      connected := false;
      useTls := false;
      peer := Address(0, 0);
      if ret.Failed? { return Fail(ret.errno); }
      return Ok(0);
    }
  }
}
