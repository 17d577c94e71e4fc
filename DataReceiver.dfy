/** The UDP receiver of rc_dynamics data streams: a socket bound to a local
    address and port, a receive timeout, a 512-byte datagram buffer and the
    table that maps a protobuf message-type name to its decoder. The BSD
    socket calls are made through `Kernel`, a scripted stand-in whose
    failures and incoming datagrams are fixed in advance. */
module DataReceiver {
  import opened Common
  import NetUtils

  type byte = x: int | 0 <= x < 256

  /** errno values of Linux. EWOULDBLOCK is the same number as EAGAIN. */
  const EINTR: int := 4
  const EAGAIN: int := 11
  const EWOULDBLOCK: int := 11

  /** sizeof(_buffer): longer datagrams are cut to this length. */
  const BUFFER_SIZE: nat := 512

  type port16 = x: int | 0 <= x < 0x1_0000

  datatype Timeval = Timeval(sec: nat, usec: nat)

  /** What one recvfrom call finds: a datagram, or a failure with its errno. */
  datatype Arrival = Datagram(payload: seq<byte>) | RecvError(errno: int)

  /** The socket layer as the receiver sees it. Each failing call is fixed
      by an errno field (0 means the call succeeds); `ephemeralPort` is the
      port chosen for a bind to port 0; `incoming` holds what the next
      recvfrom calls return, and an exhausted script behaves as an expired
      receive timeout. */
  class Kernel {
    var socketErrno: int
    var bindErrno: int
    var getsocknameErrno: int
    var setsockoptErrno: int
    var ephemeralPort: port16
    var nextFd: nat
    var openFds: set<int>
    var boundPorts: map<int, port16>
    var rcvTimeouts: map<int, Timeval>
    var incoming: seq<Arrival>

    constructor (socketErrno: int, bindErrno: int, getsocknameErrno: int, setsockoptErrno: int,
                 ephemeralPort: port16, incoming: seq<Arrival>)
      ensures this.socketErrno == socketErrno && this.bindErrno == bindErrno
      ensures this.getsocknameErrno == getsocknameErrno && this.setsockoptErrno == setsockoptErrno
      ensures this.ephemeralPort == ephemeralPort && this.incoming == incoming
      ensures nextFd == 3 && openFds == {} && boundPorts == map[] && rcvTimeouts == map[]
    {
      this.socketErrno, this.bindErrno := socketErrno, bindErrno;
      this.getsocknameErrno, this.setsockoptErrno := getsocknameErrno, setsockoptErrno;
      this.ephemeralPort, this.incoming := ephemeralPort, incoming;
      nextFd, openFds, boundPorts, rcvTimeouts := 3, {}, map[], map[];
    }

    /** The scripted failures and the port handed out for port 0: no call
        changes them. */
    function Faults(): (int, int, int, int, port16)
      reads this
    {
      (socketErrno, bindErrno, getsocknameErrno, setsockoptErrno, ephemeralPort)
    }

    /** socket(AF_INET, SOCK_DGRAM, IPPROTO_UDP): a fresh descriptor or -1. */
    method Socket() returns (fd: int, errno: int)
      modifies this
      ensures old(socketErrno) != 0 ==> fd == -1 && errno == old(socketErrno) && unchanged(this)
      ensures old(socketErrno) == 0 ==> fd == old(nextFd) && errno == 0
      ensures old(socketErrno) == 0 ==> openFds == old(openFds) + {fd} && nextFd == old(nextFd) + 1
      ensures socketErrno == old(socketErrno) && bindErrno == old(bindErrno)
      ensures getsocknameErrno == old(getsocknameErrno) && setsockoptErrno == old(setsockoptErrno)
      ensures ephemeralPort == old(ephemeralPort) && incoming == old(incoming)
      ensures boundPorts == old(boundPorts) && rcvTimeouts == old(rcvTimeouts)
    {
      if socketErrno != 0 {
        fd, errno := -1, socketErrno;
      } else {
        fd, errno := nextFd, 0;
        openFds := openFds + {fd};
        nextFd := nextFd + 1;
      }
    }

    /** bind: port 0 asks for an ephemeral port. */
    method Bind(fd: int, port: port16) returns (rc: int, errno: int)
      modifies this
      ensures old(bindErrno) != 0 ==> rc == -1 && errno == old(bindErrno) && unchanged(this)
      ensures old(bindErrno) == 0 ==>
        rc == 0 && boundPorts == old(boundPorts)[fd := if port == 0 then old(ephemeralPort) else port]
      ensures socketErrno == old(socketErrno) && bindErrno == old(bindErrno)
      ensures getsocknameErrno == old(getsocknameErrno) && setsockoptErrno == old(setsockoptErrno)
      ensures ephemeralPort == old(ephemeralPort) && incoming == old(incoming) && nextFd == old(nextFd)
      ensures openFds == old(openFds) && rcvTimeouts == old(rcvTimeouts)
    {
      if bindErrno != 0 {
        rc, errno := -1, bindErrno;
      } else {
        rc, errno := 0, 0;
        boundPorts := boundPorts[fd := if port == 0 then ephemeralPort else port];
      }
    }

    /** getsockname: the port the descriptor is bound to. */
    method GetSockName(fd: int) returns (rc: int, port: port16, errno: int)
      ensures getsocknameErrno != 0 ==> rc == -1 && errno == getsocknameErrno
      ensures getsocknameErrno == 0 ==> rc == 0 && port == (if fd in boundPorts then boundPorts[fd] else 0)
    {
      if getsocknameErrno != 0 {
        rc, port, errno := -1, 0, getsocknameErrno;
      } else {
        rc, port, errno := 0, if fd in boundPorts then boundPorts[fd] else 0, 0;
      }
    }

    /** setsockopt(SOL_SOCKET, SO_RCVTIMEO). */
    method SetRcvTimeout(fd: int, tv: Timeval) returns (rc: int, errno: int)
      modifies this
      ensures old(setsockoptErrno) != 0 ==> rc == -1 && errno == old(setsockoptErrno) && unchanged(this)
      ensures old(setsockoptErrno) == 0 ==> rc == 0 && rcvTimeouts == old(rcvTimeouts)[fd := tv]
      ensures socketErrno == old(socketErrno) && bindErrno == old(bindErrno)
      ensures getsocknameErrno == old(getsocknameErrno) && setsockoptErrno == old(setsockoptErrno)
      ensures ephemeralPort == old(ephemeralPort) && incoming == old(incoming) && nextFd == old(nextFd)
      ensures openFds == old(openFds) && boundPorts == old(boundPorts)
    {
      if setsockoptErrno != 0 {
        rc, errno := -1, setsockoptErrno;
      } else {
        rc, errno := 0, 0;
        rcvTimeouts := rcvTimeouts[fd := tv];
      }
    }

    /** recvfrom into `buf`: the next scripted arrival, a datagram cut to the
        buffer's length, or -1 with its errno; EAGAIN once the script is
        exhausted. */
    method RecvFrom(fd: int, buf: array<byte>) returns (n: int, errno: int)
      modifies this, buf
      ensures old(incoming) == [] ==> n == -1 && errno == EAGAIN && incoming == []
      ensures old(incoming) != [] ==> incoming == old(incoming)[1..]
      ensures old(incoming) != [] && old(incoming)[0].RecvError? ==> n == -1 && errno == old(incoming)[0].errno
      ensures old(incoming) != [] && old(incoming)[0].Datagram? ==>
        var p := old(incoming)[0].payload;
        n == Min(|p|, buf.Length) && buf[..n] == p[..n] && buf[n..] == old(buf[n..])
      ensures old(incoming) == [] || old(incoming)[0].RecvError? ==> buf[..] == old(buf[..])
      ensures socketErrno == old(socketErrno) && bindErrno == old(bindErrno)
      ensures getsocknameErrno == old(getsocknameErrno) && setsockoptErrno == old(setsockoptErrno)
      ensures ephemeralPort == old(ephemeralPort) && nextFd == old(nextFd)
      ensures openFds == old(openFds) && boundPorts == old(boundPorts) && rcvTimeouts == old(rcvTimeouts)
    {
      if incoming == [] {
        n, errno := -1, EAGAIN;
      } else {
        match incoming[0] {
          case RecvError(e) =>
            n, errno := -1, e;
          case Datagram(p) =>
            n, errno := Min(|p|, buf.Length), 0;
            var i := 0;
            while i < n
              modifies buf
              invariant 0 <= i <= n
              invariant buf[..i] == p[..i]
              invariant buf[i..] == old(buf[i..])
            {
              buf[i] := p[i];
              i := i + 1;
            }
        }
        incoming := incoming[1..];
      }
    }

    /** close: the descriptor is released. */
    method Close(fd: int)
      modifies this
      ensures openFds == old(openFds) - {fd}
      ensures socketErrno == old(socketErrno) && bindErrno == old(bindErrno)
      ensures getsocknameErrno == old(getsocknameErrno) && setsockoptErrno == old(setsockoptErrno)
      ensures ephemeralPort == old(ephemeralPort) && incoming == old(incoming) && nextFd == old(nextFd)
      ensures boundPorts == old(boundPorts) && rcvTimeouts == old(rcvTimeouts)
    {
      openFds := openFds - {fd};
    }
  }

  function Min(a: nat, b: nat): nat { if a < b then a else b }

  // ---------------------------------------------------------------------
  // Pure parts of the receiver

  /** The protobuf message types the receiver can decode. */
  datatype MsgType = Frame | Imu | Dynamics

  /** A received message: its type and the bytes handed to ParseFromArray. */
  datatype Message = Message(msgType: MsgType, bytes: seq<byte>)

  /** The dispatch table registered by the constructor, keyed by each
      message descriptor's name. */
  function DispatchTable(): (t: map<string, MsgType>)
    ensures t.Keys == {"Frame", "Imu", "Dynamics"}
    ensures forall name :: name in t ==> TypeName(t[name]) == name
  {
    map["Frame" := Frame, "Imu" := Imu, "Dynamics" := Dynamics]
  }

  function TypeName(t: MsgType): string
  {
    match t
    case Frame => "Frame"
    case Imu => "Imu"
    case Dynamics => "Dynamics"
  }

  /** The invalid_argument text of receive(name); std::map lists the keys of
      the table in lexicographic order. */
  function UnsupportedTypeMessage(name: string): string
  {
    "Unsupported protobuf message type '" + name + "'. Only the following types are supported: "
    + "Dynamics Frame Imu "
  }

  /** setTimeout on POSIX: whole seconds and the remaining microseconds. */
  function TimevalOf(ms: nat): (tv: Timeval)
    ensures tv.sec * 1_000_000 + tv.usec == ms * 1000
    ensures tv.usec < 1_000_000
  {
    Timeval(ms / 1000, (ms % 1000) * 1000)
  }

  /** There is only one such split, so the timeval is the exact duration. */
  lemma TimevalUnique(ms: nat, tv: Timeval)
    requires tv.sec * 1_000_000 + tv.usec == ms * 1000 && tv.usec < 1_000_000
    ensures tv == TimevalOf(ms)
  {
    var u := ms - tv.sec * 1000;
    assert tv.usec == u * 1000;
    assert 0 <= u < 1000;
    assert ms == tv.sec * 1000 + u;
  }

  /** What receive<T> makes of the remaining script: interrupted calls are
      retried (TEMP_FAILURE_RETRY), a datagram is delivered cut to the
      buffer, EAGAIN or EWOULDBLOCK is a timeout and any other errno a
      fault. */
  datatype Delivery = Payload(bytes: seq<byte>) | TimedOut | Fault(errno: int)

  function NextDelivery(incoming: seq<Arrival>): (d: Delivery)
    ensures d.Payload? ==> |d.bytes| <= BUFFER_SIZE
    ensures d.Fault? ==> d.errno != EINTR && d.errno != EAGAIN && d.errno != EWOULDBLOCK
  {
    if incoming == [] then TimedOut
    else match incoming[0]
      case Datagram(p) => Payload(p[..Min(|p|, BUFFER_SIZE)])
      case RecvError(e) =>
        if e == EINTR then NextDelivery(incoming[1..])
        else if e == EAGAIN || e == EWOULDBLOCK then TimedOut
        else Fault(e)
  }

  /** How many scripted arrivals that receive consumes. */
  function Consumed(incoming: seq<Arrival>): (k: nat)
    ensures k <= |incoming|
  {
    if incoming == [] then 0
    else if incoming[0].RecvError? && incoming[0].errno == EINTR then 1 + Consumed(incoming[1..])
    else 1
  }

  /** The value receive<T> returns: the message, null on timeout, or a
      SocketException carrying errno. */
  function Received(t: MsgType, d: Delivery): Result<Option<Message>>
  {
    match d
    case Payload(b) => Ok(Some(Message(t, b)))
    case TimedOut => Ok(None)
    case Fault(e) => Err(SocketException(e))
  }

  /** A datagram is delivered whole when it fits and cut to 512 bytes when
      it does not, after any number of interrupted calls. */
  lemma {:induction false} DeliversFirstDatagram(k: nat, incoming: seq<Arrival>)
    requires k < |incoming| && incoming[k].Datagram?
    requires forall j :: 0 <= j < k ==> incoming[j] == RecvError(EINTR)
    ensures NextDelivery(incoming) == Payload(incoming[k].payload[..Min(|incoming[k].payload|, BUFFER_SIZE)])
    ensures Consumed(incoming) == k + 1
  {
    if k > 0 {
      DeliversFirstDatagram(k - 1, incoming[1..]);
    }
  }

  /** A timeout yields a null message and never an exception. */
  lemma {:induction false} TimeoutIsNull(t: MsgType, incoming: seq<Arrival>)
    requires forall j :: 0 <= j < |incoming| ==> incoming[j] == RecvError(EINTR) || incoming[j] == RecvError(EAGAIN)
    ensures Received(t, NextDelivery(incoming)) == Ok(None)
  {
    if incoming != [] && incoming[0] == RecvError(EINTR) {
      TimeoutIsNull(t, incoming[1..]);
    }
  }

  // ---------------------------------------------------------------------
  // The port a receiver binds

  /** The constructor binds static_cast<u_short>(port): the port cut to its
      low 16 bits. */
  function BoundPort(port: nat): (b: port16)
    ensures b == port <==> port < 0x1_0000
    ensures port >= 0x1_0000 ==> b < port
  {
    port % 0x1_0000
  }

  /** A port above 65535 is bound somewhere else than the port the caller
      asked for, which is also the port the receiver reports and the port
      the destination "ip:port" names: 70000 is bound as 4464, and 65536 as
      0, which lets the kernel pick a port that is never read back. */
  lemma BoundPortMismatch()
    ensures BoundPort(70000) == 4464
    ensures BoundPort(0x1_0000) == 0
    ensures exists port: nat :: port != 0 && BoundPort(port) != port
  {
    assert BoundPort(70000) != 70000;
  }

  /** The evidently intended check: a port that fits in 16 bits is taken as
      it is; any other is refused before a socket is opened. */
  function CheckedPort(port: nat): (r: Result<port16>)
    ensures r.Ok? <==> port < 0x1_0000
    ensures r.Ok? ==> r.value == port
    ensures r.Err? ==> r.error == InvalidArgument("Port number out of range: " + NatToString(port))
  {
    if port < 0x1_0000 then Ok(port)
    else Err(InvalidArgument("Port number out of range: " + NatToString(port)))
  }

  /** Under the check, the port bound is always the port asked for, and the
      check refuses exactly the ports the cast would move. */
  lemma {:induction false} CheckedPortBindsAsked(port: nat)
    ensures CheckedPort(port).Ok? ==> BoundPort(CheckedPort(port).value) == port
    ensures CheckedPort(port).Err? <==> BoundPort(port) != port
  {
  }

  /** The ports bound after the constructor has run on descriptor `fd`:
      once the address, socket and bind have succeeded, `fd` is bound to
      the port cut to 16 bits (the ephemeral port when that is 0), even if
      the getsockname that follows fails. */
  function PortsAfterSetup(ipAddress: string, port: nat, socketErrno: int, bindErrno: int,
                           ephemeralPort: port16, fd: int, ports: map<int, port16>): map<int, port16>
  {
    if NetUtils.IsValidIPAddress(ipAddress) && socketErrno == 0 && bindErrno == 0 then
      ports[fd := if BoundPort(port) == 0 then ephemeralPort else BoundPort(port)]
    else ports
  }

  /** The descriptors open after the constructor has run on descriptor
      `fd`: none is made for an invalid address or a failing socket(); a
      failing bind leaves `fd` open; a failing getsockname closes it again. */
  function FdsAfterSetup(ipAddress: string, port: nat, socketErrno: int, bindErrno: int, getsocknameErrno: int,
                         fd: int, fds: set<int>): set<int>
  {
    if !NetUtils.IsValidIPAddress(ipAddress) || socketErrno != 0 then fds
    else if bindErrno == 0 && port == 0 && getsocknameErrno != 0 then fds - {fd}
    else fds + {fd}
  }

  // ---------------------------------------------------------------------
  // The receiver

  class DataReceiver {
    const kernel: Kernel
    const ip: string
    const port: nat
    const sockfd: int
    const recvFuncMap: map<string, MsgType>
    const buffer: array<byte>

    ghost predicate Valid()
    {
      buffer.Length == BUFFER_SIZE && recvFuncMap == DispatchTable()
    }

    constructor Init(kernel: Kernel, ip: string, port: nat, sockfd: int)
      ensures Valid()
      ensures this.kernel == kernel && this.ip == ip && this.port == port && this.sockfd == sockfd
      ensures fresh(buffer)
    {
      this.kernel, this.ip, this.port, this.sockfd := kernel, ip, port, sockfd;
      recvFuncMap := DispatchTable();
      buffer := new byte[BUFFER_SIZE](_ => 0);
    }

    /** What the constructor raises, if anything, on a kernel whose socket,
        bind and getsockname calls fail with the given errnos (0 for none). */
    static function SetupOutcome(ipAddress: string, port: nat, socketErrno: int, bindErrno: int,
                                 getsocknameErrno: int): (o: Outcome)
      ensures o.Pass? <==>
        NetUtils.IsValidIPAddress(ipAddress) && socketErrno == 0 && bindErrno == 0 &&
        (port == 0 ==> getsocknameErrno == 0)
    {
      if !NetUtils.IsValidIPAddress(ipAddress) then
        Fail(InvalidArgument("Given IP address is not a valid address: " + ipAddress))
      else if socketErrno != 0 then Fail(SocketException(socketErrno))
      else if bindErrno != 0 then Fail(SocketException(bindErrno))
      else if port == 0 && getsocknameErrno != 0 then Fail(SocketException(getsocknameErrno))
      else Pass
    }

    /** DataReceiver(ip_address, port): the address is checked before any
        socket exists; the socket is bound to the port cut to 16 bits; for
        port 0 the assigned port is read back and written to both the
        caller's port and the receiver's. A failing bind leaves the socket
        open; a failing getsockname closes it. */
    static method Create(ipAddress: string, port: nat, kernel: Kernel)
      returns (r: Result<DataReceiver>, portOut: nat)
      modifies kernel
      ensures !NetUtils.IsValidIPAddress(ipAddress) ==>
        r == Err(InvalidArgument("Given IP address is not a valid address: " + ipAddress)) &&
        portOut == port && unchanged(kernel)
      ensures NetUtils.IsValidIPAddress(ipAddress) && old(kernel.socketErrno) != 0 ==>
        r == Err(SocketException(old(kernel.socketErrno))) && portOut == port && unchanged(kernel)
      ensures NetUtils.IsValidIPAddress(ipAddress) && old(kernel.socketErrno) == 0 && old(kernel.bindErrno) != 0 ==>
        r == Err(SocketException(old(kernel.bindErrno))) && portOut == port &&
        kernel.openFds == old(kernel.openFds) + {old(kernel.nextFd)}
      ensures NetUtils.IsValidIPAddress(ipAddress) && old(kernel.socketErrno) == 0 && old(kernel.bindErrno) == 0
              && port == 0 && old(kernel.getsocknameErrno) != 0 ==>
        r == Err(SocketException(old(kernel.getsocknameErrno))) && portOut == port &&
        kernel.openFds == old(kernel.openFds) - {old(kernel.nextFd)}
      ensures r.Ok? <==>
        NetUtils.IsValidIPAddress(ipAddress) && old(kernel.socketErrno) == 0 && old(kernel.bindErrno) == 0 &&
        (port == 0 ==> old(kernel.getsocknameErrno) == 0)
      ensures r.Ok? ==>
        var d := r.value;
        fresh(d) && fresh(d.buffer) && d.Valid() && d.kernel == kernel && d.ip == ipAddress &&
        d.port == portOut && d.sockfd == old(kernel.nextFd) && d.sockfd in kernel.openFds &&
        (port != 0 ==> portOut == port) &&
        (port == 0 ==> portOut == old(kernel.ephemeralPort))
      ensures r.Err? ==>
        Fail(r.error) == SetupOutcome(ipAddress, port, old(kernel.socketErrno), old(kernel.bindErrno),
                                      old(kernel.getsocknameErrno))
      ensures r.Ok? ==> kernel.openFds == old(kernel.openFds) + {old(kernel.nextFd)}
      ensures kernel.openFds ==
        FdsAfterSetup(ipAddress, port, old(kernel.socketErrno), old(kernel.bindErrno), old(kernel.getsocknameErrno),
                      old(kernel.nextFd), old(kernel.openFds))
      ensures kernel.nextFd ==
        if NetUtils.IsValidIPAddress(ipAddress) && old(kernel.socketErrno) == 0 then old(kernel.nextFd) + 1
        else old(kernel.nextFd)
      ensures kernel.boundPorts ==
        PortsAfterSetup(ipAddress, port, old(kernel.socketErrno), old(kernel.bindErrno), old(kernel.ephemeralPort),
                        old(kernel.nextFd), old(kernel.boundPorts))
      ensures kernel.incoming == old(kernel.incoming) && kernel.rcvTimeouts == old(kernel.rcvTimeouts)
      ensures kernel.Faults() == old(kernel.Faults())
    {
      portOut := port;
      if !NetUtils.IsValidIPAddress(ipAddress) {
        r := Err(InvalidArgument("Given IP address is not a valid address: " + ipAddress));
        return;
      }
      var fd, errno := kernel.Socket();
      if fd < 0 {
        r := Err(SocketException(errno));
        return;
      }
      var rc;
      rc, errno := kernel.Bind(fd, BoundPort(port));
      if rc < 0 {
        r := Err(SocketException(errno));
        return;
      }
      if port == 0 {
        var boundPort;
        rc, boundPort, errno := kernel.GetSockName(fd);
        if rc < 0 {
          kernel.Close(fd);
          r := Err(SocketException(errno));
          return;
        }
        portOut := boundPort;
      }
      var d := new DataReceiver.Init(kernel, ipAddress, portOut, fd);
      r := Ok(d);
    }

    /** setTimeout(ms): SO_RCVTIMEO becomes TimevalOf(ms); a failing
        setsockopt is a SocketException. */
    method SetTimeout(ms: nat) returns (o: Outcome)
      modifies kernel
      ensures old(kernel.setsockoptErrno) != 0 ==>
        o == Fail(SocketException(old(kernel.setsockoptErrno))) && unchanged(kernel)
      ensures old(kernel.setsockoptErrno) == 0 ==>
        o == Pass && kernel.rcvTimeouts == old(kernel.rcvTimeouts)[sockfd := TimevalOf(ms)]
      ensures kernel.incoming == old(kernel.incoming) && kernel.openFds == old(kernel.openFds)
      ensures kernel.boundPorts == old(kernel.boundPorts) && kernel.nextFd == old(kernel.nextFd)
      ensures kernel.Faults() == old(kernel.Faults())
    {
      var rc, errno := kernel.SetRcvTimeout(sockfd, TimevalOf(ms));
      o := if rc < 0 then Fail(SocketException(errno)) else Pass;
    }

    /** receive<T>(): recvfrom retried while interrupted, then classified. */
    method ReceiveAs(t: MsgType) returns (r: Result<Option<Message>>)
      requires Valid()
      modifies kernel, buffer
      ensures r == Received(t, NextDelivery(old(kernel.incoming)))
      ensures kernel.incoming == old(kernel.incoming)[Consumed(old(kernel.incoming))..]
      ensures r.Ok? && r.value.Some? ==> buffer[..|r.value.value.bytes|] == r.value.value.bytes
      ensures kernel.openFds == old(kernel.openFds) && kernel.rcvTimeouts == old(kernel.rcvTimeouts)
      ensures kernel.boundPorts == old(kernel.boundPorts) && kernel.nextFd == old(kernel.nextFd)
      ensures kernel.Faults() == old(kernel.Faults())
    {
      ghost var script := kernel.incoming;
      var n, errno := kernel.RecvFrom(sockfd, buffer);
      while n < 0 && errno == EINTR
        invariant script != [] && script[0] == RecvError(EINTR) ==>
          NextDelivery(script) == NextDelivery(old(kernel.incoming))
        invariant kernel.openFds == old(kernel.openFds) && kernel.rcvTimeouts == old(kernel.rcvTimeouts)
        invariant kernel.boundPorts == old(kernel.boundPorts) && kernel.nextFd == old(kernel.nextFd)
        invariant kernel.Faults() == old(kernel.Faults())
        invariant NextDelivery(script) == NextDelivery(old(kernel.incoming))
        invariant script[Consumed(script)..] == old(kernel.incoming)[Consumed(old(kernel.incoming))..]
        invariant script == [] ==> n == -1 && errno == EAGAIN && kernel.incoming == []
        invariant script != [] ==> kernel.incoming == script[1..]
        invariant script != [] && script[0].RecvError? ==> n == -1 && errno == script[0].errno
        invariant script != [] && script[0].Datagram? ==>
          n == Min(|script[0].payload|, BUFFER_SIZE) && buffer[..n] == script[0].payload[..n]
        decreases |kernel.incoming| + (if n < 0 && errno == EINTR then 1 else 0)
      {
        script := kernel.incoming;
        n, errno := kernel.RecvFrom(sockfd, buffer);
      }
      if n < 0 {
        r := if errno == EAGAIN || errno == EWOULDBLOCK then Ok(None) else Err(SocketException(errno));
      } else {
        r := Ok(Some(Message(t, buffer[..n])));
      }
    }

    /** receive(name): the decoder registered under `name`; an unknown name
        is an invalid_argument and the socket is not read. */
    method Receive(pbMsgType: string) returns (r: Result<Option<Message>>)
      requires Valid()
      modifies kernel, buffer
      ensures pbMsgType !in DispatchTable() ==>
        r == Err(InvalidArgument(UnsupportedTypeMessage(pbMsgType))) && unchanged(kernel) && unchanged(buffer)
      ensures pbMsgType in DispatchTable() ==>
        r == Received(DispatchTable()[pbMsgType], NextDelivery(old(kernel.incoming))) &&
        kernel.incoming == old(kernel.incoming)[Consumed(old(kernel.incoming))..]
      ensures kernel.openFds == old(kernel.openFds) && kernel.rcvTimeouts == old(kernel.rcvTimeouts)
      ensures kernel.boundPorts == old(kernel.boundPorts) && kernel.nextFd == old(kernel.nextFd)
      ensures kernel.Faults() == old(kernel.Faults())
    {
      if pbMsgType !in recvFuncMap {
        r := Err(InvalidArgument(UnsupportedTypeMessage(pbMsgType)));
        return;
      }
      r := ReceiveAs(recvFuncMap[pbMsgType]);
    }

    /** The destructor: the socket is closed. */
    method Close()
      modifies kernel
      ensures kernel.openFds == old(kernel.openFds) - {sockfd}
      ensures kernel.incoming == old(kernel.incoming) && kernel.rcvTimeouts == old(kernel.rcvTimeouts)
      ensures kernel.boundPorts == old(kernel.boundPorts) && kernel.nextFd == old(kernel.nextFd)
      ensures kernel.Faults() == old(kernel.Faults())
    {
      kernel.Close(sockfd);
    }
  }
}
