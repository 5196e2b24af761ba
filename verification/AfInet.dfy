/** Internet sockets: the port allocator, bind and sendmsg (src/netinet/af_inet.c), and runs of such calls. */
module AfInet {
  import opened Machine
  import opened Net
  import opened NetDev
  import opened Sockets
  import opened Udp

  const FIRST_PORT: uint16 := 49152
  const PORTS: nat := 16384

  // ---------------------------------------------------------------- ports

  /** The port handed out by the k-th call of inet_get_port, counting from 0, in host order. */
  function PortAt(k: nat): (p: uint16)
    ensures FIRST_PORT <= p
  {
    FIRST_PORT + k % PORTS
  }

  lemma PortInNumbers(k: nat)
    ensures PortAt(k) == 49152 + k % 16384
  {
  }

  lemma NextPort(k: nat)
    ensures PortAt(k + 1) == if PortAt(k) == 0xFFFF then FIRST_PORT else PortAt(k) + 1
  {
  }

  /** Any 16384 consecutive ports are pairwise distinct, in network order too, and none is zero; the one
      after them is the first again. */
  lemma PortsInAWindow(i: nat, j: nat)
    requires i < j <= i + PORTS
    ensures Swap(PortAt(i)) != 0
    ensures Swap(PortAt(i)) == Swap(PortAt(j)) <==> j == i + PORTS
  {
    hide Swap;
    SwapInjective(PortAt(i), PortAt(j));
    Remainders(i, j);
  }

  lemma Remainders(i: nat, j: nat)
    requires i < j <= i + PORTS
    ensures i % PORTS == j % PORTS <==> j == i + PORTS
  {
  }

  class Ports {
    var inetPort: uint16
    /** How many ports were handed out. */
    ghost var count: nat

    ghost predicate Valid()
      reads this
    {
      inetPort == PortAt(count)
    }

    /** The static initial value. */
    constructor ()
      ensures Valid() && count == 0
    {
      inetPort, count := FIRST_PORT, 0;
    }

    /** inet_get_port. */
    method Get() returns (port: uint16)
      requires Valid()
      modifies this
      ensures Valid() && count == old(count) + 1
      ensures port == Swap(49152 + old(count) % 16384)
    {
      hide Swap, PortAt;
      NextPort(count);
      PortInNumbers(count);
      var hostPort := inetPort;
      inetPort := (inetPort + 1) % 0x1_0000;
      if inetPort == 0 {
        inetPort := FIRST_PORT;
      }
      port, count := Swap(hostPort), count + 1;
    }
  }

  // ---------------------------------------------------------------- bind

  /** The addresses inet_bind takes. */
  predicate Bindable(addr: SockAddrIn, addrLen: byte) {
    addrLen >= SOCKADDR_IN_SIZE && (addr.family == AF_INET || (addr.family == AF_UNSPEC && addr.addr == ANY))
  }

  /** In numbers: at least 7 bytes of address, and family 1, or family 0 with the address 0.0.0.0. */
  lemma BindableInNumbers(addr: SockAddrIn, addrLen: byte)
    ensures Bindable(addr, addrLen) <==>
      addrLen >= 7 && (addr.family == 1 || (addr.family == 0 && addr.addr == [0, 0, 0, 0]))
  {
  }

  /** inet_bind. */
  method InetBind(sk: Socket, addr: SockAddrIn, addrLen: byte) returns (err: int8)
    modifies sk`srcAddr, sk`srcPort, sk`dstAddr, sk`dstPort
    ensures err == 0 <==> Bindable(addr, addrLen) && old(sk.srcPort) == 0
    ensures err == 0 ==>
      sk.srcAddr == addr.addr && sk.srcPort == Swap(addr.port) && sk.dstAddr == ANY && sk.dstPort == 0
    ensures err != 0 ==>
      && err == -1 && sk.srcAddr == old(sk.srcAddr) && sk.srcPort == old(sk.srcPort)
      && sk.dstAddr == old(sk.dstAddr) && sk.dstPort == old(sk.dstPort)
  {
    err := -1;
    if addrLen < SOCKADDR_IN_SIZE {
      return;
    }
    if addr.family != AF_INET {
      if addr.family != AF_UNSPEC || addr.addr != ANY {
        return;
      }
    }
    if sk.srcPort != 0 {
      return;
    }
    sk.srcAddr := addr.addr;
    sk.dstAddr := ANY;
    sk.srcPort := Swap(addr.port);
    sk.dstPort := 0;
    err := 0;
  }

  /** bind converts sin_port and sendmsg does not: a socket bound with port value `w` that sends to a peer
      named with the same `w` puts one and the same port into both fields of the frame exactly when the two
      bytes of `w` are equal. */
  lemma BindAndSendDisagree(dev: Device, src: Quad, dst: Quad, w: uint16, payload: seq<byte>)
    requires |payload| + 42 < 0x1_0000
    ensures var r := Read(Frame(dev, IPPROTO_UDP, src, dst, Swap(w), w, payload));
      && r.Some? && r.value.protocol == 17 && r.value.srcPort == w && r.value.dstPort == Swap(w)
      && (r.value.srcPort == r.value.dstPort <==> Lo(w) == Hi(w))
  {
    FrameReadsBack(dev, IPPROTO_UDP, src, dst, Swap(w), w, payload);
    SwapTwice(w);
    SwapEqualIff(w % 0x100, w / 0x100);
  }

  lemma SwapEqualIff(lo: byte, hi: byte)
    ensures Swap(Word(lo, hi)) == Word(lo, hi) <==> lo == hi
  {
    SwapWord(lo, hi);
  }

  // ---------------------------------------------------------------- sendmsg

  /** inet_sendmsg. An unbound socket gets the next port first, even if the message is then refused. */
  method InetSendmsg(env: Env, ports: Ports, sk: Socket, msg: Msg, myIp: Quad, dev: Device, memory: bool)
    returns (ret: int, ghost nb: NetBuff?)
    requires ports.Valid() && sk.txQ.Valid() && sk.txQ.items == [] && |msg.payload| + 42 < 0x1_0000
    modifies env, ports, sk`srcAddr, sk`dstAddr, sk`srcPort, sk`dstPort
    modifies sk.txQ, sk.txQ.anchor`next, sk.txQ.anchor`prev, sk.txQ.nodes`next, sk.txQ.nodes`prev
    ensures sk.txQ.Valid() && sk.txQ.items == [] && fresh(sk.txQ.nodes - old(sk.txQ.nodes))
    ensures ports.Valid() && ports.count == old(ports.count) + (if old(sk.srcPort) == 0 then 1 else 0)
    ensures sk.srcPort == (if old(sk.srcPort) == 0 then Swap(PortAt(old(ports.count))) else old(sk.srcPort))
    ensures env.freed == old(env.freed)
    ensures sk.protocol != IPPROTO_UDP ==> nb == null && ret == if sk.protocol == IPPROTO_TCP then 0 else -1
    ensures sk.protocol == IPPROTO_UDP ==> (nb == null <==> Refused(msg) || !memory) && (nb == null ==> ret == -1)
    ensures var named := sk.protocol == IPPROTO_UDP && !Refused(msg) && msg.name.Some?;
      && sk.dstAddr == (if named then msg.name.value.addr else old(sk.dstAddr))
      && sk.dstPort == (if named then msg.name.value.port else old(sk.dstPort))
    ensures nb == null ==> env.taken == old(env.taken) && env.script == old(env.script)
    ensures nb != null ==>
      && fresh(nb) && |nb.head[..]| >= 42
      && nb.head[..6] == dev.broadcast && nb.head[6..12] == dev.mac && nb.head[22] == 64 && nb.head[23] == 17
      && Read(nb.head[..]) == Some(Datagram(17, myIp, sk.dstAddr, Swap(sk.srcPort), Swap(sk.dstPort), msg.payload))
      && env.taken == old(env.taken) + (if Completions(Answers(old(env.script))) > 0 then [nb] else [])
      && ret == SendResult(|msg.payload|, QueueErr(1, old(env.script), NETDEV_TX_OK))
      && env.script == QueueRest(1, old(env.script))
  {
    hide NbQueue.Valid, Answers, Completions, QueueErr, QueueRest, Read, Frame, SendResult;
    nb := null;
    if sk.srcPort == 0 {
      sk.srcPort := ports.Get();
    }
    if sk.protocol == IPPROTO_TCP {
      ret := 0;
    } else if sk.protocol == IPPROTO_UDP {
      ret, nb := UdpSendMsg(env, sk, msg, myIp, dev, memory);
      FrameReadsBack(dev, sk.protocol, myIp, sk.dstAddr, sk.srcPort, sk.dstPort, msg.payload);
      FrameInNumbers(dev, sk.protocol, myIp, sk.dstAddr, sk.srcPort, sk.dstPort, msg.payload);
      if nb != null {
        LiveAndProtocol(nb.head[..], dev);
      }
    } else {
      ret := -1;
    }
  }

  lemma LiveAndProtocol(f: seq<byte>, dev: Device)
    requires |f| >= 42 && f[14..24][8] == 64 && f[14..24][9] == 17
    ensures f[22] == 64 && f[23] == 17
  {
  }

  // ---------------------------------------------------------------- runs of calls

  /** A call on the socket, or another socket taking a port in between. */
  datatype Call = Bind(addr: SockAddrIn, addrLen: byte) | Send(msg: Msg, memory: bool) | OtherSocket

  predicate Fits(call: Call) { call.Send? ==> |call.msg.payload| + 42 < 0x1_0000 }

  /** What the next call depends on: the socket's ports and peer, how many ports were handed out, and what
      the device will say. */
  datatype View = View(srcPort: uint16, dstAddr: Quad, dstPort: uint16, count: nat, script: seq<Poll>)

  predicate Transmits(protocol: byte, call: Call) {
    call.Send? && protocol == IPPROTO_UDP && !Refused(call.msg)
  }

  function AfterCall(v: View, protocol: byte, call: Call): View {
    match call
    case OtherSocket => v.(count := v.count + 1)
    case Bind(addr, addrLen) =>
      if Bindable(addr, addrLen) && v.srcPort == 0
      then v.(srcPort := Swap(addr.port), dstAddr := ANY, dstPort := 0) else v
    case Send(msg, memory) =>
      var bound := if v.srcPort == 0 then v.(srcPort := Swap(PortAt(v.count)), count := v.count + 1) else v;
      if !Transmits(protocol, call) then bound
      else
        var named := if msg.name.Some? then bound.(dstAddr := msg.name.value.addr, dstPort := msg.name.value.port)
                     else bound;
        if memory then named.(script := QueueRest(1, v.script)) else named
  }

  /** The datagram the driver gets from a call, if it gets one. */
  function Carried(v: View, protocol: byte, myIp: Quad, call: Call): seq<Datagram> {
    if Transmits(protocol, call) && call.memory && Completions(Answers(v.script)) > 0 then
      var w := AfterCall(v, protocol, call);
      [Datagram(17, myIp, w.dstAddr, Swap(w.srcPort), Swap(w.dstPort), call.msg.payload)]
    else []
  }

  function AfterCalls(v: View, protocol: byte, calls: seq<Call>): View
    decreases |calls|
  {
    if calls == [] then v
    else AfterCall(AfterCalls(v, protocol, calls[..|calls| - 1]), protocol, calls[|calls| - 1])
  }

  function AllCarried(v: View, protocol: byte, myIp: Quad, calls: seq<Call>): seq<Datagram>
    decreases |calls|
  {
    if calls == [] then []
    else
      var earlier := calls[..|calls| - 1];
      AllCarried(v, protocol, myIp, earlier)
      + Carried(AfterCalls(v, protocol, earlier), protocol, myIp, calls[|calls| - 1])
  }

  lemma OneMoreCall(v: View, protocol: byte, myIp: Quad, calls: seq<Call>, i: nat)
    requires i < |calls|
    ensures AfterCalls(v, protocol, calls[..i + 1])
         == AfterCall(AfterCalls(v, protocol, calls[..i]), protocol, calls[i])
    ensures AllCarried(v, protocol, myIp, calls[..i + 1])
         == AllCarried(v, protocol, myIp, calls[..i])
            + Carried(AfterCalls(v, protocol, calls[..i]), protocol, myIp, calls[i])
  {
    assert calls[..i + 1][..i] == calls[..i];
  }

  /** The source port, once it is not zero, never changes, under any run of binds and sends; and any send
      makes it so. */
  lemma {:induction false} SourcePortWrittenOnce(v: View, protocol: byte, calls: seq<Call>, more: seq<Call>)
    ensures var p := AfterCalls(v, protocol, calls).srcPort;
      && (p != 0 ==> AfterCalls(v, protocol, calls + more).srcPort == p)
      && (p == 0 ==> forall i :: 0 <= i < |calls| ==> !calls[i].Send?)
    decreases |more|, |calls|
  {
    hide PortAt, QueueRest;
    if more != [] {
      var n := |calls + more| - 1;
      assert (calls + more)[..n] == calls + more[..|more| - 1] && (calls + more)[n] == more[|more| - 1];
      SourcePortWrittenOnce(v, protocol, calls, more[..|more| - 1]);
    } else {
      assert calls + more == calls;
      if calls != [] {
        var n := |calls| - 1;
        var before := AfterCalls(v, protocol, calls[..n]);
        SourcePortWrittenOnce(v, protocol, calls[..n], []);
        PortsInAWindow(before.count, before.count + 1);
        assert forall i :: 0 <= i < n ==> calls[i] == calls[..n][i];
      }
    }
  }

  /** Buffers whose frames read back as these datagrams. */
  ghost predicate Carry(bufs: seq<NetBuff>, datagrams: seq<Datagram>)
    reads set nb | nb in bufs :: nb.head
  {
    |bufs| == |datagrams| &&
    forall j {:trigger bufs[j]} :: 0 <= j < |bufs| ==> Read(bufs[j].head[..]) == Some(datagrams[j])
  }

  lemma CarryMore(a: seq<NetBuff>, b: seq<NetBuff>, c: seq<Datagram>, e: seq<Datagram>)
    requires Carry(a, c) && Carry(b, e)
    ensures Carry(a + b, c + e)
  {
  }

  /** Any run of binds and sends on one socket, whatever the driver answers. After every call the transmit
      queue is empty, so the next send finds it so; nothing is ever freed; the socket ends as AfterCalls says;
      and what the driver got is, in order, one frame for each send it completed, which reads back as the
      datagram of that send. */
  method RunCalls(env: Env, ports: Ports, sk: Socket, calls: seq<Call>, myIp: Quad, dev: Device)
    returns (ghost got: seq<NetBuff>)
    requires ports.Valid() && sk.txQ.Valid() && sk.txQ.items == []
    requires forall i :: 0 <= i < |calls| ==> Fits(calls[i])
    modifies env, ports, sk`srcAddr, sk`dstAddr, sk`srcPort, sk`dstPort
    modifies sk.txQ, sk.txQ.anchor`next, sk.txQ.anchor`prev, sk.txQ.nodes`next, sk.txQ.nodes`prev
    ensures ports.Valid() && sk.txQ.Valid() && sk.txQ.items == [] && env.freed == old(env.freed)
    ensures var v := old(View(sk.srcPort, sk.dstAddr, sk.dstPort, ports.count, env.script));
      && View(sk.srcPort, sk.dstAddr, sk.dstPort, ports.count, env.script) == AfterCalls(v, sk.protocol, calls)
      && env.taken == old(env.taken) + got && Carry(got, AllCarried(v, sk.protocol, myIp, calls))
  {
    hide NbQueue.Valid, Answers, Completions, QueueErr, QueueRest, Read, SendResult, PortAt, AfterCalls, AllCarried;
    ghost var v0 := View(sk.srcPort, sk.dstAddr, sk.dstPort, ports.count, env.script);
    ghost var v := v0;
    NoCalls(v0, sk.protocol, myIp);
    got := [];
    assert calls[..0] == [];
    for i := 0 to |calls|
      invariant ports.Valid() && sk.txQ.Valid() && sk.txQ.items == [] && env.freed == old(env.freed)
      invariant fresh(sk.txQ.nodes - old(sk.txQ.nodes))
      invariant v == View(sk.srcPort, sk.dstAddr, sk.dstPort, ports.count, env.script)
      invariant v == AfterCalls(v0, sk.protocol, calls[..i])
      invariant env.taken == old(env.taken) + got && Carry(got, AllCarried(v0, sk.protocol, myIp, calls[..i]))
    {
      assert Fits(calls[i]);
      OneMoreCall(v0, sk.protocol, myIp, calls, i);
      ghost var before := v;
      v := AfterCall(v, sk.protocol, calls[i]);
      match calls[i] {
        case Bind(addr, addrLen) =>
          var err := InetBind(sk, addr, addrLen);
        case Send(msg, memory) =>
          ghost var nb, sent := null, Completions(Answers(env.script)) > 0;
          var ret;
          ret, nb := InetSendmsg(env, ports, sk, msg, myIp, dev, memory);
          AppendAssoc(old(env.taken), got, if nb != null && sent then [nb] else []);
          ghost var more := if nb != null && sent then [nb] else [];
          CarryMore(got, more, AllCarried(v0, sk.protocol, myIp, calls[..i]),
                    Carried(before, sk.protocol, myIp, calls[i]));
          got := got + more;
        case OtherSocket =>
          var other := ports.Get();
      }
    }
    assert calls[..|calls|] == calls;
  }

  lemma NoCalls(v: View, protocol: byte, myIp: Quad)
    ensures AfterCalls(v, protocol, []) == v && AllCarried(v, protocol, myIp, []) == []
  {
  }
}
