/** Sending over UDP (src/netinet/udp.c, and ip_create_nb and ip_send_sock of src/netinet/ip.c). */
module Udp {
  import opened Machine
  import opened InternetChecksum
  import opened Net
  import opened NetDev
  import opened Sockets
  import Ip

  const UDP_HDR: byte := 8
  const MSG_OOB: byte := 8
  const SOCKADDR_IN_SIZE: byte := 7

  /** The addresses of the one network device. */
  datatype Device = Device(broadcast: Mac, mac: Mac)

  // ---------------------------------------------------------------- the frame

  function EthHeader(dev: Device): (s: seq<byte>)
    ensures |s| == 14
  {
    dev.broadcast + dev.mac + [8, 0]
  }

  /** The header ip_create_nb writes in front of `len` bytes: version 4, no options, do not fragment. */
  function IpHeader(len: uint16, protocol: byte, chks: uint16, src: Quad, dst: Quad): (s: seq<byte>)
    requires len + 20 < 0x1_0000
    ensures |s| == 20
  {
    [0x45, 0, Hi(len + 20), Lo(len + 20), 0, 0, 0x40, 0, 64, protocol] + Bytes16(chks) + src + dst
  }

  /** The checksum of that header: the one computed over it with a zero in the field. */
  function IpChecksum(len: uint16, protocol: byte, src: Quad, dst: Quad): uint16
    requires len + 20 < 0x1_0000
  {
    Checksum(IpHeader(len, protocol, 0, src, dst))
  }

  /** Ports are stored as the socket holds them. */
  function UdpHeader(srcPort: uint16, dstPort: uint16, len: uint16): (s: seq<byte>)
    ensures |s| == 8
  {
    Bytes16(srcPort) + Bytes16(dstPort) + [Hi(len), Lo(len), 0, 0]
  }

  lemma Overwrite(s: seq<byte>, off: nat, bytes: seq<byte>, lo: nat, hi: nat)
    requires off + |bytes| <= |s| && lo <= hi <= |s|
    ensures Splice(s, off, bytes)[off..off + |bytes|] == bytes
    ensures hi <= off || off + |bytes| <= lo ==> Splice(s, off, bytes)[lo..hi] == s[lo..hi]
  {
  }

  // ---------------------------------------------------------------- ip_create_nb

  /** The part of ip_create_nb that builds the IP header, at offset 14 of a frame. */
  method BuildIpHeader(h: array<byte>, len: uint16, protocol: byte, src: Quad, dst: Quad)
    requires h.Length >= 34 && len + 20 < 0x1_0000
    modifies h
    ensures h[..14] == old(h[..14]) && h[34..] == old(h[34..])
    ensures h[14..34] == IpHeader(len, protocol, IpChecksum(len, protocol, src, dst), src, dst)
    ensures Checksum(h[14..34]) == 0
  {
    hide Splice, Checksum;
    ghost var was := h[..];
    var header := IpHeader(len, protocol, 0, src, dst);
    Store(h, 14, header);
    Overwrite(was, 14, header, 0, 14);
    Overwrite(was, 14, header, 34, h.Length);
    ghost var written := h[..];
    assert written[14..34] == header;
    var chks := SetChecksum(h, 14, 20, Ip.IP_CHKS);
    Overwrite(written, 24, Bytes16(chks), 0, 14);
    Overwrite(written, 24, Bytes16(chks), 34, h.Length);
    SpliceWithin(written, 14, 20, Ip.IP_CHKS, Bytes16(chks));
    ChecksumField(len, protocol, src, dst, 0);
    ChecksumField(len, protocol, src, dst, chks);
  }

  lemma ChecksumField(len: uint16, protocol: byte, src: Quad, dst: Quad, chks: uint16)
    requires len + 20 < 0x1_0000
    ensures Splice(IpHeader(len, protocol, 0, src, dst), Ip.IP_CHKS, Bytes16(chks))
         == IpHeader(len, protocol, chks, src, dst)
    ensures Bytes16(0) == [0, 0]
  {
  }

  /** What a buffer for `data` behind a transport header of `tHdrLen` bytes, yet to be written, holds. */
  ghost predicate IpFrame(nb: NetBuff, data: seq<byte>, tHdrLen: byte, protocol: byte, src: Quad, dst: Quad,
                          dev: Device)
    reads nb`pktLen, nb`tail, nb`transportOff, nb.head
  {
    var len := tHdrLen + |data|;
    && len + 34 < 0x1_0000
    && nb.pktLen == nb.tail == nb.head.Length == len + 34 && nb.transportOff == 34
    && nb.head[..14] == EthHeader(dev)
    && nb.head[14..34] == IpHeader(len, protocol, IpChecksum(len, protocol, src, dst), src, dst)
    && Checksum(nb.head[14..34]) == 0
    && nb.head[34 + tHdrLen..] == data
  }

  lemma EthWritten(s: seq<byte>, dev: Device)
    requires |s| >= 14
    ensures Splice(s, 0, dev.broadcast + dev.mac + [Hi(ETH_P_IP), Lo(ETH_P_IP)])[..14] == EthHeader(dev)
  {
  }

  /** The allocation, and the Ethernet header of the frame. */
  method StartFrame(pktLen: uint16, dev: Device) returns (nb: NetBuff)
    requires pktLen >= 34
    ensures fresh(nb) && fresh(nb.head) && nb.head.Length == pktLen && nb.networkOff == 14
    ensures nb.tail == nb.pktLen == 14 && nb.transportOff == 34 && nb.head[..14] == EthHeader(dev)
  {
    hide Splice, EthHeader;
    nb := new NetBuff(pktLen);
    nb.protocol := ETH_P_IP;
    nb.tail := nb.tail + 14;
    nb.transportOff := nb.networkOff + 20;
    ghost var blank := nb.head[..];
    var err := nb.EthHeaderCreate(ETH_P_IP, Some(dev.broadcast), Some(dev.mac), dev.mac, pktLen);
    assert err == 0;
    EthWritten(blank, dev);
  }

  /** The allocation and the filling of the buffer in ip_create_nb. The trap of put_net_buff is out of reach. */
  method BuildFrame(data: seq<byte>, tHdrLen: byte, protocol: byte, src: Quad, dst: Quad, dev: Device, memory: bool)
    returns (nb: NetBuff?)
    requires tHdrLen + |data| + 34 < 0x1_0000
    ensures nb == null <==> !memory
    ensures nb != null ==> fresh(nb) && fresh(nb.head) && IpFrame(nb, data, tHdrLen, protocol, src, dst, dev)
  {
    hide Splice, Checksum, IpHeader, IpChecksum, EthHeader;
    if !memory {
      return null;
    }
    var len: uint16 := tHdrLen + |data|;
    nb := StartFrame(len + 34, dev);
    var iph, trapped := nb.Put(20);
    assert !trapped && iph == nb.networkOff;
    BuildIpHeader(nb.head, len, protocol, src, dst);
    var transport;
    transport, trapped := nb.Put(len);
    assert !trapped && transport == nb.transportOff;
    CopyData(nb.head, transport + tHdrLen, data);
  }

  /** The memcpy of the message, behind the headers. */
  method CopyData(h: array<byte>, off: nat, data: seq<byte>)
    requires off >= 34 && off + |data| == h.Length
    modifies h
    ensures h[..14] == old(h[..14]) && h[14..34] == old(h[14..34]) && h[off..] == data
  {
    hide Splice;
    ghost var was := h[..];
    Store(h, off, data);
    Overwrite(was, off, data, 0, 14);
    Overwrite(was, off, data, 14, 34);
    assert h[off..] == h[..][off..off + |data|];
  }

  /** ip_create_nb; `memory` says whether both allocations succeed. */
  method IpCreateNb(sk: Socket, data: seq<byte>, tHdrLen: byte, myIp: Quad, dev: Device, memory: bool)
    returns (nb: NetBuff?)
    requires sk.txQ.Valid() && tHdrLen + |data| + 34 < 0x1_0000
    modifies sk`srcAddr, sk.txQ, sk.txQ.anchor`next, sk.txQ.anchor`prev, sk.txQ.nodes`next, sk.txQ.nodes`prev
    ensures sk.txQ.Valid() && sk.srcAddr == myIp && (nb == null <==> !memory)
    ensures sk.txQ.items == old(sk.txQ.items) + (if nb == null then [] else [nb])
    ensures sk.txQ.nodes == old(sk.txQ.nodes) + (if nb == null then {} else {nb})
    ensures nb != null ==>
      && fresh(nb) && fresh(nb.head)
      && IpFrame(nb, data, tHdrLen, sk.protocol, myIp, sk.dstAddr, dev)
  {
    hide NbQueue.Valid, IpFrame;
    sk.srcAddr := myIp;
    nb := BuildFrame(data, tHdrLen, sk.protocol, sk.srcAddr, sk.dstAddr, dev, memory);
    if nb != null {
      sk.txQ.Enqueue(nb);
    }
  }

  // ---------------------------------------------------------------- udp_send

  /** udp_send: the header goes into whatever buffer is at the head of the queue. With a queue of one, that
      is the buffer ip_create_nb has just put there; the driver consumes it or it is lost. */
  method UdpSend(env: Env, sk: Socket, ghost built: NetBuff) returns (err: int8)
    requires sk.txQ.Valid() && sk.txQ.items == [built]
    requires built.transportOff + UDP_HDR <= built.head.Length && built.transportOff <= built.pktLen
    modifies built.head, env, sk.txQ, sk.txQ.anchor`next, sk.txQ.anchor`prev, sk.txQ.nodes`next, sk.txQ.nodes`prev
    ensures sk.txQ.Valid() && sk.txQ.items == [] && sk.txQ.nodes <= old(sk.txQ.nodes)
    ensures built.head[..] == Splice(old(built.head[..]), built.transportOff,
                                     UdpHeader(sk.srcPort, sk.dstPort, built.pktLen - built.transportOff))
    ensures env.taken == old(env.taken) + (if Completions(Answers(old(env.script))) > 0 then [built] else [])
    ensures env.freed == old(env.freed)
    ensures err == QueueErr(1, old(env.script), NETDEV_TX_OK) && env.script == QueueRest(1, old(env.script))
  {
    hide Splice, Answers, Completions, QueueErr, QueueRest;
    var nb := sk.txQ.anchor.next;
    assert nb == built;
    ghost var was := nb.head[..];
    var h, t: nat := nb.head, nb.transportOff;
    var len: uint16 := nb.pktLen - nb.transportOff;
    Store(h, t, Bytes16(sk.srcPort));
    Store(h, t + 2, Bytes16(sk.dstPort));
    Store(h, t + 4, [Hi(len), Lo(len)]);
    Store(h, t + 6, [0, 0]);
    FieldByField(was, t, sk.srcPort, sk.dstPort, len);
    OneFate(built, env.script);
    err := NetdevQueueXmit(env, sk.txQ);
  }

  lemma FieldByField(s: seq<byte>, t: nat, srcPort: uint16, dstPort: uint16, len: uint16)
    requires t + 8 <= |s|
    ensures Splice(s, t, UdpHeader(srcPort, dstPort, len))
         == Splice(Splice(Splice(Splice(s, t, Bytes16(srcPort)), t + 2, Bytes16(dstPort)),
                          t + 4, [Hi(len), Lo(len)]), t + 6, [0, 0])
  {
    hide Hi, Lo;
  }

  lemma OneFate(nb: NetBuff, script: seq<Poll>)
    ensures var fates := QueueFates(1, script);
      && Pick([nb], fates, Taken) == (if Completions(Answers(script)) > 0 then [nb] else [])
      && Pick([nb], fates, Freed) == []
  {
    OneQueued(script);
    var fates := QueueFates(1, script);
    assert PickTo([nb], fates, Taken, 0) == PickTo([nb], fates, Freed, 0) == [];
  }

  // ---------------------------------------------------------------- udp_send_msg

  datatype SockAddrIn = SockAddrIn(family: byte, port: uint16, addr: Quad)

  /** struct msghdr with its one iovec. */
  datatype Msg = Msg(name: Option<SockAddrIn>, nameLen: byte, payload: seq<byte>, flags: byte)

  /** The messages udp_send_msg refuses. */
  predicate Refused(msg: Msg) {
    || (msg.flags / MSG_OOB) % 2 == 1
    || (msg.name.Some? &&
        (|| msg.nameLen < SOCKADDR_IN_SIZE
         || msg.name.value.port == 0
         || (msg.name.value.family != AF_INET && msg.name.value.family != AF_UNSPEC)))
  }

  /** In numbers: the out-of-band flag is 8; an address needs 7 bytes, a port, and family 0 or 1. */
  lemma RefusedInNumbers(msg: Msg)
    ensures Refused(msg) <==>
      || msg.flags % 16 >= 8
      || (msg.name.Some? &&
          (|| msg.nameLen < 7
           || msg.name.value.port == 0
           || !(msg.name.value.family == 0 || msg.name.value.family == 1)))
  {
  }

  /** What an int16_t holds after a size is stored in it. */
  function Signed(n: uint16): int {
    if n < 0x8000 then n else n - 0x1_0000
  }

  /** The whole frame that carries a datagram. */
  function Frame(dev: Device, protocol: byte, src: Quad, dst: Quad, srcPort: uint16, dstPort: uint16,
                 payload: seq<byte>): (s: seq<byte>)
    requires |payload| + 42 < 0x1_0000
    ensures |s| == |payload| + 42
  {
    var len: uint16 := |payload| + UDP_HDR;
    EthHeader(dev) + IpHeader(len, protocol, IpChecksum(len, protocol, src, dst), src, dst)
      + UdpHeader(srcPort, dstPort, len) + payload
  }

  /** udp_send_msg on a socket whose transmit queue is empty, as creation and every earlier send leave it.
      A refused message changes nothing. For any other the address fields are set, and either there was no
      memory or one buffer was built: it carries exactly the frame for this datagram, the driver consumed it
      if it completed anything before the device was seen down, and it is never freed. */
  method UdpSendMsg(env: Env, sk: Socket, msg: Msg, myIp: Quad, dev: Device, memory: bool)
    returns (ret: int, ghost nb: NetBuff?)
    requires sk.txQ.Valid() && sk.txQ.items == [] && |msg.payload| + 42 < 0x1_0000
    modifies env, sk`srcAddr, sk`dstAddr, sk`dstPort
    modifies sk.txQ, sk.txQ.anchor`next, sk.txQ.anchor`prev, sk.txQ.nodes`next, sk.txQ.nodes`prev
    ensures sk.txQ.Valid() && sk.txQ.items == [] && fresh(sk.txQ.nodes - old(sk.txQ.nodes))
    ensures env.freed == old(env.freed)
    ensures nb == null <==> Refused(msg) || !memory
    ensures sk.srcAddr == (if Refused(msg) then old(sk.srcAddr) else myIp)
    ensures sk.dstAddr == (if Refused(msg) || msg.name.None? then old(sk.dstAddr) else msg.name.value.addr)
    ensures sk.dstPort == (if Refused(msg) || msg.name.None? then old(sk.dstPort) else msg.name.value.port)
    ensures nb == null ==> ret == -1 && env.taken == old(env.taken) && env.script == old(env.script)
    ensures nb != null ==>
      && fresh(nb) && nb.pktLen == nb.tail == nb.head.Length
      && nb.head[..] == Frame(dev, sk.protocol, myIp, sk.dstAddr, sk.srcPort, sk.dstPort, msg.payload)
      && env.taken == old(env.taken) + (if Completions(Answers(old(env.script))) > 0 then [nb] else [])
      && ret == SendResult(|msg.payload|, QueueErr(1, old(env.script), NETDEV_TX_OK))
      && env.script == QueueRest(1, old(env.script))
  {
    hide Answers, Completions, QueueErr, QueueRest, NbQueue.Valid, Splice, Checksum, IpHeader, IpChecksum, EthHeader,
         UdpHeader;
    nb := null;
    if (msg.flags / MSG_OOB) % 2 == 1 {
      return -1, null;
    }
    if msg.name.Some? {
      var addrIn := msg.name.value;
      if msg.nameLen < SOCKADDR_IN_SIZE || addrIn.port == 0 {
        return -1, null;
      }
      if addrIn.family != AF_INET && addrIn.family != AF_UNSPEC {
        return -1, null;
      }
      sk.dstAddr := addrIn.addr;
      sk.dstPort := addrIn.port;
    }
    var created := IpCreateNb(sk, msg.payload, UDP_HDR, myIp, dev, memory);
    nb := created;
    if created == null {
      return -1, null;
    }
    ghost var was := created.head[..];
    var err := UdpSend(env, sk, created);
    Assemble(was, UdpHeader(sk.srcPort, sk.dstPort, created.pktLen - 34));
    if err != 0 {
      if err > 0 {
        err := -err;
      }
      return err, nb;
    }
    ret := Signed(|msg.payload|);
  }

  /** What the caller is told: the driver's error, always as a negative number, or the payload length. */
  function SendResult(n: uint16, err: int8): int {
    if err > 0 then -err else if err < 0 then err else Signed(n)
  }

  /** Success (0) is the payload's length, which an int16_t holds up to 32767; an error of either sign is
      reported as a negative number. */
  lemma SendResultInNumbers(n: uint16, err: int8)
    ensures err == 0 ==> SendResult(n, err) == if n <= 32767 then n else n - 65536
    ensures err != 0 ==> SendResult(n, err) < 0 && (SendResult(n, err) == err || SendResult(n, err) == -err)
  {
  }

  lemma Assemble(s: seq<byte>, udp: seq<byte>)
    requires |s| >= 42 && |udp| == 8
    ensures Splice(s, 34, udp) == s[..14] + s[14..34] + udp + s[42..]
  {
  }

  // ---------------------------------------------------------------- what the frame says

  /** What a receiver that knows the formats of RFC 791 and RFC 768 reads in a frame. */
  datatype Datagram = Datagram(protocol: byte, src: Quad, dst: Quad, srcPort: uint16, dstPort: uint16,
                               payload: seq<byte>)

  /** An IPv4 packet without options that is no fragment and has time to live left; both lengths must agree
      with each other and with the frame, and the header checksum must pass. */
  function Read(frame: seq<byte>): Option<Datagram> {
    if |frame| < 42 || frame[12] != 8 || frame[13] != 0 then None
    else
      var total, udpLen := Ip.NetWord(frame, 16), Ip.NetWord(frame, 38);
      if frame[14] != 0x45 || Checksum(frame[14..34]) != 0 || total != udpLen + 20 || total + 14 != |frame| then None
      else if frame[20] % 64 != 0 || frame[21] != 0 || frame[22] == 0 then None
      else Some(Datagram(frame[23], frame[26..30], frame[30..34], Ip.NetWord(frame, 34), Ip.NetWord(frame, 36),
                         frame[42..]))
  }

  /** The frame byte by byte: Ethernet header for IPv4; version 4 with 5 words, service 0, total length,
      identification 0, do not fragment, time to live 64, protocol, a checksum that passes, the addresses;
      ports as stored, UDP length, no UDP checksum; the payload. */
  lemma FrameInNumbers(dev: Device, protocol: byte, src: Quad, dst: Quad, srcPort: uint16, dstPort: uint16,
                       payload: seq<byte>)
    requires |payload| + 42 < 0x1_0000
    ensures var f, n := Frame(dev, protocol, src, dst, srcPort, dstPort, payload), |payload|;
      && f[..6] == dev.broadcast && f[6..12] == dev.mac && f[12..14] == [8, 0]
      && f[14..24] == [0x45, 0, (n + 28) / 256, (n + 28) % 256, 0, 0, 0x40, 0, 64, protocol]
      && Checksum(f[14..34]) == 0 && f[26..30] == src && f[30..34] == dst
      && f[34..42] == [srcPort % 256, srcPort / 256, dstPort % 256, dstPort / 256, (n + 8) / 256, (n + 8) % 256, 0, 0]
      && f[42..] == payload
  {
    hide Checksum;
    var len: uint16 := |payload| + UDP_HDR;
    var ip := IpHeader(len, protocol, IpChecksum(len, protocol, src, dst), src, dst);
    var udp := UdpHeader(srcPort, dstPort, len);
    var f := Frame(dev, protocol, src, dst, srcPort, dstPort, payload);
    FrameParts(EthHeader(dev), ip, udp, payload);
    HeaderFields(len, protocol, src, dst);
    assert f[..14] == EthHeader(dev);
    assert f[..6] == f[..14][..6] && f[6..12] == f[..14][6..12] && f[12..14] == f[..14][12..14];
    assert f[14..24] == f[14..34][..10] && f[26..30] == f[14..34][12..16] && f[30..34] == f[14..34][16..20];
    assert f[34..42] == udp;
    UdpInNumbers(srcPort, dstPort, len);
  }

  lemma UdpInNumbers(srcPort: uint16, dstPort: uint16, len: uint16)
    ensures UdpHeader(srcPort, dstPort, len) ==
      [srcPort % 256, srcPort / 256, dstPort % 256, dstPort / 256, len / 256, len % 256, 0, 0]
  {
  }

  /** Round trip: for every payload that fits, the frame reads back as the datagram that was sent; the
      socket's ports are in network order. */
  lemma FrameReadsBack(dev: Device, protocol: byte, src: Quad, dst: Quad, srcPort: uint16, dstPort: uint16,
                       payload: seq<byte>)
    requires |payload| + 42 < 0x1_0000
    ensures Read(Frame(dev, protocol, src, dst, srcPort, dstPort, payload))
         == Some(Datagram(protocol, src, dst, Swap(srcPort), Swap(dstPort), payload))
  {
    hide Checksum, Frame;
    var f, n := Frame(dev, protocol, src, dst, srcPort, dstPort, payload), |payload|;
    FrameInNumbers(dev, protocol, src, dst, srcPort, dstPort, payload);
    assert forall i :: 0 <= i < 10 ==> f[14 + i] == f[14..24][i];
    assert forall i :: 0 <= i < 8 ==> f[34 + i] == f[34..42][i];
    assert f[12] == f[12..14][0] && f[13] == f[12..14][1];
    assert f[22] == f[14..24][8] && f[23] == f[14..24][9] && f[14] == f[14..24][0];
    assert f[20] == f[14..24][6] && f[21] == f[14..24][7] && f[16] == f[14..24][2] && f[17] == f[14..24][3];
    NumbersToWords(n + 28, f[16], f[17]);
    NumbersToWords(n + 8, f[38], f[39]);
    SwapOf(srcPort);
    SwapOf(dstPort);
  }

  lemma NumbersToWords(w: uint16, hi: byte, lo: byte)
    requires hi == w / 256 && lo == w % 256
    ensures Word(lo, hi) == w
  {
  }

  lemma SwapOf(w: uint16)
    ensures Word(w / 256, w % 256) == Swap(w)
  {
  }

  lemma FrameParts(eth: seq<byte>, ip: seq<byte>, udp: seq<byte>, payload: seq<byte>)
    requires |eth| == 14 && |ip| == 20 && |udp| == 8
    ensures var f := eth + ip + udp + payload;
      && f[14..34] == ip && f[42..] == payload
      && (forall i {:trigger ip[i]} :: 0 <= i < 20 ==> f[14 + i] == ip[i])
      && (forall i {:trigger udp[i]} :: 0 <= i < 8 ==> f[34 + i] == udp[i])
  {
  }

  lemma HeaderFields(len: uint16, protocol: byte, src: Quad, dst: Quad)
    requires len + 20 < 0x1_0000
    ensures var ip := IpHeader(len, protocol, IpChecksum(len, protocol, src, dst), src, dst);
      && ip[..10] == [0x45, 0, (len + 20) / 256, (len + 20) % 256, 0, 0, 0x40, 0, 64, protocol]
      && Checksum(ip) == 0 && ip[0] == 0x45 && Ip.NetWord(ip, 2) == len + 20
      && ip[12..16] == src && ip[16..20] == dst
  {
    hide Checksum;
    ChecksumField(len, protocol, src, dst, IpChecksum(len, protocol, src, dst));
    InsertedChecksumPasses(IpHeader(len, protocol, 0, src, dst), Ip.IP_CHKS);
    Halves(len + 20);
  }

  /** The sender's own receiver: ip_recv takes such a frame, unless the total length is a multiple of 256
      below 5120 (the misplaced parenthesis). */
  lemma FrameAcceptedIff(dev: Device, protocol: byte, src: Quad, dst: Quad, srcPort: uint16, dstPort: uint16,
                         payload: seq<byte>, pktType: byte, pktLen: uint16)
    requires |payload| + 42 < 0x1_0000 && pktType != PKT_OTHERHOST && pktLen >= |payload| + 28
    ensures var frame, total := Frame(dev, protocol, src, dst, srcPort, dstPort, payload), |payload| + 28;
      Ip.IpAccepts(frame, 14, pktType, pktLen) <==> !(total % 0x100 == 0 && total < 20 * 0x100)
  {
    hide Checksum;
    var len: uint16 := |payload| + UDP_HDR;
    var ip := IpHeader(len, protocol, IpChecksum(len, protocol, src, dst), src, dst);
    var udp := UdpHeader(srcPort, dstPort, len);
    var frame := Frame(dev, protocol, src, dst, srcPort, dstPort, payload);
    FrameParts(EthHeader(dev), ip, udp, payload);
    HeaderFields(len, protocol, src, dst);
    assert Ip.NetWord(frame, 16) == Ip.NetWord(ip, 2) && frame[14] == ip[0];
    assert Ip.IpHeader(frame, 14) == ip;
    Ip.LengthTestIff(frame, 14);
  }
}
