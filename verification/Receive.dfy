/** The receive path, from the frame to the handler that disposes of its buffer (src/net/pkt_hdlr.c,
    src/net/ip_proto.c, and ip_recv, icmp_recv, arp_recv and dhcp_recv). */
module Receive {
  import opened Machine
  import opened InternetChecksum
  import opened Net
  import opened NetDev
  import opened Icmp
  import opened Ip
  import Inet
  import Arp
  import DhcpClient

  /** What became of a received buffer. */
  datatype Outcome = Released | Sent | Leaked

  ghost predicate Ledger(o: Outcome, taken0: seq<NetBuff>, freed0: seq<NetBuff>,
                         taken: seq<NetBuff>, freed: seq<NetBuff>, nb: NetBuff)
  {
    match o
    case Released => taken == taken0 && freed == freed0 + [nb]
    case Sent => taken == taken0 + [nb] && freed == freed0
    case Leaked => taken == taken0 && freed == freed0
  }

  /** A frame as the driver hands it over: the headers lie one behind the other, and the buffer holds at
      least the 46-byte payload of the shortest Ethernet frame. */
  ghost predicate Received(nb: NetBuff)
    reads nb
  {
    nb.next == null && nb.macOff + 14 <= nb.networkOff <= 195 && nb.networkOff + 46 <= nb.head.Length
  }

  // ---------------------------------------------------------------- icmp_recv

  function Destination(s: seq<byte>, n: nat): Quad
    requires n + 20 <= |s|
  {
    QuadAt(s, n + IP_DST)
  }

  /** An echo request to a unicast address. */
  predicate UnicastEcho(s: seq<byte>, n: nat)
    requires n + 28 <= |s|
  {
    s[n + 20] == ECHO_REQ && Inet.HighBits(Destination(s, n)[0], 0x10) != 0xE0 && Destination(s, n) != NONE
  }

  /** The same in numbers: type 8 behind a header of 20 bytes, to an address that is neither multicast
      (224 to 239) nor 255.255.255.255. */
  lemma UnicastEchoInNumbers(s: seq<byte>, n: nat)
    requires n + 28 <= |s|
    ensures Destination(s, n) == s[n + 16..n + 20]
    ensures UnicastEcho(s, n) <==>
      s[n + 20] == 8 && !(224 <= s[n + 16] < 240) && s[n + 16..n + 20] != [255, 255, 255, 255]
  {
    MulticastBits(s[n + 16]);
    hide Inet.HighBits;
  }

  lemma MulticastBits(b: byte)
    ensures Inet.HighBits(b, 0x10) == 0xE0 <==> 224 <= b < 240
  {
  }

  /** What comes of an echo request whose length lies in the buffer: it is dropped if its checksum fails,
      leaked if it is not for us, and answered in place otherwise. */
  ghost predicate EchoOutcome(was: seq<byte>, now: seq<byte>, m: nat, n: nat, myIp: Quad, mac: Mac,
                              script: seq<Poll>, ret: int, o: Outcome)
    requires ConsistentLength(was, n) && m + 14 <= n && |now| == |was|
  {
    if Checksum(Message(was, n)) != 0 then o == Released && ret == NETDEV_RX_DROP && now == was
    else if Destination(was, n) != myIp then o == Leaked && ret == NETDEV_RX_SUCCESS && now == was
    else
      && ret == NETDEV_RX_SUCCESS
      && IsReply(was, now, m, n, myIp, mac)
      && o == (if Completions(Answers(script)) > 0 then Sent else Released)
  }

  /** icmp_recv; `o` says what became of the buffer. When the IP length points outside the buffer the
      checksum covers foreign memory and may come out either way. */
  method IcmpRecv(nb: NetBuff, env: Env, myIp: Quad, mac: Mac) returns (ret: int, ghost o: Outcome)
    requires Received(nb) && nb.transportOff == nb.networkOff + 20
    modifies nb`pktLen, nb`next, nb.head, env
    ensures Ledger(o, old(env.taken), old(env.freed), env.taken, env.freed, nb)
    ensures var was, n := old(nb.head[..]), nb.networkOff;
      && (!UnicastEcho(was, n) ==> o == Released && ret == NETDEV_RX_DROP)
      && (o == Leaked ==> UnicastEcho(was, n) && Destination(was, n) != myIp && ret == NETDEV_RX_SUCCESS)
      && (UnicastEcho(was, n) && ConsistentLength(was, n) ==>
            EchoOutcome(was, nb.head[..], nb.macOff, n, myIp, mac, old(env.script), ret, o))
      && (nb.head[..] == was || (UnicastEcho(was, n) && Destination(was, n) == myIp))
  {
    hide Answers, Completions, IsReply, Checksum, Inet.HighBits;
    var h, n, t := nb.head, nb.networkOff, nb.transportOff;
    ghost var was := h[..];
    var dst := h[n + IP_DST..n + IP_DST + 4];
    assert dst == Destination(was, n);
    o := Released;
    ret := NETDEV_RX_DROP;
    if h[t] > 18 || Inet.HighBits(dst[0], 0x10) == 0xE0 || dst == NONE {
      env.Free(nb);
      return;
    }
    var len := IcmpLen(h[..], n);
    var chks := ChecksumOrForeign(h, t, len);
    assert ConsistentLength(was, n) ==> h[t..t + len] == Message(was, n);
    if chks != 0 || h[t] != ECHO_REQ {
      env.Free(nb);
      return;
    }
    var ok := IcmpEcho(nb, env, myIp, mac);
    o := if dst != myIp then Leaked else if Completions(Answers(old(env.script))) > 0 then Sent else Released;
    ret := NETDEV_RX_SUCCESS;
  }

  // ---------------------------------------------------------------- ip_recv

  /** ip_recv and ip_proto_handler, with or without icmp_recv registered; no other protocol has a handler. */
  method IpRecv(nb: NetBuff, env: Env, icmp: bool, myIp: Quad, mac: Mac) returns (ret: int, ghost o: Outcome)
    requires Received(nb)
    modifies nb`pktLen, nb`next, nb`transportOff, nb.head, env
    ensures Ledger(o, old(env.taken), old(env.freed), env.taken, env.freed, nb)
    ensures var was, n := old(nb.head[..]), nb.networkOff;
      var pinged := icmp && IpAccepts(was, n, nb.pktType, old(nb.pktLen)) && was[n + IP_PROTO] == IPPROTO_ICMP
                    && UnicastEcho(was, n);
      && (!pinged ==> o == Released && ret == NETDEV_RX_DROP && nb.head[..] == was)
      && (o == Leaked ==> pinged && Destination(was, n) != myIp && ret == NETDEV_RX_SUCCESS)
      && (pinged && ConsistentLength(was, n) ==>
            EchoOutcome(was, nb.head[..], nb.macOff, n, myIp, mac, old(env.script), ret, o))
  {
    hide Answers, Completions, IsReply, Checksum, Message, UnicastEcho;
    var h, n := nb.head, nb.networkOff;
    ghost var was := h[..];
    o := Released;
    ret := NETDEV_RX_DROP;
    if nb.pktType == PKT_OTHERHOST {
      env.Free(nb);
      return;
    }
    var ihl: nat := h[n] % 16;
    if h[n] / 16 != 4 || ihl < 5 || ihl > 15 {
      env.Free(nb);
      return;
    }
    var chks := ChecksumOrForeign(h, n, ihl * 4);
    assert ihl == 5 ==> h[n..n + ihl * 4] == IpHeader(was, n);
    if chks != 0 {
      env.Free(nb);
      return;
    }
    var lo, hi := h[n + IP_TOTLEN], h[n + IP_TOTLEN + 1];
    if nb.pktLen < Word(hi, lo) || Word(lo, hi) < ihl * 4 {
      env.Free(nb);
      return;
    }
    nb.transportOff := n + ihl * 4;
    if ihl > 5 {
      env.Free(nb);
      return;
    }
    if h[n + IP_PROTO] == IPPROTO_ICMP && icmp {
      ret, o := IcmpRecv(nb, env, myIp, mac);
    } else {
      env.Free(nb);
    }
  }

  // ---------------------------------------------------------------- the dispatcher

  /** What pkt_hdlr_add and ip_proto_handler_add can put into the handler tables: the source registers
      ip_recv or dhcp_recv for IP, arp_recv for ARP and icmp_recv for ICMP. */
  datatype IpHandler = NoHandler | IpRecvHandler | DhcpRecvHandler

  class Stack {
    var ipHandler: IpHandler
    var arpHandler: bool
    var icmpHandler: bool
    const client: DhcpClient.Client
    const table: Arp.Table

    constructor (client: DhcpClient.Client, table: Arp.Table)
      ensures this.client == client && this.table == table
      ensures ipHandler == NoHandler && !arpHandler && !icmpHandler
    {
      this.client, this.table := client, table;
      ipHandler, arpHandler, icmpHandler := NoHandler, false, false;
    }

    /** The frame is an echo request that reaches icmp_echo's caller. */
    ghost predicate Pinged(nb: NetBuff)
      reads this, nb, nb.head
      requires Received(nb)
    {
      var s, n := nb.head[..], nb.networkOff;
      && nb.protocol == Swap(ETH_P_IP) && ipHandler == IpRecvHandler && icmpHandler
      && IpAccepts(s, n, nb.pktType, nb.pktLen) && s[n + IP_PROTO] == IPPROTO_ICMP && UnicastEcho(s, n)
    }

    ghost predicate ForDhcp(nb: NetBuff)
      reads this, nb
    {
      nb.protocol == Swap(ETH_P_IP) && ipHandler == DhcpRecvHandler
    }

    ghost predicate ForArp(nb: NetBuff)
      reads this, nb
    {
      nb.protocol == Swap(ETH_P_ARP) && arpHandler
    }

    /** recv_pkt_handler: whatever the frame and the handlers, the buffer is freed exactly once, or consumed
        by the driver exactly once; the one exception is an echo request to a unicast address that is not
        ours, which is neither. Each frame has the effect of the handler it is for, and no other. `beyond` is
        the memory behind the buffer, of any length and content, into which the DHCP handler may read. */
    method RecvPktHandler(nb: NetBuff, env: Env, ours: bool, beyond: seq<byte>) returns (ret: int, ghost o: Outcome)
      requires Received(nb)
      modifies nb`pktLen, nb`next, nb`transportOff, nb.head, env, client, table
      ensures Ledger(o, old(env.taken), old(env.freed), env.taken, env.freed, nb)
      ensures o == Leaked ==> old(Pinged(nb)) && Destination(old(nb.head[..]), nb.networkOff) != old(client.myIp)
      ensures var was, n := old(nb.head[..]), nb.networkOff;
        old(Pinged(nb)) && ConsistentLength(was, n) ==>
          EchoOutcome(was, nb.head[..], nb.macOff, n, old(client.myIp), client.mac, old(env.script), ret, o)
      ensures if old(ForDhcp(nb))
        then
          && o == Released && ret == NETDEV_RX_SUCCESS
          && client.Abs() == DhcpClient.Handle(old(client.Abs()), client.mac,
                                               DhcpClient.Rx(ours, nb.pktType,
                                                             old(nb.head[nb.networkOff..]) + beyond))
        else unchanged(client)
      ensures var act := Arp.Taking(old(Arp.PacketIn(nb)), nb.pktType, old(client.myIp));
        if old(ForArp(nb))
        then
          && Arp.Disposed(act, old(env.script), old(env.taken), old(env.freed), env.taken, env.freed, nb)
          && (if act.Learn? then table.ip == old(Arp.PacketIn(nb)).spa && table.mac == old(Arp.PacketIn(nb)).sha
              else unchanged(table))
          && (act.Answer? ==>
                Arp.AnsweredInPlace(old(nb.head[..]), nb.head[..], nb.networkOff, nb.macOff,
                                    old(client.myIp), client.mac))
        else unchanged(table)
      ensures !old(Pinged(nb)) && !old(ForDhcp(nb)) && !old(ForArp(nb)) ==> o == Released && ret == NETDEV_RX_DROP
    {
      hide Answers, Completions, IsReply, Checksum, Message, UnicastEcho, IpAccepts, ConsistentLength, EchoOutcome,
        Arp.AnsweredInPlace, Arp.Taking, DhcpClient.Handle;
      o := Released;
      if nb.protocol == Swap(ETH_P_IP) {
        match ipHandler {
          case IpRecvHandler =>
            ret, o := IpRecv(nb, env, icmpHandler, client.myIp, client.mac);
            return;
          case DhcpRecvHandler =>
            client.Recv(DhcpClient.Rx(ours, nb.pktType, nb.head[nb.networkOff..] + beyond));
            env.Free(nb);
            return NETDEV_RX_SUCCESS, Released;
          case NoHandler =>
        }
      } else if nb.protocol == Swap(ETH_P_ARP) {
        if arpHandler {
          ghost var a := Arp.Taking(Arp.PacketIn(nb), nb.pktType, client.myIp);
          o := if a.Answer? && Completions(Answers(env.script)) > 0 then Sent else Released;
          ret := Arp.ArpRecv(nb, env, table, client.myIp, client.mac);
          return;
        }
      }
      env.Free(nb);
      ret := NETDEV_RX_DROP;
    }
  }

  /** How the dispatcher tells frames apart: by the Ethernet types 08 00 and 08 06, as a little-endian load
      yields them. */
  lemma HandlersInNumbers(stack: Stack, nb: NetBuff)
    ensures stack.ForDhcp(nb) <==> nb.protocol == 0x0008 && stack.ipHandler == DhcpRecvHandler
    ensures stack.ForArp(nb) <==> nb.protocol == 0x0608 && stack.arpHandler
    ensures Received(nb) && stack.Pinged(nb) ==>
      nb.protocol == 0x0008 && stack.ipHandler == IpRecvHandler && stack.icmpHandler && nb.head[nb.networkOff + 9] == 1
  {
    hide IpAccepts, UnicastEcho;
  }

  // ---------------------------------------------------------------- a buffer that leaks

  function Nothing(n: nat): seq<byte> { seq(n, _ => 0) }

  function BarePingHeader(dst: Quad): seq<byte> {
    [0x45, 0, 0, 46, 0, 0, 0, 0, 64, IPPROTO_ICMP, 0, 0, 0, 0, 0, 0] + dst
  }

  function BarePing(id: byte): seq<byte> { [ECHO_REQ, 0, 0, 0, id] + Nothing(21) }

  function PingHeader(dst: Quad): (s: seq<byte>)
    ensures |s| == 20
  {
    Splice(BarePingHeader(dst), IP_CHKS, Bytes16(Checksum(BarePingHeader(dst))))
  }

  function PingMessage(id: byte): (s: seq<byte>)
    ensures |s| == 26
  {
    Splice(BarePing(id), ICMP_CHKS, Bytes16(Checksum(BarePing(id))))
  }

  /** An echo request to `dst` in the shortest Ethernet frame. */
  function Ping(dst: Quad, id: byte): (s: seq<byte>)
    ensures |s| == 60
  {
    Nothing(14) + PingHeader(dst) + PingMessage(id)
  }

  lemma PingIsAccepted(dst: Quad, id: byte)
    requires dst[0] < 224
    ensures var s := Ping(dst, id);
      && IpAccepts(s, 14, PKT_HOST, 60) && s[14 + IP_PROTO] == IPPROTO_ICMP && UnicastEcho(s, 14)
      && Destination(s, 14) == dst && ConsistentLength(s, 14) && Checksum(Message(s, 14)) == 0
  {
    hide Checksum, PingHeader, PingMessage, UnicastEcho, IpAccepts, ConsistentLength, Message, Destination;
    HeaderFilled(dst);
    MessageFilled(id);
    PingParts(Nothing(14), PingHeader(dst), PingMessage(id), dst);
  }

  lemma HeaderFilled(dst: Quad)
    ensures var header := PingHeader(dst);
      && header[0] == 0x45 && header[2] == 0 && header[3] == 46 && header[9] == IPPROTO_ICMP
      && header[16..20] == dst && Checksum(header) == 0
  {
    var bare := BarePingHeader(dst);
    assert bare[0] == 0x45 && bare[2] == 0 && bare[3] == 46 && bare[9] == IPPROTO_ICMP && bare[16..] == dst;
    NoHeaderChecksum(dst);
    InsertedChecksumPasses(bare, IP_CHKS);
    hide Checksum, Splice, Bytes16, BarePingHeader;
    var header := PingHeader(dst);
    assert header[16..20] == bare[16..];
  }

  lemma MessageFilled(id: byte)
    ensures PingMessage(id)[0] == ECHO_REQ && Checksum(PingMessage(id)) == 0
  {
    hide Checksum, Splice, Bytes16;
    NoMessageChecksum(id);
    InsertedChecksumPasses(BarePing(id), ICMP_CHKS);
  }

  lemma PingParts(front: seq<byte>, header: seq<byte>, message: seq<byte>, dst: Quad)
    requires |front| == 14 && |header| == 20 && |message| == 26 && dst[0] < 224
    requires header[0] == 0x45 && header[2] == 0 && header[3] == 46 && header[9] == IPPROTO_ICMP
    requires header[16..20] == dst && message[0] == ECHO_REQ && Checksum(header) == 0 && Checksum(message) == 0
    ensures var s := front + header + message;
      && IpAccepts(s, 14, PKT_HOST, 60) && s[14 + IP_PROTO] == IPPROTO_ICMP && UnicastEcho(s, 14)
      && Destination(s, 14) == dst && ConsistentLength(s, 14) && Checksum(Message(s, 14)) == 0
  {
    hide Checksum, Inet.HighBits;
    var s := front + header + message;
    assert s[14] == header[0] && s[16] == header[2] && s[17] == header[3] && s[23] == header[9];
    assert s[34] == message[0];
    assert IpHeader(s, 14) == header && s[34..60] == message;
    assert Destination(s, 14) == header[16..20];
    assert s[16] == 0 && s[17] == 46 && NetWord(s, 14 + IP_TOTLEN) == 46;
    assert ConsistentLength(s, 14);
    assert Message(s, 14) == s[34..60];
    MulticastBits(dst[0]);
    assert NONE[0] == 255 && Destination(s, 14) == dst;
  }

  lemma NoHeaderChecksum(dst: Quad)
    ensures WordAt(BarePingHeader(dst), IP_CHKS) == 0
  {
  }

  lemma NoMessageChecksum(id: byte)
    ensures WordAt(BarePing(id), ICMP_CHKS) == 0
  {
  }

  lemma SpliceAll(s: seq<byte>, t: seq<byte>)
    requires |s| == |t|
    ensures Splice(s, 0, t) == t
  {
  }

  /** The leak occurs: this buffer, addressed to some other unicast address and handed to the dispatcher with
      the usual handlers installed, is neither freed nor given to the driver, and success is reported. */
  method LeakOne(stack: Stack, env: Env, dst: Quad, id: byte) returns (nb: NetBuff, ret: int)
    requires stack.ipHandler == IpRecvHandler && stack.icmpHandler
    requires dst[0] < 224 && dst != stack.client.myIp
    modifies env, stack.client, stack.table
    ensures fresh(nb) && nb.head[..] == Ping(dst, id)
    ensures env.taken == old(env.taken) && env.freed == old(env.freed) && ret == NETDEV_RX_SUCCESS
  {
    hide IpAccepts, UnicastEcho, ConsistentLength, Message, Checksum, Ping, Splice, IsReply, Answers, Completions,
      Destination, Arp.AnsweredInPlace, Arp.Taking, Arp.PacketAt, DhcpClient.Handle;
    nb := new NetBuff(60);
    SpliceAll(nb.head[..], Ping(dst, id));
    Store(nb.head, 0, Ping(dst, id));
    nb.pktLen, nb.pktType, nb.protocol, nb.tail := 60, PKT_HOST, Swap(ETH_P_IP), 60;
    PingIsAccepted(dst, id);
    assert nb.head[..] == Ping(dst, id);
    ghost var o;
    ret, o := stack.RecvPktHandler(nb, env, true, []);
  }
}
