/** The packet that dhcp_send_request builds around the options, and its way to the driver
    (src/net/ipconfig.c). */
module DhcpFrame {
  import opened Machine
  import opened InternetChecksum
  import opened Net
  import opened NetDev
  import opened DhcpOptions
  import opened DhcpClient
  import opened DhcpRuns
  import opened DhcpTaken
  import DhcpMain
  import Udp

  function Zeros(n: nat): (s: seq<byte>)
    ensures |s| == n
  {
    seq(n, _ => 0)
  }

  /** struct dhcp_pkt_s behind its IP and UDP headers, as a client fills it in (RFC 2131 section 2). */
  function Message(xid: Quad, mac: Mac, options: seq<byte>): (s: seq<byte>)
    requires |options| == 312
    ensures |s| == 548
  {
    [1, 1, 6, 0] + xid + Zeros(20) + mac + Zeros(202) + options
  }

  /** The whole frame: a broadcast from 0.0.0.0, port 68 to port 67. */
  function RequestFrame(dev: Udp.Device, xid: Quad, options: seq<byte>): (s: seq<byte>)
    requires |options| == 312
    ensures |s| == 590
  {
    Udp.Frame(dev, IPPROTO_UDP, ANY, NONE, Swap(68), Swap(67), Message(xid, dev.mac, options))
  }

  /** The UDP header and the message, written field by field into a packet of zeros. */
  method FillMessage(h: array<byte>, xid: Quad, mac: Mac, options: seq<byte>)
    requires h.Length == 590 && |options| == 312 && h[34..] == Zeros(556)
    modifies h
    ensures h[..14] == old(h[..14]) && h[14..34] == old(h[14..34])
    ensures h[34..] == Udp.UdpHeader(Swap(68), Swap(67), 556) + Message(xid, mac, options)
  {
    hide Splice, Swap, Message, Zeros, Bytes16, Udp.UdpHeader;
    ghost var was := h[..];
    Store(h, 34, Bytes16(Swap(68)));
    Store(h, 36, Bytes16(Swap(67)));
    Store(h, 38, [Hi(556), Lo(556)]);
    Store(h, 42, [1, 1, 6]);
    Store(h, 70, mac);
    Store(h, 46, xid);
    Store(h, 278, options);
    Filled(was, Swap(68), Swap(67), 556, mac, xid, options);
  }

  /** The seven stores, one after the other. */
  lemma Filled(was: seq<byte>, src: uint16, dst: uint16, len: uint16, mac: Mac, xid: Quad, options: seq<byte>)
    requires |was| == 590 && was[34..] == Zeros(556) && |options| == 312
    ensures var udp := Splice(Splice(Splice(was, 34, Bytes16(src)), 36, Bytes16(dst)), 38, [Hi(len), Lo(len)]);
      var s := Splice(Splice(Splice(Splice(udp, 42, [1, 1, 6]), 70, mac), 46, xid), 278, options);
      && s[..14] == was[..14] && s[14..34] == was[14..34]
      && s[34..] == Udp.UdpHeader(src, dst, len) + Message(xid, mac, options)
  {
    hide Splice, Hi, Lo;
    assert forall i :: 34 <= i < 590 ==> was[i] == was[34..][i - 34] == 0;
  }

  /** The allocation and the packet, up to the Ethernet header; `options` is what dhcp_options_init leaves. At
      the end `tail` is 28 bytes behind the end of the buffer, because the two headers are counted twice. */
  method BuildPacket(xid: Quad, mac: Mac, options: seq<byte>) returns (nb: NetBuff)
    requires |options| == 312
    ensures fresh(nb) && fresh(nb.head) && nb.next == null && nb.macOff == 0 && nb.pktLen == 576
    ensures nb.networkOff == 14 && nb.transportOff == 34 && nb.data == 42
    ensures nb.head.Length == 590 && nb.tail == nb.head.Length + 28
    ensures nb.head[14..34] == Udp.IpHeader(556, IPPROTO_UDP, Udp.IpChecksum(556, IPPROTO_UDP, ANY, NONE), ANY, NONE)
    ensures nb.head[34..] == Udp.UdpHeader(Swap(68), Swap(67), 556) + Message(xid, mac, options)
  {
    hide Splice, Message, Swap, Checksum, Udp.IpHeader, Udp.IpChecksum, Udp.UdpHeader, Zeros;
    nb := new NetBuff(590);
    nb.data, nb.tail := nb.data + ETH_HDR_LEN, nb.tail + ETH_HDR_LEN;
    var pkt, trapped := nb.Put(576);
    assert !trapped && pkt == 14;
    Clear(nb.head, pkt);
    nb.networkOff := nb.data;
    Udp.BuildIpHeader(nb.head, 556, IPPROTO_UDP, ANY, NONE);
    nb.data, nb.tail := nb.data + 20, nb.tail + 20;
    nb.transportOff := nb.data;
    nb.data, nb.tail := nb.data + 8, nb.tail + 8;
    FillMessage(nb.head, xid, mac, options);
  }

  /** The memset. */
  method Clear(h: array<byte>, off: nat)
    requires h.Length == 590 && off == 14
    modifies h
    ensures h[34..] == Zeros(556)
  {
    Store(h, off, Zeros(576));
  }

  lemma FrameOf(dev: Udp.Device, xid: Quad, options: seq<byte>, was: seq<byte>)
    requires |options| == 312 && |was| == 590
    requires was[14..34] == Udp.IpHeader(556, IPPROTO_UDP, Udp.IpChecksum(556, IPPROTO_UDP, ANY, NONE), ANY, NONE)
    requires was[34..] == Udp.UdpHeader(Swap(68), Swap(67), 556) + Message(xid, dev.mac, options)
    ensures Splice(was, 0, dev.broadcast + dev.mac + [Hi(ETH_P_IP), Lo(ETH_P_IP)]) == RequestFrame(dev, xid, options)
  {
    hide Message, Swap, Checksum, Udp.IpHeader, Udp.IpChecksum, Udp.UdpHeader, Udp.EthHeader;
    Udp.EthWritten(was, dev);
    var eth := dev.broadcast + dev.mac + [Hi(ETH_P_IP), Lo(ETH_P_IP)];
    assert Splice(was, 0, eth)[..14] == eth;
    assert was[14..] == was[14..34] + was[34..];
  }

  /** dhcp_send_request from the allocation on: the buffer holds exactly the frame, and the driver consumes it
      or it is freed. */
  method SendPacket(env: Env, dev: Udp.Device, xid: Quad, options: seq<byte>, memory: bool) returns (nb: NetBuff?)
    requires |options| == 312
    modifies env
    ensures nb == null <==> !memory
    ensures nb == null ==> unchanged(env)
    ensures nb != null ==>
      && fresh(nb) && nb.head[..] == RequestFrame(dev, xid, options) && nb.pktLen == nb.head.Length == 590
      && if Completions(Answers(old(env.script))) > 0
         then env.taken == old(env.taken) + [nb] && env.freed == old(env.freed)
         else env.taken == old(env.taken) && env.freed == old(env.freed) + [nb]
  {
    hide Splice, Answers, Completions, Message, Swap, RunList, RequestFrame, Udp.IpHeader, Udp.IpChecksum,
         Udp.UdpHeader;
    if !memory {
      return null;
    }
    nb := BuildPacket(xid, dev.mac, options);
    nb.protocol := Swap(ETH_P_IP);
    ghost var was := nb.head[..];
    FrameOf(dev, xid, options, was);
    var err := nb.EthHeaderCreate(ETH_P_IP, Some(dev.broadcast), Some(dev.mac), dev.mac, nb.pktLen);
    assert err == 0;
    OneBufferDisposed(env.script);
    var sent := NetdevListXmit(env, nb, [nb]);
  }

  // ---------------------------------------------------------------- what the frame says

  lemma MessageParts(xid: Quad, mac: Mac, options: seq<byte>)
    requires |options| == 312
    ensures var m := Message(xid, mac, options);
      && m[..4] == [1, 1, 6, 0] && m[4..8] == xid && m[8..28] == Zeros(20)
      && m[28..34] == mac && m[34..236] == Zeros(202) && m[236..] == options
  {
  }

  /** Any receiver of RFC 791 and RFC 768 takes the frame for a datagram from 0.0.0.0 port 68 to
      255.255.255.255 port 67, and finds in it, at the offsets of RFC 2131, a request of an Ethernet client with
      this xid and hardware address, no addresses, and the recorded options. */
  lemma RequestReadsBack(dev: Udp.Device, xid: Quad, w: Sent)
    ensures var f := RequestFrame(dev, xid, DhcpMain.OptionsField(w));
      && f[..6] == dev.broadcast && Udp.Read(f).Some?
      && (var d := Udp.Read(f).value;
          && d.protocol == 17 && d.src == [0, 0, 0, 0] && d.dst == [255, 255, 255, 255]
          && d.srcPort == 68 && d.dstPort == 67 && |d.payload| == 548
          && d.payload[..4] == [1, 1, 6, 0] && d.payload[4..8] == xid && d.payload[8..28] == Zeros(20)
          && d.payload[28..34] == dev.mac && d.payload[34..236] == Zeros(202)
          && Slice(d.payload, 236, 4) == [99, 130, 83, 99]
          && (forall code: byte ::
                Carries(Scan(d.payload, 240, 548), code, MessageData(w.msgType, w.server, w.addr, code))))
  {
    hide Message, Udp.Frame, Udp.Read, Scan, Carries, MessageData, DhcpMain.OptionsField, MessageBytes, Swap, Holds,
         Slice, Zeros, Checksum;
    var options := DhcpMain.OptionsField(w);
    var m := Message(xid, dev.mac, options);
    Udp.FrameInNumbers(dev, IPPROTO_UDP, ANY, NONE, Swap(68), Swap(67), m);
    Udp.FrameReadsBack(dev, IPPROTO_UDP, ANY, NONE, Swap(68), Swap(67), m);
    SwapTwice(68);
    SwapTwice(67);
    MessageParts(xid, dev.mac, options);
    HoldsTail(m, 236);
    DhcpMain.SentReadsBack(w, m, 236, 548);
  }

  lemma HoldsTail(p: seq<byte>, off: nat)
    requires off <= |p|
    ensures Holds(p, off, p[off..])
  {
  }

  /** The client never mistakes a request for a reply, its own or another's: whatever is in it. */
  lemma RequestsAreIgnored(c: Statics, mac: Mac, dev: Udp.Device, xid: Quad, options: seq<byte>, ours: bool,
                           pktType: byte)
    requires |options| == 312
    ensures Judge(c, mac, Rx(ours, pktType, RequestFrame(dev, xid, options)[14..])) == Ignored
  {
    hide Message, Udp.Frame, HeaderOk, HasOptions, TypeOf, Swap, Checksum;
    var m := Message(xid, dev.mac, options);
    Udp.FrameInNumbers(dev, IPPROTO_UDP, ANY, NONE, Swap(68), Swap(67), m);
    MessageParts(xid, dev.mac, options);
    var frame := RequestFrame(dev, xid, options);
    assert frame[42] == frame[42..][0] == m[..4][0] == 1;
  }

  /** A server that copies xid and hardware address from the request, as RFC 2131 section 4.3.1 demands, meets
      the two tests that concern them: of the reply there only remain to be tested its headers, its kind, and
      whether it is awaited. */
  lemma CopiedFieldsPass(c: Statics, dev: Udp.Device, options: seq<byte>, f: Rx, items: seq<Item>)
    requires |options| == 312 && (CarriesOptions(f.p) ==> Encoded(f.p, items))
    ensures var request, t := RequestFrame(dev, c.xid, options)[14..], MessageTypeOf(items);
      Slice(f.p, 32, 4) == Slice(request, 32, 4) && Slice(f.p, 56, 6) == Slice(request, 56, 6) ==>
      Judge(c, dev.mac, f) ==
        if !(HeaderOk(f) && !c.gotReply && At(f.p, 28) == 2) then Ignored
        else if !CarriesOptions(f.p) then Accepted
        else if t == Some(2) then (if c.myIp == [255, 255, 255, 255] then Accepted else Ignored)
        else if t == Some(5) then Accepted
        else Reset
  {
    hide Message, Udp.Frame, HeaderOk, HasOptions, TypeOf, MessageTypeOf, Swap, Checksum, CarriesOptions, Encoded;
    var m := Message(c.xid, dev.mac, options);
    Udp.FrameInNumbers(dev, IPPROTO_UDP, ANY, NONE, Swap(68), Swap(67), m);
    MessageParts(c.xid, dev.mac, options);
    var request := RequestFrame(dev, c.xid, options)[14..];
    assert request[28..] == m;
    assert Slice(request, 32, 4) == m[4..8] && Slice(request, 56, 6) == m[28..34];
    JudgeInNumbers(c, dev.mac, f, items);
    AddressedOf(c, f);
  }

  lemma AddressedOf(c: Statics, f: Rx)
    ensures Addressed(c, f) <==> HeaderOk(f) && !c.gotReply && At(f.p, 28) == 2 && Slice(f.p, 32, 4) == c.xid
  {
    hide OptLen, LengthAsRead, Checksum, Slice, At;
    LengthTests(f.p);
    VersionByte(At(f.p, 0));
  }
}
