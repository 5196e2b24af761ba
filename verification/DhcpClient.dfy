/** The DHCP reply handler dhcp_recv and the statics it shares with the main loop
    (src/net/ipconfig.c). */
module DhcpClient {
  import opened Machine
  import opened InternetChecksum
  import opened DhcpOptions
  import Net

  /** The file-scope variables of ipconfig.c. */
  datatype Statics = Statics(myIp: Quad, netMask: Quad, gateway: Quad, dnsServ: Quad, servAddr: Quad,
                             xid: Quad, gotReply: bool, msgType: byte)

  /** A received frame: whether it came from the current device, flags.pkt_type, and the memory from its
      IP header on. */
  datatype Rx = Rx(ours: bool, pktType: byte, p: seq<byte>)

  const BOOTP_REPLY: byte := 2
  /** Offsets in struct dhcp_pkt_s. */
  const UDP_LEN: nat := 24
  const OP: nat := 28
  const XID: nat := 32
  const YIADDR: nat := 44
  const SIADDR: nat := 48
  const GIADDR: nat := 52
  const CHADDR: nat := 56
  const OPTIONS: nat := 264

  function Int16(w: uint16): int { if w < 0x8000 then w else w - 0x1_0000 }

  /** opt_len: the UDP length as it lies in memory, not converted to host order, less the 8 bytes of UDP
      header and the 236 bytes in front of the options, in 16-bit arithmetic. */
  function OptLen(p: seq<byte>): int {
    Int16((Word(At(p, UDP_LEN), At(p, UDP_LEN + 1)) - 244) % 0x1_0000)
  }

  /** Which replies the length test drops: with the UDP length in its two wire bytes, high and low, it is the
      low byte that counts. For any length an Ethernet frame can have, a reply is dropped exactly when that
      byte is 0 or above 0x80, and is taken to have room for the cookie in every other case. */
  lemma UnswappedLength(p: seq<byte>)
    ensures var hi, lo := At(p, UDP_LEN), At(p, UDP_LEN + 1);
      && (OptLen(p) < 0 <==> (lo == 0 && hi < 244) || lo > 0x80 || (lo == 0x80 && hi >= 244))
      && (hi < 244 ==> (OptLen(p) >= 4 <==> 1 <= lo <= 0x80))
  {
  }

  /** Where the IP total length says the packet ends. */
  function End(p: seq<byte>): nat { 0x100 * At(p, 2) + At(p, 3) }

  /** The tests before the handshake flag is looked at. */
  predicate HeaderOk(f: Rx) {
    && f.ours && f.pktType != Net.PKT_OTHERHOST
    && At(f.p, 0) % 16 == 5 && At(f.p, 0) / 16 == 4 && At(f.p, 9) == Net.IPPROTO_UDP
    && At(f.p, 6) % 64 == 0 && At(f.p, 7) == 0
    && Checksum(Slice(f.p, 0, 20)) == 0
    && OptLen(f.p) >= 0
  }

  predicate HasOptions(p: seq<byte>) {
    OptLen(p) >= 4 && Slice(p, OPTIONS, 4) == COOKIE
  }

  function Options(p: seq<byte>): seq<Visit> { Scan(p, OPTIONS + 4, End(p)) }

  function TypeOf(p: seq<byte>): Option<byte> { MessageType(Options(p)) }

  datatype Verdict = Ignored | Reset | Accepted

  /** What the handler decides about a frame. */
  function Judge(c: Statics, mac: Mac, f: Rx): Verdict {
    if !(HeaderOk(f) && !c.gotReply && At(f.p, OP) == BOOTP_REPLY && Slice(f.p, XID, 4) == c.xid) then Ignored
    else if !HasOptions(f.p) then Accepted
    else if TypeOf(f.p) == Some(OFFER) then (if c.myIp == NONE then Accepted else Ignored)
    else if TypeOf(f.p) == Some(ACK) then (if Slice(f.p, CHADDR, 6) == mac then Accepted else Ignored)
    else Reset
  }

  /** What an accepted OFFER or ACK that carries options leaves in the statics: the message type, the
      three addresses, and for an OFFER its server identifier. */
  function TakeOptions(c: Statics, p: seq<byte>, t: byte): Statics {
    var vs := Options(p);
    c.(myIp := if t == OFFER then Slice(p, YIADDR, 4) else c.myIp,
       servAddr := if t == OFFER then ServerId(vs) else c.servAddr,
       msgType := t,
       netMask := Address(p, vs, OPT_SMASK, c.netMask),
       gateway := Address(p, vs, OPT_ROUTER, c.gateway),
       dnsServ := Address(p, vs, OPT_DNS, c.dnsServ))
  }

  /** What every accepted reply leaves: its address is ours, missing addresses come from the fixed fields,
      and the handshake flag goes up. */
  function Finish(c: Statics, p: seq<byte>): Statics {
    c.(myIp := Slice(p, YIADDR, 4),
       servAddr := if c.servAddr == NONE then Slice(p, SIADDR, 4) else c.servAddr,
       gateway := if c.gateway == NONE && Slice(p, GIADDR, 4) != ANY then Slice(p, GIADDR, 4) else c.gateway,
       gotReply := true)
  }

  /** The statics after the handler ran. */
  function Handle(c: Statics, mac: Mac, f: Rx): Statics {
    match Judge(c, mac, f)
    case Ignored => c
    case Reset => c.(myIp := NONE, servAddr := NONE)
    case Accepted =>
      if HasOptions(f.p) && TypeOf(f.p).Some? then Finish(TakeOptions(c, f.p, TypeOf(f.p).value), f.p)
      else Finish(c, f.p)
  }

  class Client {
    var myIp: Quad
    var netMask: Quad
    var gateway: Quad
    var dnsServ: Quad
    var servAddr: Quad
    var xid: Quad
    var gotReply: bool
    var msgType: byte
    const mac: Mac

    /** The values the program starts with. */
    constructor (mac: Mac)
      ensures this.mac == mac
      ensures myIp == netMask == gateway == dnsServ == servAddr == NONE
      ensures !gotReply && msgType == 0 && xid == ANY
    {
      this.mac := mac;
      myIp, netMask, gateway, dnsServ, servAddr := NONE, NONE, NONE, NONE, NONE;
      xid, gotReply, msgType := ANY, false, 0;
    }

    function Abs(): Statics
      reads this
    {
      Statics(myIp, netMask, gateway, dnsServ, servAddr, xid, gotReply, msgType)
    }

    /** dhcp_recv, in the order of the source; each early return is its `goto out`. */
    method Recv(f: Rx)
      modifies this
      ensures Abs() == Handle(old(Abs()), mac, f)
    {
      hide Checksum, Scan, At, Slice, OptLen, MessageType, TakeOptions, Finish;
      var p := f.p;
      if !f.ours || f.pktType == Net.PKT_OTHERHOST {
        return;
      }
      if At(p, 0) % 16 != 5 || At(p, 0) / 16 != 4 || At(p, 9) != Net.IPPROTO_UDP {
        return;
      }
      if At(p, 6) % 64 != 0 || At(p, 7) != 0 {
        return;
      }
      if Checksum(Slice(p, 0, 20)) != 0 {
        return;
      }
      var optLen := OptLen(p);
      if optLen < 0 {
        return;
      }
      if gotReply {
        return;
      }
      if At(p, OP) != BOOTP_REPLY || Slice(p, XID, 4) != xid {
        return;
      }
      if optLen >= 4 && Slice(p, OPTIONS, 4) == COOKIE {
        var verdict := RecvOptions(p);
        if verdict != Accepted {
          return;
        }
      }
      RecvFixed(p);
    }

    /** The block of dhcp_recv that reads the options. */
    method RecvOptions(p: seq<byte>) returns (verdict: Verdict)
      modifies this
      ensures verdict == (
        if TypeOf(p) == Some(OFFER) then (if old(myIp) == NONE then Accepted else Ignored)
        else if TypeOf(p) == Some(ACK) then (if Slice(p, CHADDR, 6) == mac then Accepted else Ignored)
        else Reset)
      ensures Abs() == match verdict
        case Ignored => old(Abs())
        case Reset => old(Abs()).(myIp := NONE, servAddr := NONE)
        case Accepted => TakeOptions(old(Abs()), p, TypeOf(p).value)
    {
      hide Scan, At, Slice, MessageType, ServerId, Address;
      var end := End(p);
      var found, srvId := ParseReply(p, OPTIONS + 4, end);
      match found {
        case Some(t) =>
          if t == OFFER {
            if myIp != NONE {
              return Ignored;
            }
            // pkt->siaddr is overwritten here too, but only in the case in which it is not read again
            myIp := Slice(p, YIADDR, 4);
            servAddr := srvId;
          } else if t == ACK {
            if mac != Slice(p, CHADDR, 6) {
              return Ignored;
            }
          } else {
            myIp, servAddr := NONE, NONE;
            return Reset;
          }
          msgType := t;
        case None =>
          myIp, servAddr := NONE, NONE;
          return Reset;
      }
      netMask, gateway, dnsServ := ParseAddresses(p, OPTIONS + 4, end, netMask, gateway, dnsServ);
      return Accepted;
    }

    /** The last lines of dhcp_recv. */
    method RecvFixed(p: seq<byte>)
      modifies this
      ensures Abs() == Finish(old(Abs()), p)
    {
      myIp := Slice(p, YIADDR, 4);
      if servAddr == NONE {
        servAddr := Slice(p, SIADDR, 4);
      }
      if gateway == NONE && Slice(p, GIADDR, 4) != ANY {
        gateway := Slice(p, GIADDR, 4);
      }
      gotReply := true;
    }
  }
}
