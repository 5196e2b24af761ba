/** ARP at one node (src/netinet/arp.c): the one-entry table, the handler that answers in the received
    buffer, and the packet builder. */
module Arp {
  import opened Machine
  import opened Net
  import opened NetDev
  import Inet

  const HWT_ETHER: uint16 := 1
  const OP_REQ: uint16 := 1
  const OP_REPLY: uint16 := 2
  const ARP_HDR: nat := 28
  const BROADCAST: Mac := [0xFF, 0xFF, 0xFF, 0xFF, 0xFF, 0xFF]
  const NO_MAC: Mac := [0, 0, 0, 0, 0, 0]

  /** struct arp_hdr_s, with its 16-bit fields in host order. */
  datatype Packet = Packet(htype: uint16, ptype: uint16, hlen: byte, plen: byte, oper: uint16,
                           sha: Mac, spa: Quad, tha: Mac, tpa: Quad)

  function NetBytes(w: uint16): seq<byte> { [Hi(w), Lo(w)] }

  /** RFC 826: the packet as it lies in memory. */
  function Encode(a: Packet): (s: seq<byte>)
    ensures |s| == ARP_HDR
  {
    NetBytes(a.htype) + NetBytes(a.ptype) + [a.hlen, a.plen] + NetBytes(a.oper)
    + a.sha + a.spa + a.tha + a.tpa
  }

  function Decode(s: seq<byte>): Packet
    requires |s| == ARP_HDR
  {
    Packet(Word(s[1], s[0]), Word(s[3], s[2]), s[4], s[5], Word(s[7], s[6]),
           s[8..14], s[14..18], s[18..24], s[24..28])
  }

  lemma DecodeEncode(a: Packet)
    ensures Decode(Encode(a)) == a
  {
    NetWord(a.htype);
    NetWord(a.ptype);
    NetWord(a.oper);
    hide Word, NetBytes;
  }

  lemma NetWord(w: uint16)
    ensures |NetBytes(w)| == 2 && Word(NetBytes(w)[1], NetBytes(w)[0]) == w
  {
  }

  lemma EncodeDecode(s: seq<byte>)
    requires |s| == ARP_HDR
    ensures Encode(Decode(s)) == s
  {
    BytesOf(s[0], s[1]);
    BytesOf(s[2], s[3]);
    BytesOf(s[6], s[7]);
    hide Word, NetBytes;
  }

  lemma BytesOf(hi: byte, lo: byte)
    ensures NetBytes(Word(lo, hi)) == [hi, lo]
  {
  }

  /** RFC 826, byte by byte: hardware type, protocol type, the two address lengths, operation, then the four
      addresses; every number high byte first. */
  lemma EncodeInNumbers(a: Packet)
    ensures Encode(a) ==
      [a.htype / 256, a.htype % 256, a.ptype / 256, a.ptype % 256, a.hlen, a.plen, a.oper / 256, a.oper % 256]
      + a.sha + a.spa + a.tha + a.tpa
  {
    assert NetBytes(a.htype) == [a.htype / 256, a.htype % 256];
    assert NetBytes(a.ptype) == [a.ptype / 256, a.ptype % 256];
    assert NetBytes(a.oper) == [a.oper / 256, a.oper % 256];
    hide NetBytes;
    var first := [a.htype / 256, a.htype % 256, a.ptype / 256, a.ptype % 256, a.hlen, a.plen,
                  a.oper / 256, a.oper % 256];
    assert NetBytes(a.htype) + NetBytes(a.ptype) + [a.hlen, a.plen] + NetBytes(a.oper) == first;
  }

  lemma DecodeInNumbers(s: seq<byte>)
    requires |s| == ARP_HDR
    ensures var a := Decode(s);
      && a.htype == 256 * (s[0] as int) + s[1] && a.ptype == 256 * (s[2] as int) + s[3]
      && a.hlen == s[4] && a.plen == s[5] && a.oper == 256 * (s[6] as int) + s[7]
      && a.sha == s[8..14] && a.spa == s[14..18] && a.tha == s[18..24] && a.tpa == s[24..28]
  {
  }

  // ---------------------------------------------------------------- the decision

  datatype Action = Drop | Answer | Learn

  /** What arp_proc does with a packet. The source's loopback test compares a value whose low four bits
      were masked off with 0x7F, so it never holds. */
  function Decide(a: Packet, myIp: Quad): Action {
    if a.ptype != ETH_P_IP || a.htype != HWT_ETHER then Drop
    else if a.oper != OP_REQ && a.oper != OP_REPLY then Drop
    else if Inet.Class(a.tpa[0]) == Inet.CLASS_D || Inet.HighBits(a.tpa[0], 0x10) == 0x7F then Drop
    else if a.spa == a.tpa then Drop
    else if a.tpa != myIp then Drop
    else if a.oper == OP_REQ then Answer
    else Learn
  }

  /** A packet is taken up exactly when it is an IPv4-over-Ethernet request or reply whose target is this
      node and whose sender is not, and this node's address is not a multicast one. */
  lemma TakenUpIff(a: Packet, myIp: Quad)
    ensures Decide(a, myIp) != Drop <==>
      && a.ptype == ETH_P_IP && a.htype == HWT_ETHER && a.oper in {OP_REQ, OP_REPLY}
      && a.tpa == myIp && a.spa != myIp && !(224 <= myIp[0] < 240)
  {
  }

  function ReplyTo(a: Packet, myIp: Quad, mac: Mac): Packet {
    a.(oper := OP_REPLY, tha := a.sha, tpa := a.spa, sha := mac, spa := myIp)
  }

  // ---------------------------------------------------------------- the table

  /** arp_tbl. */
  class Table {
    var ip: Quad
    var mac: Mac

    /** arp_init. */
    constructor ()
      ensures ip == ANY && mac == NO_MAC
    {
      ip, mac := ANY, NO_MAC;
    }

    /** arp_tbl_set. */
    method Set(ip: Quad, mac: Mac)
      modifies this
      ensures this.ip == ip && this.mac == mac
    {
      if this.ip != ip {
        this.ip := ip;
      }
      this.mac := mac;
    }

    /** arp_tbl_get; the flag stands for a result other than NULL. */
    method Get(ip: Quad) returns (found: bool, mac: Mac)
      ensures found <==> this.ip == ip
      ensures found ==> mac == this.mac
    {
      found, mac := this.ip == ip, this.mac;
    }
  }

  // ---------------------------------------------------------------- the handler

  ghost predicate Layout(nb: NetBuff)
    reads nb
  {
    nb.macOff + 14 <= nb.networkOff && nb.networkOff + ARP_HDR <= nb.head.Length
  }

  function PacketAt(s: seq<byte>, n: nat): Packet
    requires n + ARP_HDR <= |s|
  {
    Decode(s[n..n + ARP_HDR])
  }

  ghost function PacketIn(nb: NetBuff): Packet
    requires Layout(nb)
    reads nb, nb.head
  {
    PacketAt(nb.head[..], nb.networkOff)
  }

  /** The received frame has become the reply: the packet is the answer to the one that was there, the
      Ethernet addresses are the old source and this node's, and nothing else changed. */
  ghost predicate AnsweredInPlace(was: seq<byte>, now: seq<byte>, n: nat, m: nat, myIp: Quad, mac: Mac)
    requires m + 14 <= n && n + ARP_HDR <= |was| == |now|
  {
    && PacketAt(now, n) == ReplyTo(PacketAt(was, n), myIp, mac)
    && now[m..m + 6] == was[m + 6..m + 12] && now[m + 6..m + 12] == mac
    && forall i {:trigger now[i]} ::
         0 <= i < |now| && !(m <= i < m + 12) && !(n <= i < n + ARP_HDR) ==> now[i] == was[i]
  }

  /** Where the buffer of a handled packet went: a reply is consumed by the driver or else freed, any other
      buffer is freed. */
  ghost predicate Disposed(act: Action, script: seq<Poll>, taken0: seq<NetBuff>, freed0: seq<NetBuff>,
                           taken: seq<NetBuff>, freed: seq<NetBuff>, nb: NetBuff)
  {
    if act.Answer? && Completions(Answers(script)) > 0 then taken == taken0 + [nb] && freed == freed0
    else taken == taken0 && freed == freed0 + [nb]
  }

  /** arp_proc. */
  method ArpProc(nb: NetBuff, env: Env, tbl: Table, myIp: Quad, mac: Mac) returns (ret: int)
    requires Layout(nb) && nb.next == null
    modifies nb`pktLen, nb`next, nb.head, env, tbl
    ensures var act := Decide(old(PacketIn(nb)), myIp);
      && Disposed(act, old(env.script), old(env.taken), old(env.freed), env.taken, env.freed, nb)
      && ret == (if act.Drop? then NETDEV_RX_DROP else NETDEV_RX_SUCCESS)
      && (if act.Learn? then tbl.ip == old(PacketIn(nb)).spa && tbl.mac == old(PacketIn(nb)).sha else unchanged(tbl))
      && (if act.Answer?
          then AnsweredInPlace(old(nb.head[..]), nb.head[..], nb.networkOff, nb.macOff, myIp, mac)
               && nb.pktLen == (old(nb.pktLen) - 4) % 0x1_0000
          else unchanged(nb) && unchanged(nb.head))
  {
    hide Answers, Completions, Decode, AnsweredInPlace;
    var h, n, m := nb.head, nb.networkOff, nb.macOff;
    var a := Decode(h[n..n + ARP_HDR]);
    assert h[n..n + ARP_HDR] == h[..][n..n + ARP_HDR];
    match Decide(a, myIp) {
      case Drop =>
        ret := NETDEV_RX_DROP;
        env.Free(nb);
      case Learn =>
        tbl.Set(a.spa, a.sha);
        ret := NETDEV_RX_SUCCESS;
        env.Free(nb);
      case Answer =>
        nb.pktLen := (nb.pktLen - 4) % 0x1_0000;
        AnswerInPlace(h, n, m, a, myIp, mac);
        OneBufferDisposed(env.script);
        var err := NetdevListXmit(env, nb, [nb]);
        ret := NETDEV_RX_SUCCESS;
    }
  }

  /** arp_recv. The source accepts a packet if either length field is right, not only if both are. */
  method ArpRecv(nb: NetBuff, env: Env, tbl: Table, myIp: Quad, mac: Mac) returns (ret: int)
    requires Layout(nb) && nb.next == null
    modifies nb`pktLen, nb`next, nb.head, env, tbl
    ensures var act := Taking(old(PacketIn(nb)), old(nb.pktType), myIp);
      && Disposed(act, old(env.script), old(env.taken), old(env.freed), env.taken, env.freed, nb)
      && ret == (if act.Drop? && old(nb.pktType) != PKT_OTHERHOST then NETDEV_RX_DROP else NETDEV_RX_SUCCESS)
      && (if act.Learn? then tbl.ip == old(PacketIn(nb)).spa && tbl.mac == old(PacketIn(nb)).sha else unchanged(tbl))
      && (if act.Answer?
          then AnsweredInPlace(old(nb.head[..]), nb.head[..], nb.networkOff, nb.macOff, myIp, mac)
               && nb.pktLen == (old(nb.pktLen) - 4) % 0x1_0000
          else unchanged(nb) && unchanged(nb.head))
    ensures var was, n := old(nb.head[..]), nb.networkOff;
      && (Concerns(was, n, 1, old(nb.pktType), myIp) ==>
            nb.head[..][n..n + 28] == [0, 1, 8, 0, 6, 4, 0, 2] + mac + myIp + was[n + 8..n + 14] + was[n + 14..n + 18])
      && (Concerns(was, n, 2, old(nb.pktType), myIp) ==>
            tbl.ip == was[n + 14..n + 18] && tbl.mac == was[n + 8..n + 14])
  {
    hide Answers, Completions, AnsweredInPlace, Decide, Concerns;
    ghost var was, act := nb.head[..], Taking(PacketIn(nb), nb.pktType, myIp);
    var n := nb.networkOff;
    assert nb.head[n + 4] == PacketIn(nb).hlen && nb.head[n + 5] == PacketIn(nb).plen;
    if nb.pktType == PKT_OTHERHOST {
      env.Free(nb);
      ret := NETDEV_RX_SUCCESS;
    } else if nb.head[n + 4] == 6 || nb.head[n + 5] == 4 {
      ret := ArpProc(nb, env, tbl, myIp, mac);
    } else {
      env.Free(nb);
      ret := NETDEV_RX_DROP;
    }
    ConcernsInNumbers(was, n, old(nb.pktType), myIp);
    if act.Answer? {
      AnswerInNumbers(was, nb.head[..], n, nb.macOff, myIp, mac);
    }
  }

  /** What arp_recv makes of a packet. */
  function Taking(a: Packet, pktType: byte, myIp: Quad): Action {
    if pktType == PKT_OTHERHOST || (a.hlen != 6 && a.plen != 4) then Drop else Decide(a, myIp)
  }

  /** The bytes of a packet that concerns this node: Ethernet and IPv4 with their address lengths, the
      operation, this node as target, and another one as sender. */
  predicate Concerns(s: seq<byte>, n: nat, oper: byte, pktType: byte, myIp: Quad)
    requires n + 28 <= |s|
  {
    && s[n..n + 8] == [0, 1, 8, 0, 6, 4, 0, oper] && pktType != 3
    && s[n + 24..n + 28] == myIp && s[n + 14..n + 18] != myIp && !(224 <= myIp[0] < 240)
  }

  /** A request (operation 1) that concerns this node is answered, and a reply (2) is learnt. */
  lemma ConcernsInNumbers(s: seq<byte>, n: nat, pktType: byte, myIp: Quad)
    requires n + 28 <= |s|
    ensures Concerns(s, n, 1, pktType, myIp) ==>
      Taking(PacketAt(s, n), pktType, myIp) == Answer && s[n..n + 8] == [0, 1, 8, 0, 6, 4, 0, 1]
    ensures Concerns(s, n, 2, pktType, myIp) ==>
      && Taking(PacketAt(s, n), pktType, myIp) == Learn
      && PacketAt(s, n).spa == s[n + 14..n + 18] && PacketAt(s, n).sha == s[n + 8..n + 14]
  {
    hide Decode;
    var p := s[n..n + 28];
    DecodeInNumbers(p);
    Inner(s, n, 24, 28);
    Inner(s, n, 14, 18);
    Inner(s, n, 8, 14);
    Inner(s, n, 0, 8);
    assert forall i :: 0 <= i < 8 ==> p[i] == p[0..8][i];
    TakenUpIff(PacketAt(s, n), myIp);
  }

  lemma Inner(s: seq<byte>, n: nat, i: nat, j: nat)
    requires n + 28 <= |s| && i <= j <= 28
    ensures s[n..n + 28][i..j] == s[n + i..n + j]
  {
    var a, b := s[n..n + 28][i..j], s[n + i..n + j];
    assert forall k :: 0 <= k < j - i ==> a[k] == s[n..n + 28][i + k] == s[n + (i + k)] == b[k];
  }

  /** Exactly the packets that are taken up, in bytes: the source is content with one right address length. */
  lemma TakingInNumbers(p: seq<byte>, pktType: byte, myIp: Quad)
    requires |p| == 28
    ensures Taking(Decode(p), pktType, myIp) ==
      if pktType != 3 && (p[4] == 6 || p[5] == 4)
         && p[0] == 0 && p[1] == 1 && p[2] == 8 && p[3] == 0 && p[6] == 0 && p[7] in {1, 2}
         && p[24..28] == myIp && p[14..18] != myIp && !(224 <= myIp[0] < 240)
      then if p[7] == 1 then Answer else Learn
      else Drop
  {
    hide Decode;
    DecodeInNumbers(p);
    TakenUpIff(Decode(p), myIp);
  }

  /** The answer in bytes: operation 2, this node as sender, the old sender as target. */
  lemma AnswerInNumbers(was: seq<byte>, now: seq<byte>, n: nat, m: nat, myIp: Quad, mac: Mac)
    requires m + 14 <= n && n + 28 <= |was| == |now| && AnsweredInPlace(was, now, n, m, myIp, mac)
    ensures now[n..n + 28] == was[n..n + 6] + [0, 2] + mac + myIp + was[n + 8..n + 14] + was[n + 14..n + 18]
    ensures was[n..n + 8] == [0, 1, 8, 0, 6, 4, 0, 1] ==>
      now[n..n + 28] == [0, 1, 8, 0, 6, 4, 0, 2] + mac + myIp + was[n + 8..n + 14] + was[n + 14..n + 18]
  {
    hide Decode, Encode;
    var p, q := was[n..n + 28], now[n..n + 28];
    ReplyBytes(p, myIp, mac);
    EncodeDecode(q);
    assert NetBytes(OP_REPLY) == [0, 2];
    Inner(was, n, 0, 6);
    Inner(was, n, 8, 14);
    Inner(was, n, 14, 18);
    if was[n..n + 8] == [0, 1, 8, 0, 6, 4, 0, 1] {
      assert was[n..n + 6] == was[n..n + 8][..6];
      assert was[n..n + 6] + [0, 2] == [0, 1, 8, 0, 6, 4, 0, 2];
    }
  }

  /** The stores of arp_proc that turn a request into its reply. */
  method AnswerInPlace(h: array<byte>, n: nat, m: nat, a: Packet, myIp: Quad, mac: Mac)
    requires m + 14 <= n && n + ARP_HDR <= h.Length && a == Decode(h[n..n + ARP_HDR])
    modifies h
    ensures AnsweredInPlace(old(h[..]), h[..], n, m, myIp, mac)
  {
    hide Encode, Decode, Splice, AnsweredInPlace;
    ghost var was := h[..];
    ghost var s := was[n..n + ARP_HDR];
    assert s == h[n..n + ARP_HDR] && was == Splice(was, n, s);
    ghost var r1 := StoreField(h, n, 6, NetBytes(OP_REPLY), was, s);
    ghost var r2 := StoreField(h, n, 18, h[n + 8..n + 14], was, r1);
    ghost var r3 := StoreField(h, n, 24, h[n + 14..n + 18], was, r2);
    ghost var r4 := StoreField(h, n, 8, mac, was, r3);
    ghost var r5 := StoreField(h, n, 14, myIp, was, r4);
    ghost var arp := h[..];
    ReplyBytes(s, myIp, mac);
    FiveStores(s, myIp, mac);
    AnswerEth(h, m, mac);
    assert arp[m + 6..m + 12] == was[m + 6..m + 12];
    SplicedAnswer(was, n, m, ReplyTo(a, myIp, mac), myIp, mac);
  }

  lemma SplicedAnswer(was: seq<byte>, n: nat, m: nat, reply: Packet, myIp: Quad, mac: Mac)
    requires m + 14 <= n && n + ARP_HDR <= |was| && reply == ReplyTo(PacketAt(was, n), myIp, mac)
    ensures var now := Splice(Splice(was, n, Encode(reply)), m, was[m + 6..m + 12] + mac);
      AnsweredInPlace(was, now, n, m, myIp, mac)
  {
    hide Encode, Decode, ReplyTo, Splice;
    var now := Splice(Splice(was, n, Encode(reply)), m, was[m + 6..m + 12] + mac);
    assert now[n..n + ARP_HDR] == Encode(reply);
    DecodeEncode(reply);
  }

  /** One field store, seen as a change of the ARP packet `r` that lies at n. */
  method StoreField(h: array<byte>, n: nat, k: nat, bytes: seq<byte>, ghost was: seq<byte>, ghost r: seq<byte>)
    returns (ghost r': seq<byte>)
    requires |r| == ARP_HDR && n + ARP_HDR <= h.Length == |was| && k + |bytes| <= ARP_HDR
    requires h[..] == Splice(was, n, r)
    modifies h
    ensures r' == Splice(r, k, bytes) && h[..] == Splice(was, n, r')
    ensures h[n..n + ARP_HDR] == r'
    ensures forall i, j {:trigger h[n + i..n + j]} :: 0 <= i <= j <= ARP_HDR ==> h[n + i..n + j] == r'[i..j]
  {
    hide Splice;
    r' := Splice(r, k, bytes);
    Store(h, n + k, bytes);
    SpliceInside(was, n, r, k, bytes);
    assert h[n..n + ARP_HDR] == h[..][n..n + ARP_HDR];
    forall i, j {:trigger h[n + i..n + j]} | 0 <= i <= j <= ARP_HDR
      ensures h[n + i..n + j] == r'[i..j]
    {
      assert h[n + i..n + j] == h[..][n + i..n + j];
    }
  }

  lemma SpliceInside(was: seq<byte>, n: nat, r: seq<byte>, k: nat, bytes: seq<byte>)
    requires n + |r| <= |was| && k + |bytes| <= |r|
    ensures Splice(Splice(was, n, r), n + k, bytes) == Splice(was, n, Splice(r, k, bytes))
  {
  }

  lemma FiveStores(s: seq<byte>, myIp: Quad, mac: Mac)
    requires |s| == ARP_HDR
    ensures var r1 := Splice(s, 6, NetBytes(OP_REPLY));
            var r2 := Splice(r1, 18, r1[8..14]);
            var r3 := Splice(r2, 24, r2[14..18]);
            Splice(Splice(r3, 8, mac), 14, myIp) == s[..6] + NetBytes(OP_REPLY) + mac + myIp + s[8..14] + s[14..18]
  {
  }

  method AnswerEth(h: array<byte>, m: nat, mac: Mac)
    requires m + 14 <= h.Length
    modifies h
    ensures h[..] == Splice(old(h[..]), m, old(h[m + 6..m + 12]) + mac)
  {
    hide Splice;
    Store(h, m, h[m + 6..m + 12]);
    Store(h, m + 6, mac);
  }

  /** The reply to the packet in `s`, byte by byte: the first six bytes stay, the sender becomes the target. */
  lemma ReplyBytes(s: seq<byte>, myIp: Quad, mac: Mac)
    requires |s| == ARP_HDR
    ensures Encode(ReplyTo(Decode(s), myIp, mac))
         == s[..6] + NetBytes(OP_REPLY) + mac + myIp + s[8..14] + s[14..18]
  {
    BytesOf(s[0], s[1]);
    BytesOf(s[2], s[3]);
    hide Word, NetBytes;
    assert s[..6] == [s[0], s[1]] + [s[2], s[3]] + [s[4], s[5]];
  }

  // ---------------------------------------------------------------- the builder

  function EthFront(dst: Mac, src: Mac): (s: seq<byte>)
    ensures |s| == ETH_HDR_LEN
  {
    dst + src + NetBytes(ETH_P_ARP)
  }

  /** An ARP packet behind its Ethernet header. */
  function FrameBytes(dst: Mac, src: Mac, a: Packet): (s: seq<byte>)
    ensures |s| == ETH_HDR_LEN + ARP_HDR
  {
    EthFront(dst, src) + Encode(a)
  }

  /** The frame byte by byte: 08 06 at offset 12, then the packet. */
  lemma FrameInNumbers(dst: Mac, src: Mac, a: Packet)
    ensures FrameBytes(dst, src, a) ==
      dst + src + [8, 6]
      + ([a.htype / 256, a.htype % 256, a.ptype / 256, a.ptype % 256, a.hlen, a.plen, a.oper / 256, a.oper % 256]
         + a.sha + a.spa + a.tha + a.tpa)
  {
    hide Encode;
    EncodeInNumbers(a);
    assert NetBytes(ETH_P_ARP) == [8, 6];
  }

  /** arp_create; the options are the source's NULL pointers, and `memory` says whether the allocations succeed. */
  method ArpCreate(oper: uint16, ptype: uint16, dest: Option<Mac>, sha: Option<Mac>, spa: Option<Quad>,
                   tha: Option<Mac>, tpa: Quad, myIp: Quad, devAddr: Mac, devBroadcast: Mac, memory: bool)
    returns (nb: NetBuff?)
    ensures nb == null <==> !memory
    ensures nb != null ==>
      && fresh(nb) && fresh(nb.head) && nb.next == null
      && nb.head.Length == nb.pktLen == nb.tail == ETH_HDR_LEN + ARP_HDR
      && nb.head[..] ==
           FrameBytes(dest.Or(devBroadcast), sha.Or(devAddr),
                      Packet(HWT_ETHER, ptype, 6, 4, oper, sha.Or(devAddr), spa.Or(myIp), tha.Or(NO_MAC), tpa))
  {
    hide Splice, Encode;
    if !memory {
      return null;
    }
    nb := new NetBuff(ETH_HDR_LEN + ARP_HDR);
    ghost var blank := nb.head[..];
    var destHw := dest.Or(devBroadcast);
    var srcHw := sha.Or(devAddr);
    var srcIp := spa.Or(myIp);
    nb.protocol := Swap(ETH_P_ARP);
    nb.tail := nb.tail + ETH_HDR_LEN;
    var err := nb.EthHeaderCreate(ETH_P_ARP, Some(destHw), Some(srcHw), devAddr, nb.pktLen);
    assert err == 0;
    var arph, trapped := nb.Put(ARP_HDR);
    assert !trapped;
    var a := Packet(HWT_ETHER, ptype, 6, 4, oper, srcHw, srcIp, tha.Or(NO_MAC), tpa);
    Store(nb.head, arph, Encode(a));
    TwoParts(blank, EthFront(destHw, srcHw), Encode(a));
  }

  lemma TwoParts(s: seq<byte>, front: seq<byte>, rest: seq<byte>)
    requires |s| == |front| + |rest|
    ensures Splice(Splice(s, 0, front), |front|, rest) == front + rest
  {
  }

  /** arp_send: the packet goes to the driver or its buffer is freed. */
  method ArpSend(env: Env, oper: uint16, ptype: uint16, dest: Option<Mac>, sha: Option<Mac>, spa: Option<Quad>,
                 tha: Option<Mac>, tpa: Quad, myIp: Quad, devAddr: Mac, devBroadcast: Mac, memory: bool)
    returns (ret: int, nb: NetBuff?)
    modifies env
    ensures nb == null <==> !memory
    ensures nb == null ==> ret == -1 && unchanged(env)
    ensures nb != null ==>
      && nb.head[..] ==
           FrameBytes(dest.Or(devBroadcast), sha.Or(devAddr),
                      Packet(HWT_ETHER, ptype, 6, 4, oper, sha.Or(devAddr), spa.Or(myIp), tha.Or(NO_MAC), tpa))
      && if Completions(Answers(old(env.script))) > 0
         then ret == RunList(1, old(env.script), NETDEV_TX_BUSY).err
              && env.taken == old(env.taken) + [nb] && env.freed == old(env.freed)
         else ret == -1 && env.taken == old(env.taken) && env.freed == old(env.freed) + [nb]
  {
    hide Answers, Completions, FrameBytes;
    nb := ArpCreate(oper, ptype, dest, sha, spa, tha, tpa, myIp, devAddr, devBroadcast, memory);
    if nb == null {
      return -1, null;
    }
    OneBufferDisposed(env.script);
    var err := NetdevListXmit(env, nb, [nb]);
    ret := err;
  }
}
