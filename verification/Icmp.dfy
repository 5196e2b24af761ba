/** ICMP: the in-place echo reply and the header builder (src/netinet/icmp.c). */
module Icmp {
  import opened Machine
  import opened InternetChecksum
  import opened Ip
  import opened Net
  import opened NetDev

  const ECHO_REPLY: byte := 0
  const ECHO_REQ: byte := 8

  /** Offset and size in struct icmp_hdr_s. */
  const ICMP_CHKS: nat := 2
  const ICMP_HDR: nat := 8

  /** Where the headers of a received frame lie: Ethernet, then an IP header without options, then ICMP. */
  ghost predicate Layout(nb: NetBuff)
    reads nb
  {
    && nb.macOff + 14 <= nb.networkOff
    && nb.transportOff == nb.networkOff + 20
    && nb.transportOff + ICMP_HDR <= nb.head.Length
  }

  /** ntohs(iph->tot_len) - iph->ihl * 4, in 16-bit arithmetic. */
  function IcmpLen(s: seq<byte>, n: nat): uint16
    requires n + 20 <= |s|
  {
    (NetWord(s, n + IP_TOTLEN) - 20) % 0x1_0000
  }

  /** The IP total length covers an ICMP header and ends inside the buffer. */
  predicate ConsistentLength(s: seq<byte>, n: nat) {
    n + 20 <= |s| && NetWord(s, n + IP_TOTLEN) >= 20 + ICMP_HDR && n + NetWord(s, n + IP_TOTLEN) <= |s|
  }

  function Message(s: seq<byte>, n: nat): seq<byte>
    requires ConsistentLength(s, n)
  {
    s[n + 20..n + NetWord(s, n + IP_TOTLEN)]
  }

  predicate QuadIs(s: seq<byte>, off: nat, q: Quad)
    requires off + 4 <= |s|
  {
    s[off] == q[0] && s[off + 1] == q[1] && s[off + 2] == q[2] && s[off + 3] == q[3]
  }

  predicate MacIs(s: seq<byte>, off: nat, mac: Mac)
    requires off + 6 <= |s|
  {
    forall i :: 0 <= i < 6 ==> s[off + i] == mac[i]
  }

  /** The hardware addresses are mirrored; nothing else changed. */
  ghost predicate EthReply(was: seq<byte>, now: seq<byte>, m: nat, mac: Mac)
    requires m + 14 <= |was| == |now|
  {
    && MacIs(now, m, was[m + 6..m + 12]) && MacIs(now, m + 6, mac)
    && forall i {:trigger now[i]} :: 0 <= i < |now| && !(m <= i < m + 12) ==> now[i] == was[i]
  }

  /** The IP addresses are mirrored, the time to live is one less and the checksum is computed afresh;
      nothing else changed. */
  ghost predicate IpReply(was: seq<byte>, now: seq<byte>, n: nat, myIp: Quad)
    requires n + 20 <= |was| == |now|
  {
    && QuadIs(now, n + IP_SRC, myIp) && QuadIs(now, n + IP_DST, QuadAt(was, n + IP_SRC))
    && now[n + IP_TTL] == Dec(was[n + IP_TTL])
    && WordAt(now, n + IP_CHKS) == Checksum(Splice(IpHeader(now, n), IP_CHKS, [0, 0]))
    && forall i {:trigger now[i]} ::
         0 <= i < |now| && i != n + IP_TTL && !(n + IP_CHKS <= i < n + 20) ==> now[i] == was[i]
  }

  /** The type is Echo Reply and, if the length lies in the buffer, the checksum is computed afresh; nothing
      else, so neither identifier nor sequence number nor payload, changed. */
  ghost predicate IcmpReply(was: seq<byte>, now: seq<byte>, n: nat)
    requires n + 20 + ICMP_HDR <= |was| == |now|
  {
    && now[n + 20] == ECHO_REPLY
    && (ConsistentLength(now, n) ==>
          WordAt(now, n + 20 + ICMP_CHKS) == Checksum(Splice(Message(now, n), ICMP_CHKS, [0, 0])))
    && forall i {:trigger now[i]} ::
         0 <= i < |now| && i != n + 20 && !(n + 20 + ICMP_CHKS <= i < n + 20 + ICMP_CHKS + 2) ==> now[i] == was[i]
  }

  /** The offsets a reply overwrites. */
  predicate Rewritten(m: nat, n: nat, i: nat) {
    || m <= i < m + 12
    || i == n + IP_TTL || n + IP_CHKS <= i < n + 20
    || i == n + 20 || n + 20 + ICMP_CHKS <= i < n + 20 + ICMP_CHKS + 2
  }

  /** What the reply is to the request: hardware and IP addresses mirrored, type Echo Reply, time to live
      one less, both checksums computed afresh, and every other byte, so identifier, sequence number and
      payload, as it was. */
  ghost predicate IsReply(was: seq<byte>, now: seq<byte>, m: nat, n: nat, myIp: Quad, mac: Mac)
    requires m + 14 <= n && n + 20 + ICMP_HDR <= |was| == |now|
  {
    && MacIs(now, m, was[m + 6..m + 12]) && MacIs(now, m + 6, mac)
    && QuadIs(now, n + IP_SRC, myIp) && QuadIs(now, n + IP_DST, QuadAt(was, n + IP_SRC))
    && now[n + IP_TTL] == Dec(was[n + IP_TTL])
    && now[n + 20] == ECHO_REPLY
    && WordAt(now, n + IP_CHKS) == Checksum(Splice(IpHeader(now, n), IP_CHKS, [0, 0]))
    && (ConsistentLength(now, n) ==>
          WordAt(now, n + 20 + ICMP_CHKS) == Checksum(Splice(Message(now, n), ICMP_CHKS, [0, 0])))
    && forall i {:trigger now[i]} :: 0 <= i < |now| && !Rewritten(m, n, i) ==> now[i] == was[i]
  }

  /** The reply in numbers, offset by offset: time to live at 8, checksum at 10, addresses at 12 and 16, type
      at 20 and ICMP checksum at 22 of the IP packet; it is 255 after 0. */
  lemma ReplyInNumbers(was: seq<byte>, now: seq<byte>, m: nat, n: nat, myIp: Quad, mac: Mac)
    requires m + 14 <= n && n + 28 <= |was| == |now| && IsReply(was, now, m, n, myIp, mac)
    ensures now[m..m + 6] == was[m + 6..m + 12] && now[m + 6..m + 12] == mac
    ensures now[n + 12..n + 16] == myIp && now[n + 16..n + 20] == was[n + 12..n + 16]
    ensures now[n + 8] == (if was[n + 8] == 0 then 255 else was[n + 8] - 1) && now[n + 20] == 0
    ensures forall i ::
      && 0 <= i < |now| && !(m <= i < m + 12) && i != n + 8 && !(n + 10 <= i < n + 21) && i != n + 22 && i != n + 23
      ==> now[i] == was[i]
  {
    hide Checksum, Splice, Message, IpHeader, ConsistentLength;
    assert QuadAt(was, n + 12) == was[n + 12..n + 16];
  }

  /** Lengths in numbers: the ICMP message runs from offset 20 to the total length at offset 2. */
  lemma MessageInNumbers(s: seq<byte>, n: nat)
    requires n + 20 <= |s|
    ensures var total := 256 * (s[n + 2] as int) + s[n + 3];
      && (ConsistentLength(s, n) <==> total >= 28 && n + total <= |s|)
      && (ConsistentLength(s, n) ==> Message(s, n) == s[n + 20..n + total])
      && IcmpLen(s, n) == (if total >= 20 then total - 20 else total + 65516)
  {
    var total := 256 * (s[n + 2] as int) + s[n + 3];
    assert NetWord(s, n + IP_TOTLEN) == total;
    assert (total - 20) % 0x1_0000 == if total >= 20 then total - 20 else total + 65516;
  }

  lemma ReplyInThreeSteps(was: seq<byte>, eth: seq<byte>, ip: seq<byte>, now: seq<byte>,
                          m: nat, n: nat, myIp: Quad, mac: Mac)
    requires m + 14 <= n && n + 20 + ICMP_HDR <= |was| == |eth| == |ip| == |now|
    requires EthReply(was, eth, m, mac) && IpReply(eth, ip, n, myIp) && IcmpReply(ip, now, n)
    ensures IsReply(was, now, m, n, myIp, mac)
  {
    assert IpHeader(now, n) == IpHeader(ip, n);
    forall i | 0 <= i < |now| && !Rewritten(m, n, i)
      ensures now[i] == was[i]
    {
      assert now[i] == ip[i] && ip[i] == eth[i];
    }
    assert now[m..m + 12] == ip[m..m + 12] == eth[m..m + 12];
    assert QuadAt(eth, n + IP_SRC) == QuadAt(was, n + IP_SRC);
  }

  method ReplyEth(h: array<byte>, m: nat, mac: Mac)
    requires m + 14 <= h.Length
    modifies h
    ensures EthReply(old(h[..]), h[..], m, mac)
  {
    hide Splice;
    ghost var was := h[..];
    Store(h, m, h[m + 6..m + 12]);
    Store(h, m + 6, mac);
  }

  method ReplyIp(h: array<byte>, n: nat, myIp: Quad)
    requires n + 20 <= h.Length
    modifies h
    ensures IpReply(old(h[..]), h[..], n, myIp)
  {
    hide Splice, Checksum;
    ghost var was := h[..];
    Store(h, n + IP_DST, h[n + IP_SRC..n + IP_SRC + 4]);
    ghost var s1 := h[..];
    Store(h, n + IP_SRC, myIp);
    h[n + IP_TTL] := Dec(h[n + IP_TTL]);
    ghost var s2 := h[..];
    assert QuadIs(s2, n + IP_SRC, myIp) && QuadIs(s2, n + IP_DST, QuadAt(was, n + IP_SRC));
    var chks := SetChecksum(h, n, 20, IP_CHKS);
    StoredWord(s2, n, 20, IP_CHKS, chks);
  }

  /** What a stored checksum field looks like afterwards. */
  lemma StoredWord(was: seq<byte>, off: nat, count: nat, k: nat, chks: uint16)
    requires off + count <= |was| && k + 2 <= count
    ensures var now := Splice(was, off + k, Bytes16(chks));
      && WordAt(now, off + k) == chks
      && Splice(now[off..off + count], k, [0, 0]) == Splice(was[off..off + count], k, [0, 0])
  {
  }

  method ReplyIcmp(h: array<byte>, n: nat)
    requires n + 20 + ICMP_HDR <= h.Length
    modifies h
    ensures IcmpReply(old(h[..]), h[..], n)
  {
    hide Splice, Checksum;
    h[n + 20] := ECHO_REPLY;
    ghost var s1 := h[..];
    var len := IcmpLen(h[..], n);
    var chks := SetChecksum(h, n + 20, len, ICMP_CHKS);
    assert NetWord(h[..], n + IP_TOTLEN) == NetWord(s1, n + IP_TOTLEN);
    if ConsistentLength(s1, n) {
      StoredWord(s1, n + 20, len, ICMP_CHKS, chks);
    }
  }

  /** icmp_echo. A request for another address is answered true (NETDEV_RX_DROP is 1) and left alone. */
  method IcmpEcho(nb: NetBuff, env: Env, myIp: Quad, mac: Mac) returns (ret: bool)
    requires Layout(nb) && nb.next == null
    modifies nb`pktLen, nb`next, nb.head, env
    ensures ret
    ensures old(QuadAt(nb.head[..], nb.networkOff + IP_DST)) != myIp ==>
      unchanged(env) && unchanged(nb) && unchanged(nb.head)
    ensures old(QuadAt(nb.head[..], nb.networkOff + IP_DST)) == myIp ==>
      && nb.pktLen == (old(nb.pktLen) - 4) % 0x1_0000
      && IsReply(old(nb.head[..]), nb.head[..], nb.macOff, nb.networkOff, myIp, mac)
      && (if Completions(Answers(old(env.script))) > 0
          then env.taken == old(env.taken) + [nb] && env.freed == old(env.freed)
          else env.taken == old(env.taken) && env.freed == old(env.freed) + [nb])
  {
    hide Answers, Completions, EthReply, IpReply, IcmpReply, IsReply;
    var h, n := nb.head, nb.networkOff;
    ghost var was := h[..];
    ret := true;
    assert QuadAt(h[..], n + IP_DST) == h[n + IP_DST..n + IP_DST + 4];
    if h[n + IP_DST..n + IP_DST + 4] != myIp {
      return;
    }
    nb.pktLen := (nb.pktLen - 4) % 0x1_0000;
    ReplyEth(h, nb.macOff, mac);
    ghost var eth := h[..];
    ReplyIp(h, n, myIp);
    ghost var ip := h[..];
    ReplyIcmp(h, n);
    ReplyInThreeSteps(was, eth, ip, h[..], nb.macOff, n, myIp, mac);
    OneBufferDisposed(env.script);
    var err := NetdevListXmit(env, nb, [nb]);
  }

  /** The sum of an IP header, word by word. */
  lemma HeaderSum(s: seq<byte>, n: nat)
    requires n + 20 <= |s|
    ensures Sum(IpHeader(s, n)) ==
      WordAt(s, n) + WordAt(s, n + 2) + WordAt(s, n + 4) + WordAt(s, n + 6) + WordAt(s, n + 8)
      + WordAt(s, n + 10) + WordAt(s, n + 12) + WordAt(s, n + 14) + WordAt(s, n + 16) + WordAt(s, n + 18)
  {
    hide Sum;
    var h := IpHeader(s, n);
    SumNothing(h);
    SumWord(h, 0);
    SumWord(h, 1);
    SumWord(h, 2);
    SumWord(h, 3);
    SumWord(h, 4);
    SumWord(h, 5);
    SumWord(h, 6);
    SumWord(h, 7);
    SumWord(h, 8);
    SumWord(h, 9);
    assert h[..2 * 10] == h;
  }

  /** A reply to an accepted request to us is itself acceptable: both checksum tests pass; identifier,
      sequence number and payload come back unchanged. */
  lemma ReplyIsAcceptable(was: seq<byte>, now: seq<byte>, m: nat, n: nat, myIp: Quad, mac: Mac)
    requires m + 14 <= n && n + 20 + ICMP_HDR <= |was| == |now|
    requires IsReply(was, now, m, n, myIp, mac) && ConsistentLength(was, n)
    ensures Checksum(IpHeader(now, n)) == 0
    ensures ConsistentLength(now, n) && |Message(now, n)| == |Message(was, n)| && Checksum(Message(now, n)) == 0
    ensures Message(now, n)[4..] == Message(was, n)[4..]
  {
    hide Checksum, Splice;
    ReplyMessage(was, now, m, n, myIp, mac);
    StoredChecksumPasses(IpHeader(now, n), IP_CHKS);
    StoredChecksumPasses(Message(now, n), ICMP_CHKS);
  }

  /** A structure whose checksum field holds the checksum of the structure with that field zeroed. */
  lemma StoredChecksumPasses(s: seq<byte>, k: nat)
    requires k % 2 == 0 && k + 2 <= |s|
    ensures WordAt(s, k) == Checksum(Splice(s, k, [0, 0])) ==> Checksum(s) == 0
  {
    hide Checksum;
    var z := Splice(s, k, [0, 0]);
    if WordAt(s, k) == Checksum(z) {
      var c := Checksum(z);
      assert WordAt(z, k) == 0;
      InsertedChecksumPasses(z, k);
      RestoreWord(s, k);
    }
  }

  lemma RestoreWord(s: seq<byte>, k: nat)
    requires k + 2 <= |s|
    ensures Splice(Splice(s, k, [0, 0]), k, Bytes16(WordAt(s, k))) == s
  {
  }

  /** The IP checksum of the reply is the RFC 1624 update of the request's for the one word that changed,
      time to live and protocol: exchanging source and destination leaves the sum alone. */
  lemma IpChecksumIsIncremental(was: seq<byte>, now: seq<byte>, m: nat, n: nat, myIp: Quad, mac: Mac)
    requires m + 14 <= n && n + 20 + ICMP_HDR <= |was| == |now|
    requires IsReply(was, now, m, n, myIp, mac)
    requires was[n] == 0x45 && was[n + IP_PROTO] == IPPROTO_ICMP && QuadAt(was, n + IP_DST) == myIp
    requires Checksum(IpHeader(was, n)) == 0
    ensures WordAt(now, n + IP_CHKS)
         == Eqn3(WordAt(was, n + IP_CHKS), WordAt(was, n + IP_TTL), WordAt(now, n + IP_TTL))
  {
    hide Checksum, Splice, Sum, Eqn3, IsReply, WordAt;
    var b := Splice(IpHeader(now, n), IP_CHKS, [0, 0]);
    HeaderSum(was, n);
    HeaderSum(now, n);
    ZeroedSum(now, n);
    ReplyHeaderWords(was, now, m, n, myIp, mac);
    var rest := WordAt(was, n) + WordAt(was, n + 2) + WordAt(was, n + 4) + WordAt(was, n + 6)
              + WordAt(was, n + 12) + WordAt(was, n + 14) + WordAt(was, n + 16) + WordAt(was, n + 18);
    PassesIff(IpHeader(was, n));
    ComplementOfSum(b);
    RecomputeIsIncremental(rest, WordAt(was, n + IP_CHKS), WordAt(was, n + IP_TTL), WordAt(now, n + IP_TTL));
  }

  lemma ZeroedSum(s: seq<byte>, n: nat)
    requires n + 20 <= |s|
    ensures Sum(Splice(IpHeader(s, n), IP_CHKS, [0, 0])) == Sum(IpHeader(s, n)) - WordAt(s, n + IP_CHKS)
  {
    SumReplace(IpHeader(s, n), IP_CHKS, 0);
  }

  lemma ComplementOfSum(s: seq<byte>)
    ensures Checksum(s) == 0xFFFF - Canon(Sum(s))
  {
    ClosedForm(s);
  }

  lemma ReplyHeaderWords(was: seq<byte>, now: seq<byte>, m: nat, n: nat, myIp: Quad, mac: Mac)
    requires m + 14 <= n && n + 20 + ICMP_HDR <= |was| == |now|
    requires IsReply(was, now, m, n, myIp, mac)
    requires was[n] == 0x45 && was[n + IP_PROTO] == IPPROTO_ICMP && QuadAt(was, n + IP_DST) == myIp
    ensures WordAt(now, n) == WordAt(was, n) >= 0x45 && WordAt(now, n + 2) == WordAt(was, n + 2)
    ensures WordAt(now, n + 4) == WordAt(was, n + 4) && WordAt(now, n + 6) == WordAt(was, n + 6)
    ensures WordAt(was, n + IP_TTL) < 0xFFFF
    ensures WordAt(now, n + 12) == WordAt(was, n + 16) && WordAt(now, n + 14) == WordAt(was, n + 18)
    ensures WordAt(now, n + 16) == WordAt(was, n + 12) && WordAt(now, n + 18) == WordAt(was, n + 14)
    ensures WordAt(now, n + IP_CHKS) == Checksum(Splice(IpHeader(now, n), IP_CHKS, [0, 0]))
  {
    hide Splice, Checksum, IpHeader, Message, ConsistentLength, MacIs;
  }

  /** The ICMP checksum of the reply has the value of the RFC 1624 update for the changed word, type and
      code; it is that very number unless everything else in the message is zero, when the recomputed
      checksum is 0xFFFF and the update gives 0x0000. */
  lemma IcmpChecksumIsIncremental(was: seq<byte>, now: seq<byte>, m: nat, n: nat, myIp: Quad, mac: Mac)
    requires m + 14 <= n && n + 20 + ICMP_HDR <= |was| == |now|
    requires IsReply(was, now, m, n, myIp, mac) && ConsistentLength(was, n)
    requires was[n + 20] == ECHO_REQ && Checksum(Message(was, n)) == 0
    ensures var hc, new_ := WordAt(was, n + 20 + ICMP_CHKS), WordAt(now, n + 20 + ICMP_CHKS);
      var eqn3 := Eqn3(hc, WordAt(was, n + 20), WordAt(now, n + 20));
      && SameValue(new_, eqn3)
      && (new_ == eqn3 <==> Sum(Splice(Message(now, n), ICMP_CHKS, [0, 0])) != 0)
  {
    hide Checksum, Sum, Splice, Eqn3, IsReply;
    ReplyMessage(was, now, m, n, myIp, mac);
    var a, e := Message(was, n), Message(now, n);
    FirstTwoWords(a);
    FirstTwoWords(e);
    SumReplace(e, ICMP_CHKS, 0);
    PassesIff(a);
    ComplementOfSum(Splice(e, ICMP_CHKS, [0, 0]));
    RecomputeIsIncremental(Sum(a[4..]), WordAt(a, ICMP_CHKS), WordAt(a, 0), WordAt(e, 0));
  }

  lemma ReplyMessage(was: seq<byte>, now: seq<byte>, m: nat, n: nat, myIp: Quad, mac: Mac)
    requires m + 14 <= n && n + 20 + ICMP_HDR <= |was| == |now|
    requires IsReply(was, now, m, n, myIp, mac) && ConsistentLength(was, n)
    ensures ConsistentLength(now, n)
    ensures var a, e := Message(was, n), Message(now, n);
      && |e| == |a| && e[4..] == a[4..]
      && WordAt(now, n + 20 + ICMP_CHKS) == Checksum(Splice(e, ICMP_CHKS, [0, 0]))
    ensures was[n + 20] == ECHO_REQ ==> WordAt(was, n + 20) < 0xFFFF
  {
    hide Splice, Checksum, MacIs, QuadIs, IpHeader, QuadAt;
    assert now[n + 2] == was[n + 2] && now[n + 3] == was[n + 3];
    var a, e := Message(was, n), Message(now, n);
    assert forall i :: 4 <= i < |e| ==> e[i] == now[n + 20 + i] == was[n + 20 + i] == a[i];
  }

  lemma FirstTwoWords(s: seq<byte>)
    requires |s| >= 4
    ensures Sum(s) == WordAt(s, 0) + WordAt(s, 2) + Sum(s[4..])
  {
  }

  /** icmp_hdr_create; `t` is the transport header offset. The source adds the header size to a header
      pointer, so the data goes 64 bytes behind the header's start, not 8. */
  method IcmpHdrCreate(buf: array<byte>, t: nat, type_: byte, code: byte, hdrData: Quad, data: seq<byte>)
    returns (ret: int)
    requires t + 64 + |data| <= buf.Length < 0x1_0000
    modifies buf
    ensures ret == 0 && Checksum(buf[t..t + ICMP_HDR + |data|]) == 0
    ensures buf[t] == type_ && buf[t + 1] == code && buf[t + 4..t + 8] == hdrData
    ensures buf[t + 64..t + 64 + |data|] == data
    ensures forall i :: 0 <= i < buf.Length && !(t <= i < t + ICMP_HDR) && !(t + 64 <= i < t + 64 + |data|) ==>
      buf[i] == old(buf[i])
  {
    hide Splice, Checksum;
    buf[t], buf[t + 1] := type_, code;
    Store(buf, t + 4, hdrData);
    Store(buf, t + 64, data);
    var chks := SetChecksum(buf, t, ICMP_HDR + |data|, ICMP_CHKS);
    var test := InChecksum(buf, t, ICMP_HDR + |data|);
    ret := if test != 0 then -1 else 0;
    assert buf[..][t + 4..t + 8] == hdrData;
    assert buf[..][t + 64..t + 64 + |data|] == data;
  }
}
