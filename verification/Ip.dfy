/** The IP header as it lies in a frame (src/netinet/ip.h), and the tests ip_recv puts it to (src/netinet/ip.c). */
module Ip {
  import opened Machine
  import opened InternetChecksum
  import opened Net

  /** Offsets in struct ip_hdr_s. */
  const IP_TOTLEN: nat := 2
  const IP_TTL: nat := 8
  const IP_PROTO: nat := 9
  const IP_CHKS: nat := 10
  const IP_SRC: nat := 12
  const IP_DST: nat := 16

  /** ntohs of the word at `off`. */
  function NetWord(s: seq<byte>, off: nat): uint16
    requires off + 2 <= |s|
  {
    Word(s[off + 1], s[off])
  }

  function QuadAt(s: seq<byte>, off: nat): Quad
    requires off + 4 <= |s|
  {
    s[off..off + 4]
  }

  function IpHeader(s: seq<byte>, n: nat): seq<byte>
    requires n + 20 <= |s|
  {
    s[n..n + 20]
  }

  /** ip_recv accepts the header: the frame is for us, version 4 without options, the checksum passes, and
      the total length is not more than the frame and, read with its bytes swapped, at least 20. */
  predicate IpAccepts(s: seq<byte>, n: nat, pktType: byte, pktLen: uint16)
    requires n + 20 <= |s|
  {
    && pktType != PKT_OTHERHOST
    && s[n] == 0x45
    && Checksum(IpHeader(s, n)) == 0
    && pktLen >= NetWord(s, n + IP_TOTLEN)
    && WordAt(s, n + IP_TOTLEN) >= 20
  }

  /** The same in the numbers of RFC 791, accepting and refusing: not for another host, version 4 with five
      words, a checksum that passes, and the two length tests. */
  lemma AcceptsInNumbers(s: seq<byte>, n: nat, pktType: byte, pktLen: uint16)
    requires n + 20 <= |s|
    ensures var hi: int, lo: int := s[n + 2], s[n + 3];
      IpAccepts(s, n, pktType, pktLen) <==>
        && pktType != 3 && s[n] == 69 && Checksum(s[n..n + 20]) == 0
        && 256 * hi + lo <= pktLen && 256 * lo + hi >= 20
  {
    hide Checksum;
  }

  /** The second length test looks at the length before conversion (a parenthesis is misplaced). It differs
      from the intended test, a total length of at least 20, exactly on lengths below 20 other than 0, which
      it lets through, and on the multiples of 256 below 20 * 256, which it refuses. */
  lemma LengthTestIff(s: seq<byte>, n: nat)
    requires n + 20 <= |s|
    ensures var total := NetWord(s, n + IP_TOTLEN);
      (WordAt(s, n + IP_TOTLEN) >= 20 <==> total >= 20) <==>
      !((0 < total < 20) || (0 < total < 20 * 0x100 && total % 0x100 == 0))
  {
  }
}
