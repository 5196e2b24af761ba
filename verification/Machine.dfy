/** Fixed-width integers, byte order and byte copying of the 8-bit little-endian target.
    Machine integers are subset types of `int`; every wrap-around is written out. */
module Machine {
  datatype Option<+T> = None | Some(value: T) {
    /** A C pointer that may be NULL, with the default that then takes its place. */
    function Or(default: T): T {
      if Some? then value else default
    }
  }

  type byte = x: int | 0 <= x < 0x100
  type uint16 = x: int | 0 <= x < 0x1_0000
  type uint32 = x: int | 0 <= x < 0x1_0000_0000
  type int8 = x: int | -0x80 <= x < 0x80

  /** Four bytes in network order: an IPv4 address (or the DHCP xid) as it lies in memory. */
  type Quad = s: seq<byte> | |s| == 4 witness [0, 0, 0, 0]

  /** A hardware address. */
  type Mac = s: seq<byte> | |s| == 6 witness [0, 0, 0, 0, 0, 0]

  /** INADDR_NONE, which is also INADDR_BROADCAST: 255.255.255.255. */
  const NONE: Quad := [255, 255, 255, 255]
  const ANY: Quad := [0, 0, 0, 0]

  function Lo(w: uint16): byte { w % 0x100 }

  function Hi(w: uint16): byte { w / 0x100 }

  /** `b--` on an 8-bit unsigned value. */
  function Dec(b: byte): byte { if b == 0 then 0xFF else b - 1 }

  /** The 16-bit value a little-endian load yields. */
  function Word(lo: byte, hi: byte): uint16 { lo + 0x100 * hi }

  /** bswap_16, i.e. htons and ntohs. */
  function Swap(w: uint16): uint16 { Word(Hi(w), Lo(w)) }

  lemma Halves(w: uint16)
    ensures Word(Lo(w), Hi(w)) == w
  {
  }

  lemma SwapWord(lo: byte, hi: byte)
    ensures Swap(Word(lo, hi)) == Word(hi, lo)
  {
  }

  lemma SwapTwice(w: uint16)
    ensures Swap(Swap(w)) == w
  {
    SwapWord(w % 0x100, w / 0x100);
    SwapWord(w / 0x100, w % 0x100);
  }

  lemma SwapZero()
    ensures Swap(0) == 0
  {
  }

  lemma SwapInjective(a: uint16, b: uint16)
    ensures Swap(a) == Swap(b) <==> a == b
    ensures Swap(a) == 0 <==> a == 0
  {
    hide Swap;
    SwapTwice(a);
    SwapTwice(b);
    SwapZero();
  }

  /** The bytes a little-endian 16-bit store writes. */
  function Bytes16(w: uint16): (s: seq<byte>)
    ensures |s| == 2
  {
    [Lo(w), Hi(w)]
  }

  function WordAt(s: seq<byte>, off: nat): uint16
    requires off + 2 <= |s|
  {
    Word(s[off], s[off + 1])
  }

  /** `s` with the bytes from `off` on overwritten by `bytes`. */
  function Splice(s: seq<byte>, off: nat, bytes: seq<byte>): (r: seq<byte>)
    requires off + |bytes| <= |s|
    ensures |r| == |s|
    ensures forall i {:trigger r[i]} :: 0 <= i < |s| ==>
      r[i] == if off <= i < off + |bytes| then bytes[i - off] else s[i]
  {
    s[..off] + bytes + s[off + |bytes|..]
  }

  /** memcpy and the multi-byte field stores. */
  method Store(a: array<byte>, off: nat, bytes: seq<byte>)
    requires off + |bytes| <= a.Length
    modifies a
    ensures a[..] == Splice(old(a[..]), off, bytes)
  {
    for i := 0 to |bytes|
      invariant a[..] == Splice(old(a[..]), off, bytes[..i])
    {
      a[off + i] := bytes[i];
    }
    assert bytes[..|bytes|] == bytes;
  }
}
