/** Addresses (src/arpa/inet.c): address classes and the dotted-quad parser. */
module Inet {
  import opened Machine

  const CLASS_A: int := 0
  const CLASS_B: int := 1
  const CLASS_C: int := 2
  const CLASS_D: int := 3
  const CLASS_E: int := 4

  /** `b & mask` where the mask's low bits, `unit` of them as a power of two, are zero. */
  function HighBits(b: byte, unit: nat): byte
    requires unit > 0
  {
    b / unit * unit
  }

  /** The class inet_class_determine finds; the source's tests are masks of the leading bits. */
  function Class(msb: byte): (c: int)
    ensures c == CLASS_A <==> msb < 128
    ensures c == CLASS_B <==> 128 <= msb < 192
    ensures c == CLASS_C <==> 192 <= msb < 224
    ensures c == CLASS_D <==> 224 <= msb < 240
    ensures c == CLASS_E <==> 240 <= msb
  {
    if HighBits(msb, 0x80) == 0x00 then CLASS_A
    else if HighBits(msb, 0x40) == 0x80 then CLASS_B
    else if HighBits(msb, 0x20) == 0xC0 then CLASS_C
    else if HighBits(msb, 0x10) == 0xE0 then CLASS_D
    else if HighBits(msb, 0x10) == 0xF0 then CLASS_E
    else -1
  }

  /** inet_class_determine with a place for the netmask: for classes A to C, as many bytes of ones as the
      class has network bytes; for D and E it is left alone. */
  method InetClassDetermine(ip: Quad, netMask0: Quad) returns (ret: int, netMask: Quad)
    ensures ret == Class(ip[0])
    ensures ip[0] < 224 ==> forall k :: 0 <= k < 4 ==> netMask[k] == if k <= ret then 255 else 0
    ensures ip[0] >= 224 ==> netMask == netMask0
  {
    var msb := ip[0];
    ret, netMask := -1, netMask0;
    if HighBits(msb, 0x80) == 0x00 {
      ret, netMask := CLASS_A, [255, 0, 0, 0];
    } else if HighBits(msb, 0x40) == 0x80 {
      ret, netMask := CLASS_B, [255, 255, 0, 0];
    } else if HighBits(msb, 0x20) == 0xC0 {
      ret, netMask := CLASS_C, [255, 255, 255, 0];
    } else if HighBits(msb, 0x10) == 0xE0 {
      ret := CLASS_D;
    } else if HighBits(msb, 0x10) == 0xF0 {
      ret := CLASS_E;
    }
  }

  // ---------------------------------------------------------------- dotted quads

  predicate IsDigit(c: char) { '0' <= c <= '9' }

  predicate IsSpace(c: char) { c == ' ' || '\t' <= c <= '\r' }

  function DigitsValue(s: string, acc: int): int
    decreases |s|
  {
    if s == "" || !IsDigit(s[0]) then acc
    else DigitsValue(s[1..], 10 * acc + (s[0] as int - '0' as int))
  }

  /** atol on a short string: leading white space, a sign, digits. */
  function Atol(s: string): int
    decreases |s|
  {
    if s != "" && IsSpace(s[0]) then Atol(s[1..])
    else if s != "" && s[0] == '-' then -DigitsValue(s[1..], 0)
    else if s != "" && s[0] == '+' then DigitsValue(s[1..], 0)
    else DigitsValue(s, 0)
  }

  /** How many characters of s one field takes: up to three, ending at a dot or at the end. */
  function FieldLength(s: string, most: nat): (n: nat)
    ensures n <= |s| && n <= most
    decreases most
  {
    if most == 0 || s == "" || s[0] == '.' then 0 else 1 + FieldLength(s[1..], most - 1)
  }

  /** The low bytes of the fields of s; one character after each field is skipped. */
  function Fields(s: string, k: nat): (r: seq<byte>)
    ensures |r| == k
    decreases k
  {
    if k == 0 then []
    else
      var n := FieldLength(s, 3);
      [Atol(s[..n]) % 0x100] + Fields(if n < |s| then s[n + 1..] else [], k - 1)
  }

  /** What is left of s behind its first k fields. */
  function Rest(s: string, k: nat): string
    decreases k
  {
    if k == 0 then s
    else
      var n := FieldLength(s, 3);
      Rest(if n < |s| then s[n + 1..] else [], k - 1)
  }

  /** The inner loop of inet_addr: copy one field; `cp` is the cursor. */
  method CopyField(s: string, start: nat) returns (tmp: string, cp: nat)
    requires start <= |s|
    ensures cp == start + FieldLength(s[start..], 3) && tmp == s[start..cp]
  {
    cp, tmp := start, [];
    var y := 0;
    while cp < |s| && s[cp] != '.' && y < 3
      invariant cp == start + y <= |s| && y <= 3 && tmp == s[start..cp]
      invariant FieldLength(s[start..], 3) == y + FieldLength(s[cp..], 3 - y)
    {
      tmp := tmp + [s[cp]];
      cp, y := cp + 1, y + 1;
    }
  }

  /** inet_addr on the string `s`, whose terminating NUL stands at index |s|; the result is the address as
      it lies in memory. The cursor `cp` ends behind the fourth field and never passes the NUL: every
      character is read at an index below |s|. */
  method InetAddr(s: string) returns (addr: Quad, ghost end: nat)
    ensures addr == Fields(s, 4)
    ensures end <= |s| && s[end..] == Rest(s, 4)
  {
    hide Atol, FieldLength, BigEndian, Fields, Rest;
    BigEndianNil();
    var ip: uint32, cp := 0, 0;
    ghost var done: seq<byte> := [];
    assert s[0..] == s && done + Fields(s, 4) == Fields(s, 4);
    for i := 0 to 4
      invariant 0 <= cp <= |s| && |done| == i
      invariant Fields(s, 4) == done + Fields(s[cp..], 4 - i)
      invariant Rest(s, 4) == Rest(s[cp..], 4 - i)
      invariant ip == BigEndian(done)
    {
      var tmp, next := CopyField(s, cp);
      ghost var rest := s[cp..];
      assert rest[..next - cp] == tmp;
      NextField(rest, next - cp, 4 - i);
      var octet := Atol(tmp) % 0x100;
      BigEndianSnoc(done, octet);
      ip := (ip * 0x100) % 0x1_0000_0000;
      ip := ip + octet;
      assert next < |s| ==> rest[next - cp + 1..] == s[next + 1..];
      assert next == |s| ==> s[next..] == [];
      AppendHead(done, octet, Fields(if next < |s| then s[next + 1..] else [], 3 - i));
      cp := if next < |s| then next + 1 else next;
      done := done + [octet];
    }
    NoFields(s[cp..]);
    assert done + [] == done;
    end := cp;
    BigEndianOf(done);
    addr := Htonl(ip, done[0], done[1], done[2], done[3]);
  }

  lemma NextField(s: string, n: nat, k: nat)
    requires k > 0 && n == FieldLength(s, 3)
    ensures Fields(s, k) == [Atol(s[..n]) % 0x100] + Fields(if n < |s| then s[n + 1..] else [], k - 1)
    ensures Rest(s, k) == Rest(if n < |s| then s[n + 1..] else [], k - 1)
  {
  }

  lemma NoFields(s: string)
    ensures Fields(s, 0) == [] && Rest(s, 0) == s
  {
  }

  lemma AppendHead(a: seq<byte>, x: byte, b: seq<byte>)
    ensures a + ([x] + b) == a + [x] + b
  {
  }

  /** The number whose bytes, most significant first, are `s`. */
  function BigEndian(s: seq<byte>): nat {
    if s == [] then 0 else 0x100 * BigEndian(s[..|s| - 1]) + s[|s| - 1]
  }

  lemma BigEndianNil()
    ensures BigEndian([]) == 0
  {
  }

  lemma BigEndianSnoc(s: seq<byte>, x: byte)
    requires |s| <= 3
    ensures BigEndian(s + [x]) == 0x100 * BigEndian(s) + x && BigEndian(s) < 0x100_0000
  {
    assert (s + [x])[..|s|] == s;
    BigEndianBound(s);
  }

  lemma {:induction false} BigEndianBound(s: seq<byte>)
    requires |s| <= 3
    ensures BigEndian(s) < match |s| case 0 => 1 case 1 => 0x100 case 2 => 0x1_0000 case _ => 0x100_0000
  {
    if s != [] {
      BigEndianBound(s[..|s| - 1]);
    }
  }

  function Number(a: byte, b: byte, c: byte, d: byte): int {
    ((a as int * 0x100 + b as int) * 0x100 + c as int) * 0x100 + d as int
  }

  lemma BigEndianOf(s: seq<byte>)
    requires |s| == 4
    ensures BigEndian(s) == Number(s[0], s[1], s[2], s[3])
  {
    var t := s[..3];
    var u := t[..2];
    var v := u[..1];
    assert v[..0] == [];
    assert BigEndian(v) == s[0];
    assert BigEndian(u) == 0x100 * BigEndian(v) + s[1];
    assert BigEndian(t) == 0x100 * BigEndian(u) + s[2];
  }

  /** htonl: the most significant byte first. */
  function Htonl(ip: uint32, ghost a: byte, ghost b: byte, ghost c: byte, ghost d: byte): (q: Quad)
    requires ip == Number(a, b, c, d)
    ensures q == [a, b, c, d]
  {
    Quotient(ip, 0x1_0000, Word(b, a), Word(d, c));
    Quotient(Word(b, a), 0x100, a, b);
    Quotient(Word(d, c), 0x100, c, d);
    var hi, lo := ip / 0x1_0000, ip % 0x1_0000;
    [hi / 0x100, hi % 0x100, lo / 0x100, lo % 0x100]
  }

  lemma Quotient(n: nat, unit: nat, q: nat, r: nat)
    requires unit in {0x100, 0x1_0000} && n == unit * q + r && r < unit
    ensures n / unit == q && n % unit == r
  {
  }

  // ---------------------------------------------------------------- round trip

  function Digit(d: nat): char
    requires d < 10
  {
    (d + '0' as int) as char
  }

  /** Decimal notation of a number of at most three digits. */
  function Decimal(n: nat): (s: string)
    requires n < 1000
    ensures 1 <= |s| <= 3 && forall c :: c in s ==> IsDigit(c)
  {
    if n < 10 then [Digit(n)]
    else if n < 100 then [Digit(n / 10), Digit(n % 10)]
    else [Digit(n / 100), Digit(n / 10 % 10), Digit(n % 10)]
  }

  /** Dotted decimal notation. */
  function Dotted(q: seq<nat>): string
    requires |q| > 0 && forall i :: 0 <= i < |q| ==> q[i] < 1000
  {
    if |q| == 1 then Decimal(q[0]) else Decimal(q[0]) + "." + Dotted(q[1..])
  }

  function LowBytes(q: seq<nat>): (s: seq<byte>)
    ensures |s| == |q| && forall i :: 0 <= i < |q| ==> s[i] == q[i] % 256
  {
    seq<byte>(|q|, i requires 0 <= i < |q| => q[i] % 256)
  }

  lemma LowBytesCons(q: seq<nat>)
    requires |q| > 0
    ensures LowBytes(q) == [q[0] % 256] + LowBytes(q[1..])
  {
  }

  lemma LowBytesOf(q: seq<byte>)
    ensures LowBytes(q) == q
  {
  }

  lemma AtolDecimal(n: nat)
    requires n < 1000
    ensures Atol(Decimal(n)) == n
  {
    assert Atol(Decimal(n)) == DigitsValue(Decimal(n), 0);
    hide DigitsValue, Atol;
    if n < 10 {
      DigitsStep(Decimal(n), 0, n);
    } else if n < 100 {
      TwoDigits(n / 10, n % 10, 0);
    } else {
      ThreeDigits(n / 100, n / 10 % 10, n % 10);
      assert n == 10 * (10 * (n / 100) + n / 10 % 10) + n % 10;
    }
  }

  lemma ThreeDigits(a: nat, b: nat, c: nat)
    requires a < 10 && b < 10 && c < 10
    ensures DigitsValue([Digit(a), Digit(b), Digit(c)], 0) == 10 * (10 * a + b) + c
  {
    hide DigitsValue;
    var s := [Digit(a), Digit(b), Digit(c)];
    DigitsStep(s, 0, a);
    assert s[1..] == [Digit(b), Digit(c)];
    TwoDigits(b, c, a);
  }

  lemma TwoDigits(tens: nat, ones: nat, acc: nat)
    requires tens < 10 && ones < 10
    ensures DigitsValue([Digit(tens), Digit(ones)], acc) == 10 * (10 * acc + tens) + ones
  {
    var s := [Digit(tens), Digit(ones)];
    DigitsStep(s, acc, tens);
    DigitsStep(s[1..], 10 * acc + tens, ones);
  }

  lemma DigitsStep(s: string, acc: nat, d: nat)
    requires d < 10 && s != "" && s[0] == Digit(d)
    ensures DigitsValue(s, acc) == DigitsValue(s[1..], 10 * acc + d)
    ensures |s| == 1 ==> DigitsValue(s, acc) == 10 * acc + d
  {
  }

  lemma {:induction false} DigitsFill(s: string, t: string, most: nat)
    requires |s| <= most && (forall c :: c in s ==> IsDigit(c)) && (t == "" || t[0] == '.')
    ensures FieldLength(s + t, most) == |s|
    decreases most
  {
    if s == "" {
      assert s + t == t;
    } else {
      assert (s + t)[0] in s && (s + t)[1..] == s[1..] + t;
      DigitsFill(s[1..], t, most - 1);
    }
  }

  /** inet_addr reads dotted decimal notation, of any numbers of up to three digits: each field yields its
      number modulo 256. */
  lemma {:induction false} DottedReadsBack(q: seq<nat>)
    requires |q| > 0 && forall i :: 0 <= i < |q| ==> q[i] < 1000
    ensures Fields(Dotted(q), |q|) == LowBytes(q)
    decreases |q|
  {
    hide Atol, Decimal, FieldLength, Fields, Rest, LowBytes;
    var d, s := Decimal(q[0]), Dotted(q);
    AtolDecimal(q[0]);
    if |q| == 1 {
      DigitsFill(d, "", 3);
      assert s == d + "" && s[..|d|] == d;
      NextField(s, |d|, 1);
      NoFields([]);
      LowBytesCons(q);
    } else {
      var t := "." + Dotted(q[1..]);
      DigitsFill(d, t, 3);
      assert s == d + t;
      assert s[..|d|] == d && s[|d| + 1..] == Dotted(q[1..]);
      NextField(s, |d|, |q|);
      DottedReadsBack(q[1..]);
      LowBytesCons(q);
    }
  }

  /** It inverts dotted-quad printing, for all octets. */
  lemma DottedQuadReadsBack(q: Quad)
    ensures Fields(Dotted(q), 4) == q
  {
    hide Fields, Dotted, LowBytes;
    DottedReadsBack(q);
    LowBytesOf(q);
  }
}
