/** The Internet checksum: the loop of src/net/checksum.c against RFC 1071 and RFC 1624. */
module InternetChecksum {
  import opened Machine

  // ---------------------------------------------------------------- reference definition

  /** One's complement addition of 16-bit words: the carry out of the top re-enters at the bottom. */
  function OcAdd(a: uint16, b: uint16): uint16 {
    if a + b > 0xFFFF then a + b - 0xFFFF else a + b
  }

  /** The one's complement sum of the words of `s`, as a little-endian machine reads them;
      an odd last byte is padded with zero (RFC 1071 section 1 and section 4.1). */
  function OcSum(s: seq<byte>): uint16 {
    if |s| == 0 then 0
    else if |s| == 1 then s[0]
    else OcAdd(Word(s[0], s[1]), OcSum(s[2..]))
  }

  /** The same sum with the words read in network order. */
  function OcSumBE(s: seq<byte>): uint16 {
    if |s| == 0 then 0
    else if |s| == 1 then Word(0, s[0])
    else OcAdd(Word(s[1], s[0]), OcSumBE(s[2..]))
  }

  function Checksum(s: seq<byte>): uint16 { 0xFFFF - OcSum(s) }

  function ChecksumBE(s: seq<byte>): uint16 { 0xFFFF - OcSumBE(s) }

  // ---------------------------------------------------------------- the loop

  /** The plain sum of the words: what the first loop accumulates. */
  function Sum(s: seq<byte>): nat {
    if |s| == 0 then 0
    else if |s| == 1 then s[0]
    else Word(s[0], s[1]) + Sum(s[2..])
  }

  /** The one's complement value of a plain sum: n modulo 65535, taken in 1..65535 unless n is 0. */
  function Canon(n: nat): uint16 {
    if n <= 0xFFFF then n else Canon(n - 0xFFFF)
  }

  /** src/net/checksum.c. */
  method InChecksum(buf: array<byte>, off: nat, count: uint16) returns (r: uint16)
    requires off + count <= buf.Length
    ensures r == Checksum(buf[off..off + count])
  {
    var sum: uint32 := 0;
    if count > 0 {
      sum := SumWords(buf, off, count);
      sum := Fold(sum);
    }
    ClosedForm(buf[off..off + count]);
    r := 0xFFFF - sum % 0x1_0000;
  }

  lemma SumNothing(s: seq<byte>)
    ensures Sum(s[..2 * 0]) == 0
  {
  }

  lemma NoWrap(sum: nat, w: uint16, k: nat, count: uint16)
    requires sum <= 0xFFFF * k && 2 * k < count
    ensures (sum + w) % 0x1_0000_0000 == sum + w <= 0xFFFF * (k + 1)
  {
  }

  /** The first loop of in_checksum and the left-over byte; the 32-bit accumulator is written with its
      wrap-around, which never happens for a 16-bit count. */
  method SumWords(buf: array<byte>, off: nat, count: uint16) returns (sum: uint32)
    requires off + count <= buf.Length
    ensures sum == Sum(buf[off..off + count])
  {
    hide Sum;
    ghost var region := buf[off..off + count];
    SumNothing(region);
    sum := 0;
    var ptr, n := off, count;
    ghost var k := 0;
    while n > 1
      invariant ptr == off + 2 * k && n == count - 2 * k
      invariant sum == Sum(region[..2 * k]) <= 0xFFFF * k
    {
      SumWord(region, k);
      assert WordAt(region, 2 * k) == Word(buf[ptr], buf[ptr + 1]);
      NoWrap(sum, Word(buf[ptr], buf[ptr + 1]), k, count);
      sum := (sum + Word(buf[ptr], buf[ptr + 1])) % 0x1_0000_0000;
      ptr, n, k := ptr + 2, n - 2, k + 1;
    }
    if n > 0 {
      SumLastByte(region);
      assert region[..2 * k] == region[..count - 1];
      NoWrap(sum, buf[ptr], k, count);
      sum := (sum + buf[ptr]) % 0x1_0000_0000;
    }
    assert region[..count] == region;
  }

  /** The second loop of in_checksum: fold the 32-bit sum to 16 bits. */
  method Fold(total: uint32) returns (sum: uint32)
    ensures sum == Canon(total)
  {
    sum := total;
    while sum / 0x1_0000 != 0
      invariant Canon(sum) == Canon(total)
      decreases sum
    {
      FoldStep(sum, sum % 0x1_0000, sum / 0x1_0000);
      sum := sum % 0x1_0000 + sum / 0x1_0000;
    }
  }

  /** One round of folding keeps the one's complement value and gets smaller. */
  lemma FoldStep(n: nat, low: nat, high: nat)
    requires n == low + 0x1_0000 * high && high > 0
    ensures Canon(low + high) == Canon(n)
    ensures low + high < n
  {
    var q := CanonQuotient(n);
    CanonIs(low + high, Canon(n), q - high);
  }

  lemma {:induction false} SumAppend(a: seq<byte>, b: seq<byte>)
    requires |a| % 2 == 0
    ensures Sum(a + b) == Sum(a) + Sum(b)
  {
    if |a| == 0 {
      assert a + b == b;
    } else {
      assert (a + b)[2..] == a[2..] + b;
      SumAppend(a[2..], b);
    }
  }

  lemma SumWord(s: seq<byte>, k: nat)
    requires 2 * k + 2 <= |s|
    ensures Sum(s[..2 * (k + 1)]) == Sum(s[..2 * k]) + WordAt(s, 2 * k)
  {
    var i := 2 * k;
    SumAppend(s[..i], s[i..i + 2]);
    assert s[..i] + s[i..i + 2] == s[..i + 2];
    assert Sum(s[i..i + 2]) == WordAt(s, i) + Sum(s[i..i + 2][2..]);
  }

  lemma SumLastByte(s: seq<byte>)
    requires |s| % 2 == 1
    ensures Sum(s) == Sum(s[..|s| - 1]) + s[|s| - 1]
  {
    var last := s[|s| - 1..];
    assert Sum(last) == s[|s| - 1] by { assert last == [s[|s| - 1]]; }
    hide Sum;
    SumAppend(s[..|s| - 1], last);
    assert s[..|s| - 1] + last == s;
  }

  // ---------------------------------------------------------------- one's complement values

  lemma {:induction false} CanonQuotient(n: nat) returns (q: nat)
    ensures n == Canon(n) + 0xFFFF * q
    ensures Canon(n) == 0 <==> n == 0
  {
    if n <= 0xFFFF {
      q := 0;
    } else {
      q := CanonQuotient(n - 0xFFFF);
      q := q + 1;
    }
  }

  lemma CanonIs(n: nat, c: int, q: int)
    requires n > 0 && n == c + 0xFFFF * q && 1 <= c <= 0xFFFF
    ensures Canon(n) == c
  {
    var p := CanonQuotient(n);
    assert c - Canon(n) == 0xFFFF * (p - q);
  }

  /** The fold loop's result in closed form. */
  lemma {:induction false} CanonClosed(n: nat)
    ensures Canon(n) == if n == 0 then 0 else (n - 1) % 0xFFFF + 1
    ensures Canon(n) == 0xFFFF <==> (n > 0 && n % 0xFFFF == 0)
  {
    if n > 0 {
      CanonIs(n, (n - 1) % 0xFFFF + 1, (n - 1) / 0xFFFF);
    }
  }

  lemma {:induction false} CanonAdd(n: nat, v: uint16)
    ensures Canon(n + v) == OcAdd(Canon(n), v)
  {
    if n + v > 0 {
      var q := CanonQuotient(n);
      CanonIs(n + v, OcAdd(Canon(n), v), if Canon(n) + v > 0xFFFF then q + 1 else q);
    }
  }

  /** Deferring the carries gives the one's complement sum (RFC 1071 section 2). */
  lemma {:induction false} ClosedForm(s: seq<byte>)
    ensures OcSum(s) == Canon(Sum(s))
  {
    if |s| > 1 {
      ClosedForm(s[2..]);
      CanonAdd(Sum(s[2..]), Word(s[0], s[1]));
    }
  }

  // ---------------------------------------------------------------- byte order

  function SumBE(s: seq<byte>): nat {
    if |s| == 0 then 0
    else if |s| == 1 then Word(0, s[0])
    else Word(s[1], s[0]) + SumBE(s[2..])
  }

  /** The sum of the high bytes: what separates the two readings of a buffer. */
  function HighSum(s: seq<byte>): nat {
    if |s| <= 1 then 0 else s[1] + HighSum(s[2..])
  }

  lemma {:induction false} ReadingsDiffer(s: seq<byte>)
    ensures SumBE(s) == 0x100 * Sum(s) - 0xFFFF * HighSum(s)
    ensures OcSumBE(s) == Canon(SumBE(s))
    ensures SumBE(s) == 0 <==> Sum(s) == 0
  {
    if |s| > 1 {
      ReadingsDiffer(s[2..]);
      CanonAdd(SumBE(s[2..]), Word(s[1], s[0]));
    }
  }

  lemma SplitWord(w: uint16) returns (lo: byte, hi: byte)
    ensures w == Word(lo, hi)
    ensures Swap(0xFFFF - w) == 0xFFFF - Word(hi, lo)
  {
    lo, hi := w % 0x100, w / 0x100;
    SwapWord(0xFF - lo, 0xFF - hi);
  }

  /** Byte-order independence (RFC 1071 section 2(B)), for every length, odd included. */
  lemma ByteOrderIndependence(s: seq<byte>)
    ensures ChecksumBE(s) == Swap(Checksum(s))
  {
    assert OcSumBE(s) == Canon(SumBE(s)) by { ReadingsDiffer(s); }
    var w := OcSum(s);
    assert w == Canon(Sum(s)) by { ClosedForm(s); }
    var lo, hi := SplitWord(w);
    assert Canon(SumBE(s)) == Word(hi, lo) by {
      ReadingsDiffer(s);
      SwappedCanon(Sum(s), SumBE(s), HighSum(s), lo, hi);
    }
  }

  lemma SwappedCanon(n: nat, big: nat, h: nat, lo: byte, hi: byte)
    requires big == 0x100 * n - 0xFFFF * h && (big == 0 <==> n == 0)
    requires Canon(n) == Word(lo, hi)
    ensures Canon(big) == Word(hi, lo)
  {
    var q := CanonQuotient(n);
    if n > 0 {
      CanonIs(big, Word(hi, lo), 0x100 * q - h + hi);
    }
  }

  // ---------------------------------------------------------------- verifying a stored checksum

  /** A buffer passes the receiver's test exactly when its sum is a positive multiple of 65535. */
  lemma PassesIff(s: seq<byte>)
    ensures Checksum(s) == 0 <==> Canon(Sum(s)) == 0xFFFF
    ensures Checksum(s) == 0 <==> (Sum(s) > 0 && Sum(s) % 0xFFFF == 0)
  {
    ClosedForm(s);
    CanonClosed(Sum(s));
  }

  lemma SumReplace(s: seq<byte>, k: nat, v: uint16)
    requires k % 2 == 0 && k + 2 <= |s|
    ensures WordAt(s, k) <= Sum(s)
    ensures Sum(Splice(s, k, Bytes16(v))) == Sum(s) - WordAt(s, k) + v
  {
    var t := Splice(s, k, Bytes16(v));
    SumAround(s, k);
    SumAround(t, k);
    Halves(v);
    hide Sum, Word, Bytes16;
    assert t[k] == Bytes16(v)[0] && t[k + 1] == Bytes16(v)[1];
    assert t[..k] == s[..k] && t[k + 2..] == s[k + 2..];
  }

  lemma SumAround(s: seq<byte>, k: nat)
    requires k % 2 == 0 && k + 2 <= |s|
    ensures Sum(s) == Sum(s[..k]) + WordAt(s, k) + Sum(s[k + 2..])
  {
    SumAppend(s[..k], s[k..]);
    assert s[..k] + s[k..] == s;
    assert s[k..][2..] == s[k + 2..];
  }

  /** The values of an aligned checksum field that make a buffer pass: the checksum computed with the
      field zeroed, and 0xFFFF where that is 0. */
  lemma FieldPassesIff(s: seq<byte>, k: nat, v: uint16)
    requires k % 2 == 0 && k + 2 <= |s| && WordAt(s, k) == 0
    ensures Checksum(Splice(s, k, Bytes16(v))) == 0 <==>
      (v == Checksum(s) || (Checksum(s) == 0 && v == 0xFFFF))
  {
    SumReplace(s, k, v);
    PassesIff(Splice(s, k, Bytes16(v)));
    ClosedForm(s);
    CanonAdd(Sum(s), v);
  }

  /** Insert-then-verify: storing the checksum computed over the zeroed field makes the test pass,
      whatever the data. */
  lemma InsertedChecksumPasses(s: seq<byte>, k: nat)
    requires k % 2 == 0 && k + 2 <= |s| && WordAt(s, k) == 0
    ensures Checksum(Splice(s, k, Bytes16(Checksum(s)))) == 0
  {
    FieldPassesIff(s, k, Checksum(s));
  }

  /** A passing buffer with one aligned word overwritten still passes exactly when the word is unchanged,
      or went between 0x0000 and 0xFFFF while some other word is non-zero. */
  lemma SingleWordErrors(s: seq<byte>, k: nat, v: uint16)
    requires k % 2 == 0 && k + 2 <= |s| && Checksum(s) == 0
    ensures Checksum(Splice(s, k, Bytes16(v))) == 0 <==>
      (|| v == WordAt(s, k)
       || (Sum(s) > WordAt(s, k) && Zeros(WordAt(s, k), v)))
  {
    hide Checksum, Sum, Splice, Canon, Zeros;
    PassesIff(s);
    SumReplace(s, k, v);
    PassesIff(Splice(s, k, Bytes16(v)));
    OtherPassingWords(Sum(s) - WordAt(s, k), WordAt(s, k), v);
  }

  lemma OtherPassingWords(rest: nat, m: uint16, v: uint16)
    requires Canon(rest + m) == 0xFFFF
    ensures Canon(rest + v) == 0xFFFF <==> (v == m || (rest > 0 && Zeros(m, v)))
  {
    CanonAdd(rest, m);
    CanonAdd(rest, v);
    var q := CanonQuotient(rest);
  }

  lemma SpliceWithin(s: seq<byte>, off: nat, n: nat, k: nat, bytes: seq<byte>)
    requires off + n <= |s| && k + |bytes| <= n
    ensures Splice(s, off + k, bytes)[off..off + n] == Splice(s[off..off + n], k, bytes)
  {
  }

  /** `x->chks = 0; x->chks = in_checksum(x, count);` for a structure at `off` with its field at k. A count
      that reaches past the buffer reads foreign memory, so the value stored is then arbitrary. */
  method SetChecksum(buf: array<byte>, off: nat, count: uint16, k: nat) returns (chks: uint16)
    requires off + k + 2 <= buf.Length && k % 2 == 0
    modifies buf
    ensures buf[..] == Splice(old(buf[..]), off + k, Bytes16(chks))
    ensures off + count <= buf.Length && k + 2 <= count ==>
      && chks == Checksum(Splice(old(buf[off..off + count]), k, [0, 0]))
      && Checksum(buf[off..off + count]) == 0
  {
    ghost var was := buf[..];
    Store(buf, off + k, Bytes16(0));
    ghost var zeroed := buf[..];
    chks := ChecksumOrForeign(buf, off, count);
    Store(buf, off + k, Bytes16(chks));
    assert buf[..] == Splice(was, off + k, Bytes16(chks));
    if off + count <= buf.Length && k + 2 <= count {
      SpliceWithin(was, off, count, k, Bytes16(0));
      SpliceWithin(zeroed, off, count, k, Bytes16(chks));
      assert WordAt(zeroed[off..off + count], k) == 0;
      InsertedChecksumPasses(zeroed[off..off + count], k);
    }
  }

  /** in_checksum on a region whose length came from the wire. */
  method ChecksumOrForeign(buf: array<byte>, off: nat, count: uint16) returns (r: uint16)
    ensures off + count <= buf.Length ==> r == Checksum(buf[off..off + count])
  {
    if off + count <= buf.Length {
      r := InChecksum(buf, off, count);
    } else {
      r := *;
    }
  }

  // ---------------------------------------------------------------- incremental update

  /** RFC 1624 section 3, equation 3: the checksum after a word changes from m to v. */
  function Eqn3(hc: uint16, m: uint16, v: uint16): uint16 {
    0xFFFF - OcAdd(OcAdd(0xFFFF - hc, 0xFFFF - m), v)
  }

  /** The two zeros of one's complement arithmetic. */
  predicate Zeros(a: uint16, b: uint16) {
    (a == 0 && b == 0xFFFF) || (a == 0xFFFF && b == 0)
  }

  /** Equal one's complement values: congruent modulo 65535, so 0x0000 and 0xFFFF agree. */
  predicate SameValue(a: uint16, b: uint16) {
    a == b || Zeros(a, b)
  }

  /** Recomputing a checksum from scratch against the RFC 1624 update. The buffer passed with checksum
      field `hc` and word `m`, `rest` is the sum of everything else, and `m` becomes `v`. */
  lemma RecomputeIsIncremental(rest: nat, hc: uint16, m: uint16, v: uint16)
    requires Canon(rest + m + hc) == 0xFFFF
    ensures SameValue(0xFFFF - Canon(rest + v), Eqn3(hc, m, v))
    ensures 0xFFFF - Canon(rest + v) == Eqn3(hc, m, v) <==>
      (rest + v == 0 <==> (hc == 0xFFFF && m == 0xFFFF && v == 0))
  {
    CanonAdd(rest + m, hc);
    CanonAdd(rest, m);
    CanonAdd(rest, v);
    var q := CanonQuotient(rest);
    UpdateCases(Canon(rest), hc, m, v);
  }

  lemma UpdateCases(b: uint16, hc: uint16, m: uint16, v: uint16)
    requires OcAdd(OcAdd(b, m), hc) == 0xFFFF
    ensures SameValue(0xFFFF - OcAdd(b, v), Eqn3(hc, m, v))
    ensures 0xFFFF - OcAdd(b, v) == Eqn3(hc, m, v) <==>
      (b + v == 0 <==> (hc == 0xFFFF && m == 0xFFFF && v == 0))
  {
  }
}
