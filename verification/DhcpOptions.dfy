/** DHCP options: the parser that dhcp_recv runs twice over the same bytes, and the writer
    dhcp_options_init (src/net/ipconfig.c, RFC 2132). */
module DhcpOptions {
  import opened Machine

  const DISCOVER: byte := 1
  const OFFER: byte := 2
  const REQUEST: byte := 3
  const ACK: byte := 5

  const OPT_PAD: byte := 0
  const OPT_SMASK: byte := 1
  const OPT_ROUTER: byte := 3
  const OPT_DNS: byte := 6
  const OPT_HNAME: byte := 12
  const OPT_DNAME: byte := 15
  const OPT_REQIP: byte := 50
  const OPT_MT: byte := 53
  const OPT_SRVID: byte := 54
  const OPT_PRLIST: byte := 55
  const OPT_END: byte := 0xFF

  const COOKIE: Quad := [99, 130, 83, 99]

  /** "bosduino", with its terminating NUL, which the source sends too. */
  const HOST_NAME: seq<byte> := [98, 111, 115, 100, 117, 105, 110, 111, 0]

  // ---------------------------------------------------------------- memory

  /** What a read at offset i from the start of a packet returns. A packet is any sequence of bytes, as
      long as one likes: nothing is assumed of what follows the bytes that were received. */
  function At(p: seq<byte>, i: nat): byte { if i < |p| then p[i] else 0 }

  function Slice(p: seq<byte>, off: nat, n: nat): (s: seq<byte>)
    ensures |s| == n
    ensures forall i {:trigger s[i]} :: 0 <= i < n ==> s[i] == At(p, off + i)
    ensures off + n <= |p| ==> s == p[off..off + n]
  {
    seq<byte>(n, i requires 0 <= i < n => At(p, off + i))
  }

  // ---------------------------------------------------------------- the parser

  /** An option the loops look at: its code and data, and where its data starts. */
  datatype Visit = Visit(code: byte, data: seq<byte>, pos: nat)

  /** The options visited from cursor i on, in order. An option is visited only if it ends before `end`. */
  function Scan(p: seq<byte>, i: nat, end: nat): seq<Visit>
    decreases end - i
  {
    if i >= end || At(p, i) == OPT_END then []
    else if At(p, i) == OPT_PAD then Scan(p, i + 1, end)
    else
      var next := i + 2 + At(p, i + 1);
      if next >= end then []
      else [Visit(At(p, i), Slice(p, i + 2, At(p, i + 1)), i + 2)] + Scan(p, next, end)
  }

  /** The last visit that satisfies `code` and carries at least `least` bytes. */
  function Last(vs: seq<Visit>, code: byte, least: nat): (r: Option<Visit>)
    ensures r.Some? ==> r.value in vs && r.value.code == code && |r.value.data| >= least
  {
    if vs == [] then None
    else if Last(vs[1..], code, least).Some? then Last(vs[1..], code, least)
    else if vs[0].code == code && |vs[0].data| >= least then Some(vs[0])
    else None
  }

  /** The message type the first loop extracts; None is the case in which the source's variable stays
      uninitialised. */
  function MessageType(vs: seq<Visit>): Option<byte> {
    match Last(vs, OPT_MT, 1)
    case None => None
    case Some(v) => Some(v.data[0])
  }

  function ServerId(vs: seq<Visit>): Quad {
    match Last(vs, OPT_SRVID, 4)
    case None => NONE
    case Some(v) => v.data[..4]
  }

  /** What the second loop copies for `code`: four bytes from where the data starts, however long the
      option is. */
  function Address(p: seq<byte>, vs: seq<Visit>, code: byte, otherwise: Quad): Quad {
    match Last(vs, code, 0)
    case None => otherwise
    case Some(v) => Slice(p, v.pos, 4)
  }

  /** The first loop of dhcp_recv. */
  method ParseReply(p: seq<byte>, start: nat, end: nat) returns (msgType: Option<byte>, srvId: Quad)
    ensures msgType == MessageType(Scan(p, start, end))
    ensures srvId == ServerId(Scan(p, start, end))
  {
    msgType, srvId := None, NONE;
    var optP := start;
    ghost var seen := [];
    while optP < end && At(p, optP) != OPT_END
      invariant Scan(p, start, end) == seen + Scan(p, optP, end)
      invariant msgType == MessageType(seen) && srvId == ServerId(seen)
      decreases end - optP
    {
      var opt := optP;
      optP := optP + 1;
      if At(p, opt) == OPT_PAD {
        continue;
      }
      optP := optP + At(p, optP) + 1;
      if optP >= end {
        assert seen + [] == seen;
        return;
      }
      ghost var v := Visit(At(p, opt), Slice(p, opt + 2, At(p, opt + 1)), opt + 2);
      LastSnoc(seen, v, OPT_MT, 1);
      LastSnoc(seen, v, OPT_SRVID, 4);
      if At(p, opt) == OPT_MT {
        if At(p, opt + 1) != 0 {
          msgType := Some(At(p, opt + 2));
        }
      } else if At(p, opt) == OPT_SRVID {
        if At(p, opt + 1) >= 4 {
          srvId := Slice(p, opt + 2, 4);
        }
      }
      seen := seen + [v];
    }
    assert seen + [] == seen;
  }

  /** The second loop of dhcp_recv. */
  method ParseAddresses(p: seq<byte>, start: nat, end: nat, mask0: Quad, gateway0: Quad, dns0: Quad)
    returns (mask: Quad, gateway: Quad, dns: Quad)
    ensures mask == Address(p, Scan(p, start, end), OPT_SMASK, mask0)
    ensures gateway == Address(p, Scan(p, start, end), OPT_ROUTER, gateway0)
    ensures dns == Address(p, Scan(p, start, end), OPT_DNS, dns0)
  {
    mask, gateway, dns := mask0, gateway0, dns0;
    var optP := start;
    ghost var seen := [];
    while optP < end && At(p, optP) != OPT_END
      invariant Scan(p, start, end) == seen + Scan(p, optP, end)
      invariant mask == Address(p, seen, OPT_SMASK, mask0)
      invariant gateway == Address(p, seen, OPT_ROUTER, gateway0)
      invariant dns == Address(p, seen, OPT_DNS, dns0)
      decreases end - optP
    {
      var opt := optP;
      optP := optP + 1;
      if At(p, opt) == OPT_PAD {
        continue;
      }
      optP := optP + At(p, optP) + 1;
      if optP >= end {
        assert seen + [] == seen;
        return;
      }
      ghost var v := Visit(At(p, opt), Slice(p, opt + 2, At(p, opt + 1)), opt + 2);
      LastSnoc(seen, v, OPT_SMASK, 0);
      LastSnoc(seen, v, OPT_ROUTER, 0);
      LastSnoc(seen, v, OPT_DNS, 0);
      if At(p, opt) == OPT_SMASK {
        mask := Slice(p, opt + 2, 4);
      } else if At(p, opt) == OPT_ROUTER {
        gateway := Slice(p, opt + 2, 4);
      } else if At(p, opt) == OPT_DNS {
        dns := Slice(p, opt + 2, 4);
      }
      seen := seen + [v];
    }
    assert seen + [] == seen;
  }

  lemma {:induction false} LastSnoc(vs: seq<Visit>, v: Visit, code: byte, least: nat)
    ensures Last(vs + [v], code, least)
         == if v.code == code && |v.data| >= least then Some(v) else Last(vs, code, least)
  {
    if vs == [] {
      assert ([v])[1..] == [];
    } else {
      assert (vs + [v])[1..] == vs[1..] + [v];
      LastSnoc(vs[1..], v, code, least);
    }
  }

  // ---------------------------------------------------------------- the format

  datatype Item = Pad | Item(code: byte, data: seq<byte>)

  predicate ValidItem(item: Item) {
    item.Pad? || (OPT_PAD < item.code < OPT_END && |item.data| <= 255)
  }

  predicate ValidItems(items: seq<Item>) {
    forall i :: 0 <= i < |items| ==> ValidItem(items[i])
  }

  function EncodeItem(item: Item): seq<byte>
    requires ValidItem(item)
  {
    if item.Pad? then [OPT_PAD] else [item.code, |item.data|] + item.data
  }

  /** RFC 2132 section 2: the bytes of a list of options, without the END mark. */
  function Encode(items: seq<Item>): seq<byte>
    requires ValidItems(items)
  {
    if items == [] then [] else EncodeItem(items[0]) + Encode(items[1..])
  }

  /** The visits a correct parser makes of `items` when they start at offset i. */
  function Visits(items: seq<Item>, i: nat): seq<Visit>
    requires ValidItems(items)
  {
    if items == [] then []
    else if items[0].Pad? then Visits(items[1..], i + 1)
    else [Visit(items[0].code, items[0].data, i + 2)] + Visits(items[1..], i + 2 + |items[0].data|)
  }

  /** The data of the last item with `code` and at least `least` bytes. */
  function LastData(items: seq<Item>, code: byte, least: nat): (r: Option<seq<byte>>)
    ensures r.Some? ==> |r.value| >= least
  {
    if items == [] then None
    else if LastData(items[1..], code, least).Some? then LastData(items[1..], code, least)
    else if items[0].Item? && items[0].code == code && |items[0].data| >= least then Some(items[0].data)
    else None
  }

  /** `bytes` lie in p from offset i on. */
  predicate Holds(p: seq<byte>, i: nat, bytes: seq<byte>) {
    forall j {:trigger bytes[j]} :: 0 <= j < |bytes| ==> At(p, i + j) == bytes[j]
  }

  lemma HoldsSplit(p: seq<byte>, i: nat, a: seq<byte>, b: seq<byte>)
    requires Holds(p, i, a + b)
    ensures Holds(p, i, a) && Holds(p, i + |a|, b)
  {
    assert forall j {:trigger a[j]} :: 0 <= j < |a| ==> a[j] == (a + b)[j];
    assert forall j {:trigger b[j]} :: 0 <= j < |b| ==> b[j] == (a + b)[|a| + j];
  }

  /** What the parser does at the start of one encoded item. */
  lemma ScanItem(p: seq<byte>, i: nat, end: nat, item: Item)
    requires ValidItem(item) && Holds(p, i, EncodeItem(item)) && i < end
    ensures var next := i + |EncodeItem(item)|;
      Scan(p, i, end) ==
        if item.Pad? then Scan(p, next, end)
        else if next >= end then []
        else [Visit(item.code, item.data, i + 2)] + Scan(p, next, end)
    ensures |EncodeItem(item)| == if item.Pad? then 1 else 2 + |item.data|
  {
    var e := EncodeItem(item);
    assert At(p, i + 0) == e[0];
    if item.Item? {
      assert At(p, i + 1) == e[1] == |item.data|;
      var d := Slice(p, i + 2, |item.data|);
      assert d == item.data by {
        assert forall j :: 0 <= j < |d| ==> d[j] == At(p, i + (2 + j)) && e[2 + j] == item.data[j];
      }
    }
  }

  /** The parser reads back every list of options that an END mark closes before `end`, whatever pads lie
      between them and whatever follows. */
  lemma {:induction false} ScanEncoded(p: seq<byte>, i: nat, end: nat, items: seq<Item>)
    requires ValidItems(items) && Holds(p, i, Encode(items) + [OPT_END])
    requires i + |Encode(items)| < end
    ensures Scan(p, i, end) == Visits(items, i)
    decreases |items|
  {
    hide Scan, Holds, EncodeItem, At, Slice;
    if items == [] {
      assert [] + [OPT_END] == [OPT_END];
      ScanEndMark(p, i, end);
    } else {
      var first, rest := EncodeItem(items[0]), Encode(items[1..]);
      assert first + rest + [OPT_END] == first + (rest + [OPT_END]);
      HoldsSplit(p, i, first, rest + [OPT_END]);
      ScanItem(p, i, end, items[0]);
      ScanEncoded(p, i + |first|, end, items[1..]);
    }
  }

  /** The items that are read when no END mark follows: all of them, less a last option that is not
      followed by a pad. */
  function Terminated(items: seq<Item>): (r: seq<Item>)
    ensures ValidItems(items) ==> ValidItems(r)
  {
    if items != [] && items[|items| - 1].Item? then items[..|items| - 1] else items
  }

  /** Without an END mark before `end`, a list that fills the space exactly loses its last option, and
      nothing else; it is read back in full exactly when it ends in a pad. */
  lemma {:induction false} UnterminatedScan(p: seq<byte>, i: nat, end: nat, items: seq<Item>)
    requires ValidItems(items) && Holds(p, i, Encode(items))
    requires i + |Encode(items)| == end
    ensures Scan(p, i, end) == Visits(Terminated(items), i)
    decreases |items|
  {
    hide Scan, Holds, EncodeItem, At, Slice;
    if items == [] {
      ScanNothing(p, end);
    } else {
      var first, rest := EncodeItem(items[0]), items[1..];
      HoldsSplit(p, i, first, Encode(rest));
      EncodeNonEmpty(items);
      ScanItem(p, i, end, items[0]);
      UnterminatedScan(p, i + |first|, end, rest);
      if rest == [] {
        ScanNothing(p, end);
        assert Terminated(items) == if items[0].Pad? then items else [];
        assert Visits(rest, end) == [];
      } else {
        EncodeNonEmpty(rest);
        VisitsOfKept(items, i);
      }
    }
  }

  lemma VisitsOfKept(items: seq<Item>, i: nat)
    requires ValidItems(items) && |items| > 1
    ensures Visits(Terminated(items), i) ==
      (if items[0].Pad? then [] else [Visit(items[0].code, items[0].data, i + 2)])
      + Visits(Terminated(items[1..]), i + |EncodeItem(items[0])|)
  {
    var kept := Terminated(items);
    assert kept[0] == items[0] && kept[1..] == Terminated(items[1..]);
  }

  lemma ScanEndMark(p: seq<byte>, i: nat, end: nat)
    requires Holds(p, i, [OPT_END])
    ensures Scan(p, i, end) == []
  {
    assert At(p, i + 0) == [OPT_END][0];
  }

  lemma ScanNothing(p: seq<byte>, end: nat)
    ensures Scan(p, end, end) == []
  {
  }

  lemma EncodeNonEmpty(items: seq<Item>)
    requires ValidItems(items) && items != []
    ensures |Encode(items)| > 0
  {
  }

  lemma {:induction false} LastOfVisits(items: seq<Item>, i: nat, code: byte, least: nat)
    requires ValidItems(items)
    ensures var v, d := Last(Visits(items, i), code, least), LastData(items, code, least);
      (v.Some? <==> d.Some?) && (v.Some? ==> v.value.data == d.value)
  {
    if items != [] {
      LastOfVisits(items[1..], i + |EncodeItem(items[0])|, code, least);
      if items[0].Item? {
        LastCons(Visit(items[0].code, items[0].data, i + 2), Visits(items[1..], i + 2 + |items[0].data|), code, least);
        hide Last;
      }
    }
  }

  lemma LastCons(v: Visit, vs: seq<Visit>, code: byte, least: nat)
    ensures Last([v] + vs, code, least) ==
      if Last(vs, code, least).Some? then Last(vs, code, least)
      else if v.code == code && |v.data| >= least then Some(v) else None
  {
    assert ([v] + vs)[1..] == vs;
  }

  /** Where the data of the last item with `code` starts when the list starts at offset i, and that data. */
  function LastPlace(items: seq<Item>, i: nat, code: byte): Option<(nat, seq<byte>)>
    requires ValidItems(items)
  {
    if items == [] then None
    else
      var later := LastPlace(items[1..], i + |EncodeItem(items[0])|, code);
      if later.Some? then later
      else if items[0].Item? && items[0].code == code then Some((i + 2, items[0].data))
      else None
  }

  lemma {:induction false} LastPlaceOfVisits(items: seq<Item>, i: nat, code: byte)
    requires ValidItems(items)
    ensures var v, place := Last(Visits(items, i), code, 0), LastPlace(items, i, code);
      (v.Some? <==> place.Some?) && (v.Some? ==> place.value == (v.value.pos, v.value.data))
  {
    if items != [] {
      LastPlaceOfVisits(items[1..], i + |EncodeItem(items[0])|, code);
      if items[0].Item? {
        LastCons(Visit(items[0].code, items[0].data, i + 2), Visits(items[1..], i + 2 + |items[0].data|), code, 0);
        hide Last;
      }
    }
  }

  /** What the two loops extract from an encoded list: the last message type with data, the last server
      identifier of at least four bytes, and, for an address option, the four bytes of memory from where
      the data of the last one starts. They are its own leading bytes if it has that many; a shorter one is
      completed by what follows it in the message. */
  lemma ParseEncoded(p: seq<byte>, i: nat, end: nat, items: seq<Item>)
    requires ValidItems(items) && Holds(p, i, Encode(items) + [OPT_END])
    requires i + |Encode(items)| < end
    ensures var vs, mt, id := Scan(p, i, end), LastData(items, OPT_MT, 1), LastData(items, OPT_SRVID, 4);
      && MessageType(vs) == (if mt.Some? then Some(mt.value[0]) else None)
      && ServerId(vs) == (if id.Some? then id.value[..4] else NONE)
    ensures forall code, other: Quad {:trigger Address(p, Scan(p, i, end), code, other)} ::
      match LastPlace(items, i, code)
      case None => Address(p, Scan(p, i, end), code, other) == other
      case Some((pos, data)) =>
        && Address(p, Scan(p, i, end), code, other) == Slice(p, pos, 4)
        && data == Slice(p, pos, |data|)
        && (|data| >= 4 ==> Address(p, Scan(p, i, end), code, other) == data[..4])
  {
    ScanEncoded(p, i, end, items);
    LastOfVisits(items, i, OPT_MT, 1);
    LastOfVisits(items, i, OPT_SRVID, 4);
    forall code, other: Quad {:trigger Address(p, Scan(p, i, end), code, other)}
      ensures match LastPlace(items, i, code)
        case None => Address(p, Scan(p, i, end), code, other) == other
        case Some((pos, data)) =>
          && Address(p, Scan(p, i, end), code, other) == Slice(p, pos, 4)
          && data == Slice(p, pos, |data|)
          && (|data| >= 4 ==> Address(p, Scan(p, i, end), code, other) == data[..4])
    {
      LastPlaceOfVisits(items, i, code);
      VisitsCarryMemory(p, i, end);
    }
  }

  /** A visit's data is what memory holds where it starts. */
  lemma {:induction false} VisitsCarryMemory(p: seq<byte>, i: nat, end: nat)
    ensures forall v :: v in Scan(p, i, end) ==> v.data == Slice(p, v.pos, |v.data|)
    decreases end - i
  {
    if i < end && At(p, i) != OPT_END {
      VisitsCarryMemory(p, if At(p, i) == OPT_PAD then i + 1 else i + 2 + At(p, i + 1), end);
    }
  }

  // ---------------------------------------------------------------- the writer

  const NAME_ITEM: Item := Item(OPT_HNAME, HOST_NAME)
  const LIST_ITEM: Item := Item(OPT_PRLIST, [OPT_SMASK, OPT_ROUTER, OPT_DNS, OPT_DNAME])

  /** Those that depend on the state. */
  function Leading(msgType: byte, server: Quad, addr: Quad): (items: seq<Item>)
    ensures ValidItems(items)
  {
    if msgType == REQUEST then [Item(OPT_MT, [msgType])] + [Item(OPT_SRVID, server)] + [Item(OPT_REQIP, addr)]
    else [Item(OPT_MT, [msgType])]
  }

  /** The options of the client's messages: a REQUEST names a server and an address (RFC 2131
      section 4.3.2), a DISCOVER does not. */
  function MessageItems(msgType: byte, server: Quad, addr: Quad): (items: seq<Item>)
    ensures ValidItems(items)
  {
    Leading(msgType, server, addr) + [NAME_ITEM] + [LIST_ITEM]
  }

  /** The options field: magic cookie, options, END mark; it fits the 312 bytes reserved for it. */
  function MessageBytes(msgType: byte, server: Quad, addr: Quad): (bytes: seq<byte>)
    ensures |bytes| <= 312
  {
    MessageSize(msgType, server, addr);
    COOKIE + Encode(MessageItems(msgType, server, addr)) + [OPT_END]
  }

  lemma Regroup(a: seq<byte>, b: seq<byte>, c: seq<byte>)
    ensures a + (b + c) == (a + b) + c
  {
  }

  lemma {:induction false} EncodeSnoc(items: seq<Item>, x: Item)
    requires ValidItems(items) && ValidItem(x)
    ensures ValidItems(items + [x]) && Encode(items + [x]) == Encode(items) + EncodeItem(x)
  {
    hide EncodeItem, ValidItem;
    var all := items + [x];
    assert ValidItems(all) && all[0] == (if items == [] then x else items[0]);
    if items == [] {
      assert all[1..] == [];
      assert EncodeItem(x) + [] == [] + EncodeItem(x);
    } else {
      assert all[1..] == items[1..] + [x];
      EncodeSnoc(items[1..], x);
      Regroup(EncodeItem(items[0]), Encode(items[1..]), EncodeItem(x));
    }
  }

  lemma {:induction false} LastDataSnoc(items: seq<Item>, x: Item, code: byte, least: nat)
    ensures LastData(items + [x], code, least)
         == if x.Item? && x.code == code && |x.data| >= least then Some(x.data) else LastData(items, code, least)
  {
    if items == [] {
      assert [x][1..] == [] && [] + [x] == [x];
    } else {
      assert (items + [x])[1..] == items[1..] + [x];
      LastDataSnoc(items[1..], x, code, least);
    }
  }

  lemma MessageSize(msgType: byte, server: Quad, addr: Quad)
    ensures |Encode(MessageItems(msgType, server, addr))| == if msgType == REQUEST then 32 else 20
  {
    hide Encode, EncodeItem;
    var items := [Item(OPT_MT, [msgType])];
    EncodeSnoc([], Item(OPT_MT, [msgType]));
    assert [] + items == items && |Encode([])| == 0 by { EncodeNothing(); }
    ItemSize(items[0]);
    ItemSize(NAME_ITEM);
    ItemSize(LIST_ITEM);
    if msgType == REQUEST {
      ItemSize(Item(OPT_SRVID, server));
      ItemSize(Item(OPT_REQIP, addr));
      EncodeSnoc(items, Item(OPT_SRVID, server));
      EncodeSnoc(items + [Item(OPT_SRVID, server)], Item(OPT_REQIP, addr));
      items := items + [Item(OPT_SRVID, server)] + [Item(OPT_REQIP, addr)];
    }
    EncodeSnoc(items, NAME_ITEM);
    EncodeSnoc(items + [NAME_ITEM], LIST_ITEM);
  }

  lemma EncodeNothing()
    ensures Encode([]) == []
  {
  }

  lemma ItemSize(x: Item)
    requires ValidItem(x) && x.Item?
    ensures |EncodeItem(x)| == 2 + |x.data|
  {
  }

  /** The `*opt++ = ...` and memcpy steps that write one option behind those already there. */
  method EmitItem(buf: array<byte>, opt: nat, code: byte, data: seq<byte>,
                  ghost was: seq<byte>, ghost done: seq<Item>) returns (next: nat)
    requires ValidItems(done) && ValidItem(Item(code, data))
    requires opt + 2 + |data| <= buf.Length == |was| && 4 + |Encode(done)| == opt
    requires buf[..] == Splice(was, 0, COOKIE + Encode(done))
    modifies buf
    ensures next == opt + 2 + |data| && 4 + |Encode(done + [Item(code, data)])| == next
    ensures ValidItems(done + [Item(code, data)])
    ensures buf[..] == Splice(was, 0, COOKIE + Encode(done + [Item(code, data)]))
  {
    hide Splice, Encode;
    var bytes := [code, |data|] + data;
    Store(buf, opt, bytes);
    next := opt + 2 + |data|;
    ghost var x := Item(code, data);
    EncodeSnoc(done, x);
    assert bytes == EncodeItem(x);
    SpliceNext(was, COOKIE + Encode(done), EncodeItem(x));
    assert COOKIE + Encode(done) + EncodeItem(x) == COOKIE + Encode(done + [x]);
  }

  lemma SpliceNext(s: seq<byte>, a: seq<byte>, b: seq<byte>)
    requires |a| + |b| <= |s|
    ensures Splice(Splice(s, 0, a), |a|, b) == Splice(s, 0, a + b)
  {
  }

  /** The message byte by byte: cookie, options 53, 54 and 50 (the latter two in a REQUEST only), 12 and 55,
      END mark. */
  lemma MessageInNumbers(server: Quad, addr: Quad)
    ensures MessageBytes(1, server, addr) ==
      [99, 130, 83, 99] + [53, 1, 1]
      + [12, 9, 98, 111, 115, 100, 117, 105, 110, 111, 0] + [55, 4, 1, 3, 6, 15] + [255]
    ensures MessageBytes(3, server, addr) ==
      [99, 130, 83, 99] + [53, 1, 3] + ([54, 4] + server) + ([50, 4] + addr)
      + [12, 9, 98, 111, 115, 100, 117, 105, 110, 111, 0] + [55, 4, 1, 3, 6, 15] + [255]
  {
    hide Encode;
    var none, discover, request := [], [Item(OPT_MT, [1])], [Item(OPT_MT, [3])];
    EncodeNothing();
    EncodeSnoc(none, discover[0]);
    EncodeSnoc(none, request[0]);
    assert none + discover == discover && none + request == request;
    assert COOKIE + ([] + EncodeItem(discover[0])) == [99, 130, 83, 99] + [53, 1, 1];
    Tail(discover, [99, 130, 83, 99] + [53, 1, 1]);
    EncodeSnoc(request, Item(OPT_SRVID, server));
    EncodeSnoc(request + [Item(OPT_SRVID, server)], Item(OPT_REQIP, addr));
    var front := [99, 130, 83, 99] + [53, 1, 3];
    assert COOKIE + ([] + EncodeItem(request[0])) == front;
    AppendTwo(COOKIE, Encode(request), [54, 4] + server, [50, 4] + addr);
    Tail(Leading(3, server, addr), front + ([54, 4] + server) + ([50, 4] + addr));
  }

  lemma AppendTwo(a: seq<byte>, b: seq<byte>, x: seq<byte>, y: seq<byte>)
    ensures a + (b + x + y) == a + b + x + y
  {
  }

  lemma Tail(items: seq<Item>, front: seq<byte>)
    requires ValidItems(items) && COOKIE + Encode(items) == front
    ensures ValidItems(items + [NAME_ITEM] + [LIST_ITEM])
    ensures COOKIE + Encode(items + [NAME_ITEM] + [LIST_ITEM]) + [OPT_END] ==
      front + [12, 9, 98, 111, 115, 100, 117, 105, 110, 111, 0] + [55, 4, 1, 3, 6, 15] + [255]
  {
    hide Encode;
    EncodeSnoc(items, NAME_ITEM);
    EncodeSnoc(items + [NAME_ITEM], LIST_ITEM);
    assert EncodeItem(NAME_ITEM) == [12, 9, 98, 111, 115, 100, 117, 105, 110, 111, 0];
    assert EncodeItem(LIST_ITEM) == [55, 4, 1, 3, 6, 15];
    AppendTwo(COOKIE, Encode(items), EncodeItem(NAME_ITEM), EncodeItem(LIST_ITEM));
  }

  /** What a message carries under each option code: its type, in a REQUEST (type 3) server and address, the
      host name "bosduino" with its NUL, and the request for mask, router, DNS server and domain name. */
  function MessageData(msgType: byte, server: Quad, addr: Quad, code: byte): Option<seq<byte>> {
    if code == 53 then Some([msgType])
    else if code == 54 && msgType == 3 then Some(server)
    else if code == 50 && msgType == 3 then Some(addr)
    else if code == 12 then Some([98, 111, 115, 100, 117, 105, 110, 111, 0])
    else if code == 55 then Some([1, 3, 6, 15])
    else None
  }

  /** Under `code` the parser sees `data` last, or nothing at all. */
  ghost predicate Carries(vs: seq<Visit>, code: byte, data: Option<seq<byte>>) {
    match data
    case None => forall v :: v in vs ==> v.code != code
    case Some(d) => var v := Last(vs, code, 0); v.Some? && v.value.data == d
  }

  /** The parser reads the writer's messages back, whatever server and address were written: under each code
      what the message carries, and nothing under any other code. `p` is any memory in which the options
      field lies. */
  lemma MessageReadsBack(p: seq<byte>, off: nat, end: nat, msgType: byte, server: Quad, addr: Quad)
    requires Holds(p, off, MessageBytes(msgType, server, addr)) && end >= off + 312
    ensures Slice(p, off, 4) == [99, 130, 83, 99]
    ensures var vs := Scan(p, off + 4, end);
      && MessageType(vs) == Some(msgType)
      && ServerId(vs) == (if msgType == 3 then server else NONE)
      && (msgType == 3 ==> Address(p, vs, 50, NONE) == addr)
    ensures forall code: byte :: Carries(Scan(p, off + 4, end), code, MessageData(msgType, server, addr, code))
  {
    hide Scan, Encode, Address, LastPlace, LastData, MessageItems, Holds, Last, MessageData, Carries;
    var items := MessageItems(msgType, server, addr);
    MessageSize(msgType, server, addr);
    assert MessageBytes(msgType, server, addr) == COOKIE + (Encode(items) + [OPT_END]);
    HoldsSplit(p, off, COOKIE, Encode(items) + [OPT_END]);
    CookieHeld(p, off);
    ParseEncoded(p, off + 4, end, items);
    ScanEncoded(p, off + 4, end, items);
    OfMessage(msgType, server, addr, 53, 1);
    OfMessage(msgType, server, addr, 54, 4);
    OfMessage(msgType, server, addr, 50, 0);
    PlaceOfData(items, off + 4, 50);
    TheseData(msgType, server, addr);
    forall code: byte
      ensures Carries(Scan(p, off + 4, end), code, MessageData(msgType, server, addr, code))
    {
      OfMessage(msgType, server, addr, code, 0);
      CarriesLast(items, off + 4, code);
    }
  }

  lemma CarriesLast(items: seq<Item>, i: nat, code: byte)
    requires ValidItems(items)
    ensures Carries(Visits(items, i), code, LastData(items, code, 0))
  {
    hide Visits, LastData, Last;
    LastOfVisits(items, i, code, 0);
    NoneVisited(Visits(items, i), code);
  }

  lemma TheseData(msgType: byte, server: Quad, addr: Quad)
    ensures MessageData(msgType, server, addr, 53) == Some([msgType])
    ensures MessageData(msgType, server, addr, 54) == (if msgType == 3 then Some(server) else None)
    ensures MessageData(msgType, server, addr, 50) == (if msgType == 3 then Some(addr) else None)
  {
  }

  lemma {:induction false} NoneVisited(vs: seq<Visit>, code: byte)
    ensures Last(vs, code, 0).None? ==> forall v :: v in vs ==> v.code != code
  {
    if vs != [] {
      NoneVisited(vs[1..], code);
      assert forall v :: v in vs ==> v == vs[0] || v in vs[1..];
    }
  }

  lemma CookieHeld(p: seq<byte>, off: nat)
    ensures Holds(p, off, COOKIE) <==> Slice(p, off, 4) == COOKIE
  {
  }

  lemma {:induction false} PlaceOfData(items: seq<Item>, i: nat, code: byte)
    requires ValidItems(items)
    ensures var place, data := LastPlace(items, i, code), LastData(items, code, 0);
      (place.Some? <==> data.Some?) && (place.Some? ==> place.value.1 == data.value)
  {
    if items != [] {
      PlaceOfData(items[1..], i + |EncodeItem(items[0])|, code);
    }
  }

  lemma OfMessage(msgType: byte, server: Quad, addr: Quad, code: byte, least: nat)
    requires least <= (if code == 53 then 1 else if code == 54 || code == 50 then 4 else 0)
    ensures LastData(MessageItems(msgType, server, addr), code, least) == MessageData(msgType, server, addr, code)
  {
    hide LastData;
    var none, items: seq<Item> := [], [Item(OPT_MT, [msgType])];
    LastDataSnoc(none, items[0], code, least);
    LastDataNone(code, least);
    assert none + items == items;
    if msgType == REQUEST {
      LastDataSnoc(items, Item(OPT_SRVID, server), code, least);
      LastDataSnoc(items + [Item(OPT_SRVID, server)], Item(OPT_REQIP, addr), code, least);
      items := items + [Item(OPT_SRVID, server)] + [Item(OPT_REQIP, addr)];
    }
    LastDataSnoc(items, NAME_ITEM, code, least);
    LastDataSnoc(items + [NAME_ITEM], LIST_ITEM, code, least);
  }

  lemma LastDataNone(code: byte, least: nat)
    ensures LastData([], code, least) == None
  {
  }
}
