/** Runs of the DHCP client that do occur, from concrete frames (src/net/ipconfig.c). */
module DhcpScenes {
  import opened Machine
  import opened InternetChecksum
  import opened DhcpOptions
  import opened DhcpClient
  import opened DhcpRuns
  import opened DhcpRequests
  import Net

  const GO: Choice := Choice(false, true, ANY)

  /** The main loop at `s`, undisturbed: from its send to the test of got_reply. */
  lemma SendAndTest(mac: Mac, s0: State, events: seq<Event>, s: State) returns (events': seq<Event>, s': State)
    requires Run(mac, s0, events) == s && s.pc == Wait
    ensures Run(mac, s0, events') == s' && Delivered(events') == Delivered(events)
    ensures s'.c == s.c && s'.h.sent == s.h.sent && s'.h.acked == s.h.acked && s'.retries == s.retries
    ensures s'.pc == if s.c.gotReply then Kind else Retry
  {
    events', s' := Advance(mac, s0, events, s, GO);
    events', s' := Advance(mac, s0, events', s', GO);
  }

  /** A reply that is accepted while the loop waits takes it to the next send, or out. */
  lemma Answered(mac: Mac, s0: State, events: seq<Event>, s: State, f: Rx) returns (events': seq<Event>, s': State)
    requires Run(mac, s0, events) == s && s.pc == Wait && Judge(s.c, mac, f) == Accepted && HasOptions(f.p)
    ensures Run(mac, s0, events') == s' && Delivered(events') == Delivered(events) + [f]
    ensures s'.h.sent == s.h.sent && s'.h.acked == (s.h.acked || IsType(f, ACK))
    ensures if TypeOf(f.p) == Some(ACK) then s'.c == Handle(s.c, mac, f) && s'.pc == Done(true, 0)
            else s'.c == Handle(s.c, mac, f).(gotReply := false) && s'.pc == SendType
  {
    hide HeaderOk, HasOptions, TypeOf, Options, Slice, At, ServerId, Run, Delivered;
    events', s' := Extend(mac, s0, events, s, Deliver(f));
    events', s' := SendAndTest(mac, s0, events', s');
    events', s' := Advance(mac, s0, events', s', GO);
    events', s' := Advance(mac, s0, events', s', GO);
    if TypeOf(f.p) == Some(ACK) {
      events', s' := Advance(mac, s0, events', s', GO);
    }
  }

  /** A whole send, undisturbed. */
  lemma Sends(mac: Mac, s0: State, events: seq<Event>, s: State) returns (events': seq<Event>, s': State)
    requires Run(mac, s0, events) == s && s.pc == SendType
    ensures Run(mac, s0, events') == s' && s'.pc == Wait && Delivered(events') == Delivered(events)
    ensures s'.c == s.c && s'.h.acked == s.h.acked && s'.retries == s.retries
    ensures s'.h.sent == s.h.sent + [if s.c.servAddr == NONE then Sent(DISCOVER, NONE, NONE, !s.h.acked)
                                     else Sent(REQUEST, s.c.servAddr, s.c.myIp, !s.h.acked)]
  {
    events', s' := Advance(mac, s0, events, s, GO);
    if s.c.servAddr != NONE {
      events', s' := Advance(mac, s0, events', s', GO);
      events', s' := Advance(mac, s0, events', s', GO);
    }
  }

  /** The exchange of RFC 2131 section 3.1. Whatever the xid drawn, if the first reply is an OFFER and the
      second an ACK, both with that xid, the client sends one DISCOVER and one REQUEST that names the offered
      server and address, and ends with success and the acknowledged address. */
  lemma HandshakeOccurs(mac: Mac, c: Statics, xid: Quad, offer: Rx, ack: Rx) returns (events: seq<Event>)
    requires Boot(c) && Proper(offer)
    requires HeaderOk(offer) && At(offer.p, OP) == BOOTP_REPLY && Slice(offer.p, XID, 4) == xid && IsType(offer, OFFER)
    requires HeaderOk(ack) && At(ack.p, OP) == BOOTP_REPLY && Slice(ack.p, XID, 4) == xid && IsType(ack, ACK)
    requires Slice(ack.p, CHADDR, 6) == mac
    ensures var s := Run(mac, Begin(c), events);
      && s.pc == Done(true, 0) && s.c.myIp == Slice(ack.p, YIADDR, 4)
      && s.h.sent == [Sent(DISCOVER, NONE, NONE, true),
                      Sent(REQUEST, ServerId(Options(offer.p)), Slice(offer.p, YIADDR, 4), true)]
  {
    hide HeaderOk, HasOptions, TypeOf, Options, Slice, At, ServerId, Run;
    var s0 := Begin(c);
    RunNothing(mac, s0);
    var s;
    events, s := Advance(mac, s0, [], s0, Choice(false, false, xid));
    events, s := Sends(mac, s0, events, s);
    events, s := Answered(mac, s0, events, s, offer);
    assert s.c.myIp == Slice(offer.p, YIADDR, 4) && s.c.servAddr == ServerId(Options(offer.p)) && s.c.xid == xid;
    events, s := Sends(mac, s0, events, s);
    events, s := Answered(mac, s0, events, s, ack);
  }

  /** Time-outs alone bring the loop from one send to its time-out exit. */
  lemma {:induction false} OnlyTimeouts(mac: Mac, s0: State, events: seq<Event>, s: State)
    returns (events': seq<Event>, s': State)
    requires Run(mac, s0, events) == s && s.pc == SendType && !s.c.gotReply && s.retries > 0
    ensures Run(mac, s0, events') == s' && s'.pc == Leave(false) && !s'.c.gotReply && s'.h.acked == s.h.acked
    decreases s.retries
  {
    hide Run;
    events', s' := Sends(mac, s0, events, s);
    events', s' := SendAndTest(mac, s0, events', s');
    events', s' := Advance(mac, s0, events', s', GO);
    if s'.pc == XidLow {
      events', s' := Advance(mac, s0, events', s', GO);
      events', s' := Advance(mac, s0, events', s', GO);
      events', s' := OnlyTimeouts(mac, s0, events', s');
    }
  }

  // ---------------------------------------------------------------- success without an acknowledgement

  /** An IP header of a UDP packet, before and after its checksum is filled in. */
  const BARE_HEADER: seq<byte> := [0x45, 0, 0, 0, 0, 0, 0, 0, 0, 17, 0, 0, 0, 0, 0, 0, 0, 0, 0, 0]
  const IP_HEADER: seq<byte> := Splice(BARE_HEADER, 10, Bytes16(Checksum(BARE_HEADER)))

  /** A BOOTP reply without options that assigns `addr`. */
  function BootpReply(xid: Quad, addr: Quad): Rx {
    Rx(true, 0, IP_HEADER + [0, 0, 0, 0, 244, 0, 0, 0] + [BOOTP_REPLY, 0, 0, 0] + xid
                + [0, 0, 0, 0, 0, 0, 0, 0] + addr)
  }

  lemma HeaderPasses()
    ensures Checksum(IP_HEADER) == 0
  {
    InsertedChecksumPasses(BARE_HEADER, 10);
  }

  lemma BootpReplyFields(xid: Quad, addr: Quad)
    ensures var p := BootpReply(xid, addr).p;
      && Slice(p, 0, 20) == IP_HEADER && Slice(p, XID, 4) == xid && Slice(p, YIADDR, 4) == addr
      && At(p, 0) == 0x45 && At(p, 6) == At(p, 7) == 0 && At(p, 9) == Net.IPPROTO_UDP && At(p, OP) == BOOTP_REPLY
      && OptLen(p) == 0
  {
    hide Checksum, Splice, Bytes16;
    var p := BootpReply(xid, addr).p;
    assert At(p, UDP_LEN) == 244 && At(p, UDP_LEN + 1) == 0;
  }

  lemma BootpReplyAccepted(c: Statics, mac: Mac, addr: Quad)
    requires !c.gotReply
    ensures var f := BootpReply(c.xid, addr);
      Judge(c, mac, f) == Accepted && !HasOptions(f.p) && Slice(f.p, YIADDR, 4) == addr
  {
    BootpReplyFields(c.xid, addr);
    HeaderPasses();
    hide Checksum, Scan, TypeOf, Slice, At, OptLen;
  }

  /** dhcp() returning 0 does not mean that an address was acknowledged: six time-outs, then a reply without
      options in the gap before pkt_hdlr_del, and it reports success with whatever address that reply names. */
  lemma SuccessWithoutAck(mac: Mac, c: Statics, addr: Quad) returns (events: seq<Event>)
    requires Boot(c)
    ensures var s := Run(mac, Begin(c), events);
      s.pc == Done(false, 0) && !s.h.acked && s.c.myIp == addr
  {
    hide HeaderOk, HasOptions, TypeOf, Options, Slice, At, ServerId, Run, BootpReply;
    var s0 := Begin(c);
    RunNothing(mac, s0);
    var s;
    events, s := Advance(mac, s0, [], s0, GO);
    events, s := OnlyTimeouts(mac, s0, events, s);
    BootpReplyAccepted(s.c, mac, addr);
    events, s := Extend(mac, s0, events, s, Deliver(BootpReply(s.c.xid, addr)));
    events, s := Advance(mac, s0, events, s, GO);
    events, s := Advance(mac, s0, events, s, GO);
  }

  // ---------------------------------------------------------------- a torn request

  const NAK: byte := 6

  /** An IP header of a packet of 600 bytes, before and after its checksum is filled in. */
  const BARE_LONG_HEADER: seq<byte> := [0x45, 0, 2, 88, 0, 0, 0, 0, 0, 17, 0, 0, 0, 0, 0, 0, 0, 0, 0, 0]
  const LONG_HEADER: seq<byte> := Splice(BARE_LONG_HEADER, 10, Bytes16(Checksum(BARE_LONG_HEADER)))

  function FixedByte(i: nat, xid: Quad, addr: Quad): byte
    requires i < 268
  {
    if i < 20 then LONG_HEADER[i]
    else if i == UDP_LEN then 2
    else if i == UDP_LEN + 1 then 68
    else if i == OP then BOOTP_REPLY
    else if XID <= i < XID + 4 then xid[i - XID]
    else if YIADDR <= i < YIADDR + 4 then addr[i - YIADDR]
    else if OPTIONS <= i < OPTIONS + 4 then COOKIE[i - OPTIONS]
    else 0
  }

  /** A reply that assigns `addr` and carries `items`. */
  function OptionReply(xid: Quad, addr: Quad, items: seq<Item>): Rx
    requires ValidItems(items)
  {
    Rx(true, 0, seq(268, i requires 0 <= i < 268 => FixedByte(i, xid, addr)) + (Encode(items) + [OPT_END]))
  }

  lemma LongHeaderPasses()
    ensures Checksum(LONG_HEADER) == 0
  {
    InsertedChecksumPasses(BARE_LONG_HEADER, 10);
  }

  lemma OptionReplyFields(xid: Quad, addr: Quad, items: seq<Item>)
    requires ValidItems(items)
    ensures var p := OptionReply(xid, addr, items).p;
      && Slice(p, 0, 20) == LONG_HEADER && Slice(p, XID, 4) == xid && Slice(p, YIADDR, 4) == addr
      && Slice(p, OPTIONS, 4) == COOKIE
      && At(p, 0) == 0x45 && At(p, 6) == At(p, 7) == 0 && At(p, 9) == Net.IPPROTO_UDP && At(p, OP) == BOOTP_REPLY
      && OptLen(p) >= 4 && End(p) == 600
      && OptionReply(xid, addr, items).ours && OptionReply(xid, addr, items).pktType == 0
      && Holds(p, OPTIONS + 4, Encode(items) + [OPT_END])
  {
    hide Checksum, Splice, Bytes16, Encode;
    var p := OptionReply(xid, addr, items).p;
    assert At(p, UDP_LEN) == 2 && At(p, UDP_LEN + 1) == 68;
  }

  /** How the client takes such a reply while it waits for one with this xid. */
  lemma OptionReplyJudged(c: Statics, mac: Mac, addr: Quad, items: seq<Item>, t: byte)
    requires ValidItems(items) && |Encode(items)| < 300 && LastData(items, OPT_MT, 1) == Some([t]) && t != ACK
    requires !c.gotReply
    ensures var f := OptionReply(c.xid, addr, items);
      && HasOptions(f.p) && TypeOf(f.p) == Some(t) && Slice(f.p, YIADDR, 4) == addr
      && ServerId(Options(f.p)) ==
         (if LastData(items, OPT_SRVID, 4).Some? then LastData(items, OPT_SRVID, 4).value[..4] else NONE)
      && Judge(c, mac, f) == if t != OFFER then Reset else if c.myIp == NONE then Accepted else Ignored
  {
    hide Checksum, Scan, Slice, At, OptLen, Encode, OptionReply, LastData, MessageType, ServerId, End;
    var f := OptionReply(c.xid, addr, items);
    OptionReplyFields(c.xid, addr, items);
    LongHeaderPasses();
    ParseEncoded(f.p, OPTIONS + 4, 600, items);
  }

  /** An OFFER that names its server, and a refusal. */
  function OfferItems(server: Quad): seq<Item> { [Item(OPT_MT, [OFFER]), Item(OPT_SRVID, server)] }

  function TypeOnly(t: byte): seq<Item> { [Item(OPT_MT, [t])] }

  lemma OfferJudged(c: Statics, mac: Mac, server: Quad, addr: Quad)
    requires !c.gotReply && c.myIp == NONE
    ensures ValidItems(OfferItems(server))
    ensures var f := OptionReply(c.xid, addr, OfferItems(server));
      && Judge(c, mac, f) == Accepted && HasOptions(f.p) && TypeOf(f.p) == Some(OFFER)
      && ServerId(Options(f.p)) == server && Slice(f.p, YIADDR, 4) == addr
  {
    hide Judge, HasOptions, TypeOf, Options, Slice, OptionReply;
    var items := OfferItems(server);
    var first, second := Item(OPT_MT, [OFFER]), Item(OPT_SRVID, server);
    assert items == [] + [first] + [second];
    EncodeSnoc([], first);
    EncodeSnoc([] + [first], second);
    LastDataSnoc([], first, OPT_MT, 1);
    LastDataSnoc([] + [first], second, OPT_MT, 1);
    LastDataSnoc([] + [first], second, OPT_SRVID, 4);
    OptionReplyJudged(c, mac, addr, items, OFFER);
  }

  lemma NakJudged(c: Statics, mac: Mac, addr: Quad)
    requires !c.gotReply
    ensures ValidItems(TypeOnly(NAK))
    ensures var f := OptionReply(c.xid, addr, TypeOnly(NAK));
      Judge(c, mac, f) == Reset && HasOptions(f.p) && TypeOf(f.p) == Some(NAK)
  {
    hide Judge, HasOptions, TypeOf, Options, Slice, OptionReply;
    var items := TypeOnly(NAK);
    OptionReplyJudged(c, mac, addr, items, NAK);
  }

  /** A run from boot in which a REQUEST is torn apart: the server's OFFER is accepted, and a refusal arrives
      after the server was copied into the REQUEST and before the address is. Every frame is a proper one;
      the REQUEST names the server, and no address that it or any other server ever offered. */
  lemma TornRequestOccurs(mac: Mac, c: Statics, xid: Quad, server: Quad, addr: Quad) returns (events: seq<Event>)
    requires Boot(c) && server != NONE && addr != NONE
    ensures AllProper(events)
    ensures var s := Run(mac, Begin(c), events);
      && s.h.sent == [Sent(DISCOVER, NONE, NONE, true), Sent(REQUEST, server, NONE, false)]
      && (server, NONE) !in s.h.offered
  {
    hide Run, OptionReply, Proper, ValidItems;
    events := TearIt(mac, c, xid, server, addr);
    var offer, nak := OptionReply(xid, addr, OfferItems(server)), OptionReply(xid, addr, TypeOnly(NAK));
    SceneProper(xid, server, addr);
    assert forall f :: f in [offer, nak] ==> f == offer || f == nak;
    ProperRun(events, [offer, nak]);
    NamedRun(mac, c, events);
  }

  lemma SceneProper(xid: Quad, server: Quad, addr: Quad)
    requires server != NONE && addr != NONE
    ensures ValidItems(OfferItems(server)) && Proper(OptionReply(xid, addr, OfferItems(server)))
    ensures ValidItems(TypeOnly(NAK)) && Proper(OptionReply(xid, addr, TypeOnly(NAK)))
  {
    hide Judge, HeaderOk, HasOptions, TypeOf, Options, Slice, At, ServerId, OptionReply;
    var c := Statics(NONE, NONE, NONE, NONE, NONE, xid, false, 0);
    OfferJudged(c, [0, 0, 0, 0, 0, 0], server, addr);
    NakJudged(c, [0, 0, 0, 0, 0, 0], addr);
  }

  lemma TearIt(mac: Mac, c: Statics, xid: Quad, server: Quad, addr: Quad) returns (events: seq<Event>)
    requires Boot(c) && server != NONE && addr != NONE
    ensures ValidItems(OfferItems(server)) && ValidItems(TypeOnly(NAK))
    ensures Delivered(events) == [OptionReply(xid, addr, OfferItems(server)), OptionReply(xid, addr, TypeOnly(NAK))]
    ensures Run(mac, Begin(c), events).h.sent ==
      [Sent(DISCOVER, NONE, NONE, true), Sent(REQUEST, server, NONE, false)]
  {
    hide HeaderOk, HasOptions, TypeOf, Options, Slice, At, ServerId, Run, OptionReply, Judge, Delivered;
    var s0 := Begin(c);
    RunNothing(mac, s0);
    assert Delivered([]) == [] by { NothingDelivered(); }
    var s;
    events, s := Advance(mac, s0, [], s0, Choice(false, false, xid));
    events, s := Sends(mac, s0, events, s);
    OfferJudged(s.c, mac, server, addr);
    var offer := OptionReply(xid, addr, OfferItems(server));
    events, s := Answered(mac, s0, events, s, offer);
    events, s := Advance(mac, s0, events, s, GO);
    events, s := Advance(mac, s0, events, s, GO);
    NakJudged(s.c, mac, addr);
    events, s := Extend(mac, s0, events, s, Deliver(OptionReply(xid, addr, TypeOnly(NAK))));
    events, s := Advance(mac, s0, events, s, GO);
  }

  lemma NothingDelivered()
    ensures Delivered([]) == []
  {
  }
}
