/** What the DHCP handler takes from a reply, field by field and in the numbers of RFC 2131 and RFC 2132, and
    what the client therefore holds (src/net/ipconfig.c). Offsets count from the IP header: 28 bytes of IP and
    UDP header, then the message. */
module DhcpTaken {
  import opened Machine
  import opened InternetChecksum
  import opened DhcpOptions
  import opened DhcpClient
  import opened DhcpRuns

  /** The options field at offset 268 holds these options and an END mark, before the end of the packet that
      the IP total length gives. */
  ghost predicate Encoded(p: seq<byte>, items: seq<Item>) {
    && ValidItems(items) && Holds(p, 268, Encode(items) + [255])
    && 268 + |Encode(items)| < 256 * At(p, 2) + At(p, 3)
  }

  /** The type of a message, option 53. */
  function MessageTypeOf(items: seq<Item>): Option<byte> {
    match LastData(items, 53, 1)
    case None => None
    case Some(d) => Some(d[0])
  }

  /** The address in the last option with this code; without such an option, `otherwise`. */
  function AddressOf(p: seq<byte>, items: seq<Item>, code: byte, otherwise: Quad): Quad
    requires ValidItems(items)
  {
    match LastPlace(items, 268, code)
    case None => otherwise
    case Some((pos, data)) => if |data| >= 4 then data[..4] else Slice(p, pos, 4)
  }

  lemma OptionsOf(p: seq<byte>, items: seq<Item>)
    requires Encoded(p, items)
    ensures TypeOf(p) == MessageTypeOf(items)
    ensures ServerId(Options(p)) ==
      match LastData(items, 54, 4) case None => [255, 255, 255, 255] case Some(d) => d[..4]
    ensures forall other: Quad ::
      && Address(p, Options(p), 1, other) == AddressOf(p, items, 1, other)
      && Address(p, Options(p), 3, other) == AddressOf(p, items, 3, other)
      && Address(p, Options(p), 6, other) == AddressOf(p, items, 6, other)
  {
    hide Scan, MessageType, ServerId, Address, LastData, LastPlace, Holds, Encode, Slice;
    ParseEncoded(p, 268, 256 * At(p, 2) + At(p, 3), items);
  }

  /** The UDP length field as the source reads it: its two bytes in the wrong order. */
  function LengthAsRead(p: seq<byte>): nat { At(p, 24) + 256 * At(p, 25) }

  /** A reply to this client's current request, with the flag down. */
  ghost predicate Addressed(c: Statics, f: Rx) {
    var p := f.p;
    && f.ours && f.pktType != 3
    && At(p, 0) == 0x45 && At(p, 9) == 17 && At(p, 6) % 64 == 0 && At(p, 7) == 0 && Checksum(Slice(p, 0, 20)) == 0
    && 244 <= LengthAsRead(p) <= 33011
    && !c.gotReply && At(p, 28) == 2 && Slice(p, 32, 4) == c.xid
  }

  ghost predicate CarriesOptions(p: seq<byte>) {
    248 <= LengthAsRead(p) <= 33011 && Slice(p, 264, 4) == [99, 130, 83, 99]
  }

  lemma LengthTests(p: seq<byte>)
    ensures OptLen(p) >= 0 <==> 244 <= LengthAsRead(p) <= 33011
    ensures OptLen(p) >= 4 <==> 248 <= LengthAsRead(p) <= 33011
  {
    var v := LengthAsRead(p) - 244;
    assert v % 0x1_0000 == if v < 0 then v + 0x1_0000 else v;
  }

  /** Version and header length share a byte. */
  lemma VersionByte(b: byte)
    ensures b % 16 == 5 && b / 16 == 4 <==> b == 0x45
  {
  }

  /** Which replies the handler takes up. */
  lemma JudgeInNumbers(c: Statics, mac: Mac, f: Rx, items: seq<Item>)
    requires CarriesOptions(f.p) ==> Encoded(f.p, items)
    ensures var t, v := MessageTypeOf(items), Judge(c, mac, f);
      v ==
        if !Addressed(c, f) then Ignored
        else if !CarriesOptions(f.p) then Accepted
        else if t == Some(2) then (if c.myIp == [255, 255, 255, 255] then Accepted else Ignored)
        else if t == Some(5) then (if Slice(f.p, 56, 6) == mac then Accepted else Ignored)
        else Reset
  {
    hide OptLen, LengthAsRead, Checksum, Slice, At, TypeOf, MessageTypeOf, Encoded;
    LengthTests(f.p);
    VersionByte(At(f.p, 0));
    if CarriesOptions(f.p) {
      OptionsOf(f.p, items);
    }
  }

  /** What an OFFER or ACK that is accepted with its options leaves: all seven variables. */
  lemma TakenInNumbers(c: Statics, mac: Mac, f: Rx, items: seq<Item>)
    requires Judge(c, mac, f) == Accepted && CarriesOptions(f.p) && Encoded(f.p, items)
    ensures var h, t, p := Handle(c, mac, f), MessageTypeOf(items), f.p;
      && h.gotReply && h.xid == c.xid && Some(h.msgType) == t && (t == Some(2) || t == Some(5))
      && h.myIp == Slice(p, 44, 4)
      && h.netMask == AddressOf(p, items, 1, c.netMask)
      && h.dnsServ == AddressOf(p, items, 6, c.dnsServ)
    ensures var h, p := Handle(c, mac, f), f.p;
      var router := AddressOf(p, items, 3, c.gateway);
      h.gateway ==
        if router == [255, 255, 255, 255] && Slice(p, 52, 4) != [0, 0, 0, 0] then Slice(p, 52, 4) else router
    ensures var h, p := Handle(c, mac, f), f.p;
      var server := if MessageTypeOf(items) == Some(5) then c.servAddr
                    else match LastData(items, 54, 4) case None => [255, 255, 255, 255] case Some(d) => d[..4];
      h.servAddr == if server == [255, 255, 255, 255] then Slice(p, 48, 4) else server
  {
    hide OptLen, LengthAsRead, Checksum, Slice, At, TypeOf, Options, Address, ServerId, AddressOf, LastData, Encoded,
      MessageTypeOf;
    LengthTests(f.p);
    OptionsOf(f.p, items);
  }

  /** What the other replies leave: one without options sets the address, and a server and gateway that are
      missing; a refusal clears address and server; an ignored frame changes nothing. */
  lemma OthersInNumbers(c: Statics, mac: Mac, f: Rx)
    ensures var h, p := Handle(c, mac, f), f.p;
      match Judge(c, mac, f)
      case Ignored => h == c
      case Reset => h == c.(myIp := [255, 255, 255, 255], servAddr := [255, 255, 255, 255])
      case Accepted => !CarriesOptions(p) ==>
        h == c.(gotReply := true, myIp := Slice(p, 44, 4),
                servAddr := if c.servAddr == [255, 255, 255, 255] then Slice(p, 48, 4) else c.servAddr,
                gateway := if c.gateway == [255, 255, 255, 255] && Slice(p, 52, 4) != [0, 0, 0, 0]
                           then Slice(p, 52, 4) else c.gateway)
  {
    hide OptLen, LengthAsRead, Checksum, Slice, At, TypeOf, Options, Address, ServerId, HeaderOk;
    LengthTests(f.p);
  }

  // ---------------------------------------------------------------- what the client holds

  /** While the flag is up, all variables but the xid are as the latest accepted reply left them. */
  ghost predicate Holding(mac: Mac, s: State) {
    && (s.h.last.Some? ==> s.h.last.value in s.h.handled)
    && (s.c.gotReply ==>
          && s.h.last.Some?
          && var r := s.h.last.value;
             Judge(r.c, mac, r.f) == Accepted && s.c == Handle(r.c, mac, r.f).(xid := s.c.xid))
  }

  lemma HoldingStep(mac: Mac, s: State, e: Event)
    requires Holding(mac, s)
    ensures Holding(mac, Next(mac, s, e))
  {
    hide Judge, HasOptions, TypeOf, IsType, OfferedPair, Slice, Handle;
    if e.Deliver? {
      HandleFlag(s.c, mac, e.f);
    }
  }

  lemma {:induction false} HoldingRun(mac: Mac, c: Statics, events: seq<Event>)
    requires Boot(c)
    ensures Holding(mac, Run(mac, Begin(c), events))
    decreases |events|
  {
    if events != [] {
      hide Next, Holding;
      HoldingRun(mac, c, events[..|events| - 1]);
      HoldingStep(mac, Run(mac, Begin(c), events[..|events| - 1]), events[|events| - 1]);
    }
  }

  /** Over every interleaving: when the loop has been left through its OK branch, the client holds what its
      ACK says. Address, mask, router and DNS server are those of the ACK; a missing option leaves what the
      client held when the ACK came. */
  lemma OkHoldsTheAck(mac: Mac, c: Statics, events: seq<Event>, items: seq<Item>)
    requires Boot(c) && LeftOk(Run(mac, Begin(c), events).pc)
    requires var last := Run(mac, Begin(c), events).h.last; last.Some? ==> Encoded(last.value.f.p, items)
    ensures var s := Run(mac, Begin(c), events);
      && s.h.last.Some?
      && (var r, p := s.h.last.value, s.h.last.value.f.p;
          var router := AddressOf(p, items, 3, r.c.gateway);
          && MessageTypeOf(items) == Some(5) && Slice(p, 56, 6) == mac
          && s.c.myIp == Slice(p, 44, 4)
          && s.c.netMask == AddressOf(p, items, 1, r.c.netMask)
          && s.c.dnsServ == AddressOf(p, items, 6, r.c.dnsServ)
          && s.c.gateway ==
             if router == [255, 255, 255, 255] && Slice(p, 52, 4) != [0, 0, 0, 0] then Slice(p, 52, 4) else router)
  {
    hide Run, Judge, Handle, Slice, AddressOf, MessageTypeOf, Encoded, CarriesOptions, TypeOf, HasOptions;
    SafeRun(mac, c, events);
    HoldingRun(mac, c, events);
    var r := Run(mac, Begin(c), events).h.last.value;
    AckHasOptions(r.f);
    AcceptedAck(r.c, mac, r.f);
    OptionsOf(r.f.p, items);
    TakenInNumbers(r.c, mac, r.f, items);
  }

  lemma AckHasOptions(f: Rx)
    requires IsType(f, ACK)
    ensures CarriesOptions(f.p) && TypeOf(f.p) == Some(5)
  {
    hide OptLen, LengthAsRead, TypeOf;
    LengthTests(f.p);
  }
}
