/** What the DHCP client does, over every schedule, when it is answered as RFC 2131 section 3.1 describes, and
    when it is not answered at all (src/net/ipconfig.c). */
module DhcpExchange {
  import opened Machine
  import opened DhcpOptions
  import opened DhcpClient
  import opened DhcpRuns
  import opened DhcpTaken

  const DISCOVERY: Sent := Sent(DISCOVER, NONE, NONE, true)

  /** The REQUEST that takes up an offer. */
  function RequestFor(offer: Rx): Sent { Sent(REQUEST, ServerId(Options(offer.p)), Slice(offer.p, YIADDR, 4), true) }

  ghost predicate Exchange(offer: Rx, ack: Rx) {
    IsType(offer, OFFER) && ServerId(Options(offer.p)) != NONE && Slice(offer.p, YIADDR, 4) != NONE && IsType(ack, ACK)
  }

  /** So far nothing timed out, memory sufficed, and of all frames that arrived the handler took up at most
      two: first the offer, after a message was sent, then the acknowledgement, after a second one was. */
  ghost predicate Answered(h: History, offer: Rx, ack: Rx) {
    && h.timeouts == 0 && h.failures == 0 && |h.handled| <= 2
    && (|h.handled| >= 1 ==> h.handled[0].f == offer && |h.handled[0].sent| >= 1)
    && (|h.handled| == 2 ==> h.handled[1].f == ack && |h.handled[1].sent| >= 2)
  }

  predicate BeforeSend(pc: Pc) { pc.SendType? || pc.SendServer? || pc.SendAddr? }

  predicate AfterSend(pc: Pc) { pc.Wait? || pc.Test? || pc.Retry? }

  predicate Leaving(pc: Pc) { pc == Leave(true) || pc == Removed(true) || pc == Done(true, 0) }

  ghost predicate Phase(s: State, offer: Rx, ack: Rx) {
    match |s.h.handled|
    case 0 =>
      && !s.c.gotReply && s.c.myIp == s.c.servAddr == NONE && !s.h.acked
      && (((s.pc.Start? || s.pc.SendType?) && s.h.sent == []) || (AfterSend(s.pc) && s.h.sent == [DISCOVERY]))
    case 1 =>
      && s.c.servAddr == RequestFor(offer).server && s.c.myIp == RequestFor(offer).addr
      && s.c.msgType == OFFER && !s.h.acked
      && if s.c.gotReply then
           (AfterSend(s.pc) || s.pc.Kind? || s.pc.Clear?) && s.h.sent == [DISCOVERY]
         else
           || (BeforeSend(s.pc) && s.h.sent == [DISCOVERY] && (s.pc.SendType? || Drafting(s, offer)))
           || (AfterSend(s.pc) && s.h.sent == [DISCOVERY, RequestFor(offer)])
    case _ =>
      && s.c.gotReply && s.c.msgType == ACK && s.c.myIp == Slice(ack.p, YIADDR, 4)
      && (AfterSend(s.pc) || s.pc.Kind? || Leaving(s.pc)) && s.h.sent == [DISCOVERY, RequestFor(offer)]
  }

  predicate Drafting(s: State, offer: Rx) {
    s.draft.msgType == REQUEST && s.draft.clean && (s.pc.SendAddr? ==> s.draft.server == RequestFor(offer).server)
  }

  lemma OnlyGrows(mac: Mac, s: State, e: Event)
    ensures var h := Next(mac, s, e).h;
      s.h.handled <= h.handled && s.h.timeouts <= h.timeouts && s.h.failures <= h.failures
  {
    hide Judge, Handle;
  }

  lemma StayedAnswered(mac: Mac, s: State, e: Event, offer: Rx, ack: Rx)
    requires Answered(Next(mac, s, e).h, offer, ack)
    ensures Answered(s.h, offer, ack)
  {
    hide Next;
    var h := Next(mac, s, e).h;
    OnlyGrows(mac, s, e);
    assert forall i :: 0 <= i < |s.h.handled| ==> s.h.handled[i] == h.handled[i];
  }

  lemma PhaseOnStep(s: State, ch: Choice, offer: Rx, ack: Rx)
    requires RequestFor(offer).msgType == REQUEST && RequestFor(offer).server != NONE && RequestFor(offer).clean
    requires Phase(s, offer, ack) && |s.h.handled| <= 2
    requires var h := MainStep(s, ch).h; h.timeouts == h.failures == 0 && s.h.timeouts == 0
    ensures Phase(MainStep(s, ch), offer, ack)
  {
    if |s.h.handled| == 1 {
      hide Slice, RequestFor, Phase, MainStep;
      OfferedStep(s, ch, offer, ack);
    } else {
      hide Slice, RequestFor;
    }
  }

  lemma OfferedStep(s: State, ch: Choice, offer: Rx, ack: Rx)
    requires RequestFor(offer).msgType == REQUEST && RequestFor(offer).server != NONE && RequestFor(offer).clean
    requires Phase(s, offer, ack) && |s.h.handled| == 1
    requires var h := MainStep(s, ch).h; h.timeouts == h.failures == 0 && s.h.timeouts == 0
    ensures Phase(MainStep(s, ch), offer, ack)
  {
    hide Slice, RequestFor;
    if s.pc.SendAddr? {
      assert s.draft.(addr := s.c.myIp) == RequestFor(offer);
    }
  }

  lemma WorkAside(mac: Mac, s: State, ch: Choice, offer: Rx, ack: Rx)
    requires Phase(MainStep(s, ch), offer, ack)
    ensures Phase(Next(mac, s, Step(ch)), offer, ack)
  {
    hide MainStep, RequestFor, Slice;
  }

  lemma StepCounts(mac: Mac, s: State, ch: Choice, offer: Rx, ack: Rx)
    requires Answered(s.h, offer, ack) && Answered(Next(mac, s, Step(ch)).h, offer, ack)
    ensures var h := MainStep(s, ch).h; h.timeouts == h.failures == 0 && s.h.timeouts == 0 && |s.h.handled| <= 2
  {
    hide MainStep;
  }

  lemma OfferNamed(offer: Rx, ack: Rx)
    requires Exchange(offer, ack)
    ensures var r := RequestFor(offer); r.msgType == REQUEST && r.server != NONE && r.clean
  {
  }

  lemma PhaseOnDelivery(mac: Mac, s: State, f: Rx, offer: Rx, ack: Rx)
    requires Exchange(offer, ack) && Answered(s.h, offer, ack) && Phase(s, offer, ack)
    requires Answered(Next(mac, s, Deliver(f)).h, offer, ack)
    ensures Phase(Next(mac, s, Deliver(f)), offer, ack)
  {
    hide HeaderOk, HasOptions, TypeOf, Slice, ServerId, Options, At;
    if Installed(s.pc) && Judge(s.c, mac, f) != Ignored {
      var t := Next(mac, s, Deliver(f));
      var n := |s.h.handled|;
      assert t.h.handled[n].f == f && t.h.handled[n].sent == s.h.sent && |t.h.handled| == n + 1;
    }
  }

  lemma {:induction false} PhaseRun(mac: Mac, c: Statics, events: seq<Event>, offer: Rx, ack: Rx)
    requires Boot(c) && Exchange(offer, ack) && Answered(Run(mac, Begin(c), events).h, offer, ack)
    ensures Phase(Run(mac, Begin(c), events), offer, ack)
    decreases |events|
  {
    if events != [] {
      hide Next, MainStep, Phase, Exchange, Answered, RequestFor;
      var s, e := Run(mac, Begin(c), events[..|events| - 1]), events[|events| - 1];
      StayedAnswered(mac, s, e, offer, ack);
      PhaseRun(mac, c, events[..|events| - 1], offer, ack);
      match e {
        case Step(ch) =>
          OfferNamed(offer, ack);
          StepCounts(mac, s, ch, offer, ack);
          PhaseOnStep(s, ch, offer, ack);
          WorkAside(mac, s, ch, offer, ack);
        case Deliver(f) => PhaseOnDelivery(mac, s, f, offer, ack);
      }
    }
  }

  /** The exchange of RFC 2131 section 3.1, over every schedule in which nothing times out and memory suffices.
      Whatever else arrives and is ignored, and whenever the two replies come, if they are an OFFER that comes
      after the first message and an ACK that comes after the second, then the client has sent one DISCOVER and
      one REQUEST, which names the offered server and address; its address is the acknowledged one; and if it
      has finished, it has succeeded. */
  lemma Handshake(mac: Mac, c: Statics, events: seq<Event>, offer: Rx, ack: Rx)
    requires Boot(c) && Exchange(offer, ack) && Answered(Run(mac, Begin(c), events).h, offer, ack)
    requires |Run(mac, Begin(c), events).h.handled| == 2
    ensures var s := Run(mac, Begin(c), events);
      && s.h.sent == [DISCOVERY, RequestFor(offer)]
      && s.c.myIp == Slice(ack.p, YIADDR, 4)
      && (s.pc.Done? ==> s.pc == Done(true, 0))
  {
    hide Run, Answered, Exchange;
    PhaseRun(mac, c, events, offer, ack);
  }

  /** The client then holds what the ACK says: its mask (option 1), router (3) and DNS server (6), each from the
      last such option; a missing one is what the client held when the ACK came. */
  lemma HandshakeHoldsTheAck(mac: Mac, c: Statics, events: seq<Event>, offer: Rx, ack: Rx, items: seq<Item>)
    requires Boot(c) && Exchange(offer, ack) && Answered(Run(mac, Begin(c), events).h, offer, ack)
    requires |Run(mac, Begin(c), events).h.handled| == 2 && Encoded(ack.p, items)
    ensures var s := Run(mac, Begin(c), events);
      var before := s.h.handled[1].c;
      && s.c.netMask == AddressOf(ack.p, items, 1, before.netMask)
      && s.c.dnsServ == AddressOf(ack.p, items, 6, before.dnsServ)
      && (var router := AddressOf(ack.p, items, 3, before.gateway);
          s.c.gateway ==
            if router == [255, 255, 255, 255] && Slice(ack.p, 52, 4) != [0, 0, 0, 0]
            then Slice(ack.p, 52, 4) else router)
  {
    hide Run, Judge, Handle, Slice, AddressOf, MessageTypeOf, Encoded, CarriesOptions, TypeOf, HasOptions, IsType;
    var s := Run(mac, Begin(c), events);
    PhaseRun(mac, c, events, offer, ack);
    SafeRun(mac, c, events);
    HoldingRun(mac, c, events);
    OfferIsNoAck(offer);
    var r := s.h.last.value;
    assert r in s.h.handled && r.f != offer;
    AckHasOptions(r.f);
    OptionsOf(r.f.p, items);
    TakenInNumbers(r.c, mac, r.f, items);
  }

  lemma OfferIsNoAck(offer: Rx)
    requires IsType(offer, OFFER)
    ensures !IsType(offer, ACK)
  {
    hide HasOptions, TypeOf;
  }

  // ---------------------------------------------------------------- no answer

  ghost predicate Quiet(s: State) {
    && !s.c.gotReply && s.c.myIp == s.c.servAddr == NONE && !s.h.acked && s.h.accepted == 0
    && !s.pc.SendServer? && !s.pc.SendAddr? && !s.pc.Kind? && !s.pc.Clear? && !LeftOk(s.pc)
    && (s.pc.Done? ==> s.pc.ret == -1)
    && forall i :: 0 <= i < |s.h.sent| ==> s.h.sent[i] == DISCOVERY
  }

  lemma {:induction false} QuietRun(mac: Mac, c: Statics, events: seq<Event>)
    requires Boot(c) && Run(mac, Begin(c), events).h.handled == []
    ensures Quiet(Run(mac, Begin(c), events))
    decreases |events|
  {
    if events != [] {
      hide Next, Quiet;
      var s, e := Run(mac, Begin(c), events[..|events| - 1]), events[|events| - 1];
      OnlyGrows(mac, s, e);
      QuietRun(mac, c, events[..|events| - 1]);
      QuietStep(mac, s, e);
    }
  }

  lemma QuietStep(mac: Mac, s: State, e: Event)
    requires Quiet(s) && Next(mac, s, e).h.handled == []
    ensures Quiet(Next(mac, s, e))
  {
    hide Judge, IsType, Slice;
  }

  /** Without an answer, over every schedule and whatever frames arrive and are ignored: dhcp() gives up after
      six time-outs and six requests, each of them a DISCOVER unless memory ran out, and leaves no address. */
  lemma SilenceFails(mac: Mac, c: Statics, events: seq<Event>)
    requires Boot(c) && Run(mac, Begin(c), events).h.handled == [] && Run(mac, Begin(c), events).pc.Done?
    ensures var s := Run(mac, Begin(c), events);
      && s.pc == Done(false, -1) && s.c.myIp == NONE
      && s.h.timeouts == s.h.requests == |s.h.sent| + s.h.failures == 6
      && forall i :: 0 <= i < |s.h.sent| ==> s.h.sent[i] == DISCOVERY
  {
    hide Run;
    QuietRun(mac, c, events);
    CountedRun(mac, c, events);
  }
}
