/** The DHCP client as a transition system: the main loop dhcp() of src/net/ipconfig.c, cut where it reads
    or writes a shared variable, interleaved with runs of the reply handler on arbitrary frames. */
module DhcpRuns {
  import opened Machine
  import opened DhcpOptions
  import opened DhcpClient

  /** Program points of dhcp() and dhcp_send_request(). */
  datatype Pc =
    | Start            // before the first xid_gen and pkt_hdlr_add
    | SendType         // about to choose between DISCOVER and REQUEST
    | SendServer       // about to copy serv_addr into a REQUEST
    | SendAddr         // about to copy my_ip into it
    | Wait             // in the time-out loop
    | Test             // about to test got_reply after the loop
    | Kind             // about to test dhcp_msg_type
    | Clear            // about to reset got_reply
    | Retry            // about to count a time-out
    | XidLow           // about to write one half of xid
    | XidHigh          // about to write the other half
    | Leave(ok: bool)  // about to call pkt_hdlr_del; ok: left through the OK branch
    | Removed(ok: bool)
    | Done(ok: bool, ret: int)

  /** A message written by dhcp_options_init. It is clean if no ACK was accepted before it was begun and no
      reply was handled while its server and address were being copied. */
  datatype Sent = Sent(msgType: byte, server: Quad, addr: Quad, clean: bool)

  /** A handled reply: the statics it met, the frame, where the main loop was, how many time-outs it had
      left, and what it had sent. */
  datatype Reply = Reply(c: Statics, f: Rx, pc: Pc, retries: int, sent: seq<Sent>)

  /** What happened so far; nothing here is read by the client. */
  datatype History = History(
    handled: seq<Reply>,         // every reply that was not ignored
    last: Option<Reply>,         // the latest accepted one
    offered: set<(Quad, Quad)>,  // server and address of every accepted OFFER
    pair: (Quad, Quad),          // those of the latest one
    acked: bool,                 // an ACK was accepted
    acks: nat,
    sent: seq<Sent>,
    requests: nat,               // passes through dhcp_send_request
    tried: seq<bool>,            // for each of them, whether memory sufficed
    failures: nat,               // those that found no memory
    draws: seq<Quad>,            // what rand() gave, four bytes for each complete xid_gen
    half: Quad,                  // what it gave for the first store of one under way
    timeouts: nat,
    retried: nat,                // handled replies after which the loop went round
    accepted: nat,
    offers: nat,
    resets: nat,                 // replies on which the handler forgot server and address
    delivered: nat,
    work: nat)                   // main-loop steps other than waiting

  datatype State = State(c: Statics, pc: Pc, retries: int, draft: Sent, h: History)

  /** What the environment decides at a main-loop step: whether the send fails for lack of memory, whether
      the time-out has run down, and the four bytes that two calls of rand() yield. */
  datatype Choice = Choice(fails: bool, expires: bool, r: Quad)

  datatype Event = Deliver(f: Rx) | Step(ch: Choice)

  const NO_HISTORY: History :=
    History([], None, {}, (NONE, NONE), false, 0, [], 0, [], 0, [], ANY, 0, 0, 0, 0, 0, 0, 0)

  function Begin(c: Statics): State {
    State(c, Start, 6, Sent(DISCOVER, NONE, NONE, true), NO_HISTORY)
  }

  /** The handler is installed between pkt_hdlr_add and pkt_hdlr_del. */
  predicate Installed(pc: Pc) { !pc.Start? && !pc.Removed? && !pc.Done? }

  function OfferedPair(f: Rx): (Quad, Quad) { (ServerId(Options(f.p)), Slice(f.p, YIADDR, 4)) }

  predicate IsType(f: Rx, t: byte) { HasOptions(f.p) && TypeOf(f.p) == Some(t) }

  function Record(s: State, mac: Mac, f: Rx): History {
    var h, r := s.h.(delivered := s.h.delivered + 1), Reply(s.c, f, s.pc, s.retries, s.h.sent);
    match Judge(s.c, mac, f)
    case Ignored => h
    case Reset => h.(resets := h.resets + 1, handled := h.handled + [r])
    case Accepted =>
      var h1 := h.(last := Some(r), handled := h.handled + [r], accepted := h.accepted + 1,
                   acked := h.acked || IsType(f, ACK), acks := h.acks + if IsType(f, ACK) then 1 else 0);
      if IsType(f, OFFER)
      then h1.(offers := h.offers + 1, pair := OfferedPair(f), offered := h.offered + {OfferedPair(f)})
      else h1
  }

  function MainStep(s: State, ch: Choice): State {
    match s.pc
    case Start =>
      s.(c := s.c.(xid := ch.r), pc := SendType, h := s.h.(draws := [ch.r]))
    case SendType =>
      var h := s.h.(requests := s.h.requests + 1, tried := s.h.tried + [!ch.fails]);
      if ch.fails then s.(pc := Wait, h := h.(failures := h.failures + 1))
      else if s.c.servAddr == NONE
      then s.(pc := Wait, h := h.(sent := h.sent + [Sent(DISCOVER, NONE, NONE, !h.acked)]))
      else s.(pc := SendServer, h := h, draft := Sent(REQUEST, NONE, NONE, !h.acked))
    case SendServer =>
      s.(pc := SendAddr, draft := s.draft.(server := s.c.servAddr))
    case SendAddr =>
      s.(pc := Wait, h := s.h.(sent := s.h.sent + [s.draft.(addr := s.c.myIp)]))
    case Wait =>
      if ch.expires || s.c.gotReply then s.(pc := Test) else s
    case Test =>
      s.(pc := if s.c.gotReply then Kind else Retry)
    case Kind =>
      s.(pc := if s.c.msgType == ACK then Leave(true) else Clear)
    case Clear =>
      s.(c := s.c.(gotReply := false), pc := SendType, h := s.h.(retried := s.h.retried + 1))
    case Retry =>
      s.(retries := s.retries - 1, pc := if s.retries - 1 == 0 then Leave(false) else XidLow,
         h := s.h.(timeouts := s.h.timeouts + 1))
    case XidLow =>
      s.(c := s.c.(xid := ch.r[..2] + s.c.xid[2..]), pc := XidHigh, h := s.h.(half := ch.r))
    case XidHigh =>
      s.(c := s.c.(xid := s.c.xid[..2] + ch.r[2..]), pc := SendType,
         h := s.h.(draws := s.h.draws + [s.h.half[..2] + ch.r[2..]]))
    case Leave(ok) =>
      s.(pc := Removed(ok))
    case Removed(ok) =>
      if s.c.gotReply then s.(pc := Done(ok, 0))
      else s.(c := s.c.(myIp := NONE), pc := Done(ok, -1))
    case Done(_, _) => s
  }

  function Next(mac: Mac, s: State, e: Event): State {
    match e
    case Deliver(f) =>
      if !Installed(s.pc) then s
      else
        var touched := Judge(s.c, mac, f) != Ignored && (s.pc.SendServer? || s.pc.SendAddr?);
        s.(c := Handle(s.c, mac, f), h := Record(s, mac, f),
           draft := if touched then s.draft.(clean := false) else s.draft)
    case Step(ch) =>
      var t := MainStep(s, ch);
      if t == s then s else t.(h := t.h.(work := t.h.work + 1))
  }

  function Run(mac: Mac, s: State, events: seq<Event>): State
    decreases |events|
  {
    if events == [] then s
    else Next(mac, Run(mac, s, events[..|events| - 1]), events[|events| - 1])
  }

  lemma {:induction false} RunAppend(mac: Mac, s: State, a: seq<Event>, b: seq<Event>)
    ensures Run(mac, s, a + b) == Run(mac, Run(mac, s, a), b)
    decreases |b|
  {
    if b == [] {
      assert a + b == a;
    } else {
      var n := |a + b| - 1;
      assert (a + b)[..n] == a + b[..|b| - 1] && (a + b)[n] == b[|b| - 1];
      RunAppend(mac, s, a, b[..|b| - 1]);
    }
  }

  lemma RunSnoc(mac: Mac, s: State, events: seq<Event>, e: Event)
    ensures Run(mac, s, events + [e]) == Next(mac, Run(mac, s, events), e)
  {
  }

  /** The frames delivered in a run, in order. */
  function Delivered(events: seq<Event>): seq<Rx>
    decreases |events|
  {
    if events == [] then []
    else
      var e := events[|events| - 1];
      Delivered(events[..|events| - 1]) + (if e.Deliver? then [e.f] else [])
  }

  lemma {:induction false} DeliveredCount(mac: Mac, c: Statics, events: seq<Event>)
    ensures Run(mac, Begin(c), events).h.delivered <= |Delivered(events)|
    decreases |events|
  {
    hide Judge, Handle, MainStep;
    if events != [] {
      DeliveredCount(mac, c, events[..|events| - 1]);
      DeliveredStep(mac, Run(mac, Begin(c), events[..|events| - 1]), events[|events| - 1]);
    }
  }

  lemma DeliveredStep(mac: Mac, s: State, e: Event)
    ensures Next(mac, s, e).h.delivered <= s.h.delivered + if e.Deliver? then 1 else 0
  {
    hide Judge, Handle;
  }

  /** What holds of every frame of a sequence from which the run's frames came holds of the run. */
  lemma {:induction false} ProperRun(events: seq<Event>, frames: seq<Rx>)
    requires Delivered(events) <= frames && forall f :: f in frames ==> Proper(f)
    ensures AllProper(events)
    decreases |events|
  {
    hide Proper;
    if events != [] {
      var n := |events| - 1;
      var earlier := Delivered(events[..n]);
      assert earlier <= Delivered(events);
      ProperRun(events[..n], frames);
      if events[n].Deliver? {
        assert Delivered(events)[|earlier|] == events[n].f;
      }
      assert forall i :: 0 <= i < n ==> events[..n][i] == events[i];
    }
  }

  lemma RunNothing(mac: Mac, s: State)
    ensures Run(mac, s, []) == s
  {
  }

  lemma Extend(mac: Mac, s0: State, events: seq<Event>, s: State, e: Event)
    returns (events': seq<Event>, s': State)
    requires Run(mac, s0, events) == s
    ensures events' == events + [e] && s' == Next(mac, s, e) && Run(mac, s0, events') == s'
    ensures Delivered(events') == Delivered(events) + (if e.Deliver? then [e.f] else [])
  {
    events', s' := events + [e], Next(mac, s, e);
    RunSnoc(mac, s0, events, e);
    assert events'[..|events'| - 1] == events;
  }

  /** One step of the main loop; its bookkeeping beyond the messages sent does not matter here. */
  lemma Advance(mac: Mac, s0: State, events: seq<Event>, s: State, ch: Choice)
    returns (events': seq<Event>, s': State)
    requires Run(mac, s0, events) == s
    ensures Run(mac, s0, events') == s' && Delivered(events') == Delivered(events)
    ensures events' == events + [Step(ch)]
    ensures var t := MainStep(s, ch);
      s'.c == t.c && s'.pc == t.pc && s'.retries == t.retries && s'.draft == t.draft && s'.h.sent == t.h.sent
      && s'.h.acked == t.h.acked && s'.h.draws == t.h.draws && s'.h.half == t.h.half && s'.h.tried == t.h.tried
  {
    events', s' := Extend(mac, s0, events, s, Step(ch));
  }

  /** The statics with which the program starts; the other addresses may have been configured. */
  predicate Boot(c: Statics) {
    c.myIp == NONE && c.servAddr == NONE && !c.gotReply && c.msgType == 0
  }

  /** What a well-behaved network delivers: every reply carries the options, and every OFFER names its
      server and an address, neither of them 255.255.255.255. */
  predicate Proper(f: Rx) {
    HeaderOk(f) && At(f.p, OP) == BOOTP_REPLY ==>
      && HasOptions(f.p)
      && (TypeOf(f.p) == Some(OFFER) ==> ServerId(Options(f.p)) != NONE && Slice(f.p, YIADDR, 4) != NONE)
  }

  predicate AllProper(events: seq<Event>) {
    forall i :: 0 <= i < |events| && events[i].Deliver? ==> Proper(events[i].f)
  }

  // ---------------------------------------------------------------- safety: what OK means

  /** got_reply is the handshake: while it is up, no series of frames changes any shared variable, nor what
      the main loop has copied so far. */
  lemma {:induction false} GotReplyFreezes(mac: Mac, s: State, frames: seq<Event>)
    requires s.c.gotReply && forall i :: 0 <= i < |frames| ==> frames[i].Deliver?
    ensures var t := Run(mac, s, frames); t.c == s.c && t.pc == s.pc && t.draft == s.draft
    decreases |frames|
  {
    if frames != [] {
      var n := |frames| - 1;
      assert forall i :: 0 <= i < n ==> frames[..n][i] == frames[i];
      GotReplyFreezes(mac, s, frames[..n]);
    }
  }

  predicate LeftOk(pc: Pc) {
    (pc.Leave? || pc.Removed? || pc.Done?) && pc.ok
  }

  ghost predicate Safe(mac: Mac, s: State) {
    && (s.c.gotReply ==>
          && s.h.last.Some?
          && var r := s.h.last.value;
             Judge(r.c, mac, r.f) == Accepted && s.c.myIp == Slice(r.f.p, YIADDR, 4))
    && (s.c.msgType == ACK ==> s.c.gotReply && s.h.acked)
    && (s.h.acked ==> s.c.gotReply && s.c.msgType == ACK)
    && (s.h.acked <==> s.h.last.Some? && IsType(s.h.last.value.f, ACK))
    && s.h.acks == (if s.h.acked then 1 else 0)
    && (s.pc.Kind? || s.pc.Clear? || LeftOk(s.pc) ==> s.c.gotReply)
    && (s.pc.Clear? ==> s.c.msgType != ACK)
    && (LeftOk(s.pc) ==> s.c.msgType == ACK)
  }

  lemma SafeStep(mac: Mac, s: State, e: Event)
    requires Safe(mac, s)
    ensures Safe(mac, Next(mac, s, e))
  {
    hide Safe, MainStep, Handle, Record;
    match e {
      case Step(ch) =>
        SafeMain(mac, s, ch);
        SafeWork(mac, MainStep(s, ch));
      case Deliver(f) =>
        if Installed(s.pc) {
          SafeDelivery(mac, s, f);
        }
    }
  }

  lemma SafeMain(mac: Mac, s: State, ch: Choice)
    requires Safe(mac, s)
    ensures Safe(mac, MainStep(s, ch))
  {
    hide Judge, IsType, Slice;
  }

  lemma SafeWork(mac: Mac, s: State)
    requires Safe(mac, s)
    ensures Safe(mac, s.(h := s.h.(work := s.h.work + 1)))
  {
    hide Judge, IsType, Slice;
  }

  lemma SafeDelivery(mac: Mac, s: State, f: Rx)
    requires Safe(mac, s) && Installed(s.pc)
    ensures Safe(mac, Next(mac, s, Deliver(f)))
  {
    hide HeaderOk, HasOptions, TypeOf, Options, Slice, At;
  }

  lemma {:induction false} SafeRun(mac: Mac, c: Statics, events: seq<Event>)
    requires Boot(c)
    ensures Safe(mac, Run(mac, Begin(c), events))
    decreases |events|
  {
    if events != [] {
      SafeRun(mac, c, events[..|events| - 1]);
      SafeStep(mac, Run(mac, Begin(c), events[..|events| - 1]), events[|events| - 1]);
    }
  }

  lemma OkStep(mac: Mac, s: State, e: Event)
    requires Safe(mac, s) && LeftOk(s.pc)
    ensures var t := Next(mac, s, e); t.c == s.c && LeftOk(t.pc)
  {
    hide HeaderOk, IsType, Slice, Handle, Record;
    if e.Deliver? {
      HandleFlag(s.c, mac, e.f);
    }
  }

  /** After the loop was left through its OK branch nothing changes the statics any more. */
  lemma {:induction false} FrozenAfterOk(mac: Mac, s: State, more: seq<Event>)
    requires Safe(mac, s) && LeftOk(s.pc)
    ensures var t := Run(mac, s, more); t.c == s.c && LeftOk(t.pc) && Safe(mac, t)
    decreases |more|
  {
    if more != [] {
      hide Safe, Next;
      var t := Run(mac, s, more[..|more| - 1]);
      FrozenAfterOk(mac, s, more[..|more| - 1]);
      SafeStep(mac, t, more[|more| - 1]);
      OkStep(mac, t, more[|more| - 1]);
    }
  }

  /** Safety over every interleaving from boot: when the loop has been left through its OK branch, the last
      accepted reply was a DHCPACK that carried, on delivery, the client's xid and hardware address; my_ip
      is the address it assigned; and whatever is delivered afterwards, no shared variable changes and
      dhcp() reports success. */
  lemma OkMeansAck(mac: Mac, c: Statics, events: seq<Event>, more: seq<Event>)
    requires Boot(c) && LeftOk(Run(mac, Begin(c), events).pc)
    ensures var s := Run(mac, Begin(c), events);
      && s.h.last.Some?
      && var r := s.h.last.value;
         && HeaderOk(r.f) && At(r.f.p, OP) == BOOTP_REPLY && IsType(r.f, ACK)
         && Slice(r.f.p, XID, 4) == r.c.xid && Slice(r.f.p, CHADDR, 6) == mac
         && s.c.myIp == Slice(r.f.p, YIADDR, 4)
    ensures var t := Run(mac, Begin(c), events + more);
      t.c == Run(mac, Begin(c), events).c && (t.pc.Done? ==> t.pc == Done(true, 0))
  {
    hide Run, Judge, HeaderOk, IsType, Slice, At;
    var s := Run(mac, Begin(c), events);
    SafeRun(mac, c, events);
    AcceptedAck(s.h.last.value.c, mac, s.h.last.value.f);
    RunAppend(mac, Begin(c), events, more);
    FrozenAfterOk(mac, s, more);
    SettledRun(mac, c, events + more);
  }

  lemma AcceptedAck(c: Statics, mac: Mac, f: Rx)
    requires Judge(c, mac, f) == Accepted && IsType(f, ACK)
    ensures HeaderOk(f) && At(f.p, OP) == BOOTP_REPLY
    ensures Slice(f.p, XID, 4) == c.xid && Slice(f.p, CHADDR, 6) == mac
  {
  }

  // ---------------------------------------------------------------- what success means

  predicate TimedOutAt(pc: Pc) { (pc.Leave? || pc.Removed? || pc.Done?) && !pc.ok }

  /** The reply came after the last test of got_reply: while the last time-out was being counted, or between
      that and the removal of the handler. */
  predicate Late(r: Reply) { (r.pc.Retry? && r.retries == 1) || r.pc == Leave(false) }

  ghost predicate Settled(s: State) {
    && (s.pc.Kind? || s.pc.Clear? || LeftOk(s.pc) ==> s.c.gotReply)
    && (s.c.gotReply ==> s.h.last.Some?)
    && (s.pc.Retry? && s.c.gotReply ==> s.h.last.value.pc.Retry? && s.h.last.value.retries == s.retries)
    && (s.h.last.Some? && Late(s.h.last.value) ==>
          s.c.gotReply && (TimedOutAt(s.pc) || (s.pc.Retry? && s.retries == 1)))
    && (TimedOutAt(s.pc) && s.c.gotReply ==> Late(s.h.last.value))
    && (s.pc.Clear? ==> s.c.msgType != ACK)
    && (LeftOk(s.pc) ==> s.c.msgType == ACK)
    && (s.pc.Done? ==> if s.c.gotReply then s.pc.ret == 0 else s.pc.ret == -1 && s.c.myIp == NONE)
  }

  lemma SettledStep(mac: Mac, s: State, e: Event)
    requires Settled(s)
    ensures Settled(Next(mac, s, e))
  {
    hide Settled, MainStep, Handle, Record;
    match e {
      case Step(ch) =>
        SettledMain(s, ch);
        SettledWork(MainStep(s, ch));
      case Deliver(f) =>
        if Installed(s.pc) {
          SettledDelivery(mac, s, f);
        }
    }
  }

  lemma SettledMain(s: State, ch: Choice)
    requires Settled(s)
    ensures Settled(MainStep(s, ch))
  {
    hide Judge, IsType, Slice;
  }

  lemma SettledWork(s: State)
    requires Settled(s)
    ensures Settled(s.(h := s.h.(work := s.h.work + 1)))
  {
    hide Judge, IsType, Slice;
  }

  lemma SettledDelivery(mac: Mac, s: State, f: Rx)
    requires Settled(s) && Installed(s.pc)
    ensures Settled(Next(mac, s, Deliver(f)))
  {
    hide HeaderOk, HasOptions, TypeOf, Options, Slice, At, Handle;
    HandleFlag(s.c, mac, f);
  }

  lemma {:induction false} SettledRun(mac: Mac, c: Statics, events: seq<Event>)
    requires Boot(c)
    ensures Settled(Run(mac, Begin(c), events))
    decreases |events|
  {
    if events != [] {
      SettledRun(mac, c, events[..|events| - 1]);
      SettledStep(mac, Run(mac, Begin(c), events[..|events| - 1]), events[|events| - 1]);
    }
  }

  /** When dhcp() returns 0, over every interleaving: exactly if the loop was left through its OK branch, or
      the last accepted reply was a late one, which the last test of got_reply could not see. That success is
      an acknowledged one exactly if the last accepted reply was an ACK. In every other case dhcp() returns
      -1 and leaves no address. */
  lemma SuccessIff(mac: Mac, c: Statics, events: seq<Event>)
    requires Boot(c) && Run(mac, Begin(c), events).pc.Done?
    ensures var s := Run(mac, Begin(c), events);
      && (s.pc.ret == 0 <==> s.pc.ok || (s.h.last.Some? && Late(s.h.last.value)))
      && (s.pc.ret == 0 && !s.h.acked <==>
            !s.pc.ok && s.h.last.Some? && Late(s.h.last.value) && !IsType(s.h.last.value.f, ACK))
      && (s.pc.ret == 0 ==> s.h.last.Some? && s.c.myIp == Slice(s.h.last.value.f.p, YIADDR, 4))
      && (s.pc.ret != 0 ==> s.pc == Done(false, -1) && s.c.myIp == NONE)
  {
    hide Run, IsType, Slice;
    SafeRun(mac, c, events);
    SettledRun(mac, c, events);
  }

  /** Seen from the reply: one that is accepted while the last time-out is being counted, or after it while
      the handler is still installed, makes every run that goes on from there end with success. */
  lemma LateReplySucceeds(mac: Mac, c: Statics, events: seq<Event>, f: Rx, more: seq<Event>)
    requires Boot(c)
    requires var s := Run(mac, Begin(c), events);
      Judge(s.c, mac, f) == Accepted && ((s.pc.Retry? && s.retries == 1) || s.pc == Leave(false))
    ensures var t := Run(mac, Begin(c), events + [Deliver(f)] + more);
      && t.c.myIp == Slice(f.p, YIADDR, 4)
      && (t.pc.Done? ==> t.pc == Done(false, 0))
  {
    var s := Run(mac, Begin(c), events);
    RunSnoc(mac, Begin(c), events, Deliver(f));
    SettledRun(mac, c, events + [Deliver(f)]);
    RunAppend(mac, Begin(c), events + [Deliver(f)], more);
    StaysLate(mac, Next(mac, s, Deliver(f)), more);
  }

  lemma {:induction false} StaysLate(mac: Mac, s: State, more: seq<Event>)
    requires Settled(s) && s.c.gotReply && Late(s.h.last.value)
    ensures var t := Run(mac, s, more); Settled(t) && t.c == s.c && t.h.last == s.h.last
    decreases |more|
  {
    if more != [] {
      var t := Run(mac, s, more[..|more| - 1]);
      StaysLate(mac, s, more[..|more| - 1]);
      SettledStep(mac, t, more[|more| - 1]);
      GotReplyStep(mac, t, more[|more| - 1]);
    }
  }

  /** While the flag is up, only Clear and the two halves of xid_gen write a shared variable. */
  lemma GotReplyStep(mac: Mac, s: State, e: Event)
    requires s.c.gotReply && !s.pc.Start? && !s.pc.Clear? && !s.pc.XidLow? && !s.pc.XidHigh?
    ensures var t := Next(mac, s, e); t.c == s.c && t.h.last == s.h.last
  {
  }

  // ---------------------------------------------------------------- how often it sends

  /** Requests not yet accounted for by a time-out or a retried reply. */
  function Pending(pc: Pc): nat {
    match pc
    case SendServer => 1
    case SendAddr => 1
    case Wait => 1
    case Test => 1
    case Kind => 1
    case Clear => 1
    case Retry => 1
    case Leave(ok) => if ok then 1 else 0
    case Removed(ok) => if ok then 1 else 0
    case Done(ok, _) => if ok then 1 else 0
    case _ => 0
  }

  /** Steps since the loop last went round, at most. */
  function Stage(pc: Pc): int {
    match pc
    case Start => 0
    case SendType => 1
    case SendServer => 2
    case SendAddr => 3
    case Wait => 4
    case Test => 5
    case Kind => 6
    case Retry => 6
    case Clear => 7
    case XidLow => -1
    case XidHigh => 0
    case Leave(_) => 7
    case Removed(_) => 8
    case Done(_, _) => 9
  }

  ghost predicate Counted(s: State) {
    && s.h.requests == s.h.timeouts + s.h.retried + Pending(s.pc)
    && |s.h.sent| + s.h.failures + (if s.pc.SendServer? || s.pc.SendAddr? then 1 else 0) == s.h.requests
    && s.retries == 6 - s.h.timeouts && 0 <= s.retries
    && (s.retries == 0 <==> (s.pc == Leave(false) || s.pc == Removed(false) || (s.pc.Done? && !s.pc.ok)))
    && s.h.accepted == s.h.retried + (if s.c.gotReply then 1 else 0)
    && s.h.accepted + s.h.resets <= s.h.delivered
    && (s.pc.Kind? || s.pc.Clear? ==> s.c.gotReply)
    && s.h.work <= 9 * (s.h.timeouts + s.h.retried) + Stage(s.pc)
  }

  lemma CountedStep(mac: Mac, s: State, e: Event)
    requires Counted(s)
    ensures Counted(Next(mac, s, e))
  {
    hide HeaderOk, HasOptions, TypeOf, Options, Slice, At, Handle;
    if e.Deliver? {
      HandleFlag(s.c, mac, e.f);
    }
  }

  lemma HandleFlag(c: Statics, mac: Mac, f: Rx)
    ensures Handle(c, mac, f).gotReply == (c.gotReply || Judge(c, mac, f) == Accepted)
    ensures c.gotReply ==> Judge(c, mac, f) == Ignored
    ensures Judge(c, mac, f) == Ignored ==> Handle(c, mac, f) == c
  {
  }

  lemma {:induction false} CountedRun(mac: Mac, c: Statics, events: seq<Event>)
    requires Boot(c)
    ensures Counted(Run(mac, Begin(c), events))
    decreases |events|
  {
    if events != [] {
      CountedRun(mac, c, events[..|events| - 1]);
      CountedStep(mac, Run(mac, Begin(c), events[..|events| - 1]), events[|events| - 1]);
    }
  }

  /** How many of the tries found no memory. */
  function Missed(tried: seq<bool>): nat
    decreases |tried|
  {
    if tried == [] then 0 else Missed(tried[..|tried| - 1]) + if tried[|tried| - 1] then 0 else 1
  }

  ghost predicate Tried(h: History) {
    |h.tried| == h.requests && h.failures == Missed(h.tried)
  }

  lemma TriedStep(mac: Mac, s: State, e: Event)
    requires Tried(s.h)
    ensures Tried(Next(mac, s, e).h)
  {
    hide Judge, Handle, IsType;
    if e.Step? && s.pc.SendType? {
      assert (s.h.tried + [!e.ch.fails])[..|s.h.tried|] == s.h.tried;
    } else {
      hide Missed;
    }
  }

  lemma {:induction false} TriedRun(mac: Mac, c: Statics, events: seq<Event>)
    ensures Tried(Run(mac, Begin(c), events).h)
    decreases |events|
  {
    if events != [] {
      hide Next, Tried;
      TriedRun(mac, c, events[..|events| - 1]);
      TriedStep(mac, Run(mac, Begin(c), events[..|events| - 1]), events[|events| - 1]);
    }
  }

  /** The attempt bound. Every request is answered by a time-out, by an accepted reply after which the loop
      goes round, or by the final ACK; at most one ACK is ever accepted. There are at most six time-outs, so
      with n replies delivered there are at most 7 + n requests and a bounded number of main-loop steps
      besides waiting: the loop ends whenever finitely many replies are delivered. */
  lemma AttemptBound(mac: Mac, c: Statics, events: seq<Event>)
    requires Boot(c)
    ensures var s := Run(mac, Begin(c), events);
      && (s.pc.Done? ==> s.h.requests == s.h.timeouts + s.h.retried + (if s.pc.ok then 1 else 0))
      && s.h.accepted == s.h.retried + (if s.c.gotReply then 1 else 0)
      && s.h.acks <= 1 && (s.pc.Done? && s.pc.ok ==> s.h.acks == 1)
      && |s.h.tried| == s.h.requests && |s.h.sent| + Missed(s.h.tried) <= s.h.requests
      && (s.pc.Done? ==> |s.h.sent| + Missed(s.h.tried) == s.h.requests)
      && s.h.timeouts <= 6
      && s.h.requests <= 7 + s.h.delivered
      && s.h.work <= 9 * (6 + s.h.delivered) + 9
  {
    hide Run;
    CountedRun(mac, c, events);
    TriedRun(mac, c, events);
    SafeRun(mac, c, events);
  }

  ghost predicate OffersBounded(s: State) {
    && s.h.offers <= s.h.resets + (if s.c.myIp != NONE || s.h.acked || s.pc.Done? then 1 else 0)
    && s.h.accepted == s.h.offers + (if s.h.acked then 1 else 0)
    && (s.h.acked ==> s.c.gotReply && s.c.msgType == ACK)
    && (s.pc.Kind? || s.pc.Clear? || LeftOk(s.pc) ==> s.c.gotReply)
    && (s.pc.Clear? ==> s.c.msgType != ACK)
  }

  lemma OffersStep(mac: Mac, s: State, e: Event)
    requires OffersBounded(s) && (e.Deliver? ==> Proper(e.f))
    ensures OffersBounded(Next(mac, s, e))
  {
    hide OffersBounded, MainStep, Handle, Record;
    match e {
      case Step(ch) =>
        OffersMain(s, ch);
        OffersWork(MainStep(s, ch));
      case Deliver(f) =>
        if Installed(s.pc) {
          OffersDelivery(mac, s, f);
        }
    }
  }

  lemma OffersMain(s: State, ch: Choice)
    requires OffersBounded(s)
    ensures OffersBounded(MainStep(s, ch))
  {
    hide Judge, IsType, Slice;
  }

  lemma OffersWork(s: State)
    requires OffersBounded(s)
    ensures OffersBounded(s.(h := s.h.(work := s.h.work + 1)))
  {
    hide Judge, IsType, Slice;
  }

  lemma OffersDelivery(mac: Mac, s: State, f: Rx)
    requires OffersBounded(s) && Installed(s.pc) && Proper(f)
    ensures OffersBounded(Next(mac, s, Deliver(f)))
  {
    hide HeaderOk, HasOptions, TypeOf, Options, Slice, At, ServerId;
  }

  lemma {:induction false} OffersRun(mac: Mac, c: Statics, events: seq<Event>)
    requires Boot(c) && AllProper(events)
    ensures OffersBounded(Run(mac, Begin(c), events))
    decreases |events|
  {
    hide Next, OffersBounded, Proper, Boot, Begin;
    if events == [] {
      OffersBegin(c);
    } else {
      var n := |events| - 1;
      assert forall i :: 0 <= i < n ==> events[..n][i] == events[i];
      OffersRun(mac, c, events[..n]);
      OffersStep(mac, Run(mac, Begin(c), events[..n]), events[n]);
    }
  }

  lemma OffersBegin(c: Statics)
    requires Boot(c)
    ensures OffersBounded(Begin(c))
  {
  }

  /** On a well-behaved network an OFFER is accepted only while no address is held: accepted OFFERs exceed
      the handler's resets by at most one, and so, with the final ACK, do the replies that cause sends. */
  lemma OffersFollowResets(mac: Mac, c: Statics, events: seq<Event>)
    requires Boot(c) && AllProper(events)
    ensures var s := Run(mac, Begin(c), events);
      && s.h.offers <= s.h.resets + 1
      && s.h.requests <= 6 + s.h.resets + 2
  {
    OffersRun(mac, c, events);
    CountedRun(mac, c, events);
  }
}
