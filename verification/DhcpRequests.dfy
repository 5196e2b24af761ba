/** What the client's requests name: server and address of one offer (src/net/ipconfig.c, RFC 2131
    section 4.3.2), and exactly when they do not. */
module DhcpRequests {
  import opened Machine
  import opened DhcpOptions
  import opened DhcpClient
  import opened DhcpRuns

  /** Until an ACK is accepted, my_ip and serv_addr are both unset or both from one accepted OFFER; while a
      REQUEST is being written without interference, the same holds of what was copied so far. */
  ghost predicate Paired(s: State) {
    && (s.h.pair in s.h.offered || s.h.offered == {})
    && (!s.h.acked && !s.pc.Done? ==>
          || (s.c.myIp == NONE && s.c.servAddr == NONE)
          || (s.c.myIp != NONE && s.c.servAddr != NONE
              && (s.c.servAddr, s.c.myIp) == s.h.pair && s.h.pair in s.h.offered))
    && (s.pc.SendServer? || s.pc.SendAddr? ==>
          s.draft.msgType == REQUEST && (s.draft.clean ==> !s.h.acked && s.c.servAddr != NONE))
    && (s.pc.SendAddr? && s.draft.clean ==> s.draft.server == s.c.servAddr)
    && (forall r :: r in s.h.sent && r.msgType == REQUEST && r.clean ==> (r.server, r.addr) in s.h.offered)
  }

  lemma PairedStep(mac: Mac, s: State, e: Event)
    requires Paired(s) && (e.Deliver? ==> Proper(e.f))
    ensures Paired(Next(mac, s, e))
  {
    hide Proper, Paired, MainStep, Handle, Record, Judge;
    match e {
      case Step(ch) =>
        PairedMain(s, ch);
        WorkAside(MainStep(s, ch));
      case Deliver(f) =>
        if Installed(s.pc) {
          PairedDelivery(mac, s, f);
        }
    }
  }

  lemma WorkAside(s: State)
    requires Paired(s)
    ensures Paired(s.(h := s.h.(work := s.h.work + 1)))
  {
  }

  lemma PairedMain(s: State, ch: Choice)
    requires Paired(s)
    ensures Paired(MainStep(s, ch))
  {
    if s.pc.SendType? || s.pc.SendAddr? {
      hide MainStep, Paired;
      PairedSend(s, ch);
    } else {
      assert MainStep(s, ch).h.sent == s.h.sent;
    }
  }

  lemma PairedSend(s: State, ch: Choice)
    requires Paired(s) && (s.pc.SendType? || s.pc.SendAddr?)
    ensures Paired(MainStep(s, ch))
  {
    var t := MainStep(s, ch);
    assert forall r :: r in t.h.sent ==> r in s.h.sent || r == t.h.sent[|s.h.sent|];
  }

  lemma PairedDelivery(mac: Mac, s: State, f: Rx)
    requires Paired(s) && Installed(s.pc) && Proper(f)
    ensures Paired(Next(mac, s, Deliver(f)))
  {
    hide HeaderOk, HasOptions, TypeOf, Options, Slice, At, ServerId;
  }

  /** Pair consistency, and with it RFC 2131 section 4.3.2: every REQUEST whose writing no handled reply
      interrupted names the server and the address of one single accepted OFFER. */
  lemma {:induction false} RequestsNameOneOffer(mac: Mac, c: Statics, events: seq<Event>)
    requires Boot(c) && AllProper(events)
    ensures Paired(Run(mac, Begin(c), events))
    decreases |events|
  {
    if events != [] {
      var n := |events| - 1;
      assert forall i :: 0 <= i < n ==> events[..n][i] == events[i];
      RequestsNameOneOffer(mac, c, events[..n]);
      PairedStep(mac, Run(mac, Begin(c), events[..n]), events[n]);
    }
  }

  // ---------------------------------------------------------------- exactly when a request is torn apart

  /** Frames that arrive one after the other. */
  function Delivers(frames: seq<Rx>): (events: seq<Event>)
    ensures |events| == |frames|
  {
    seq(|frames|, i requires 0 <= i < |frames| => Deliver(frames[i]))
  }

  /** The shared variables after the handler ran on each of them. */
  function After(c: Statics, mac: Mac, frames: seq<Rx>): Statics
    decreases |frames|
  {
    if frames == [] then c else Handle(After(c, mac, frames[..|frames| - 1]), mac, frames[|frames| - 1])
  }

  /** A frame and the shared variables it met. */
  datatype Meeting = Meeting(c: Statics, f: Rx)

  /** The last frame the handler did not ignore. */
  function LastHandled(c: Statics, mac: Mac, frames: seq<Rx>): Option<Meeting>
    decreases |frames|
  {
    if frames == [] then None
    else
      var earlier, f := frames[..|frames| - 1], frames[|frames| - 1];
      var before := After(c, mac, earlier);
      if Judge(before, mac, f) != Ignored then Some(Meeting(before, f)) else LastHandled(c, mac, earlier)
  }

  function NewOffer(mac: Mac, m: Option<Meeting>): set<(Quad, Quad)> {
    if m.Some? && Judge(m.value.c, mac, m.value.f) == Accepted && IsType(m.value.f, OFFER)
    then {OfferedPair(m.value.f)} else {}
  }

  /** The effect of a gap between two steps of the main loop, during which any frames arrive. */
  lemma {:induction false} Gap(mac: Mac, s: State, frames: seq<Rx>)
    requires Installed(s.pc)
    ensures var t := Run(mac, s, Delivers(frames));
      && t.c == After(s.c, mac, frames) && t.pc == s.pc && t.h.sent == s.h.sent
      && t.draft.msgType == s.draft.msgType && t.draft.server == s.draft.server
      && t.h.offered == s.h.offered + NewOffer(mac, LastHandled(s.c, mac, frames))
    ensures match LastHandled(s.c, mac, frames)
      case None => After(s.c, mac, frames) == s.c
      case Some(m) =>
        && After(s.c, mac, frames) == Handle(m.c, mac, m.f)
        && (Judge(m.c, mac, m.f) == Accepted ==> After(s.c, mac, frames).gotReply)
    decreases |frames|
  {
    hide HeaderOk, HasOptions, TypeOf, Options, Slice, At, ServerId, IsType, OfferedPair;
    if frames != [] {
      var n := |frames| - 1;
      assert Delivers(frames)[..n] == Delivers(frames[..n]);
      Gap(mac, s, frames[..n]);
    }
  }

  lemma {:induction false} TwoGaps(c: Statics, mac: Mac, a: seq<Rx>, b: seq<Rx>)
    ensures After(c, mac, a + b) == After(After(c, mac, a), mac, b)
    ensures LastHandled(c, mac, a + b) ==
      if LastHandled(After(c, mac, a), mac, b).Some? then LastHandled(After(c, mac, a), mac, b)
      else LastHandled(c, mac, a)
    decreases |b|
  {
    hide Handle, Judge;
    if b == [] {
      assert a + b == a;
    } else {
      var n := |a + b| - 1;
      assert (a + b)[..n] == a + b[..|b| - 1] && (a + b)[n] == b[|b| - 1];
      TwoGaps(c, mac, a, b[..|b| - 1]);
    }
  }

  /** How a REQUEST is written, from the choice of its type on: any frames, the copy of the server, any
      frames, the copy of the address. */
  function Writing(gap1: seq<Rx>, gap2: seq<Rx>, ch1: Choice, ch2: Choice): seq<Event> {
    Delivers(gap1) + [Step(ch1)] + Delivers(gap2) + [Step(ch2)]
  }

  /** The request that comes out, for whatever arrives meanwhile. */
  lemma Written(mac: Mac, s: State, gap1: seq<Rx>, gap2: seq<Rx>, ch1: Choice, ch2: Choice)
    requires s.pc.SendServer?
    ensures var t := Run(mac, s, Writing(gap1, gap2, ch1, ch2));
      && |t.h.sent| == |s.h.sent| + 1 && t.h.sent[..|s.h.sent|] == s.h.sent
      && (var w := t.h.sent[|s.h.sent|];
          && w.msgType == s.draft.msgType && w.server == After(s.c, mac, gap1).servAddr
          && w.addr == After(s.c, mac, gap1 + gap2).myIp)
      && t.h.offered == s.h.offered + NewOffer(mac, LastHandled(s.c, mac, gap1 + gap2))
  {
    hide Run, After, LastHandled, NewOffer, Handle, Record, Judge;
    var c1 := After(s.c, mac, gap1);
    Gap(mac, s, gap1);
    var s1 := Run(mac, s, Delivers(gap1));
    RunSnoc(mac, s, Delivers(gap1), Step(ch1));
    var s2 := Next(mac, s1, Step(ch1));
    RunAppend(mac, s, Delivers(gap1) + [Step(ch1)], Delivers(gap2));
    Gap(mac, s2, gap2);
    RunSnoc(mac, s, Delivers(gap1) + [Step(ch1)] + Delivers(gap2), Step(ch2));
    TwoGaps(s.c, mac, gap1, gap2);
    OneNewOffer(mac, s.c, gap1, gap2);
  }

  /** After an accepted reply nothing more is handled, so two gaps bring at most one new offer. */
  lemma OneNewOffer(mac: Mac, c: Statics, gap1: seq<Rx>, gap2: seq<Rx>)
    ensures var m1, m2 := LastHandled(c, mac, gap1), LastHandled(After(c, mac, gap1), mac, gap2);
      NewOffer(mac, m1) + NewOffer(mac, m2) == NewOffer(mac, LastHandled(c, mac, gap1 + gap2))
  {
    hide Handle, Judge, Run, IsType, OfferedPair;
    TwoGaps(c, mac, gap1, gap2);
    Gap(mac, Begin(c).(pc := Wait), gap1);
    if After(c, mac, gap1).gotReply {
      NoneHandled(After(c, mac, gap1), mac, gap2);
    }
  }

  lemma {:induction false} NoneHandled(c: Statics, mac: Mac, frames: seq<Rx>)
    requires c.gotReply
    ensures After(c, mac, frames) == c && LastHandled(c, mac, frames) == None
    decreases |frames|
  {
    if frames != [] {
      NoneHandled(c, mac, frames[..|frames| - 1]);
    }
  }

  /** No server or address of an accepted OFFER is 255.255.255.255. */
  ghost predicate Named(s: State) {
    forall pair :: pair in s.h.offered ==> pair.0 != NONE && pair.1 != NONE
  }

  lemma NamedStep(mac: Mac, s: State, e: Event)
    requires Named(s) && (e.Deliver? ==> Proper(e.f))
    ensures Named(Next(mac, s, e))
  {
    hide HeaderOk, HasOptions, TypeOf, Options, Slice, At, ServerId, Handle;
  }

  lemma {:induction false} NamedRun(mac: Mac, c: Statics, events: seq<Event>)
    requires AllProper(events)
    ensures Named(Run(mac, Begin(c), events))
    decreases |events|
  {
    if events != [] {
      hide Next, Named, Proper, Begin;
      var n := |events| - 1;
      assert forall i :: 0 <= i < n ==> events[..n][i] == events[i];
      NamedRun(mac, c, events[..n]);
      NamedStep(mac, Run(mac, Begin(c), events[..n]), events[n]);
    }
  }

  /** The condition: the last reply handled while the request was being written was an OFFER of the server
      already copied, or assigned an address that this server had offered before; or none was handled, and
      the client held an offer (always so before an ACK), or held what it had been offered. */
  ghost predicate Sound(s: State, mac: Mac, gap1: seq<Rx>, gap2: seq<Rx>) {
    var server := After(s.c, mac, gap1).servAddr;
    match LastHandled(s.c, mac, gap1 + gap2)
    case None => !s.h.acked || (s.c.servAddr, s.c.myIp) in s.h.offered
    case Some(m) =>
      && Judge(m.c, mac, m.f) == Accepted
      && ((server, Slice(m.f.p, YIADDR, 4)) in s.h.offered
          || (IsType(m.f, OFFER) && ServerId(Options(m.f.p)) == server))
  }

  /** RFC 2131 section 4.3.2, exactly: a REQUEST, begun anywhere in any run of proper frames and written
      while any proper frames arrive, names the server and the address of one accepted OFFER if and only if
      that condition holds. */
  lemma NamesOneOfferIff(mac: Mac, c: Statics, events: seq<Event>, begin: Choice,
                         gap1: seq<Rx>, gap2: seq<Rx>, ch1: Choice, ch2: Choice)
    requires Boot(c) && AllProper(events + [Step(begin)])
    requires Run(mac, Begin(c), events).pc == SendType
    requires Run(mac, Begin(c), events + [Step(begin)]).pc == SendServer
    requires forall f :: f in gap1 + gap2 ==> Proper(f)
    ensures var s := Run(mac, Begin(c), events + [Step(begin)]);
      var t := Run(mac, Begin(c), events + [Step(begin)] + Writing(gap1, gap2, ch1, ch2));
      && |t.h.sent| == |s.h.sent| + 1 && t.h.sent[|s.h.sent|].msgType == REQUEST
      && ((t.h.sent[|s.h.sent|].server, t.h.sent[|s.h.sent|].addr) in t.h.offered <==> Sound(s, mac, gap1, gap2))
  {
    hide Run, After, LastHandled, Handle, Judge, IsType, Options, Slice, ServerId, Writing;
    var s := Run(mac, Begin(c), events + [Step(begin)]);
    RequestsNameOneOffer(mac, c, events + [Step(begin)]);
    BegunWithServer(mac, c, events, begin);
    NamedRun(mac, c, events + [Step(begin)]);
    RunAppend(mac, Begin(c), events + [Step(begin)], Writing(gap1, gap2, ch1, ch2));
    Written(mac, s, gap1, gap2, ch1, ch2);
    WindowEnd(mac, s, gap1, gap2);
  }

  lemma BegunWithServer(mac: Mac, c: Statics, events: seq<Event>, begin: Choice)
    requires Run(mac, Begin(c), events).pc == SendType
    requires Run(mac, Begin(c), events + [Step(begin)]).pc == SendServer
    ensures Run(mac, Begin(c), events + [Step(begin)]).c.servAddr != NONE
  {
    hide Run;
    RunSnoc(mac, Begin(c), events, Step(begin));
  }

  /** What the last handled reply leaves, and what no reply leaves. */
  lemma WindowEnd(mac: Mac, s: State, gap1: seq<Rx>, gap2: seq<Rx>)
    ensures match LastHandled(s.c, mac, gap1 + gap2)
      case None => After(s.c, mac, gap1) == After(s.c, mac, gap1 + gap2) == s.c
      case Some(m) =>
        && Judge(m.c, mac, m.f) != Ignored
        && After(s.c, mac, gap1 + gap2).myIp ==
           if Judge(m.c, mac, m.f) == Reset then NONE else Slice(m.f.p, YIADDR, 4)
  {
    hide HeaderOk, HasOptions, TypeOf, Options, Slice, At, ServerId, Run;
    TwoGaps(s.c, mac, gap1, gap2);
    Gap(mac, s.(pc := Wait), gap1);
    Gap(mac, s.(pc := Wait), gap1 + gap2);
    MeetingJudged(s.c, mac, gap1 + gap2);
  }

  lemma {:induction false} MeetingJudged(c: Statics, mac: Mac, frames: seq<Rx>)
    ensures var m := LastHandled(c, mac, frames); m.Some? ==> Judge(m.value.c, mac, m.value.f) != Ignored
    decreases |frames|
  {
    hide Judge, Handle;
    if frames != [] {
      MeetingJudged(c, mac, frames[..|frames| - 1]);
    }
  }

  /** One frame between the two copies, before any ACK: the request still names the offer it was begun for
      exactly if the frame is ignored, or is an ACK of the very address that was offered. */
  lemma OneReplyBetween(mac: Mac, s: State, f: Rx, ch1: Choice, ch2: Choice)
    requires Paired(s) && s.pc.SendServer? && !s.h.acked && s.c.servAddr != NONE && Proper(f)
    ensures var w := Run(mac, s, Writing([], [f], ch1, ch2)).h.sent;
      && |w| == |s.h.sent| + 1
      && ((w[|s.h.sent|].server, w[|s.h.sent|].addr) == s.h.pair <==>
            || Judge(s.c, mac, f) == Ignored
            || (IsType(f, ACK) && Judge(s.c, mac, f) == Accepted && Slice(f.p, YIADDR, 4) == s.c.myIp))
  {
    hide HeaderOk, Options, Slice, At, ServerId, Run, Writing;
    Written(mac, s, [], [f], ch1, ch2);
    assert [] + [f] == [f] && [f][..0] == [];
  }
}
