/** Which xid an attempt of the DHCP client uses, and which replies it therefore takes (src/net/ipconfig.c). */
module DhcpXids {
  import opened Machine
  import opened DhcpOptions
  import opened DhcpClient
  import opened DhcpRuns
  import opened DhcpRequests

  lemma {:induction false} AfterKeepsXid(c: Statics, mac: Mac, frames: seq<Rx>)
    ensures After(c, mac, frames).xid == c.xid
    decreases |frames|
  {
    hide Judge, TypeOf, HasOptions;
    if frames != [] {
      AfterKeepsXid(c, mac, frames[..|frames| - 1]);
    }
  }

  /** xid_gen, from any state and whatever arrives before and between its two stores: afterwards the xid
      consists of the bytes rand() gave, the first two of one call and the last two of the other, and the
      loop is about to send. */
  lemma XidRedrawn(mac: Mac, s: State, gap1: seq<Rx>, gap2: seq<Rx>, ch1: Choice, ch2: Choice)
    requires s.pc.XidLow?
    ensures var t := Run(mac, s, Delivers(gap1) + [Step(ch1)] + Delivers(gap2) + [Step(ch2)]);
      t.pc == SendType && t.c.xid == [ch1.r[0], ch1.r[1], ch2.r[2], ch2.r[3]]
  {
    hide Run, After, LastHandled, NewOffer, Handle, Record, Judge;
    Gap(mac, s, gap1);
    AfterKeepsXid(s.c, mac, gap1);
    var s1 := Run(mac, s, Delivers(gap1));
    RunSnoc(mac, s, Delivers(gap1), Step(ch1));
    var s2 := Next(mac, s1, Step(ch1));
    RunAppend(mac, s, Delivers(gap1) + [Step(ch1)], Delivers(gap2));
    Gap(mac, s2, gap2);
    AfterKeepsXid(s2.c, mac, gap2);
    RunSnoc(mac, s, Delivers(gap1) + [Step(ch1)] + Delivers(gap2), Step(ch2));
  }

  /** How many xids were drawn in full after k time-outs, seen from program point pc. */
  function Draws(pc: Pc, timeouts: nat): int {
    if pc.Start? then 0
    else if pc.XidLow? || pc.XidHigh? || TimedOutAt(pc) then timeouts
    else timeouts + 1
  }

  /** The xid in use is the latest that was drawn, half overwritten while the next is being drawn. */
  ghost predicate InUse(s: State) {
    var n := |s.h.draws|;
    && n == Draws(s.pc, s.h.timeouts)
    && (s.pc.Start? ==> s.h.timeouts == 0) && (!s.pc.Start? ==> n > 0)
    && (!s.pc.Start? && !s.pc.XidHigh? ==> s.c.xid == s.h.draws[n - 1])
    && (s.pc.XidHigh? ==> s.c.xid == s.h.half[..2] + s.h.draws[n - 1][2..])
  }

  lemma InUseStep(mac: Mac, s: State, e: Event)
    requires InUse(s)
    ensures InUse(Next(mac, s, e))
  {
    hide InUse, MainStep, Handle, Record;
    match e {
      case Step(ch) =>
        InUseMain(s, ch);
        InUseAside(MainStep(s, ch));
      case Deliver(f) =>
        if Installed(s.pc) {
          InUseDelivery(mac, s, f);
        }
    }
  }

  lemma InUseMain(s: State, ch: Choice)
    requires InUse(s)
    ensures InUse(MainStep(s, ch))
  {
    if s.pc.XidHigh? {
      Halved(s.h.half, s.h.draws[|s.h.draws| - 1], ch.r);
    }
  }

  lemma Halved(half: Quad, last: Quad, r: Quad)
    ensures (half[..2] + last[2..])[..2] + r[2..] == half[..2] + r[2..]
  {
  }

  lemma InUseAside(s: State)
    requires InUse(s)
    ensures InUse(s.(h := s.h.(work := s.h.work + 1)))
  {
  }

  lemma InUseDelivery(mac: Mac, s: State, f: Rx)
    requires InUse(s) && Installed(s.pc)
    ensures InUse(Next(mac, s, Deliver(f)))
  {
    hide Judge, HasOptions, TypeOf, IsType, OfferedPair, Slice;
  }

  lemma {:induction false} InUseRun(mac: Mac, c: Statics, events: seq<Event>)
    ensures InUse(Run(mac, Begin(c), events))
    decreases |events|
  {
    if events != [] {
      hide Next, InUse;
      InUseRun(mac, c, events[..|events| - 1]);
      InUseStep(mac, Run(mac, Begin(c), events[..|events| - 1]), events[|events| - 1]);
    }
  }

  /** In every reachable state in which no xid is being drawn, a reply is taken up only if it carries the xid
      drawn after the latest time-out: after k time-outs the k-th one, counting from 0, or the last of the six
      when the client has given up. So a late reply to an earlier attempt is ignored unless the same xid was
      drawn again. */
  lemma OnlyTheLatestXid(mac: Mac, c: Statics, events: seq<Event>, f: Rx)
    requires var s := Run(mac, Begin(c), events);
      Installed(s.pc) && !s.pc.XidHigh? && Judge(s.c, mac, f) != Ignored
    ensures var s := Run(mac, Begin(c), events);
      var k := if s.pc.XidLow? || s.pc == Leave(false) then s.h.timeouts - 1 else s.h.timeouts;
      0 <= k < |s.h.draws| && Slice(f.p, 32, 4) == s.h.draws[k] && k == |s.h.draws| - 1
  {
    hide Run, HeaderOk, HasOptions, TypeOf, Slice;
    InUseRun(mac, c, events);
  }
}
