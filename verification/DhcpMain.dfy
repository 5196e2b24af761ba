/** The retry loop dhcp() of src/net/ipconfig.c as it is written, shown to follow the transition system of
    DhcpRuns. */
module DhcpMain {
  import opened Machine
  import opened DhcpOptions
  import opened DhcpClient
  import opened DhcpRuns
  import opened Net

  function Total(feed: seq<seq<Rx>>): nat {
    if feed == [] then 0 else |feed[0]| + Total(feed[1..])
  }

  function Flat(feed: seq<seq<Rx>>): (frames: seq<Rx>)
    ensures |frames| == Total(feed)
  {
    if feed == [] then [] else feed[0] + Flat(feed[1..])
  }

  /** The frames that were delivered, then those still to come: no step loses, adds or reorders one. */
  ghost function Stream(events: seq<Event>, feed: seq<seq<Rx>>): seq<Rx> { Delivered(events) + Flat(feed) }

  function Flag(b: bool): nat { if b then 1 else 0 }

  /** The loop stands at `s`, which `events` lead to from `s0`. */
  ghost predicate Follows(client: Client, s0: State, events: seq<Event>, s: State)
    reads client
  {
    Run(client.mac, s0, events) == s && s.c == client.Abs()
  }

  /** What the two oracles, rand() and malloc(), answered so far. */
  ghost predicate SameDraws(h: History, h': History) {
    h'.draws == h.draws && h'.half == h.half && h'.tried == h.tried
  }

  /** Interrupts at one point of the main loop: the handler runs on each frame that has arrived. */
  method Interrupts(client: Client, frames: seq<Rx>, ghost s0: State, ghost events: seq<Event>, ghost s: State)
    returns (ghost events': seq<Event>, ghost s': State)
    requires Follows(client, s0, events, s) && Installed(s.pc)
    modifies client
    ensures Follows(client, s0, events', s')
    ensures s'.pc == s.pc && s'.retries == s.retries && s'.h.sent == s.h.sent && s'.c.xid == s.c.xid
    ensures s'.draft.msgType == s.draft.msgType && s'.draft.server == s.draft.server && SameDraws(s.h, s'.h)
    ensures Flag(s.c.gotReply) <= Flag(s'.c.gotReply) <= Flag(s.c.gotReply) + |frames|
    ensures Delivered(events') == Delivered(events) + frames
  {
    events', s' := events, s;
    for i := 0 to |frames|
      invariant Follows(client, s0, events', s')
      invariant s'.pc == s.pc && s'.retries == s.retries && s'.h.sent == s.h.sent && s'.c.xid == s.c.xid
      invariant s'.draft.msgType == s.draft.msgType && s'.draft.server == s.draft.server && SameDraws(s.h, s'.h)
      invariant Flag(s.c.gotReply) <= Flag(s'.c.gotReply) <= Flag(s.c.gotReply) + i
      invariant Delivered(events') == Delivered(events) + frames[..i]
    {
      hide Judge, HasOptions, TypeOf, Delivered;
      TakeNext(Delivered(events), frames, i);
      client.Recv(frames[i]);
      events', s' := Extend(client.mac, s0, events', s', Deliver(frames[i]));
    }
  }

  /** The 312 bytes of options that a request carries: the message, and zeros. */
  function OptionsField(w: Sent): (s: seq<byte>)
    ensures |s| == 312
  {
    Splice(seq(312, _ => 0), 0, MessageBytes(w.msgType, w.server, w.addr))
  }

  /** The options of every request that was written, byte for byte. */
  ghost predicate Logged(log: seq<seq<byte>>, sent: seq<Sent>) {
    |log| == |sent| && forall i :: 0 <= i < |log| ==> log[i] == OptionsField(sent[i])
  }

  /** A receiver reads in them what the transition system says was sent, torn apart or not. */
  lemma SentReadsBack(w: Sent, p: seq<byte>, off: nat, end: nat)
    requires Holds(p, off, OptionsField(w)) && end >= off + 312
    ensures Slice(p, off, 4) == [99, 130, 83, 99]
    ensures var vs := Scan(p, off + 4, end);
      && MessageType(vs) == Some(w.msgType)
      && (w.msgType == 3 ==> ServerId(vs) == w.server && Address(p, vs, 50, NONE) == w.addr)
    ensures forall code: byte ::
      Carries(Scan(p, off + 4, end), code, MessageData(w.msgType, w.server, w.addr, code))
  {
    hide Scan, MessageData, Carries, MessageBytes, Holds;
    var bytes, field := MessageBytes(w.msgType, w.server, w.addr), OptionsField(w);
    assert field == bytes + field[|bytes|..];
    HoldsSplit(p, off, bytes, field[|bytes|..]);
    MessageReadsBack(p, off, end, w.msgType, w.server, w.addr);
  }

  /** A point at which the handler can run; `feed` holds the replies still to come, a batch for each point. */
  method Pause(client: Client, feed: seq<seq<Rx>>, ghost s0: State, ghost events: seq<Event>, ghost s: State)
    returns (feed': seq<seq<Rx>>, ghost events': seq<Event>, ghost s': State)
    requires Follows(client, s0, events, s) && Installed(s.pc)
    modifies client
    ensures Follows(client, s0, events', s')
    ensures s'.pc == s.pc && s'.retries == s.retries && s'.h.sent == s.h.sent && s'.c.xid == s.c.xid
    ensures s'.draft.msgType == s.draft.msgType && s'.draft.server == s.draft.server && SameDraws(s.h, s'.h)
    ensures Flag(s.c.gotReply) <= Flag(s'.c.gotReply)
    ensures Total(feed') + Flag(s'.c.gotReply) <= Total(feed) + Flag(s.c.gotReply)
    ensures Stream(events', feed') == Stream(events, feed) && |feed'| == if feed == [] then 0 else |feed| - 1
  {
    hide Delivered;
    feed', events', s' := feed, events, s;
    if feed != [] {
      AppendAssoc(Delivered(events), feed[0], Flat(feed[1..]));
      feed' := feed[1..];
      events', s' := Interrupts(client, feed[0], s0, events, s);
    }
  }

  /** dhcp_options_init, on the options field of a new packet: it reads serv_addr, then serv_addr again and
      my_ip, and the handler may come between. */
  method OptionsInit(client: Client, feed0: seq<seq<Rx>>, buf: array<byte>,
                     ghost s0: State, ghost events0: seq<Event>, ghost st: State)
    returns (feed: seq<seq<Rx>>, ghost events: seq<Event>, ghost s: State)
    requires Follows(client, s0, events0, st) && st.pc == SendType && buf.Length == 312
    modifies client, buf
    ensures Follows(client, s0, events, s) && s.pc == Wait && s.retries == st.retries
    ensures s.h.draws == st.h.draws && s.h.tried == st.h.tried + [true]
    ensures |s.h.sent| == |st.h.sent| + 1 && s.h.sent[..|st.h.sent|] == st.h.sent
    ensures var w := s.h.sent[|st.h.sent|];
      buf[..] == Splice(old(buf[..]), 0, MessageBytes(w.msgType, w.server, w.addr))
    ensures Total(feed) + Flag(s.c.gotReply) <= Total(feed0) + Flag(st.c.gotReply)
    ensures Stream(events, feed) == Stream(events0, feed0)
  {
    hide Splice, Encode, MessageBytes, Delivered, Run, Next;
    ghost var was := buf[..];
    feed, events, s := feed0, events0, st;
    var msgType := if client.servAddr == NONE then DISCOVER else REQUEST;
    events, s := Advance(client.mac, s0, events, s, Choice(false, false, ANY));
    var opt := StartOptions(buf, msgType);
    ghost var server, addr := NONE, NONE;
    if msgType == REQUEST {
      opt, server, addr, feed, events, s := ServerAndAddress(client, feed, buf, was, s0, events, s);
    }
    EndOptions(buf, opt, was, msgType, server, addr);
  }

  method StartOptions(buf: array<byte>, msgType: byte) returns (opt: nat)
    requires buf.Length == 312
    modifies buf
    ensures opt == 7 == 4 + |Encode([Item(OPT_MT, [msgType])])|
    ensures buf[..] == Splice(old(buf[..]), 0, COOKIE + Encode([Item(OPT_MT, [msgType])]))
  {
    hide Splice, Encode;
    ghost var was := buf[..];
    Store(buf, 0, COOKIE);
    EncodeNothing();
    assert COOKIE + [] == COOKIE && [] + [Item(OPT_MT, [msgType])] == [Item(OPT_MT, [msgType])];
    opt := EmitItem(buf, 4, OPT_MT, [msgType], was, []);
  }

  /** The part of a REQUEST that reads the shared variables. */
  method ServerAndAddress(client: Client, feed0: seq<seq<Rx>>, buf: array<byte>, ghost was: seq<byte>,
                          ghost s0: State, ghost events0: seq<Event>, ghost st: State)
    returns (opt: nat, ghost server: Quad, ghost addr: Quad,
             feed: seq<seq<Rx>>, ghost events: seq<Event>, ghost s: State)
    requires Follows(client, s0, events0, st) && st.pc == SendServer && buf.Length == |was| == 312
    requires 7 == 4 + |Encode([Item(OPT_MT, [REQUEST])])|
    requires buf[..] == Splice(was, 0, COOKIE + Encode([Item(OPT_MT, [REQUEST])]))
    modifies client, buf
    ensures Follows(client, s0, events, s) && s.pc == Wait && s.retries == st.retries && SameDraws(st.h, s.h)
    ensures |s.h.sent| == |st.h.sent| + 1 && s.h.sent[..|st.h.sent|] == st.h.sent
    ensures var w := s.h.sent[|st.h.sent|];
      w.msgType == st.draft.msgType && w.server == server && w.addr == addr
    ensures opt == 19 == 4 + |Encode(Leading(REQUEST, server, addr))|
    ensures buf[..] == Splice(was, 0, COOKIE + Encode(Leading(REQUEST, server, addr)))
    ensures Total(feed) + Flag(s.c.gotReply) <= Total(feed0) + Flag(st.c.gotReply)
    ensures Stream(events, feed) == Stream(events0, feed0)
  {
    hide Splice, Encode, Delivered, Run, Next;
    ghost var items := [Item(OPT_MT, [REQUEST])];
    feed, events, s := Pause(client, feed0, s0, events0, st);
    server := client.servAddr;
    opt := EmitItem(buf, 7, OPT_SRVID, client.servAddr, was, items);
    items := items + [Item(OPT_SRVID, server)];
    events, s := Advance(client.mac, s0, events, s, Choice(false, false, ANY));
    feed, events, s := Pause(client, feed, s0, events, s);
    addr := client.myIp;
    opt := EmitItem(buf, opt, OPT_REQIP, client.myIp, was, items);
    events, s := Advance(client.mac, s0, events, s, Choice(false, false, ANY));
  }

  method EndOptions(buf: array<byte>, opt0: nat, ghost was: seq<byte>, ghost msgType: byte,
                    ghost server: Quad, ghost addr: Quad)
    requires buf.Length == |was| == 312 && opt0 <= 19
    requires opt0 == 4 + |Encode(Leading(msgType, server, addr))|
    requires buf[..] == Splice(was, 0, COOKIE + Encode(Leading(msgType, server, addr)))
    modifies buf
    ensures buf[..] == Splice(was, 0, MessageBytes(msgType, server, addr))
  {
    hide Splice, Encode, MessageBytes;
    ghost var items := Leading(msgType, server, addr);
    var opt := opt0;
    if HOST_NAME[0] != 0 {
      opt := EmitItem(buf, opt, OPT_HNAME, HOST_NAME, was, items);
    }
    items := items + [NAME_ITEM];
    opt := EmitItem(buf, opt, OPT_PRLIST, [OPT_SMASK, OPT_ROUTER, OPT_DNS, OPT_DNAME], was, items);
    items := items + [LIST_ITEM];
    Store(buf, opt, [OPT_END]);
    SpliceNext(was, COOKIE + Encode(items), [OPT_END]);
    TheMessage(msgType, server, addr, items);
  }

  lemma TheMessage(msgType: byte, server: Quad, addr: Quad, items: seq<Item>)
    requires ValidItems(items) && items == MessageItems(msgType, server, addr)
    ensures COOKIE + Encode(items) + [OPT_END] == MessageBytes(msgType, server, addr)
  {
  }

  /** dhcp_send_request, as far as the shared variables and the options go. */
  method SendRequest(client: Client, feed0: seq<seq<Rx>>, log0: seq<seq<byte>>, memory: bool,
                     ghost s0: State, ghost events0: seq<Event>, ghost st: State)
    returns (feed: seq<seq<Rx>>, log: seq<seq<byte>>, ghost events: seq<Event>, ghost s: State)
    requires Follows(client, s0, events0, st) && st.pc == SendType && Logged(log0, st.h.sent)
    modifies client
    ensures Follows(client, s0, events, s) && s.pc == Wait && s.retries == st.retries && Logged(log, s.h.sent)
    ensures s.h.draws == st.h.draws && s.h.tried == st.h.tried + [memory]
    ensures Total(feed) + Flag(s.c.gotReply) <= Total(feed0) + Flag(st.c.gotReply)
    ensures Stream(events, feed) == Stream(events0, feed0)
  {
    hide Delivered, MessageBytes, Splice, Run, Next;
    feed, log, events, s := feed0, log0, events0, st;
    if !memory {
      events, s := Advance(client.mac, s0, events, s, Choice(true, false, ANY));
      return;
    }
    var options := new byte[312](_ => 0);
    assert options[..] == seq(312, _ => 0);
    feed, events, s := OptionsInit(client, feed, options, s0, events, s);
    log := log + [options[..]];
  }

  /** The time-out loop `while (t_out && !got_reply) t_out--;`. A time-out is not reported before `patience`
      turns have passed, each of which leaves room for one batch of replies. */
  method TimeOutLoop(client: Client, feed0: seq<seq<Rx>>, patience: nat,
                     ghost s0: State, ghost events0: seq<Event>, ghost st: State)
    returns (expired: bool, feed: seq<seq<Rx>>, ghost events: seq<Event>, ghost s: State)
    requires Follows(client, s0, events0, st) && st.pc == Wait
    modifies client
    ensures Follows(client, s0, events, s) && s.pc == Wait && s.retries == st.retries && s.h.sent == st.h.sent
    ensures SameDraws(st.h, s.h) && Stream(events, feed) == Stream(events0, feed0)
    ensures expired || s.c.gotReply
    ensures expired ==> |feed| <= if patience < |feed0| then |feed0| - patience else 0
    ensures |feed| <= |feed0|
    ensures Total(feed) + Flag(s.c.gotReply) <= Total(feed0) + Flag(st.c.gotReply)
  {
    hide Delivered, Total, Flat, Run, Next;
    feed, events, s := feed0, events0, st;
    var tOut := patience;
    while tOut > 0 && !client.gotReply
      invariant Follows(client, s0, events, s) && s.pc == Wait && s.retries == st.retries && s.h.sent == st.h.sent
      invariant 0 <= tOut <= patience && SameDraws(st.h, s.h) && |feed| <= |feed0|
      invariant |feed| <= if patience - tOut < |feed0| then |feed0| - (patience - tOut) else 0
      invariant Total(feed) + Flag(s.c.gotReply) <= Total(feed0) + Flag(st.c.gotReply)
      invariant Stream(events, feed) == Stream(events0, feed0)
      decreases tOut
    {
      tOut := tOut - 1;
      feed, events, s := Pause(client, feed, s0, events, s);
    }
    expired := tOut == 0;
  }

  /** The time-out loop and the test after it. */
  method WaitForReply(client: Client, feed0: seq<seq<Rx>>, patience: nat,
                      ghost s0: State, ghost events0: seq<Event>, ghost st: State)
    returns (got: bool, feed: seq<seq<Rx>>, ghost events: seq<Event>, ghost s: State)
    requires Follows(client, s0, events0, st) && st.pc == Wait
    modifies client
    ensures Follows(client, s0, events, s) && s.retries == st.retries && s.h.sent == st.h.sent
    ensures s.pc == if got then Kind else Retry
    ensures got ==> s.c.gotReply
    ensures !got ==> |feed| <= if patience < |feed0| then |feed0| - patience else 0
    ensures SameDraws(st.h, s.h)
    ensures Total(feed) + Flag(s.c.gotReply) <= Total(feed0) + Flag(st.c.gotReply)
    ensures Stream(events, feed) == Stream(events0, feed0)
  {
    hide Delivered, Total, Flat, Run, Next;
    var expired;
    expired, feed, events, s := TimeOutLoop(client, feed0, patience, s0, events0, st);
    events, s := Advance(client.mac, s0, events, s, Choice(false, expired, ANY));
    feed, events, s := Pause(client, feed, s0, events, s);
    got := client.gotReply;
    events, s := Advance(client.mac, s0, events, s, Choice(false, false, ANY));
  }

  /** The branch taken when a reply was seen: leave on an ACK, else lower the flag and go round. */
  method ReplySeen(client: Client, feed0: seq<seq<Rx>>, ghost s0: State, ghost events0: seq<Event>, ghost st: State)
    returns (ok: bool, feed: seq<seq<Rx>>, ghost events: seq<Event>, ghost s: State)
    requires Follows(client, s0, events0, st) && st.pc == Kind && st.c.gotReply
    modifies client
    ensures Follows(client, s0, events, s) && s.retries == st.retries && s.h.sent == st.h.sent
    ensures s.pc == (if ok then Leave(true) else SendType) && SameDraws(st.h, s.h)
    ensures !ok ==> Total(feed) + Flag(s.c.gotReply) < Total(feed0) + Flag(st.c.gotReply)
    ensures Stream(events, feed) == Stream(events0, feed0)
  {
    hide Delivered;
    feed, events, s := Pause(client, feed0, s0, events0, st);
    ok := client.msgType == ACK;
    events, s := Advance(client.mac, s0, events, s, Choice(false, false, ANY));
    if !ok {
      feed, events, s := Pause(client, feed, s0, events, s);
      client.gotReply := false;
      events, s := Advance(client.mac, s0, events, s, Choice(false, false, ANY));
    }
  }

  /** The branch taken on a time-out: give up after the sixth, else draw a new xid and go round. */
  method TimedOut(client: Client, feed0: seq<seq<Rx>>, retries0: int, r: Quad,
                  ghost s0: State, ghost events0: seq<Event>, ghost st: State)
    returns (retries: int, feed: seq<seq<Rx>>, ghost events: seq<Event>, ghost s: State)
    requires Follows(client, s0, events0, st) && st.pc == Retry && st.retries == retries0
    modifies client
    ensures Follows(client, s0, events, s) && s.retries == retries == retries0 - 1 && s.h.sent == st.h.sent
    ensures s.pc == if retries == 0 then Leave(false) else SendType
    ensures s.h.draws == st.h.draws + (if retries == 0 then [] else [r]) && s.h.tried == st.h.tried
    ensures retries != 0 ==> client.xid == r
    ensures Total(feed) + Flag(s.c.gotReply) <= Total(feed0) + Flag(st.c.gotReply)
    ensures Stream(events, feed) == Stream(events0, feed0)
  {
    hide Delivered;
    feed, events, s := Pause(client, feed0, s0, events0, st);
    retries := retries0 - 1;
    events, s := Advance(client.mac, s0, events, s, Choice(false, false, ANY));
    if retries == 0 {
      return;
    }
    feed, events, s := GenXid(client, feed, r, s0, events, s);
  }

  /** xid_gen, whose two stores the handler may come between; `r` are the four bytes its two calls of rand()
      give. */
  method GenXid(client: Client, feed0: seq<seq<Rx>>, r: Quad, ghost s0: State, ghost events0: seq<Event>,
                ghost st: State)
    returns (feed: seq<seq<Rx>>, ghost events: seq<Event>, ghost s: State)
    requires Follows(client, s0, events0, st) && st.pc == XidLow
    modifies client
    ensures Follows(client, s0, events, s) && s.retries == st.retries && s.h.sent == st.h.sent && s.pc == SendType
    ensures client.xid == r && s.h.draws == st.h.draws + [r] && s.h.tried == st.h.tried
    ensures Total(feed) + Flag(s.c.gotReply) <= Total(feed0) + Flag(st.c.gotReply)
    ensures Stream(events, feed) == Stream(events0, feed0)
  {
    hide Delivered, Total, Flat, Run;
    feed, events, s := Pause(client, feed0, s0, events0, st);
    client.xid := r[..2] + client.xid[2..];
    events, s := Advance(client.mac, s0, events, s, Choice(false, false, r));
    feed, events, s := Pause(client, feed, s0, events, s);
    client.xid := client.xid[..2] + r[2..];
    events, s := Advance(client.mac, s0, events, s, Choice(false, false, r));
  }

  /** pkt_hdlr_del and what follows it. */
  method LeaveLoop(client: Client, feed0: seq<seq<Rx>>, ghost s0: State, ghost events0: seq<Event>, ghost st: State)
    returns (ret: int, ghost events: seq<Event>, ghost s: State)
    requires Follows(client, s0, events0, st) && st.pc.Leave?
    modifies client
    ensures Follows(client, s0, events, s) && s.pc == Done(st.pc.ok, ret) && s.h.sent == st.h.sent
    ensures SameDraws(st.h, s.h)
    ensures Delivered(events) <= Stream(events0, feed0)
  {
    hide Run, Next, Delivered;
    var feed;
    feed, events, s := Pause(client, feed0, s0, events0, st);
    events, s := Advance(client.mac, s0, events, s, Choice(false, false, ANY));
    ret := 0;
    if !client.gotReply {
      client.myIp := NONE;
      ret := -1;
    }
    events, s := Advance(client.mac, s0, events, s, Choice(false, false, ANY));
  }

  /** What rand() and malloc() gave in a run is what they give, in order. */
  ghost predicate Drawn(h: History, rand: nat -> Quad, memory: nat -> bool) {
    && (forall k :: 0 <= k < |h.draws| ==> h.draws[k] == rand(k))
    && (forall k :: 0 <= k < |h.tried| ==> h.tried[k] == memory(k))
  }

  /** One step in which a request is tried, an xid drawn, or nothing of the kind. */
  ghost predicate DrawsOne(h: History, h': History, rand: nat -> Quad, memory: nat -> bool) {
    && (h'.draws == h.draws || h'.draws == h.draws + [rand(|h.draws|)])
    && (h'.tried == h.tried || h'.tried == h.tried + [memory(|h.tried|)])
  }

  lemma StillDrawn(h: History, h': History, rand: nat -> Quad, memory: nat -> bool)
    requires Drawn(h, rand, memory) && DrawsOne(h, h', rand, memory)
    ensures Drawn(h', rand, memory)
  {
  }

  /** dhcp(). Its every run is a run of the transition system in which exactly frames of `replies` are
      delivered, in order; so the theorems about those runs hold of it. The k-th xid is the k-th that `rand`
      gives, and the k-th request is written exactly if `memory` has room for it. It ends, because `replies`
      holds finitely many replies, after at most 7 requests and one more for each reply. */
  method Dhcp(client: Client, replies: seq<seq<Rx>>, patience: nat, rand: nat -> Quad, memory: nat -> bool)
    returns (ret: int, log: seq<seq<byte>>, ghost events: seq<Event>)
    modifies client
    ensures var s := Run(client.mac, Begin(old(client.Abs())), events);
      && s.c == client.Abs() && s.pc.Done? && s.pc.ret == ret && Logged(log, s.h.sent)
      && Drawn(s.h, rand, memory)
      && (Boot(old(client.Abs())) ==> |log| + Missed(s.h.tried) == s.h.requests == |s.h.tried| <= 7 + Total(replies))
    ensures Delivered(events) <= Flat(replies)
    ensures (forall f :: f in Flat(replies) ==> Proper(f)) ==> AllProper(events)
  {
    hide Proper, Delivered, Drawn, Missed;
    ghost var c0 := client.Abs();
    ret, log, events := DhcpLoop(client, replies, patience, rand, memory);
    if forall f :: f in Flat(replies) ==> Proper(f) {
      ProperRun(events, Flat(replies));
    }
    if Boot(c0) {
      AttemptBound(client.mac, c0, events);
      DeliveredCount(client.mac, c0, events);
    }
  }

  /** One turn of the loop up to the test of got_reply. */
  method Attempt(client: Client, feed0: seq<seq<Rx>>, log0: seq<seq<byte>>, patience: nat, memory: bool,
                 ghost s0: State, ghost events0: seq<Event>, ghost st: State)
    returns (got: bool, feed: seq<seq<Rx>>, log: seq<seq<byte>>, ghost events: seq<Event>, ghost s: State)
    requires Follows(client, s0, events0, st) && st.pc == SendType && Logged(log0, st.h.sent)
    modifies client
    ensures Follows(client, s0, events, s) && s.retries == st.retries && Logged(log, s.h.sent)
    ensures s.pc == (if got then Kind else Retry) && (got ==> s.c.gotReply)
    ensures s.h.draws == st.h.draws && s.h.tried == st.h.tried + [memory]
    ensures Total(feed) + Flag(s.c.gotReply) <= Total(feed0) + Flag(st.c.gotReply)
    ensures Stream(events, feed) == Stream(events0, feed0)
  {
    hide Run, Delivered, Logged, Flat, Total;
    feed, events, s := Pause(client, feed0, s0, events0, st);
    feed, log, events, s := SendRequest(client, feed, log0, memory, s0, events, s);
    got, feed, events, s := WaitForReply(client, feed, patience, s0, events, s);
  }

  /** One turn of the loop; `left` says that it was left. */
  method Turn(client: Client, feed0: seq<seq<Rx>>, log0: seq<seq<byte>>, retries0: int, patience: nat, r: Quad,
              memory: bool, ghost s0: State, ghost events0: seq<Event>, ghost st: State)
    returns (left: bool, retries: int, feed: seq<seq<Rx>>, log: seq<seq<byte>>, ghost events: seq<Event>,
             ghost s: State)
    requires Follows(client, s0, events0, st) && st.pc == SendType && Logged(log0, st.h.sent)
    requires st.retries == retries0 > 0
    modifies client
    ensures Follows(client, s0, events, s) && Logged(log, s.h.sent) && Stream(events, feed) == Stream(events0, feed0)
    ensures s.retries == retries && (if left then s.pc.Leave? else s.pc == SendType && retries > 0)
    ensures s.h.tried == st.h.tried + [memory]
    ensures s.h.draws == st.h.draws + if !left && retries < retries0 then [r] else []
    ensures retries == retries0 || retries == retries0 - 1
    ensures !left && retries == retries0 ==>
      Total(feed) + Flag(s.c.gotReply) < Total(feed0) + Flag(st.c.gotReply)
    ensures !left ==> Total(feed) + Flag(s.c.gotReply) <= Total(feed0) + Flag(st.c.gotReply)
  {
    hide Run, Next, MainStep, Delivered, Logged, Flat, Total;
    var got;
    got, feed, log, events, s := Attempt(client, feed0, log0, patience, memory, s0, events0, st);
    retries := retries0;
    if got {
      left, feed, events, s := ReplySeen(client, feed, s0, events, s);
    } else {
      retries, feed, events, s := TimedOut(client, feed, retries0, r, s0, events, s);
      left := retries == 0;
    }
  }

  /** The body of dhcp(). */
  method DhcpLoop(client: Client, replies: seq<seq<Rx>>, patience: nat, rand: nat -> Quad, memory: nat -> bool)
    returns (ret: int, log: seq<seq<byte>>, ghost events: seq<Event>)
    modifies client
    ensures var s := Run(client.mac, Begin(old(client.Abs())), events);
      && s.c == client.Abs() && s.pc.Done? && s.pc.ret == ret && Logged(log, s.h.sent)
      && Drawn(s.h, rand, memory)
    ensures Delivered(events) <= Flat(replies)
  {
    ghost var s0 := Begin(client.Abs());
    ghost var s := s0;
    var feed, retries, n := replies, 6, 0;
    events, log := [], [];
    client.xid := rand(0);
    RunNothing(client.mac, s0);
    events, s := Advance(client.mac, s0, events, s, Choice(false, false, rand(0)));
    assert Drawn(s.h, rand, memory);
    hide Run, Next, MainStep, Delivered, OptionsField, Logged, Flat, Total, Drawn, Begin;
    var left := false;
    while !left
      invariant Follows(client, s0, events, s) && s.retries == retries <= 6
      invariant if left then s.pc.Leave? else s.pc == SendType && retries > 0
      invariant Drawn(s.h, rand, memory) && |s.h.tried| == n && (!left ==> |s.h.draws| == 7 - retries)
      invariant Logged(log, s.h.sent) && Stream(events, feed) == Flat(replies)
      decreases !left, Total(feed) + Flag(client.gotReply), retries
    {
      ghost var h := s.h;
      left, retries, feed, log, events, s :=
        Turn(client, feed, log, retries, patience, rand(7 - retries), memory(n), s0, events, s);
      n := n + 1;
      StillDrawn(h, s.h, rand, memory);
    }
    ghost var h := s.h;
    ret, events, s := LeaveLoop(client, feed, s0, events, s);
    StillDrawn(h, s.h, rand, memory);
  }
}
