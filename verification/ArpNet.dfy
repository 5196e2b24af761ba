/** ARP among many nodes that run src/netinet/arp.c, over a network that may lose, repeat and reorder
    frames (RFC 826). */
module ArpNet {
  import opened Machine
  import opened Net
  import opened Arp

  datatype Node = Node(ip: Quad, mac: Mac, tblIp: Quad, tblMac: Mac)

  datatype Frame = Frame(dst: Mac, src: Mac, a: Packet)

  /** `air` holds every frame ever sent: a frame in it may be delivered any number of times, at any time,
      or never. */
  datatype State = State(nodes: seq<Node>, air: set<Frame>)

  /** Node i sends with its own addresses as sender (sha and spa are NULL in the call of arp_send);
      or a frame from the air reaches node i. */
  datatype Event =
    | Send(i: nat, oper: uint16, ptype: uint16, dest: Option<Mac>, tha: Mac, tpa: Quad)
    | Deliver(i: nat, f: Frame)

  /** eth_type_proto: how the Ethernet destination looks to a node. */
  function PktType(mac: Mac, dst: Mac): byte {
    if dst == mac then PKT_HOST
    else if dst[0] % 2 == 0 then PKT_OTHERHOST
    else if dst == BROADCAST then PKT_BROADCAST
    else PKT_MULTICAST
  }

  function Outgoing(n: Node, e: Event): Frame
    requires e.Send?
  {
    Frame(e.dest.Or(BROADCAST), n.mac,
          Packet(HWT_ETHER, e.ptype, 6, 4, e.oper, n.mac, n.ip, e.tha, e.tpa))
  }

  function ActionAt(n: Node, f: Frame): Action { Taking(f.a, PktType(n.mac, f.dst), n.ip) }

  function Answer(n: Node, f: Frame): Frame { Frame(f.src, n.mac, ReplyTo(f.a, n.ip, n.mac)) }

  function Next(s: State, e: Event): State {
    if e.i >= |s.nodes| then s
    else
      var n := s.nodes[e.i];
      match e
      case Send(_, _, _, _, _, _) => s.(air := s.air + {Outgoing(n, e)})
      case Deliver(i, f) =>
        if f !in s.air then s
        else match ActionAt(n, f)
          case Drop => s
          case Learn => s.(nodes := s.nodes[i := n.(tblIp := f.a.spa, tblMac := f.a.sha)])
          case Answer => s.(air := s.air + {Answer(n, f)})
  }

  function Run(s: State, events: seq<Event>): State
    decreases |events|
  {
    if events == [] then s else Next(Run(s, events[..|events| - 1]), events[|events| - 1])
  }

  /** arp_tbl_get at a node: Some(mac), or None for NULL. */
  function Lookup(n: Node, ip: Quad): Option<Mac> {
    if n.tblIp == ip then Some(n.tblMac) else None
  }

  /** Configured nodes: distinct, non-zero addresses, empty tables, nothing in the air. */
  ghost predicate Configured(s: State) {
    && s.air == {}
    && (forall i :: 0 <= i < |s.nodes| ==> s.nodes[i].ip != ANY && s.nodes[i].tblIp == ANY)
    && (forall i, j :: 0 <= i < j < |s.nodes| ==> s.nodes[i].ip != s.nodes[j].ip && s.nodes[i].mac != s.nodes[j].mac)
  }

  /** Some node really has this pair of addresses. */
  ghost predicate Real(s: State, ip: Quad, mac: Mac) {
    exists i :: 0 <= i < |s.nodes| && s.nodes[i].ip == ip && s.nodes[i].mac == mac
  }

  ghost predicate SameNodes(s: State, t: State) {
    |t.nodes| == |s.nodes| &&
    forall i :: 0 <= i < |s.nodes| ==> t.nodes[i].ip == s.nodes[i].ip && t.nodes[i].mac == s.nodes[i].mac
  }

  /** Nothing false is in the air or in a table. */
  ghost predicate Truthful(s: State) {
    && (forall f :: f in s.air ==> Real(s, f.a.spa, f.a.sha) && f.src == f.a.sha)
    && (forall i :: 0 <= i < |s.nodes| ==>
          s.nodes[i].tblIp == ANY || Real(s, s.nodes[i].tblIp, s.nodes[i].tblMac))
  }

  lemma TruthfulStep(s: State, e: Event)
    requires Truthful(s)
    ensures SameNodes(s, Next(s, e)) && Truthful(Next(s, e)) && s.air <= Next(s, e).air
  {
    hide ActionAt;
  }

  /** Truthfulness over every run: the sender pair of each frame in the air and each learned table entry
      belong to one node, and no node's own addresses change. */
  lemma {:induction false} TruthfulRun(s: State, events: seq<Event>)
    requires Truthful(s)
    ensures var t := Run(s, events); SameNodes(s, t) && Truthful(t) && s.air <= t.air
    decreases |events|
  {
    if events != [] {
      TruthfulRun(s, events[..|events| - 1]);
      TruthfulStep(Run(s, events[..|events| - 1]), events[|events| - 1]);
    }
  }

  /** Hence a lookup never misleads: whatever was lost, repeated or reordered, what arp_tbl_get returns for
      a node's address is that node's hardware address. */
  lemma LookupIsRight(s: State, events: seq<Event>, i: nat, j: nat)
    requires Configured(s) && i < |s.nodes| && j < |s.nodes|
    ensures var t := Run(s, events);
      && |t.nodes| == |s.nodes|
      && (Lookup(t.nodes[i], s.nodes[j].ip) != None ==>
            Lookup(t.nodes[i], s.nodes[j].ip) == Some(s.nodes[j].mac))
  {
    hide Run, Configured;
    StartsTruthful(s, j);
    TruthfulRun(s, events);
    var t := Run(s, events);
    if t.nodes[i].tblIp == s.nodes[j].ip {
      assert Real(t, s.nodes[j].ip, t.nodes[i].tblMac);
      OneOwner(s, t, j, t.nodes[i].tblMac);
    }
  }

  lemma StartsTruthful(s: State, j: nat)
    requires Configured(s) && j < |s.nodes|
    ensures Truthful(s) && s.nodes[j].ip != ANY
  {
  }

  lemma OneOwner(s: State, t: State, j: nat, mac: Mac)
    requires Configured(s) && SameNodes(s, t) && j < |s.nodes| && Real(t, s.nodes[j].ip, mac)
    ensures mac == s.nodes[j].mac
  {
  }

  lemma {:induction false} RunAppend(s: State, a: seq<Event>, b: seq<Event>)
    ensures Run(s, a + b) == Run(Run(s, a), b)
    decreases |b|
  {
    hide Next;
    if b == [] {
      assert a + b == a;
    } else {
      var n := |a + b| - 1;
      assert (a + b)[..n] == a + b[..|b| - 1] && (a + b)[n] == b[|b| - 1];
      RunAppend(s, a, b[..|b| - 1]);
    }
  }

  lemma RunSnoc(s: State, events: seq<Event>, e: Event)
    ensures Run(s, events + [e]) == Next(Run(s, events), e)
  {
  }

  /** The request node i broadcasts for the address of node j, and what j answers. */
  function Request(s: State, i: nat, j: nat): Frame
    requires i < |s.nodes| && j < |s.nodes|
  {
    Outgoing(s.nodes[i], Send(i, OP_REQ, ETH_P_IP, None, NO_MAC, s.nodes[j].ip))
  }

  function Wire(f: Frame): seq<byte> { FrameBytes(f.dst, f.src, f.a) }

  /** The handler at a node puts on the wire the frame this protocol puts into the air: where the received
      buffer held frame f, after the answer in place it holds Answer(n, f). */
  lemma AnswerOnTheWire(n: Node, f: Frame, was: seq<byte>, now: seq<byte>, m: nat)
    requires m + 42 <= |was| == |now| && was[m..m + 42] == Wire(f)
    requires AnsweredInPlace(was, now, m + 14, m, n.ip, n.mac)
    ensures now[m..m + 42] == Wire(Answer(n, f))
  {
    hide Decode, Encode, NetBytes, ReplyTo;
    WireParts(f);
    WireParts(Answer(n, f));
    DecodeEncode(f.a);
    var w := was[m..m + 42];
    assert was[m + 14..m + 42] == w[14..42] && was[m + 6..m + 12] == w[6..12];
    EncodeDecode(now[m + 14..m + 42]);
    assert now[m + 12..m + 14] == was[m + 12..m + 14] == w[12..14];
    assert now[m..m + 42] == now[m..m + 6] + now[m + 6..m + 12] + now[m + 12..m + 14] + now[m + 14..m + 42];
  }

  lemma WireParts(f: Frame)
    ensures var w := Wire(f);
      w[..6] == f.dst && w[6..12] == f.src && w[12..14] == NetBytes(ETH_P_ARP) && w[14..42] == Encode(f.a)
  {
    hide NetBytes, Encode;
  }

  /** The request on the wire, byte by byte, as ArpSend builds it with default addresses. */
  lemma RequestInNumbers(s: State, i: nat, j: nat)
    requires i < |s.nodes| && j < |s.nodes|
    ensures var n := s.nodes[i];
      Wire(Request(s, i, j)) ==
        [255, 255, 255, 255, 255, 255] + n.mac + [8, 6]
        + ([0, 1, 8, 0, 6, 4, 0, 1] + n.mac + n.ip + [0, 0, 0, 0, 0, 0] + s.nodes[j].ip)
  {
    hide FrameBytes;
    var f := Request(s, i, j);
    FrameInNumbers(f.dst, f.src, f.a);
  }

  /** Resolution: i broadcasts a request for j's address; anything happens; j receives it; anything happens;
      i receives j's reply. Right then i's table maps j's address to j's hardware address. It takes only that
      neither address is a multicast one, for which arp_proc drops whatever it is the target of. */
  lemma Resolves(s: State, e1: seq<Event>, e2: seq<Event>, e3: seq<Event>, i: nat, j: nat)
    requires Configured(s) && i < |s.nodes| && j < |s.nodes| && i != j
    requires !(224 <= s.nodes[j].ip[0] < 240) && !(224 <= s.nodes[i].ip[0] < 240)
    ensures var req := Request(s, i, j);
      var reply := Answer(s.nodes[j], req);
      var t := Run(s, e1 + [Send(i, OP_REQ, ETH_P_IP, None, NO_MAC, s.nodes[j].ip)]
                      + e2 + [Deliver(j, req)] + e3 + [Deliver(i, reply)]);
      |t.nodes| == |s.nodes| && Lookup(t.nodes[i], s.nodes[j].ip) == Some(s.nodes[j].mac)
  {
    hide Run, Configured;
    var send := Send(i, OP_REQ, ETH_P_IP, None, NO_MAC, s.nodes[j].ip);
    var req, reply := Request(s, i, j), Answer(s.nodes[j], Request(s, i, j));
    StartsTruthful(s, j);
    Onward(s, [], e1, send);
    assert [] + e1 == e1;
    var toReq := e1 + [send];
    SentInAir(s, Run(s, e1), i, j);
    Onward(s, toReq, e2, Deliver(j, req));
    SameActions(s, Run(s, toReq + e2), i, j);
    var toReply := toReq + e2 + [Deliver(j, req)];
    assert reply in Run(s, toReply).air;
    Onward(s, toReply, e3, Deliver(i, reply));
    SameActions(s, Run(s, toReply + e3), i, j);
  }

  lemma SentInAir(s: State, t: State, i: nat, j: nat)
    requires SameNodes(s, t) && i < |s.nodes| && j < |s.nodes|
    ensures Request(s, i, j) in Next(t, Send(i, OP_REQ, ETH_P_IP, None, NO_MAC, s.nodes[j].ip)).air
  {
  }

  /** Any events, then one: the nodes stay who they are, and what was in the air stays there. */
  lemma Onward(s: State, events: seq<Event>, more: seq<Event>, e: Event)
    requires Truthful(s)
    ensures var t := Run(s, events + more);
      && SameNodes(s, t) && Run(s, events).air <= t.air
      && Run(s, events + more + [e]) == Next(t, e)
      && SameNodes(s, Next(t, e)) && t.air <= Next(t, e).air
  {
    hide Run, Next;
    TruthfulRun(s, events);
    TruthfulRun(Run(s, events), more);
    RunAppend(s, events, more);
    TruthfulStep(Run(s, events + more), e);
    RunSnoc(s, events + more, e);
  }

  /** The request is for j to answer and the answer for i to learn, in any state with the same nodes. */
  lemma SameActions(s: State, t: State, i: nat, j: nat)
    requires Configured(s) && SameNodes(s, t) && i < |s.nodes| && j < |s.nodes| && i != j
    requires !(224 <= s.nodes[j].ip[0] < 240) && !(224 <= s.nodes[i].ip[0] < 240)
    ensures var req := Request(s, i, j);
      && Answer(t.nodes[j], req) == Answer(s.nodes[j], req)
      && ActionAt(t.nodes[j], req) == Action.Answer
      && ActionAt(t.nodes[i], Answer(s.nodes[j], req)) == Learn
  {
  }
}
