/** Runs of socket(), sock_close(), bind() and sendto() over all sockets of a program, from its start
    (src/net/socket.c). */
module SocketRuns {
  import opened Machine
  import opened Net
  import opened Sockets
  import opened Udp
  import opened AfInet

  /** Sockets are named by their place in the socket list. */
  datatype SocketCall =
    | Open(family: byte, type_: byte, protocol: byte, memory: bool)
    | Close(k: nat)
    | BindAt(k: nat, addr: SockAddrIn, addrLen: byte)
    | SendAt(k: nat, msg: Msg, room: bool)

  predicate Possible(call: SocketCall) { call.SendAt? ==> |call.msg.payload| + 42 < 0x1_0000 }

  predicate Opens(call: SocketCall) {
    call.Open? && call.memory && call.family == AF_INET && ChooseProtocol(call.type_, call.protocol).Supported?
  }

  /** In numbers: family 1 and a supported pair of type and protocol, and memory for the socket. */
  lemma OpensInNumbers(call: SocketCall)
    ensures Opens(call) <==>
      && call.Open? && call.memory && call.family == 1
      && ((call.type_ == 1 && call.protocol in {0, 6}) || (call.type_ == 2 && call.protocol in {0, 1, 17}))
  {
  }

  /** How many sockets were opened. */
  function Opened(calls: seq<SocketCall>): nat
    decreases |calls|
  {
    if calls == [] then 0 else Opened(calls[..|calls| - 1]) + if Opens(calls[|calls| - 1]) then 1 else 0
  }

  /** The sockets that are open, each as its number in the order of opening: the list the source keeps. */
  function Listing(calls: seq<SocketCall>): (ids: seq<nat>)
    ensures forall i :: 0 <= i < |ids| ==> ids[i] < Opened(calls)
    decreases |calls|
  {
    if calls == [] then []
    else
      var before, call := calls[..|calls| - 1], calls[|calls| - 1];
      var ids := Listing(before);
      if Opens(call) then [Opened(before)] + ids
      else if call.Close? && call.k < |ids| then ids[..call.k] + ids[call.k + 1..]
      else ids
  }

  lemma OneMoreCall(calls: seq<SocketCall>, i: nat)
    requires i < |calls|
    ensures Opened(calls[..i + 1]) == Opened(calls[..i]) + if Opens(calls[i]) then 1 else 0
    ensures var ids := Listing(calls[..i]);
      Listing(calls[..i + 1]) ==
        if Opens(calls[i]) then [Opened(calls[..i])] + ids
        else if calls[i].Close? && calls[i].k < |ids| then ids[..calls[i].k] + ids[calls[i].k + 1..]
        else ids
  {
    assert calls[..i + 1][..i] == calls[..i];
  }

  ghost predicate Idle(ms: set<Socket>)
    reads set sk | sk in ms :: sk.txQ
    reads set sk | sk in ms :: sk.rxQ
  {
    forall sk :: sk in ms ==> sk.txQ.items == [] && sk.rxQ.items == []
  }

  /** inet_sendmsg leaves the receive queue alone, and brings no buffer into the socket but new ones. */
  method SendOn(env: Env, ports: Ports, sk: Socket, msg: Msg, myIp: Quad, dev: Device, memory: bool)
    returns (ret: int)
    requires ports.Valid() && sk.Valid() && sk.txQ.items == [] && |msg.payload| + 42 < 0x1_0000
    modifies env, ports, sk`srcAddr, sk`dstAddr, sk`srcPort, sk`dstPort
    modifies sk.txQ, sk.txQ.anchor`next, sk.txQ.anchor`prev, sk.txQ.nodes`next, sk.txQ.nodes`prev
    ensures ports.Valid() && sk.Valid() && env.freed == old(env.freed)
    ensures sk.txQ.items == [] && sk.rxQ.items == old(sk.rxQ.items) && fresh(sk.Buffers() - old(sk.Buffers()))
  {
    hide NbQueue.Valid;
    ghost var nb;
    ret, nb := InetSendmsg(env, ports, sk, msg, myIp, dev, memory);
  }

  /** A send on a listed socket keeps the list and every socket in it sound. */
  method SendNext(list: SocketList, env: Env, ports: Ports, sk: Socket, msg: Msg, myIp: Quad, dev: Device,
                  memory: bool, ghost k: nat)
    returns (ret: int)
    requires list.Valid() && k < |list.list| && list.list[k] == sk && ports.Valid()
    requires sk.txQ.items == [] && |msg.payload| + 42 < 0x1_0000
    modifies env, ports, sk`srcAddr, sk`dstAddr, sk`srcPort, sk`dstPort, sk.txQ, sk.Buffers()
    ensures list.Valid() && ports.Valid() && env.freed == old(env.freed)
    ensures sk.txQ.items == [] && sk.rxQ.items == old(sk.rxQ.items) && fresh(sk.Buffers() - old(sk.Buffers()))
    ensures forall s :: s in list.members && s != sk ==>
      s.Buffers() == old(s.Buffers()) && s.txQ.items == old(s.txQ.items) && s.rxQ.items == old(s.rxQ.items)
  {
    hide SocketList.Links, Socket.Valid;
    list.Listed(k);
    ret := SendOn(env, ports, sk, msg, myIp, dev, memory);
    forall s | s in list.members && s != sk
      ensures s.Valid() && s.Buffers() == old(s.Buffers())
    {
      assert old(SocketList.Apart(s, sk));
    }
    SocketList.SoundAfterUse(list.members, sk);
  }

  /** A call brings nothing into the listed sockets but what is new. */
  twostate predicate Renewed(was: set<Socket>, new now: set<Socket>)
    reads set sk | sk in now :: sk.txQ
    reads set sk | sk in now :: sk.rxQ
  {
    forall sk :: sk in now ==>
      if sk in was then fresh(sk.Buffers() - old(sk.Buffers()))
      else fresh(sk) && fresh(sk.txQ) && fresh(sk.rxQ) && fresh(sk.Buffers())
  }

  /** The sockets, their queues and their buffers. */
  ghost function Parts(ms: set<Socket>): set<object>
    reads set sk | sk in ms :: sk.txQ
    reads set sk | sk in ms :: sk.rxQ
  {
    (set sk: object | sk in ms) + (set sk | sk in ms :: sk.txQ) + (set sk | sk in ms :: sk.rxQ)
    + (set sk, o | sk in ms && o in sk.Buffers() :: o)
  }

  ghost predicate Within(ms: set<Socket>, world: set<object>)
    reads set sk | sk in ms :: sk.txQ
    reads set sk | sk in ms :: sk.rxQ
  {
    Parts(ms) <= world
  }

  method OpenStep(list: SocketList, call: SocketCall) returns (sk: Socket?)
    requires list.Valid() && Idle(list.members) && call.Open?
    modifies list, list.members`prev
    ensures list.Valid() && Idle(list.members) && Renewed(old(list.members), list.members)
    ensures sk != null <==> Opens(call)
    ensures list.list == (if sk == null then [] else [sk]) + old(list.list)
    ensures list.members == (if sk == null then {} else {sk}) + old(list.members)
    ensures sk != null ==> fresh(sk)
  {
    hide SocketList.Valid;
    ghost var was := list.members;
    sk := list.OpenNext(call.family, call.type_, call.protocol, call.memory);
    assert forall s :: s in was ==> s.Buffers() == old(s.Buffers());
  }

  method CloseStep(list: SocketList, env: Env, sk: Socket, ghost k: nat)
    requires list.Valid() && Idle(list.members) && k < |list.list| && list.list[k] == sk
    modifies list, list.members`next, list.members`prev, env`freed, sk.txQ, sk.rxQ, sk.Buffers()
    ensures list.Valid() && Idle(list.members) && Renewed(old(list.members), list.members)
    ensures list.list == old(list.list)[..k] + old(list.list)[k + 1..] && list.members == old(list.members) - {sk}
    ensures env.freed == old(env.freed)
  {
    hide SocketList.Sound;
    list.Listed(k);
    hide SocketList.Links;
    list.CloseNext(sk, env, k);
  }

  method BindStep(list: SocketList, sk: Socket, addr: SockAddrIn, addrLen: byte)
    requires list.Valid() && Idle(list.members)
    modifies sk`srcAddr, sk`srcPort, sk`dstAddr, sk`dstPort
    ensures list.Valid() && Idle(list.members) && Renewed(list.members, list.members)
  {
    hide SocketList.Links;
    var err := InetBind(sk, addr, addrLen);
    assert SocketList.Kept(list.members);
    SocketList.SoundWith(list.members, null);
  }

  method SendStep(list: SocketList, env: Env, ports: Ports, sk: Socket, msg: Msg, myIp: Quad, dev: Device,
                  memory: bool, ghost k: nat)
    requires list.Valid() && Idle(list.members) && k < |list.list| && list.list[k] == sk && ports.Valid()
    requires |msg.payload| + 42 < 0x1_0000
    modifies env, ports, sk`srcAddr, sk`dstAddr, sk`srcPort, sk`dstPort, sk.txQ, sk.Buffers()
    ensures list.Valid() && Idle(list.members) && Renewed(list.members, list.members)
    ensures ports.Valid() && env.freed == old(env.freed)
  {
    hide SocketList.Sound;
    list.Listed(k);
    hide SocketList.Links;
    var ret := SendNext(list, env, ports, sk, msg, myIp, dev, memory, k);
  }

  /** One call of a run; `handles` are the sockets in the order of the list. */
  method OneCall(list: SocketList, env: Env, ports: Ports, handles: seq<Socket>, call: SocketCall,
                 myIp: Quad, dev: Device, ghost world: set<object>)
    returns (handles': seq<Socket>, ghost new_: seq<Socket>, ghost world': set<object>)
    requires Within(list.members, world)
    requires list.Valid() && Idle(list.members) && list.list == handles && ports.Valid() && Possible(call)
    modifies env, ports, list, Parts(list.members)
    ensures list.Valid() && Idle(list.members) && list.list == handles'
    ensures ports.Valid() && env.freed == old(env.freed)
    ensures Within(list.members, world') && world <= world' && fresh(world' - world)
    ensures |new_| == (if Opens(call) then 1 else 0) && (forall sk :: sk in new_ ==> fresh(sk) && sk in world')
    ensures handles' ==
      if Opens(call) then new_ + handles
      else if call.Close? && call.k < |handles| then handles[..call.k] + handles[call.k + 1..]
      else handles
  {
    hide SocketList.Sound, Idle, Renewed;
    handles', new_ := handles, [];
    match call {
      case Open(_, _, _, _) =>
        hide SocketList.Links;
        var sk := OpenStep(list, call);
        if sk != null {
          handles', new_ := [sk] + handles, [sk];
        }
      case Close(k) =>
        if k < |handles| {
          list.Listed(k);
          hide SocketList.Links;
          CloseStep(list, env, handles[k], k);
          handles' := handles[..k] + handles[k + 1..];
        }
      case BindAt(k, addr, addrLen) =>
        if k < |handles| {
          list.Listed(k);
          hide SocketList.Links;
          BindStep(list, handles[k], addr, addrLen);
        }
      case SendAt(k, msg, room) =>
        if k < |handles| {
          list.Listed(k);
          hide SocketList.Links;
          SendStep(list, env, ports, handles[k], msg, myIp, dev, room, k);
        }
    }
    world' := world + Parts(list.members);
    hide Parts;
    RenewedParts(old(list.members), list.members);
  }

  twostate lemma RenewedParts(was: set<Socket>, new now: set<Socket>)
    requires Renewed(was, now)
    ensures fresh(Parts(now) - old(Parts(was)))
  {
    forall o | o in Parts(now) - old(Parts(was))
      ensures fresh(o)
    {
    }
  }

  /** The sockets in the list, and how each of them is named. */
  ghost predicate Named(list: seq<Socket>, born: seq<Socket>, ids: seq<nat>) {
    && |list| == |ids|
    && forall i :: 0 <= i < |ids| ==> ids[i] < |born| && list[i] == born[ids[i]]
  }

  lemma NamedStep(handles: seq<Socket>, born: seq<Socket>, handles': seq<Socket>, new_: seq<Socket>,
                  calls: seq<SocketCall>, n: nat)
    requires n < |calls| && |born| == Opened(calls[..n]) && Distinct(born)
    requires Named(handles, born, Listing(calls[..n]))
    requires |new_| == (if Opens(calls[n]) then 1 else 0) && forall sk :: sk in new_ ==> sk !in born
    requires handles' ==
      if Opens(calls[n]) then new_ + handles
      else if calls[n].Close? && calls[n].k < |handles| then handles[..calls[n].k] + handles[calls[n].k + 1..]
      else handles
    ensures |born + new_| == Opened(calls[..n + 1]) && Distinct(born + new_)
    ensures Named(handles', born + new_, Listing(calls[..n + 1]))
  {
    hide Opened, Listing, Opens, Distinct, Named;
    OneMoreCall(calls, n);
    var ids := Listing(calls[..n]);
    SameLength(handles, born, ids);
    if Opens(calls[n]) {
      assert new_ == [new_[0]];
      NamedOpen(handles, born, ids, new_[0]);
    } else {
      assert born + new_ == born;
      if calls[n].Close? && calls[n].k < |handles| {
        NamedClose(handles, born, ids, calls[n].k);
      }
    }
  }

  lemma SameLength(list: seq<Socket>, born: seq<Socket>, ids: seq<nat>)
    requires Named(list, born, ids)
    ensures |list| == |ids|
  {
  }

  lemma NamedOpen(list: seq<Socket>, born: seq<Socket>, ids: seq<nat>, sk: Socket)
    requires Named(list, born, ids) && Distinct(born) && sk !in born
    ensures Named([sk] + list, born + [sk], [|born|] + ids) && Distinct(born + [sk])
  {
  }

  lemma NamedClose(list: seq<Socket>, born: seq<Socket>, ids: seq<nat>, k: nat)
    requires Named(list, born, ids) && k < |list|
    ensures Named(list[..k] + list[k + 1..], born, ids[..k] + ids[k + 1..])
  {
  }

  /** Any run of socket(), sock_close(), bind() and sendto(), from the start of the program, on any open
      socket, whatever the driver answers: the links stay sound, and no two sockets share a queue or a buffer;
      the list holds exactly the sockets that were opened and not closed, the newest first; all queues are
      empty between calls, so every send meets an empty one; and no buffer is ever freed. */
  method RunSockets(env: Env, ports: Ports, calls: seq<SocketCall>, myIp: Quad, dev: Device)
    returns (list: SocketList, ghost born: seq<Socket>)
    requires ports.Valid() && forall i :: 0 <= i < |calls| ==> Possible(calls[i])
    modifies env, ports
    ensures list.Valid() && Idle(list.members) && env.freed == old(env.freed)
    ensures |born| == Opened(calls) && Distinct(born) && Named(list.list, born, Listing(calls))
  {
    hide SocketList.Valid, Socket.Valid, Opened, Listing, Named, Distinct, Idle, Parts;
    list := new SocketList();
    var handles: seq<Socket> := [];
    born := [];
    ghost var world: set<object> := {};
    NoneYet(calls);
    NoSockets();
    for n := 0 to |calls|
      invariant fresh(list) && list.Valid() && list.list == handles && Idle(list.members)
      invariant fresh(world) && Within(list.members, world) && forall sk :: sk in born ==> sk in world
      invariant ports.Valid() && env.freed == old(env.freed)
      invariant |born| == Opened(calls[..n]) && Distinct(born) && Named(handles, born, Listing(calls[..n]))
    {
      assert Possible(calls[n]);
      ghost var was, new_ := handles, [];
      handles, new_, world := OneCall(list, env, ports, handles, calls[n], myIp, dev, world);
      NamedStep(was, born, handles, new_, calls, n);
      born := born + new_;
    }
    assert calls[..|calls|] == calls;
  }

  lemma NoneYet(calls: seq<SocketCall>)
    ensures Opened(calls[..0]) == 0 && Listing(calls[..0]) == [] && Distinct<Socket>([])
    ensures Named([], [], [])
  {
  }

  lemma NoSockets()
    ensures Idle({}) && Parts({}) == {}
  {
  }
}
