/** Sockets and the socket list (src/net/socket.c, inet_sock_create of src/netinet/af_inet.c). */
module Sockets {
  import opened Machine
  import opened Net

  const AF_UNSPEC: byte := 0
  const AF_INET: byte := 1
  const AF_MAX: byte := 2
  const SOCK_STREAM: byte := 1
  const SOCK_DGRAM: byte := 2
  const SOCK_MAX: byte := 3

  /** struct socket. Ports are kept as the 16-bit values the source stores. */
  class Socket {
    var srcAddr: Quad
    var dstAddr: Quad
    var srcPort: uint16
    var dstPort: uint16
    const protocol: byte
    const txQ: NbQueue
    const rxQ: NbQueue
    var prev: Socket?
    var next: Socket?

    /** The buffers through which the two queues are linked. */
    ghost function Buffers(): set<NetBuff>
      reads txQ, rxQ
    {
      {txQ.anchor, rxQ.anchor} + txQ.nodes + rxQ.nodes
    }

    ghost predicate Valid()
      reads txQ, rxQ, Buffers()
    {
      && txQ != rxQ && txQ.Valid() && rxQ.Valid()
      && {txQ.anchor} + txQ.nodes !! {rxQ.anchor} + rxQ.nodes
    }

    /** The memset and the successful part of inet_sock_create. */
    constructor (protocol: byte)
      ensures Valid() && fresh(txQ) && fresh(rxQ) && fresh(Buffers()) && txQ.items == rxQ.items == []
      ensures this.protocol == protocol && prev == null && next == null
      ensures srcAddr == dstAddr == ANY && srcPort == dstPort == 0
    {
      srcAddr, dstAddr, srcPort, dstPort := ANY, ANY, 0, 0;
      this.protocol := protocol;
      prev, next := null, null;
      txQ := new NbQueue();
      rxQ := new NbQueue();
    }
  }

  datatype Protocol = Unsupported | Supported(protocol: byte)

  /** inet_sock_create's choice. For a type and protocol that do not go together the source leaves its
      result uninitialised; that is read as a failure here. */
  function ChooseProtocol(type_: byte, protocol: byte): Protocol {
    if type_ == SOCK_STREAM && protocol in {0, IPPROTO_TCP} then Supported(IPPROTO_TCP)
    else if type_ == SOCK_DGRAM && protocol in {0, IPPROTO_UDP} then Supported(IPPROTO_UDP)
    else if type_ == SOCK_DGRAM && protocol == IPPROTO_ICMP then Supported(IPPROTO_ICMP)
    else Unsupported
  }

  /** In numbers: a stream socket (1) speaks TCP (6), a datagram socket (2) UDP (17) or, asked for it, ICMP (1);
      protocol 0 is the default; nothing else is supported. */
  lemma ProtocolInNumbers(type_: byte, protocol: byte, p: byte)
    ensures ChooseProtocol(type_, protocol) == Supported(p) <==>
      || (type_ == 1 && p == 6 && (protocol == 0 || protocol == 6))
      || (type_ == 2 && p == 17 && (protocol == 0 || protocol == 17))
      || (type_ == 2 && p == 1 && protocol == 1)
  {
  }

  /** The global list: `first` is the source's socket_list, `list` the sockets in it from head to tail. */
  class SocketList {
    var first: Socket?
    ghost var list: seq<Socket>
    /** The sockets whose links the list may write: those in it. */
    ghost var members: set<Socket>

    ghost predicate Links()
      reads this, members`prev, members`next
    {
      && (forall i {:trigger list[i]} :: 0 <= i < |list| ==> list[i] in members)
      && (forall i, j :: 0 <= i < j < |list| ==> list[i] != list[j])
      && first == (if list == [] then null else list[0])
      && (forall i {:trigger list[i].next} :: 0 <= i < |list| ==>
            list[i].next == if i + 1 < |list| then list[i + 1] else null)
      && (forall i {:trigger list[i].prev} :: 0 <= i < |list| ==>
            list[i].prev == if i > 0 then list[i - 1] else null)
    }

    /** The static initial state. */
    constructor ()
      ensures Valid() && list == [] && members == {}
    {
      first, list, members := null, [], {};
    }

    /** socket_list_add. */
    method Add(new_: Socket)
      requires Links() && new_ !in members
      modifies this, members`prev, new_`next, new_`prev
      ensures Links() && list == [new_] + old(list) && members == old(members) + {new_}
    {
      if first == null {
        new_.next := null;
      } else {
        first.prev := new_;
        new_.next := first;
      }
      first := new_;
      first.prev := null;
      list, members := [new_] + list, members + {new_};
    }

    /** socket_list_del, for a member anywhere in the list. */
    method Del(entry: Socket, ghost k: nat)
      requires Links() && k < |list| && list[k] == entry
      modifies this, members`next, members`prev
      ensures Links() && list == old(list)[..k] + old(list)[k + 1..] && members == old(members) - {entry}
    {
      ghost var was := list;
      assert entry.next == if k + 1 < |was| then was[k + 1] else null;
      assert entry.prev == if k > 0 then was[k - 1] else null;
      if entry.next != null {
        entry.next.prev := entry.prev;
      }
      if entry.prev != null {
        entry.prev.next := entry.next;
      } else {
        first := entry.next;
      }
      list, members := list[..k] + list[k + 1..], members - {entry};
    }

    /** socket(). It fails exactly for an unsupported family, type or protocol, and when there is no memory. */
    method Open(family: byte, type_: byte, protocol: byte, memory: bool) returns (sk: Socket?)
      requires Links()
      modifies this, members`prev
      ensures Links()
      ensures sk == null <==> !memory || family != AF_INET || ChooseProtocol(type_, protocol).Unsupported?
      ensures sk == null ==> list == old(list) && members == old(members)
      ensures sk != null ==>
        && fresh(sk) && fresh(sk.txQ) && fresh(sk.rxQ) && fresh(sk.Buffers())
        && sk.Valid() && sk.txQ.items == sk.rxQ.items == []
        && Supported(sk.protocol) == ChooseProtocol(type_, protocol)
        && list == [sk] + old(list) && members == old(members) + {sk}
    {
      if family >= AF_MAX || type_ >= SOCK_MAX {
        return null;
      }
      if !memory {
        return null;
      }
      var choice := ChooseProtocol(type_, protocol);
      if family != AF_INET || choice.Unsupported? {
        return null;
      }
      sk := new Socket(choice.protocol);
      Add(sk);
    }

    /** sock_close, for a member anywhere in the list: its queues are drained, every queued buffer is freed
        once, and exactly this socket leaves the list. Nothing else is written. */
    method Close(sk: Socket, env: Env, ghost k: nat)
      requires Links() && k < |list| && list[k] == sk && sk.Valid()
      modifies this, members`next, members`prev, env`freed
      modifies sk.txQ, sk.txQ.anchor`next, sk.txQ.anchor`prev, sk.txQ.nodes`next, sk.txQ.nodes`prev
      modifies sk.rxQ, sk.rxQ.anchor`next, sk.rxQ.anchor`prev, sk.rxQ.nodes`next, sk.rxQ.nodes`prev
      ensures Links() && list == old(list)[..k] + old(list)[k + 1..] && members == old(members) - {sk}
      ensures sk.Valid() && sk.txQ.items == sk.rxQ.items == []
      ensures env.freed == old(env.freed) + old(sk.txQ.items) + old(sk.rxQ.items)
    {
      hide Links, NbQueue.Valid;
      sk.txQ.Clear(env);
      sk.rxQ.Clear(env);
      Del(sk, k);
    }

    // -------------------------------------------------------------- any run of socket() and sock_close()

    /** What holds between calls: the links are sound, and no two sockets share a queue or a buffer. */
    ghost predicate Valid()
      reads this, members`prev, members`next
      reads set sk | sk in members :: sk.txQ
      reads set sk | sk in members :: sk.rxQ
      reads set sk, o | sk in members && o in sk.Buffers() :: o
    {
      Links() && Sound(members)
    }

    static ghost predicate Sound(ms: set<Socket>)
      reads set sk | sk in ms :: sk.txQ
      reads set sk | sk in ms :: sk.rxQ
      reads set sk, o | sk in ms && o in sk.Buffers() :: o
    {
      && (forall sk :: sk in ms ==> sk.Valid())
      && (forall a, b :: a in ms && b in ms && a != b ==> Apart(a, b))
    }

    static ghost predicate Apart(a: Socket, b: Socket)
      reads a.txQ, a.rxQ, b.txQ, b.rxQ
    {
      {a.txQ, a.rxQ} !! {b.txQ, b.rxQ} && a.Buffers() !! b.Buffers()
    }

    static twostate predicate Kept(ms: set<Socket>)
      reads set sk | sk in ms :: sk.txQ
      reads set sk | sk in ms :: sk.rxQ
      reads set sk, o | sk in ms && o in sk.Buffers() :: o
    {
      forall s :: s in ms ==> s.Valid() && s.Buffers() == old(s.Buffers())
    }

    /** Sockets that keep their buffers stay sound, also together with one whose queues are new. */
    static twostate lemma SoundWith(was: set<Socket>, new sk: Socket?)
      requires old(Sound(was))
      requires Kept(was)
      requires sk != null ==> sk.Valid() && fresh(sk.txQ) && fresh(sk.rxQ) && fresh(sk.Buffers())
      ensures Sound(was + if sk == null then {} else {sk})
    {
      hide Socket.Valid;
      if sk != null {
        assert forall s :: s in was ==> Apart(s, sk) && Apart(sk, s);
      }
    }

    /** The same for one listed socket whose transmit queue was used: it may hold new buffers. */
    static twostate lemma SoundAfterUse(ms: set<Socket>, new sk: Socket)
      requires old(Sound(ms))
      requires sk in ms && sk.Valid()
      requires Kept(ms - {sk})
      requires fresh(sk.Buffers() - old(sk.Buffers()))
      ensures Sound(ms)
    {
      hide Socket.Valid;
      assert forall s :: s in ms && s != sk ==> old(Apart(s, sk)) && old(Apart(sk, s));
      assert forall s :: s in ms && s != sk ==> Apart(s, sk) && Apart(sk, s);
    }

    /** The next call of a run is socket(): it prepends a socket with empty queues, or changes nothing. */
    method OpenNext(family: byte, type_: byte, protocol: byte, memory: bool) returns (sk: Socket?)
      requires Valid()
      modifies this, members`prev
      ensures Valid()
      ensures sk == null <==> !memory || family != AF_INET || ChooseProtocol(type_, protocol).Unsupported?
      ensures list == (if sk == null then [] else [sk]) + old(list)
      ensures members == (if sk == null then {} else {sk}) + old(members)
      ensures sk != null ==>
        && fresh(sk) && fresh(sk.txQ) && fresh(sk.rxQ) && fresh(sk.Buffers())
        && sk.txQ.items == sk.rxQ.items == [] && Supported(sk.protocol) == ChooseProtocol(type_, protocol)
    {
      hide Links, Socket.Valid, Apart;
      ghost var was := members;
      sk := Open(family, type_, protocol, memory);
      assert forall s :: s in was ==> s.Buffers() == old(s.Buffers()) && s.Valid();
      SoundWith(was, sk);
    }

    lemma Listed(k: nat)
      requires Links() && k < |list|
      ensures list[k] in members
    {
    }

    /** The next call of a run is sock_close(), on any listed socket: it is taken out and its queues are
        drained; the queues of the others stay as they are. */
    method CloseNext(sk: Socket, env: Env, ghost k: nat)
      requires Valid() && k < |list| && list[k] == sk
      modifies this, members`next, members`prev, env`freed, sk.txQ, sk.rxQ, sk.Buffers()
      ensures Valid() && list == old(list)[..k] + old(list)[k + 1..] && members == old(members) - {sk}
      ensures forall s :: s in old(members) && s != sk ==>
        s.Buffers() == old(s.Buffers()) && s.txQ.items == old(s.txQ.items) && s.rxQ.items == old(s.rxQ.items)
      ensures sk.Valid() && sk.txQ.items == sk.rxQ.items == []
      ensures env.freed == old(env.freed) + old(sk.txQ.items) + old(sk.rxQ.items)
    {
      hide Links, Socket.Valid;
      Listed(k);
      ghost var was := members;
      Close(sk, env, k);
      forall s | s in was && s != sk
        ensures s.Valid() && s.Buffers() == old(s.Buffers())
      {
        assert old(Apart(s, sk));
      }
    }
  }
}
