/** Network buffers, who owns them, and the circular buffer queue (src/net/net.c, src/net/net.h). */
module Net {
  import opened Machine

  const ETH_HDR_LEN: nat := 14
  const ETH_P_IP: uint16 := 0x0800
  const ETH_P_ARP: uint16 := 0x0806
  const IPPROTO_ICMP: byte := 1
  const IPPROTO_TCP: byte := 6
  const IPPROTO_UDP: byte := 17

  /** flags.pkt_type is a two-bit field, so PKT_LOOPBACK (4) cannot occur in it. */
  const PKT_HOST: byte := 0
  const PKT_BROADCAST: byte := 1
  const PKT_MULTICAST: byte := 2
  const PKT_OTHERHOST: byte := 3

  const NETDEV_RX_SUCCESS: int := 0
  const NETDEV_RX_DROP: int := 1

  /** struct net_buff_s. `data` and `tail` are offsets from `head`; `end` is head.Length. */
  class NetBuff {
    var next: NetBuff?
    var prev: NetBuff?
    var pktLen: uint16
    var protocol: uint16
    var pktType: byte
    var transportOff: byte
    var networkOff: byte
    var macOff: byte
    const head: array<byte>
    var data: nat
    var tail: nat

    /** net_buff_alloc, once both allocations have succeeded. */
    constructor (size: uint16)
      ensures fresh(this) && fresh(head) && head.Length == size
      ensures next == null && prev == null
      ensures data == tail == 0 && pktLen == 0
      ensures macOff == transportOff == 0 && networkOff == ETH_HDR_LEN
    {
      next, prev := null, null;
      pktLen, protocol, pktType := 0, 0, 0;
      transportOff, networkOff, macOff := 0, ETH_HDR_LEN, 0;
      head := new byte[size];
      data, tail := 0, 0;
    }

    /** eth_header_create; `type_` is an int16_t. Without a source address the device's is taken; without a
        destination the rest of the header is written all the same, and the result is -1. */
    method EthHeaderCreate(type_: int, macD: Option<Mac>, macS: Option<Mac>, devAddr: Mac, len: uint16)
      returns (err: int)
      requires 0 <= type_ < 0x8000 && macOff + ETH_HDR_LEN <= head.Length
      modifies this`pktLen, head
      ensures pktLen == (old(pktLen) + ETH_HDR_LEN) % 0x1_0000
      ensures err == if macD.None? then -1 else 0
      ensures var word: uint16 := if type_ <= 1500 then len else type_;
        head[..] == Splice(old(head[..]), macOff,
                           macD.Or(old(head[macOff..macOff + 6])) + macS.Or(devAddr) + [Hi(word), Lo(word)])
    {
      hide Splice;
      ghost var was := head[..];
      pktLen := (pktLen + ETH_HDR_LEN) % 0x1_0000;
      var word: uint16 := if type_ <= 1500 then len else type_;
      Store(head, macOff + 12, [Hi(word), Lo(word)]);
      Store(head, macOff + 6, macS.Or(devAddr));
      err := -1;
      if macD.Some? {
        Store(head, macOff, macD.value);
        err := 0;
      }
      assert head[..] == Splice(was, macOff,
                                macD.Or(was[macOff..macOff + 6]) + macS.Or(devAddr) + [Hi(word), Lo(word)]);
    }

    /** put_net_buff; `trapped` is the endless loop taken when the new tail is past the end. */
    method Put(len: uint16) returns (oldTail: nat, trapped: bool)
      modifies this`tail, this`pktLen
      ensures oldTail == old(tail) && tail == old(tail) + len
      ensures pktLen == (old(pktLen) + len) % 0x1_0000
      ensures trapped <==> tail > head.Length
    {
      oldTail := tail;
      tail := tail + len;
      pktLen := (pktLen + len) % 0x1_0000;
      trapped := tail > head.Length;
    }
  }

  /** What the device says at one turn of a transmit loop: its flags, and the answer of start_tx
      should the loop get that far. */
  datatype Poll = Poll(up: bool, link: bool, allow: bool, answer: int8)

  /** The outside of the stack: what the device will say, and where buffers went. `script` may be any
      finite sequence; once it is used up the device is down, so the runs it describes are exactly the
      runs whose transmit loops end. */
  class Env {
    var script: seq<Poll>
    /** Buffers the driver consumed, oldest first. Nothing writes a buffer after that, so what it holds
        when a call returns is what the driver was given. */
    var taken: seq<NetBuff>
    /** Buffers given back to the allocator, oldest first. */
    var freed: seq<NetBuff>

    method NextPoll() returns (p: Poll)
      modifies this`script
      ensures old(script) == [] ==> p == Poll(false, false, false, 0) && script == []
      ensures old(script) != [] ==> p == old(script)[0] && script == old(script)[1..]
    {
      if script == [] {
        p := Poll(false, false, false, 0);
      } else {
        p, script := script[0], script[1..];
      }
    }

    /** The driver takes the buffer: start_tx gave an answer that net_dev_xmit_complete accepts. */
    method Take(nb: NetBuff)
      modifies this`taken
      ensures taken == old(taken) + [nb]
    {
      taken := taken + [nb];
    }

    /** free_net_buff. */
    method Free(nb: NetBuff)
      modifies this`freed
      ensures freed == old(freed) + [nb]
    {
      freed := freed + [nb];
    }
  }

  ghost function Members(s: seq<NetBuff>): set<NetBuff> {
    set nb | nb in s
  }

  ghost predicate Distinct<T>(s: seq<T>) {
    forall i, j :: 0 <= i < j < |s| ==> s[i] != s[j]
  }

  /** `list` is the chain of next pointers that starts at `nb` and ends in NULL. */
  ghost predicate Chain(nb: NetBuff?, list: seq<NetBuff>)
    reads list
  {
    && Distinct(list)
    && nb == (if list == [] then null else list[0])
    && forall i {:trigger list[i].next} :: 0 <= i < |list| ==>
         list[i].next == if i + 1 < |list| then list[i + 1] else null
  }

  /** free_net_buff_list: the next pointer is read before its buffer is freed. */
  method FreeNetBuffList(env: Env, first: NetBuff?, ghost list: seq<NetBuff>)
    requires Chain(first, list)
    modifies env`freed
    ensures env.freed == old(env.freed) + list
  {
    var nb := first;
    ghost var i := 0;
    while nb != null
      invariant i <= |list| && nb == (if i < |list| then list[i] else null)
      invariant env.freed == old(env.freed) + list[..i]
      decreases |list| - i
    {
      var next := nb.next;
      env.Free(nb);
      nb, i := next, i + 1;
    }
  }

  /** struct nb_queue_s. The source casts the queue to a buffer so that its two pointers close the ring;
      `anchor` is the queue seen through that cast. */
  class NbQueue {
    const anchor: NetBuff
    var qLen: byte
    ghost var items: seq<NetBuff>
    /** The buffers whose links the queue may write: those it holds. */
    ghost var nodes: set<NetBuff>

    /** The ring: next runs anchor, oldest, ..., newest, anchor, and prev runs back. */
    ghost predicate Valid()
      reads this, anchor, nodes
    {
      && anchor !in nodes && Distinct(items)
      && (forall i {:trigger items[i]} :: 0 <= i < |items| ==> items[i] in nodes)
      && qLen == |items| % 0x100
      && anchor.next == (if items == [] then anchor else items[0])
      && anchor.prev == (if items == [] then anchor else items[|items| - 1])
      && (forall i {:trigger items[i].next} :: 0 <= i < |items| ==>
            items[i].next == if i + 1 < |items| then items[i + 1] else anchor)
      && (forall i {:trigger items[i].prev} :: 0 <= i < |items| ==>
            items[i].prev == if i > 0 then items[i - 1] else anchor)
    }

    /** nb_queue_init. */
    constructor ()
      ensures Valid() && items == [] && nodes == {} && fresh(anchor)
    {
      anchor := new NetBuff(0);
      qLen, items, nodes := 0, [], {};
      new;
      anchor.next, anchor.prev := anchor, anchor;
    }

    /** nb_peek. */
    method Peek() returns (nb: NetBuff?)
      requires Valid()
      ensures nb == if items == [] then null else items[0]
    {
      nb := anchor.next;
      if nb == anchor {
        nb := null;
      }
    }

    /** nb_enqueue. */
    method Enqueue(new_: NetBuff)
      requires Valid() && new_ !in nodes && new_ != anchor
      modifies this, anchor`next, anchor`prev, nodes`next, nodes`prev, new_`next, new_`prev
      ensures Valid() && items == old(items) + [new_] && nodes == old(nodes) + {new_}
    {
      var next := anchor;
      var prev := next.prev;
      new_.next := next;
      new_.prev := prev;
      next.prev := new_;
      prev.next := new_;
      qLen := (qLen + 1) % 0x100;
      items, nodes := items + [new_], nodes + {new_};
    }

    /** nb_dequeue. */
    method Dequeue() returns (ret: NetBuff?)
      requires Valid()
      modifies this, anchor`next, anchor`prev, nodes`next, nodes`prev
      ensures Valid()
      ensures old(items) == [] ==> ret == null && items == [] && nodes == old(nodes)
      ensures old(items) != [] ==>
        && ret == old(items)[0] && items == old(items)[1..]
        && nodes == old(nodes) - {ret} && ret in old(nodes)
        && ret.next == null && ret.prev == null
    {
      ret := Peek();
      if ret != null {
        assert ret.next == (if |items| > 1 then items[1] else anchor) && ret.prev == anchor;
        qLen := (qLen - 1) % 0x100;
        var next, prev := ret.next, ret.prev;
        ret.prev, ret.next := null, null;
        next.prev := prev;
        prev.next := next;
        items, nodes := items[1..], nodes - {ret};
      }
    }

    /** nb_queue_clear. */
    method Clear(env: Env)
      requires Valid()
      modifies this, anchor`next, anchor`prev, nodes`next, nodes`prev, env`freed
      ensures Valid() && items == [] && nodes <= old(nodes)
      ensures env.freed == old(env.freed) + old(items)
    {
      ghost var all, was, k := items, env.freed, 0;
      var nb := Dequeue();
      while nb != null
        invariant Valid() && nodes <= old(nodes)
        invariant k <= |all| && (nb == null ==> k == |all| && items == [])
        invariant nb != null ==> k < |all| && nb == all[k] && items == all[k + 1..]
        invariant env.freed == was + all[..k]
        decreases |all| - k
      {
        TakeNext(was, all, k);
        env.Free(nb);
        k := k + 1;
        nb := Dequeue();
      }
    }
  }

  lemma TakeNext<T>(a: seq<T>, b: seq<T>, k: nat)
    requires k < |b|
    ensures a + b[..k] + [b[k]] == a + b[..k + 1]
  {
  }

  lemma AppendAssoc<T>(a: seq<T>, b: seq<T>, c: seq<T>)
    ensures a + b + c == a + (b + c)
  {
  }

  // ---------------------------------------------------------------- where buffers went

  /** What became of a buffer: handed on (to the caller of a queue, or to the driver), freed, or neither. */
  datatype Fate = Taken | Freed | Lost

  /** Of the first k buffers (or of what belongs to them), those that met fate `f`, in order. */
  function PickTo<T>(bufs: seq<T>, fates: seq<Fate>, f: Fate, k: nat): seq<T>
    requires k <= |bufs| && k <= |fates|
  {
    if k == 0 then []
    else if fates[k - 1] == f then PickTo(bufs, fates, f, k - 1) + [bufs[k - 1]]
    else PickTo(bufs, fates, f, k - 1)
  }

  function Pick<T>(bufs: seq<T>, fates: seq<Fate>, f: Fate): seq<T>
    requires |bufs| == |fates|
  {
    PickTo(bufs, fates, f, |bufs|)
  }

  lemma {:induction false} PickToPrefix<T>(b1: seq<T>, f1: seq<Fate>, b2: seq<T>, f2: seq<Fate>, f: Fate, k: nat)
    requires k <= |b1| == |f1|
    ensures PickTo(b1 + b2, f1 + f2, f, k) == PickTo(b1, f1, f, k)
  {
    if k > 0 {
      PickToPrefix(b1, f1, b2, f2, f, k - 1);
    }
  }

  lemma {:induction false} PickAppend<T>(b1: seq<T>, f1: seq<Fate>, b2: seq<T>, f2: seq<Fate>, f: Fate, k: nat)
    requires |b1| == |f1| && k <= |b2| == |f2|
    ensures PickTo(b1 + b2, f1 + f2, f, |b1| + k) == Pick(b1, f1, f) + PickTo(b2, f2, f, k)
  {
    if k == 0 {
      PickToPrefix(b1, f1, b2, f2, f, |b1|);
    } else {
      PickAppend(b1, f1, b2, f2, f, k - 1);
    }
  }

  /** n buffers with one and the same fate. */
  function All(n: nat, f: Fate): (fates: seq<Fate>)
    ensures |fates| == n
    ensures forall i :: 0 <= i < n ==> fates[i] == f
  {
    seq(n, _ => f)
  }

  lemma PickNext<T>(base: seq<T>, bufs: seq<T>, fates: seq<Fate>, f: Fate, k: nat)
    requires k < |bufs| == |fates|
    ensures base + PickTo(bufs, fates, f, k + 1)
         == base + PickTo(bufs, fates, f, k) + (if fates[k] == f then [bufs[k]] else [])
  {
  }

  lemma {:induction false} PickNone<T>(bufs: seq<T>, fates: seq<Fate>, f: Fate, k: nat, n: nat)
    requires k <= n <= |bufs| == |fates| && forall i :: k <= i < n ==> fates[i] != f
    ensures PickTo(bufs, fates, f, n) == PickTo(bufs, fates, f, k)
  {
    if k < n {
      PickNone(bufs, fates, f, k, n - 1);
    }
  }

  lemma {:induction false} PickTail<T>(bufs: seq<T>, fates: seq<Fate>, f: Fate, k: nat, n: nat)
    requires k <= n <= |bufs| == |fates| && forall i :: k <= i < n ==> fates[i] == f
    ensures PickTo(bufs, fates, f, n) == PickTo(bufs, fates, f, k) + bufs[k..n]
  {
    if k < n {
      PickTail(bufs, fates, f, k, n - 1);
      assert bufs[k..n] == bufs[k..n - 1] + [bufs[n - 1]];
    }
  }

  /** All that is left meets fate `f`. */
  lemma PickRest<T>(bufs: seq<T>, fates: seq<Fate>, f: Fate, g: Fate, k: nat)
    requires k <= |bufs| == |fates| && f != g
    requires PickTo(bufs, fates, f, k) == [] && forall i :: k <= i < |fates| ==> fates[i] == f
    ensures Pick(bufs, fates, f) == bufs[k..]
    ensures Pick(bufs, fates, g) == PickTo(bufs, fates, g, k)
  {
    PickTail(bufs, fates, f, k, |bufs|);
    PickNone(bufs, fates, g, k, |bufs|);
  }

  // ---------------------------------------------------------------- runs of queue operations

  datatype QueueOp = Enqueue(nb: NetBuff) | Dequeue | Clear

  function Entering(op: QueueOp): seq<NetBuff> {
    if op.Enqueue? then [op.nb] else []
  }

  function Enqueued(ops: seq<QueueOp>): seq<NetBuff> {
    if ops == [] then [] else Entering(ops[0]) + Enqueued(ops[1..])
  }

  /** What is left in the queue, what dequeue returned, and what clear freed, each oldest first. */
  datatype Ran = Ran(items: seq<NetBuff>, dequeued: seq<NetBuff>, freed: seq<NetBuff>)

  /** A mathematical FIFO: one operation on the sequence `items`. */
  function FifoOp(items: seq<NetBuff>, op: QueueOp): Ran {
    match op
    case Enqueue(nb) => Ran(items + [nb], [], [])
    case Dequeue => if items == [] then Ran([], [], []) else Ran(items[1..], [items[0]], [])
    case Clear => Ran([], [], items)
  }

  function Fifo(items: seq<NetBuff>, ops: seq<QueueOp>): Ran
    decreases |ops|
  {
    if ops == [] then Ran(items, [], [])
    else
      var first := FifoOp(items, ops[0]);
      var rest := Fifo(first.items, ops[1..]);
      Ran(rest.items, first.dequeued + rest.dequeued, first.freed + rest.freed)
  }

  method RunQueueOp(q: NbQueue, env: Env, op: QueueOp) returns (dequeued: seq<NetBuff>)
    requires q.Valid() && q.anchor !in Entering(op)
    requires op.Enqueue? ==> op.nb !in q.nodes
    modifies q, q.anchor, q.nodes, Members(Entering(op)), env`freed
    ensures q.Valid() && q.nodes <= old(q.nodes) + Members(Entering(op))
    ensures var r := FifoOp(old(q.items), op);
      q.items == r.items && dequeued == r.dequeued && env.freed == old(env.freed) + r.freed
  {
    dequeued := [];
    match op {
      case Enqueue(nb) =>
        q.Enqueue(nb);
      case Dequeue =>
        var nb := q.Dequeue();
        if nb != null {
          dequeued := [nb];
        }
      case Clear =>
        q.Clear(env);
    }
  }

  /** The linked ring refines the mathematical FIFO, over any run of operations. */
  method RunQueue(q: NbQueue, env: Env, ops: seq<QueueOp>) returns (dequeued: seq<NetBuff>)
    requires q.Valid() && q.anchor !in Enqueued(ops)
    requires Distinct(Enqueued(ops)) && q.nodes !! Members(Enqueued(ops))
    modifies q, q.anchor, q.nodes, Members(Enqueued(ops)), env`freed
    ensures q.Valid()
    ensures var r := Fifo(old(q.items), ops);
      q.items == r.items && dequeued == r.dequeued && env.freed == old(env.freed) + r.freed
    decreases |ops|
  {
    if ops == [] {
      dequeued := [];
    } else {
      hide NbQueue.Valid, Distinct;
      HeadApart(Entering(ops[0]), Enqueued(ops[1..]));
      ghost var first := FifoOp(q.items, ops[0]);
      dequeued := RunQueueOp(q, env, ops[0]);
      AppendAssoc(old(env.freed), first.freed, Fifo(first.items, ops[1..]).freed);
      var rest := RunQueue(q, env, ops[1..]);
      dequeued := dequeued + rest;
    }
  }

  /** First in, first out: what left the queue, in the order in which it left, followed by what is still in
      it, is what was in it followed by what was enqueued; and what left was either returned or freed. */
  lemma {:induction false} FirstInFirstOut(items: seq<NetBuff>, ops: seq<QueueOp>)
    returns (removed: seq<NetBuff>, fates: seq<Fate>)
    ensures var r := Fifo(items, ops);
      && removed + r.items == items + Enqueued(ops)
      && |fates| == |removed| && Lost !in fates
      && r.dequeued == Pick(removed, fates, Taken) && r.freed == Pick(removed, fates, Freed)
    decreases |ops|
  {
    if ops == [] {
      removed, fates := [], [];
    } else {
      hide PickTo, Fifo;
      var first := FifoOp(items, ops[0]);
      var left, how := OneLeaves(items, ops[0]);
      var rest, fates1 := FirstInFirstOut(first.items, ops[1..]);
      removed, fates := left + rest, how + fates1;
      FifoCons(items, ops);
      PickAppend(left, how, rest, fates1, Taken, |rest|);
      PickAppend(left, how, rest, fates1, Freed, |rest|);
      AppendAssoc(items, Entering(ops[0]), Enqueued(ops[1..]));
      AppendAssoc(left, first.items, Enqueued(ops[1..]));
      AppendAssoc(left, rest, Fifo(items, ops).items);
    }
  }

  lemma FifoCons(items: seq<NetBuff>, ops: seq<QueueOp>)
    requires ops != []
    ensures var first := FifoOp(items, ops[0]);
      var rest := Fifo(first.items, ops[1..]);
      Fifo(items, ops) == Ran(rest.items, first.dequeued + rest.dequeued, first.freed + rest.freed)
  {
  }

  lemma OneLeaves(items: seq<NetBuff>, op: QueueOp) returns (left: seq<NetBuff>, how: seq<Fate>)
    ensures var r := FifoOp(items, op);
      && left + r.items == items + Entering(op)
      && |how| == |left| && Lost !in how
      && r.dequeued == Pick(left, how, Taken) && r.freed == Pick(left, how, Freed)
  {
    match op {
      case Enqueue(_) =>
        left, how := [], [];
      case Dequeue =>
        left, how := items[..if items == [] then 0 else 1], if items == [] then [] else [Taken];
        if items != [] {
          assert PickTo(left, how, Taken, 0) == PickTo(left, how, Freed, 0) == [];
        }
      case Clear =>
        left, how := items, All(|items|, Freed);
        PickRest(left, how, Freed, Taken, 0);
        assert PickTo(left, how, Taken, 0) == [];
    }
  }

  lemma HeadApart(a: seq<NetBuff>, b: seq<NetBuff>)
    requires Distinct(a + b)
    ensures Distinct(b) && Members(a) !! Members(b) && Members(a + b) == Members(a) + Members(b)
  {
    assert forall i :: 0 <= i < |a| ==> (a + b)[i] == a[i];
    assert forall i :: 0 <= i < |b| ==> (a + b)[|a| + i] == b[i];
  }
}
