/** The transmit loops of src/net/net_dev.c against a driver that may answer anything. */
module NetDev {
  import opened Machine
  import opened Net

  const NETDEV_TX_OK: int8 := 0x00
  const NETDEV_TX_BUSY: int8 := 0x10

  /** net_dev_xmit_complete: the driver consumed the buffer. Negative answers count as consumed. */
  predicate Complete(answer: int8) { answer < 0x0F }

  /** In numbers: success (0), every error (negative) and the codes below 15 consume the buffer; busy (16) and
      everything above 14 does not. */
  lemma CompleteInNumbers(answer: int8)
    ensures Complete(answer) <==> answer <= 14
    ensures Complete(NETDEV_TX_OK) && NETDEV_TX_OK == 0 && !Complete(NETDEV_TX_BUSY) && NETDEV_TX_BUSY == 16
  {
  }

  // ---------------------------------------------------------------- what the driver was asked

  /** The answers start_tx gives before the device or its link is first seen down. */
  function Answers(script: seq<Poll>): seq<int8> {
    if script == [] || !(script[0].up && script[0].link) then []
    else (if script[0].allow then [script[0].answer] else []) + Answers(script[1..])
  }

  function Completions(answers: seq<int8>): nat {
    if answers == [] then 0 else (if Complete(answers[0]) then 1 else 0) + Completions(answers[1..])
  }

  lemma CompletionsNext(script: seq<Poll>)
    requires script != [] && script[0].up && script[0].link
    ensures Completions(Answers(script))
         == Completions(Answers(script[1..])) + (if script[0].allow && Complete(script[0].answer) then 1 else 0)
  {
    var rest := Answers(script[1..]);
    assert ([script[0].answer] + rest)[1..] == rest && [] + rest == rest;
  }

  // ---------------------------------------------------------------- a list of buffers

  /** `taken` buffers were consumed before the loop ended with `err` in hand. */
  datatype ListRun = ListRun(taken: nat, err: int8)

  /** netdev_list_xmit's loop on n buffers: a busy buffer is offered again. */
  function RunList(n: nat, script: seq<Poll>, err: int8): (r: ListRun)
    ensures r.taken <= n
  {
    if script == [] || !(script[0].up && script[0].link && n > 0) then ListRun(0, err)
    else if !script[0].allow then RunList(n, script[1..], err)
    else if !Complete(script[0].answer) then RunList(n, script[1..], script[0].answer)
    else
      var r := RunList(n - 1, script[1..], script[0].answer);
      ListRun(r.taken + 1, r.err)
  }

  /** netdev_list_xmit on the chain `list`. */
  method NetdevListXmit(env: Env, first: NetBuff, ghost list: seq<NetBuff>) returns (err: int8)
    requires Chain(first, list)
    modifies env, list`next
    ensures var r := RunList(|list|, old(env.script), NETDEV_TX_BUSY);
      && env.taken == old(env.taken) + list[..r.taken]
      && env.freed == old(env.freed) + (if Complete(r.err) then [] else list[r.taken..])
      && err == (if Complete(r.err) then r.err else -1)
  {
    err := NETDEV_TX_BUSY;
    ghost var k, script, taken, freed := 0, env.script, env.taken, env.freed;
    var nb: NetBuff? := first;
    while true
      invariant k <= |list| && nb == (if k < |list| then list[k] else null)
      invariant forall j {:trigger list[j].next} :: k <= j < |list| ==>
        list[j].next == if j + 1 < |list| then list[j + 1] else null
      invariant env.taken == taken + list[..k] && env.freed == freed
      invariant var r, s := RunList(|list|, script, NETDEV_TX_BUSY), RunList(|list| - k, env.script, err);
        r.taken == k + s.taken && r.err == s.err
      decreases |env.script|
    {
      var p := env.NextPoll();
      if !(p.up && p.link && nb != null) {
        break;
      }
      if !p.allow {
        continue;
      }
      var next := nb.next;
      nb.next := null;
      err := p.answer;
      if !Complete(err) {
        nb.next := next;
        continue;
      }
      TakeNext(taken, list, k);
      env.Take(nb);
      nb, k := next, k + 1;
    }
    if !Complete(err) {
      FreeNetBuffList(env, nb, list[k..]);
      err := -1;
    }
  }

  /** The outcome of the list loop from the driver's answers alone: the buffers go in order, one for each
      completing answer, and `err` is the last answer. */
  lemma {:induction false} ListOutcome(n: nat, script: seq<Poll>, err: int8)
    ensures var r, a := RunList(n, script, err), Answers(script);
      && r.taken == (if Completions(a) < n then Completions(a) else n)
      && (Completions(a) < n ==> r.err == if a == [] then err else a[|a| - 1])
      && (Completions(a) >= n > 0 ==> Complete(r.err))
  {
    if script != [] && script[0].up && script[0].link && n > 0 {
      var p := script[0];
      CompletionsNext(script);
      ListOutcome(if p.allow && Complete(p.answer) then n - 1 else n, script[1..],
                  if p.allow then p.answer else err);
      if p.allow && Answers(script[1..]) != [] {
        assert Answers(script)[|Answers(script)| - 1] == Answers(script[1..])[|Answers(script[1..])| - 1];
      }
    }
  }

  /** A list of one: the buffer is consumed by the driver, or freed, and never both. */
  lemma OneBufferDisposed(script: seq<Poll>)
    ensures var r := RunList(1, script, NETDEV_TX_BUSY);
      (r.taken == 1 <==> Complete(r.err)) && (r.taken == 1 <==> Completions(Answers(script)) > 0)
  {
    ListOutcome(1, script, NETDEV_TX_BUSY);
    LastIncomplete(Answers(script));
  }

  /** A longer list: buffers are left neither consumed nor freed exactly when the device goes down after
      at least one was consumed and before the next one was offered. */
  lemma BuffersLostIff(n: nat, script: seq<Poll>)
    requires n > 0
    ensures var r, a := RunList(n, script, NETDEV_TX_BUSY), Answers(script);
      (r.taken < n && Complete(r.err)) <==> (a != [] && Complete(a[|a| - 1]) && Completions(a) < n)
  {
    ListOutcome(n, script, NETDEV_TX_BUSY);
  }

  lemma {:induction false} LastIncomplete(a: seq<int8>)
    ensures Completions(a) == 0 ==> forall i :: 0 <= i < |a| ==> !Complete(a[i])
  {
    if a != [] {
      LastIncomplete(a[1..]);
      assert forall i :: 1 <= i < |a| ==> a[i] == a[1..][i - 1];
    }
  }

  // ---------------------------------------------------------------- a queue of buffers

  /** One buffer's turn: was it consumed, with what `err` in hand, and what is left of the script. */
  datatype Turn = Turn(sent: bool, err: int8, rest: seq<Poll>)

  function OneTurn(script: seq<Poll>, err: int8): (t: Turn)
    ensures t.sent ==> Complete(t.err)
  {
    if script == [] then Turn(false, err, [])
    else if !(script[0].up && script[0].link) then Turn(false, err, script[1..])
    else if !script[0].allow then OneTurn(script[1..], err)
    else if Complete(script[0].answer) then Turn(true, script[0].answer, script[1..])
    else OneTurn(script[1..], script[0].answer)
  }

  /** netdev_queue_xmit on n buffers. A buffer that was never offered leaves -1, which counts as consumed,
      in `err`: it is neither sent nor freed, and the loop goes on. */
  function QueueFates(n: nat, script: seq<Poll>): (fates: seq<Fate>)
    ensures |fates| == n
  {
    if n == 0 then []
    else
      var t := OneTurn(script, -1);
      if t.sent then [Taken] + QueueFates(n - 1, t.rest)
      else if Complete(t.err) then [Lost] + QueueFates(n - 1, t.rest)
      else [Lost] + All(n - 1, Freed)
  }

  function QueueErr(n: nat, script: seq<Poll>, err: int8): int8 {
    if n == 0 then err
    else
      var t := OneTurn(script, -1);
      if Complete(t.err) then QueueErr(n - 1, t.rest, t.err) else -1
  }

  /** What is left of the script. */
  function QueueRest(n: nat, script: seq<Poll>): seq<Poll> {
    if n == 0 then script
    else
      var t := OneTurn(script, -1);
      if Complete(t.err) then QueueRest(n - 1, t.rest) else t.rest
  }

  /** The inner loop of netdev_queue_xmit. */
  method OfferWhileUp(env: Env, nb: NetBuff) returns (err: int8)
    modifies env`script, env`taken
    ensures var t := OneTurn(old(env.script), -1);
      && err == t.err && env.script == t.rest
      && env.taken == old(env.taken) + (if t.sent then [nb] else [])
  {
    err := -1;
    while true
      invariant OneTurn(old(env.script), -1) == OneTurn(env.script, err)
      invariant env.taken == old(env.taken)
      decreases |env.script|
    {
      var p := env.NextPoll();
      if !(p.up && p.link) {
        break;
      }
      if !p.allow {
        continue;
      }
      err := p.answer;
      if Complete(err) {
        env.Take(nb);
        break;
      }
    }
  }

  /** The body of netdev_queue_xmit's outer loop, for the buffer just dequeued. */
  method XmitHead(env: Env, q: NbQueue, nb: NetBuff) returns (err: int8)
    requires q.Valid()
    modifies env, q, q.anchor`next, q.anchor`prev, q.nodes`next, q.nodes`prev
    ensures q.Valid() && q.nodes <= old(q.nodes)
    ensures var t := OneTurn(old(env.script), -1);
      && err == t.err && env.script == t.rest
      && env.taken == old(env.taken) + (if t.sent then [nb] else [])
      && q.items == (if Complete(err) then old(q.items) else [])
      && env.freed == old(env.freed) + (if Complete(err) then [] else old(q.items))
  {
    err := OfferWhileUp(env, nb);
    if !Complete(err) {
      q.Clear(env);
    }
  }

  /** netdev_queue_xmit. */
  method NetdevQueueXmit(env: Env, q: NbQueue) returns (err: int8)
    requires q.Valid()
    modifies env, q, q.anchor`next, q.anchor`prev, q.nodes`next, q.nodes`prev
    ensures q.Valid() && q.items == [] && q.nodes <= old(q.nodes)
    ensures var fates := QueueFates(|old(q.items)|, old(env.script));
      && env.taken == old(env.taken) + Pick(old(q.items), fates, Taken)
      && env.freed == old(env.freed) + Pick(old(q.items), fates, Freed)
    ensures err == QueueErr(|old(q.items)|, old(env.script), NETDEV_TX_OK)
    ensures env.script == QueueRest(|old(q.items)|, old(env.script))
  {
    hide NbQueue.Valid, Distinct, QueueFates, OneTurn, QueueErr, QueueRest, FatesFrom, PickTo;
    ghost var all, fates := q.items, QueueFates(|q.items|, env.script);
    FatesStart(all, env.script);
    ghost var script, taken, freed := env.script, env.taken, env.freed;
    err := NETDEV_TX_OK;
    ghost var k := 0;
    var nb := q.Dequeue();
    while nb != null
      invariant q.Valid() && q.nodes <= old(q.nodes) && k <= |all|
      invariant nb == null ==> k == |all| && q.items == []
      invariant nb != null ==> k < |all| && nb == all[k] && q.items == all[k + 1..]
      invariant FatesFrom(fates, k, env.script)
      invariant QueueErr(|all|, script, NETDEV_TX_OK) == QueueErr(|all| - k, env.script, err)
      invariant QueueRest(|all|, script) == QueueRest(|all| - k, env.script)
      invariant env.taken == taken + PickTo(all, fates, Taken, k)
      invariant env.freed == freed && PickTo(all, fates, Freed, k) == []
      decreases |all| - k
    {
      FatesStep(fates, k, env.script, err);
      PickNext(taken, all, fates, Taken, k);
      PickNone(all, fates, Freed, k, k + 1);
      err := XmitHead(env, q, nb);
      if !Complete(err) {
        PickRest(all, fates, Freed, Taken, k + 1);
        err := -1;
        break;
      }
      k := k + 1;
      nb := q.Dequeue();
    }
  }

  ghost predicate FatesFrom(fates: seq<Fate>, k: nat, script: seq<Poll>) {
    k <= |fates| && fates[k..] == QueueFates(|fates| - k, script)
  }

  lemma FatesStart(bufs: seq<NetBuff>, script: seq<Poll>)
    ensures var fates := QueueFates(|bufs|, script);
      && FatesFrom(fates, 0, script)
      && PickTo(bufs, fates, Taken, 0) == [] && PickTo(bufs, fates, Freed, 0) == []
    ensures forall s, e :: QueueErr(0, s, e) == e
    ensures forall s :: QueueRest(0, s) == s
  {
  }

  lemma FatesStep(fates: seq<Fate>, k: nat, script: seq<Poll>, err: int8)
    requires FatesFrom(fates, k, script) && k < |fates|
    ensures var t := OneTurn(script, -1);
      && fates[k] == (if t.sent then Taken else Lost)
      && QueueErr(|fates| - k, script, err)
         == (if Complete(t.err) then QueueErr(|fates| - k - 1, t.rest, t.err) else -1)
      && QueueRest(|fates| - k, script) == (if Complete(t.err) then QueueRest(|fates| - k - 1, t.rest) else t.rest)
      && (Complete(t.err) ==> FatesFrom(fates, k + 1, t.rest))
      && (!Complete(t.err) ==> forall i :: k < i < |fates| ==> fates[i] == Freed)
  {
  }

  lemma {:induction false} TurnOutcome(script: seq<Poll>, err: int8)
    ensures var t := OneTurn(script, err);
      && (t.sent <==> Completions(Answers(script)) > 0)
      && (t.sent ==> Completions(Answers(t.rest)) == Completions(Answers(script)) - 1)
  {
    if script != [] && script[0].up && script[0].link {
      CompletionsNext(script);
      if !(script[0].allow && Complete(script[0].answer)) {
        TurnOutcome(script[1..], if script[0].allow then script[0].answer else err);
      }
    }
  }

  /** Every queued buffer reaches the driver exactly when the driver completes that many before the
      device is first seen down. */
  lemma {:induction false} AllTakenIff(n: nat, script: seq<Poll>)
    ensures QueueFates(n, script) == All(n, Taken) <==> Completions(Answers(script)) >= n
  {
    if n > 0 {
      var t := OneTurn(script, -1);
      TurnOutcome(script, -1);
      AllTakenIff(n - 1, t.rest);
      if t.sent {
        assert QueueFates(n, script)[1..] == QueueFates(n - 1, t.rest);
        assert All(n, Taken) == [Taken] + All(n - 1, Taken);
        assert All(n, Taken)[1..] == All(n - 1, Taken);
      } else {
        assert QueueFates(n, script)[0] == Lost && All(n, Taken)[0] == Taken;
      }
    }
  }

  /** The script after the first poll that sees the device down. */
  function AfterDown(script: seq<Poll>): seq<Poll> {
    if script == [] then [] else if script[0].up && script[0].link then AfterDown(script[1..]) else script[1..]
  }

  /** One turn from the driver's answers: it uses them up to and including the first completion; without one
      it uses the script up to the device being seen down, and its error is the last answer. */
  lemma {:induction false} TurnAnswers(script: seq<Poll>, err: int8) returns (k: nat)
    ensures var t, a := OneTurn(script, err), Answers(script);
      if t.sent
      then AfterDown(t.rest) == AfterDown(script) && k < |a| && a[k] == t.err && a[k + 1..] == Answers(t.rest)
      else t.rest == AfterDown(script) && t.err == if a == [] then err else a[|a| - 1]
  {
    k := 0;
    if script != [] && script[0].up && script[0].link {
      var p, a, rest := script[0], Answers(script), Answers(script[1..]);
      if !p.allow {
        assert a == rest;
        k := TurnAnswers(script[1..], err);
      } else if Complete(p.answer) {
        assert a[0] == p.answer && a[1..] == rest;
      } else {
        assert a == [p.answer] + rest;
        k := TurnAnswers(script[1..], p.answer);
        assert k < |rest| ==> a[k + 2..] == rest[k + 1..];
        k := k + 1;
      }
    }
  }

  /** What is decided once the driver made c completions and the device was seen down, its last answer having
      been `refused` or not: the fates, and the result `err`. */
  ghost predicate FatesFollow(fates: seq<Fate>, err: int8, c: nat, refused: bool, rest: seq<Poll>) {
    && (forall i :: 0 <= i < |fates| && i < c ==> fates[i] == Taken)
    && (c < |fates| ==>
          && fates[c] == Lost
          && fates[c + 1..] == (if refused then All(|fates| - c - 1, Freed) else QueueFates(|fates| - c - 1, rest))
          && err == if refused then -1 else QueueErr(|fates| - c - 1, rest, -1))
  }

  lemma TakenFirst(fates: seq<Fate>, err: int8, c: nat, refused: bool, rest: seq<Poll>)
    requires FatesFollow(fates, err, c, refused, rest)
    ensures FatesFollow([Taken] + fates, err, c + 1, refused, rest)
  {
    var all := [Taken] + fates;
    assert forall i :: 1 <= i < |all| ==> all[i] == fates[i - 1];
    assert c < |fates| ==> all[c + 2..] == fates[c + 1..];
  }

  lemma LostFirst(n: nat, refused: bool, rest: seq<Poll>)
    requires n > 0
    ensures FatesFollow([Lost] + if refused then All(n - 1, Freed) else QueueFates(n - 1, rest),
                        if refused then -1 else QueueErr(n - 1, rest, -1), 0, refused, rest)
  {
    var tail := if refused then All(n - 1, Freed) else QueueFates(n - 1, rest);
    assert ([Lost] + tail)[1..] == tail;
  }

  /** All fates, from the driver's answers. Until the device is first seen down, the driver takes as many
      buffers as it completes. The next one is lost. What comes after that is freed, and -1 returned, if the
      driver's last answer was a refusal; otherwise the same begins anew with the rest of the script. */
  lemma {:induction false} FatesInAnswers(n: nat, script: seq<Poll>, err: int8)
    ensures var a := Answers(script);
      FatesFollow(QueueFates(n, script), QueueErr(n, script, err), Completions(a),
                  a != [] && a[|a| - 1] > 14, AfterDown(script))
  {
    if n > 0 {
      TurnOutcome(script, -1);
      var k := TurnAnswers(script, -1);
      var t, a := OneTurn(script, -1), Answers(script);
      CompleteInNumbers(t.err);
      QueueNext(n, script, err);
      hide FatesFollow, OneTurn, Answers, Completions, AfterDown, Complete, All, QueueErr, QueueFates;
      if t.sent {
        FatesInAnswers(n - 1, t.rest, t.err);
        SameLast(a, k, Answers(t.rest), t.err);
        TakenFirst(QueueFates(n - 1, t.rest), QueueErr(n - 1, t.rest, t.err), Completions(a) - 1,
                   a[|a| - 1] > 14, AfterDown(script));
      } else {
        if a != [] {
          NoneCompletes(a);
        }
        LostFirst(n, a != [], t.rest);
      }
    }
  }

  lemma QueueNext(n: nat, script: seq<Poll>, err: int8)
    requires n > 0
    ensures var t := OneTurn(script, -1);
      && QueueErr(n, script, err) == (if Complete(t.err) then QueueErr(n - 1, t.rest, t.err) else -1)
      && QueueFates(n, script) ==
         if t.sent then [Taken] + QueueFates(n - 1, t.rest)
         else [Lost] + if Complete(t.err) then QueueFates(n - 1, t.rest) else All(n - 1, Freed)
  {
  }

  lemma NoneCompletes(a: seq<int8>)
    requires Completions(a) == 0 && a != []
    ensures a[|a| - 1] > 14
  {
    LastIncomplete(a);
    CompleteInNumbers(a[|a| - 1]);
  }

  lemma SameLast(a: seq<int8>, k: nat, rest: seq<int8>, answer: int8)
    requires k < |a| && a[k + 1..] == rest && a[k] == answer
    ensures a[|a| - 1] == if rest == [] then answer else rest[|rest| - 1]
  {
  }

  /** Only a tail of the queue is ever freed, and the buffer in front of that tail, the one the driver kept
      refusing, is lost: it is neither sent nor freed. */
  lemma {:induction false} FreedTailFollowsLost(n: nat, script: seq<Poll>, j: nat)
    requires j < n && QueueFates(n, script)[j] == Freed
    ensures forall i :: j <= i < n ==> QueueFates(n, script)[i] == Freed
    ensures exists i :: 0 <= i < j && QueueFates(n, script)[i] == Lost
  {
    var t, fates := OneTurn(script, -1), QueueFates(n, script);
    if t.sent || Complete(t.err) {
      var rest := QueueFates(n - 1, t.rest);
      assert forall i :: 1 <= i < n ==> fates[i] == rest[i - 1];
      FreedTailFollowsLost(n - 1, t.rest, j - 1);
      var i :| 0 <= i < j - 1 && rest[i] == Lost;
      assert fates[i + 1] == Lost;
    } else {
      assert fates[0] == Lost;
    }
  }

  /** A queue of one, as udp_send uses it: the buffer is consumed by the driver or lost, never freed, and
      success is reported only if it was consumed. */
  lemma OneQueued(script: seq<Poll>)
    ensures QueueFates(1, script) == [if Completions(Answers(script)) > 0 then Taken else Lost]
    ensures QueueErr(1, script, NETDEV_TX_OK) == 0 ==> Completions(Answers(script)) > 0
  {
    TurnOutcome(script, -1);
    var t := OneTurn(script, -1);
    assert QueueErr(0, t.rest, t.err) == t.err;
    NeverZero(script, -1);
  }

  /** What netdev_queue_xmit returns is about the last buffer: -1 unless the driver consumed it, and then an
      answer that consumes. */
  lemma {:induction false} ErrorOfLast(n: nat, script: seq<Poll>, err: int8)
    requires n > 0
    ensures var e, fate := QueueErr(n, script, err), QueueFates(n, script)[n - 1];
      if fate == Taken then Complete(e) else e == -1
  {
    var t, fates := OneTurn(script, -1), QueueFates(n, script);
    NeverZero(script, -1);
    if n == 1 {
      assert QueueErr(0, t.rest, t.err) == t.err;
    } else if Complete(t.err) {
      assert fates[n - 1] == QueueFates(n - 1, t.rest)[n - 2];
      ErrorOfLast(n - 1, t.rest, t.err);
    } else {
      assert fates[n - 1] == All(n - 1, Freed)[n - 2];
    }
  }

  /** The first answer that consumed a buffer. */
  function FirstCompletion(answers: seq<int8>): Option<int8> {
    if answers == [] then None else if Complete(answers[0]) then Some(answers[0]) else FirstCompletion(answers[1..])
  }

  /** For a queue of one, as udp_send uses it: the very answer that consumed the buffer, or -1. */
  lemma {:induction false} ErrorOfOne(script: seq<Poll>, err: int8)
    requires err == -1 || !Complete(err)
    ensures var t, first := OneTurn(script, err), FirstCompletion(Answers(script));
      && (first.Some? <==> t.sent) && (t.sent ==> t.err == first.value)
      && (err == -1 ==> QueueErr(1, script, NETDEV_TX_OK) == first.Or(-1))
  {
    NeverZero(script, err);
    var t := OneTurn(script, err);
    assert QueueErr(0, t.rest, t.err) == t.err;
    if script != [] && script[0].up && script[0].link && !(script[0].allow && Complete(script[0].answer)) {
      var rest := Answers(script[1..]);
      assert ([script[0].answer] + rest)[1..] == rest && [] + rest == rest;
      ErrorOfOne(script[1..], if script[0].allow then script[0].answer else err);
    }
  }

  lemma {:induction false} NeverZero(script: seq<Poll>, err: int8)
    requires err == -1 || !Complete(err)
    ensures var t := OneTurn(script, err); !t.sent ==> t.err == -1 || !Complete(t.err)
  {
    if script != [] && script[0].up && script[0].link && !(script[0].allow && Complete(script[0].answer)) {
      NeverZero(script[1..], if script[0].allow then script[0].answer else err);
    }
  }
}
