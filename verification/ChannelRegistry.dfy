// Model of apps/server/src/orchestrator/channel-registry.ts: an unbounded queue of events
// and waiting readers per subscription, and the map from a channel to its open subscriptions.
//
// The k-th read of a queue is promise number k; `settled` holds the promises that
// have been resolved, and with what.
module ChannelRegistry {
  import opened Wrappers

  datatype Delivery<E> = Value(event: E) | Done

  // ---------------------------------------------------------------- one queue

  datatype Queue<E> = Queue(
    buffered: seq<E>,
    waiters: seq<nat>,
    closed: bool,
    calls: nat,
    settled: map<nat, Delivery<E>>)

  datatype QueueOp<E> = Push(event: E) | Close | Next

  function NewQueue<E>(): Queue<E> {
    Queue([], [], false, 0, map[])
  }

  function SettleDone<E>(settled: map<nat, Delivery<E>>, waiters: seq<nat>): map<nat, Delivery<E>>
    decreases |waiters|
  {
    if waiters == [] then settled else SettleDone(settled[waiters[0] := Done], waiters[1..])
  }

  function QueueStep<E>(q: Queue<E>, op: QueueOp<E>): Queue<E> {
    match op
    case Push(e) =>
      if q.closed then q
      else if q.waiters != [] then q.(waiters := q.waiters[1..], settled := q.settled[q.waiters[0] := Value(e)])
      else q.(buffered := q.buffered + [e])
    case Close =>
      if q.closed then q
      else q.(closed := true, waiters := [], settled := SettleDone(q.settled, q.waiters))
    case Next =>
      if q.buffered != [] then
        q.(buffered := q.buffered[1..], calls := q.calls + 1, settled := q.settled[q.calls := Value(q.buffered[0])])
      else if q.closed then q.(calls := q.calls + 1, settled := q.settled[q.calls := Done])
      else q.(calls := q.calls + 1, waiters := q.waiters + [q.calls])
  }

  function RunQueue<E>(ops: seq<QueueOp<E>>): Queue<E> {
    if ops == [] then NewQueue() else QueueStep(RunQueue(ops[..|ops| - 1]), ops[|ops| - 1])
  }

  // The events pushed before the queue was closed, in order.
  function Accepted<E>(ops: seq<QueueOp<E>>): seq<E> {
    if ops == [] then []
    else
      var front, op := ops[..|ops| - 1], ops[|ops| - 1];
      if op.Push? && !HasClose(front) then Accepted(front) + [op.event] else Accepted(front)
  }

  predicate HasClose<E>(ops: seq<QueueOp<E>>) {
    ops != [] && (ops[|ops| - 1].Close? || HasClose(ops[..|ops| - 1]))
  }

  function Reads<E>(ops: seq<QueueOp<E>>): nat {
    if ops == [] then 0 else Reads(ops[..|ops| - 1]) + if ops[|ops| - 1].Next? then 1 else 0
  }

  // What promise number k must be after a history that accepted these events.
  function Outcome<E>(accepted: seq<E>, closed: bool, k: nat): Option<Delivery<E>> {
    if k < |accepted| then Some(Value(accepted[k]))
    else if closed then Some(Done)
    else None
  }

  function Range(from: nat, to: nat): (r: seq<nat>)
    ensures |r| == if from <= to then to - from else 0
    ensures forall i :: 0 <= i < |r| ==> r[i] == from + i
  {
    if from < to then seq(to - from, i requires 0 <= i => from + i) else []
  }

  // The state of a queue, given the accepted events, the number of reads and the closed flag.
  ghost predicate QueueIs<E>(q: Queue<E>, accepted: seq<E>, asked: nat, closed: bool) {
    && q.calls == asked && q.closed == closed
    && q.buffered == (if asked < |accepted| then accepted[asked..] else [])
    && q.waiters == (if closed then [] else Range(|accepted|, asked))
    && (forall k: nat :: k in q.settled <==> k < asked && Outcome(accepted, closed, k).Some?)
    && (forall k: nat :: k in q.settled ==> Some(q.settled[k]) == Outcome(accepted, closed, k))
  }

  lemma {:induction false} SettleDoneSpec<E>(settled: map<nat, Delivery<E>>, waiters: seq<nat>)
    ensures forall k :: k in SettleDone(settled, waiters) <==> k in settled || k in waiters
    ensures forall k :: k in SettleDone(settled, waiters) ==>
      SettleDone(settled, waiters)[k] == if k in waiters then Done else settled[k]
    decreases |waiters|
  {
    if waiters != [] {
      SettleDoneSpec(settled[waiters[0] := Done], waiters[1..]);
    }
  }

  lemma PushStep<E>(q: Queue<E>, accepted: seq<E>, asked: nat, closed: bool, e: E)
    requires QueueIs(q, accepted, asked, closed)
    ensures QueueIs(QueueStep(q, Push(e)), if closed then accepted else accepted + [e], asked, closed)
  {
    if !closed && asked > |accepted| {
      assert Range(|accepted|, asked)[1..] == Range(|accepted| + 1, asked);
    }
  }

  lemma CloseStep<E>(q: Queue<E>, accepted: seq<E>, asked: nat, closed: bool)
    requires QueueIs(q, accepted, asked, closed)
    ensures QueueIs(QueueStep(q, Close), accepted, asked, true)
  {
    SettleDoneSpec(q.settled, q.waiters);
    if !closed {
      forall k: nat ensures k in q.waiters <==> |accepted| <= k < asked {
        if |accepted| <= k < asked {
          assert q.waiters[k - |accepted|] == k;
        }
      }
    }
  }

  lemma NextStep<E>(q: Queue<E>, accepted: seq<E>, asked: nat, closed: bool)
    requires QueueIs(q, accepted, asked, closed)
    ensures QueueIs(QueueStep(q, Next), accepted, asked + 1, closed)
  {
    if asked < |accepted| {
      assert accepted[asked..][1..] == accepted[asked + 1..];
    }
  }

  // The k-th read of a queue receives the k-th accepted event; reads beyond the accepted
  // events are done once the queue is closed and wait until then.
  lemma {:induction false} ReadsAreFifo<E>(ops: seq<QueueOp<E>>)
    ensures QueueIs(RunQueue(ops), Accepted(ops), Reads(ops), HasClose(ops))
  {
    if ops != [] {
      var front := ops[..|ops| - 1];
      ReadsAreFifo(front);
      match ops[|ops| - 1]
      case Push(e) => PushStep(RunQueue(front), Accepted(front), Reads(front), HasClose(front), e);
      case Close => CloseStep(RunQueue(front), Accepted(front), Reads(front), HasClose(front));
      case Next => NextStep(RunQueue(front), Accepted(front), Reads(front), HasClose(front));
    }
  }

  // Never both buffered events and waiting readers.
  lemma BufferedOrWaiting<E>(ops: seq<QueueOp<E>>)
    ensures RunQueue(ops).buffered == [] || RunQueue(ops).waiters == []
  {
    ReadsAreFifo(ops);
  }

  // A promise, once resolved, is never resolved again: later operations leave it as it is.
  lemma {:induction false} SettledForGood<E>(ops: seq<QueueOp<E>>, more: seq<QueueOp<E>>, k: nat)
    requires k in RunQueue(ops).settled
    ensures k in RunQueue(ops + more).settled
    ensures RunQueue(ops + more).settled[k] == RunQueue(ops).settled[k]
  {
    ReadsAreFifo(ops);
    ReadsAreFifo(ops + more);
    HistoryGrows(ops, more);
  }

  lemma {:induction false} HistoryGrows<E>(ops: seq<QueueOp<E>>, more: seq<QueueOp<E>>)
    ensures Accepted(ops) <= Accepted(ops + more)
    ensures Reads(ops) <= Reads(ops + more)
    ensures HasClose(ops) ==> HasClose(ops + more) && Accepted(ops + more) == Accepted(ops)
  {
    if more == [] {
      assert ops + more == ops;
    } else {
      assert (ops + more)[..|ops + more| - 1] == ops + more[..|more| - 1];
      HistoryGrows(ops, more[..|more| - 1]);
    }
  }

  // ---------------------------------------------------------------- the bus

  // Subscriptions are identified by their queue, of type S here.
  datatype Bus<C, S, E> = Bus(
    subscribers: map<C, set<S>>,
    queues: map<S, Queue<E>>,
    channelOf: map<S, C>)

  datatype BusOp<C, S, E> =
    | Subscribe(channel: C, sub: S)
    | Publish(channel: C, event: E)
    | Read(sub: S)
    | Unsubscribe(sub: S)

  function PushAll<S(==), E>(queues: map<S, Queue<E>>, subs: set<S>, e: E): map<S, Queue<E>> {
    map s | s in queues :: if s in subs then QueueStep(queues[s], Push(e)) else queues[s]
  }

  function BusStep<C(==), S(==), E>(b: Bus<C, S, E>, op: BusOp<C, S, E>): Bus<C, S, E> {
    match op
    case Subscribe(ch, s) =>
      Bus(b.subscribers[ch := (if ch in b.subscribers then b.subscribers[ch] else {}) + {s}],
          b.queues[s := NewQueue()],
          b.channelOf[s := ch])
    case Publish(ch, e) =>
      if ch in b.subscribers then b.(queues := PushAll(b.queues, b.subscribers[ch], e)) else b
    case Read(s) =>
      if s in b.queues then b.(queues := b.queues[s := QueueStep(b.queues[s], Next)]) else b
    case Unsubscribe(s) =>
      if s !in b.queues || s !in b.channelOf then b
      else b.(queues := b.queues[s := QueueStep(b.queues[s], Close)],
              subscribers := Drop(b.subscribers, b.channelOf[s], s))
  }

  // Take one subscription out of its channel's entry, and the entry out once it is empty.
  function Drop<C(==), S(==)>(subscribers: map<C, set<S>>, ch: C, s: S): map<C, set<S>> {
    if ch !in subscribers then subscribers
    else
      var left := subscribers[ch] - {s};
      if left == {} then subscribers - {ch} else subscribers[ch := left]
  }

  function RunBus<C(==), S(==), E>(log: seq<BusOp<C, S, E>>): Bus<C, S, E> {
    if log == [] then Bus(map[], map[], map[]) else BusStep(RunBus(log[..|log| - 1]), log[|log| - 1])
  }

  // A subscription is a new queue every time.
  ghost predicate FreshSubscriptions<C, S, E>(log: seq<BusOp<C, S, E>>) {
    log != [] ==>
      var front, op := log[..|log| - 1], log[|log| - 1];
      && FreshSubscriptions(front)
      && (op.Subscribe? ==> op.sub !in RunBus(front).queues)
  }

  // The history of one subscription: every event published to its channel from the moment
  // it subscribed, its own reads, and its unsubscribe.
  ghost function History<C, S, E>(log: seq<BusOp<C, S, E>>, s: S): seq<QueueOp<E>> {
    if log == [] then []
    else
      var front, op := log[..|log| - 1], log[|log| - 1];
      Continued(History(front, s), RunBus(front), op, s)
  }

  // A history after one more operation on a bus.
  ghost function Continued<C, S, E>(
    history: seq<QueueOp<E>>, b: Bus<C, S, E>, op: BusOp<C, S, E>, s: S): seq<QueueOp<E>>
  {
    match op
    case Subscribe(_, sub) => if sub == s then [] else history
    case Publish(ch, e) => if s in b.channelOf && b.channelOf[s] == ch then history + [Push(e)] else history
    case Read(sub) => if sub == s && s in b.queues then history + [Next] else history
    case Unsubscribe(sub) => if sub == s && s in b.queues then history + [Close] else history
  }

  // A channel has an entry exactly while it has an open subscription, and the entry is the
  // set of its open subscriptions.
  ghost predicate Registered<C, S, E>(b: Bus<C, S, E>) {
    && b.channelOf.Keys == b.queues.Keys
    && (forall ch :: ch in b.subscribers ==> b.subscribers[ch] != {})
    && (forall ch, s :: ch in b.subscribers && s in b.subscribers[ch] ==>
          s in b.queues && b.channelOf[s] == ch && !b.queues[s].closed)
    && (forall s :: s in b.queues && !b.queues[s].closed ==>
          b.channelOf[s] in b.subscribers && s in b.subscribers[b.channelOf[s]])
  }

  lemma RegisteredUnsubscribe<C, S, E>(b: Bus<C, S, E>, s: S)
    requires Registered(b) && s in b.queues
    ensures Registered(BusStep(b, Unsubscribe(s)))
  {
    var c := BusStep(b, Unsubscribe(s));
    assert c.queues == b.queues[s := QueueStep(b.queues[s], Close)] && c.channelOf == b.channelOf;
    assert c.queues[s].closed;
    var ch := b.channelOf[s];
    if ch in b.subscribers {
      var left := b.subscribers[ch] - {s};
      forall t | t in c.queues && !c.queues[t].closed
        ensures c.channelOf[t] in c.subscribers && t in c.subscribers[c.channelOf[t]]
      {
        assert !b.queues[t].closed && t != s;
        assert c.channelOf[t] == ch ==> t in left;
      }
    }
  }

  lemma RegisteredPublish<C, S, E>(b: Bus<C, S, E>, ch: C, e: E)
    requires Registered(b)
    ensures Registered(BusStep(b, Publish(ch, e)))
  {
    if ch in b.subscribers {
      SameOpenings(b.queues, b.subscribers[ch], e);
    }
  }

  lemma SameOpenings<S, E>(queues: map<S, Queue<E>>, subs: set<S>, e: E)
    ensures PushAll(queues, subs, e).Keys == queues.Keys
    ensures forall s :: s in queues ==> PushAll(queues, subs, e)[s].closed == queues[s].closed
  {
  }

  lemma RegisteredStep<C, S, E>(b: Bus<C, S, E>, op: BusOp<C, S, E>)
    requires Registered(b)
    requires op.Subscribe? ==> op.sub !in b.queues
    ensures Registered(BusStep(b, op))
  {
    match op
    case Subscribe(_, _) =>
    case Publish(ch, e) => RegisteredPublish(b, ch, e);
    case Read(_) =>
    case Unsubscribe(s) =>
      if s in b.queues {
        RegisteredUnsubscribe(b, s);
      }
  }

  // Every run of the bus keeps the registry exact and every queue equal to the queue of its
  // own history; with ReadsAreFifo this is exactly-once, in-order delivery.
  lemma {:induction false} BusRuns<C, S, E>(log: seq<BusOp<C, S, E>>)
    requires FreshSubscriptions(log)
    ensures Registered(RunBus(log))
    ensures forall s :: s in RunBus(log).queues ==> RunBus(log).queues[s] == RunQueue(History(log, s))
  {
    if log != [] {
      var front, op := log[..|log| - 1], log[|log| - 1];
      BusRuns(front);
      RegisteredStep(RunBus(front), op);
      forall s | s in RunBus(log).queues ensures RunBus(log).queues[s] == RunQueue(History(log, s)) {
        HistoryStep(History(front, s), RunBus(front), op, s);
      }
    }
  }

  lemma RunQueueAppend<E>(ops: seq<QueueOp<E>>, op: QueueOp<E>)
    ensures RunQueue(ops + [op]) == QueueStep(RunQueue(ops), op)
  {
    assert (ops + [op])[..|ops|] == ops;
  }

  // Every queue is that of its history.
  ghost predicate IsRun<C, S, E>(history: seq<QueueOp<E>>, b: Bus<C, S, E>, s: S) {
    s in b.queues ==> b.queues[s] == RunQueue(history)
  }

  lemma HistoryStep<C, S, E>(history: seq<QueueOp<E>>, b: Bus<C, S, E>, op: BusOp<C, S, E>, s: S)
    requires Registered(b) && IsRun(history, b, s)
    requires op.Subscribe? ==> op.sub !in b.queues
    ensures IsRun(Continued(history, b, op, s), BusStep(b, op), s)
  {
    match op
    case Subscribe(_, _) =>
    case Publish(ch, e) => HistoryPublish(history, b, ch, e, s);
    case Read(_) => RunQueueAppend(history, Next);
    case Unsubscribe(_) => RunQueueAppend(history, Close);
  }

  lemma HistoryPublish<C, S, E>(history: seq<QueueOp<E>>, b: Bus<C, S, E>, ch: C, e: E, s: S)
    requires Registered(b) && IsRun(history, b, s)
    ensures IsRun(Continued(history, b, BusOp<C, S, E>.Publish(ch, e), s), BusStep(b, Publish(ch, e)), s)
  {
    RunQueueAppend(history, Push(e));
    if s in b.queues && b.channelOf[s] == ch && !(ch in b.subscribers && s in b.subscribers[ch]) {
      assert b.queues[s].closed;
    }
  }

  // Delivery over any interleaving: the k-th read of a subscription yields the k-th event
  // published to its channel while it was subscribed, or done once it has unsubscribed with
  // fewer than k such events, and waits otherwise.
  lemma DeliveryIsExactlyOnceFifo<C, S, E>(log: seq<BusOp<C, S, E>>, s: S, k: nat)
    requires FreshSubscriptions(log) && s in RunBus(log).queues
    requires k < Reads(History(log, s))
    ensures
      var settled := RunBus(log).queues[s].settled;
      (if k in settled then Some(settled[k]) else None) ==
        Outcome(Accepted(History(log, s)), HasClose(History(log, s)), k)
  {
    BusRuns(log);
    ReadsAreFifo(History(log, s));
  }

  // ---------------------------------------------------------------- the classes

  class ChannelQueue<E> {
    var buffered: seq<E>
    var waiters: seq<nat>
    var closed: bool
    var calls: nat
    var settled: map<nat, Delivery<E>>

    ghost function Model(): Queue<E>
      reads this
    {
      Queue(buffered, waiters, closed, calls, settled)
    }

    constructor ()
      ensures Model() == NewQueue()
    {
      buffered, waiters, closed, calls, settled := [], [], false, 0, map[];
    }

    method Push(event: E)
      modifies this
      ensures Model() == QueueStep(old(Model()), QueueOp.Push(event))
    {
      if closed {
        return;
      }
      if |waiters| > 0 {
        var waiter := waiters[0];
        waiters := waiters[1..];
        settled := settled[waiter := Value(event)];
      } else {
        buffered := buffered + [event];
      }
    }

    method Close()
      modifies this
      ensures Model() == QueueStep(old(Model()), QueueOp.Close)
    {
      if closed {
        return;
      }
      closed := true;
      var spliced := waiters;
      waiters := [];
      for i := 0 to |spliced|
        invariant closed && waiters == [] && buffered == old(buffered) && calls == old(calls)
        invariant SettleDone(settled, spliced[i..]) == SettleDone(old(settled), spliced)
      {
        settled := settled[spliced[i] := Done];
        assert spliced[i..][1..] == spliced[i + 1..];
      }
    }

    // Returns the number of the promise handed out.
    method Next() returns (promise: nat)
      modifies this
      ensures promise == old(calls)
      ensures Model() == QueueStep(old(Model()), QueueOp.Next)
    {
      promise := calls;
      calls := calls + 1;
      if |buffered| > 0 {
        var head := buffered[0];
        buffered := buffered[1..];
        settled := settled[promise := Value(head)];
      } else if closed {
        settled := settled[promise := Done];
      } else {
        waiters := waiters + [promise];
      }
    }
  }

  lemma RunBusAppend<C, S, E>(log: seq<BusOp<C, S, E>>, op: BusOp<C, S, E>)
    requires FreshSubscriptions(log)
    requires op.Subscribe? ==> op.sub !in RunBus(log).queues
    ensures RunBus(log + [op]) == BusStep(RunBus(log), op) && FreshSubscriptions(log + [op])
  {
    assert (log + [op])[..|log|] == log;
  }

  lemma SubscribersAreKnown<C, S, E>(log: seq<BusOp<C, S, E>>, ch: C)
    requires FreshSubscriptions(log) && ch in RunBus(log).subscribers
    ensures RunBus(log).subscribers[ch] <= RunBus(log).queues.Keys
  {
    BusRuns(log);
  }

  // The bus after this run.
  ghost predicate IsLog<C, S, E>(b: Bus<C, S, E>, log: seq<BusOp<C, S, E>>) {
    b == RunBus(log) && FreshSubscriptions(log)
  }

  lemma LogGrows<C, S, E>(b: Bus<C, S, E>, log: seq<BusOp<C, S, E>>, op: BusOp<C, S, E>)
    requires IsLog(b, log) && (op.Subscribe? ==> op.sub !in b.queues)
    ensures IsLog(BusStep(b, op), log + [op])
  {
    RunBusAppend(log, op);
  }

  // The registry object. `log` is its run so far, so BusRuns and DeliveryIsExactlyOnceFifo
  // hold of it at every moment.
  class Registry<C(==), E> {
    var subscribers: map<C, set<ChannelQueue<E>>>
    // Every queue ever handed out, with its state, and with the channel its subscription
    // closure captured.
    ghost var queues: map<ChannelQueue<E>, Queue<E>>
    ghost var channelOf: map<ChannelQueue<E>, C>
    ghost var log: seq<BusOp<C, ChannelQueue<E>, E>>

    ghost function Model(): Bus<C, ChannelQueue<E>, E>
      reads this
    {
      Bus(subscribers, queues, channelOf)
    }

    ghost predicate Valid()
      reads this, channelOf.Keys
    {
      Mirrors() && IsLog(Model(), log)
    }

    // The states kept are those of the queue objects.
    ghost predicate Mirrors()
      reads this`queues, this`channelOf, channelOf.Keys
    {
      queues.Keys == channelOf.Keys && forall q :: q in channelOf.Keys ==> queues[q] == q.Model()
    }

    constructor ()
      ensures Valid() && log == []
    {
      subscribers := map[];
      queues := map[];
      channelOf := map[];
      log := [];
    }

    method Subscribe(channelId: C) returns (queue: ChannelQueue<E>)
      requires Valid()
      modifies this
      ensures Valid() && fresh(queue)
      ensures log == old(log) + [BusOp.Subscribe(channelId, queue)]
      ensures Model() == BusStep(old(Model()), BusOp.Subscribe(channelId, queue))
    {
      queue := AddQueue(channelId);
      assert Model() == BusStep(old(Model()), BusOp.Subscribe(channelId, queue));
      LogGrows(old(Model()), log, BusOp.Subscribe(channelId, queue));
      log := log + [BusOp.Subscribe(channelId, queue)];
    }

    // A new queue in the entry of its channel.
    method AddQueue(channelId: C) returns (queue: ChannelQueue<E>)
      requires Mirrors()
      modifies this`subscribers, this`queues, this`channelOf
      ensures Mirrors() && fresh(queue) && queue !in old(queues)
      ensures Model() == BusStep(old(Model()), BusOp.Subscribe(channelId, queue))
    {
      queue := new ChannelQueue<E>();
      var open := if channelId in subscribers then subscribers[channelId] else {};
      subscribers := subscribers[channelId := open + {queue}];
      queues := queues[queue := NewQueue()];
      channelOf := channelOf[queue := channelId];
    }

    // One push per queue of the set, in any order.
    static method PushTo(queues: set<ChannelQueue<E>>, event: E)
      modifies queues
      ensures forall q :: q in queues ==> q.Model() == QueueStep(old(q.Model()), QueueOp.Push(event))
    {
      var pending := queues;
      while pending != {}
        invariant pending <= queues
        invariant forall q :: q in queues ==>
          q.Model() == if q in pending then old(q.Model()) else QueueStep(old(q.Model()), QueueOp.Push(event))
        decreases |pending|
      {
        var queue :| queue in pending;
        queue.Push(event);
        pending := pending - {queue};
      }
    }

    method Publish(channelId: C, event: E)
      requires Valid()
      modifies this`log, this`queues, channelOf.Keys
      ensures Valid()
      ensures log == old(log) + [BusOp.Publish(channelId, event)]
      ensures Model() == BusStep(old(Model()), BusOp.Publish(channelId, event))
    {
      if channelId in subscribers {
        SubscribersAreKnown(log, channelId);
        Deliver(subscribers[channelId], event);
      }
      assert Model() == BusStep(old(Model()), BusOp.Publish(channelId, event));
      LogGrows(old(Model()), log, BusOp.Publish(channelId, event));
      log := log + [BusOp.Publish(channelId, event)];
    }

    method Deliver(open: set<ChannelQueue<E>>, event: E)
      requires Mirrors() && open <= channelOf.Keys
      modifies this`queues, channelOf.Keys
      ensures Mirrors() && queues == PushAll(old(queues), open, event)
    {
      PushTo(open, event);
      queues := PushAll(queues, open, event);
    }

    method Read(queue: ChannelQueue<E>) returns (promise: nat)
      requires Valid() && queue in channelOf
      modifies this`log, this`queues, queue
      ensures Valid() && promise == old(queue.calls)
      ensures log == old(log) + [BusOp.Read(queue)]
      ensures Model() == BusStep(old(Model()), BusOp.Read(queue))
    {
      promise := NextOn(queue);
      assert Model() == BusStep(old(Model()), BusOp.Read(queue));
      LogGrows(old(Model()), log, BusOp.Read(queue));
      log := log + [BusOp.Read(queue)];
    }

    method NextOn(queue: ChannelQueue<E>) returns (promise: nat)
      requires Mirrors() && queue in channelOf
      modifies this`queues, queue
      ensures Mirrors() && promise == old(queue.calls)
      ensures queues == old(queues)[queue := QueueStep(old(queues)[queue], QueueOp.Next)]
    {
      promise := queue.Next();
      queues := queues[queue := queue.Model()];
    }

    method CloseOn(queue: ChannelQueue<E>)
      requires Mirrors() && queue in channelOf
      modifies this`queues, queue
      ensures Mirrors()
      ensures queues == old(queues)[queue := QueueStep(old(queues)[queue], QueueOp.Close)]
    {
      queue.Close();
      queues := queues[queue := queue.Model()];
    }

    // The unsubscribe closure of a subscription to `channelId`.
    method Unsubscribe(channelId: C, queue: ChannelQueue<E>)
      requires Valid() && queue in channelOf && channelOf[queue] == channelId
      modifies this`subscribers, this`log, this`queues, queue
      ensures Valid()
      ensures log == old(log) + [BusOp.Unsubscribe(queue)]
      ensures Model() == BusStep(old(Model()), BusOp.Unsubscribe(queue))
    {
      Leave(channelId, queue);
      assert Model() == BusStep(old(Model()), BusOp.Unsubscribe(queue));
      LogGrows(old(Model()), log, BusOp.Unsubscribe(queue));
      log := log + [BusOp.Unsubscribe(queue)];
    }

    // The queue is closed and taken out of the entry of its channel.
    method Leave(channelId: C, queue: ChannelQueue<E>)
      requires Mirrors() && queue in channelOf && channelOf[queue] == channelId
      modifies this`subscribers, this`queues, queue
      ensures Mirrors() && Model() == BusStep(old(Model()), BusOp.Unsubscribe(queue))
    {
      CloseOn(queue);
      DropSubscriber(channelId, queue);
    }

    method DropSubscriber(channelId: C, queue: ChannelQueue<E>)
      modifies this`subscribers
      ensures subscribers == Drop(old(subscribers), channelId, queue)
    {
      if channelId !in subscribers {
        return;
      }
      var current := subscribers[channelId] - {queue};
      if current == {} {
        subscribers := subscribers - {channelId};
      } else {
        subscribers := subscribers[channelId := current];
      }
    }
  }
}
