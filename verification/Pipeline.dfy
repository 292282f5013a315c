/** NTHU-OS-Pthreads: the reader, the producers, a changing number of consumers and the writer, joined by
    three bounded queues, with the controller that starts and cancels consumers. */
module Pipelines {
  import opened Collections
  import TsQueues

  const READER_QUEUE_SIZE := 200
  const WORKER_QUEUE_SIZE := 200
  const WRITER_QUEUE_SIZE := 4000
  const PRODUCERS := 4
  const LOW := 40
  const HIGH := 160

  datatype Item = Item(key: int, val: int, opcode: char)

  /** The two halves of the work on an item: its value changes, its key and opcode do not. */
  datatype Transformer = Transformer(producer: (char, int) -> int, consumer: (char, int) -> int) {
    function Produce(x: Item): Item {
      Item(x.key, producer(x.opcode, x.val), x.opcode)
    }

    function Consume(x: Item): Item {
      Item(x.key, consumer(x.opcode, x.val), x.opcode)
    }
  }

  /** Where a consumer is in its loop: at the test of `is_cancel`, in `dequeue`, in `enqueue`, or past the
      loop. Cancellation is disabled in between, so the flag is all that stops it. */
  datatype Place = Testing | Taking | Putting | Gone

  datatype Consumer = Consumer(cancelled: bool, at: Place)

  datatype State = State(
    source: seq<Item>, read: nat,
    readerHand: Option<Item>, inputQueue: seq<Item>,
    producerHands: seq<Option<Item>>, workerQueue: seq<Item>,
    consumers: seq<Consumer>, consumerHands: seq<Option<Item>>,
    // the controller's vector of consumers, and the queue size it has looked at last
    list: seq<nat>, seen: Option<nat>,
    writerQueue: seq<Item>, writerHand: Option<Item>, written: seq<Item>)

  datatype Action =
    | ReaderReads | ReaderPuts
    | ProducerTakes(i: nat) | ProducerPuts(i: nat)
    | ConsumerTests(i: nat) | ConsumerTakes(i: nat) | ConsumerPuts(i: nat)
    | ControllerLooks | ControllerActs
    | WriterTakes | WriterWrites

  /** Can `a` happen? A thread in `enqueue` waits while its queue is full, one in `dequeue` while it is
      empty. */
  predicate Enabled(s: State, a: Action) {
    match a
    case ReaderReads => s.readerHand.None? && s.read < |s.source|
    case ReaderPuts => s.readerHand.Some? && |s.inputQueue| < READER_QUEUE_SIZE
    case ProducerTakes(i) => i < |s.producerHands| && s.producerHands[i].None? && s.inputQueue != []
    case ProducerPuts(i) => i < |s.producerHands| && s.producerHands[i].Some? && |s.workerQueue| < WORKER_QUEUE_SIZE
    case ConsumerTests(i) => i < |s.consumers| && s.consumers[i].at.Testing?
    case ConsumerTakes(i) => i < |s.consumers| == |s.consumerHands| && s.consumers[i].at.Taking? && s.workerQueue != []
    case ConsumerPuts(i) =>
      i < |s.consumers| == |s.consumerHands| && s.consumers[i].at.Putting? && s.consumerHands[i].Some?
      && |s.writerQueue| < WRITER_QUEUE_SIZE
    case ControllerLooks => s.seen.None?
    case ControllerActs => s.seen.Some?
    case WriterTakes => |s.written| < |s.source| && s.writerHand.None? && s.writerQueue != []
    case WriterWrites => s.writerHand.Some?
  }

  /** The controller, once it has looked: one more consumer, or one fewer but for the last, or neither. */
  function Scaled(s: State, size: nat): State {
    if size > HIGH then
      s.(consumers := s.consumers + [Consumer(false, Testing)], consumerHands := s.consumerHands + [None],
         list := s.list + [|s.consumers|], seen := None)
    else if size < LOW && |s.list| > 1 then
      var last := s.list[|s.list| - 1];
      s.(consumers := if last < |s.consumers| then s.consumers[last := s.consumers[last].(cancelled := true)]
                      else s.consumers,
         list := s.list[..|s.list| - 1], seen := None)
    else s.(seen := None)
  }

  function Next(tr: Transformer, s: State, a: Action): State
    requires Enabled(s, a)
  {
    match a
    case ReaderReads => s.(readerHand := Some(s.source[s.read]), read := s.read + 1)
    case ReaderPuts => s.(readerHand := None, inputQueue := s.inputQueue + [s.readerHand.value])
    case ProducerTakes(i) =>
      s.(producerHands := s.producerHands[i := Some(s.inputQueue[0])], inputQueue := s.inputQueue[1..])
    case ProducerPuts(i) =>
      s.(producerHands := s.producerHands[i := None],
         workerQueue := s.workerQueue + [tr.Produce(s.producerHands[i].value)])
    case ConsumerTests(i) =>
      s.(consumers := s.consumers[i := s.consumers[i].(at := if s.consumers[i].cancelled then Gone else Taking)])
    case ConsumerTakes(i) =>
      s.(consumers := s.consumers[i := s.consumers[i].(at := Putting)],
         consumerHands := s.consumerHands[i := Some(s.workerQueue[0])], workerQueue := s.workerQueue[1..])
    case ConsumerPuts(i) =>
      s.(consumers := s.consumers[i := s.consumers[i].(at := Testing)],
         consumerHands := s.consumerHands[i := None],
         writerQueue := s.writerQueue + [tr.Consume(s.consumerHands[i].value)])
    case ControllerLooks => s.(seen := Some(|s.workerQueue|))
    case ControllerActs => Scaled(s, s.seen.value)
    case WriterTakes => s.(writerHand := Some(s.writerQueue[0]), writerQueue := s.writerQueue[1..])
    case WriterWrites => s.(writerHand := None, written := s.written + [s.writerHand.value])
  }

  ghost predicate Init(s: State) {
    && s.read == 0 && s.readerHand.None? && s.inputQueue == [] && s.workerQueue == []
    && |s.producerHands| == PRODUCERS && (forall i :: 0 <= i < PRODUCERS ==> s.producerHands[i].None?)
    && s.consumers == [] && s.consumerHands == [] && s.list == [] && s.seen.None?
    && s.writerQueue == [] && s.writerHand.None? && s.written == []
  }

  // ---------- counting ----------

  /** How many of `items` satisfy `p`. */
  ghost function Count(items: seq<Item>, p: Item -> bool): nat {
    if items == [] then 0 else Count(items[..|items| - 1], p) + (if p(items[|items| - 1]) then 1 else 0)
  }

  lemma CountAppend(items: seq<Item>, x: Item, p: Item -> bool)
    ensures Count(items + [x], p) == Count(items, p) + (if p(x) then 1 else 0)
  {
    assert (items + [x])[..|items|] == items;
  }

  lemma {:induction false} CountFront(items: seq<Item>, p: Item -> bool)
    requires items != []
    ensures Count(items, p) == (if p(items[0]) then 1 else 0) + Count(items[1..], p)
  {
    var n := |items| - 1;
    if n > 0 {
      CountFront(items[..n], p);
      assert items[..n][1..] == items[1..][..n - 1];
    } else {
      assert items[..0] == [];
    }
  }

  ghost function Held(hand: Option<Item>, p: Item -> bool): nat {
    if hand.Some? && p(hand.value) then 1 else 0
  }

  ghost function HeldBy(hands: seq<Option<Item>>, p: Item -> bool): nat {
    if hands == [] then 0 else HeldBy(hands[..|hands| - 1], p) + Held(hands[|hands| - 1], p)
  }

  lemma {:induction false} HeldByUpdate(hands: seq<Option<Item>>, i: nat, h: Option<Item>, p: Item -> bool)
    requires i < |hands|
    ensures HeldBy(hands[i := h], p) == HeldBy(hands, p) - Held(hands[i], p) + Held(h, p)
  {
    var n := |hands| - 1;
    if i == n {
      assert hands[i := h][..n] == hands[..n];
    } else {
      assert hands[i := h][..n] == hands[..n][i := h];
      HeldByUpdate(hands[..n], i, h, p);
    }
  }

  lemma {:induction false} HeldByNone(hands: seq<Option<Item>>, p: Item -> bool)
    requires forall i :: 0 <= i < |hands| ==> hands[i].None?
    ensures HeldBy(hands, p) == 0
  {
    if hands != [] { HeldByNone(hands[..|hands| - 1], p); }
  }

  /** The item satisfies `p` after what the consumers do to it, or after what both do. */
  function Mid(tr: Transformer, p: Item -> bool): Item -> bool {
    x => p(tr.Consume(x))
  }

  function Raw(tr: Transformer, p: Item -> bool): Item -> bool {
    x => p(tr.Consume(tr.Produce(x)))
  }

  ghost function Early(s: State, raw: Item -> bool): nat {
    Held(s.readerHand, raw) + Count(s.inputQueue, raw) + HeldBy(s.producerHands, raw)
  }

  ghost function Middle(s: State, mid: Item -> bool): nat {
    Count(s.workerQueue, mid) + HeldBy(s.consumerHands, mid)
  }

  ghost function Late(s: State, p: Item -> bool): nat {
    Count(s.writerQueue, p) + Held(s.writerHand, p) + Count(s.written, p)
  }

  /** How many items in the pipeline will satisfy `p` once they are written: those before the producers
      have two transformations ahead of them, those before the consumers one. */
  ghost function Flow(tr: Transformer, s: State, p: Item -> bool): nat {
    Early(s, Raw(tr, p)) + Middle(s, Mid(tr, p)) + Late(s, p)
  }

  /** What has been read is in the pipeline, each item once and with the right transformations done. */
  ghost predicate Conserved(tr: Transformer, s: State, p: Item -> bool) {
    s.read <= |s.source| && Flow(tr, s, p) == Count(s.source[..s.read], Raw(tr, p))
  }

  lemma ReaderConserves(tr: Transformer, s: State, a: Action, p: Item -> bool)
    requires Enabled(s, a) && Conserved(tr, s, p) && (a.ReaderReads? || a.ReaderPuts?)
    ensures Conserved(tr, Next(tr, s, a), p)
  {
    if a.ReaderReads? {
      assert s.source[..s.read + 1] == s.source[..s.read] + [s.source[s.read]];
      CountAppend(s.source[..s.read], s.source[s.read], Raw(tr, p));
    } else {
      CountAppend(s.inputQueue, s.readerHand.value, Raw(tr, p));
    }
  }

  lemma ProducerConserves(tr: Transformer, s: State, a: Action, p: Item -> bool)
    requires Enabled(s, a) && Conserved(tr, s, p) && (a.ProducerTakes? || a.ProducerPuts?)
    ensures Conserved(tr, Next(tr, s, a), p)
  {
    if a.ProducerTakes? {
      CountFront(s.inputQueue, Raw(tr, p));
      HeldByUpdate(s.producerHands, a.i, Some(s.inputQueue[0]), Raw(tr, p));
    } else {
      CountAppend(s.workerQueue, tr.Produce(s.producerHands[a.i].value), Mid(tr, p));
      HeldByUpdate(s.producerHands, a.i, None, Raw(tr, p));
    }
  }

  lemma ConsumerConserves(tr: Transformer, s: State, a: Action, p: Item -> bool)
    requires Enabled(s, a) && Conserved(tr, s, p) && (a.ConsumerTests? || a.ConsumerTakes? || a.ConsumerPuts?)
    requires a.ConsumerTakes? ==> s.consumerHands[a.i].None?
    ensures Conserved(tr, Next(tr, s, a), p)
  {
    if a.ConsumerTakes? {
      CountFront(s.workerQueue, Mid(tr, p));
      HeldByUpdate(s.consumerHands, a.i, Some(s.workerQueue[0]), Mid(tr, p));
    } else if a.ConsumerPuts? {
      CountAppend(s.writerQueue, tr.Consume(s.consumerHands[a.i].value), p);
      HeldByUpdate(s.consumerHands, a.i, None, Mid(tr, p));
    }
  }

  lemma ControllerConserves(tr: Transformer, s: State, a: Action, p: Item -> bool)
    requires Enabled(s, a) && Conserved(tr, s, p) && (a.ControllerLooks? || a.ControllerActs?)
    ensures Conserved(tr, Next(tr, s, a), p)
  {
    if a.ControllerActs? {
      ScaledSame(s, s.seen.value, Mid(tr, p));
    }
  }

  /** The controller moves no item. */
  lemma ScaledSame(s: State, size: nat, p: Item -> bool)
    ensures HeldBy(Scaled(s, size).consumerHands, p) == HeldBy(s.consumerHands, p)
    ensures var t := Scaled(s, size);
            t == s.(consumers := t.consumers, consumerHands := t.consumerHands, list := t.list, seen := None)
  {
    NewHand(s.consumerHands, p);
  }

  lemma NewHand(hands: seq<Option<Item>>, p: Item -> bool)
    ensures HeldBy(hands + [None], p) == HeldBy(hands, p)
  {
    assert (hands + [None])[..|hands|] == hands;
  }

  lemma WriterConserves(tr: Transformer, s: State, a: Action, p: Item -> bool)
    requires Enabled(s, a) && Conserved(tr, s, p) && (a.WriterTakes? || a.WriterWrites?)
    ensures Conserved(tr, Next(tr, s, a), p)
  {
    if a.WriterTakes? {
      CountFront(s.writerQueue, p);
    } else {
      CountAppend(s.written, s.writerHand.value, p);
    }
  }

  lemma NextConserves(tr: Transformer, s: State, a: Action, p: Item -> bool)
    requires Shape(s) && Enabled(s, a) && Conserved(tr, s, p)
    ensures Conserved(tr, Next(tr, s, a), p)
  {
    match a
    case ReaderReads | ReaderPuts => ReaderConserves(tr, s, a, p);
    case ProducerTakes(_) | ProducerPuts(_) => ProducerConserves(tr, s, a, p);
    case ConsumerTests(_) | ConsumerTakes(_) | ConsumerPuts(_) => ConsumerConserves(tr, s, a, p);
    case ControllerLooks | ControllerActs => ControllerConserves(tr, s, a, p);
    case WriterTakes | WriterWrites => WriterConserves(tr, s, a, p);
  }

  // ---------- what else holds in every run ----------

  /** The queues keep to their bounds, a consumer holds an item exactly between its two queues, only a
      cancelled one leaves its loop, and a consumer is on the controller's list or cancelled, never both. */
  ghost predicate Shape(s: State) {
    && |s.inputQueue| <= READER_QUEUE_SIZE && |s.workerQueue| <= WORKER_QUEUE_SIZE
    && |s.writerQueue| <= WRITER_QUEUE_SIZE
    && |s.producerHands| == PRODUCERS && |s.consumers| == |s.consumerHands|
    && (forall i :: 0 <= i < |s.consumers| ==> (s.consumers[i].at.Putting? <==> s.consumerHands[i].Some?))
    && (forall i :: 0 <= i < |s.consumers| && s.consumers[i].at.Gone? ==> s.consumers[i].cancelled)
    && Listed(s.list, s.consumers)
    && (s.list == [] ==> s.consumers == [])
    && (s.consumers == [] ==> s.writerQueue == [] && s.writerHand.None? && s.written == [])
    && s.read <= |s.source| && |s.written| + (if s.writerHand.Some? then 1 else 0) <= |s.source|
  }

  ghost predicate Listed(list: seq<nat>, consumers: seq<Consumer>) {
    && (forall j :: 0 <= j < |list| ==> list[j] < |consumers|)
    && (forall i: nat :: i < |consumers| ==> (i in list <==> !consumers[i].cancelled))
    && (forall j, k :: 0 <= j < k < |list| ==> list[j] < list[k])
  }

  /** The action of a thread other than the controller keeps the list and the flags. */
  lemma MoveKeepsShape(tr: Transformer, s: State, a: Action)
    requires Shape(s) && Enabled(s, a) && !a.ControllerActs?
    ensures Shape(Next(tr, s, a)) && Next(tr, s, a).list == s.list
  {
    MoveKeepsFlags(tr, s, a);
  }

  lemma MoveKeepsFlags(tr: Transformer, s: State, a: Action)
    requires Enabled(s, a) && !a.ControllerActs?
    ensures |Next(tr, s, a).consumers| == |s.consumers| && Next(tr, s, a).list == s.list
    ensures forall i :: 0 <= i < |s.consumers| ==> Next(tr, s, a).consumers[i].cancelled == s.consumers[i].cancelled
    ensures Listed(s.list, s.consumers) ==> Listed(s.list, Next(tr, s, a).consumers)
  {
  }

  lemma NextKeepsShape(tr: Transformer, s: State, a: Action)
    requires Shape(s) && Enabled(s, a)
    ensures Shape(Next(tr, s, a))
    // once there is a consumer, there is one for ever
    ensures s.list != [] ==> Next(tr, s, a).list != []
  {
    if a.ControllerActs? {
      ScaledListed(s, s.seen.value);
    } else {
      MoveKeepsShape(tr, s, a);
    }
  }

  lemma ScaledListed(s: State, size: nat)
    requires Shape(s)
    ensures Listed(Scaled(s, size).list, Scaled(s, size).consumers)
  {
    if size <= HIGH && size < LOW && |s.list| > 1 {
      LastOff(s.list);
    }
  }

  /** The last entry of the list is in it only once. */
  lemma LastOff(list: seq<nat>)
    requires list != [] && forall j, k :: 0 <= j < k < |list| ==> list[j] < list[k]
    ensures var n := |list| - 1;
            list[n] !in list[..n] && forall i :: i in list <==> i in list[..n] || i == list[n]
  {
    assert list == list[..|list| - 1] + [list[|list| - 1]];
  }

  /** What the controller does after it has seen `size` items in the worker queue: above 160 it starts a
      consumer and lists it last; below 40 it cancels the one listed last, unless it is the only one, and
      takes it off the list; otherwise it does nothing. It moves no item. */
  lemma ControllerDoes(tr: Transformer, s: State, size: nat)
    requires Shape(s) && s.seen == Some(size)
    ensures var s' := Next(tr, s, ControllerActs);
            && s' == s.(consumers := s'.consumers, consumerHands := s'.consumerHands, list := s'.list, seen := None)
            && (size > 160 ==>
                  && s'.list == s.list + [|s.consumers|] && s'.consumers == s.consumers + [Consumer(false, Testing)]
                  && s'.consumerHands == s.consumerHands + [None])
            && (size <= 160 ==> |s'.consumers| == |s.consumers| && s'.consumerHands == s.consumerHands)
            && (size < 40 && |s.list| > 1 ==>
                  && s.list == s'.list + [s.list[|s.list| - 1]]
                  && forall i :: 0 <= i < |s.consumers| ==>
                       && s'.consumers[i].at == s.consumers[i].at
                       && (s'.consumers[i].cancelled <==> s.consumers[i].cancelled || i == s.list[|s.list| - 1]))
            && (40 <= size <= 160 || (size < 40 && |s.list| <= 1) ==>
                  s'.list == s.list && s'.consumers == s.consumers)
  {
  }

  /** A cancelled consumer stays cancelled; it leaves its loop with its next test, and from the end of its
      round on it takes no item. */
  lemma CancelledStops(tr: Transformer, s: State, a: Action, i: nat)
    requires Shape(s) && Enabled(s, a) && i < |s.consumers| && s.consumers[i].cancelled
    ensures var s' := Next(tr, s, a);
            && i < |s'.consumers| == |s'.consumerHands| && s'.consumers[i].cancelled
            && (a == ConsumerTests(i) ==> s'.consumers[i].at.Gone?)
            && (a == ConsumerTakes(i) ==> s.consumers[i].at.Taking?)
            && (s'.consumers[i].at.Taking? ==> s.consumers[i].at.Taking? && a != ConsumerTakes(i))
            && (s.consumers[i].at.Testing? || s.consumers[i].at.Gone? ==>
                  (s'.consumers[i].at.Testing? || s'.consumers[i].at.Gone?) && s'.consumerHands[i].None?)
            && (s.consumers[i].at.Gone? ==> s'.consumers[i].at.Gone?)
  {
    if a.ControllerActs? {
      ControllerDoes(tr, s, s.seen.value);
    }
  }

  // ---------- the queues between the threads ----------

  /** `later` is `earlier` with its first element gone, or one more at its end, or the same. */
  predicate FifoStep(earlier: seq<Item>, later: seq<Item>) {
    later == earlier || (earlier != [] && later == earlier[1..]) || (later != [] && later[..|later| - 1] == earlier)
  }

  /** Each of the three queues, and the output, is a FIFO. */
  lemma QueuesInOrder(tr: Transformer, s: State, a: Action)
    requires Enabled(s, a)
    ensures var s' := Next(tr, s, a);
            && FifoStep(s.inputQueue, s'.inputQueue) && FifoStep(s.workerQueue, s'.workerQueue)
            && FifoStep(s.writerQueue, s'.writerQueue) && s.written <= s'.written
  {
  }

  /** A queue as `TsQueues` has it, with its mutex free and no thread in it. */
  ghost function QueueOf(items: seq<Item>, capacity: nat): TsQueues.Monitor<Item> {
    TsQueues.Monitor(capacity, items, map[], items, [])
  }

  /** A thread that calls `enqueue` gets `x` in without waiting. */
  ghost predicate PutPasses(items: seq<Item>, capacity: nat, x: Item) {
    exists signalled, m' ::
      TsQueues.Next(QueueOf(items, capacity), TsQueues.Enqueue(0, x, signalled), m') && m'.queue == items + [x]
  }

  /** A thread that calls `dequeue` gets `x` without waiting. */
  ghost predicate TakePasses(items: seq<Item>, capacity: nat, x: Item) {
    exists signalled, m' ::
      TsQueues.Next(QueueOf(items, capacity), TsQueues.Dequeue(0, signalled), m') && m'.taken == [x]
  }

  ghost predicate CanPut(items: seq<Item>, capacity: nat) {
    forall x :: PutPasses(items, capacity, x)
  }

  ghost predicate CanTake(items: seq<Item>, capacity: nat) {
    exists x :: TakePasses(items, capacity, x)
  }

  lemma PassesIff(items: seq<Item>, capacity: nat, x: Item)
    requires |items| <= capacity
    ensures PutPasses(items, capacity, x) <==> |items| < capacity
    ensures TakePasses(items, capacity, x) <==> items != [] && items[0] == x
  {
    var m := QueueOf(items, capacity);
    assert TsQueues.Inv(m);
    var signalled, m' := TsQueues.CanEnqueue(m, 0, x);
    var signalled', m'' := TsQueues.CanDequeue(m, 0);
  }

  lemma CanIff(items: seq<Item>, capacity: nat)
    requires |items| <= capacity
    ensures CanPut(items, capacity) <==> |items| < capacity
    ensures CanTake(items, capacity) <==> items != []
  {
    forall x
      ensures PutPasses(items, capacity, x) <==> |items| < capacity
      ensures TakePasses(items, capacity, x) <==> items != [] && items[0] == x
    {
      PassesIff(items, capacity, x);
    }
    assert PutPasses(items, capacity, Item(0, 0, 'a')) <==> |items| < capacity;
    if items != [] { assert TakePasses(items, capacity, items[0]); }
  }

  /** The threads of the pipeline wait exactly where the queue between them makes them wait. */
  lemma WaitsForTheQueues(s: State, i: nat)
    requires Shape(s)
    ensures Enabled(s, ReaderPuts) <==> s.readerHand.Some? && CanPut(s.inputQueue, 200)
    ensures i < 4 ==>
      (Enabled(s, ProducerTakes(i)) <==>
         s.producerHands[i].None? && CanTake(s.inputQueue, 200))
    ensures i < 4 ==>
      (Enabled(s, ProducerPuts(i)) <==>
         s.producerHands[i].Some? && CanPut(s.workerQueue, 200))
    ensures i < |s.consumers| ==>
      (Enabled(s, ConsumerTakes(i)) <==>
         s.consumers[i].at.Taking? && CanTake(s.workerQueue, 200))
    ensures i < |s.consumers| ==>
      (Enabled(s, ConsumerPuts(i)) <==>
         s.consumers[i].at.Putting? && CanPut(s.writerQueue, 4000))
    ensures Enabled(s, WriterTakes) <==>
      |s.written| < |s.source| && s.writerHand.None? && CanTake(s.writerQueue, 4000)
  {
    CanIff(s.inputQueue, 200);
    CanIff(s.workerQueue, 200);
    CanIff(s.writerQueue, 4000);
  }

  /** And they wait nowhere else: with its hands free the reader reads on while there are lines, a consumer
      between rounds tests its flag, the writer writes what it holds, and the controller looks and acts. */
  lemma WaitsForNothingElse(s: State, i: nat)
    ensures s.readerHand.None? && s.read < |s.source| ==> Enabled(s, ReaderReads)
    ensures i < |s.consumers| && s.consumers[i].at.Testing? ==> Enabled(s, ConsumerTests(i))
    ensures s.writerHand.Some? ==> Enabled(s, WriterWrites)
    ensures Enabled(s, ControllerLooks) || Enabled(s, ControllerActs)
  {
  }

  /** Below the high threshold nothing ever starts a consumer. */
  ghost predicate Idle(s: State) {
    s.consumers == [] && s.consumerHands == [] && s.list == [] && (s.seen.Some? ==> s.seen.value <= HIGH)
  }

  function Any(): Item -> bool {
    x => true
  }

  lemma {:induction false} CountAll(items: seq<Item>, p: Item -> bool)
    requires forall x :: p(x)
    ensures Count(items, p) == |items|
  {
    if items != [] { CountAll(items[..|items| - 1], p); }
  }

  /** The lengths of all parts of the pipeline add up to what has been read. */
  lemma Lengths(tr: Transformer, s: State)
    requires Conserved(tr, s, Any())
    ensures Held(s.readerHand, Raw(tr, Any())) + |s.inputQueue| + HeldBy(s.producerHands, Raw(tr, Any()))
          + |s.workerQueue| + HeldBy(s.consumerHands, Mid(tr, Any()))
          + |s.writerQueue| + Held(s.writerHand, Any()) + |s.written| == s.read
  {
    CountAll(s.inputQueue, Raw(tr, Any()));
    CountAll(s.workerQueue, Mid(tr, Any()));
    CountAll(s.writerQueue, Any());
    CountAll(s.written, Any());
    CountAll(s.source[..s.read], Raw(tr, Any()));
  }

  lemma NextKeepsIdle(tr: Transformer, s: State, a: Action)
    requires Conserved(tr, s, Any()) && |s.source| <= HIGH && Idle(s) && Enabled(s, a)
    ensures Idle(Next(tr, s, a))
  {
    Lengths(tr, s);
  }

  /** The states that a run can be in. */
  ghost predicate Good(tr: Transformer, s: State) {
    && Shape(s)
    && (forall p: Item -> bool {:trigger Conserved(tr, s, p)} :: Conserved(tr, s, p))
    && (|s.source| <= HIGH ==> Idle(s))
  }

  ghost predicate Run(tr: Transformer, states: seq<State>, actions: seq<Action>) {
    && |states| == |actions| + 1 && Init(states[0])
    && forall i :: 0 <= i < |actions| ==>
         Enabled(states[i], actions[i]) && states[i + 1] == Next(tr, states[i], actions[i])
  }

  lemma InitGood(tr: Transformer, s: State)
    requires Init(s)
    ensures Good(tr, s)
  {
    forall p: Item -> bool ensures Conserved(tr, s, p) {
      HeldByNone(s.producerHands, Raw(tr, p));
      assert s.source[..0] == [];
    }
  }

  lemma NextGood(tr: Transformer, s: State, a: Action)
    requires Good(tr, s) && Enabled(s, a)
    ensures Good(tr, Next(tr, s, a))
  {
    NextKeepsShape(tr, s, a);
    forall p: Item -> bool ensures Conserved(tr, Next(tr, s, a), p) {
      NextConserves(tr, s, a, p);
    }
    if |s.source| <= HIGH {
      assert Conserved(tr, s, Any());
      NextKeepsIdle(tr, s, a);
    }
  }

  /** In every interleaving of all threads, with consumers coming and going, nothing that has been read is
      lost, doubled, mixed up or transformed too often or too rarely. */
  lemma {:induction false} EveryRun(tr: Transformer, states: seq<State>, actions: seq<Action>, n: nat)
    requires Run(tr, states, actions) && n < |states|
    ensures Good(tr, states[n])
    ensures n > 0 && states[n - 1].list != [] ==> states[n].list != []
  {
    if n == 0 {
      InitGood(tr, states[0]);
    } else {
      EveryRun(tr, states, actions, n - 1);
      NextGood(tr, states[n - 1], actions[n - 1]);
      NextKeepsShape(tr, states[n - 1], actions[n - 1]);
    }
  }

  // ---------- progress ----------

  /** The actions of the threads that move items. */
  predicate Moves(a: Action) {
    !a.ControllerLooks? && !a.ControllerActs?
  }

  /** While there are consumers and not everything is written, some thread can go on. */
  lemma Progress(tr: Transformer, s: State) returns (a: Action)
    requires Good(tr, s) && s.list != [] && |s.written| < |s.source|
    ensures Enabled(s, a) && Moves(a)
  {
    var c := s.list[0];
    if s.writerHand.Some? {
      a := WriterWrites;
    } else if s.writerQueue != [] {
      a := WriterTakes;
    } else if i :| 0 <= i < |s.consumers| && s.consumers[i].at.Putting? {
      a := ConsumerPuts(i);
    } else if s.consumers[c].at.Testing? {
      a := ConsumerTests(c);
    } else if s.workerQueue != [] {
      a := ConsumerTakes(c);
    } else {
      a := Upstream(tr, s);
    }
  }

  /** With nothing behind the producers but what they can add to, the reader or a producer can go on,
      unless everything is in the worker queue already. */
  lemma Upstream(tr: Transformer, s: State) returns (a: Action)
    requires Good(tr, s) && |s.workerQueue| < WORKER_QUEUE_SIZE
    requires s.writerQueue == [] && s.writerHand.None?
    requires forall i :: 0 <= i < |s.consumers| ==> !s.consumers[i].at.Putting?
    requires |s.written| + |s.workerQueue| < |s.source|
    ensures Enabled(s, a) && Moves(a)
  {
    if i :| 0 <= i < |s.producerHands| && s.producerHands[i].Some? {
      a := ProducerPuts(i);
    } else if s.inputQueue != [] {
      a := ProducerTakes(0);
    } else if s.readerHand.Some? {
      a := ReaderPuts;
    } else {
      a := ReaderReads;
      assert Conserved(tr, s, Any());
      Lengths(tr, s);
      HeldByNone(s.producerHands, Raw(tr, Any()));
      HeldByNone(s.consumerHands, Mid(tr, Any()));
    }
  }

  /** With more lines than the high threshold some thread can move an item on, if no consumer has to be
      started first. */
  lemma NextMove(tr: Transformer, s: State) returns (a: Action)
    requires Good(tr, s) && |s.source| > HIGH && |s.written| < |s.source|
    requires s.list != [] || |s.workerQueue| <= HIGH
    ensures Enabled(s, a) && Moves(a)
  {
    if s.list != [] {
      a := Progress(tr, s);
    } else {
      a := Upstream(tr, s);
    }
  }

  /** No thread can move an item, and the controller would start no consumer however often it looked. */
  ghost predicate Stuck(s: State) {
    && |s.written| < |s.source|
    && (forall a :: Moves(a) ==> !Enabled(s, a))
    && |s.workerQueue| <= HIGH
  }

  /** With more lines than the high threshold no run gets stuck. */
  lemma NeverStuck(tr: Transformer, s: State)
    requires Good(tr, s) && |s.source| > HIGH
    ensures !Stuck(s)
  {
    if |s.written| < |s.source| && |s.workerQueue| <= HIGH {
      var a := NextMove(tr, s);
    }
  }

  /** With fewer lines, but some, every state without a consumer and without a move left is stuck, and all
      the lines are in the worker queue then; no consumer ever comes, and nothing is ever written. */
  lemma TooFewLines(tr: Transformer, s: State)
    requires Good(tr, s) && 0 < |s.source| <= HIGH
    ensures s.consumers == [] && s.written == []
    ensures Stuck(s) <==> |s.workerQueue| == |s.source|
  {
    assert Conserved(tr, s, Any());
    Lengths(tr, s);
    if |s.workerQueue| < |s.source| {
      var a := Upstream(tr, s);
    } else {
      forall a | Moves(a) ensures !Enabled(s, a) {
        NothingHeld(tr, s, a);
      }
    }
  }

  lemma NothingHeld(tr: Transformer, s: State, a: Action)
    requires Good(tr, s) && 0 < |s.source| <= HIGH && |s.workerQueue| == |s.source| && Moves(a)
    ensures !Enabled(s, a)
  {
    assert Conserved(tr, s, Any());
    Lengths(tr, s);
    if a.ProducerPuts? && a.i < |s.producerHands| && s.producerHands[a.i].Some? {
      HeldByUpdate(s.producerHands, a.i, None, Raw(tr, Any()));
    }
  }

  /** How far the lines are from the worker queue. */
  ghost function Distance(tr: Transformer, s: State): int {
    4 * (|s.source| - s.read) + 3 * Held(s.readerHand, Raw(tr, Any())) + 2 * |s.inputQueue|
    + HeldBy(s.producerHands, Raw(tr, Any()))
  }

  /** And that state is reached: each move brings the lines closer to it. */
  lemma LinesGather(tr: Transformer, s: State, a: Action)
    requires Good(tr, s) && 0 < |s.source| <= HIGH && Enabled(s, a)
    ensures 0 <= Distance(tr, Next(tr, s, a)) <= Distance(tr, s)
    ensures Moves(a) ==> Distance(tr, Next(tr, s, a)) < Distance(tr, s)
  {
    if a.ProducerTakes? {
      HeldByUpdate(s.producerHands, a.i, Some(s.inputQueue[0]), Raw(tr, Any()));
    } else if a.ProducerPuts? {
      HeldByUpdate(s.producerHands, a.i, None, Raw(tr, Any()));
    }
  }

  // ---------- the end ----------

  function Finished(tr: Transformer, items: seq<Item>): (r: seq<Item>)
    ensures |r| == |items|
  {
    seq(|items|, i requires 0 <= i < |items| => tr.Consume(tr.Produce(items[i])))
  }

  /** Each line keeps its key and opcode, and its value goes through the producers' transformation for that
      opcode and then the consumers'. */
  lemma FinishedItem(tr: Transformer, items: seq<Item>, i: nat)
    requires i < |items|
    ensures var x, y := items[i], Finished(tr, items)[i];
            && y.key == x.key && y.opcode == x.opcode
            && y.val == tr.consumer(x.opcode, tr.producer(x.opcode, x.val))
  {
  }

  function Equals(y: Item): Item -> bool {
    x => x == y
  }

  lemma {:induction false} CountIsMultiplicity(items: seq<Item>, y: Item)
    ensures Count(items, Equals(y)) == multiset(items)[y]
  {
    if items != [] {
      var n := |items| - 1;
      CountIsMultiplicity(items[..n], y);
      assert items == items[..n] + [items[n]];
    }
  }

  lemma {:induction false} CountFinished(tr: Transformer, items: seq<Item>, p: Item -> bool)
    ensures Count(Finished(tr, items), p) == Count(items, Raw(tr, p))
  {
    if items != [] {
      var n := |items| - 1;
      CountFinished(tr, items[..n], p);
      assert Finished(tr, items)[..n] == Finished(tr, items[..n]);
    }
  }

  /** When the writer has reached its count it has written exactly the lines of the source, each with its
      key and opcode and both transformations, in some order. */
  lemma AllWritten(tr: Transformer, s: State)
    requires Good(tr, s) && |s.written| == |s.source|
    ensures multiset(s.written) == multiset(Finished(tr, s.source))
  {
    assert Conserved(tr, s, Any());
    Lengths(tr, s);
    assert s.source[..s.read] == s.source;
    forall y ensures multiset(s.written)[y] == multiset(Finished(tr, s.source))[y] {
      WrittenCount(tr, s, Equals(y));
      CountFinished(tr, s.source, Equals(y));
      CountIsMultiplicity(s.written, y);
      CountIsMultiplicity(Finished(tr, s.source), y);
    }
  }

  lemma WrittenCount(tr: Transformer, s: State, p: Item -> bool)
    requires Good(tr, s) && |s.written| == |s.source| == s.read
    ensures Count(s.written, p) == Count(s.source, Raw(tr, p))
  {
    assert Conserved(tr, s, p) && Conserved(tr, s, Any());
    Lengths(tr, s);
    assert s.source[..s.read] == s.source;
    NoneHeld(s.producerHands, Raw(tr, Any()), Raw(tr, p));
    NoneHeld(s.consumerHands, Mid(tr, Any()), Mid(tr, p));
  }

  lemma {:induction false} NoneHeld(hands: seq<Option<Item>>, all: Item -> bool, p: Item -> bool)
    requires (forall x :: all(x)) && HeldBy(hands, all) == 0
    ensures HeldBy(hands, p) == 0
  {
    if hands != [] { NoneHeld(hands[..|hands| - 1], all, p); }
  }

  // ---------- with enough lines, the end can always be reached ----------

  ghost function NumTesting(consumers: seq<Consumer>): nat {
    if consumers == [] then 0
    else NumTesting(consumers[..|consumers| - 1]) + (if consumers[|consumers| - 1].at.Testing? then 1 else 0)
  }

  lemma {:induction false} NumTestingUpdate(consumers: seq<Consumer>, i: nat, c: Consumer)
    requires i < |consumers|
    ensures NumTesting(consumers[i := c])
         == NumTesting(consumers) - (if consumers[i].at.Testing? then 1 else 0) + (if c.at.Testing? then 1 else 0)
  {
    var n := |consumers| - 1;
    if i == n {
      assert consumers[i := c][..n] == consumers[..n];
    } else {
      assert consumers[i := c][..n] == consumers[..n][i := c];
      NumTestingUpdate(consumers[..n], i, c);
    }
  }

  /** How much is left to do: an item has eight moves to make in all, and before each consumer's move there
      may be a test of its flag. */
  ghost function Work(s: State): nat
    requires s.read <= |s.source|
  {
    2 * (8 * (|s.source| - s.read) + 7 * Held(s.readerHand, Any()) + 6 * |s.inputQueue|
         + 5 * HeldBy(s.producerHands, Any()) + 4 * |s.workerQueue| + 3 * HeldBy(s.consumerHands, Any())
         + 2 * |s.writerQueue| + Held(s.writerHand, Any()))
    + NumTesting(s.consumers)
  }

  lemma ConsumerWorkDrops(tr: Transformer, s: State, a: Action)
    requires Shape(s) && Enabled(s, a) && (a.ConsumerTests? || a.ConsumerTakes? || a.ConsumerPuts?)
    ensures Work(Next(tr, s, a)) < Work(s)
  {
    NumTestingUpdate(s.consumers, a.i, Next(tr, s, a).consumers[a.i]);
    if !a.ConsumerTests? {
      HeldByUpdate(s.consumerHands, a.i, Next(tr, s, a).consumerHands[a.i], Any());
    }
  }

  lemma WorkDrops(tr: Transformer, s: State, a: Action)
    requires Shape(s) && Enabled(s, a) && Moves(a)
    ensures Next(tr, s, a).read <= |s.source| && Work(Next(tr, s, a)) < Work(s)
    ensures Next(tr, s, a).list == s.list && Next(tr, s, a).source == s.source
  {
    match a
    case ProducerTakes(i) => HeldByUpdate(s.producerHands, i, Some(s.inputQueue[0]), Any());
    case ProducerPuts(i) => HeldByUpdate(s.producerHands, i, None, Any());
    case ConsumerTests(_) | ConsumerTakes(_) | ConsumerPuts(_) => ConsumerWorkDrops(tr, s, a);
    case _ =>
  }

  /** `actions`, each one possible when its turn comes, lead from `s` to `t`. */
  ghost predicate Leads(tr: Transformer, s: State, actions: seq<Action>, t: State)
    decreases |actions|
  {
    if actions == [] then s == t
    else Enabled(s, actions[0]) && Leads(tr, Next(tr, s, actions[0]), actions[1..], t)
  }

  lemma LeadsFirst(tr: Transformer, s: State, a: Action, rest: seq<Action>, t: State)
    requires Enabled(s, a) && Leads(tr, Next(tr, s, a), rest, t)
    ensures Leads(tr, s, [a] + rest, t)
  {
    assert ([a] + rest)[1..] == rest;
  }

  lemma {:induction false} LeadsOn(tr: Transformer, s: State, first: seq<Action>, t: State, rest: seq<Action>, u: State)
    requires Leads(tr, s, first, t) && Leads(tr, t, rest, u)
    ensures Leads(tr, s, first + rest, u)
    decreases |first|
  {
    if first == [] {
      assert first + rest == rest;
    } else {
      LeadsOn(tr, Next(tr, s, first[0]), first[1..], t, rest, u);
      assert (first + rest)[1..] == first[1..] + rest;
    }
  }

  /** With more in the worker queue than the high threshold, the controller starts a consumer, at the
      latest after its next look. */
  lemma ConsumerStarts(tr: Transformer, s: State) returns (actions: seq<Action>, t: State)
    requires Good(tr, s) && s.list == [] && |s.workerQueue| > HIGH
    ensures Leads(tr, s, actions, t) && Good(tr, t) && t.list != [] && t.source == s.source
    decreases s.seen.Some?
  {
    if s.seen.None? {
      var mid := Next(tr, s, ControllerLooks);
      NextGood(tr, s, ControllerLooks);
      t := Next(tr, mid, ControllerActs);
      NextGood(tr, mid, ControllerActs);
      actions := [ControllerActs];
      LeadsFirst(tr, mid, ControllerActs, [], t);
      LeadsFirst(tr, s, ControllerLooks, actions, t);
      actions := [ControllerLooks] + actions;
    } else {
      var mid := Next(tr, s, ControllerActs);
      NextGood(tr, s, ControllerActs);
      if mid.list != [] {
        LeadsFirst(tr, s, ControllerActs, [], mid);
        assert [ControllerActs] + [] == [ControllerActs];
        return [ControllerActs], mid;
      }
      actions, t := ConsumerStarts(tr, mid);
      LeadsFirst(tr, s, ControllerActs, actions, t);
      actions := [ControllerActs] + actions;
    }
  }

  /** With more lines than the high threshold every state of every run can be continued to the end, where
      all lines are written, transformed. */
  lemma {:induction false} CanFinish(tr: Transformer, s: State) returns (actions: seq<Action>, t: State)
    requires Good(tr, s) && |s.source| > HIGH
    ensures Leads(tr, s, actions, t) && Good(tr, t)
    ensures |t.written| == |s.source| && multiset(t.written) == multiset(Finished(tr, s.source))
    decreases s.list == [], Work(s)
  {
    if |s.written| == |s.source| {
      AllWritten(tr, s);
      actions, t := [], s;
    } else if s.list == [] && |s.workerQueue| > HIGH {
      var first, mid := ConsumerStarts(tr, s);
      var rest;
      rest, t := CanFinish(tr, mid);
      LeadsOn(tr, s, first, mid, rest, t);
      actions := first + rest;
    } else {
      var a := NextMove(tr, s);
      WorkDrops(tr, s, a);
      NextGood(tr, s, a);
      var rest;
      rest, t := CanFinish(tr, Next(tr, s, a));
      LeadsFirst(tr, s, a, rest, t);
      actions := [a] + rest;
    }
  }

  /** With fewer, but some, none can. */
  lemma {:induction false} CannotFinish(tr: Transformer, s: State, actions: seq<Action>, t: State)
    requires Good(tr, s) && 0 < |s.source| <= HIGH && Leads(tr, s, actions, t)
    ensures t.source == s.source && t.written == []
    decreases |actions|
  {
    if actions == [] {
      TooFewLines(tr, s);
    } else {
      NextGood(tr, s, actions[0]);
      CannotFinish(tr, Next(tr, s, actions[0]), actions[1..], t);
    }
  }

  // ---------- the end of a consumer ----------

  /** How many items consumer `i` takes. */
  function Takes(actions: seq<Action>, i: nat): nat {
    if actions == [] then 0 else (if actions[0] == ConsumerTakes(i) then 1 else 0) + Takes(actions[1..], i)
  }

  /** Over any continuation a cancelled consumer takes one more item at most, and that only if it was in
      `dequeue` already when it was cancelled; once it has left its loop it never comes back. */
  lemma {:induction false} LastRound(tr: Transformer, s: State, actions: seq<Action>, t: State, i: nat)
    requires Shape(s) && Leads(tr, s, actions, t) && i < |s.consumers| && s.consumers[i].cancelled
    ensures Takes(actions, i) <= if s.consumers[i].at.Taking? then 1 else 0
    ensures i < |t.consumers| && t.consumers[i].cancelled && (s.consumers[i].at.Gone? ==> t.consumers[i].at.Gone?)
    decreases |actions|
  {
    if actions != [] {
      CancelledStops(tr, s, actions[0], i);
      NextKeepsShape(tr, s, actions[0]);
      LastRound(tr, Next(tr, s, actions[0]), actions[1..], t, i);
    }
  }
}
