/** The keyboard ring as a protocol: the interrupt side pushes, the reader pops, and every read or write
    of a shared variable is a step of its own. A schedule is any sequence of moves of the two sides. */
module KeyboardRing {

  const KB_BUF_SIZE := 128

  /** Where the interrupt handler stands in keyboard_buffer_push. */
  datatype Producer =
    | PushIdle
    | PushNext(c: char, next: nat)             // kb_head read, next computed
    | PushRoom(c: char, next: nat)             // kb_tail read, found different from next
    | PushSlot(c: char, next: nat, slot: nat)  // kb_head read again
    | PushStored(c: char, next: nat)           // slot written, kb_head not yet advanced

  /** Where the reader stands in keyboard_buffer_pop. The comparison may read kb_head or kb_tail first. `sawEmpty`
      records whether the ring was empty at the moment kb_head was read. */
  datatype Consumer =
    | PopIdle
    | PopHead(head: nat, sawEmpty: bool)       // kb_head read first
    | PopTail(tail: nat)                       // kb_tail read first
    | PopReady                                 // the two found different
    | PopSlot(slot: nat)                       // kb_tail read again
    | PopTaken(c: char)                        // slot read
    | PopAdvance(c: char, next: nat)           // kb_tail read, next tail computed

  /** The shared variables, the two sides, and the history of characters accepted and delivered. */
  datatype Ring = Ring(head: nat, tail: nat, buf: seq<char>, producer: Producer, consumer: Consumer,
                       accepted: seq<char>, delivered: seq<char>)

  /** Either side takes its next step: an idle interrupt side starts pushing c, and an idle reader starts a pop,
      whose comparison reads kb_tail first if told so. */
  datatype Move = Irq(c: char) | Cpu(tailFirst: bool)

  datatype Label = Silent | Enqueue(c: char) | Refuse(c: char) | Dequeue(c: char) | SeeEmpty

  predicate Shape(r: Ring) {
    && r.head < KB_BUF_SIZE && r.tail < KB_BUF_SIZE && |r.buf| == KB_BUF_SIZE
    && (r.producer.PushSlot? ==> r.producer.slot < KB_BUF_SIZE)
    && (r.producer.PushNext? || r.producer.PushRoom? || r.producer.PushSlot? || r.producer.PushStored? ==>
          r.producer.next < KB_BUF_SIZE)
    && (r.consumer.PopSlot? ==> r.consumer.slot < KB_BUF_SIZE)
    && (r.consumer.PopAdvance? ==> r.consumer.next < KB_BUF_SIZE)
  }

  function ProducerStep(r: Ring, c: char): (Ring, Label)
    requires Shape(r)
  {
    match r.producer
    case PushIdle => (r.(producer := PushNext(c, (r.head + 1) % KB_BUF_SIZE)), Silent)
    case PushNext(ch, next) =>
      if next != r.tail then (r.(producer := PushRoom(ch, next)), Silent)
      else (r.(producer := PushIdle), Refuse(ch))
    case PushRoom(ch, next) => (r.(producer := PushSlot(ch, next, r.head)), Silent)
    case PushSlot(ch, next, slot) => (r.(buf := r.buf[slot := ch], producer := PushStored(ch, next)), Silent)
    case PushStored(ch, next) =>
      (r.(head := next, producer := PushIdle, accepted := r.accepted + [ch]), Enqueue(ch))
  }

  function ConsumerStep(r: Ring, tailFirst: bool): (Ring, Label)
    requires Shape(r)
  {
    match r.consumer
    case PopIdle =>
      if tailFirst then (r.(consumer := PopTail(r.tail)), Silent)
      else (r.(consumer := PopHead(r.head, r.head == r.tail)), if r.head == r.tail then SeeEmpty else Silent)
    case PopTail(t) =>
      if r.head == t then (r.(consumer := PopIdle), SeeEmpty) else (r.(consumer := PopReady), Silent)
    case PopHead(h, _) => (r.(consumer := if h == r.tail then PopIdle else PopReady), Silent)
    case PopReady => (r.(consumer := PopSlot(r.tail)), Silent)
    case PopSlot(slot) => (r.(consumer := PopTaken(r.buf[slot])), Silent)
    case PopTaken(ch) => (r.(consumer := PopAdvance(ch, (r.tail + 1) % KB_BUF_SIZE)), Silent)
    case PopAdvance(ch, next) =>
      (r.(tail := next, consumer := PopIdle, delivered := r.delivered + [ch]), Dequeue(ch))
  }

  function Step(r: Ring, m: Move): (Ring, Label)
    requires Shape(r)
  {
    match m
    case Irq(c) => ProducerStep(r, c)
    case Cpu(tailFirst) => ConsumerStep(r, tailFirst)
  }

  // ----- The specification: a bounded first-in first-out queue -----

  ghost predicate FifoStep(q: seq<char>, l: Label, q': seq<char>) {
    match l
    case Silent => q' == q
    case Enqueue(c) => |q| < 127 && q' == q + [c]
    case Refuse(_) => |q| == 127 && q' == q
    case Dequeue(c) => q != [] && c == q[0] && q' == q[1..]
    case SeeEmpty => q == [] && q' == q
  }

  ghost predicate FifoRun(q: seq<char>, ls: seq<Label>, q': seq<char>)
    decreases |ls|
  {
    if ls == [] then q' == q
    else exists mid :: FifoStep(q, ls[0], mid) && FifoRun(mid, ls[1..], q')
  }

  /** The characters accepted and not yet delivered. */
  function Queue(r: Ring): seq<char>
    requires |r.delivered| <= |r.accepted|
  {
    r.accepted[|r.delivered|..]
  }

  // ----- The invariant -----

  ghost predicate Pushing(r: Ring) {
    match r.producer
    case PushIdle => true
    case PushNext(_, next) => next == (r.head + 1) % KB_BUF_SIZE
    case PushRoom(_, next) => next == (r.head + 1) % KB_BUF_SIZE && |r.accepted| - |r.delivered| < KB_BUF_SIZE - 1
    case PushSlot(_, next, slot) =>
      next == (r.head + 1) % KB_BUF_SIZE && |r.accepted| - |r.delivered| < KB_BUF_SIZE - 1 && slot == r.head
    case PushStored(c, next) =>
      && next == (r.head + 1) % KB_BUF_SIZE && |r.accepted| - |r.delivered| < KB_BUF_SIZE - 1
      && r.head < |r.buf| && r.buf[r.head] == c
  }

  ghost predicate Popping(r: Ring) {
    match r.consumer
    case PopIdle => true
    case PopHead(h, sawEmpty) => (h == r.tail <==> sawEmpty) && (h != r.tail ==> |r.delivered| < |r.accepted|)
    case PopTail(t) => t == r.tail
    case PopReady => |r.delivered| < |r.accepted|
    case PopSlot(slot) => |r.delivered| < |r.accepted| && slot == r.tail
    case PopTaken(c) => |r.delivered| < |r.accepted| && c == r.accepted[|r.delivered|]
    case PopAdvance(c, next) =>
      |r.delivered| < |r.accepted| && c == r.accepted[|r.delivered|] && next == (r.tail + 1) % KB_BUF_SIZE
  }

  /** Character number j, counted from the first one ever accepted, is in its slot. */
  ghost predicate Stored(r: Ring, j: int)
    requires |r.buf| == KB_BUF_SIZE
  {
    |r.delivered| <= j < |r.accepted| ==> r.buf[j % KB_BUF_SIZE] == r.accepted[j]
  }

  /** At most 127 characters are stored, each in its slot, and what was delivered is a prefix of what was accepted. */
  ghost predicate Inv(r: Ring) {
    && Shape(r)
    && |r.delivered| <= |r.accepted| < |r.delivered| + KB_BUF_SIZE
    && r.delivered == r.accepted[..|r.delivered|]
    && r.head == |r.accepted| % KB_BUF_SIZE
    && r.tail == |r.delivered| % KB_BUF_SIZE
    && (forall j :: Stored(r, j))
    && Pushing(r)
    && Popping(r)
  }

  ghost predicate Initial(r: Ring) {
    && r.head == 0 && r.tail == 0 && |r.buf| == KB_BUF_SIZE
    && r.producer == PushIdle && r.consumer == PopIdle
    && r.accepted == [] && r.delivered == []
  }

  /** The slots of two positions less than a whole ring apart differ. */
  lemma SlotsDiffer(j: nat, k: nat)
    requires j < k < j + KB_BUF_SIZE
    ensures j % KB_BUF_SIZE != k % KB_BUF_SIZE
  {}

  lemma NextSlot(n: nat)
    ensures (n % KB_BUF_SIZE + 1) % KB_BUF_SIZE == (n + 1) % KB_BUF_SIZE
  {}

  lemma ProducerStepInv(r: Ring, c: char)
    requires Inv(r)
    ensures Inv(ProducerStep(r, c).0)
  {
    var s := ProducerStep(r, c).0;
    assert Popping(s);
    hide Popping;
    forall j
      ensures Stored(s, j)
    {
      assert Stored(r, j);
      if |r.delivered| <= j < |r.accepted| { SlotsDiffer(j, |r.accepted|); }
    }
    NextSlot(|r.accepted|);
    match r.producer
    case PushIdle =>
    case PushNext(_, next) =>
      if next != r.tail {
        if |r.accepted| == |r.delivered| + KB_BUF_SIZE - 1 { FullRing(|r.delivered|); }
      } else if |r.accepted| < |r.delivered| + KB_BUF_SIZE - 1 {
        SlotsDiffer(|r.delivered|, |r.accepted| + 1);
      }
    case PushRoom(_, _) =>
    case PushSlot(_, _, _) =>
    case PushStored(ch, _) =>
      assert s.accepted[..|r.delivered|] == r.accepted[..|r.delivered|];
  }

  lemma ProducerStepKeeps(r: Ring, c: char)
    requires Inv(r)
    ensures Inv(ProducerStep(r, c).0)
    ensures FifoStep(Queue(r), ProducerStep(r, c).1, Queue(ProducerStep(r, c).0))
  {
    ProducerStepInv(r, c);
    match r.producer
    case PushIdle =>
    case PushNext(_, _) =>
      NextSlot(|r.accepted|);
      if |r.accepted| < |r.delivered| + KB_BUF_SIZE - 1 { SlotsDiffer(|r.delivered|, |r.accepted| + 1); }
    case PushRoom(_, _) =>
    case PushSlot(_, _, _) =>
    case PushStored(ch, _) =>
      assert Queue(ProducerStep(r, c).0) == Queue(r) + [ch];
  }

  lemma FullRing(n: nat)
    ensures (n + KB_BUF_SIZE) % KB_BUF_SIZE == n % KB_BUF_SIZE
  {}

  lemma ConsumerStepInv(r: Ring, tailFirst: bool)
    requires Inv(r)
    ensures Inv(ConsumerStep(r, tailFirst).0)
  {
    var s := ConsumerStep(r, tailFirst).0;
    assert Pushing(s);
    forall j
      ensures Stored(s, j)
    {
      assert Stored(r, j);
    }
    match r.consumer
    case PopIdle =>
      if |r.delivered| == |r.accepted| { assert r.head == r.tail; }
    case PopHead(_, _) =>
    case PopTail(_) =>
      if |r.delivered| == |r.accepted| { assert r.head == r.tail; }
    case PopReady =>
    case PopSlot(_) =>
      assert Stored(r, |r.delivered|);
    case PopTaken(_) =>
    case PopAdvance(_, _) =>
      NextSlot(|r.delivered|);
      assert r.accepted[..|r.delivered| + 1] == r.accepted[..|r.delivered|] + [r.accepted[|r.delivered|]];
  }

  lemma ConsumerStepKeeps(r: Ring, tailFirst: bool)
    requires Inv(r)
    ensures Inv(ConsumerStep(r, tailFirst).0)
    ensures FifoStep(Queue(r), ConsumerStep(r, tailFirst).1, Queue(ConsumerStep(r, tailFirst).0))
  {
    ConsumerStepInv(r, tailFirst);
    if (r.consumer.PopIdle? || r.consumer.PopTail?) && r.head == r.tail && |r.delivered| < |r.accepted| {
      SlotsDiffer(|r.delivered|, |r.accepted|);
    }
    if r.consumer.PopAdvance? {
      assert Queue(ConsumerStep(r, tailFirst).0) == Queue(r)[1..];
    }
  }

  lemma StepKeeps(r: Ring, m: Move)
    requires Inv(r)
    ensures Inv(Step(r, m).0)
    ensures FifoStep(Queue(r), Step(r, m).1, Queue(Step(r, m).0))
  {
    match m
    case Irq(c) => ProducerStepKeeps(r, c);
    case Cpu(tailFirst) => ConsumerStepKeeps(r, tailFirst);
  }

  // ----- Runs -----

  ghost function Run(r: Ring, moves: seq<Move>): (res: (Ring, seq<Label>))
    requires Inv(r)
    ensures Inv(res.0)
    decreases |moves|
  {
    if moves == [] then (r, [])
    else
      StepKeeps(r, moves[0]);
      var (s, l) := Step(r, moves[0]);
      var (t, ls) := Run(s, moves[1..]);
      (t, [l] + ls)
  }

  function Enqueued(ls: seq<Label>): seq<char> {
    if ls == [] then [] else Enqueues(ls[0]) + Enqueued(ls[1..])
  }

  function Dequeued(ls: seq<Label>): seq<char> {
    if ls == [] then [] else Dequeues(ls[0]) + Dequeued(ls[1..])
  }

  /** Every interleaving of the steps of push and pop is a run of the bounded queue. */
  lemma {:induction false} RunRefines(r: Ring, moves: seq<Move>)
    requires Inv(r)
    ensures FifoRun(Queue(r), Run(r, moves).1, Queue(Run(r, moves).0))
    decreases |moves|
  {
    if moves == [] {
    } else {
      StepKeeps(r, moves[0]);
      var (s, l) := Step(r, moves[0]);
      RunRefines(s, moves[1..]);
      assert ([l] + Run(s, moves[1..]).1)[1..] == Run(s, moves[1..]).1;
    }
  }

  function Enqueues(l: Label): seq<char> { if l.Enqueue? then [l.c] else [] }
  function Dequeues(l: Label): seq<char> { if l.Dequeue? then [l.c] else [] }

  lemma StepHistory(r: Ring, m: Move)
    requires Inv(r)
    ensures Step(r, m).0.accepted == r.accepted + Enqueues(Step(r, m).1)
    ensures Step(r, m).0.delivered == r.delivered + Dequeues(Step(r, m).1)
  {}

  lemma ConsHistory(a: seq<char>, l: Label, ls: seq<Label>)
    ensures (a + Enqueues(l)) + Enqueued(ls) == a + Enqueued([l] + ls)
    ensures (a + Dequeues(l)) + Dequeued(ls) == a + Dequeued([l] + ls)
  {
    var all := [l] + ls;
    assert all[0] == l && all[1..] == ls;
    Associate(a, Enqueues(l), Enqueued(ls));
    Associate(a, Dequeues(l), Dequeued(ls));
  }

  lemma Associate(a: seq<char>, b: seq<char>, c: seq<char>)
    ensures (a + b) + c == a + (b + c)
  {}

  /** The history records exactly the characters of the enqueue labels, in order. */
  lemma {:induction false} RunAccepted(r: Ring, moves: seq<Move>)
    requires Inv(r)
    ensures Run(r, moves).0.accepted == r.accepted + Enqueued(Run(r, moves).1)
    decreases |moves|
  {
    if moves == [] {
    } else {
      StepKeeps(r, moves[0]);
      StepHistory(r, moves[0]);
      var s, l := Step(r, moves[0]).0, Step(r, moves[0]).1;
      var ls := Run(s, moves[1..]).1;
      RunAccepted(s, moves[1..]);
      ConsHistory(r.accepted, l, ls);
    }
  }

  /** The history records exactly the characters of the dequeue labels, in order. */
  lemma {:induction false} RunDelivered(r: Ring, moves: seq<Move>)
    requires Inv(r)
    ensures Run(r, moves).0.delivered == r.delivered + Dequeued(Run(r, moves).1)
    decreases |moves|
  {
    if moves == [] {
    } else {
      StepKeeps(r, moves[0]);
      StepHistory(r, moves[0]);
      var s, l := Step(r, moves[0]).0, Step(r, moves[0]).1;
      var ls := Run(s, moves[1..]).1;
      RunDelivered(s, moves[1..]);
      ConsHistory(r.delivered, l, ls);
    }
  }

  lemma ModShift(n: nat, k: nat)
    ensures (n % KB_BUF_SIZE + k) % KB_BUF_SIZE == (n + k) % KB_BUF_SIZE
  {}

  /** The waiting characters lie in consecutive slots from the tail on. */
  lemma QueueInSlots(r: Ring, k: int)
    requires Inv(r) && 0 <= k < |Queue(r)|
    ensures r.buf[(r.tail + k) % KB_BUF_SIZE] == Queue(r)[k]
  {
    ModShift(|r.delivered|, k);
    assert Stored(r, |r.delivered| + k);
  }

  lemma HistoryFromEmpty(r: Ring, moves: seq<Move>)
    requires Initial(r)
    ensures Inv(r)
    ensures Run(r, moves).0.accepted == Enqueued(Run(r, moves).1)
    ensures Run(r, moves).0.delivered == Dequeued(Run(r, moves).1)
  {
    RunAccepted(r, moves);
    RunDelivered(r, moves);
  }

  lemma DeliveredThenQueue(r: Ring)
    requires Inv(r)
    ensures r.accepted == r.delivered + Queue(r)
  {}

  /** From an empty ring, under every schedule: what was popped is a prefix of what was accepted, the rest
      is still stored, at most 127 characters of it, in order. */
  lemma SingleProducerSingleConsumer(r: Ring, moves: seq<Move>)
    requires Initial(r)
    ensures Inv(r)
    ensures var s := Run(r, moves).0; var ls := Run(r, moves).1;
            && Enqueued(ls) == Dequeued(ls) + Queue(s)
            && |Queue(s)| <= 127 && |s.buf| == 128
            && forall k {:trigger Queue(s)[k]} :: 0 <= k < |Queue(s)| ==> s.buf[(s.tail + k) % 128] == Queue(s)[k]
  {
    HistoryFromEmpty(r, moves);
    var s := Run(r, moves).0;
    DeliveredThenQueue(s);
    forall k | 0 <= k < |Queue(s)|
      ensures s.buf[(s.tail + k) % KB_BUF_SIZE] == Queue(s)[k]
    {
      QueueInSlots(s, k);
    }
  }

  /** No step overwrites a slot that holds a character still to be read. */
  lemma UnreadSlotsUntouched(r: Ring, m: Move, j: int)
    requires Inv(r) && |r.delivered| <= j < |r.accepted|
    ensures Step(r, m).0.buf[j % KB_BUF_SIZE] == r.buf[j % KB_BUF_SIZE]
  {
    SlotsDiffer(j, |r.accepted|);
  }

  // ----- Calls that run without interruption -----

  /** The ring after one side has taken n steps while the other stood still. */
  ghost function Alone(r: Ring, m: Move, n: nat): (s: Ring)
    requires Inv(r)
    ensures Inv(s)
    decreases n
  {
    if n == 0 then r
    else
      StepKeeps(r, m);
      Alone(Step(r, m).0, m, n - 1)
  }

  lemma OneMore(r: Ring, m: Move, n: nat, s: Ring)
    requires Inv(r) && s == Step(r, m).0
    ensures Inv(s) && Shape(s) && Alone(r, m, n + 1) == Alone(s, m, n)
  {
    StepKeeps(r, m);
  }

  lemma PushFull(r: Ring, c: char)
    requires Inv(r) && r.producer == PushIdle && |Queue(r)| == KB_BUF_SIZE - 1
    ensures Alone(r, Irq(c), 2) == r
  {
    NextSlot(|r.accepted|);
    FullRing(|r.delivered|);
    var r1 := r.(producer := PushNext(c, (r.head + 1) % KB_BUF_SIZE));
    OneMore(r, Irq(c), 1, r1);
    OneMore(r1, Irq(c), 0, r);
  }

  lemma PushRoomy(r: Ring, c: char)
    requires Inv(r) && r.producer == PushIdle && |Queue(r)| < KB_BUF_SIZE - 1
    ensures Alone(r, Irq(c), 5) ==
            r.(head := (r.head + 1) % KB_BUF_SIZE, buf := r.buf[r.head := c], accepted := r.accepted + [c])
  {
    var m, next := Irq(c), (r.head + 1) % KB_BUF_SIZE;
    NextSlot(|r.accepted|);
    SlotsDiffer(|r.delivered|, |r.accepted| + 1);
    var r1 := r.(producer := PushNext(c, next));
    var r2 := r.(producer := PushRoom(c, next));
    var r3 := r.(producer := PushSlot(c, next, r.head));
    var r4 := r.(buf := r.buf[r.head := c], producer := PushStored(c, next));
    OneMore(r, m, 4, r1);
    OneMore(r1, m, 3, r2);
    OneMore(r2, m, 2, r3);
    OneMore(r3, m, 1, r4);
    OneMore(r4, m, 0, r4.(head := next, producer := PushIdle, accepted := r.accepted + [c]));
  }

  /** A push that is not interrupted takes five steps and stores its character if fewer than 127 are waiting;
      otherwise it takes two and changes nothing. */
  lemma PushAlone(r: Ring, c: char)
    requires Inv(r) && r.producer == PushIdle
    ensures r.head < |r.buf|
    ensures if |Queue(r)| < 127
            then Alone(r, Irq(c), 5) ==
                 r.(head := (r.head + 1) % 128, buf := r.buf[r.head := c], accepted := r.accepted + [c])
            else Alone(r, Irq(c), 2) == r
  {
    if |Queue(r)| < 127 { PushRoomy(r, c); } else { PushFull(r, c); }
  }

  lemma PopEmpty(r: Ring, tailFirst: bool)
    requires Inv(r) && r.consumer == PopIdle && Queue(r) == []
    ensures Alone(r, Cpu(tailFirst), 2) == r
  {
    var m := Cpu(tailFirst);
    var r1 := r.(consumer := if tailFirst then PopTail(r.tail) else PopHead(r.head, r.head == r.tail));
    OneMore(r, m, 1, r1);
    OneMore(r1, m, 0, r);
  }

  /** Both orders of the first two reads lead to the same point. */
  lemma PopCompares(r: Ring, tailFirst: bool, n: nat)
    requires Inv(r) && r.consumer == PopIdle && r.head != r.tail
    ensures Inv(r.(consumer := PopReady))
    ensures Alone(r, Cpu(tailFirst), n + 2) == Alone(r.(consumer := PopReady), Cpu(tailFirst), n)
  {
    var m := Cpu(tailFirst);
    var r1 := r.(consumer := if tailFirst then PopTail(r.tail) else PopHead(r.head, r.head == r.tail));
    OneMore(r, m, n + 1, r1);
    OneMore(r1, m, n, r.(consumer := PopReady));
  }

  /** The four steps behind the comparison. */
  lemma PopTakes(r: Ring, m: Move)
    requires Inv(r.(consumer := PopReady)) && r.consumer == PopIdle && m.Cpu?
    ensures r.tail < |r.buf|
    ensures Alone(r.(consumer := PopReady), m, 4) ==
            r.(tail := (r.tail + 1) % KB_BUF_SIZE, delivered := r.delivered + [r.buf[r.tail]])
  {
    hide Inv, Alone;
    var r2 := r.(consumer := PopReady);
    ShapeOf(r2);
    var c, next := r.buf[r.tail], (r.tail + 1) % KB_BUF_SIZE;
    var r3 := r.(consumer := PopSlot(r.tail));
    var r4 := r.(consumer := PopTaken(c));
    var r5 := r.(consumer := PopAdvance(c, next));
    var r6 := r.(tail := next, delivered := r.delivered + [c]);
    OneMore(r2, m, 3, r3);
    OneMore(r3, m, 2, r4);
    OneMore(r4, m, 1, r5);
    OneMore(r5, m, 0, r6);
    NoMore(r6, m);
  }

  lemma ShapeOf(r: Ring)
    requires Inv(r)
    ensures Shape(r)
  {}

  lemma OldestInSlot(r: Ring)
    requires Inv(r) && Queue(r) != []
    ensures Shape(r) && r.head != r.tail && r.buf[r.tail] == Queue(r)[0]
  {
    SlotsDiffer(|r.delivered|, |r.accepted|);
    assert Stored(r, |r.delivered|);
  }

  lemma PopOldest(r: Ring, tailFirst: bool)
    requires Inv(r) && r.consumer == PopIdle && Queue(r) != []
    ensures Alone(r, Cpu(tailFirst), 6) ==
            r.(tail := (r.tail + 1) % KB_BUF_SIZE, delivered := r.delivered + [Queue(r)[0]])
  {
    OldestInSlot(r);
    hide Inv, Alone, Queue;
    PopCompares(r, tailFirst, 4);
    PopTakes(r, Cpu(tailFirst));
  }

  lemma NoMore(r: Ring, m: Move)
    requires Inv(r)
    ensures Alone(r, m, 0) == r
  {}

  /** A pop that is not interrupted takes six steps and delivers the oldest character, or two and changes
      nothing when none is waiting, whichever index its comparison reads first. */
  lemma PopAlone(r: Ring, tailFirst: bool)
    requires Inv(r) && r.consumer == PopIdle
    ensures if Queue(r) == [] then Alone(r, Cpu(tailFirst), 2) == r
            else Alone(r, Cpu(tailFirst), 6) ==
                 r.(tail := (r.tail + 1) % 128, delivered := r.delivered + [Queue(r)[0]])
  {
    if Queue(r) == [] { PopEmpty(r, tailFirst); } else { PopOldest(r, tailFirst); }
  }
}
