/** sys_read against the interleaved ring: the system call's own steps, its pops step by step, its halts,
    and pushes by the interrupt side between any two of them. */
module SysReadProtocol {
  import opened KeyboardRing

  datatype Phase =
    | Test            // about to compare i with count
    | Wait            // inside the loop around keyboard_buffer_pop
    | Halt            // pop returned 0, about to execute hlt
    | Asleep          // in hlt, which ends when an interrupt handler returns
    | Store(c: char)  // pop returned 1
    | Return          // returned i

  /** `mem` is the caller's buffer; `first` is how many characters had been delivered before the call. */
  datatype Reader = Reader(ring: Ring, phase: Phase, i: nat, count: nat, mem: seq<char>, first: nat)

  ghost predicate Called(s: Reader) {
    && Inv(s.ring) && s.ring.consumer == PopIdle
    && s.phase == Test && s.i == 0
    && s.count <= |s.mem|
    && s.first == |s.ring.delivered|
  }

  /** One step of the processor inside the system call. */
  function CpuStep(s: Reader, tailFirst: bool): Reader
    requires Shape(s.ring) && s.count <= |s.mem|
  {
    match s.phase
    case Test => s.(phase := if s.i < s.count then Wait else Return)
    case Wait =>
      var r := ConsumerStep(s.ring, tailFirst).0;
      s.(ring := r,
         phase := if (s.ring.consumer.PopHead? || s.ring.consumer.PopTail?) && r.consumer.PopIdle? then Halt
                  else if s.ring.consumer.PopAdvance? then Store(s.ring.consumer.c)
                  else Wait)
    case Halt => s.(phase := Asleep)
    case Asleep => s
    case Store(c) => if s.i < |s.mem| then s.(mem := s.mem[s.i := c], i := s.i + 1, phase := Test) else s
    case Return => s
  }

  function ReaderStep(s: Reader, m: Move): Reader
    requires Shape(s.ring) && s.count <= |s.mem|
  {
    match m
    case Irq(c) =>
      var r := ProducerStep(s.ring, c).0;
      s.(ring := r, phase := if s.phase == Asleep && r.producer.PushIdle? then Wait else s.phase)
    case Cpu(tailFirst) => CpuStep(s, tailFirst)
  }

  /** Characters popped by this call so far. */
  function Taken(s: Reader): int {
    s.i + if s.phase.Store? then 1 else 0
  }

  ghost predicate ReaderInv(s: Reader) {
    && Inv(s.ring)
    && (!s.phase.Wait? ==> s.ring.consumer == PopIdle)
    && s.i <= s.count <= |s.mem|
    && (s.phase.Return? ==> s.i == s.count)
    && (s.phase.Wait? || s.phase.Halt? || s.phase.Asleep? || s.phase.Store? ==> s.i < s.count)
    && |s.ring.delivered| == s.first + Taken(s)
    && s.first + s.i <= |s.ring.accepted|
    && s.mem[..s.i] == s.ring.accepted[s.first..s.first + s.i]
    && (s.phase.Store? ==> s.phase.c == s.ring.accepted[s.first + s.i])
  }

  lemma SliceOfPrefix(a: seq<char>, b: seq<char>, from: nat, n: nat)
    requires a <= b && from + n <= |a|
    ensures b[from..from + n] == a[from..from + n]
  {}

  lemma ProducerFrame(r: Ring, c: char)
    requires Inv(r)
    ensures var q := ProducerStep(r, c).0;
            Inv(q) && q.consumer == r.consumer && q.delivered == r.delivered && r.accepted <= q.accepted
  {
    ProducerStepKeeps(r, c);
    StepHistory(r, Irq(c));
  }

  lemma IrqKeeps(s: Reader, c: char)
    requires ReaderInv(s)
    ensures ReaderInv(ReaderStep(s, Irq(c)))
    ensures s.ring.accepted <= ReaderStep(s, Irq(c)).ring.accepted
  {
    ProducerFrame(s.ring, c);
    assert Shape(s.ring);
    hide Inv, Shape, ProducerStep;
    SliceOfPrefix(s.ring.accepted, ReaderStep(s, Irq(c)).ring.accepted, s.first, s.i);
  }

  lemma CpuKeeps(s: Reader, tailFirst: bool)
    requires ReaderInv(s)
    ensures ReaderInv(CpuStep(s, tailFirst))
    ensures s.ring.accepted == CpuStep(s, tailFirst).ring.accepted
  {
    var t := CpuStep(s, tailFirst);
    match s.phase
    case Test =>
    case Halt =>
    case Asleep =>
    case Return =>
    case Wait =>
      ConsumerStepKeeps(s.ring, tailFirst);
    case Store(c) =>
      assert t.mem[..t.i] == s.mem[..s.i] + [c];
      assert s.ring.accepted[s.first..s.first + s.i + 1] ==
             s.ring.accepted[s.first..s.first + s.i] + [s.ring.accepted[s.first + s.i]];
  }

  lemma ReaderStepKeeps(s: Reader, m: Move)
    requires ReaderInv(s)
    ensures ReaderInv(ReaderStep(s, m))
    ensures s.ring.accepted <= ReaderStep(s, m).ring.accepted
    ensures ReaderStep(s, m).count == s.count && ReaderStep(s, m).first == s.first
    ensures |ReaderStep(s, m).mem| == |s.mem| && ReaderStep(s, m).mem[s.count..] == s.mem[s.count..]
  {
    match m
    case Irq(c) => IrqKeeps(s, c);
    case Cpu(tailFirst) => CpuKeeps(s, tailFirst);
  }

  ghost function ReaderRun(s: Reader, moves: seq<Move>): (t: Reader)
    requires ReaderInv(s)
    ensures ReaderInv(t)
    decreases |moves|
  {
    if moves == [] then s
    else
      ReaderStepKeeps(s, moves[0]);
      ReaderRun(ReaderStep(s, moves[0]), moves[1..])
  }

  lemma {:induction false} ReaderRunKeeps(s: Reader, moves: seq<Move>)
    requires ReaderInv(s)
    ensures s.ring.accepted <= ReaderRun(s, moves).ring.accepted
    ensures ReaderRun(s, moves).count == s.count && ReaderRun(s, moves).first == s.first
    ensures |ReaderRun(s, moves).mem| == |s.mem| && ReaderRun(s, moves).mem[s.count..] == s.mem[s.count..]
    decreases |moves|
  {
    if moves == [] {
    } else {
      ReaderStepKeeps(s, moves[0]);
      ReaderRunKeeps(ReaderStep(s, moves[0]), moves[1..]);
    }
  }

  /** Under every interleaving: when sys_read returns, it returns count, the first count bytes of the buffer are
      the next count accepted characters in order, exactly those have left the ring, and the bytes
      beyond are untouched. */
  lemma ReadsNextCharacters(s: Reader, moves: seq<Move>)
    requires Called(s)
    ensures ReaderInv(s)
    ensures var t := ReaderRun(s, moves);
            t.phase == Return ==>
              && t.i == s.count
              && |s.ring.delivered| + s.count <= |t.ring.accepted|
              && t.mem[..s.count] == t.ring.accepted[|s.ring.delivered|..|s.ring.delivered| + s.count]
              && t.ring.delivered == s.ring.delivered + t.mem[..s.count]
              && t.mem[s.count..] == s.mem[s.count..]
  {
    ReaderRunKeeps(s, moves);
    var t := ReaderRun(s, moves);
    if t.phase == Return {
      var a, d := t.ring.accepted, |s.ring.delivered|;
      assert a[..d + s.count] == a[..d] + a[d..d + s.count];
      assert a[..d] == s.ring.accepted[..d];
    }
  }

  /** The call halts only after a pop that found the ring empty when it looked at the head: earlier, if it read the
      head first, or just now, if it reads the head last. */
  lemma HaltsOnlyWhenSeenEmpty(s: Reader, m: Move)
    requires ReaderInv(s) && !s.phase.Halt? && ReaderStep(s, m).phase.Halt?
    ensures m.Cpu?
    ensures (s.ring.consumer.PopHead? && s.ring.consumer.sawEmpty) || (s.ring.consumer.PopTail? && Queue(s.ring) == [])
  {
    if s.ring.consumer.PopTail? && |s.ring.delivered| < |s.ring.accepted| {
      SlotsDiffer(|s.ring.delivered|, |s.ring.accepted|);
    }
  }

  // ----- Progress -----

  /** All the characters the call waits for have been accepted. */
  ghost predicate Arrived(s: Reader) {
    s.first + s.count <= |s.ring.accepted|
  }

  /** The call is in hlt, or bound to execute it whatever happens: its pop has seen an empty ring. */
  predicate Dozing(s: Reader) {
    s.phase == Halt || s.phase == Asleep
    || (s.phase == Wait && s.ring.consumer.PopHead? && s.ring.consumer.sawEmpty)
  }

  /** Steps left in the current pop, until the character is in hand. */
  function PopSteps(c: Consumer): nat {
    match c
    case PopIdle => 6
    case PopHead(_, _) => 5
    case PopTail(_) => 5
    case PopReady => 4
    case PopSlot(_) => 3
    case PopTaken(_) => 2
    case PopAdvance(_, _) => 1
  }

  /** Steps of the processor left until sys_read returns, once all its characters have arrived and it is awake. */
  function StepsLeft(s: Reader): int {
    var chars := 8 * (s.count - s.i);
    match s.phase
    case Test => chars + 1
    case Wait => chars - 6 + PopSteps(s.ring.consumer)
    case Halt => 0
    case Asleep => 0
    case Store(_) => chars - 6
    case Return => 0
  }

  function CpuMoves(moves: seq<Move>): nat {
    if moves == [] then 0 else (if moves[0].Cpu? then 1 else 0) + CpuMoves(moves[1..])
  }

  /** A call that is awake when its characters have arrived stays awake. Interrupts do not set it back, and each of its
      own steps brings it closer. */
  lemma StepProgress(s: Reader, m: Move)
    requires ReaderInv(s) && Arrived(s) && !Dozing(s)
    ensures Arrived(ReaderStep(s, m)) && !Dozing(ReaderStep(s, m))
    ensures m.Irq? ==> StepsLeft(ReaderStep(s, m)) == StepsLeft(s)
    ensures m.Cpu? && s.phase != Return ==> StepsLeft(ReaderStep(s, m)) < StepsLeft(s)
    ensures s.phase == Return ==> ReaderStep(s, m).phase == Return
    ensures 0 <= StepsLeft(s) <= 8 * s.count + 1 && (s.phase != Return ==> 0 < StepsLeft(s))
  {
    ReaderStepKeeps(s, m);
    if s.phase == Wait && (s.ring.consumer.PopIdle? || s.ring.consumer.PopTail?) {
      SlotsDiffer(|s.ring.delivered|, |s.ring.accepted|);
    }
  }

  lemma {:induction false} Returns(s: Reader, moves: seq<Move>)
    requires ReaderInv(s) && Arrived(s) && !Dozing(s) && StepsLeft(s) <= CpuMoves(moves)
    ensures ReaderRun(s, moves).phase == Return
    decreases |moves|
  {
    if moves == [] {
      StepProgress(s, Cpu(false));
    } else {
      StepProgress(s, moves[0]);
      ReaderStepKeeps(s, moves[0]);
      var t := ReaderStep(s, moves[0]);
      if s.phase == Return { assert StepsLeft(t) == 0; }
      Returns(t, moves[1..]);
    }
  }

  lemma {:induction false} RunAppend(s: Reader, moves: seq<Move>, more: seq<Move>)
    requires ReaderInv(s)
    ensures ReaderRun(s, moves + more) == ReaderRun(ReaderRun(s, moves), more)
    decreases |moves|
  {
    if moves == [] {
      assert moves + more == more;
    } else {
      assert (moves + more)[1..] == moves[1..] + more;
      ReaderStepKeeps(s, moves[0]);
      RunAppend(ReaderStep(s, moves[0]), moves[1..], more);
    }
  }

  /** Without an interrupt a call that dozes never returns. */
  lemma {:induction false} SleepsOn(s: Reader, moves: seq<Move>)
    requires ReaderInv(s) && Dozing(s) && CpuMoves(moves) == |moves|
    ensures Dozing(ReaderRun(s, moves))
    decreases |moves|
  {
    if moves == [] {
    } else {
      ReaderStepKeeps(s, moves[0]);
      CpuMovesBounded(moves[1..]);
      SleepsOn(ReaderStep(s, moves[0]), moves[1..]);
    }
  }

  lemma {:induction false} CpuMovesBounded(moves: seq<Move>)
    ensures CpuMoves(moves) <= |moves|
  {
    if moves == [] {
    } else {
      CpuMovesBounded(moves[1..]);
    }
  }

  /** When the characters have arrived and the keyboard falls silent, 8 * count + 1 steps are enough for the call to
      return if and only if it does not doze: a push that comes between the pop that saw the ring empty and the hlt
      wakes nobody. */
  lemma ReturnsIffAwake(s: Reader, moves: seq<Move>)
    requires ReaderInv(s) && Arrived(s) && CpuMoves(moves) == |moves| && 8 * s.count + 1 <= |moves|
    ensures ReaderRun(s, moves).phase == Return <==> !Dozing(s)
  {
    if Dozing(s) {
      SleepsOn(s, moves);
    } else {
      StepProgress(s, Cpu(false));
      Returns(s, moves);
    }
  }

  /** An interrupt that returns ends the hlt, whatever is in the ring and however many characters the call still lacks;
      what it has stored stays as it is, and the next thing it does is to pop again. */
  lemma InterruptWakes(s: Reader, c: char)
    requires ReaderInv(s) && s.phase == Asleep && ReaderStep(s, Irq(c)).ring.producer.PushIdle?
    ensures var t := ReaderStep(s, Irq(c));
            && ReaderInv(t) && t.phase == Wait && t.ring.consumer == PopIdle && !Dozing(t)
            && t.i == s.i && t.mem == s.mem && t.count == s.count
  {
    ReaderStepKeeps(s, Irq(c));
  }

  // ----- One character at a time -----

  /** The next character the call waits for has been accepted. */
  ghost predicate NextArrived(s: Reader) {
    s.i < s.count && s.first + s.i < |s.ring.accepted|
  }

  /** Steps of the processor left until the next character is stored. */
  function StepsToStore(s: Reader): nat {
    match s.phase
    case Test => 8
    case Wait => PopSteps(s.ring.consumer) + 1
    case Halt => 0
    case Asleep => 0
    case Store(_) => 1
    case Return => 0
  }

  /** A call that is awake and has a character waiting stays so until it has stored it, and each of its own steps
      brings that closer. */
  lemma StoreProgress(s: Reader, m: Move)
    requires ReaderInv(s) && NextArrived(s) && !Dozing(s)
    ensures var t := ReaderStep(s, m);
            || (t.i == s.i + 1 && m.Cpu?)
            || (t.i == s.i && NextArrived(t) && !Dozing(t)
                && if m.Cpu? then StepsToStore(t) < StepsToStore(s) else StepsToStore(t) == StepsToStore(s))
    ensures 0 < StepsToStore(s) <= 8
  {
    ReaderStepKeeps(s, m);
    if s.phase == Wait && (s.ring.consumer.PopIdle? || s.ring.consumer.PopTail?) {
      SlotsDiffer(|s.ring.delivered|, |s.ring.accepted|);
    }
  }

  /** What a later state has stored are the characters the earlier one was to get. */
  lemma StoredIs(s: Reader, t: Reader)
    requires ReaderInv(s) && ReaderInv(t) && s.ring.accepted <= t.ring.accepted && t.first == s.first
    requires t.i == s.i + 1 && s.first + s.i < |s.ring.accepted|
    ensures t.mem[..s.i] == s.mem[..s.i] && t.mem[s.i] == s.ring.accepted[s.first + s.i]
  {
    var f, a, b := s.first, s.ring.accepted, t.ring.accepted;
    SliceOfPrefix(a, b, f, s.i + 1);
    assert t.mem[..t.i] == a[f..f + s.i + 1];
    assert t.mem[..s.i] == t.mem[..t.i][..s.i];
    assert a[f..f + s.i + 1][..s.i] == a[f..f + s.i];
    assert t.mem[s.i] == t.mem[..t.i][s.i] == a[f + s.i];
  }

  lemma {:induction false} StoresSoon(s: Reader, moves: seq<Move>) returns (k: nat)
    requires ReaderInv(s) && NextArrived(s) && !Dozing(s) && StepsToStore(s) <= CpuMoves(moves)
    ensures k <= |moves| && CpuMoves(moves[..k]) <= StepsToStore(s) <= 8
    ensures var t := ReaderRun(s, moves[..k]);
            && t.i == s.i + 1 && t.i <= |t.mem|
            && t.mem[..s.i] == s.mem[..s.i] && t.mem[s.i] == s.ring.accepted[s.first + s.i]
    decreases |moves|
  {
    StoreProgress(s, Cpu(false));
    assert 0 < StepsToStore(s) <= CpuMoves(moves);
    assert moves != [];
    StoreProgress(s, moves[0]);
    ReaderStepKeeps(s, moves[0]);
    var t := ReaderStep(s, moves[0]);
    if t.i == s.i + 1 {
      k := 1;
      assert moves[..1] == [moves[0]] && moves[..1][1..] == [];
      StoredIs(s, t);
    } else {
      var j := StoresSoon(t, moves[1..]);
      k := j + 1;
      assert moves[..k][1..] == moves[1..][..j] && moves[..k][0] == moves[0];
      ReaderRunKeeps(t, moves[1..][..j]);
      StoredIs(s, ReaderRun(s, moves[..k]));
    }
  }

  /** Under every interleaving a call that is awake with a character waiting for it stores that character within eight
      of its own steps: some beginning of the schedule with at most that many ends with exactly one character more. */
  lemma StoresNext(s: Reader, moves: seq<Move>) returns (k: nat)
    requires ReaderInv(s) && NextArrived(s) && !Dozing(s) && 8 <= CpuMoves(moves)
    ensures k <= |moves| && CpuMoves(moves[..k]) <= 8
    ensures var t := ReaderRun(s, moves[..k]);
            && t.i == s.i + 1 && t.i <= |t.mem|
            && t.mem[..s.i] == s.mem[..s.i] && t.mem[s.i] == s.ring.accepted[s.first + s.i]
  {
    StoreProgress(s, Cpu(false));
    k := StoresSoon(s, moves);
  }

  /** Once count characters have been accepted since the call began and it is awake, sys_read returns them within
      8 * count + 1 of its own steps, whatever the interrupt side does meanwhile. */
  lemma SysReadReturns(s: Reader, before: seq<Move>, after: seq<Move>)
    requires Called(s)
    ensures ReaderInv(s)
    ensures var m := ReaderRun(s, before);
            Arrived(m) && !Dozing(m) && 8 * s.count + 1 <= CpuMoves(after) ==>
              var t := ReaderRun(s, before + after);
              && t.phase == Return && t.i == s.count <= |t.mem|
              && t.ring.delivered == s.ring.delivered + t.mem[..s.count]
  {
    var m := ReaderRun(s, before);
    ReaderRunKeeps(s, before);
    if Arrived(m) && !Dozing(m) && 8 * s.count + 1 <= CpuMoves(after) {
      StepProgress(m, Cpu(false));
      Returns(m, after);
      RunAppend(s, before, after);
      ReadsNextCharacters(s, before + after);
    }
  }

  // ----- A wake-up that is lost -----

  lemma OneStep(s: Reader, m: Move, t: Reader, rest: seq<Move>)
    requires ReaderInv(s) && t == ReaderStep(s, m)
    ensures ReaderInv(t) && Shape(t.ring) && t.count <= |t.mem|
    ensures ReaderRun(s, [m] + rest) == ReaderRun(t, rest)
  {
    ReaderStepKeeps(s, m);
    assert ([m] + rest)[1..] == rest;
  }

  /** The moves of a push. */
  function PushMoves(c: char, n: nat): seq<Move> {
    if n == 0 then [] else [Irq(c)] + PushMoves(c, n - 1)
  }

  lemma OnePush(s: Reader, c: char, n: nat, t: Reader, rest: seq<Move>)
    requires ReaderInv(s) && t == ReaderStep(s, Irq(c))
    ensures ReaderInv(t) && Shape(t.ring) && t.count <= |t.mem|
    ensures ReaderRun(s, PushMoves(c, n + 1) + rest) == ReaderRun(t, PushMoves(c, n) + rest)
  {
    assert PushMoves(c, n + 1) + rest == [Irq(c)] + (PushMoves(c, n) + rest);
    OneStep(s, Irq(c), t, PushMoves(c, n) + rest);
  }

  lemma NoPush(c: char, rest: seq<Move>)
    ensures PushMoves(c, 0) + rest == rest
  {}

  /** A whole push, whatever the call is doing meanwhile; if it sleeps, it wakes. */
  lemma PushMeanwhile(s: Reader, c: char, rest: seq<Move>) returns (t: Reader)
    requires ReaderInv(s) && s.ring.producer == PushIdle
    requires (s.ring.head + 1) % KB_BUF_SIZE != s.ring.tail
    ensures ReaderInv(t) && ReaderRun(s, PushMoves(c, 5) + rest) == ReaderRun(t, rest)
    ensures t == s.(ring := s.ring.(head := (s.ring.head + 1) % KB_BUF_SIZE, buf := s.ring.buf[s.ring.head := c],
                                    accepted := s.ring.accepted + [c]),
                    phase := if s.phase == Asleep then Wait else s.phase)
  {
    hide ReaderInv, Inv, PushMoves, ReaderRun;
    ReaderShape(s);
    var r, next := s.ring, (s.ring.head + 1) % KB_BUF_SIZE;
    var s1 := s.(ring := r.(producer := PushNext(c, next)));
    var s2 := s.(ring := r.(producer := PushRoom(c, next)));
    var s3 := s.(ring := r.(producer := PushSlot(c, next, r.head)));
    var s4 := s.(ring := r.(buf := r.buf[r.head := c], producer := PushStored(c, next)));
    t := s.(ring := r.(head := next, buf := r.buf[r.head := c], accepted := r.accepted + [c]),
            phase := if s.phase == Asleep then Wait else s.phase);
    OnePush(s, c, 4, s1, rest);
    OnePush(s1, c, 3, s2, rest);
    OnePush(s2, c, 2, s3, rest);
    OnePush(s3, c, 1, s4, rest);
    OnePush(s4, c, 0, t, rest);
    NoPush(c, rest);
  }

  lemma ReaderShape(s: Reader)
    requires ReaderInv(s)
    ensures Shape(s.ring) && s.count <= |s.mem|
  {}

  function LostMoves(c: char): seq<Move> {
    [Cpu(false)] + ([Cpu(false)] + (PushMoves(c, 5) + ([Cpu(false)] + ([Cpu(false)] + []))))
  }

  /** A call for one character finds the ring empty; the character is pushed before it gets to hlt; and there it sleeps,
      with the character in the ring, until some later interrupt. */
  lemma LostWakeUp(s: Reader, c: char) returns (t: Reader)
    requires Called(s) && s.count == 1 && s.ring.producer == PushIdle && Queue(s.ring) == []
    ensures ReaderInv(s) && t == ReaderRun(s, LostMoves(c)) && ReaderInv(t)
    ensures t.phase == Asleep && Arrived(t) && Queue(t.ring) == [c]
    ensures forall moves :: CpuMoves(moves) == |moves| ==> ReaderRun(t, moves).phase != Return
  {
    var r := s.ring;
    assert ReaderInv(s) && r.head == r.tail && (r.head + 1) % KB_BUF_SIZE != r.tail;
    var end := [Cpu(false)] + ([Cpu(false)] + []);
    var s1 := s.(phase := Wait);
    OneStep(s, Cpu(false), s1, [Cpu(false)] + (PushMoves(c, 5) + end));
    var s2 := s1.(ring := r.(consumer := PopHead(r.head, true)));
    OneStep(s1, Cpu(false), s2, PushMoves(c, 5) + end);
    var s3 := PushMeanwhile(s2, c, end);
    var s4 := s3.(ring := s3.ring.(consumer := PopIdle), phase := Halt);
    OneStep(s3, Cpu(false), s4, [Cpu(false)] + []);
    t := s4.(phase := Asleep);
    OneStep(s4, Cpu(false), t, []);
    forall moves | CpuMoves(moves) == |moves|
      ensures ReaderRun(t, moves).phase != Return
    {
      SleepsOn(t, moves);
    }
  }

  // ----- Calls for any number of characters -----

  /** n moves of the processor. */
  function CpuTimes(tailFirst: bool, n: nat): seq<Move> {
    if n == 0 then [] else [Cpu(tailFirst)] + CpuTimes(tailFirst, n - 1)
  }

  lemma OneCpu(s: Reader, b: bool, n: nat, t: Reader, rest: seq<Move>)
    requires ReaderInv(s) && t == CpuStep(s, b)
    ensures ReaderInv(t) && Shape(t.ring) && t.count <= |t.mem|
    ensures ReaderRun(s, CpuTimes(b, n + 1) + rest) == ReaderRun(t, CpuTimes(b, n) + rest)
  {
    assert CpuTimes(b, n + 1) + rest == [Cpu(b)] + (CpuTimes(b, n) + rest);
    OneStep(s, Cpu(b), t, CpuTimes(b, n) + rest);
  }

  lemma NoCpu(b: bool, rest: seq<Move>)
    ensures CpuTimes(b, 0) + rest == rest
  {}

  /** Both sides are between calls of theirs and nothing is stored. */
  ghost predicate Quiet(s: Reader) {
    ReaderInv(s) && s.ring.producer == PushIdle && s.ring.consumer == PopIdle && Queue(s.ring) == []
  }

  lemma QuietRing(s: Reader)
    requires Quiet(s)
    ensures Shape(s.ring) && s.count <= |s.mem|
    ensures s.ring.head == s.ring.tail && (s.ring.head + 1) % KB_BUF_SIZE != s.ring.tail
  {}

  lemma Settled(s: Reader)
    requires Quiet(s) && s.phase == Test
    ensures ReaderInv(s) && s.i <= s.count && Quiet(s.(phase := if s.i < s.count then Asleep else Return))
    ensures s == s.(ring := s.ring.(consumer := PopIdle))
  {}

  /** A step within a pop changes the ring only. */
  lemma OnePop(s: Reader, b: bool, n: nat, r: Ring, rest: seq<Move>)
    requires ReaderInv(s) && s.phase == Wait && Shape(s.ring) && r == ConsumerStep(s.ring, b).0
    requires s.ring.consumer.PopIdle? || s.ring.consumer.PopReady? || s.ring.consumer.PopSlot?
             || s.ring.consumer.PopTaken?
    ensures ReaderInv(s.(ring := r)) && Shape(r) && s.count <= |s.mem|
    ensures ReaderRun(s, CpuTimes(b, n + 1) + rest) == ReaderRun(s.(ring := r), CpuTimes(b, n) + rest)
  {
    ReaderShape(s);
    OneCpu(s, b, n, s.(ring := r), rest);
  }

  lemma PopFails(s: Reader, b: bool, rest: seq<Move>)
    requires ReaderInv(s) && s.phase == Wait && Shape(s.ring) && s.ring.head == s.ring.tail
    requires s.ring.consumer == if b then PopTail(s.ring.tail) else PopHead(s.ring.head, true)
    ensures var t := s.(ring := s.ring.(consumer := PopIdle), phase := Halt);
            ReaderInv(t) && ReaderRun(s, CpuTimes(b, 2) + rest) == ReaderRun(t, CpuTimes(b, 1) + rest)
  {
    ReaderShape(s);
    hide ReaderInv, CpuTimes, ReaderRun;
    OneCpu(s, b, 1, s.(ring := s.ring.(consumer := PopIdle), phase := Halt), rest);
  }

  lemma PopsInVain(s: Reader, b: bool, rest: seq<Move>)
    requires Quiet(s) && s.phase == Test && s.i < s.count
    ensures ReaderInv(s.(phase := Halt)) && ReaderRun(s, CpuTimes(b, 4) + rest) ==
            ReaderRun(s.(phase := Halt), CpuTimes(b, 1) + rest)
  {
    QuietRing(s);
    Settled(s);
    hide ReaderInv, Quiet, CpuTimes, ReaderRun;
    var r := s.ring;
    var s1 := s.(phase := Wait);
    var r1 := r.(consumer := if b then PopTail(r.tail) else PopHead(r.head, true));
    OneCpu(s, b, 3, s1, rest);
    OnePop(s1, b, 2, r1, rest);
    PopFails(s1.(ring := r1), b, rest);
    assert r1.(consumer := PopIdle) == r;
  }

  lemma {:induction false} StaysReturned(s: Reader, b: bool, n: nat, rest: seq<Move>)
    requires ReaderInv(s) && s.phase == Return
    ensures ReaderRun(s, CpuTimes(b, n) + rest) == ReaderRun(s, rest)
    decreases n
  {
    NoCpu(b, rest);
    if n > 0 {
      OneCpu(s, b, n - 1, s, rest);
      StaysReturned(s, b, n - 1, rest);
    }
  }

  /** With the ring empty the call tests, pops in vain and goes to sleep, or it returns. */
  lemma SleepsOrReturns(s: Reader, b: bool, rest: seq<Move>) returns (t: Reader)
    requires Quiet(s) && s.phase == Test
    ensures Quiet(t) && ReaderRun(s, CpuTimes(b, 4) + rest) == ReaderRun(t, rest)
    ensures t == s.(phase := if s.i < s.count then Asleep else Return)
  {
    QuietRing(s);
    Settled(s);
    hide ReaderInv, Quiet, CpuTimes, ReaderRun;
    t := s.(phase := if s.i < s.count then Asleep else Return);
    if s.i < s.count {
      PopsInVain(s, b, rest);
      OneCpu(s.(phase := Halt), b, 0, t, rest);
      NoCpu(b, rest);
    } else {
      OneCpu(s, b, 3, t, rest);
      StaysReturned(t, b, 3, rest);
    }
  }

  lemma FindsOne(s: Reader, b: bool, n: nat, rest: seq<Move>)
    requires ReaderInv(s) && s.phase == Wait && s.ring.consumer == PopIdle && s.ring.head != s.ring.tail
    ensures var t := s.(ring := s.ring.(consumer := PopReady));
            ReaderInv(t) && ReaderRun(s, CpuTimes(b, n + 2) + rest) == ReaderRun(t, CpuTimes(b, n) + rest)
  {
    ReaderShape(s);
    hide ReaderInv, Inv, CpuTimes, ReaderRun;
    var r := s.ring;
    var r1 := r.(consumer := if b then PopTail(r.tail) else PopHead(r.head, false));
    OnePop(s, b, n + 1, r1, rest);
    OneCpu(s.(ring := r1), b, n, s.(ring := r.(consumer := PopReady)), rest);
  }

  lemma GetsOne(s: Reader, b: bool, rest: seq<Move>) returns (t: Reader)
    requires ReaderInv(s) && s.phase == Wait && s.ring.consumer == PopReady
    ensures ReaderInv(t) && ReaderRun(s, CpuTimes(b, 5) + rest) == ReaderRun(t, CpuTimes(b, 1) + rest)
    ensures Shape(s.ring)
    ensures t == s.(ring := s.ring.(tail := (s.ring.tail + 1) % KB_BUF_SIZE, consumer := PopIdle,
                                    delivered := s.ring.delivered + [s.ring.buf[s.ring.tail]]),
                    phase := Store(s.ring.buf[s.ring.tail]))
  {
    ReaderShape(s);
    hide ReaderInv, Inv, CpuTimes, ReaderRun;
    var r, c, next := s.ring, s.ring.buf[s.ring.tail], (s.ring.tail + 1) % KB_BUF_SIZE;
    t := s.(ring := r.(tail := next, consumer := PopIdle, delivered := r.delivered + [c]), phase := Store(c));
    var r3, r4, r5 := r.(consumer := PopSlot(r.tail)), r.(consumer := PopTaken(c)), r.(consumer := PopAdvance(c, next));
    OnePop(s, b, 4, r3, rest);
    OnePop(s.(ring := r3), b, 3, r4, rest);
    OnePop(s.(ring := r4), b, 2, r5, rest);
    OneCpu(s.(ring := r5), b, 1, t, rest);
  }

  /** Awake with a single character in the ring, the call pops and stores it. */
  lemma TakesOne(s: Reader, c: char, b: bool, rest: seq<Move>) returns (t: Reader)
    requires ReaderInv(s) && s.phase == Wait && s.ring.consumer == PopIdle && s.ring.producer == PushIdle
    requires Queue(s.ring) == [c]
    ensures Quiet(t) && ReaderRun(s, CpuTimes(b, 7) + rest) == ReaderRun(t, rest)
    ensures s.i < |s.mem| && t.phase == Test && t.i == s.i + 1 && t.count == s.count
    ensures t.mem == s.mem[s.i := c]
  {
    OldestInSlot(s.ring);
    FindsOne(s, b, 5, rest);
    var s6 := GetsOne(s.(ring := s.ring.(consumer := PopReady)), b, rest);
    t := s6.(mem := s.mem[s.i := c], i := s.i + 1, phase := Test);
    assert Queue(t.ring) == [];
    hide Inv, CpuTimes, ReaderRun, Queue;
    OneCpu(s6, b, 0, t, rest);
    NoCpu(b, rest);
  }

  /** Each key in turn: its interrupt, and then time for the call to take it and to go back to sleep. */
  function KeyByKey(keys: seq<char>, b: bool): seq<Move> {
    if keys == [] then []
    else PushMoves(keys[0], 5) + (CpuTimes(b, 7) + (CpuTimes(b, 4) + KeyByKey(keys[1..], b)))
  }

  lemma OneKey(s: Reader, c: char, b: bool, rest: seq<Move>) returns (t: Reader)
    requires Quiet(s) && s.phase == Asleep
    ensures Quiet(t) && ReaderRun(s, PushMoves(c, 5) + (CpuTimes(b, 7) + (CpuTimes(b, 4) + rest))) == ReaderRun(t, rest)
    ensures s.i < |s.mem| && t.i == s.i + 1 && t.count == s.count && t.mem == s.mem[s.i := c]
    ensures t.phase == if t.i < t.count then Asleep else Return
  {
    QuietRing(s);
    var s1 := PushMeanwhile(s, c, CpuTimes(b, 7) + (CpuTimes(b, 4) + rest));
    assert Queue(s1.ring) == [c];
    hide Quiet, Queue, ReaderInv, Inv, CpuTimes, PushMoves, ReaderRun;
    var s2 := TakesOne(s1, c, b, CpuTimes(b, 4) + rest);
    t := SleepsOrReturns(s2, b, rest);
  }

  lemma OneMoreKey(mem: seq<char>, i: nat, keys: seq<char>, count: nat)
    requires keys != [] && i + |keys| == count <= |mem|
    ensures var m := mem[i := keys[0]]; m[..i + 1] + keys[1..] + m[count..] == mem[..i] + keys + mem[count..]
  {
    assert mem[i := keys[0]][..i + 1] + keys[1..] == mem[..i] + keys;
  }

  lemma QuietInv(s: Reader)
    requires Quiet(s)
    ensures ReaderInv(s) && s.count <= |s.mem|
  {}

  lemma {:induction false} KeysTaken(s: Reader, keys: seq<char>, b: bool) returns (t: Reader)
    requires Quiet(s) && s.i + |keys| == s.count && s.phase == if keys == [] then Return else Asleep
    ensures ReaderInv(s) && t == ReaderRun(s, KeyByKey(keys, b)) && t.phase == Return && t.i == s.count <= |s.mem|
    ensures t.mem == s.mem[..s.i] + keys + s.mem[s.count..]
    decreases |keys|
  {
    QuietInv(s);
    hide Quiet, ReaderInv;
    if keys == [] {
      t := s;
      assert s.mem == s.mem[..s.i] + [] + s.mem[s.i..];
    } else {
      var s1 := OneKey(s, keys[0], b, KeyByKey(keys[1..], b));
      t := KeysTaken(s1, keys[1..], b);
      OneMoreKey(s.mem, s.i, keys, s.count);
    }
  }

  lemma CalledQuiet(s: Reader)
    requires Called(s) && s.ring.producer == PushIdle && Queue(s.ring) == []
    ensures Quiet(s) && s.phase == Test && s.i == 0 <= s.count <= |s.mem|
  {}

  /** A call for any number of characters, more than the ring holds included, returns them all when it gets time to
      empty the ring after each interrupt, although it sleeps and wakes once for every one of them. */
  lemma AnyCountReturns(s: Reader, keys: seq<char>, b: bool)
    requires Called(s) && s.ring.producer == PushIdle && Queue(s.ring) == [] && |keys| == s.count
    ensures ReaderInv(s)
    ensures var t := ReaderRun(s, CpuTimes(b, 4) + KeyByKey(keys, b));
            t.phase == Return && t.i == s.count && t.mem == keys + s.mem[s.count..]
  {
    CalledQuiet(s);
    hide Quiet, ReaderInv, Inv, CpuTimes, KeyByKey, ReaderRun;
    var s1 := SleepsOrReturns(s, b, KeyByKey(keys, b));
    var t := KeysTaken(s1, keys, b);
    assert s.mem[..0] + keys == keys;
  }
}
