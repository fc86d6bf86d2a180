/** The static ring of drivers/input/keyboard.c, and sys_read on top of it with interrupts taken while it halts. */
module KeyboardDriver {
  import opened KeyboardRing

  const ERROR := 0xFFFF_FFFF_FFFF_FFFF  // (uint64_t)-1

  class Keyboard {
    const kbBuf: array<char>
    var kbHead: nat
    var kbTail: nat
    ghost var accepted: seq<char>
    ghost var delivered: seq<char>

    /** The ring with both sides between calls. */
    ghost function View(): Ring
      reads this, kbBuf
    {
      Ring(kbHead, kbTail, kbBuf[..], PushIdle, PopIdle, accepted, delivered)
    }

    ghost predicate Valid()
      reads this, kbBuf
    {
      Inv(View())
    }

    constructor ()
      ensures Valid() && Initial(View()) && fresh(kbBuf)
    {
      kbBuf := new char[KB_BUF_SIZE];
      kbHead, kbTail := 0, 0;
      accepted, delivered := [], [];
    }

    /** A whole push has the effect of the producer's steps taken one after the other. */
    method Push(c: char)
      requires Valid()
      modifies this, kbBuf
      ensures Valid()
      ensures View() == Alone(old(View()), Irq(c), if |Queue(old(View()))| < 127 then 5 else 2)
      ensures Queue(View()) == if |Queue(old(View()))| < 127 then Queue(old(View())) + [c] else Queue(old(View()))
      ensures old(accepted) <= accepted && delivered == old(delivered)
    {
      ghost var r := View();
      PushAlone(r, c);
      FullIffHit(r);
      var next := (kbHead + 1) % KB_BUF_SIZE;
      if next != kbTail {
        kbBuf[kbHead] := c;
        kbHead := next;
        accepted := accepted + [c];
        assert View() == Alone(r, Irq(c), 5);
      }
    }

    /** A whole pop has the effect of the consumer's steps taken one after the other, in either order of the first
        two reads. */
    method Pop() returns (got: bool, c: char)
      requires Valid()
      modifies this
      ensures Valid()
      ensures View() == Alone(old(View()), Cpu(false), if Queue(old(View())) == [] then 2 else 6)
      ensures View() == Alone(old(View()), Cpu(true), if Queue(old(View())) == [] then 2 else 6)
      ensures got <==> Queue(old(View())) != []
      ensures got ==> c == Queue(old(View()))[0] && delivered == old(delivered) + [c]
      ensures !got ==> delivered == old(delivered) == accepted
      ensures accepted == old(accepted)
    {
      ghost var r := View();
      PopAlone(r, false);
      PopAlone(r, true);
      EmptyIffMet(r);
      c := '\0';
      if kbHead == kbTail {
        return false, c;
      }
      assert Stored(r, |r.delivered|);
      c := kbBuf[kbTail];
      kbTail := (kbTail + 1) % KB_BUF_SIZE;
      delivered := delivered + [c];
      got := true;
    }
  }

  lemma FullIffHit(r: Ring)
    requires Inv(r)
    ensures |Queue(r)| == KB_BUF_SIZE - 1 <==> (r.head + 1) % KB_BUF_SIZE == r.tail
  {
    NextSlot(|r.accepted|);
    FullRing(|r.delivered|);
    if |Queue(r)| < KB_BUF_SIZE - 1 { SlotsDiffer(|r.delivered|, |r.accepted| + 1); }
  }

  lemma EmptyIffMet(r: Ring)
    requires Inv(r)
    ensures Queue(r) == [] <==> r.head == r.tail
  {
    if Queue(r) != [] { SlotsDiffer(|r.delivered|, |r.accepted|); }
  }

  /** Interrupts that arrive while the processor is halted. */
  method TakeInterrupts(kb: Keyboard, keys: seq<char>)
    requires kb.Valid()
    modifies kb, kb.kbBuf
    ensures kb.Valid() && old(kb.accepted) <= kb.accepted && kb.delivered == old(kb.delivered)
  {
    for k := 0 to |keys|
      invariant kb.Valid() && old(kb.accepted) <= kb.accepted && kb.delivered == old(kb.delivered)
    {
      kb.Push(keys[k]);
    }
  }

  /** The inner wait of sys_read: pops until a character is there, halting in between. */
  method Await(kb: Keyboard, wakeups: seq<seq<char>>, used: nat) returns (got: bool, c: char, w: nat)
    requires kb.Valid() && used <= |wakeups|
    modifies kb, kb.kbBuf
    ensures kb.Valid() && used <= w <= |wakeups|
    ensures old(kb.accepted) <= kb.accepted
    ensures got ==> kb.delivered == old(kb.delivered) + [c]
    ensures !got ==> kb.delivered == old(kb.delivered) == kb.accepted && w == |wakeups|
    ensures |old(kb.delivered)| < |old(kb.accepted)| ==> got && w == used
  {
    w := used;
    got, c := kb.Pop();
    while !got
      invariant kb.Valid() && used <= w <= |wakeups|
      invariant old(kb.accepted) <= kb.accepted
      invariant got ==> kb.delivered == old(kb.delivered) + [c]
      invariant !got ==> kb.delivered == old(kb.delivered) == kb.accepted
      invariant |old(kb.delivered)| < |old(kb.accepted)| ==> got && w == used
      decreases !got, |wakeups| - w
    {
      if w == |wakeups| {
        return;
      }
      TakeInterrupts(kb, wakeups[w]);
      w := w + 1;
      got, c := kb.Pop();
    }
  }

  /** sys_read: for descriptor 0, fills buf with the next count characters, halting whenever the ring is empty;
      wakeups[k] are the keys whose interrupts end the k-th halt. `blocked` says that the halts outlasted them. */
  method SysRead(kb: Keyboard, fd: int, buf: array<char>, count: nat, wakeups: seq<seq<char>>)
    returns (rax: int, blocked: bool, filled: nat)
    requires kb.Valid() && count <= buf.Length && buf != kb.kbBuf
    modifies kb, kb.kbBuf, buf
    ensures kb.Valid()
    ensures fd != 0 ==> rax == 0xFFFF_FFFF_FFFF_FFFF && !blocked
    ensures fd != 0 ==> kb.View() == old(kb.View()) && buf[..] == old(buf[..])
    ensures fd == 0 ==> old(kb.accepted) <= kb.accepted && filled <= count
    ensures fd == 0 ==> kb.delivered == old(kb.delivered) + buf[..filled]
    ensures fd == 0 ==> buf[filled..] == old(buf[filled..])
    ensures blocked ==> kb.delivered == kb.accepted
    ensures fd == 0 && !blocked ==> rax == count == filled
    ensures fd == 0 && |old(kb.delivered)| + count <= |old(kb.accepted)| ==> !blocked
  {
    blocked, filled := false, 0;
    if fd != 0 {
      return ERROR, false, 0;
    }
    var i, w := 0, 0;
    while i < count
      invariant kb.Valid() && i <= count && w <= |wakeups|
      invariant old(kb.accepted) <= kb.accepted
      invariant kb.delivered == old(kb.delivered) + buf[..i]
      invariant buf[i..] == old(buf[i..])
    {
      var got, c;
      got, c, w := Await(kb, wakeups, w);
      if !got {
        return 0, true, i;
      }
      buf[i] := c;
      i := i + 1;
      assert buf[..i] == buf[..i - 1] + [c];
    }
    return i, false, i;
  }
}
