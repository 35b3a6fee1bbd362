/** The CAN driver's receive ring: `on_rx_irq` puts frames in, `receive` takes them out in several
    steps between which the interrupt may run. */
module RxRing {
  import opened Words

  /** A frame is copied word by word; the interrupt writes a whole slot, because the main loop cannot
      run inside it. */
  type Slot<W> = seq<W>

  /** Where the main loop is inside `receive`: not in it, holding the tail index it loaded, or
      copying the slot at that index. */
  datatype Phase<W> =
    | Outside
    | Loaded(at: nat)
    | Copying(at: nat, copied: Slot<W>)

  datatype Ring<W> = Ring(buf: seq<Slot<W>>, head: nat, tail: nat, phase: Phase<W>)

  datatype Event<W> =
    | Irq(frame: Slot<W>)
    | Main

  datatype Outcome<W> = Outcome(next: Ring<W>, accepted: seq<Slot<W>>, delivered: seq<Slot<W>>, foundEmpty: bool)

  /** The index after `i` in a ring of `n` slots. */
  function Next(i: nat, n: nat): nat
    requires n > 0
  {
    (i + 1) % n
  }

  lemma NextWraps(i: nat, n: nat)
    requires i < n
    ensures Next(i, n) == if i + 1 == n then 0 else i + 1
  {}

  predicate Indexed<W>(r: Ring<W>) { |r.buf| >= 2 && r.head < |r.buf| && r.tail < |r.buf| }

  /** `k` is the number of words in a frame; what has been copied agrees with the slot. */
  ghost predicate Consistent<W>(r: Ring<W>, k: nat)
    requires Indexed(r)
  {
    && (forall i | 0 <= i < |r.buf| :: |r.buf[i]| == k)
    && match r.phase
       case Outside => true
       case Loaded(at) => at == r.tail
       case Copying(at, copied) =>
         at == r.tail && r.head != r.tail && |copied| <= k && copied == r.buf[at][..|copied|]
  }

  ghost predicate Valid<W>(r: Ring<W>, k: nat) { Indexed(r) && Consistent(r, k) }

  predicate Fits<W>(ev: Event<W>, k: nat) { ev.Irq? ==> |ev.frame| == k }

  function OnIrq<W>(r: Ring<W>, frame: Slot<W>): Outcome<W>
    requires r.head < |r.buf|
  {
    var next := Next(r.head, |r.buf|);
    if next != r.tail then Outcome(r.(buf := r.buf[r.head := frame], head := next), [frame], [], false)
    else Outcome(r, [], [], false)
  }

  function OnMain<W>(r: Ring<W>): Outcome<W>
    requires |r.buf| >= 1 && (r.phase.Copying? ==> r.phase.at < |r.buf|)
  {
    match r.phase
    case Outside => Outcome(r.(phase := Loaded(r.tail)), [], [], false)
    case Loaded(at) =>
      if r.head == at then Outcome(r.(phase := Outside), [], [], true)
      else Outcome(r.(phase := Copying(at, [])), [], [], false)
    case Copying(at, copied) =>
      if |copied| < |r.buf[at]| then
        Outcome(r.(phase := Copying(at, copied + [r.buf[at][|copied|]])), [], [], false)
      else Outcome(r.(tail := Next(at, |r.buf|), phase := Outside), [], [copied], false)
  }

  function Step<W>(r: Ring<W>, k: nat, ev: Event<W>): Outcome<W>
    requires Valid(r, k)
  {
    match ev
    case Irq(frame) => OnIrq(r, frame)
    case Main => OnMain(r)
  }

  /** The frames in the ring, oldest first. A frame stays here until the tail moves past it. */
  function Queue<W>(r: Ring<W>): seq<Slot<W>>
    requires Indexed(r)
  {
    Between(r.buf, r.tail, r.head)
  }

  /** The slots from `tail` up to `head`, around the end if need be. */
  function Between<W>(buf: seq<Slot<W>>, tail: nat, head: nat): seq<Slot<W>>
    requires head < |buf| && tail < |buf|
  {
    if tail <= head then buf[tail..head] else buf[tail..] + buf[..head]
  }

  lemma BetweenPush<W>(buf: seq<Slot<W>>, tail: nat, head: nat, frame: Slot<W>)
    requires head < |buf| && tail < |buf|
    ensures |Between(buf, tail, head)| == |buf| - 1 <==> Next(head, |buf|) == tail
    ensures |Between(buf, tail, head)| <= |buf| - 1
    ensures Next(head, |buf|) != tail ==>
              Between(buf[head := frame], tail, Next(head, |buf|)) == Between(buf, tail, head) + [frame]
  {
    hide Next;
    NextWraps(head, |buf|);
  }

  lemma BetweenPop<W>(buf: seq<Slot<W>>, tail: nat, head: nat)
    requires head < |buf| && tail < |buf| && head != tail
    ensures Between(buf, tail, head) == [buf[tail]] + Between(buf, Next(tail, |buf|), head)
  {
    hide Next;
    NextWraps(tail, |buf|);
    if tail + 1 == |buf| {
      assert buf[tail..] == [buf[tail]];
      assert buf[0..head] == buf[..head];
    } else if tail < head {
      assert buf[tail..head] == [buf[tail]] + buf[tail + 1..head];
    } else {
      assert buf[tail..] == [buf[tail]] + buf[tail + 1..];
      assert ([buf[tail]] + buf[tail + 1..]) + buf[..head] == [buf[tail]] + (buf[tail + 1..] + buf[..head]);
    }
  }

  /** The interrupt enqueues at the end of a first-in first-out queue of |buf| - 1 frames, and drops a
      frame exactly when that queue is full. The slot that is being copied keeps its content. */
  lemma IrqRefines<W>(r: Ring<W>, k: nat, frame: Slot<W>)
    requires Valid(r, k) && |frame| == k
    ensures var o := OnIrq(r, frame);
            && Valid(o.next, k) && |o.next.buf| == |r.buf| && o.next.phase == r.phase && o.next.tail == r.tail
            && (|Queue(r)| < |r.buf| - 1 ==> o.accepted == [frame] && Queue(o.next) == Queue(r) + [frame])
            && (|Queue(r)| == |r.buf| - 1 ==> o.accepted == [] && o.next == r)
            && |Queue(r)| <= |r.buf| - 1 && o.delivered == []
            && (r.head != r.tail ==> o.next.head != r.tail && o.next.buf[r.tail] == r.buf[r.tail])
  {
    hide Next, Between;
    BetweenPush(r.buf, r.tail, r.head, frame);
    NextWraps(r.head, |r.buf|);
  }

  /** The steps of `receive` leave the queue alone until the last one, which takes the oldest frame
      from it and hands it over whole; a receive that reports nothing saw an empty queue. */
  lemma MainRefines<W>(r: Ring<W>, k: nat)
    requires Valid(r, k)
    ensures var o := OnMain(r);
            && Valid(o.next, k) && |o.next.buf| == |r.buf| && o.accepted == []
            && (o.delivered == [] ==> o.next == r.(phase := o.next.phase))
            && (o.delivered != [] ==>
                  && o.delivered == [r.buf[r.tail]] && o.next.phase.Outside?
                  && Queue(r) == o.delivered + Queue(o.next))
            && (o.foundEmpty ==> Queue(r) == [])
  {
    NextWraps(r.tail, |r.buf|);
    assert r.buf[r.tail][..|r.buf[r.tail]|] == r.buf[r.tail];
    if r.head != r.tail {
      BetweenPop(r.buf, r.tail, r.head);
    }
    hide Next;
  }

  lemma StepRefines<W>(r: Ring<W>, k: nat, ev: Event<W>)
    requires Valid(r, k) && Fits(ev, k)
    ensures var o := Step(r, k, ev);
            && Valid(o.next, k) && |o.next.buf| == |r.buf|
            && Queue(r) + o.accepted == o.delivered + Queue(o.next)
            && |Queue(r)| <= |r.buf| - 1
            && (ev.Irq? ==> (o.accepted == [] <==> |Queue(r)| == |r.buf| - 1))
  {
    hide OnIrq, OnMain, Between, Consistent;
    var o := Step(r, k, ev);
    QueueFits(r, k);
    match ev
    case Irq(frame) =>
      IrqRefines(r, k, frame);
      assert Queue(r) + [] == [] + Queue(r);
      assert [] + Queue(o.next) == Queue(o.next);
    case Main =>
      MainRefines(r, k);
      assert Queue(r) + [] == Queue(r) && [] + Queue(r) == Queue(r);
  }

  lemma QueueFits<W>(r: Ring<W>, k: nat)
    requires Valid(r, k)
    ensures |Queue(r)| <= |r.buf| - 1
  {}

  function Run<W>(r: Ring<W>, k: nat, evs: seq<Event<W>>): (last: Ring<W>)
    requires Valid(r, k) && forall ev <- evs :: Fits(ev, k)
    ensures Valid(last, k) && |last.buf| == |r.buf|
  {
    if evs == [] then r
    else
      var prior := Run(r, k, evs[..|evs| - 1]);
      StepRefines(prior, k, evs[|evs| - 1]);
      Step(prior, k, evs[|evs| - 1]).next
  }

  function Accepted<W>(r: Ring<W>, k: nat, evs: seq<Event<W>>): seq<Slot<W>>
    requires Valid(r, k) && forall ev <- evs :: Fits(ev, k)
  {
    if evs == [] then []
    else
      var before := evs[..|evs| - 1];
      Accepted(r, k, before) + Step(Run(r, k, before), k, evs[|evs| - 1]).accepted
  }

  function Delivered<W>(r: Ring<W>, k: nat, evs: seq<Event<W>>): seq<Slot<W>>
    requires Valid(r, k) && forall ev <- evs :: Fits(ev, k)
  {
    if evs == [] then []
    else
      var before := evs[..|evs| - 1];
      Delivered(r, k, before) + Step(Run(r, k, before), k, evs[|evs| - 1]).delivered
  }

  /** In every interleaving of interrupts with the steps of `receive`, the accepted frames are
      delivered once each, complete and in order, and the rest are those still in the ring. */
  lemma {:induction false} RingIsFifo<W>(r: Ring<W>, k: nat, evs: seq<Event<W>>)
    requires Valid(r, k) && forall ev <- evs :: Fits(ev, k)
    ensures Queue(r) + Accepted(r, k, evs) == Delivered(r, k, evs) + Queue(Run(r, k, evs))
    ensures |Queue(Run(r, k, evs))| <= |r.buf| - 1
  {
    hide Consistent, Step, Queue;
    if evs == [] {
      assert Queue(r) + [] == [] + Queue(r);
      QueueFits(r, k);
    } else {
      var before, ev := evs[..|evs| - 1], evs[|evs| - 1];
      RingIsFifo(r, k, before);
      StepRefines(Run(r, k, before), k, ev);
      QueueFits(Run(r, k, evs), k);
      var a, d, o := Accepted(r, k, before), Delivered(r, k, before), Step(Run(r, k, before), k, ev);
      calc {
        Queue(r) + (a + o.accepted);
        (Queue(r) + a) + o.accepted;
        (d + Queue(Run(r, k, before))) + o.accepted;
        d + (Queue(Run(r, k, before)) + o.accepted);
        d + (o.delivered + Queue(o.next));
        (d + o.delivered) + Queue(o.next);
      }
    }
  }

  function MainSteps<W>(evs: seq<Event<W>>): nat {
    if evs == [] then 0 else MainSteps(evs[..|evs| - 1]) + if evs[|evs| - 1].Main? then 1 else 0
  }

  lemma HeadOfQueue<W>(r: Ring<W>)
    requires Indexed(r) && r.head != r.tail
    ensures Queue(r) != [] && Queue(r)[0] == r.buf[r.tail]
  {}

  /** Interrupts cannot hold up a receive: begun on a non-empty ring, it delivers the oldest frame
      after exactly k + 3 of its own steps, however many interrupts come between them. */
  lemma {:induction false} ReceiveIsWaitFree<W>(r: Ring<W>, k: nat, evs: seq<Event<W>>)
    requires Valid(r, k) && r.phase.Outside? && r.head != r.tail && MainSteps(evs) <= k + 3
    requires forall ev <- evs :: Fits(ev, k)
    ensures var c, last := MainSteps(evs), Run(r, k, evs);
            && (c < k + 3 ==>
                  && Delivered(r, k, evs) == [] && last.tail == r.tail && last.head != last.tail
                  && last.buf[r.tail] == r.buf[r.tail])
            && (c == 0 ==> last.phase == Outside)
            && (c == 1 ==> last.phase == Loaded(r.tail))
            && (2 <= c < k + 3 ==> last.phase.Copying? && |last.phase.copied| == c - 2)
            && (c == k + 3 ==> Delivered(r, k, evs) == [Queue(r)[0]] && last.phase == Outside)
  {
    hide Between, Next;
    HeadOfQueue(r);
    if evs != [] {
      var before, ev := evs[..|evs| - 1], evs[|evs| - 1];
      ReceiveIsWaitFree(r, k, before);
      var prior := Run(r, k, before);
      assert Fits(ev, k);
      if ev.Irq? {
        IrqRefines(prior, k, ev.frame);
      } else {
        MainRefines(prior, k);
      }
    }
  }

  /** The ring of the driver, with what `receive` holds in its local variables. */
  class CanRing<W(0)> {
    const slots: array<Slot<W>>
    var rxHead: nat
    var rxTail: nat
    var phase: Phase<W>

    ghost predicate InUse(k: nat)
      reads this, slots
    {
      Valid(Ring(slots[..], rxHead, rxTail, phase), k)
    }

    ghost function View(): Ring<W>
      reads this, slots
    {
      Ring(slots[..], rxHead, rxTail, phase)
    }

    constructor (n: nat, blank: Slot<W>)
      requires n >= 2
      ensures InUse(|blank|) && slots.Length == n && fresh(slots)
      ensures Queue(View()) == [] && phase == Outside
    {
      slots := new Slot<W>[n](_ => blank);
      rxHead, rxTail, phase := 0, 0, Outside;
    }

    method OnRxIrq(frame: Slot<W>, ghost k: nat)
      requires InUse(k) && |frame| == k
      modifies `rxHead, slots
      ensures View() == OnIrq(old(View()), frame).next && InUse(k)
      ensures old(|Queue(View())|) < slots.Length - 1 ==> Queue(View()) == old(Queue(View())) + [frame]
      ensures old(|Queue(View())|) == slots.Length - 1 ==> View() == old(View())
    {
      IrqRefines(View(), k, frame);
      var next := Next(rxHead, slots.Length);
      if next != rxTail {
        slots[rxHead] := frame;
        rxHead := next;
      }
    }

    /** The next step of `receive`: load the tail, compare it with the head, copy one word, or move
        the tail. Returns the frame when it is complete, and whether the ring was found empty. */
    method Advance(ghost k: nat) returns (frame: Option<Slot<W>>, foundEmpty: bool)
      requires InUse(k)
      modifies `rxTail, `phase
      ensures var o := OnMain(old(View()));
              && View() == o.next && foundEmpty == o.foundEmpty
              && o.delivered == if frame.Some? then [frame.value] else []
      ensures InUse(k)
    {
      MainRefines(View(), k);
      frame, foundEmpty := None, false;
      match phase
      case Outside => phase := Loaded(rxTail);
      case Loaded(at) =>
        if rxHead == at {
          phase, foundEmpty := Outside, true;
        } else {
          phase := Copying(at, []);
        }
      case Copying(at, copied) =>
        if |copied| < |slots[at]| {
          phase := Copying(at, copied + [slots[at][|copied|]]);
        } else {
          rxTail, phase := Next(at, slots.Length), Outside;
          frame := Some(copied);
        }
    }

    /** `receive` when nothing interrupts it: the oldest frame, or nothing if there is none. */
    method Receive(ghost k: nat) returns (frame: Option<Slot<W>>)
      requires InUse(k) && phase == Outside
      modifies `rxTail, `phase
      ensures InUse(k) && phase == Outside
      ensures old(Queue(View())) == [] ==> frame == None && View() == old(View())
      ensures old(Queue(View())) != [] ==>
                frame == Some(old(Queue(View()))[0]) && Queue(View()) == old(Queue(View()))[1..]
    {
      ghost var q := Queue(View());
      MainRefines(View(), k);
      var empty;
      frame, empty := Advance(k);
      MainRefines(View(), k);
      frame, empty := Advance(k);
      if empty {
        return;
      }
      while frame == None
        invariant InUse(k)
        invariant frame == None ==> phase.Copying? && Queue(View()) == q
        invariant frame.Some? ==> phase == Outside && q == [frame.value] + Queue(View())
        decreases if frame.Some? then 0 else 1 + k - |phase.copied|
      {
        MainRefines(View(), k);
        frame, empty := Advance(k);
      }
    }
  }
}
