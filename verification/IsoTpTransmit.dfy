/** The transmit side over whole runs: what is on the bus, how many frames a clear-to-send releases
    and how many of them a message needs. */
module IsoTpTransmit {
  import opened Words
  import opened IsoTpCodec
  import opened IsoTpMachine

  /** The data frames on the bus since the last first frame. */
  function Current(log: seq<CanFrame>): seq<CanFrame> {
    if log == [] then []
    else
      var f := log[|log| - 1];
      if PciType(f) == FIRST then [f]
      else if PciType(f) == CONSECUTIVE then Current(log[..|log| - 1]) + [f]
      else Current(log[..|log| - 1])
  }

  predicate StartsTransfer(ev: Event) {
    ev.Send? && 8 <= |ev.message| <= MAX_PAYLOAD && ev.room > 0
  }

  /** The message of the latest `send` whose first frame went out. */
  function LastMessage(evs: seq<Event>): (m: Option<seq<Byte>>)
    ensures m.Some? ==> 8 <= |m.value| <= MAX_PAYLOAD
  {
    if evs == [] then None
    else if StartsTransfer(evs[|evs| - 1]) then Some(evs[|evs| - 1].message)
    else LastMessage(evs[..|evs| - 1])
  }

  /** The data frames `current` are the first frame of the message and its consecutive frames in
      order, as many as the transmit side believes to have sent while the transfer is open. */
  ghost predicate InStep(cfg: Config, tx: Transmission, message: Option<seq<Byte>>, current: seq<CanFrame>) {
    match message
    case None => tx.Quiet? && current == []
    case Some(m) =>
      && 8 <= |m| <= MAX_PAYLOAD
      && 1 <= |current| <= CfCount(|m|) + 1 && current == Wire(cfg.txId, m, |current| - 1)
      && (!tx.Quiet? ==> tx.message == m && tx.cfs == |current| - 1)
  }

  lemma CurrentSnoc(log: seq<CanFrame>, f: CanFrame)
    ensures Current(log + [f]) ==
            if PciType(f) == FIRST then [f]
            else if PciType(f) == CONSECUTIVE then Current(log) + [f]
            else Current(log)
  {
    hide PciType;
    assert (log + [f])[..|log|] == log;
  }

  lemma {:induction false} CurrentAppend(log: seq<CanFrame>, id: nat, m: seq<Byte>, from: nat, to: nat)
    requires 8 <= |m| <= MAX_PAYLOAD && from <= to <= CfCount(|m|)
    requires Current(log) == Wire(id, m, from)
    ensures Current(log + CfRange(id, m, from, to)) == Wire(id, m, to)
    decreases |CfRange(id, m, from, to)|
  {
    hide ConsecutiveFrame, CfCount, FirstFrame, Wire, CfRange, PciType;
    if from == to {
      assert CfRange(id, m, from, to) == [];
      assert log + [] == log;
    } else {
      var f := ConsecutiveFrame(id, m, to);
      CurrentAppend(log, id, m, from, to - 1);
      CfRangeSnoc(id, m, from, to - 1);
      assert log + CfRange(id, m, from, to) == log + CfRange(id, m, from, to - 1) + [f];
      CurrentSnoc(log + CfRange(id, m, from, to - 1), f);
      CfShape(id, m, to);
      WireSnoc(id, m, to);
    }
  }

  /** What a control frame does to an open transfer: it releases the next frames, in order. */
  lemma ControlSends(cfg: Config, t: Transmission, f: CanFrame, now: Tick, room: nat)
    requires t.Valid()
    ensures var o := OnFlowControl(cfg, t, f, now, room);
            || (o.sent == [] && (o.tx == t || (t.Waiting? && o.tx.Waiting? && o.tx == t.(deadline := o.tx.deadline))))
            || (&& t.Waiting?
                && var to := if o.tx.Quiet? then CfCount(|t.message|) else o.tx.cfs;
                && t.cfs <= to <= CfCount(|t.message|) && o.sent == CfRange(cfg.txId, t.message, t.cfs, to)
                && (!o.tx.Quiet? ==> o.tx.message == t.message))
  {
    hide CfRange, CfCount;
  }

  lemma InStepControl(cfg: Config, t: Transmission, f: CanFrame, now: Tick, room: nat,
                      message: Option<seq<Byte>>, log: seq<CanFrame>)
    requires t.Valid() && InStep(cfg, t, message, Current(log))
    ensures var o := OnFlowControl(cfg, t, f, now, room); InStep(cfg, o.tx, message, Current(log + o.sent))
  {
    hide OnFlowControl, CfRange, CfCount, Wire, Current;
    var o := OnFlowControl(cfg, t, f, now, room);
    assert log + [] == log;
    ControlSends(cfg, t, f, now, room);
    if o.sent != [] {
      var to := if o.tx.Quiet? then CfCount(|t.message|) else o.tx.cfs;
      CurrentAppend(log, cfg.txId, t.message, t.cfs, to);
    }
  }

  lemma InStepSend(cfg: Config, t: Transmission, m: seq<Byte>, now: Tick, room: nat,
                   message: Option<seq<Byte>>, log: seq<CanFrame>)
    requires t.Valid() && InStep(cfg, t, message, Current(log))
    ensures var o := OnSend(cfg, t, m, now, room);
            InStep(cfg, o.tx, if StartsTransfer(Send(m, now, room)) then Some(m) else message, Current(log + o.sent))
  {
    hide Current, CfRange;
    var o := OnSend(cfg, t, m, now, room);
    assert log + [] == log;
    if o.sent != [] {
      CurrentSnoc(log, o.sent[0]);
      if |m| > 7 {
        FirstFrameLengthRoundTrip(cfg.txId, m);
        assert CfRange(cfg.txId, m, 0, 0) == [];
      }
    }
  }

  /** The receive side puts no data frame on the bus: its flow control reads as a single frame. */
  lemma ReceivingSendsNoData(cfg: Config, r: Reassembly, f: CanFrame, now: Tick, room: nat, log: seq<CanFrame>)
    requires r.Valid() && IsData(cfg, f)
    ensures Current(log + RxFrame(cfg, r, f, now, room).sent) == Current(log)
  {
    hide Current;
    assert log + [] == log;
    EmittedFlowControlType(cfg.txId, CTS, cfg.blockSize, cfg.stMin);
    CurrentSnoc(log, EmittedFlowControl(cfg.txId, CTS, cfg.blockSize, cfg.stMin));
  }

  lemma InStepStep(cfg: Config, e: Endpoint, ev: Event, message: Option<seq<Byte>>, log: seq<CanFrame>)
    requires e.Valid() && InStep(cfg, e.tx, message, Current(log))
    ensures var o := Step(cfg, e, ev);
            InStep(cfg, o.next.tx, if StartsTransfer(ev) then Some(ev.message) else message, Current(log + o.sent))
  {
    hide RxFrame, OnFlowControl, OnSend, Current, CfCount, Wire;
    assert log + [] == log;
    match ev
    case Receive(f, now, room) =>
      if IsData(cfg, f) {
        ReceivingSendsNoData(cfg, e.rx, f, now, room, log);
      } else if IsControl(cfg, f) {
        InStepControl(cfg, e.tx, f, now, room, message, log);
      }
    case Send(m, now, room) => InStepSend(cfg, e.tx, m, now, room, message, log);
    case _ =>
  }

  lemma {:induction false} SentIsInStep(cfg: Config, e: Endpoint, evs: seq<Event>)
    requires e.Valid() && e.tx == Quiet
    ensures InStep(cfg, Run(cfg, e, evs).tx, LastMessage(evs), Current(Sent(cfg, e, evs)))
  {
    hide Step, InStep;
    if evs == [] {
      InStepAtStart(cfg);
    } else {
      var before, ev := evs[..|evs| - 1], evs[|evs| - 1];
      SentIsInStep(cfg, e, before);
      InStepStep(cfg, Run(cfg, e, before), ev, LastMessage(before), Sent(cfg, e, before));
    }
  }

  lemma InStepAtStart(cfg: Config)
    ensures InStep(cfg, Quiet, None, [])
  {}

  /** In every run the data frames since the last first frame are that message's own frames, in
      order and without a gap, so they spell exactly its first bytes, and the k-th consecutive frame
      carries sequence number k modulo 16. */
  lemma SentSpellsMessage(cfg: Config, e: Endpoint, evs: seq<Event>)
    requires e.Valid() && e.tx == Quiet
    ensures var current, message, tx := Current(Sent(cfg, e, evs)), LastMessage(evs), Run(cfg, e, evs).tx;
            && (forall f <- current :: f.dlc >= 1)
            && (message == None ==> current == [] && tx.Quiet?)
            && (message.Some? ==>
                  && 1 <= |current| <= CfCount(|message.value|) + 1
                  && Spelled(current) == message.value[..Offset(|message.value|, |current| - 1)]
                  && PciType(current[0]) == FIRST
                  && (forall k | 1 <= k < |current| ::
                        PciType(current[k]) == CONSECUTIVE && PciLow(current[k]) == k % 16)
                  && (!tx.Quiet? ==> tx.message == message.value && tx.cfs == |current| - 1))
  {
    hide Step, Run, Sent, CfCount, Offset, ConsecutiveFrame, FirstFrame, Spelled, Current, PciType, PciLow;
    var current := Current(Sent(cfg, e, evs));
    SentIsInStep(cfg, e, evs);
    if LastMessage(evs).Some? {
      var m := LastMessage(evs).value;
      WireSpells(cfg.txId, m, |current| - 1);
      FirstFrameLengthRoundTrip(cfg.txId, m);
      forall k | 1 <= k < |current|
        ensures PciType(current[k]) == CONSECUTIVE && PciLow(current[k]) == k % 16
      {
        CfShape(cfg.txId, m, k);
      }
    }
  }

  lemma BurstType(cfg: Config, t: Transmission, f: CanFrame, now: Tick, room: nat, g: CanFrame)
    requires t.Valid() && g in OnFlowControl(cfg, t, f, now, room).sent
    ensures PciType(g) == CONSECUTIVE
  {
    hide ConsecutiveFrame, PciType;
    forall k | 1 <= k <= (if t.Quiet? then 0 else CfCount(|t.message|))
      ensures PciType(ConsecutiveFrame(cfg.txId, t.message, k)) == CONSECUTIVE
    {
      CfShape(cfg.txId, t.message, k);
    }
  }

  // ---- Block sizes ----

  predicate IsCts(cfg: Config, ev: Event) {
    ev.Receive? && IsControl(cfg, ev.frame) && ev.frame.dlc >= 3 && PciLow(ev.frame) == CTS
  }

  function CfsIn(log: seq<CanFrame>): nat {
    if log == [] then 0
    else CfsIn(log[..|log| - 1]) + if PciType(log[|log| - 1]) == CONSECUTIVE then 1 else 0
  }

  lemma {:induction false} CfsInAppend(a: seq<CanFrame>, b: seq<CanFrame>)
    ensures CfsIn(a + b) == CfsIn(a) + CfsIn(b)
    ensures CfsIn(b) <= |b|
    decreases |b|
  {
    hide PciType;
    if b == [] {
      assert a + b == a;
    } else {
      CfsInAppend(a, b[..|b| - 1]);
      assert (a + b)[..|a + b| - 1] == a + b[..|b| - 1];
    }
  }

  lemma StepCfs(cfg: Config, e: Endpoint, ev: Event)
    requires e.Valid()
    ensures !IsCts(cfg, ev) ==> CfsIn(Step(cfg, e, ev).sent) == 0
    ensures IsCts(cfg, ev) && ev.frame.data[1] != 0 ==> CfsIn(Step(cfg, e, ev).sent) <= ev.frame.data[1]
  {
    hide CfsIn, CfRange, CfCount, SingleFrame, FirstFrame, EmittedFlowControl, Spelled;
    var sent := Step(cfg, e, ev).sent;
    CfsInAppend([], sent);
    assert CfsIn([]) == 0 by { CfsInEmpty(); }
    if ev.Receive? {
      EmittedFlowControlType(cfg.txId, CTS, cfg.blockSize, cfg.stMin);
      if sent != [] && !IsCts(cfg, ev) {
        CfsInOne(sent[0]);
      }
    } else if ev.Send? && sent != [] {
      CfsInOne(sent[0]);
      SendsNoCf(cfg, e.tx, ev.message, ev.now, ev.room);
    }
  }

  lemma CfsInEmpty()
    ensures CfsIn([]) == 0
  {}

  lemma CfsInOne(f: CanFrame)
    ensures CfsIn([f]) == if PciType(f) == CONSECUTIVE then 1 else 0
  {
    hide PciType;
    assert [f][..0] == [];
  }

  lemma SendsNoCf(cfg: Config, t: Transmission, m: seq<Byte>, now: Tick, room: nat)
    ensures forall f <- OnSend(cfg, t, m, now, room).sent :: PciType(f) != CONSECUTIVE
  {
    if 8 <= |m| <= MAX_PAYLOAD {
      FirstFrameLengthRoundTrip(cfg.txId, m);
    }
  }

  /** After a clear-to-send with block size bs > 0, at most bs consecutive frames leave before the
      next clear-to-send, whatever else happens. */
  lemma {:induction false} BlockLimit(cfg: Config, e: Endpoint, cts: Event, evs: seq<Event>)
    requires e.Valid() && IsCts(cfg, cts) && cts.frame.data[1] != 0
    requires forall ev <- evs :: !IsCts(cfg, ev)
    ensures CfsIn(Sent(cfg, e, [cts] + evs)) <= cts.frame.data[1]
    decreases |evs|
  {
    hide Step, IsCts, CfsIn;
    if evs == [] {
      assert [cts] + evs == [] + [cts];
      RunSnoc(cfg, e, [], cts);
      StepCfs(cfg, e, cts);
      assert Sent(cfg, e, []) == [];
      assert [] + Step(cfg, e, cts).sent == Step(cfg, e, cts).sent;
    } else {
      var init, ev := evs[..|evs| - 1], evs[|evs| - 1];
      BlockLimit(cfg, e, cts, init);
      assert [cts] + evs == ([cts] + init) + [ev];
      RunSnoc(cfg, e, [cts] + init, ev);
      StepCfs(cfg, Run(cfg, e, [cts] + init), ev);
      CfsInAppend(Sent(cfg, e, [cts] + init), Step(cfg, Run(cfg, e, [cts] + init), ev).sent);
    }
  }
}
