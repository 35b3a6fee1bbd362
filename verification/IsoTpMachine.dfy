/** The ISO-TP endpoint as two state machines over values: reassembly of what arrives and
    transmission of what is sent. `IsoTpEndpoint.IsoTp` is proved against these steps. */
module IsoTpMachine {
  import opened Words
  import opened IsoTpCodec

  datatype Result = Ok | Pending | Error | Timeout | Overflow | WrongSN

  datatype Config = Config(rxId: nat, txId: nat, blockSize: Byte, stMin: Byte, nBs: Tick, nCr: Tick)

  /** What the receive side knows: the bytes gathered for a message of `expected` bytes and the
      sequence number it waits for, or a message ready to be read. */
  datatype Reassembly =
    | Idle
    | Partial(expected: nat, got: seq<Byte>, sn: nat, deadline: Tick)
    | Complete(payload: seq<Byte>)
  {
    predicate Valid() {
      match this
      case Idle => true
      case Partial(expected, got, sn, _) => 6 <= |got| < expected <= 4095 && 8 <= expected && sn < 16
      case Complete(payload) => 1 <= |payload| <= 4095
    }
  }

  /** What the transmit side knows: the message and how many consecutive frames are out, either
      waiting for flow control or stuck since the CAN driver refused a frame. */
  datatype Transmission =
    | Quiet
    | Waiting(message: seq<Byte>, cfs: nat, deadline: Tick)
    | Stalled(message: seq<Byte>, cfs: nat)
  {
    predicate Valid() {
      Quiet? || (8 <= |message| <= MAX_PAYLOAD && cfs < CfCount(|message|))
    }
  }

  datatype Endpoint = Endpoint(rx: Reassembly, tx: Transmission) {
    predicate Valid() { rx.Valid() && tx.Valid() }
  }

  /** One call on the endpoint. `now` is the clock reading of the call and `room` the number of
      frames that the CAN driver accepts before it refuses one. */
  datatype Event =
    | Receive(frame: CanFrame, now: Tick, room: nat)
    | Send(message: seq<Byte>, now: Tick, room: nat)
    | Update(now: Tick)
    | Read(max: nat)

  datatype RxOutcome = RxOutcome(rx: Reassembly, result: Result, sent: seq<CanFrame>)

  datatype TxOutcome = TxOutcome(tx: Transmission, result: Result, sent: seq<CanFrame>)

  function OnSingle(r: Reassembly, f: CanFrame): RxOutcome
    requires f.dlc >= 1
  {
    if PciLow(f) == 0 || PciLow(f) > f.dlc - 1 then RxOutcome(r, Error, [])
    else RxOutcome(Complete(f.data[1..1 + PciLow(f)]), Ok, [])
  }

  function OnFirst(cfg: Config, r: Reassembly, f: CanFrame, now: Tick, room: nat): RxOutcome {
    if f.dlc < 8 || FirstFrameLength(f) < 8 then RxOutcome(r, Error, [])
    else
      RxOutcome(Partial(FirstFrameLength(f), FirstFrameBytes(f), 1, Wrap32(now + cfg.nCr)), Pending,
                if room == 0 then [] else [EmittedFlowControl(cfg.txId, CTS, cfg.blockSize, cfg.stMin)])
  }

  function OnConsecutive(cfg: Config, r: Reassembly, f: CanFrame, now: Tick): RxOutcome
    requires r.Valid() && f.dlc >= 1
  {
    if !r.Partial? then RxOutcome(r, Error, [])
    else if PciLow(f) != r.sn then RxOutcome(r, WrongSN, [])
    else
      var got := r.got + f.data[1..1 + Min(r.expected - |r.got|, f.dlc - 1)];
      if |got| == r.expected then RxOutcome(Complete(got), Ok, [])
      else RxOutcome(Partial(r.expected, got, (r.sn + 1) % 16, Wrap32(now + cfg.nCr)), Pending, [])
  }

  /** How many consecutive frames a clear-to-send with block size `bs` releases. */
  function Budget(left: nat, bs: Byte): nat {
    if bs == 0 then left else Min(bs, left)
  }

  /** The consecutive frames that follow a clear-to-send. */
  function Burst(cfg: Config, message: seq<Byte>, cfs: nat, bs: Byte, now: Tick, room: nat): TxOutcome
    requires 8 <= |message| <= MAX_PAYLOAD && cfs < CfCount(|message|)
  {
    var budget := Budget(CfCount(|message|) - cfs, bs);
    if room < budget then
      TxOutcome(Stalled(message, cfs + room), Error, CfRange(cfg.txId, message, cfs, cfs + room))
    else
      var frames := CfRange(cfg.txId, message, cfs, cfs + budget);
      if cfs + budget == CfCount(|message|) then TxOutcome(Quiet, Ok, frames)
      else TxOutcome(Waiting(message, cfs + budget, Wrap32(now + cfg.nBs)), Pending, frames)
  }

  function OnFlowControl(cfg: Config, t: Transmission, f: CanFrame, now: Tick, room: nat): TxOutcome
    requires t.Valid()
  {
    if !t.Waiting? || f.dlc < 3 then TxOutcome(t, Error, [])
    else if PciLow(f) == OVFL then TxOutcome(t, Overflow, [])
    else if PciLow(f) == WAIT then TxOutcome(t.(deadline := Wrap32(now + cfg.nBs)), Pending, [])
    else if PciLow(f) != CTS then TxOutcome(t, Error, [])
    else Burst(cfg, t.message, t.cfs, f.data[1], now, room)
  }

  function OnSend(cfg: Config, t: Transmission, message: seq<Byte>, now: Tick, room: nat): TxOutcome {
    if |message| == 0 || |message| > MAX_PAYLOAD || room == 0 then TxOutcome(t, Error, [])
    else if |message| <= 7 then TxOutcome(t, Ok, [SingleFrame(cfg.txId, message)])
    else TxOutcome(Waiting(message, 0, Wrap32(now + cfg.nBs)), Pending, [FirstFrame(cfg.txId, message)])
  }

  /** A deadline of 0 never expires. */
  predicate Expired(deadline: Tick, now: Tick) { 0 < deadline <= now }

  function RxUpdate(r: Reassembly, now: Tick): Reassembly {
    if r.Partial? && Expired(r.deadline, now) then Idle else r
  }

  function TxUpdate(t: Transmission, now: Tick): Transmission {
    if t.Waiting? && Expired(t.deadline, now) then Quiet else t
  }

  /** Frames that `process_frame` hands to the receive side and to the transmit side. */
  predicate Addressed(cfg: Config, f: CanFrame) { f.id == cfg.rxId && f.dlc >= 1 }

  predicate IsData(cfg: Config, f: CanFrame) { Addressed(cfg, f) && PciType(f) <= CONSECUTIVE }

  predicate IsControl(cfg: Config, f: CanFrame) { Addressed(cfg, f) && PciType(f) == FLOW_CONTROL }

  function RxFrame(cfg: Config, r: Reassembly, f: CanFrame, now: Tick, room: nat): RxOutcome
    requires r.Valid() && IsData(cfg, f)
  {
    if PciType(f) == SINGLE then OnSingle(r, f)
    else if PciType(f) == FIRST then OnFirst(cfg, r, f, now, room)
    else OnConsecutive(cfg, r, f, now)
  }

  /** Effect of one call: the new state, its result if it returns one, the frames put on the bus and
      the bytes given to the reader. */
  datatype Outcome = Outcome(next: Endpoint, result: Result, sent: seq<CanFrame>, delivered: seq<Byte>)

  function Step(cfg: Config, e: Endpoint, ev: Event): (o: Outcome)
    requires e.Valid()
    ensures o.next.Valid()
  {
    match ev
    case Receive(f, now, room) =>
      if IsData(cfg, f) then
        var o := RxFrame(cfg, e.rx, f, now, room);
        Outcome(e.(rx := o.rx), o.result, o.sent, [])
      else if IsControl(cfg, f) then
        var o := OnFlowControl(cfg, e.tx, f, now, room);
        Outcome(e.(tx := o.tx), o.result, o.sent, [])
      else Outcome(e, Error, [], [])
    case Send(message, now, room) =>
      var o := OnSend(cfg, e.tx, message, now, room);
      Outcome(e.(tx := o.tx), o.result, o.sent, [])
    case Update(now) =>
      Outcome(Endpoint(RxUpdate(e.rx, now), TxUpdate(e.tx, now)), Ok, [], [])
    case Read(max) =>
      if e.rx.Complete? then Outcome(e.(rx := Idle), Ok, [], e.rx.payload[..Min(max, |e.rx.payload|)])
      else Outcome(e, Ok, [], [])
  }

  const FRESH := Endpoint(Idle, Quiet)

  function Run(cfg: Config, e: Endpoint, evs: seq<Event>): (last: Endpoint)
    requires e.Valid()
    ensures last.Valid()
  {
    if evs == [] then e else Step(cfg, Run(cfg, e, evs[..|evs| - 1]), evs[|evs| - 1]).next
  }

  /** Every frame that the run put on the bus, in order. */
  function Sent(cfg: Config, e: Endpoint, evs: seq<Event>): seq<CanFrame>
    requires e.Valid()
  {
    if evs == [] then []
    else
      var before := evs[..|evs| - 1];
      Sent(cfg, e, before) + Step(cfg, Run(cfg, e, before), evs[|evs| - 1]).sent
  }

  /** Every non-empty message that the run gave to its reader, in order. */
  function Delivered(cfg: Config, e: Endpoint, evs: seq<Event>): seq<seq<Byte>>
    requires e.Valid()
  {
    if evs == [] then []
    else
      var before := evs[..|evs| - 1];
      var d := Step(cfg, Run(cfg, e, before), evs[|evs| - 1]).delivered;
      Delivered(cfg, e, before) + if d == [] then [] else [d]
  }

  lemma RunSnoc(cfg: Config, e: Endpoint, evs: seq<Event>, ev: Event)
    requires e.Valid()
    ensures var o := Step(cfg, Run(cfg, e, evs), ev);
            && Run(cfg, e, evs + [ev]) == o.next
            && Sent(cfg, e, evs + [ev]) == Sent(cfg, e, evs) + o.sent
            && Delivered(cfg, e, evs + [ev])
               == Delivered(cfg, e, evs) + if o.delivered == [] then [] else [o.delivered]
  {
    hide Step;
    assert (evs + [ev])[..|evs|] == evs;
  }

  lemma {:induction false} RunAppend(cfg: Config, e: Endpoint, a: seq<Event>, b: seq<Event>)
    requires e.Valid()
    ensures Run(cfg, e, a + b) == Run(cfg, Run(cfg, e, a), b)
    decreases |b|
  {
    hide Step;
    if b == [] {
      assert a + b == a;
    } else {
      RunAppend(cfg, e, a, b[..|b| - 1]);
      assert (a + b)[..|a + b| - 1] == a + b[..|b| - 1];
    }
  }

  /** What a run sends and delivers, cut at any point. */
  lemma {:induction false} OutputAppend(cfg: Config, e: Endpoint, a: seq<Event>, b: seq<Event>)
    requires e.Valid()
    ensures Sent(cfg, e, a + b) == Sent(cfg, e, a) + Sent(cfg, Run(cfg, e, a), b)
    ensures Delivered(cfg, e, a + b) == Delivered(cfg, e, a) + Delivered(cfg, Run(cfg, e, a), b)
    decreases |b|
  {
    hide Step, Run, Sent, Delivered;
    if b == [] {
      assert a + b == a;
      NothingHappened(cfg, Run(cfg, e, a));
    } else {
      var init, ev, mid := b[..|b| - 1], b[|b| - 1], Run(cfg, e, a);
      assert b == init + [ev] && a + b == (a + init) + [ev];
      OutputAppend(cfg, e, a, init);
      RunAppend(cfg, e, a, init);
      RunSnoc(cfg, e, a + init, ev);
      RunSnoc(cfg, mid, init, ev);
      var o := Step(cfg, Run(cfg, mid, init), ev);
      Associative(Sent(cfg, e, a), Sent(cfg, mid, init), o.sent);
      Associative(Delivered(cfg, e, a), Delivered(cfg, mid, init), if o.delivered == [] then [] else [o.delivered]);
    }
  }

  function Only(cfg: Config, evs: seq<Event>, keep: (Config, Event) -> bool): seq<Event> {
    if evs == [] then []
    else
      var last := evs[|evs| - 1];
      Only(cfg, evs[..|evs| - 1], keep) + if keep(cfg, last) then [last] else []
  }

  /** The endpoint looks at a call unless it brings a frame that carries another identifier than its own,
      no byte, or a type above flow control. */
  predicate Heard(cfg: Config, ev: Event) {
    ev.Receive? ==> ev.frame.id == cfg.rxId && ev.frame.dlc > 0 && ev.frame.data[0] <= 0x3F
  }

  /** Any other frame is answered with an error, changes nothing and has nothing sent. */
  lemma UnheardRefused(cfg: Config, e: Endpoint, ev: Event)
    requires e.Valid() && !Heard(cfg, ev)
    ensures Step(cfg, e, ev) == Outcome(e, Error, [], [])
  {}

  /** An endpoint lives through the frames that are not for it as if they had never been on the bus. */
  lemma {:induction false} UnheardIgnored(cfg: Config, e: Endpoint, evs: seq<Event>)
    requires e.Valid()
    ensures var heard := Only(cfg, evs, Heard);
            && Run(cfg, e, evs) == Run(cfg, e, heard)
            && Sent(cfg, e, evs) == Sent(cfg, e, heard)
            && Delivered(cfg, e, evs) == Delivered(cfg, e, heard)
  {
    hide Step, Heard, Run, Sent, Delivered;
    if evs != [] {
      var before, ev := evs[..|evs| - 1], evs[|evs| - 1];
      var heard := Only(cfg, before, Heard);
      UnheardIgnored(cfg, e, before);
      assert evs == before + [ev];
      RunSnoc(cfg, e, before, ev);
      if Heard(cfg, ev) {
        RunSnoc(cfg, e, heard, ev);
      } else {
        UnheardRefused(cfg, Run(cfg, e, before), ev);
        assert heard + [] == heard;
        assert Sent(cfg, e, before) + [] == Sent(cfg, e, before);
        assert Delivered(cfg, e, before) + [] == Delivered(cfg, e, before);
      }
    }
  }

  lemma NothingHappened(cfg: Config, e: Endpoint)
    requires e.Valid()
    ensures Run(cfg, e, []) == e && Sent(cfg, e, []) == [] && Delivered(cfg, e, []) == []
  {}

  predicate ForRx(cfg: Config, ev: Event) {
    match ev
    case Receive(f, _, _) => IsData(cfg, f)
    case Send(_, _, _) => false
    case Update(_) => true
    case Read(_) => true
  }

  predicate ForTx(cfg: Config, ev: Event) {
    match ev
    case Receive(f, _, _) => IsControl(cfg, f)
    case Send(_, _, _) => true
    case Update(_) => true
    case Read(_) => false
  }

  /** A call meant for one side leaves the other as it was and does not look at it. */
  lemma StepDuplex(cfg: Config, e: Endpoint, ev: Event, otherTx: Transmission, otherRx: Reassembly)
    requires e.Valid() && otherTx.Valid() && otherRx.Valid()
    ensures ForRx(cfg, ev) ==>
              && Step(cfg, e, ev).next.rx == Step(cfg, e.(tx := otherTx), ev).next.rx
              && Step(cfg, e, ev).delivered == Step(cfg, e.(tx := otherTx), ev).delivered
    ensures !ForRx(cfg, ev) ==> Step(cfg, e, ev).next.rx == e.rx && Step(cfg, e, ev).delivered == []
    ensures ForTx(cfg, ev) ==> Step(cfg, e, ev).next.tx == Step(cfg, e.(rx := otherRx), ev).next.tx
    ensures !ForTx(cfg, ev) ==> Step(cfg, e, ev).next.tx == e.tx
  {}

  /** The two directions do not interfere: in any interleaving, each side ends where it would have
      ended had only its own events happened, whatever state the other side was in. */
  lemma {:induction false} DuplexIndependence(cfg: Config, e: Endpoint, evs: seq<Event>,
                                              otherTx: Transmission, otherRx: Reassembly)
    requires e.Valid() && otherTx.Valid() && otherRx.Valid()
    ensures Run(cfg, e, evs).rx == Run(cfg, e.(tx := otherTx), Only(cfg, evs, ForRx)).rx
    ensures Run(cfg, e, evs).tx == Run(cfg, e.(rx := otherRx), Only(cfg, evs, ForTx)).tx
    ensures Delivered(cfg, e, evs) == Delivered(cfg, e.(tx := otherTx), Only(cfg, evs, ForRx))
  {
    hide Step, ForRx, ForTx;
    if evs != [] {
      var before, last := evs[..|evs| - 1], evs[|evs| - 1];
      var rxs, txs := Only(cfg, before, ForRx), Only(cfg, before, ForTx);
      var forRx, forTx := Run(cfg, e.(tx := otherTx), rxs), Run(cfg, e.(rx := otherRx), txs);
      DuplexIndependence(cfg, e, before, otherTx, otherRx);
      StepDuplex(cfg, Run(cfg, e, before), last, forRx.tx, forTx.rx);
      assert Run(cfg, e, before).(tx := forRx.tx) == forRx && Run(cfg, e, before).(rx := forTx.rx) == forTx;
      assert (rxs + [last])[..|rxs|] == rxs && (txs + [last])[..|txs|] == txs;
      assert rxs + [] == rxs && txs + [] == txs;
    }
  }
}
