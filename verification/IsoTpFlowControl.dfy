/** The flow control frames among everything an endpoint sends: how many there are, and what each of the
    two directions contributes to the bus. */
module IsoTpFlowControl {
  import opened Words
  import opened IsoTpCodec
  import opened IsoTpMachine
  import opened IsoTpReceive
  import opened IsoTpTransmit

  /** The receive side answers an accepted first frame with one flow control frame, if the driver takes
      it, and answers no other data frame. */
  lemma OneFlowControlPerMessage(cfg: Config, e: Endpoint, f: CanFrame, now: Tick, room: nat)
    requires e.Valid() && IsData(cfg, f)
    ensures Step(cfg, e, Receive(f, now, room)).sent ==
            if StartsMulti(cfg, Receive(f, now, room)) && room > 0
            then [EmittedFlowControl(cfg.txId, CTS, cfg.blockSize, cfg.stMin)] else []
  {
    hide EmittedFlowControl;
  }

  /** The flow control frames of this library read as single frames of length 0. */
  predicate ReadsAsEmpty(f: CanFrame) { PciType(f) == SINGLE && PciLow(f) == 0 }

  function EmptyFrames(log: seq<CanFrame>): nat {
    if log == [] then 0 else EmptyFrames(log[..|log| - 1]) + if ReadsAsEmpty(log[|log| - 1]) then 1 else 0
  }

  /** First frames that are accepted and whose flow control the driver takes. */
  function AnsweredFirstFrames(cfg: Config, evs: seq<Event>): nat {
    if evs == [] then 0
    else
      var ev := evs[|evs| - 1];
      AnsweredFirstFrames(cfg, evs[..|evs| - 1]) + if StartsMulti(cfg, ev) && ev.room > 0 then 1 else 0
  }

  lemma EmptyFramesSnoc(log: seq<CanFrame>, f: CanFrame)
    ensures EmptyFrames(log + [f]) == EmptyFrames(log) + if ReadsAsEmpty(f) then 1 else 0
  {
    hide ReadsAsEmpty;
    assert (log + [f])[..|log|] == log;
  }

  lemma {:induction false} EmptyFramesAppend(a: seq<CanFrame>, b: seq<CanFrame>)
    ensures EmptyFrames(a + b) == EmptyFrames(a) + EmptyFrames(b)
    decreases |b|
  {
    hide ReadsAsEmpty, EmptyFrames;
    if b == [] {
      assert a + b == a;
      NoEmptyFrames([]);
    } else {
      var init, f := b[..|b| - 1], b[|b| - 1];
      EmptyFramesAppend(a, init);
      EmptyFramesSnoc(init, f);
      EmptyFramesSnoc(a + init, f);
      assert a + b == (a + init) + [f] && b == init + [f];
    }
  }

  lemma {:induction false} NoEmptyFrames(log: seq<CanFrame>)
    requires forall f <- log :: !ReadsAsEmpty(f)
    ensures EmptyFrames(log) == 0
  {
    hide ReadsAsEmpty;
    if log != [] {
      NoEmptyFrames(log[..|log| - 1]);
    }
  }

  /** The transmit side sends no frame of that kind. */
  lemma TransmitSendsNoEmpty(cfg: Config, e: Endpoint, ev: Event)
    requires e.Valid() && (ev.Receive? ==> !IsData(cfg, ev.frame))
    ensures EmptyFrames(Step(cfg, e, ev).sent) == 0
  {
    var sent := Step(cfg, e, ev).sent;
    match ev
    case Receive(f, now, room) =>
      if IsControl(cfg, f) {
        forall g | g in sent ensures !ReadsAsEmpty(g) {
          BurstType(cfg, e.tx, f, now, room, g);
        }
      }
      hide ReadsAsEmpty, OnFlowControl, EmptyFrames;
      NoEmptyFrames(sent);
    case Send(m, now, room) =>
      forall g | g in sent ensures !ReadsAsEmpty(g) {
        SentHead(cfg, e.tx, m, now, room);
      }
      hide ReadsAsEmpty, OnSend, EmptyFrames;
      NoEmptyFrames(sent);
    case _ =>
  }

  lemma SentHead(cfg: Config, t: Transmission, m: seq<Byte>, now: Tick, room: nat)
    ensures forall g <- OnSend(cfg, t, m, now, room).sent :: !ReadsAsEmpty(g)
  {
    if 1 <= |m| <= 7 {
      var f := SingleFrame(cfg.txId, m);
      assert f.data[0] == f.data[..|m| + 1][0];
    } else if 8 <= |m| <= MAX_PAYLOAD {
      FirstFrameLengthRoundTrip(cfg.txId, m);
    }
  }

  /** Over every run, an endpoint sends exactly one flow control frame for every first frame that it
      accepts and whose answer the driver takes: none after a block, and none for anything else. */
  lemma {:induction false} FlowControlsAreFirstFrames(cfg: Config, e: Endpoint, evs: seq<Event>)
    requires e.Valid()
    ensures EmptyFrames(Sent(cfg, e, evs)) == AnsweredFirstFrames(cfg, evs)
  {
    hide Step, Run, StartsMulti, EmptyFrames, IsData;
    if evs == [] {
      NoEmptyFrames([]);
    } else {
      var before, ev := evs[..|evs| - 1], evs[|evs| - 1];
      var prior := Run(cfg, e, before);
      FlowControlsAreFirstFrames(cfg, e, before);
      EmptyFramesAppend(Sent(cfg, e, before), Step(cfg, prior, ev).sent);
      if ev.Receive? && IsData(cfg, ev.frame) {
        OneFlowControlPerMessage(cfg, prior, ev.frame, ev.now, ev.room);
        EmptyFramesOfOne(cfg);
        NoEmptyFrames([]);
      } else {
        TransmitSendsNoEmpty(cfg, prior, ev);
        StartsWithData(cfg, ev);
      }
    }
  }

  lemma StartsWithData(cfg: Config, ev: Event)
    ensures StartsMulti(cfg, ev) ==> ev.Receive? && IsData(cfg, ev.frame)
  {}

  lemma EmptyFramesOfOne(cfg: Config)
    ensures EmptyFrames([EmittedFlowControl(cfg.txId, CTS, cfg.blockSize, cfg.stMin)]) == 1
  {
    EmittedFlowControlType(cfg.txId, CTS, cfg.blockSize, cfg.stMin);
    var f := EmittedFlowControl(cfg.txId, CTS, cfg.blockSize, cfg.stMin);
    assert [f][..0] == [];
    hide EmittedFlowControl;
  }

  // ---- What the two directions send ----

  /** The flow control frames of a log, or its other frames. */
  function Part(log: seq<CanFrame>, empty: bool): seq<CanFrame> {
    if log == [] then []
    else
      var f := log[|log| - 1];
      Part(log[..|log| - 1], empty) + if ReadsAsEmpty(f) == empty then [f] else []
  }

  lemma PartSnoc(log: seq<CanFrame>, f: CanFrame, empty: bool)
    ensures Part(log + [f], empty) == Part(log, empty) + if ReadsAsEmpty(f) == empty then [f] else []
  {
    hide ReadsAsEmpty;
    assert (log + [f])[..|log|] == log;
  }

  lemma {:induction false} PartAppend(a: seq<CanFrame>, b: seq<CanFrame>, empty: bool)
    ensures Part(a + b, empty) == Part(a, empty) + Part(b, empty)
    decreases |b|
  {
    hide ReadsAsEmpty, Part;
    if b == [] {
      assert a + b == a;
      PartOfNone(empty);
      assert Part(a, empty) + [] == Part(a, empty);
    } else {
      var init, f := b[..|b| - 1], b[|b| - 1];
      PartAppend(a, init, empty);
      PartSnoc(init, f, empty);
      PartSnoc(a + init, f, empty);
      assert a + b == (a + init) + [f] && b == init + [f];
      Associative(Part(a, empty), Part(init, empty), if ReadsAsEmpty(f) == empty then [f] else []);
    }
  }

  lemma PartOfNone(empty: bool)
    ensures Part([], empty) == []
  {}

  /** A log of one kind. */
  lemma {:induction false} PartOfKind(log: seq<CanFrame>, kind: bool)
    requires forall f <- log :: ReadsAsEmpty(f) == kind
    ensures Part(log, kind) == log && Part(log, !kind) == []
  {
    hide ReadsAsEmpty, Part;
    if log == [] {
      PartOfNone(kind);
      PartOfNone(!kind);
    } else {
      var init, f := log[..|log| - 1], log[|log| - 1];
      PartOfKind(init, kind);
      PartSnoc(init, f, kind);
      PartSnoc(init, f, !kind);
      assert log == init + [f];
    }
  }

  /** What an event of each side sends does not depend on the other side. */
  lemma DuplexSends(cfg: Config, e: Endpoint, ev: Event, otherTx: Transmission, otherRx: Reassembly)
    requires e.Valid() && otherTx.Valid() && otherRx.Valid()
    ensures var sent := Step(cfg, e, ev).sent;
            && (ForRx(cfg, ev) && !ForTx(cfg, ev) ==>
                  sent == Step(cfg, e.(tx := otherTx), ev).sent && forall f <- sent :: ReadsAsEmpty(f))
            && (ForTx(cfg, ev) && !ForRx(cfg, ev) ==>
                  sent == Step(cfg, e.(rx := otherRx), ev).sent && forall f <- sent :: !ReadsAsEmpty(f))
            && (ForTx(cfg, ev) == ForRx(cfg, ev) ==> sent == [])
            && (ForTx(cfg, ev) && ForRx(cfg, ev) ==>
                  Step(cfg, e.(tx := otherTx), ev).sent == [] && Step(cfg, e.(rx := otherRx), ev).sent == [])
  {
    match ev
    case Receive(f, now, room) =>
      if IsData(cfg, f) {
        EmptyIsEmitted(cfg);
      } else if IsControl(cfg, f) {
        forall g | g in Step(cfg, e, ev).sent ensures !ReadsAsEmpty(g) {
          BurstType(cfg, e.tx, f, now, room, g);
        }
      }
      hide ReadsAsEmpty, OnFlowControl, EmittedFlowControl, IsControl, IsData;
    case Send(m, now, room) =>
      SentHead(cfg, e.tx, m, now, room);
      hide ReadsAsEmpty, OnSend;
    case _ =>
  }

  lemma EmptyIsEmitted(cfg: Config)
    ensures ReadsAsEmpty(EmittedFlowControl(cfg.txId, CTS, cfg.blockSize, cfg.stMin))
  {
    EmittedFlowControlType(cfg.txId, CTS, cfg.blockSize, cfg.stMin);
    hide EmittedFlowControl;
  }

  lemma DuplexParts(cfg: Config, e: Endpoint, ev: Event, otherTx: Transmission, otherRx: Reassembly)
    requires e.Valid() && otherTx.Valid() && otherRx.Valid()
    ensures var sent := Step(cfg, e, ev).sent;
            && Part(sent, true) == (if ForRx(cfg, ev) then Step(cfg, e.(tx := otherTx), ev).sent else [])
            && Part(sent, false) == (if ForTx(cfg, ev) then Step(cfg, e.(rx := otherRx), ev).sent else [])
  {
    hide Step, ForRx, ForTx, ReadsAsEmpty, Part;
    DuplexSends(cfg, e, ev, otherTx, otherRx);
    var sent := Step(cfg, e, ev).sent;
    PartOfNone(true);
    PartOfNone(false);
    if ForRx(cfg, ev) && !ForTx(cfg, ev) {
      PartOfKind(sent, true);
    } else if ForTx(cfg, ev) && !ForRx(cfg, ev) {
      PartOfKind(sent, false);
    }
  }

  /** The two directions do not interfere on the bus either: the flow control frames of a run are what the
      receive-side events alone would have sent, and its other frames what the transmit-side events alone
      would have sent, each in the same order. */
  lemma {:induction false} DuplexOutput(cfg: Config, e: Endpoint, evs: seq<Event>, otherTx: Transmission,
                                        otherRx: Reassembly)
    requires e.Valid() && otherTx.Valid() && otherRx.Valid()
    ensures Part(Sent(cfg, e, evs), true) == Sent(cfg, e.(tx := otherTx), Only(cfg, evs, ForRx))
    ensures Part(Sent(cfg, e, evs), false) == Sent(cfg, e.(rx := otherRx), Only(cfg, evs, ForTx))
  {
    hide Step, ForRx, ForTx, Run, Sent, Part;
    if evs == [] {
      NothingHappened(cfg, e);
      NothingHappened(cfg, e.(tx := otherTx));
      NothingHappened(cfg, e.(rx := otherRx));
      PartOfNone(true);
      PartOfNone(false);
    } else {
      var before, ev := evs[..|evs| - 1], evs[|evs| - 1];
      var rxs, txs := Only(cfg, before, ForRx), Only(cfg, before, ForTx);
      var prior := Run(cfg, e, before);
      var forRx, forTx := Run(cfg, e.(tx := otherTx), rxs), Run(cfg, e.(rx := otherRx), txs);
      assert evs == before + [ev];
      DuplexOutput(cfg, e, before, otherTx, otherRx);
      DuplexIndependence(cfg, e, before, otherTx, otherRx);
      assert prior.(tx := forRx.tx) == forRx && prior.(rx := forTx.rx) == forTx;
      DuplexParts(cfg, prior, ev, forRx.tx, forTx.rx);
      RunSnoc(cfg, e, before, ev);
      RunSnoc(cfg, e.(tx := otherTx), rxs, ev);
      RunSnoc(cfg, e.(rx := otherRx), txs, ev);
      PartAppend(Sent(cfg, e, before), Step(cfg, prior, ev).sent, true);
      PartAppend(Sent(cfg, e, before), Step(cfg, prior, ev).sent, false);
      assert rxs + [] == rxs && txs + [] == txs;
      assert Part(Sent(cfg, e, before), true) + [] == Part(Sent(cfg, e, before), true);
      assert Part(Sent(cfg, e, before), false) + [] == Part(Sent(cfg, e, before), false);
    }
  }
}
