/** How many clear-to-send frames a transfer needs, and what the library's own flow control frames
    do to it. */
module IsoTpProgress {
  import opened Words
  import opened IsoTpCodec
  import opened IsoTpMachine
  import opened IsoTpTransmit

  /** No new transfer, and a CAN driver that takes every frame that a clear-to-send releases; otherwise
      flow control of any kind, receive-side traffic, reads and polls in any order. */
  predicate Steady(cfg: Config, ev: Event) {
    !ev.Send? && (IsCts(cfg, ev) ==> ev.room >= MAX_PAYLOAD)
  }

  /** Every clear-to-send has the block size `bs`. */
  predicate Helpful(cfg: Config, bs: Byte, ev: Event) {
    Steady(cfg, ev) && (IsCts(cfg, ev) ==> ev.frame.data[1] == bs)
  }

  function CtsCount(cfg: Config, evs: seq<Event>): nat {
    if evs == [] then 0
    else CtsCount(cfg, evs[..|evs| - 1]) + if IsCts(cfg, evs[|evs| - 1]) then 1 else 0
  }

  /** The flow control frame restarts N_Bs: it is a WAIT or a clear-to-send. */
  predicate Renews(cfg: Config, ev: Event) {
    && ev.Receive? && IsControl(cfg, ev.frame) && ev.frame.dlc >= 3
    && (PciLow(ev.frame) == WAIT || PciLow(ev.frame) == CTS)
  }

  /** When N_Bs was last restarted: at the latest such frame, or at `start`. */
  function LastControl(cfg: Config, evs: seq<Event>, start: Tick): Tick {
    if evs == [] then start
    else
      var ev := evs[|evs| - 1];
      if Renews(cfg, ev) then ev.now else LastControl(cfg, evs[..|evs| - 1], start)
  }

  /** How many consecutive frames the clear-to-send frames allow together: the sum of their block sizes,
      or any number once one of them has block size 0. */
  function Allowed(cfg: Config, evs: seq<Event>): Option<nat> {
    if evs == [] then Some(0)
    else
      var prior, ev := Allowed(cfg, evs[..|evs| - 1]), evs[|evs| - 1];
      if IsCts(cfg, ev) then MoreAllowed(prior, ev.frame.data[1]) else prior
  }

  function MoreAllowed(prior: Option<nat>, bs: Byte): Option<nat> {
    if prior == None || bs == 0 then None else Some(prior.value + bs)
  }

  /** How many of `n` frames that is. */
  function Out(n: nat, allowed: Option<nat>): nat { if allowed == None then n else Min(allowed.value, n) }

  /** Clear-to-send frames needed for `n` consecutive frames: the ceiling of n / bs, or one. */
  function Rounds(n: nat, bs: Byte): nat {
    if bs == 0 then 1 else (n + bs - 1) / bs
  }

  /** Consecutive frames out after `c` clear-to-send frames. */
  function Released(n: nat, bs: Byte, c: nat): nat {
    if c == 0 then 0 else if bs == 0 then n else Min(c * bs, n)
  }

  lemma CeilDiv(n: nat, b: nat, c: nat)
    requires b > 0
    ensures c < (n + b - 1) / b <==> c * b < n
  {
    var q, r := (n + b - 1) / b, (n + b - 1) % b;
    if c < q {
      MulBelow(c, q, b);
    } else {
      MulMonotone(q, c, b);
    }
  }

  lemma MulBelow(c: nat, q: nat, b: nat)
    requires c < q
    ensures c * b <= q * b - b
  {
    MulMonotone(c + 1, q, b);
  }

  lemma MulMonotone(x: nat, y: nat, b: nat)
    requires x <= y
    ensures x * b <= y * b
  {
    assert y * b == x * b + (y - x) * b;
  }

  lemma ReleasedSteps(n: nat, bs: Byte, c: nat)
    requires n > 0
    ensures Released(n, bs, 0) == 0 && 0 < Rounds(n, bs)
    ensures c < Rounds(n, bs) <==> Released(n, bs, c) < n
    ensures c < Rounds(n, bs) ==>
              Released(n, bs, c + 1) == Released(n, bs, c) + Budget(n - Released(n, bs, c), bs)
    ensures c >= Rounds(n, bs) ==> Released(n, bs, c) == n && Released(n, bs, c + 1) == n
  {
    if bs > 0 {
      hide Rounds;
      CeilDiv(n, bs, c);
      CeilDiv(n, bs, 0);
      RoundsCeil(n, bs);
      OneMoreBlock(c, bs);
    }
  }

  lemma OneMoreBlock(c: nat, bs: nat)
    ensures (c + 1) * bs == c * bs + bs && (c >= 1 ==> c * bs >= bs)
  {
    if c >= 1 {
      MulMonotone(1, c, bs);
    }
  }

  lemma RoundsCeil(n: nat, bs: Byte)
    requires bs > 0
    ensures Rounds(n, bs) == (n + bs - 1) / bs
  {}

  /** While the transfer is open, no poll finds N_Bs expired. */
  ghost predicate InTime(cfg: Config, evs: seq<Event>, start: Tick, n: nat) {
    forall i | 0 <= i < |evs| && evs[i].Update? && Out(n, Allowed(cfg, evs[..i])) < n ::
      !Expired(Wrap32(LastControl(cfg, evs[..i], start) + cfg.nBs), evs[i].now)
  }

  /** Where a transfer of `m` stands when `k` consecutive frames are out. */
  function Stage(cfg: Config, m: seq<Byte>, k: nat, last: Tick): Transmission
    requires 8 <= |m| <= MAX_PAYLOAD
  {
    if k < CfCount(|m|) then Waiting(m, k, Wrap32(last + cfg.nBs)) else Quiet
  }

  lemma OutSteps(n: nat, allowed: Option<nat>, bs: Byte)
    ensures Out(n, allowed) <= n
    ensures Out(n, MoreAllowed(allowed, bs)) == Out(n, allowed) + Budget(n - Out(n, allowed), bs)
  {}

  /** What flow control does to the transfer. */
  lemma ProgressControl(cfg: Config, m: seq<Byte>, k: nat, last: Tick, ev: Event, log: seq<CanFrame>)
    requires 8 <= |m| <= MAX_PAYLOAD && k <= CfCount(|m|) && Current(log) == Wire(cfg.txId, m, k)
    requires ev.Receive? && IsControl(cfg, ev.frame) && Steady(cfg, ev)
    requires Stage(cfg, m, k, last).Valid()
    ensures var o := OnFlowControl(cfg, Stage(cfg, m, k, last), ev.frame, ev.now, ev.room);
            var k' := if IsCts(cfg, ev) then k + Budget(CfCount(|m|) - k, ev.frame.data[1]) else k;
            && k' <= CfCount(|m|)
            && o.tx == Stage(cfg, m, k', if Renews(cfg, ev) then ev.now else last)
            && Current(log + o.sent) == Wire(cfg.txId, m, k')
  {
    CfCountBound(|m|);
    hide Wire, Current, CfRange, CfCount, Wrap32;
    assert log + [] == log;
    if k < CfCount(|m|) && IsCts(cfg, ev) {
      CurrentAppend(log, cfg.txId, m, k, k + Budget(CfCount(|m|) - k, ev.frame.data[1]));
    }
  }

  lemma CfCountBound(len: nat)
    requires 8 <= len <= MAX_PAYLOAD
    ensures 0 < CfCount(len) <= MAX_PAYLOAD
  {}

  lemma ProgressStep(cfg: Config, e: Endpoint, m: seq<Byte>, k: nat, last: Tick, ev: Event, log: seq<CanFrame>)
    requires e.Valid() && 8 <= |m| <= MAX_PAYLOAD && Steady(cfg, ev)
    requires k <= CfCount(|m|) && Current(log) == Wire(cfg.txId, m, k) && e.tx == Stage(cfg, m, k, last)
    requires ev.Update? && k < CfCount(|m|) ==> !Expired(Wrap32(last + cfg.nBs), ev.now)
    ensures var o := Step(cfg, e, ev);
            var k' := if IsCts(cfg, ev) then k + Budget(CfCount(|m|) - k, ev.frame.data[1]) else k;
            && k' <= CfCount(|m|)
            && o.next.tx == Stage(cfg, m, k', if Renews(cfg, ev) then ev.now else last)
            && Current(log + o.sent) == Wire(cfg.txId, m, k')
  {
    hide OnFlowControl, RxFrame, Wire, Current, CfCount, Wrap32;
    assert log + [] == log;
    if ev.Receive? && IsControl(cfg, ev.frame) {
      ProgressControl(cfg, m, k, last, ev, log);
    } else if ev.Receive? && IsData(cfg, ev.frame) {
      ReceivingSendsNoData(cfg, e.rx, ev.frame, ev.now, ev.room, log);
    }
  }

  lemma InTimePrefix(cfg: Config, evs: seq<Event>, start: Tick, n: nat)
    requires evs != [] && InTime(cfg, evs, start, n)
    ensures var before, ev := evs[..|evs| - 1], evs[|evs| - 1];
            && InTime(cfg, before, start, n)
            && (ev.Update? && Out(n, Allowed(cfg, before)) < n ==>
                  !Expired(Wrap32(LastControl(cfg, before, start) + cfg.nBs), ev.now))
  {
    hide Allowed, LastControl, Out, Expired, Wrap32;
    var before := evs[..|evs| - 1];
    forall i | 0 <= i < |before| && before[i].Update? && Out(n, Allowed(cfg, before[..i])) < n
      ensures !Expired(Wrap32(LastControl(cfg, before[..i], start) + cfg.nBs), before[i].now)
    {
      SliceOfTake(evs, |evs| - 1, 0, i);
      assert before[..i] == evs[..i];
    }
  }

  /** Under flow control of any kind, with block sizes that may vary, a transfer has sent exactly as many
      of its consecutive frames, in order, as the clear-to-send frames so far allow together, and is
      finished exactly if that is all of them, whatever WAITs, refused flow control, polls and incoming
      messages come between. */
  lemma {:induction false} VaryingProgress(cfg: Config, e: Endpoint, m: seq<Byte>, start: Tick, evs: seq<Event>,
                                           log: seq<CanFrame>)
    requires e.Valid() && 8 <= |m| <= MAX_PAYLOAD && e.tx == Waiting(m, 0, Wrap32(start + cfg.nBs))
    requires forall ev <- evs :: Steady(cfg, ev)
    requires InTime(cfg, evs, start, CfCount(|m|))
    requires Current(log) == Wire(cfg.txId, m, 0)
    ensures var k := Out(CfCount(|m|), Allowed(cfg, evs));
            && k <= CfCount(|m|)
            && Run(cfg, e, evs).tx == Stage(cfg, m, k, LastControl(cfg, evs, start))
            && Current(log + Sent(cfg, e, evs)) == Wire(cfg.txId, m, k)
    decreases |evs|
  {
    hide Step, Wire, Current, Out, CfCount, InTime, Steady, Run, Sent, Expired, Wrap32, IsCts, Renews, MoreAllowed;
    var n := CfCount(|m|);
    CfCountBound(|m|);
    if evs == [] {
      assert log + [] == log;
      NothingHappened(cfg, e);
      OutOfNone(n);
    } else {
      var before, ev := evs[..|evs| - 1], evs[|evs| - 1];
      InTimePrefix(cfg, evs, start, n);
      VaryingProgress(cfg, e, m, start, before, log);
      assert evs == before + [ev];
      RunSnoc(cfg, e, before, ev);
      ProgressStep(cfg, Run(cfg, e, before), m, Out(n, Allowed(cfg, before)), LastControl(cfg, before, start), ev,
                   log + Sent(cfg, e, before));
      if IsCts(cfg, ev) {
        CtsIsReceive(cfg, ev);
        OutSteps(n, Allowed(cfg, before), ev.frame.data[1]);
      }
      Associative(log, Sent(cfg, e, before), Step(cfg, Run(cfg, e, before), ev).sent);
    }
  }

  lemma OutOfNone(n: nat)
    ensures Out(n, Some(0)) == 0
  {}

  lemma CtsIsReceive(cfg: Config, ev: Event)
    ensures IsCts(cfg, ev) ==> ev.Receive?
  {}

  // ---- One block size ----

  lemma {:induction false} AllowedConstant(cfg: Config, bs: Byte, evs: seq<Event>)
    requires forall ev <- evs :: Helpful(cfg, bs, ev)
    ensures var c := CtsCount(cfg, evs);
            Allowed(cfg, evs) == if c == 0 then Some(0) else if bs == 0 then None else Some(c * bs)
  {
    hide IsCts;
    if evs != [] {
      var before, ev := evs[..|evs| - 1], evs[|evs| - 1];
      assert Helpful(cfg, bs, ev);
      AllowedConstant(cfg, bs, before);
      OneMoreBlock(CtsCount(cfg, before), bs);
      CtsIsReceive(cfg, ev);
    }
  }

  lemma OutIsReleased(cfg: Config, bs: Byte, evs: seq<Event>, n: nat)
    requires forall ev <- evs :: Helpful(cfg, bs, ev)
    ensures Out(n, Allowed(cfg, evs)) == Released(n, bs, CtsCount(cfg, evs))
  {
    hide CtsCount, Allowed, Helpful;
    AllowedConstant(cfg, bs, evs);
  }

  lemma HelpfulIsSteady(cfg: Config, bs: Byte, evs: seq<Event>)
    requires forall ev <- evs :: Helpful(cfg, bs, ev)
    ensures forall ev <- evs :: Steady(cfg, ev)
  {
    hide Steady;
  }

  /** A message sent under constant block size bs is out, whole and in order, after exactly
      ceil(n / bs) clear-to-send frames (one when bs = 0), whatever else comes between them; before that
      it waits with bs frames out for each. */
  lemma FlowControlProgress(cfg: Config, e: Endpoint, m: seq<Byte>, start: Tick, bs: Byte, evs: seq<Event>,
                            log: seq<CanFrame>)
    requires e.Valid() && 8 <= |m| <= MAX_PAYLOAD && e.tx == Waiting(m, 0, Wrap32(start + cfg.nBs))
    requires forall ev <- evs :: Helpful(cfg, bs, ev)
    requires InTime(cfg, evs, start, CfCount(|m|))
    requires Current(log) == Wire(cfg.txId, m, 0)
    ensures var n, c := CfCount(|m|), CtsCount(cfg, evs);
            && Released(n, bs, c) <= n
            && Current(log + Sent(cfg, e, evs)) == Wire(cfg.txId, m, Released(n, bs, c))
            && (Run(cfg, e, evs).tx == Quiet <==> c >= Rounds(n, bs))
            && (c >= Rounds(n, bs) ==> Current(log + Sent(cfg, e, evs)) == Wire(cfg.txId, m, n))
            && (c < Rounds(n, bs) ==>
                  Run(cfg, e, evs).tx == Waiting(m, Released(n, bs, c), Wrap32(LastControl(cfg, evs, start) + cfg.nBs)))
  {
    hide Step, Wire, Current, Released, Rounds, CfCount, InTime, Run, Sent, Wrap32, Out, Allowed, Helpful, Steady,
         CtsCount, LastControl;
    HelpfulIsSteady(cfg, bs, evs);
    CfCountBound(|m|);
    ReleasedSteps(CfCount(|m|), bs, CtsCount(cfg, evs));
    OutIsReleased(cfg, bs, evs, CfCount(|m|));
    VaryingProgress(cfg, e, m, start, evs, log);
  }

  /** A sender that hears just one clear-to-send, the one that a receiver of this library would give if
      it spelled it right, finishes exactly if its block size is 0 or covers the whole message. */
  lemma OneClearanceSuffices(cfg: Config, e: Endpoint, m: seq<Byte>, start: Tick, bs: Byte, evs: seq<Event>,
                             log: seq<CanFrame>)
    requires e.Valid() && 8 <= |m| <= MAX_PAYLOAD && e.tx == Waiting(m, 0, Wrap32(start + cfg.nBs))
    requires forall ev <- evs :: Helpful(cfg, bs, ev)
    requires InTime(cfg, evs, start, CfCount(|m|)) && CtsCount(cfg, evs) == 1
    requires Current(log) == Wire(cfg.txId, m, 0)
    ensures Run(cfg, e, evs).tx == Quiet <==> bs == 0 || CfCount(|m|) <= bs
  {
    hide Run, Sent, Helpful, InTime, CtsCount, Current, Wire, CfCount, Released;
    FlowControlProgress(cfg, e, m, start, bs, evs, log);
    CfCountBound(|m|);
    if bs > 0 {
      hide Rounds;
      CeilDiv(CfCount(|m|), bs, 1);
      RoundsCeil(CfCount(|m|), bs);
    }
  }

  /** Once the CAN driver has refused a consecutive frame, the transmit side is stuck: no flow control
      frame, poll or anything else but the start of a new transfer gets it moving, and no further
      consecutive frame is sent. */
  lemma {:induction false} StalledUntilNextTransfer(cfg: Config, e: Endpoint, evs: seq<Event>)
    requires e.Valid() && e.tx.Stalled? && forall ev <- evs :: !StartsTransfer(ev)
    ensures Run(cfg, e, evs).tx == e.tx && CfsIn(Sent(cfg, e, evs)) == 0
  {
    hide CfsIn, IsData, IsControl, RxFrame;
    CfsInEmpty();
    if evs != [] {
      var before, ev := evs[..|evs| - 1], evs[|evs| - 1];
      StalledUntilNextTransfer(cfg, e, before);
      StalledStep(cfg, Run(cfg, e, before), ev);
      CfsInAppend(Sent(cfg, e, before), Step(cfg, Run(cfg, e, before), ev).sent);
      hide Step;
    }
  }

  lemma StalledStep(cfg: Config, e: Endpoint, ev: Event)
    requires e.Valid() && e.tx.Stalled? && !StartsTransfer(ev)
    ensures Step(cfg, e, ev).next.tx == e.tx && CfsIn(Step(cfg, e, ev).sent) == 0
  {
    StepCfs(cfg, e, ev);
    CfsInEmpty();
    hide CfsIn, RxFrame;
  }

  // ---- The library's own flow control ----

  /** No endpoint of this library ever puts a frame on the bus that is recognised as flow control. */
  lemma StepEmitsNoFlowControl(cfg: Config, e: Endpoint, ev: Event)
    requires e.Valid()
    ensures forall f <- Step(cfg, e, ev).sent :: PciType(f) != FLOW_CONTROL
  {
    EmittedFlowControlType(cfg.txId, CTS, cfg.blockSize, cfg.stMin);
    match ev
    case Receive(f, now, room) =>
      if IsControl(cfg, f) {
        ControlSends(cfg, e.tx, f, now, room);
        forall g | g in Step(cfg, e, ev).sent ensures PciType(g) != FLOW_CONTROL {
          BurstType(cfg, e.tx, f, now, room, g);
        }
      }
    case Send(m, now, room) =>
      if 8 <= |m| <= MAX_PAYLOAD {
        FirstFrameLengthRoundTrip(cfg.txId, m);
      }
    case _ =>
  }

  /** The frame was put on the bus by some endpoint of this library, in some state. */
  ghost predicate FromLibrary(f: CanFrame) {
    exists cfg: Config, e: Endpoint, ev: Event | e.Valid() :: f in Step(cfg, e, ev).sent
  }

  /** An endpoint that hears only unmodified endpoints never gets past the first frame of a message:
      no consecutive frame is ever sent. */
  lemma {:induction false} UnmodifiedPeersNeverContinue(cfg: Config, e: Endpoint, evs: seq<Event>)
    requires e.Valid()
    requires forall ev <- evs :: ev.Receive? ==> FromLibrary(ev.frame)
    ensures CfsIn(Sent(cfg, e, evs)) == 0
  {
    hide Step, CfsIn, PciType, PciLow;
    CfsInEmpty();
    if evs != [] {
      var before, ev := evs[..|evs| - 1], evs[|evs| - 1];
      UnmodifiedPeersNeverContinue(cfg, e, before);
      if ev.Receive? {
        var cfg': Config, e': Endpoint, ev': Event :| e'.Valid() && ev.frame in Step(cfg', e', ev').sent;
        StepEmitsNoFlowControl(cfg', e', ev');
      }
      StepCfs(cfg, Run(cfg, e, before), ev);
      CfsInAppend(Sent(cfg, e, before), Step(cfg, Run(cfg, e, before), ev).sent);
    }
  }
}
