/** What the calls answer, in terms of the history instead of the machine's state. */
module IsoTpResults {
  import opened Words
  import opened IsoTpCodec
  import opened IsoTpMachine
  import opened IsoTpReceive
  import opened IsoTpTransmit
  import opened IsoTpProgress

  // ---- Data frames ----

  ghost predicate FinishesOne(cfg: Config, evs: seq<Event>) { exists p :: Finishes(cfg, evs, p) }

  /** The last event is the latest frame gathered for a message that is still incomplete. */
  ghost predicate Joins(cfg: Config, evs: seq<Event>) {
    exists idx :: idx != [] && Gathering(cfg, evs, idx) && idx[|idx| - 1] == |evs| - 1
  }

  /** A message is being gathered, and the frame is a consecutive frame that is not the next one. */
  ghost predicate OutOfTurn(cfg: Config, evs: seq<Event>, ev: Event) {
    exists idx, sn :: Gathering(cfg, evs, idx) && IsCf(cfg, ev, sn) && sn != |idx| % 16
  }

  /** The answer to a data frame in terms of the state. */
  lemma DataStep(cfg: Config, e: Endpoint, ev: Event)
    requires e.Valid() && ev.Receive? && IsData(cfg, ev.frame)
    ensures var o := Step(cfg, e, ev);
            && (o.result == Ok <==>
                  StartsSingle(cfg, ev) || (e.rx.Partial? && IsCf(cfg, ev, e.rx.sn) && o.next.rx.Complete?))
            && (o.result == Pending <==>
                  StartsMulti(cfg, ev) || (e.rx.Partial? && IsCf(cfg, ev, e.rx.sn) && o.next.rx.Partial?))
            && (o.result == WrongSN <==>
                  e.rx.Partial? && IsCf(cfg, ev, PciLow(ev.frame)) && PciLow(ev.frame) != e.rx.sn)
            && o.result in {Ok, Pending, WrongSN, Error}
  {}

  lemma OkIffFinishes(cfg: Config, e: Endpoint, evs: seq<Event>, ev: Event)
    requires e.Valid() && e.rx == Idle && ev.Receive? && IsData(cfg, ev.frame)
    ensures Step(cfg, Run(cfg, e, evs), ev).result == Ok <==> FinishesOne(cfg, evs + [ev])
  {
    hide Step, Run, StartsMulti, StartsSingle, IsCf, Gathering, Gathered, Fills, Finishes, IsData;
    var prior := Run(cfg, e, evs);
    var next := Step(cfg, prior, ev).next.rx;
    DataStep(cfg, prior, ev);
    if StartsSingle(cfg, ev) {
      StartFinishes(cfg, evs, ev);
    }
    if next.Complete? {
      FinishesStep(cfg, e, evs, ev, next.payload);
    }
    if FinishesOne(cfg, evs + [ev]) {
      FinishIsOk(cfg, e, evs, ev);
    }
  }

  lemma FinishIsOk(cfg: Config, e: Endpoint, evs: seq<Event>, ev: Event)
    requires e.Valid() && e.rx == Idle && ev.Receive? && IsData(cfg, ev.frame) && FinishesOne(cfg, evs + [ev])
    ensures Step(cfg, Run(cfg, e, evs), ev).result == Ok
  {
    hide Step, Run, StartsMulti, StartsSingle, IsCf, Gathering, Gathered, Finishes, IsData;
    var p :| Finishes(cfg, evs + [ev], p);
    DataStep(cfg, Run(cfg, e, evs), ev);
    if !StartsSingle(cfg, ev) {
      var idx := FinishedBy(cfg, evs, ev, p);
      FinishesStep(cfg, e, evs, ev, p);
      ExplainedIsPartial(cfg, e, evs, idx);
      GatheredNumber(cfg, evs, idx);
    }
  }

  lemma StartFinishes(cfg: Config, evs: seq<Event>, ev: Event)
    requires StartsSingle(cfg, ev)
    ensures FinishesOne(cfg, evs + [ev])
  {
    hide StartsMulti, Gathering;
    var p := ev.frame.data[1..1 + PciLow(ev.frame)];
    assert (evs + [ev])[..|evs|] == evs;
    assert Finishes(cfg, evs + [ev], p);
  }

  lemma FinishedBy(cfg: Config, evs: seq<Event>, ev: Event, p: seq<Byte>) returns (idx: seq<nat>)
    requires Finishes(cfg, evs + [ev], p) && !StartsSingle(cfg, ev)
    ensures Gathering(cfg, evs, idx) && IsCf(cfg, ev, |idx| % 16)
  {
    hide Gathering, IsCf, StartsSingle, Spelled, FirstFrameLength, ConsecutiveBytes;
    assert (evs + [ev])[..|evs|] == evs;
    idx :| Fills(cfg, evs, idx, ev, p);
  }

  lemma GatheredNumber(cfg: Config, evs: seq<Event>, idx: seq<nat>)
    requires Gathering(cfg, evs, idx)
    ensures Gathered(cfg, evs, idx).Partial? && Gathered(cfg, evs, idx).sn == |idx| % 16
  {
    hide Gathering, Spelled, FirstFrameLength;
  }

  lemma PendingIffJoins(cfg: Config, e: Endpoint, evs: seq<Event>, ev: Event)
    requires e.Valid() && e.rx == Idle && ev.Receive? && IsData(cfg, ev.frame)
    ensures Step(cfg, Run(cfg, e, evs), ev).result == Pending <==> Joins(cfg, evs + [ev])
  {
    hide Step, Run, StartsMulti, StartsSingle, IsCf, Gathering, Gathered, IsData, Spelled, Frames, Joins;
    var prior := Run(cfg, e, evs);
    DataStep(cfg, prior, ev);
    if Step(cfg, prior, ev).result == Pending {
      if StartsMulti(cfg, ev) {
        GatheringStarts(cfg, evs, ev);
        JoinsWith(cfg, evs + [ev], [|evs|]);
      } else {
        PartialIsExplained(cfg, e, evs);
        var idx := ExplainedBy(cfg, evs, prior.rx);
        StepTakes(cfg, prior, ev);
        TakenJoins(cfg, evs, idx, ev, prior.rx);
      }
    }
    if Joins(cfg, evs + [ev]) {
      JoinIsPending(cfg, e, evs, ev);
    }
  }

  lemma JoinsWith(cfg: Config, evs: seq<Event>, idx: seq<nat>)
    requires Gathering(cfg, evs, idx) && idx != [] && idx[|idx| - 1] == |evs| - 1
    ensures Joins(cfg, evs)
  {
    hide Gathering;
  }

  lemma TakenJoins(cfg: Config, evs: seq<Event>, idx: seq<nat>, ev: Event, r: Reassembly)
    requires Gathering(cfg, evs, idx) && r == Gathered(cfg, evs, idx) && IsCf(cfg, ev, |idx| % 16)
    requires |r.got + ConsecutiveBytes(ev.frame)| < r.expected
    ensures Joins(cfg, evs + [ev])
  {
    hide Gathering, IsCf, Spelled, Frames, FirstFrameLength, ConsecutiveBytes;
    GatheringTakes(cfg, evs, idx, ev);
    hide Gathered, Joins;
    JoinsWith(cfg, evs + [ev], idx + [|evs|]);
  }

  lemma JoinIsPending(cfg: Config, e: Endpoint, evs: seq<Event>, ev: Event)
    requires e.Valid() && ev.Receive? && IsData(cfg, ev.frame) && Joins(cfg, evs + [ev])
    ensures Step(cfg, Run(cfg, e, evs), ev).result == Pending
  {
    hide Step, Run, StartsMulti, StartsSingle, IsCf, Gathering, Gathered, IsData, Spelled, Frames, ConsecutiveBytes,
         FirstFrameLength;
    var all, prior := evs + [ev], Run(cfg, e, evs);
    var idx :| idx != [] && Gathering(cfg, all, idx) && idx[|idx| - 1] == |all| - 1;
    GatheringEnds(cfg, all, idx);
    DataStep(cfg, prior, ev);
    if |idx| > 1 {
      GatheringBeforeTaken(cfg, evs, idx, ev);
      ExplainedIsPartial(cfg, e, evs, idx[..|idx| - 1]);
      GatheredNumber(cfg, evs, idx[..|idx| - 1]);
      ExplainedIsPartial(cfg, e, all, idx);
      GatheredNumber(cfg, all, idx);
      RunSnoc(cfg, e, evs, ev);
    }
  }

  lemma WrongSnIffOutOfTurn(cfg: Config, e: Endpoint, evs: seq<Event>, ev: Event)
    requires e.Valid() && e.rx == Idle && ev.Receive? && IsData(cfg, ev.frame)
    ensures Step(cfg, Run(cfg, e, evs), ev).result == WrongSN <==> OutOfTurn(cfg, evs, ev)
  {
    hide Step, Run, StartsMulti, StartsSingle, Gathering, Gathered, IsData;
    var prior := Run(cfg, e, evs);
    DataStep(cfg, prior, ev);
    if idx, sn :| Gathering(cfg, evs, idx) && IsCf(cfg, ev, sn) && sn != |idx| % 16 {
      ExplainedIsPartial(cfg, e, evs, idx);
      GatheredNumber(cfg, evs, idx);
    }
    if prior.rx.Partial? && PciLow(ev.frame) != prior.rx.sn {
      PartialIsExplained(cfg, e, evs);
      var idx := ExplainedBy(cfg, evs, prior.rx);
    }
  }

  /** What a data frame is answered, in every run: Ok if it finishes a message, Pending if it joins the
      frames gathered for one, wrong sequence number if it is out of turn, and an error otherwise. */
  lemma DataResult(cfg: Config, e: Endpoint, evs: seq<Event>, ev: Event)
    requires e.Valid() && e.rx == Idle && ev.Receive?
    requires ev.frame.id == cfg.rxId && ev.frame.dlc > 0 && ev.frame.data[0] <= 0x2F
    ensures Step(cfg, Run(cfg, e, evs), ev).result ==
            if FinishesOne(cfg, evs + [ev]) then Ok
            else if Joins(cfg, evs + [ev]) then Pending
            else if OutOfTurn(cfg, evs, ev) then WrongSN
            else Error
  {
    hide Step, Run, FinishesOne, Joins, OutOfTurn;
    assert IsData(cfg, ev.frame);
    OkIffFinishes(cfg, e, evs, ev);
    PendingIffJoins(cfg, e, evs, ev);
    WrongSnIffOutOfTurn(cfg, e, evs, ev);
    DataStep(cfg, Run(cfg, e, evs), ev);
  }

  // ---- Flow control ----

  /** How many of the `n` consecutive frames may be out after a flow control frame. */
  function OutAfter(n: nat, allowed: Option<nat>, f: CanFrame): nat {
    Out(n, if f.data[0] == 0x30 && f.dlc >= 3 then MoreAllowed(allowed, f.data[1]) else allowed)
  }

  /** The transfer and its answer when the driver takes `room` of the frames that flow control releases;
      `k` of the `n` frames were out before it, and `k'` may be out after it. */
  function Answered(cfg: Config, m: seq<Byte>, k: nat, k': nat, last: Tick, ev: Event): (Transmission, Result)
    requires 8 <= |m| <= MAX_PAYLOAD && k <= k' && ev.Receive?
  {
    var n, status := CfCount(|m|), ev.frame.data[0];
    if k == n || ev.frame.dlc < 3 then (Stage(cfg, m, k, last), Error)
    else if status == 0x30 then
      if ev.room < k' - k then (Stalled(m, k + ev.room), Error)
      else (Stage(cfg, m, k', ev.now), if k' == n then Ok else Pending)
    else if status == 0x31 then (Stage(cfg, m, k, ev.now), Pending)
    else if status == 0x32 then (Stage(cfg, m, k, last), Overflow)
    else (Stage(cfg, m, k, last), Error)
  }

  /** What flow control does and is answered, by its bytes and by the history of the transfer. 0x31 (WAIT)
      restarts N_Bs and 0x32 (overflow) is reported, but neither stops the transfer; 0x30 (clear to send)
      is answered with Ok exactly if it releases the last frame, and the transfer is stuck if the driver
      refuses one of them. A finished transfer answers with an error, and so does one whose frame is too
      short or has another flow status. */
  lemma FlowControlResult(cfg: Config, e: Endpoint, m: seq<Byte>, start: Tick, evs: seq<Event>,
                          log: seq<CanFrame>, ev: Event)
    requires e.Valid() && 8 <= |m| <= MAX_PAYLOAD && e.tx == Waiting(m, 0, Wrap32(start + cfg.nBs))
    requires forall ev <- evs :: Steady(cfg, ev)
    requires InTime(cfg, evs, start, CfCount(|m|)) && Current(log) == Wire(cfg.txId, m, 0)
    requires ev.Receive? && ev.frame.id == cfg.rxId && 0x30 <= ev.frame.data[0] <= 0x3F && ev.frame.dlc > 0
    ensures var n, allowed, o := CfCount(|m|), Allowed(cfg, evs), Step(cfg, Run(cfg, e, evs), ev);
            && Out(n, allowed) <= OutAfter(n, allowed, ev.frame)
            && (o.next.tx, o.result)
               == Answered(cfg, m, Out(n, allowed), OutAfter(n, allowed, ev.frame), LastControl(cfg, evs, start), ev)
  {
    hide Step, Run, Sent, Wire, Current, InTime, Steady, CfCount, Allowed, LastControl, Out, Wrap32, Answered;
    VaryingProgress(cfg, e, m, start, evs, log);
    FlowControlStep(cfg, Run(cfg, e, evs), m, Out(CfCount(|m|), Allowed(cfg, evs)), LastControl(cfg, evs, start), ev);
    OutSteps(CfCount(|m|), Allowed(cfg, evs), ev.frame.data[1]);
  }

  lemma FlowControlStep(cfg: Config, e: Endpoint, m: seq<Byte>, k: nat, last: Tick, ev: Event)
    requires e.Valid() && 8 <= |m| <= MAX_PAYLOAD && k <= CfCount(|m|) && e.tx == Stage(cfg, m, k, last)
    requires ev.Receive? && ev.frame.id == cfg.rxId && 0x30 <= ev.frame.data[0] <= 0x3F && ev.frame.dlc > 0
    ensures var o := Step(cfg, e, ev);
            var k' := if ev.frame.data[0] == 0x30 && ev.frame.dlc >= 3
                      then k + Budget(CfCount(|m|) - k, ev.frame.data[1]) else k;
            (o.next.tx, o.result) == Answered(cfg, m, k, k', last, ev)
  {
    CfCountBound(|m|);
    hide CfRange, CfCount, Wrap32;
    assert IsControl(cfg, ev.frame) && !IsData(cfg, ev.frame) && PciLow(ev.frame) == ev.frame.data[0] - 0x30;
  }

  // ---- Timeouts ----

  /** N_Cr is exact: if the latest frame gathered for a message arrived at the true time `t`, an update at the
      true time `now` gives the message up exactly when the wrapped deadline is reached, which is when
      t + N_Cr has come under the condition of `DueIff`. */
  lemma ReceptionTimeout(cfg: Config, e: Endpoint, evs: seq<Event>, idx: seq<nat>, t: nat, now: nat)
    requires e.Valid() && Gathering(cfg, evs, idx) && evs[idx[|idx| - 1]].now == Wrap32(t) && t <= now < t + U32
    ensures var deadline := Wrap32(t + cfg.nCr);
            var after := Run(cfg, e, evs + [Update(Wrap32(now))]).rx;
            && after == (if 0 < deadline <= Wrap32(now) then Idle else Gathered(cfg, evs, idx))
            && ((after == Idle <==> now >= t + cfg.nCr)
                <==> if deadline == 0 then now < t + cfg.nCr else SameWrap(t + cfg.nCr, now))
  {
    hide Wrap32, Run, Gathering, Spelled, FirstFrameLength, SameWrap, Frames, StartsMulti;
    ExplainedIsPartial(cfg, e, evs, idx);
    RunSnoc(cfg, e, evs, Update(Wrap32(now)));
    WrapSum(t, cfg.nCr);
    DueIff(cfg.nCr, t, now);
    GatheredDeadline(cfg, evs, idx);
  }

  lemma GatheredDeadline(cfg: Config, evs: seq<Event>, idx: seq<nat>)
    requires Gathering(cfg, evs, idx)
    ensures Gathered(cfg, evs, idx).Partial?
    ensures Gathered(cfg, evs, idx).deadline == Wrap32(evs[idx[|idx| - 1]].now + cfg.nCr)
  {
    hide Wrap32, Spelled, FirstFrameLength;
  }

  /** N_Bs is exact in the same sense: a transfer that still has frames to send and whose flow control was last
      renewed at the true time `t` is given up by an update at `now` exactly when t + N_Bs has come, under
      the same condition. */
  lemma TransferTimeout(cfg: Config, e: Endpoint, m: seq<Byte>, start: Tick, evs: seq<Event>, log: seq<CanFrame>,
                        t: nat, now: nat)
    requires e.Valid() && 8 <= |m| <= MAX_PAYLOAD && e.tx == Waiting(m, 0, Wrap32(start + cfg.nBs))
    requires forall ev <- evs :: Steady(cfg, ev)
    requires InTime(cfg, evs, start, CfCount(|m|)) && Current(log) == Wire(cfg.txId, m, 0)
    requires Out(CfCount(|m|), Allowed(cfg, evs)) < CfCount(|m|)
    requires LastControl(cfg, evs, start) == Wrap32(t) && t <= now < t + U32
    ensures var deadline := Wrap32(t + cfg.nBs);
            var after := Run(cfg, e, evs + [Update(Wrap32(now))]).tx;
            && after == (if 0 < deadline <= Wrap32(now) then Quiet
                         else Waiting(m, Out(CfCount(|m|), Allowed(cfg, evs)), deadline))
            && ((after == Quiet <==> now >= t + cfg.nBs)
                <==> if deadline == 0 then now < t + cfg.nBs else SameWrap(t + cfg.nBs, now))
  {
    hide Wrap32, Run, Sent, Wire, Current, InTime, Steady, CfCount, Allowed, LastControl, Out, SameWrap;
    VaryingProgress(cfg, e, m, start, evs, log);
    RunSnoc(cfg, e, evs, Update(Wrap32(now)));
    WrapSum(t, cfg.nBs);
    DueIff(cfg.nBs, t, now);
  }
}
