/** The receive side against its history: what is being gathered, what is ready and what was read
    are each described by the calls made so far, without reference to the machine's state. */
module IsoTpReceive {
  import opened Words
  import opened IsoTpCodec
  import opened IsoTpMachine

  predicate StartsSingle(cfg: Config, ev: Event) {
    && ev.Receive? && IsData(cfg, ev.frame) && PciType(ev.frame) == SINGLE
    && 1 <= PciLow(ev.frame) <= ev.frame.dlc - 1
  }

  predicate StartsMulti(cfg: Config, ev: Event) {
    && ev.Receive? && IsData(cfg, ev.frame) && PciType(ev.frame) == FIRST
    && ev.frame.dlc == 8 && 8 <= FirstFrameLength(ev.frame)
  }

  predicate Starts(cfg: Config, ev: Event) { StartsSingle(cfg, ev) || StartsMulti(cfg, ev) }

  predicate IsCf(cfg: Config, ev: Event, sn: nat) {
    && ev.Receive? && IsData(cfg, ev.frame) && PciType(ev.frame) == CONSECUTIVE
    && PciLow(ev.frame) == sn
  }

  /** The event is the `j`-th frame of a message: its first frame, or a consecutive frame with
      sequence number `j` modulo 16. */
  predicate Takes(cfg: Config, ev: Event, j: nat) {
    if j == 0 then StartsMulti(cfg, ev) else IsCf(cfg, ev, j % 16)
  }

  /** The event neither restarts, nor continues, nor times out a reception that waits for `sn`. */
  predicate Ignored(cfg: Config, ev: Event, sn: nat, deadline: Tick) {
    !Starts(cfg, ev) && !IsCf(cfg, ev, sn) && (ev.Update? ==> !Expired(deadline, ev.now))
  }

  /** Position `i` lies after the `j`-th gathered frame and before the next one, if there is one. */
  predicate Between(evs: seq<Event>, idx: seq<nat>, j: nat, i: nat) {
    && j < |idx| && idx[j] < i < |evs|
    && (j + 1 < |idx| ==> i < idx[j + 1])
  }

  function NCr(cfg: Config, ev: Event): Tick
    requires ev.Receive?
  {
    Wrap32(ev.now + cfg.nCr)
  }

  predicate HasFrame(ev: Event) { ev.Receive? && ev.frame.dlc >= 1 }

  /** `idx` are the positions of the frames gathered so far for the message in progress, and every
      event between and after them was ignored. */
  ghost predicate Gathering(cfg: Config, evs: seq<Event>, idx: seq<nat>) {
    && |idx| >= 1
    && (forall j | 0 <= j < |idx| ::
          idx[j] < |evs| && evs[idx[j]].Receive? && evs[idx[j]].frame.dlc >= 1 && Takes(cfg, evs[idx[j]], j))
    && (forall j, k | 0 <= j < k < |idx| :: idx[j] < idx[k])
    && (forall j: nat, i: nat {:trigger Between(evs, idx, j, i)} | Between(evs, idx, j, i) ::
          Ignored(cfg, evs[i], (j + 1) % 16, NCr(cfg, evs[idx[j]])))
    && |Spelled(Frames(evs, idx))| < FirstFrameLength(evs[idx[0]].frame)
  }

  ghost function Frames(evs: seq<Event>, idx: seq<nat>): (s: seq<CanFrame>)
    requires forall j | 0 <= j < |idx| :: idx[j] < |evs| && evs[idx[j]].Receive? && evs[idx[j]].frame.dlc >= 1
    ensures |s| == |idx| && forall j | 0 <= j < |idx| :: s[j] == evs[idx[j]].frame
  {
    seq<CanFrame>(|idx|, j requires 0 <= j < |idx| => evs[idx[j]].frame)
  }

  ghost function Gathered(cfg: Config, evs: seq<Event>, idx: seq<nat>): Reassembly
    requires Gathering(cfg, evs, idx)
  {
    Partial(FirstFrameLength(evs[idx[0]].frame), Spelled(Frames(evs, idx)), |idx| % 16,
            NCr(cfg, evs[idx[|idx| - 1]]))
  }

  /** `last` is the next consecutive frame and brings the gathered text to the announced length. */
  ghost predicate Fills(cfg: Config, evs: seq<Event>, idx: seq<nat>, last: Event, p: seq<Byte>) {
    && Gathering(cfg, evs, idx) && IsCf(cfg, last, |idx| % 16)
    && var text := Spelled(Frames(evs, idx)) + ConsecutiveBytes(last.frame);
       var expected := FirstFrameLength(evs[idx[0]].frame);
       expected <= |text| && p == text[..expected]
  }

  /** The last event finishes the message `p`: it is a single frame that carries `p`, or the
      consecutive frame that fills the message being gathered. */
  ghost predicate Finishes(cfg: Config, evs: seq<Event>, p: seq<Byte>) {
    && evs != []
    && var before, last := evs[..|evs| - 1], evs[|evs| - 1];
       || (StartsSingle(cfg, last) && p == last.frame.data[1..1 + PciLow(last.frame)])
       || (exists idx :: Fills(cfg, before, idx, last, p))
  }

  /** The most recent message finished is `p`, and neither a new message nor a read came after it. */
  ghost predicate Ready(cfg: Config, evs: seq<Event>, p: seq<Byte>) {
    && evs != []
    && var last := evs[|evs| - 1];
       || Finishes(cfg, evs, p)
       || (!Starts(cfg, last) && !last.Read? && Ready(cfg, evs[..|evs| - 1], p))
  }

  lemma StepStarts(cfg: Config, e: Endpoint, ev: Event)
    requires e.Valid() && Starts(cfg, ev)
    ensures StartsMulti(cfg, ev) ==>
              Step(cfg, e, ev).next.rx
              == Partial(FirstFrameLength(ev.frame), FirstFrameBytes(ev.frame), 1, NCr(cfg, ev))
    ensures StartsSingle(cfg, ev) ==>
              Step(cfg, e, ev).next.rx == Complete(ev.frame.data[1..1 + PciLow(ev.frame)])
  {}

  lemma StepTakes(cfg: Config, e: Endpoint, ev: Event)
    requires e.Valid() && e.rx.Partial? && IsCf(cfg, ev, e.rx.sn)
    ensures var r, text := e.rx, e.rx.got + ConsecutiveBytes(ev.frame);
            Step(cfg, e, ev).next.rx
            == if |text| < r.expected then Partial(r.expected, text, (r.sn + 1) % 16, NCr(cfg, ev))
               else Complete(text[..r.expected])
  {
    var f, r := ev.frame, e.rx;
    var n := Min(r.expected - |r.got|, f.dlc - 1);
    var text := r.got + ConsecutiveBytes(f);
    TakeOfSlice(f.data, 1, f.dlc, n);
    assert r.got + f.data[1..1 + n] == text[..|r.got| + n];
  }

  lemma StepOther(cfg: Config, e: Endpoint, ev: Event)
    requires e.Valid() && !Starts(cfg, ev)
    ensures var r, r' := e.rx, Step(cfg, e, ev).next.rx;
            && (r.Idle? ==> r' == Idle)
            && (r.Complete? ==> r' == if ev.Read? then Idle else r)
            && (r.Partial? && Ignored(cfg, ev, r.sn, r.deadline) ==> r' == r)
            && (r.Partial? && ev.Update? && Expired(r.deadline, ev.now) ==> r' == Idle)
  {}

  /** An ignored event leaves the gathered frames as they were. */
  lemma GatheringIgnores(cfg: Config, evs: seq<Event>, idx: seq<nat>, ev: Event)
    requires Gathering(cfg, evs, idx)
    requires Ignored(cfg, ev, |idx| % 16, NCr(cfg, evs[idx[|idx| - 1]]))
    ensures Gathering(cfg, evs + [ev], idx) && Gathered(cfg, evs + [ev], idx) == Gathered(cfg, evs, idx)
  {
    hide Spelled, Takes, FirstFrameLength, Ignored, Wrap32;
    var all := evs + [ev];
    assert Frames(all, idx) == Frames(evs, idx);
    forall j: nat, i: nat | Between(all, idx, j, i)
      ensures Ignored(cfg, all[i], (j + 1) % 16, NCr(cfg, all[idx[j]]))
    {
      assert i < |evs| ==> Between(evs, idx, j, i);
      assert i == |evs| ==> j == |idx| - 1;
    }
  }

  lemma TakesCf(cfg: Config, ev: Event, j: nat)
    requires IsCf(cfg, ev, j % 16) && j > 0
    ensures HasFrame(ev) && Takes(cfg, ev, j)
  {}

  /** The next consecutive frame joins them, unless it completes the text. */
  lemma GatheringTakes(cfg: Config, evs: seq<Event>, idx: seq<nat>, ev: Event)
    requires Gathering(cfg, evs, idx) && IsCf(cfg, ev, |idx| % 16)
    requires |Spelled(Frames(evs, idx)) + ConsecutiveBytes(ev.frame)| < FirstFrameLength(evs[idx[0]].frame)
    ensures var more := idx + [|evs|];
            && Gathering(cfg, evs + [ev], more)
            && Gathered(cfg, evs + [ev], more)
               == Partial(FirstFrameLength(evs[idx[0]].frame), Spelled(Frames(evs, idx)) + ConsecutiveBytes(ev.frame),
                          (|idx| + 1) % 16, NCr(cfg, ev))
  {
    hide Takes, FirstFrameLength, Ignored, Wrap32, ConsecutiveBytes, IsCf, Spelled;
    TakesCf(cfg, ev, |idx|);
    var all, more := evs + [ev], idx + [|evs|];
    assert Frames(all, more) == Frames(evs, idx) + [ev.frame];
    SpelledSnoc(Frames(evs, idx), ev.frame);
    forall j: nat, i: nat | Between(all, more, j, i)
      ensures Ignored(cfg, all[i], (j + 1) % 16, NCr(cfg, all[more[j]]))
    {
      assert Between(evs, idx, j, i);
    }
  }

  /** A first frame begins a message whatever came before. */
  lemma GatheringStarts(cfg: Config, evs: seq<Event>, ev: Event)
    requires StartsMulti(cfg, ev)
    ensures var idx := [|evs|];
            && Gathering(cfg, evs + [ev], idx)
            && Gathered(cfg, evs + [ev], idx)
               == Partial(FirstFrameLength(ev.frame), FirstFrameBytes(ev.frame), 1, NCr(cfg, ev))
  {
    var idx := [|evs|];
    assert Frames(evs + [ev], idx) == [ev.frame];
  }

  /** Reception state `r` is what the frames gathered in `evs` amount to. */
  ghost predicate Explains(cfg: Config, evs: seq<Event>, r: Reassembly) {
    exists idx :: Gathering(cfg, evs, idx) && r == Gathered(cfg, evs, idx)
  }

  lemma ExplainedBy(cfg: Config, evs: seq<Event>, r: Reassembly) returns (idx: seq<nat>)
    requires Explains(cfg, evs, r)
    ensures Gathering(cfg, evs, idx) && r == Gathered(cfg, evs, idx) && r.Partial? && r.sn == |idx| % 16
  {
    hide Gathering, Spelled, FirstFrameLength;
    idx :| Gathering(cfg, evs, idx) && r == Gathered(cfg, evs, idx);
  }

  lemma ExplainsIgnored(cfg: Config, evs: seq<Event>, r: Reassembly, ev: Event)
    requires Explains(cfg, evs, r) && r.Partial? && Ignored(cfg, ev, r.sn, r.deadline)
    ensures Explains(cfg, evs + [ev], r)
  {
    hide Gathering, Ignored, Spelled, FirstFrameLength;
    var idx := ExplainedBy(cfg, evs, r);
    GatheringIgnores(cfg, evs, idx, ev);
  }

  lemma ExplainsTaken(cfg: Config, evs: seq<Event>, r: Reassembly, ev: Event)
    requires Explains(cfg, evs, r) && r.Partial? && IsCf(cfg, ev, r.sn)
    requires |r.got + ConsecutiveBytes(ev.frame)| < r.expected
    ensures Explains(cfg, evs + [ev],
                     Partial(r.expected, r.got + ConsecutiveBytes(ev.frame), (r.sn + 1) % 16, NCr(cfg, ev)))
  {
    hide Gathering, IsCf, Spelled, FirstFrameLength, ConsecutiveBytes, NCr, Explains, Frames;
    var idx := ExplainedBy(cfg, evs, r);
    GatheringTakes(cfg, evs, idx, ev);
    NextOfSixteen(|idx|);
    ExplainedWith(cfg, evs + [ev], idx + [|evs|]);
  }

  lemma NextOfSixteen(n: nat)
    ensures (n % 16 + 1) % 16 == (n + 1) % 16
  {}

  lemma ExplainedWith(cfg: Config, evs: seq<Event>, idx: seq<nat>)
    requires Gathering(cfg, evs, idx)
    ensures Explains(cfg, evs, Gathered(cfg, evs, idx))
  {
    hide Gathering, Gathered;
  }

  lemma ExplainsStep(cfg: Config, evs: seq<Event>, e: Endpoint, ev: Event)
    requires e.Valid() && (e.rx.Partial? ==> Explains(cfg, evs, e.rx))
    ensures var r := Step(cfg, e, ev).next.rx; r.Partial? ==> Explains(cfg, evs + [ev], r)
  {
    if Starts(cfg, ev) {
      hide Step, Gathering, IsData;
      StepStarts(cfg, e, ev);
      if StartsMulti(cfg, ev) {
        GatheringStarts(cfg, evs, ev);
      }
    } else {
      hide Step, StartsMulti, StartsSingle, IsCf, Expired, Explains, NCr;
      StepOther(cfg, e, ev);
      if e.rx.Partial? && IsCf(cfg, ev, e.rx.sn) {
        StepTakes(cfg, e, ev);
        if Step(cfg, e, ev).next.rx.Partial? {
          ExplainsTaken(cfg, evs, e.rx, ev);
        }
      } else if Step(cfg, e, ev).next.rx.Partial? {
        ExplainsIgnored(cfg, evs, e.rx, ev);
      }
    }
  }

  lemma {:induction false} PartialIsExplained(cfg: Config, e: Endpoint, evs: seq<Event>)
    requires e.Valid() && e.rx == Idle
    ensures Run(cfg, e, evs).rx.Partial? ==> Explains(cfg, evs, Run(cfg, e, evs).rx)
  {
    hide Step, Explains;
    if evs != [] {
      PartialIsExplained(cfg, e, evs[..|evs| - 1]);
      ExplainsStep(cfg, evs[..|evs| - 1], Run(cfg, e, evs[..|evs| - 1]), evs[|evs| - 1]);
      assert evs[..|evs| - 1] + [evs[|evs| - 1]] == evs;
    }
  }

  /** The last event was ignored, so the frames were gathered before it. */
  lemma GatheringBeforeIgnored(cfg: Config, evs: seq<Event>, idx: seq<nat>, ev: Event)
    requires Gathering(cfg, evs + [ev], idx) && idx[|idx| - 1] < |evs|
    ensures Gathering(cfg, evs, idx) && Gathered(cfg, evs + [ev], idx) == Gathered(cfg, evs, idx)
    ensures Ignored(cfg, ev, |idx| % 16, NCr(cfg, evs[idx[|idx| - 1]])) && !Starts(cfg, ev)
  {
    var all := evs + [ev];
    assert Between(all, idx, |idx| - 1, |evs|);
    assert !Starts(cfg, all[|evs|]);
    hide Spelled, Takes, FirstFrameLength, Ignored, Wrap32;
    forall j | 0 <= j < |idx| ensures idx[j] < |evs| {
      assert j < |idx| - 1 ==> idx[j] < idx[|idx| - 1];
    }
    assert Frames(all, idx) == Frames(evs, idx);
    forall j: nat, i: nat | Between(evs, idx, j, i)
      ensures Ignored(cfg, evs[i], (j + 1) % 16, NCr(cfg, evs[idx[j]]))
    {
      assert Between(all, idx, j, i);
    }
  }

  /** The last event was the last frame gathered, so the others were gathered before it. */
  lemma GatheringBeforeTaken(cfg: Config, evs: seq<Event>, idx: seq<nat>, ev: Event)
    requires Gathering(cfg, evs + [ev], idx) && idx[|idx| - 1] == |evs| && |idx| > 1
    ensures var less := idx[..|idx| - 1];
            && Gathering(cfg, evs, less) && IsCf(cfg, ev, |less| % 16)
            && |Spelled(Frames(evs, less)) + ConsecutiveBytes(ev.frame)| < FirstFrameLength(evs[less[0]].frame)
            && Gathered(cfg, evs + [ev], idx)
               == Partial(FirstFrameLength(evs[less[0]].frame), Spelled(Frames(evs, less)) + ConsecutiveBytes(ev.frame),
                          (|less| + 1) % 16, NCr(cfg, ev))
  {
    assert Takes(cfg, (evs + [ev])[idx[|idx| - 1]], |idx| - 1);
    hide Takes, FirstFrameLength, Ignored, Wrap32, ConsecutiveBytes, IsCf;
    var all, less := evs + [ev], idx[..|idx| - 1];
    forall j | 0 <= j < |less| ensures less[j] < |evs| && all[idx[j]] == evs[less[j]] {
      assert idx[j] < idx[|idx| - 1];
    }
    var frames := Frames(all, idx);
    assert frames[..|frames| - 1] == Frames(evs, less);
    forall j: nat, i: nat | Between(evs, less, j, i)
      ensures Ignored(cfg, evs[i], (j + 1) % 16, NCr(cfg, evs[less[j]]))
    {
      assert Between(all, idx, j, i);
    }
  }

  lemma GatheringEnds(cfg: Config, evs: seq<Event>, idx: seq<nat>)
    requires Gathering(cfg, evs, idx)
    ensures |idx| >= 1 && idx[|idx| - 1] < |evs| && idx[0] < |evs| && StartsMulti(cfg, evs[idx[0]])
  {
    hide StartsMulti, Spelled, Ignored, IsCf;
  }

  lemma {:induction false} ExplainedIsPartial(cfg: Config, e: Endpoint, evs: seq<Event>, idx: seq<nat>)
    requires e.Valid() && Gathering(cfg, evs, idx)
    ensures Run(cfg, e, evs).rx == Gathered(cfg, evs, idx)
    decreases |evs|
  {
    hide Step, Run, StartsMulti, StartsSingle, IsCf, Ignored, Spelled, Frames, NCr, FirstFrameLength, Gathering, Takes,
         ConsecutiveBytes, FirstFrameBytes;
    GatheringEnds(cfg, evs, idx);
    var before, ev := evs[..|evs| - 1], evs[|evs| - 1];
    assert evs == before + [ev];
    RunSnoc(cfg, e, before, ev);
    if idx[|idx| - 1] < |before| {
      GatheringBeforeIgnored(cfg, before, idx, ev);
      ExplainedIsPartial(cfg, e, before, idx);
      StepOther(cfg, Run(cfg, e, before), ev);
    } else if |idx| > 1 {
      GatheringBeforeTaken(cfg, before, idx, ev);
      ExplainedIsPartial(cfg, e, before, idx[..|idx| - 1]);
      StepTakes(cfg, Run(cfg, e, before), ev);
    } else {
      assert idx == [|before|];
      GatheringStarts(cfg, before, ev);
      StepStarts(cfg, Run(cfg, e, before), ev);
    }
  }

  /** What is being gathered is exactly what the history explains. */
  lemma PartialIffExplained(cfg: Config, e: Endpoint, evs: seq<Event>, r: Reassembly)
    requires e.Valid() && e.rx == Idle && r.Partial?
    ensures Run(cfg, e, evs).rx == r <==> Explains(cfg, evs, r)
  {
    hide Step, Gathering;
    PartialIsExplained(cfg, e, evs);
    if Explains(cfg, evs, r) {
      var idx :| Gathering(cfg, evs, idx) && r == Gathered(cfg, evs, idx);
      ExplainedIsPartial(cfg, e, evs, idx);
    }
  }

  lemma FillsStep(cfg: Config, e: Endpoint, evs: seq<Event>, idx: seq<nat>, ev: Event, p: seq<Byte>)
    requires e.Valid() && Gathering(cfg, evs, idx) && IsCf(cfg, ev, |idx| % 16)
    ensures Fills(cfg, evs, idx, ev, p) <==> Step(cfg, Run(cfg, e, evs), ev).next.rx == Complete(p)
  {
    hide Step, Run, IsCf, Spelled, Frames, NCr, FirstFrameLength, Gathering, ConsecutiveBytes;
    ExplainedIsPartial(cfg, e, evs, idx);
    StepTakes(cfg, Run(cfg, e, evs), ev);
  }

  lemma FinishesStep(cfg: Config, e: Endpoint, evs: seq<Event>, ev: Event, p: seq<Byte>)
    requires e.Valid() && e.rx == Idle
    ensures Finishes(cfg, evs + [ev], p) ==> Step(cfg, Run(cfg, e, evs), ev).next.rx == Complete(p)
    ensures Step(cfg, Run(cfg, e, evs), ev).next.rx == Complete(p) ==>
              || Finishes(cfg, evs + [ev], p)
              || (Run(cfg, e, evs).rx == Complete(p) && !Starts(cfg, ev) && !ev.Read?)
  {
    hide Step, Run, StartsMulti, StartsSingle, IsCf, Gathering, Gathered, Fills;
    var prior, all := Run(cfg, e, evs), evs + [ev];
    assert all[..|all| - 1] == evs;
    if Starts(cfg, ev) {
      StepStarts(cfg, prior, ev);
    } else {
      StepOther(cfg, prior, ev);
    }
    forall idx | Fills(cfg, evs, idx, ev, p)
      ensures Step(cfg, prior, ev).next.rx == Complete(p)
    {
      FillsParts(cfg, evs, idx, ev, p);
      FillsStep(cfg, e, evs, idx, ev, p);
    }
    if prior.rx.Partial? && IsCf(cfg, ev, prior.rx.sn) {
      PartialIsExplained(cfg, e, evs);
      var idx := ExplainedBy(cfg, evs, prior.rx);
      FillsStep(cfg, e, evs, idx, ev, p);
    }
  }

  lemma FillsParts(cfg: Config, evs: seq<Event>, idx: seq<nat>, ev: Event, p: seq<Byte>)
    requires Fills(cfg, evs, idx, ev, p)
    ensures Gathering(cfg, evs, idx) && IsCf(cfg, ev, |idx| % 16)
  {
    hide Gathering, IsCf;
  }

  /** A message is ready to be read exactly when the history says so. */
  lemma {:induction false} CompleteIffReady(cfg: Config, e: Endpoint, evs: seq<Event>, p: seq<Byte>)
    requires e.Valid() && e.rx == Idle
    ensures Run(cfg, e, evs).rx == Complete(p) <==> Ready(cfg, evs, p)
  {
    hide Step, StartsMulti, StartsSingle, Finishes;
    if evs != [] {
      var before, ev := evs[..|evs| - 1], evs[|evs| - 1];
      assert evs == before + [ev];
      CompleteIffReady(cfg, e, before, p);
      FinishesStep(cfg, e, before, ev, p);
      if !Starts(cfg, ev) {
        StepOther(cfg, Run(cfg, e, before), ev);
      }
    }
  }

  /** What a read at the end of `evs` returns, as the history has it: the message that is ready, cut to
      the room given. */
  ghost function ReadText(cfg: Config, evs: seq<Event>, max: nat): seq<Byte> {
    if p :| Ready(cfg, evs, p) then p[..Min(max, |p|)] else []
  }

  /** The non-empty texts of the reads, in order. */
  ghost function ReadTexts(cfg: Config, evs: seq<Event>): seq<seq<Byte>> {
    if evs == [] then []
    else
      var before, ev := evs[..|evs| - 1], evs[|evs| - 1];
      var text := if ev.Read? then ReadText(cfg, before, ev.max) else [];
      ReadTexts(cfg, before) + if text == [] then [] else [text]
  }

  /** Only one message can be ready, and it is what a read returns. */
  lemma ReadTextIs(cfg: Config, e: Endpoint, evs: seq<Event>, max: nat)
    requires e.Valid() && e.rx == Idle
    ensures ReadText(cfg, evs, max) == Step(cfg, Run(cfg, e, evs), Read(max)).delivered
  {
    hide Run, Ready;
    forall p | Ready(cfg, evs, p) ensures Run(cfg, e, evs).rx == Complete(p) {
      CompleteIffReady(cfg, e, evs, p);
    }
    if Run(cfg, e, evs).rx.Complete? {
      CompleteIffReady(cfg, e, evs, Run(cfg, e, evs).rx.payload);
    }
  }

  /** The texts delivered by a run are exactly those that its reads find in the history: each read gives
      the message that was ready when it asked, cut to the room it gave, each once and in order. */
  lemma {:induction false} DeliveredIsHistory(cfg: Config, e: Endpoint, evs: seq<Event>)
    requires e.Valid() && e.rx == Idle
    ensures Delivered(cfg, e, evs) == ReadTexts(cfg, evs)
  {
    hide Run, ReadText;
    if evs != [] {
      var before, ev := evs[..|evs| - 1], evs[|evs| - 1];
      DeliveredIsHistory(cfg, e, before);
      if ev.Read? {
        ReadTextIs(cfg, e, before, ev.max);
      } else {
        OnlyReadsDeliver(cfg, Run(cfg, e, before), ev);
      }
      hide Step;
    }
  }

  lemma OnlyReadsDeliver(cfg: Config, e: Endpoint, ev: Event)
    requires e.Valid() && !ev.Read?
    ensures Step(cfg, e, ev).delivered == []
  {}
}
