/** Everything a sender puts on the bus, message after message, at one receiver. */
module IsoTpStreams {
  import opened Words
  import opened IsoTpCodec
  import opened IsoTpMachine
  import opened IsoTpTransmit
  import opened IsoTpEndToEnd

  // ---- What is on the bus ----

  predicate Accepted(ev: Event) { ev.Send? && 1 <= |ev.message| <= MAX_PAYLOAD && ev.room > 0 }

  /** The messages whose single or first frame went out, in the order of the calls. */
  function Messages(evs: seq<Event>): seq<seq<Byte>> {
    if evs == [] then []
    else
      var ev := evs[|evs| - 1];
      Messages(evs[..|evs| - 1]) + if Accepted(ev) then [ev.message] else []
  }

  lemma MessagesSnoc(evs: seq<Event>, ev: Event)
    ensures Messages(evs + [ev]) == Messages(evs) + if Accepted(ev) then [ev.message] else []
  {
    assert (evs + [ev])[..|evs|] == evs;
  }

  lemma NoMessages()
    ensures Messages([]) == []
  {}

  /** The position of the latest message that takes more than one frame. */
  function LastLong(msgs: seq<seq<Byte>>): (i: Option<nat>)
    ensures i.Some? ==> i.value < |msgs| && 8 <= |msgs[i.value]|
  {
    if msgs == [] then None
    else if 8 <= |msgs[|msgs| - 1]| then Some(|msgs| - 1)
    else LastLong(msgs[..|msgs| - 1])
  }

  /** The frame with which a message begins. */
  function Opening(id: nat, m: seq<Byte>): CanFrame
    requires 1 <= |m| <= MAX_PAYLOAD
  {
    if |m| <= 7 then SingleFrame(id, m) else FirstFrame(id, m)
  }

  predicate Opens(f: CanFrame) { PciType(f) == FIRST || (PciType(f) == SINGLE && PciLow(f) != 0) }

  /** A flow control frame of this library, as others read it. */
  predicate Empty(id: nat, f: CanFrame) { f.id == id && f.dlc >= 1 && PciType(f) == SINGLE && PciLow(f) == 0 }

  /** The next consecutive frame of the latest long message. */
  predicate Continues(id: nat, f: CanFrame, msgs: seq<seq<Byte>>, k: nat) {
    && LastLong(msgs).Some?
    && var m := msgs[LastLong(msgs).value];
       |m| <= MAX_PAYLOAD && 1 <= k <= CfCount(|m|) && f == ConsecutiveFrame(id, m, k)
  }

  /** The log opens these messages in this order and continues the latest long one in between. */
  predicate Describes(id: nat, log: seq<CanFrame>, msgs: seq<seq<Byte>>) {
    if log == [] then msgs == []
    else
      var before, f := log[..|log| - 1], log[|log| - 1];
      if Opens(f) then
        && msgs != [] && 1 <= |msgs[|msgs| - 1]| <= MAX_PAYLOAD
        && f == Opening(id, msgs[|msgs| - 1]) && Describes(id, before, msgs[..|msgs| - 1])
      else
        (Empty(id, f) || Continues(id, f, msgs, |Current(before)|)) && Describes(id, before, msgs)
  }

  lemma OpeningOpens(id: nat, m: seq<Byte>)
    requires 1 <= |m| <= MAX_PAYLOAD
    ensures var f := Opening(id, m);
            && Opens(f) && f.id == id && f.dlc >= 2
            && PciType(f) == if |m| <= 7 then SINGLE else FIRST
  {
    if |m| <= 7 {
      var f := SingleFrame(id, m);
      assert f.data[0] == f.data[..|m| + 1][0];
    } else {
      FirstFrameLengthRoundTrip(id, m);
    }
  }

  lemma ContinuesType(id: nat, f: CanFrame, msgs: seq<seq<Byte>>, k: nat)
    requires Continues(id, f, msgs, k)
    ensures PciType(f) == CONSECUTIVE && f.id == id && f.dlc >= 1 && !Opens(f)
  {
    var m := msgs[LastLong(msgs).value];
    CfShape(id, m, k);
    CfId(id, m, k);
    hide ConsecutiveFrame, CfCount;
  }

  lemma DescribesSnoc(id: nat, log: seq<CanFrame>, f: CanFrame, msgs: seq<seq<Byte>>)
    ensures !Opens(f) ==>
              (Describes(id, log + [f], msgs) <==>
               (Empty(id, f) || Continues(id, f, msgs, |Current(log)|)) && Describes(id, log, msgs))
  {
    hide Opens, Empty, Continues, Current;
    assert (log + [f])[..|log|] == log;
  }

  lemma DescribesOpening(id: nat, log: seq<CanFrame>, m: seq<Byte>, msgs: seq<seq<Byte>>)
    requires 1 <= |m| <= MAX_PAYLOAD && Describes(id, log, msgs)
    ensures Describes(id, log + [Opening(id, m)], msgs + [m])
  {
    OpeningOpens(id, m);
    hide Opens, Empty, Continues, Current, Opening;
    assert (log + [Opening(id, m)])[..|log|] == log && (msgs + [m])[..|msgs|] == msgs;
  }

  lemma {:induction false} DescribesRange(id: nat, log: seq<CanFrame>, msgs: seq<seq<Byte>>, from: nat, till: nat)
    requires LastLong(msgs).Some? && |msgs[LastLong(msgs).value]| <= MAX_PAYLOAD
    requires var m := msgs[LastLong(msgs).value];
             from <= till <= CfCount(|m|) && Current(log) == Wire(id, m, from)
    requires Describes(id, log, msgs)
    ensures Describes(id, log + CfRange(id, msgs[LastLong(msgs).value], from, till), msgs)
    decreases till - from
  {
    hide Describes, ConsecutiveFrame, CfCount, LastLong, Current, Wire, CfRange;
    var m := msgs[LastLong(msgs).value];
    if from == till {
      CfRangeEmpty(id, m, from);
      assert log + [] == log;
    } else {
      DescribesRange(id, log, msgs, from, till - 1);
      var prior, f := log + CfRange(id, m, from, till - 1), ConsecutiveFrame(id, m, till);
      CurrentAppend(log, id, m, from, till - 1);
      CfRangeSnoc(id, m, from, till - 1);
      assert log + CfRange(id, m, from, till) == prior + [f];
      assert Continues(id, f, msgs, |Current(prior)|);
      ContinuesType(id, f, msgs, |Current(prior)|);
      DescribesSnoc(id, prior, f, msgs);
    }
  }

  lemma CfRangeEmpty(id: nat, m: seq<Byte>, k: nat)
    requires 8 <= |m| <= MAX_PAYLOAD && k <= CfCount(|m|)
    ensures CfRange(id, m, k, k) == []
  {
    hide CfCount, ConsecutiveFrame;
  }

  /** The latest long message is the one the transmit side is working on. */
  lemma {:induction false} LastLongIsCurrent(evs: seq<Event>)
    ensures var msgs := Messages(evs);
            LastMessage(evs) == if LastLong(msgs) == None then None else Some(msgs[LastLong(msgs).value])
  {
    if evs != [] {
      var before, ev := evs[..|evs| - 1], evs[|evs| - 1];
      LastLongIsCurrent(before);
      if Accepted(ev) {
        assert (Messages(before) + [ev.message])[..|Messages(before)|] == Messages(before);
      } else {
        assert Messages(before) + [] == Messages(before);
      }
    }
  }

  lemma DescribesStep(cfg: Config, e: Endpoint, ev: Event, log: seq<CanFrame>, msgs: seq<seq<Byte>>)
    requires e.Valid() && Describes(cfg.txId, log, msgs)
    requires InStep(cfg, e.tx, if LastLong(msgs) == None then None else Some(msgs[LastLong(msgs).value]), Current(log))
    ensures Describes(cfg.txId, log + Step(cfg, e, ev).sent, msgs + if Accepted(ev) then [ev.message] else [])
  {
    hide Describes, OnFlowControl, RxFrame, CfCount, Wire, Current, LastLong, CfRange, OnSend;
    assert log + [] == log && msgs + [] == msgs;
    match ev
    case Receive(f, now, room) =>
      if IsData(cfg, f) {
        AnswerDescribed(cfg, e.rx, f, now, room, log, msgs);
      } else if IsControl(cfg, f) {
        ControlSends(cfg, e.tx, f, now, room);
        var o := OnFlowControl(cfg, e.tx, f, now, room);
        if o.sent != [] {
          DescribesRange(cfg.txId, log, msgs, e.tx.cfs, if o.tx.Quiet? then CfCount(|e.tx.message|) else o.tx.cfs);
        }
      }
    case Send(m, now, room) =>
      SendOpens(cfg, e.tx, m, now, room);
      if Accepted(ev) {
        DescribesOpening(cfg.txId, log, m, msgs);
      }
    case _ =>
  }

  lemma SendOpens(cfg: Config, t: Transmission, m: seq<Byte>, now: Tick, room: nat)
    ensures OnSend(cfg, t, m, now, room).sent == if Accepted(Send(m, now, room)) then [Opening(cfg.txId, m)] else []
  {
    hide SingleFrame, FirstFrame;
  }

  lemma AnswerDescribed(cfg: Config, r: Reassembly, f: CanFrame, now: Tick, room: nat, log: seq<CanFrame>,
                        msgs: seq<seq<Byte>>)
    requires r.Valid() && IsData(cfg, f) && Describes(cfg.txId, log, msgs)
    ensures Describes(cfg.txId, log + RxFrame(cfg, r, f, now, room).sent, msgs)
  {
    var answer := EmittedFlowControl(cfg.txId, CTS, cfg.blockSize, cfg.stMin);
    EmittedFlowControlType(cfg.txId, CTS, cfg.blockSize, cfg.stMin);
    DescribesSnoc(cfg.txId, log, answer, msgs);
    hide Describes, Continues, Current;
    assert log + [] == log;
  }

  /** In every run, what a sender puts on the bus is described by the messages it accepted. */
  lemma {:induction false} SentIsDescribed(cfg: Config, e: Endpoint, evs: seq<Event>)
    requires e.Valid() && e.tx == Quiet
    ensures Describes(cfg.txId, Sent(cfg, e, evs), Messages(evs))
  {
    hide Step, Describes, InStep, LastLong, Current, LastMessage, Accepted;
    if evs == [] {
      NothingDescribed(cfg.txId);
    } else {
      var before, ev := evs[..|evs| - 1], evs[|evs| - 1];
      SentIsDescribed(cfg, e, before);
      SentIsInStep(cfg, e, before);
      LastLongIsCurrent(before);
      DescribesStep(cfg, Run(cfg, e, before), ev, Sent(cfg, e, before), Messages(before));
    }
  }

  lemma NothingDescribed(id: nat)
    ensures Describes(id, [], [])
  {}

  /** How many messages a log opens. */
  function Opened(log: seq<CanFrame>): nat {
    if log == [] then 0 else Opened(log[..|log| - 1]) + if Opens(log[|log| - 1]) then 1 else 0
  }

  lemma {:induction false} DescribesPrefix(id: nat, log: seq<CanFrame>, msgs: seq<seq<Byte>>, q: nat)
    requires Describes(id, log, msgs) && q <= |log|
    ensures Opened(log) == |msgs| && Opened(log[..q]) <= |msgs|
    ensures Describes(id, log[..q], msgs[..Opened(log[..q])])
    decreases |log|
  {
    hide Opens, Empty, Continues, Current, Opening;
    if log == [] {
    } else {
      var before := log[..|log| - 1];
      var prior := if Opens(log[|log| - 1]) then msgs[..|msgs| - 1] else msgs;
      DescribesPrefix(id, before, prior, if q < |log| then q else q - 1);
      if q < |log| {
        assert before[..q] == log[..q];
        assert prior[..Opened(log[..q])] == msgs[..Opened(log[..q])];
      } else {
        assert log[..q] == log && before[..q - 1] == before && msgs[..|msgs|] == msgs;
      }
    }
  }

  // ---- What is delivered ----

  /** The texts are some of the messages, in order. If `again`, a message of a single frame may be there
      several times in a row. */
  predicate Selected(texts: seq<seq<Byte>>, msgs: seq<seq<Byte>>, again: bool)
    decreases |msgs|, |texts|
  {
    texts == [] ||
    (msgs != [] &&
     var m, rest := msgs[|msgs| - 1], msgs[..|msgs| - 1];
     || Selected(texts, rest, again)
     || (texts[|texts| - 1] == m && Selected(texts[..|texts| - 1], rest, again))
     || (texts[|texts| - 1] == m && again && |m| <= 7 && Selected(texts[..|texts| - 1], msgs, again)))
  }

  lemma SelectedSnoc(texts: seq<seq<Byte>>, msgs: seq<seq<Byte>>, m: seq<Byte>, again: bool)
    ensures Selected(texts, msgs, again) ==>
              Selected(texts, msgs + [m], again) && Selected(texts + [m], msgs + [m], again)
    ensures again && |m| <= 7 && Selected(texts, msgs + [m], again) ==> Selected(texts + [m], msgs + [m], again)
  {
    assert (msgs + [m])[..|msgs|] == msgs && (texts + [m])[..|texts|] == texts;
  }

  lemma {:induction false} SelectedPrefix(texts: seq<seq<Byte>>, a: seq<seq<Byte>>, b: seq<seq<Byte>>, again: bool)
    requires Selected(texts, a, again) && a <= b
    ensures Selected(texts, b, again)
    decreases |b|
  {
    hide Selected;
    if |a| < |b| {
      var init := b[..|b| - 1];
      SelectedPrefix(texts, a, init, again);
      SelectedSnoc(texts, init, b[|b| - 1], again);
      assert b == init + [b[|b| - 1]];
    } else {
      assert a == b;
    }
  }

  /** Without repetition, a selection is a subsequence: every text is one of the messages, and later texts
      are later messages. */
  lemma {:induction false} SelectedIsSubsequence(texts: seq<seq<Byte>>, msgs: seq<seq<Byte>>) returns (at: seq<nat>)
    requires Selected(texts, msgs, false)
    ensures |at| == |texts|
    ensures forall k | 0 <= k < |at| :: at[k] < |msgs| && msgs[at[k]] == texts[k]
    ensures forall j, k | 0 <= j < k < |at| :: at[j] < at[k]
    decreases |msgs|
  {
    if texts == [] {
      at := [];
    } else {
      var rest := msgs[..|msgs| - 1];
      if Selected(texts, rest, false) {
        at := SelectedIsSubsequence(texts, rest);
      } else {
        var init := SelectedIsSubsequence(texts[..|texts| - 1], rest);
        at := init + [|msgs| - 1];
      }
    }
  }

  /** How much of the log the receiver has seen or missed: up to and with the last frame that arrived. */
  function Passed(bus: seq<Arrival>): nat {
    if bus == [] then 0
    else if bus[|bus| - 1].Arrives? then bus[|bus| - 1].index + 1
    else Passed(bus[..|bus| - 1])
  }

  /** The bus carries the log in order. It may lose frames, but no first frame before one that arrives,
      and it may repeat the frame it has just carried; a single frame only if `again`. Fetches make room
      for any message. */
  predicate Carries(log: seq<CanFrame>, bus: seq<Arrival>, again: bool) {
    bus == [] ||
    var before, a := bus[..|bus| - 1], bus[|bus| - 1];
    && Carries(log, before, again)
    && match a
       case Poll(_) => true
       case Fetch(max) => max >= MAX_PAYLOAD
       case Arrives(x, _, _) =>
         && x < |log| && Passed(before) <= x + 1
         && (forall y | Passed(before) <= y < x :: PciType(log[y]) != FIRST)
         && (x + 1 == Passed(before) && Opens(log[x]) && PciType(log[x]) == SINGLE ==> again)
  }

  /** A message that was ready before the first frame arrived. */
  function Owed(r: Reassembly): seq<seq<Byte>> { if r.Complete? then [r.payload] else [] }

  /** The reception follows the long message `m`, of which `c - 1` consecutive frames have passed. */
  ghost predicate Follows(m: seq<Byte>, c: nat, r: Reassembly)
    requires 8 <= |m|
  {
    c >= 1 && exists last: nat, gapless: bool, j: nat, i: nat :: last <= c - 1 && Tracks(m, r, last, gapless, j, i)
  }

  /** The texts delivered are a selection of the messages that have passed, and what is ready or being
      gathered can be delivered next. `c` counts the data frames since the latest first frame, and `first`
      says that the last frame to pass was one. */
  ghost predicate Keeps(owed: seq<seq<Byte>>, msgs: seq<seq<Byte>>, c: nat, first: bool, r: Reassembly,
                        texts: seq<seq<Byte>>, again: bool)
  {
    && Selected(texts, owed + msgs, again)
    && (first ==>
          LastLong(msgs) == Some(|msgs| - 1) && !r.Complete? && Selected(texts, owed + msgs[..|msgs| - 1], again))
    && match r
       case Idle => true
       case Complete(t) => Selected(texts + [t], owed + msgs, again)
       case Partial(_, _, _, _) =>
         LastLong(msgs).Some? ==>
           var i := LastLong(msgs).value;
           Follows(msgs[i], c, r) && Selected(texts, owed + msgs[..i], again)
  }

  /** Frames that are no first frames pass unseen. */
  lemma KeepsLater(owed: seq<seq<Byte>>, a: seq<seq<Byte>>, b: seq<seq<Byte>>, c: nat, c': nat, first: bool,
                   r: Reassembly, texts: seq<seq<Byte>>, again: bool)
    requires Keeps(owed, a, c, first, r, texts, again) && a <= b && LastLong(a) == LastLong(b) && c <= c'
    ensures Keeps(owed, b, c', false, r, texts, again)
  {
    hide Selected, Tracks, LastLong;
    assert owed + a <= owed + b;
    SelectedPrefix(texts, owed + a, owed + b, again);
    if r.Complete? {
      SelectedPrefix(texts + [r.payload], owed + a, owed + b, again);
    } else if r.Partial? && LastLong(a).Some? {
      assert a[..LastLong(a).value] == b[..LastLong(a).value];
    }
  }

  lemma {:induction false} Unseen(id: nat, log: seq<CanFrame>, msgs: seq<seq<Byte>>, q: nat, x: nat)
    requires Describes(id, log, msgs) && q <= x <= |log|
    requires forall y | q <= y < x :: PciType(log[y]) != FIRST
    ensures Opened(log[..q]) <= Opened(log[..x]) <= |msgs|
    ensures LastLong(msgs[..Opened(log[..q])]) == LastLong(msgs[..Opened(log[..x])])
    ensures |Current(log[..q])| <= |Current(log[..x])|
    decreases x
  {
    hide LastLong, Describes, Opens, Current, PciType, Opened;
    DescribesPrefix(id, log, msgs, x);
    if q < x {
      Unseen(id, log, msgs, q, x - 1);
      UnseenOne(id, log, msgs, x - 1);
    }
  }

  lemma UnseenOne(id: nat, log: seq<CanFrame>, msgs: seq<seq<Byte>>, y: nat)
    requires Describes(id, log, msgs) && y < |log| && PciType(log[y]) != FIRST
    ensures Opened(log[..y]) <= Opened(log[..y + 1]) <= |msgs|
    ensures LastLong(msgs[..Opened(log[..y])]) == LastLong(msgs[..Opened(log[..y + 1])])
    ensures |Current(log[..y])| <= |Current(log[..y + 1])|
  {
    hide LastLong, Describes, Opens, Current, PciType, Opened;
    DescribesPrefix(id, log, msgs, y + 1);
    assert log[..y + 1] == log[..y] + [log[y]];
    CurrentSnoc(log[..y], log[y]);
    OpenedSnoc(log[..y], log[y]);
    if Opens(log[y]) {
      OpenedIsShort(id, log, msgs, y);
    }
  }

  lemma OpenedSnoc(log: seq<CanFrame>, f: CanFrame)
    ensures Opened(log + [f]) == Opened(log) + if Opens(f) then 1 else 0
  {
    assert (log + [f])[..|log|] == log;
  }

  /** What the frame at `x` is. */
  lemma FrameAt(id: nat, log: seq<CanFrame>, msgs: seq<seq<Byte>>, x: nat)
    requires Describes(id, log, msgs) && x < |log|
    ensures var f, n := log[x], Opened(log[..x]);
            && n <= |msgs| && Opened(log[..x + 1]) <= |msgs|
            && Opened(log[..x + 1]) == n + (if Opens(f) then 1 else 0)
            && (Opens(f) ==> 1 <= |msgs[n]| <= MAX_PAYLOAD && f == Opening(id, msgs[n]))
            && (!Opens(f) ==> Empty(id, f) || Continues(id, f, msgs[..n], |Current(log[..x])|))
  {
    hide Opens, Empty, Continues, Current, Opening, Opened, Describes;
    DescribesPrefix(id, log, msgs, x + 1);
    OpenedSnoc(log[..x], log[x]);
    assert log[..x + 1] == log[..x] + [log[x]];
    var part := msgs[..Opened(log[..x + 1])];
    DescribesLast(id, log[..x], log[x], part);
    if Opens(log[x]) {
      assert part[|part| - 1] == msgs[|part| - 1];
    }
  }

  lemma DescribesLast(id: nat, before: seq<CanFrame>, f: CanFrame, msgs: seq<seq<Byte>>)
    requires Describes(id, before + [f], msgs)
    ensures Opens(f) ==> msgs != [] && 1 <= |msgs[|msgs| - 1]| <= MAX_PAYLOAD && f == Opening(id, msgs[|msgs| - 1])
    ensures !Opens(f) ==> Empty(id, f) || Continues(id, f, msgs, |Current(before)|)
  {
    hide Opens, Empty, Continues, Current, Opening;
    assert (before + [f])[..|before|] == before;
  }

  lemma OpenedIsShort(id: nat, log: seq<CanFrame>, msgs: seq<seq<Byte>>, x: nat)
    requires Describes(id, log, msgs) && x < |log| && Opens(log[x]) && PciType(log[x]) != FIRST
    ensures var n := Opened(log[..x]);
            && n < |msgs| && Opened(log[..x + 1]) == n + 1
            && LastLong(msgs[..n + 1]) == LastLong(msgs[..n])
  {
    hide Describes, Opens, Opening, PciType, Opened, LastLong;
    FrameAt(id, log, msgs, x);
    var n := Opened(log[..x]);
    OpeningOpens(id, msgs[n]);
    LastLongSnoc(msgs[..n], msgs[n]);
    assert msgs[..n + 1] == msgs[..n] + [msgs[n]];
  }

  // ---- One arrival ----

  lemma EmptyArrives(cfg: Config, e: Endpoint, f: CanFrame, now: Tick, room: nat)
    requires e.Valid() && Empty(cfg.rxId, f)
    ensures var o := Step(cfg, e, Receive(f, now, room)); o.next.rx == e.rx && o.delivered == []
  {}

  lemma OpeningArrives(cfg: Config, m: seq<Byte>, e: Endpoint, now: Tick, room: nat)
    requires e.Valid() && 1 <= |m| <= 4095
    ensures var o := Step(cfg, e, Receive(Opening(cfg.rxId, m), now, room));
            && o.delivered == []
            && (|m| <= 7 ==> o.next.rx == Complete(m))
            && (8 <= |m| ==> Follows(m, 1, o.next.rx) && o.next.rx.Partial?)
  {
    OpeningOpens(cfg.rxId, m);
    if |m| <= 7 {
      SingleFrameDelivers(cfg, cfg.rxId, m, e, now, room);
    } else {
      FirstArrival(cfg, cfg.rxId, m, e, now, room);
      var r := Step(cfg, e, Receive(FirstFrame(cfg.rxId, m), now, room)).next.rx;
      assert Tracks(m, r, 0, true, 0, 0);
    }
    hide SingleFrame, FirstFrame, RxFrame, Tracks;
  }

  lemma FollowsCf(cfg: Config, id: nat, m: seq<Byte>, c: nat, r: Reassembly, x: nat, now: Tick)
    requires 8 <= |m| <= 4095 && r.Valid() && r.Partial? && Follows(m, c, r) && c <= x + 1 && 1 <= x <= CfCount(|m|)
    ensures var f := ConsecutiveFrame(id, m, x);
            f.dlc >= 1 && var r' := OnConsecutive(cfg, r, f, now).rx;
            Follows(m, x + 1, r') || r' == Complete(m)
  {
    hide Tracks, OnConsecutive, ConsecutiveFrame, CfCount;
    var last: nat, gapless: bool, j: nat, i: nat :| last <= c - 1 && Tracks(m, r, last, gapless, j, i);
    TracksCf(cfg, id, m, r, last, gapless, j, i, x, now);
    var r' := OnConsecutive(cfg, r, ConsecutiveFrame(id, m, x), now).rx;
    assert Tracks(m, r', x, gapless && x <= last + 1, j, i) || Tracks(m, r', x, gapless && x <= last + 1, j + 1, x)
        || r' == Complete(m);
  }

  lemma FollowsIsPartial(m: seq<Byte>, c: nat, r: Reassembly)
    requires 8 <= |m| && Follows(m, c, r)
    ensures r.Partial?
  {}

  /** The reception goes on. */
  lemma KeepsFollowing(owed: seq<seq<Byte>>, msgs: seq<seq<Byte>>, i: nat, c: nat, r: Reassembly, texts: seq<seq<Byte>>,
                       again: bool)
    requires LastLong(msgs) == Some(i) && Follows(msgs[i], c, r) && r.Partial?
    requires Selected(texts, owed + msgs[..i], again) && Selected(texts, owed + msgs, again)
    ensures Keeps(owed, msgs, c, false, r, texts, again)
  {
    hide Selected, Follows, LastLong;
  }

  /** The reception is over. */
  lemma KeepsFinished(owed: seq<seq<Byte>>, msgs: seq<seq<Byte>>, i: nat, c: nat, texts: seq<seq<Byte>>, again: bool)
    requires i < |msgs| && Selected(texts, owed + msgs[..i], again) && Selected(texts, owed + msgs, again)
    ensures Keeps(owed, msgs, c, false, Complete(msgs[i]), texts, again)
  {
    hide Selected, LastLong;
    SelectedSnoc(texts, owed + msgs[..i], msgs[i], again);
    assert (owed + msgs[..i]) + [msgs[i]] <= owed + msgs;
    SelectedPrefix(texts + [msgs[i]], (owed + msgs[..i]) + [msgs[i]], owed + msgs, again);
  }

  lemma KeepsPartial(owed: seq<seq<Byte>>, msgs: seq<seq<Byte>>, c: nat, first: bool, r: Reassembly,
                     texts: seq<seq<Byte>>, again: bool)
    requires Keeps(owed, msgs, c, first, r, texts, again) && r.Partial? && LastLong(msgs).Some?
    ensures var i := LastLong(msgs).value; Follows(msgs[i], c, r) && Selected(texts, owed + msgs[..i], again)
  {
    hide Selected, Follows, LastLong;
  }

  /** A consecutive frame, new or repeated. */
  lemma KeepsCf(cfg: Config, owed: seq<seq<Byte>>, msgs: seq<seq<Byte>>, c: nat, first: bool, e: Endpoint,
                texts: seq<seq<Byte>>, again: bool, f: CanFrame, x: nat, now: Tick, room: nat)
    requires e.Valid() && Keeps(owed, msgs, c, first, e.rx, texts, again) && c <= x + 1
    requires forall m <- msgs :: |m| <= 4095
    requires Continues(cfg.rxId, f, msgs, x)
    ensures var o := Step(cfg, e, Receive(f, now, room));
            o.delivered == [] && Keeps(owed, msgs, x + 1, false, o.next.rx, texts, again)
  {
    hide Selected, Follows, OnConsecutive, ConsecutiveFrame, CfCount, Step, LastLong, PciType, Keeps;
    ContinuesType(cfg.rxId, f, msgs, x);
    CfReceived(cfg, e, f, now, room);
    KeepsSelected(owed, msgs, c, first, e.rx, texts, again);
    if e.rx.Partial? {
      var i := LastLong(msgs).value;
      KeepsPartial(owed, msgs, c, first, e.rx, texts, again);
      FollowsCf(cfg, cfg.rxId, msgs[i], c, e.rx, x, now);
      var r' := OnConsecutive(cfg, e.rx, f, now).rx;
      if r' == Complete(msgs[i]) {
        KeepsFinished(owed, msgs, i, x + 1, texts, again);
      } else {
        FollowsIsPartial(msgs[i], x + 1, r');
        KeepsFollowing(owed, msgs, i, x + 1, r', texts, again);
      }
    } else {
      NotReceiving(cfg, e.rx, f, now);
      KeepsLater(owed, msgs, msgs, c, x + 1, first, e.rx, texts, again);
    }
  }

  lemma LastLongSnoc(msgs: seq<seq<Byte>>, m: seq<Byte>)
    ensures LastLong(msgs + [m]) == if 8 <= |m| then Some(|msgs|) else LastLong(msgs)
  {
    assert (msgs + [m])[..|msgs|] == msgs;
  }

  lemma KeepsSelected(owed: seq<seq<Byte>>, msgs: seq<seq<Byte>>, c: nat, first: bool, r: Reassembly,
                      texts: seq<seq<Byte>>, again: bool)
    requires Keeps(owed, msgs, c, first, r, texts, again)
    ensures Selected(texts, owed + msgs, again)
    ensures first ==> msgs != [] && Selected(texts, owed + msgs[..|msgs| - 1], again)
  {
    hide Selected, Follows, LastLong;
  }

  /** A message of a single frame is ready. */
  lemma KeepsReady(owed: seq<seq<Byte>>, init: seq<seq<Byte>>, m: seq<Byte>, c: nat, texts: seq<seq<Byte>>, again: bool)
    requires |m| <= 7
    requires Selected(texts, owed + init, again) || (again && Selected(texts, owed + (init + [m]), again))
    ensures Keeps(owed, init + [m], c, false, Complete(m), texts, again)
  {
    hide Selected, LastLong;
    SelectedSnoc(texts, owed + init, m, again);
    Associative(owed, init, [m]);
  }

  /** The reception of a long message has begun. */
  lemma KeepsBegun(owed: seq<seq<Byte>>, init: seq<seq<Byte>>, m: seq<Byte>, r: Reassembly, texts: seq<seq<Byte>>,
                   again: bool)
    requires 8 <= |m| && r.Partial? && Follows(m, 1, r) && Selected(texts, owed + init, again)
    ensures Keeps(owed, init + [m], 1, true, r, texts, again)
  {
    hide Selected, Follows, LastLong;
    var msgs := init + [m];
    LastLongSnoc(init, m);
    SelectedSnoc(texts, owed + init, m, again);
    Associative(owed, init, [m]);
    assert msgs[..|init|] == init && msgs[|init|] == m;
  }

  /** A single or first frame that has not passed before. */
  lemma KeepsOpening(cfg: Config, owed: seq<seq<Byte>>, msgs: seq<seq<Byte>>, c: nat, first: bool, e: Endpoint,
                     texts: seq<seq<Byte>>, again: bool, m: seq<Byte>, now: Tick, room: nat)
    requires e.Valid() && Keeps(owed, msgs, c, first, e.rx, texts, again) && 1 <= |m| <= 4095
    ensures var o := Step(cfg, e, Receive(Opening(cfg.rxId, m), now, room));
            && o.delivered == []
            && (|m| <= 7 ==> Keeps(owed, msgs + [m], c, false, o.next.rx, texts, again))
            && (8 <= |m| ==> Keeps(owed, msgs + [m], 1, true, o.next.rx, texts, again))
  {
    hide Selected, Follows, Opening, Step, Keeps;
    OpeningArrives(cfg, m, e, now, room);
    KeepsSelected(owed, msgs, c, first, e.rx, texts, again);
    if |m| <= 7 {
      KeepsReady(owed, msgs, m, c, texts, again);
    } else {
      KeepsBegun(owed, msgs, m, Step(cfg, e, Receive(Opening(cfg.rxId, m), now, room)).next.rx, texts, again);
    }
  }

  /** The same frame once more. */
  lemma KeepsRepeatedOpening(cfg: Config, owed: seq<seq<Byte>>, msgs: seq<seq<Byte>>, c: nat, e: Endpoint,
                             texts: seq<seq<Byte>>, again: bool, now: Tick, room: nat)
    requires msgs != [] && 1 <= |msgs[|msgs| - 1]| <= 4095
    requires var long := 8 <= |msgs[|msgs| - 1]|;
             && e.Valid() && Keeps(owed, msgs, c, long, e.rx, texts, again)
             && (long ==> c == 1) && (!long ==> again)
    ensures var long := 8 <= |msgs[|msgs| - 1]|;
            var o := Step(cfg, e, Receive(Opening(cfg.rxId, msgs[|msgs| - 1]), now, room));
            o.delivered == [] && Keeps(owed, msgs, c, long, o.next.rx, texts, again)
  {
    hide Selected, Follows, Opening, Step, Keeps;
    var m, init := msgs[|msgs| - 1], msgs[..|msgs| - 1];
    assert msgs == init + [m];
    OpeningArrives(cfg, m, e, now, room);
    KeepsSelected(owed, msgs, c, 8 <= |m|, e.rx, texts, again);
    if |m| <= 7 {
      KeepsReady(owed, init, m, c, texts, again);
    } else {
      KeepsBegun(owed, init, m, Step(cfg, e, Receive(Opening(cfg.rxId, m), now, room)).next.rx, texts, again);
    }
  }

  /** Polls and fetches. */
  lemma KeepsOther(cfg: Config, owed: seq<seq<Byte>>, msgs: seq<seq<Byte>>, c: nat, first: bool, e: Endpoint,
                   texts: seq<seq<Byte>>, again: bool, ev: Event)
    requires e.Valid() && Keeps(owed, msgs, c, first, e.rx, texts, again)
    requires ev.Update? || (ev.Read? && ev.max >= MAX_PAYLOAD)
    ensures var o := Step(cfg, e, ev);
            Keeps(owed, msgs, c, first, o.next.rx, texts + if o.delivered == [] then [] else [o.delivered], again)
  {
    hide Selected, Follows, LastLong;
    assert texts + [] == texts;
    if e.rx.Complete? {
      assert e.rx.payload[..|e.rx.payload|] == e.rx.payload;
    }
  }

  // ---- The whole bus ----

  /** The part of the log that has passed, in the terms of `Keeps`. */
  predicate EndsWithFirst(log: seq<CanFrame>) { log != [] && PciType(log[|log| - 1]) == FIRST }

  ghost predicate KeepsAt(owed: seq<seq<Byte>>, log: seq<CanFrame>, msgs: seq<seq<Byte>>, q: nat, r: Reassembly,
                          texts: seq<seq<Byte>>, again: bool)
  {
    && q <= |log| && Opened(log[..q]) <= |msgs|
    && Keeps(owed, msgs[..Opened(log[..q])], |Current(log[..q])|, EndsWithFirst(log[..q]), r, texts, again)
  }

  /** The log up to and with the frame at `x`, in the terms of `Keeps`. */
  lemma PassedAt(id: nat, log: seq<CanFrame>, msgs: seq<seq<Byte>>, x: nat)
    requires Describes(id, log, msgs) && x < |log|
    ensures var f, n, c := log[x], Opened(log[..x]), |Current(log[..x])|;
            var n', c' := Opened(log[..x + 1]), |Current(log[..x + 1])|;
            && n <= n' <= |msgs|
            && (EndsWithFirst(log[..x + 1]) <==> PciType(f) == FIRST)
            && (Opens(f) ==>
                  && n' == n + 1 && 1 <= |msgs[n]| <= MAX_PAYLOAD && f == Opening(id, msgs[n])
                  && msgs[..n'] == msgs[..n] + [msgs[n]]
                  && PciType(f) == (if |msgs[n]| <= 7 then SINGLE else FIRST)
                  && c' == if |msgs[n]| <= 7 then c else 1)
            && (!Opens(f) ==> n' == n && PciType(f) != FIRST)
            && (!Opens(f) && Empty(id, f) ==> c' == c)
            && (!Opens(f) && !Empty(id, f) ==> c' == c + 1 && Continues(id, f, msgs[..n], c))
  {
    hide Describes, Opens, Empty, Continues, Current, PciType, Opening, LastLong, Opened, EndsWithFirst;
    var f, n, c := log[x], Opened(log[..x]), |Current(log[..x])|;
    FrameAt(id, log, msgs, x);
    assert log[..x + 1] == log[..x] + [f];
    CurrentSnoc(log[..x], f);
    LastFrame(log[..x], f);
    if Opens(f) {
      OpeningOpens(id, msgs[n]);
      assert msgs[..n + 1] == msgs[..n] + [msgs[n]];
    } else if Empty(id, f) {
      EmptyType(id, f);
    } else {
      ContinuesType(id, f, msgs[..n], c);
    }
  }

  lemma NewArrival(cfg: Config, owed: seq<seq<Byte>>, log: seq<CanFrame>, msgs: seq<seq<Byte>>, q: nat, x: nat,
                   e: Endpoint, texts: seq<seq<Byte>>, again: bool, now: Tick, room: nat)
    requires e.Valid() && Describes(cfg.rxId, log, msgs) && forall m <- msgs :: |m| <= 4095
    requires KeepsAt(owed, log, msgs, q, e.rx, texts, again)
    requires q <= x < |log| && forall y | q <= y < x :: PciType(log[y]) != FIRST
    ensures var o := Step(cfg, e, Receive(log[x], now, room));
            o.delivered == [] && KeepsAt(owed, log, msgs, x + 1, o.next.rx, texts, again)
  {
    hide Describes, Keeps, Opens, Empty, Continues, Current, PciType, Opening, LastLong, Step, Opened, EndsWithFirst;
    var f, n, c := log[x], Opened(log[..x]), |Current(log[..x])|;
    Unseen(cfg.rxId, log, msgs, q, x);
    KeepsLater(owed, msgs[..Opened(log[..q])], msgs[..n], |Current(log[..q])|, c, EndsWithFirst(log[..q]), e.rx, texts,
               again);
    PassedAt(cfg.rxId, log, msgs, x);
    if Opens(f) {
      assert msgs[n] in msgs;
      KeepsOpening(cfg, owed, msgs[..n], c, false, e, texts, again, msgs[n], now, room);
    } else if Empty(cfg.rxId, f) {
      EmptyArrives(cfg, e, f, now, room);
    } else {
      KeepsCf(cfg, owed, msgs[..n], c, false, e, texts, again, f, c, now, room);
    }
  }

  lemma LastFrame(log: seq<CanFrame>, f: CanFrame)
    ensures EndsWithFirst(log + [f]) <==> PciType(f) == FIRST
  {
    hide PciType;
  }

  lemma EmptyType(id: nat, f: CanFrame)
    requires Empty(id, f)
    ensures PciType(f) == SINGLE
  {}

  lemma RepeatedArrival(cfg: Config, owed: seq<seq<Byte>>, log: seq<CanFrame>, msgs: seq<seq<Byte>>, x: nat,
                        e: Endpoint, texts: seq<seq<Byte>>, again: bool, now: Tick, room: nat)
    requires e.Valid() && Describes(cfg.rxId, log, msgs) && forall m <- msgs :: |m| <= 4095
    requires x < |log| && KeepsAt(owed, log, msgs, x + 1, e.rx, texts, again)
    requires Opens(log[x]) && PciType(log[x]) == SINGLE ==> again
    ensures var o := Step(cfg, e, Receive(log[x], now, room));
            o.delivered == [] && KeepsAt(owed, log, msgs, x + 1, o.next.rx, texts, again)
  {
    hide Describes, Keeps, Opens, Empty, Continues, Current, PciType, Opening, LastLong, Step, Opened, EndsWithFirst;
    var f, n, c := log[x], Opened(log[..x]), |Current(log[..x])|;
    PassedAt(cfg.rxId, log, msgs, x);
    if Opens(f) {
      assert msgs[n] in msgs;
      KeepsRepeatedOpening(cfg, owed, msgs[..n + 1], |Current(log[..x + 1])|, e, texts, again, now, room);
    } else if Empty(cfg.rxId, f) {
      EmptyArrives(cfg, e, f, now, room);
    } else {
      KeepsCf(cfg, owed, msgs[..n], c + 1, false, e, texts, again, f, c, now, room);
    }
  }

  lemma AnyArrival(cfg: Config, owed: seq<seq<Byte>>, log: seq<CanFrame>, msgs: seq<seq<Byte>>, q: nat, a: Arrival,
                   e: Endpoint, texts: seq<seq<Byte>>, again: bool)
    requires e.Valid() && Describes(cfg.rxId, log, msgs) && forall m <- msgs :: |m| <= 4095
    requires KeepsAt(owed, log, msgs, q, e.rx, texts, again)
    requires a.Fetch? ==> a.max >= MAX_PAYLOAD
    requires a.Arrives? ==>
               && a.index < |log| && q <= a.index + 1
               && (forall y | q <= y < a.index :: PciType(log[y]) != FIRST)
               && (a.index + 1 == q && Opens(log[a.index]) && PciType(log[a.index]) == SINGLE ==> again)
    ensures var o := Step(cfg, e, ToEvent(log, a));
            KeepsAt(owed, log, msgs, if a.Arrives? then a.index + 1 else q, o.next.rx,
                    texts + if o.delivered == [] then [] else [o.delivered], again)
  {
    hide Step, KeepsAt, Describes, PciType, Opens;
    assert texts + [] == texts;
    match a
    case Arrives(x, now, room) =>
      if x + 1 == q {
        RepeatedArrival(cfg, owed, log, msgs, x, e, texts, again, now, room);
      } else {
        NewArrival(cfg, owed, log, msgs, q, x, e, texts, again, now, room);
      }
    case _ => OtherArrival(cfg, owed, log, msgs, q, e, texts, again, ToEvent(log, a));
  }

  lemma {:induction false} StreamIsKept(cfg: Config, log: seq<CanFrame>, msgs: seq<seq<Byte>>, e: Endpoint,
                                        bus: seq<Arrival>, again: bool)
    requires e.Valid() && Describes(cfg.rxId, log, msgs) && forall m <- msgs :: |m| <= 4095
    requires Carries(log, bus, again) && forall a <- bus :: a.Arrives? ==> a.index < |log|
    ensures var evs := Events(log, bus);
            KeepsAt(Owed(e.rx), log, msgs, Passed(bus), Run(cfg, e, evs).rx, Delivered(cfg, e, evs), again)
    decreases |bus|
  {
    hide Step, KeepsAt, Describes, PciType, Opens, Run, Delivered, ToEvent;
    if bus == [] {
      NothingPassed(log, msgs, e.rx, again);
      NothingHappened(cfg, e);
    } else {
      var before, a := bus[..|bus| - 1], bus[|bus| - 1];
      var evs := Events(log, before);
      StreamIsKept(cfg, log, msgs, e, before, again);
      RunSnoc(cfg, e, evs, ToEvent(log, a));
      AnyArrival(cfg, Owed(e.rx), log, msgs, Passed(before), a, Run(cfg, e, evs), Delivered(cfg, e, evs), again);
    }
  }

  lemma OtherArrival(cfg: Config, owed: seq<seq<Byte>>, log: seq<CanFrame>, msgs: seq<seq<Byte>>, q: nat, e: Endpoint,
                     texts: seq<seq<Byte>>, again: bool, ev: Event)
    requires e.Valid() && KeepsAt(owed, log, msgs, q, e.rx, texts, again)
    requires ev.Update? || (ev.Read? && ev.max >= MAX_PAYLOAD)
    ensures var o := Step(cfg, e, ev);
            KeepsAt(owed, log, msgs, q, o.next.rx, texts + if o.delivered == [] then [] else [o.delivered], again)
  {
    hide Keeps, Opened, Current, EndsWithFirst;
    KeepsOther(cfg, owed, msgs[..Opened(log[..q])], |Current(log[..q])|, EndsWithFirst(log[..q]), e, texts, again, ev);
    hide Step;
  }

  lemma NothingPassed(log: seq<CanFrame>, msgs: seq<seq<Byte>>, r: Reassembly, again: bool)
    ensures KeepsAt(Owed(r), log, msgs, 0, r, [], again)
  {
    assert log[..0] == [] && msgs[..0] == [];
    assert Owed(r) + [] == Owed(r);
    if r.Complete? {
      SelectedSnoc([], [], r.payload, again);
      assert [] + [r.payload] == [r.payload];
    }
  }

  /** A whole conversation. Whatever one endpoint sends, over any number of messages, single frames
      between the frames of long ones, transfers given up for new ones, under any flow control: over a bus
      that keeps the order and loses no first frame, the other application gets a selection of the
      messages sent, in order and unchanged, after the one that was ready before, if any. */
  lemma StreamDelivers(sender: Config, s: Endpoint, calls: seq<Event>, receiver: Config, r: Endpoint,
                       bus: seq<Arrival>, again: bool)
    requires s.Valid() && s.tx == Quiet && r.Valid() && receiver.rxId == sender.txId
    requires forall m <- Messages(calls) :: |m| <= 4095
    requires var log := Sent(sender, s, calls);
             Carries(log, bus, again) && forall a <- bus :: a.Arrives? ==> a.index < |log|
    ensures Selected(Delivered(receiver, r, Events(Sent(sender, s, calls), bus)), Owed(r.rx) + Messages(calls), again)
  {
    hide Step, Run, Delivered, Sent, Carries, Messages, Describes, Selected;
    var log, msgs := Sent(sender, s, calls), Messages(calls);
    SentIsDescribed(sender, s, calls);
    StreamIsKept(receiver, log, msgs, r, bus, again);
    var n := Opened(log[..Passed(bus)]);
    assert Owed(r.rx) + msgs[..n] <= Owed(r.rx) + msgs;
    SelectedPrefix(Delivered(receiver, r, Events(log, bus)), Owed(r.rx) + msgs[..n], Owed(r.rx) + msgs, again);
  }
}
