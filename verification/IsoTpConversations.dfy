/** Liveness of whole conversations: what is delivered when the bus loses nothing and the application
    keeps up. */
module IsoTpConversations {
  import opened Words
  import opened IsoTpCodec
  import opened IsoTpMachine
  import opened IsoTpTransmit
  import opened IsoTpEndToEnd
  import opened IsoTpStreams

  /** The frame `f`, put on the bus after `before`, completes the message begun last: it is its single
      frame or its last consecutive frame. */
  predicate Ends(before: seq<CanFrame>, f: CanFrame, msgs: seq<seq<Byte>>)
    requires Opened(before) <= |msgs| && (Opens(f) ==> Opened(before) < |msgs|)
  {
    var n := Opened(before);
    if Opens(f) then |msgs[n]| <= 7
    else
      && PciType(f) == CONSECUTIVE && n > 0 && 8 <= |msgs[n - 1]|
      && |Current(before)| == CfCount(|msgs[n - 1]|)
  }

  /** That message, if there is one. */
  function Ended(before: seq<CanFrame>, f: CanFrame, msgs: seq<seq<Byte>>): seq<seq<Byte>>
    requires Opened(before) <= |msgs| && (Opens(f) ==> Opened(before) < |msgs|)
  {
    if !Ends(before, f, msgs) then []
    else if Opens(f) then [msgs[Opened(before)]] else [msgs[Opened(before) - 1]]
  }

  /** The messages whose frames have all gone out, none of them after another message was begun. */
  function Whole(log: seq<CanFrame>, msgs: seq<seq<Byte>>): seq<seq<Byte>>
    requires Opened(log) <= |msgs|
  {
    if log == [] then [] else Whole(log[..|log| - 1], msgs) + Ended(log[..|log| - 1], log[|log| - 1], msgs)
  }

  lemma WholeSnoc(log: seq<CanFrame>, f: CanFrame, msgs: seq<seq<Byte>>)
    requires Opened(log + [f]) <= |msgs|
    ensures Opened(log) <= |msgs| && (Opens(f) ==> Opened(log) < |msgs|)
    ensures Whole(log + [f], msgs) == Whole(log, msgs) + Ended(log, f, msgs)
  {
    hide Opens, Ends, Ended, Opened;
    OpenedSnoc(log, f);
    assert (log + [f])[..|log|] == log;
  }

  /** After `q` frames, a long message has been begun last and its last frame is still to come. */
  predicate Pending(log: seq<CanFrame>, msgs: seq<seq<Byte>>, q: nat)
    requires q <= |log| && Opened(log[..q]) <= |msgs|
  {
    var n := Opened(log[..q]);
    n > 0 && 8 <= |msgs[n - 1]| && 1 <= |Current(log[..q])| <= CfCount(|msgs[n - 1]|)
  }

  /** When the latest frame arrived that is not an empty one. */
  function LastData(log: seq<CanFrame>, bus: seq<Arrival>): Tick
    requires forall a <- bus :: a.Arrives? ==> a.index < |log|
  {
    if bus == [] then 0
    else
      var a := bus[|bus| - 1];
      if a.Arrives? && (Opens(log[a.index]) || PciType(log[a.index]) == CONSECUTIVE) then a.now
      else LastData(log, bus[..|bus| - 1])
  }

  /** A message was completed after the latest fetch. */
  predicate Unread(log: seq<CanFrame>, msgs: seq<seq<Byte>>, bus: seq<Arrival>)
    requires Opened(log) <= |msgs| && forall a <- bus :: a.Arrives? ==> a.index < |log|
  {
    bus != [] &&
    var before, a := bus[..|bus| - 1], bus[|bus| - 1];
    match a
    case Arrives(x, _, _) =>
      OpenedBelow(log, x);
      Ends(log[..x], log[x], msgs) || Unread(log, msgs, before)
    case Poll(_) => Unread(log, msgs, before)
    case Fetch(_) => false
  }

  lemma {:induction false} OpenedBelow(log: seq<CanFrame>, x: nat)
    requires x < |log|
    ensures Opened(log[..x]) + (if Opens(log[x]) then 1 else 0) <= Opened(log)
    decreases |log|
  {
    hide Opens;
    var before := log[..|log| - 1];
    if x < |before| {
      OpenedBelow(before, x);
      assert before[..x] == log[..x];
    } else {
      assert log[..x] == before;
    }
  }

  lemma OpenedUpTo(log: seq<CanFrame>, q: nat)
    requires q <= |log|
    ensures Opened(log[..q]) <= Opened(log)
  {
    if q < |log| {
      OpenedBelow(log, q);
    } else {
      assert log[..q] == log;
    }
    hide Opens;
  }

  /** Every frame arrives once and in order; no poll finds N_Cr expired while a message is pending; every
      completed message is fetched before the next one begins. */
  predicate Perfect(cfg: Config, log: seq<CanFrame>, msgs: seq<seq<Byte>>, bus: seq<Arrival>)
    requires Opened(log) <= |msgs| && forall a <- bus :: a.Arrives? ==> a.index < |log|
  {
    bus == [] ||
    var before, a := bus[..|bus| - 1], bus[|bus| - 1];
    && Perfect(cfg, log, msgs, before)
    && match a
       case Arrives(x, _, _) => x == Passed(before) && (Opens(log[x]) ==> !Unread(log, msgs, before))
       case Poll(now) =>
         PassedInLog(log, before);
         OpenedUpTo(log, Passed(before));
         Pending(log, msgs, Passed(before)) ==> !Expired(Wrap32(LastData(log, before) + cfg.nCr), now)
       case Fetch(max) => max >= MAX_PAYLOAD
  }

  lemma {:induction false} PassedInLog(log: seq<CanFrame>, bus: seq<Arrival>)
    requires forall a <- bus :: a.Arrives? ==> a.index < |log|
    ensures Passed(bus) <= |log|
  {
    if bus != [] {
      assert bus[|bus| - 1] in bus;
      PassedInLog(log, bus[..|bus| - 1]);
    }
  }

  /** The receiver is level with the log after `q` frames: it gathers what is pending, and what has been
      delivered, with what is ready, are the whole messages so far. */
  ghost predicate Level(cfg: Config, log: seq<CanFrame>, msgs: seq<seq<Byte>>, q: nat, last: Tick, unread: bool,
                        r: Reassembly, texts: seq<seq<Byte>>)
  {
    && q <= |log| && Opened(log[..q]) <= |msgs|
    && (unread <==> r.Complete?)
    && texts + Owed(r) == Whole(log[..q], msgs)
    && (r.Partial? <==> Pending(log, msgs, q))
    && (Pending(log, msgs, q) ==> Awaits(cfg, msgs[Opened(log[..q]) - 1], |Current(log[..q])| - 1, last, r))
  }

  /** The reception of `m` has come as far as consecutive frame `j`. */
  predicate Awaits(cfg: Config, m: seq<Byte>, j: nat, last: Tick, r: Reassembly) {
    8 <= |m| && j < CfCount(|m|) && r == Expected(cfg, m, j, last)
  }

  /** The frame at `x`, in the terms of `Level`. */
  lemma FrameFacts(id: nat, log: seq<CanFrame>, msgs: seq<seq<Byte>>, x: nat)
    requires Describes(id, log, msgs) && x < |log|
    ensures var f, n, c := log[x], Opened(log[..x]), |Current(log[..x])|;
            var n', c' := Opened(log[..x + 1]), |Current(log[..x + 1])|;
            && n <= n' <= |msgs|
            && (Opens(f) ==>
                  && n' == n + 1 && 1 <= |msgs[n]| <= MAX_PAYLOAD && f == Opening(id, msgs[n])
                  && (8 <= |msgs[n]| ==> c' == 1))
            && (!Opens(f) ==> n' == n)
            && (Empty(id, f) ==> !Opens(f) && c' == c && PciType(f) == SINGLE)
            && (!Opens(f) && !Empty(id, f) ==>
                  && PciType(f) == CONSECUTIVE && c' == c + 1 && 1 <= c && n > 0
                  && (8 <= |msgs[n - 1]| ==>
                        |msgs[n - 1]| <= MAX_PAYLOAD && c <= CfCount(|msgs[n - 1]|)
                        && f == ConsecutiveFrame(id, msgs[n - 1], c))
                  && f.id == id && f.dlc >= 1)
  {
    hide Describes, Opens, Continues, Current, PciType, Opening, Opened, EndsWithFirst, LastLong, Empty;
    var f, n, c := log[x], Opened(log[..x]), |Current(log[..x])|;
    PassedAt(id, log, msgs, x);
    if Empty(id, f) {
      EmptyOpensNothing(id, f);
    } else if !Opens(f) {
      ContinuesType(id, f, msgs[..n], c);
      ContinuesLast(id, f, msgs[..n], c);
    }
  }

  lemma EmptyOpensNothing(id: nat, f: CanFrame)
    requires Empty(id, f)
    ensures !Opens(f) && PciType(f) == SINGLE
  {}

  lemma ContinuesLast(id: nat, f: CanFrame, msgs: seq<seq<Byte>>, k: nat)
    requires Continues(id, f, msgs, k)
    ensures msgs != [] && 1 <= k
    ensures 8 <= |msgs[|msgs| - 1]| ==>
              var m := msgs[|msgs| - 1]; |m| <= MAX_PAYLOAD && k <= CfCount(|m|) && f == ConsecutiveFrame(id, m, k)
  {
    hide ConsecutiveFrame, CfCount;
  }

  /** A single frame has made its message ready. */
  lemma LevelShort(cfg: Config, log: seq<CanFrame>, msgs: seq<seq<Byte>>, x: nat, now: Tick, texts: seq<seq<Byte>>)
    requires Describes(cfg.rxId, log, msgs) && x < |log| && Opens(log[x])
    requires Opened(log[..x]) < |msgs| && |msgs[Opened(log[..x])]| <= 7 && texts == Whole(log[..x], msgs)
    ensures Level(cfg, log, msgs, x + 1, now, true, Complete(msgs[Opened(log[..x])]), texts)
  {
    hide Describes, Opens, Current, PciType, Opening, Opened, CfCount, Whole, Awaits;
    FrameFacts(cfg.rxId, log, msgs, x);
    assert log[..x + 1] == log[..x] + [log[x]];
    WholeSnoc(log[..x], log[x], msgs);
  }

  /** A first frame has begun its message. */
  lemma LevelLong(cfg: Config, log: seq<CanFrame>, msgs: seq<seq<Byte>>, x: nat, now: Tick, r: Reassembly,
                  texts: seq<seq<Byte>>)
    requires Describes(cfg.rxId, log, msgs) && x < |log| && Opens(log[x])
    requires Opened(log[..x]) < |msgs| && 8 <= |msgs[Opened(log[..x])]| && texts == Whole(log[..x], msgs)
    requires r.Partial? && Awaits(cfg, msgs[Opened(log[..x])], 0, now, r)
    ensures Level(cfg, log, msgs, x + 1, now, false, r, texts)
  {
    hide Describes, Opens, Current, PciType, Opening, Opened, CfCount, Whole, Expected;
    FrameFacts(cfg.rxId, log, msgs, x);
    assert log[..x + 1] == log[..x] + [log[x]];
    WholeSnoc(log[..x], log[x], msgs);
    assert texts + [] == texts;
  }

  lemma LevelTexts(cfg: Config, log: seq<CanFrame>, msgs: seq<seq<Byte>>, q: nat, last: Tick, r: Reassembly,
                   texts: seq<seq<Byte>>)
    requires Level(cfg, log, msgs, q, last, false, r, texts)
    ensures q <= |log| && Opened(log[..q]) <= |msgs| && texts == Whole(log[..q], msgs)
  {
    hide Whole, Pending, Opened, Awaits, Current;
    assert texts + [] == texts;
  }

  lemma LevelOpening(cfg: Config, log: seq<CanFrame>, msgs: seq<seq<Byte>>, x: nat, last: Tick, e: Endpoint,
                     texts: seq<seq<Byte>>, now: Tick, room: nat)
    requires e.Valid() && Describes(cfg.rxId, log, msgs) && forall m <- msgs :: |m| <= 4095
    requires x < |log| && Level(cfg, log, msgs, x, last, false, e.rx, texts) && Opens(log[x])
    ensures var o := Step(cfg, e, Receive(log[x], now, room));
            && Opened(log[..x]) < |msgs| && o.delivered == []
            && Level(cfg, log, msgs, x + 1, now, Ends(log[..x], log[x], msgs), o.next.rx, texts)
  {
    hide Describes, Opens, Current, PciType, Opening, Opened, Step, CfCount, Expected, Whole, Level;
    LevelTexts(cfg, log, msgs, x, last, e.rx, texts);
    FrameFacts(cfg.rxId, log, msgs, x);
    var m := msgs[Opened(log[..x])];
    assert m in msgs;
    OpeningReceived(cfg, m, e, now, room);
    if |m| <= 7 {
      LevelShort(cfg, log, msgs, x, now, texts);
    } else {
      LevelLong(cfg, log, msgs, x, now, Step(cfg, e, Receive(log[x], now, room)).next.rx, texts);
    }
  }

  lemma OpeningReceived(cfg: Config, m: seq<Byte>, e: Endpoint, now: Tick, room: nat)
    requires e.Valid() && 1 <= |m| <= 4095
    ensures var o := Step(cfg, e, Receive(Opening(cfg.rxId, m), now, room));
            && o.delivered == []
            && (|m| <= 7 ==> o.next.rx == Complete(m))
            && (8 <= |m| ==> o.next.rx.Partial? && 1 <= CfCount(|m|) && o.next.rx == Expected(cfg, m, 0, now))
  {
    OpeningArrives(cfg, m, e, now, room);
    if 8 <= |m| {
      CfCountOfLong(|m|);
      ExpectedStart(cfg, cfg.rxId, m, e, now, room);
    }
    hide SingleFrame, FirstFrame, Expected, Step, Follows, CfCount;
  }

  lemma CfCountOfLong(len: nat)
    requires 8 <= len
    ensures CfCount(len) >= 1
  {}

  lemma LevelEmpty(cfg: Config, log: seq<CanFrame>, msgs: seq<seq<Byte>>, x: nat, last: Tick, unread: bool,
                   e: Endpoint, texts: seq<seq<Byte>>, now: Tick, room: nat)
    requires e.Valid() && Describes(cfg.rxId, log, msgs)
    requires x < |log| && Level(cfg, log, msgs, x, last, unread, e.rx, texts) && Empty(cfg.rxId, log[x])
    ensures var o := Step(cfg, e, Receive(log[x], now, room));
            && !Opens(log[x]) && PciType(log[x]) == SINGLE && o.delivered == []
            && !Ends(log[..x], log[x], msgs)
            && Level(cfg, log, msgs, x + 1, last, unread, o.next.rx, texts)
  {
    hide Describes, Opens, Current, PciType, Opened, Step, CfCount, Expected, Whole, Empty;
    FrameFacts(cfg.rxId, log, msgs, x);
    assert log[..x + 1] == log[..x] + [log[x]];
    WholeSnoc(log[..x], log[x], msgs);
    EmptyArrives(cfg, e, log[x], now, room);
    assert Whole(log[..x], msgs) + [] == Whole(log[..x], msgs);
  }

  lemma LevelCf(cfg: Config, log: seq<CanFrame>, msgs: seq<seq<Byte>>, x: nat, last: Tick, unread: bool,
                e: Endpoint, texts: seq<seq<Byte>>, now: Tick, room: nat)
    requires e.Valid() && Describes(cfg.rxId, log, msgs) && forall m <- msgs :: |m| <= 4095
    requires x < |log| && Level(cfg, log, msgs, x, last, unread, e.rx, texts)
    requires !Opens(log[x]) && !Empty(cfg.rxId, log[x])
    ensures var o := Step(cfg, e, Receive(log[x], now, room));
            && PciType(log[x]) == CONSECUTIVE && o.delivered == []
            && Level(cfg, log, msgs, x + 1, now, Ends(log[..x], log[x], msgs) || unread, o.next.rx, texts)
  {
    hide Describes, Opens, Current, PciType, Opened, Step, CfCount, Expected, Whole, Empty, ConsecutiveFrame;
    var f, n, c := log[x], Opened(log[..x]), |Current(log[..x])|;
    FrameFacts(cfg.rxId, log, msgs, x);
    assert log[..x + 1] == log[..x] + [f];
    WholeSnoc(log[..x], f, msgs);
    assert Whole(log[..x], msgs) + [] == Whole(log[..x], msgs);
    CfReceived(cfg, e, f, now, room);
    if Pending(log, msgs, x) {
      var m := msgs[n - 1];
      assert m in msgs;
      ExpectedFrame(cfg, cfg.rxId, m, e, c - 1, last, c, now, room);
      ExpectedIs(cfg, m, c, now);
    } else {
      NotReceiving(cfg, e.rx, f, now);
    }
  }

  lemma ExpectedIs(cfg: Config, m: seq<Byte>, j: nat, last: Tick)
    requires 8 <= |m| && j <= CfCount(|m|)
    ensures j == CfCount(|m|) ==> Expected(cfg, m, j, last) == Complete(m)
    ensures j < CfCount(|m|) ==> Expected(cfg, m, j, last).Partial?
  {
    hide CfCount, Offset, Wrap32, NextSn;
  }

  lemma LevelOther(cfg: Config, log: seq<CanFrame>, msgs: seq<seq<Byte>>, q: nat, last: Tick, unread: bool,
                   e: Endpoint, texts: seq<seq<Byte>>, a: Arrival)
    requires e.Valid() && Level(cfg, log, msgs, q, last, unread, e.rx, texts) && !a.Arrives?
    requires a.Poll? && Pending(log, msgs, q) ==> !Expired(Wrap32(last + cfg.nCr), a.now)
    requires a.Fetch? ==> a.max >= MAX_PAYLOAD
    ensures var o := Step(cfg, e, ToEvent(log, a));
            Level(cfg, log, msgs, q, last, if a.Poll? then unread else false, o.next.rx,
                  texts + if o.delivered == [] then [] else [o.delivered])
  {
    hide CfCount, Whole, Opened, Current, Wrap32, Pending, Expired, Offset, NextSn;
    assert texts + [] == texts;
    if e.rx.Complete? {
      assert e.rx.payload[..|e.rx.payload|] == e.rx.payload;
      assert (texts + [e.rx.payload]) + [] == texts + [e.rx.payload];
    }
  }

  // One more arrival: how far the log has passed, when data came last, and whether a message is unread.

  function PassedAfter(q: nat, a: Arrival): nat { if a.Arrives? then q + 1 else q }

  function LastAfter(log: seq<CanFrame>, q: nat, a: Arrival, last: Tick): Tick
    requires a.Arrives? ==> q < |log|
  {
    if a.Arrives? && (Opens(log[q]) || PciType(log[q]) == CONSECUTIVE) then a.now else last
  }

  predicate UnreadAfter(log: seq<CanFrame>, msgs: seq<seq<Byte>>, q: nat, a: Arrival, unread: bool)
    requires a.Arrives? ==>
               q < |log| && Opened(log[..q]) <= |msgs| && (Opens(log[q]) ==> Opened(log[..q]) < |msgs|)
  {
    match a
    case Arrives(_, _, _) => Ends(log[..q], log[q], msgs) || unread
    case Poll(_) => unread
    case Fetch(_) => false
  }

  lemma AnyLevel(cfg: Config, log: seq<CanFrame>, msgs: seq<seq<Byte>>, q: nat, last: Tick, unread: bool,
                 e: Endpoint, texts: seq<seq<Byte>>, a: Arrival)
    requires e.Valid() && Describes(cfg.rxId, log, msgs) && forall m <- msgs :: |m| <= 4095
    requires Level(cfg, log, msgs, q, last, unread, e.rx, texts)
    requires a.Arrives? ==> a.index == q && q < |log| && (Opens(log[q]) ==> !unread)
    requires a.Poll? && Pending(log, msgs, q) ==> !Expired(Wrap32(last + cfg.nCr), a.now)
    requires a.Fetch? ==> a.max >= MAX_PAYLOAD
    requires a.Arrives? ==> Opened(log[..q]) <= |msgs| && (Opens(log[q]) ==> Opened(log[..q]) < |msgs|)
    ensures var o := Step(cfg, e, ToEvent(log, a));
            Level(cfg, log, msgs, PassedAfter(q, a), LastAfter(log, q, a, last), UnreadAfter(log, msgs, q, a, unread),
                  o.next.rx, texts + if o.delivered == [] then [] else [o.delivered])
  {
    hide Level, Describes, Opens, PciType, Opened, Step, Ends, Empty, Pending, Expired;
    assert texts + [] == texts;
    match a
    case Arrives(_, now, room) =>
      if Opens(log[q]) {
        LevelOpening(cfg, log, msgs, q, last, e, texts, now, room);
      } else if Empty(cfg.rxId, log[q]) {
        LevelEmpty(cfg, log, msgs, q, last, unread, e, texts, now, room);
      } else {
        LevelCf(cfg, log, msgs, q, last, unread, e, texts, now, room);
      }
    case _ => LevelOther(cfg, log, msgs, q, last, unread, e, texts, a);
  }

  /** What `Perfect`, `Unread` and `LastData` say of the last arrival. */
  lemma LastArrival(cfg: Config, log: seq<CanFrame>, msgs: seq<seq<Byte>>, bus: seq<Arrival>)
    requires Opened(log) <= |msgs| && (forall a <- bus :: a.Arrives? ==> a.index < |log|)
    requires bus != [] && Perfect(cfg, log, msgs, bus)
    ensures var before, a := bus[..|bus| - 1], bus[|bus| - 1];
            var q, last, unread := Passed(before), LastData(log, before), Unread(log, msgs, before);
            && Perfect(cfg, log, msgs, before) && q <= |log| && Opened(log[..q]) <= |msgs|
            && (a.Arrives? ==> a.index == q && q < |log| && (Opens(log[q]) ==> !unread && Opened(log[..q]) < |msgs|))
            && (a.Poll? && Pending(log, msgs, q) ==> !Expired(Wrap32(last + cfg.nCr), a.now))
            && (a.Fetch? ==> a.max >= MAX_PAYLOAD)
            && Passed(bus) == PassedAfter(q, a)
            && LastData(log, bus) == LastAfter(log, q, a, last)
            && Unread(log, msgs, bus) == UnreadAfter(log, msgs, q, a, unread)
  {
    hide Opens, PciType, Pending, Expired, Wrap32, Ends, Opened;
    var before, a := bus[..|bus| - 1], bus[|bus| - 1];
    PassedInLog(log, before);
    OpenedUpTo(log, Passed(before));
    if a.Arrives? {
      assert a in bus;
      OpenedBelow(log, a.index);
    }
  }

  lemma {:induction false} StaysLevel(cfg: Config, log: seq<CanFrame>, msgs: seq<seq<Byte>>, e: Endpoint,
                                      bus: seq<Arrival>)
    requires e.Valid() && e.rx == Idle && Describes(cfg.rxId, log, msgs) && forall m <- msgs :: |m| <= 4095
    requires Opened(log) <= |msgs| && (forall a <- bus :: a.Arrives? ==> a.index < |log|)
    requires Perfect(cfg, log, msgs, bus)
    ensures var evs := Events(log, bus);
            Level(cfg, log, msgs, Passed(bus), LastData(log, bus), Unread(log, msgs, bus), Run(cfg, e, evs).rx,
                  Delivered(cfg, e, evs))
    decreases |bus|
  {
    hide Step, Level, Describes, PciType, Opens, Run, Delivered, ToEvent, Ends, Pending, Expired, Opened, Perfect,
         Passed, LastData, Unread, Wrap32, PassedAfter, LastAfter, UnreadAfter;
    if bus == [] {
      NothingHappened(cfg, e);
      LevelAtStart(cfg, log, msgs);
      NothingArrived(log, msgs);
    } else {
      var before, a := bus[..|bus| - 1], bus[|bus| - 1];
      var evs := Events(log, before);
      LastArrival(cfg, log, msgs, bus);
      StaysLevel(cfg, log, msgs, e, before);
      RunSnoc(cfg, e, evs, ToEvent(log, a));
      AnyLevel(cfg, log, msgs, Passed(before), LastData(log, before), Unread(log, msgs, before),
               Run(cfg, e, evs), Delivered(cfg, e, evs), a);
    }
  }

  lemma NothingArrived(log: seq<CanFrame>, msgs: seq<seq<Byte>>)
    requires Opened(log) <= |msgs|
    ensures Passed([]) == 0 && LastData(log, []) == 0 && !Unread(log, msgs, [])
  {}

  lemma LevelAtStart(cfg: Config, log: seq<CanFrame>, msgs: seq<seq<Byte>>)
    ensures Level(cfg, log, msgs, 0, 0, false, Idle, [])
  {
    assert log[..0] == [];
    hide CfCount;
  }

  /** A conversation gets across. Over a bus that carries every frame once and in order, to an idle receiver
      that is polled in time and whose application fetches every message before the next one begins, the
      texts delivered, with the one that is ready, are exactly the messages whose frames have all gone out,
      none of them after another message was begun. */
  lemma ConversationDelivers(sender: Config, s: Endpoint, calls: seq<Event>, receiver: Config, r: Endpoint,
                             bus: seq<Arrival>)
    requires s.Valid() && s.tx == Quiet && r.Valid() && r.rx == Idle && receiver.rxId == sender.txId
    requires forall m <- Messages(calls) :: |m| <= 4095
    requires var log, msgs := Sent(sender, s, calls), Messages(calls);
             && Opened(log) <= |msgs| && (forall a <- bus :: a.Arrives? ==> a.index < |log|)
             && Perfect(receiver, log, msgs, bus)
    ensures var log, msgs, evs := Sent(sender, s, calls), Messages(calls), Events(Sent(sender, s, calls), bus);
            var q, rx, texts := Passed(bus), Run(receiver, r, evs).rx, Delivered(receiver, r, evs);
            && q <= |log| && Opened(log[..q]) <= |msgs|
            && texts + Owed(rx) == Whole(log[..q], msgs)
            && (rx.Complete? <==> Unread(log, msgs, bus))
            && (q == |log| && !Unread(log, msgs, bus) ==> texts == Whole(log, msgs))
  {
    hide Step, Run, Delivered, Sent, Perfect, Messages, Describes, Opened, Whole, Unread, LastData, Pending, Passed;
    var log, msgs := Sent(sender, s, calls), Messages(calls);
    SentIsDescribed(sender, s, calls);
    StaysLevel(receiver, log, msgs, r, bus);
    var texts := Delivered(receiver, r, Events(log, bus));
    assert texts + [] == texts;
    assert log[..|log|] == log;
  }

  /** The log of a sender opens as many messages as its calls had accepted. */
  lemma SentOpens(sender: Config, s: Endpoint, calls: seq<Event>)
    requires s.Valid() && s.tx == Quiet
    ensures Opened(Sent(sender, s, calls)) == |Messages(calls)|
  {
    hide Step, Run, Sent, Messages, Describes, Opened;
    SentIsDescribed(sender, s, calls);
    var log := Sent(sender, s, calls);
    DescribesPrefix(sender.txId, log, Messages(calls), |log|);
  }
}
