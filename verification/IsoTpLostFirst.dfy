/** What a receiver makes of a message whose first frame is lost. */
module IsoTpLostFirst {
  import opened Words
  import opened IsoTpCodec
  import opened IsoTpMachine
  import opened IsoTpReceive
  import opened IsoTpEndToEnd
  import IsoTpStreams

  /** Consecutive frames up to number `k` in order, some missing and some repeated, without the first
      frame. */
  predicate Headless(bus: seq<Arrival>, k: nat) {
    bus == [] ||
    var before, a := bus[..|bus| - 1], bus[|bus| - 1];
    && Headless(before, k)
    && (a.Arrives? ==> 1 <= a.index <= k && LastIndex(before) <= a.index)
    && (a.Fetch? ==> a.max >= MAX_PAYLOAD)
  }

  lemma CfArrives(cfg: Config, id: nat, p: seq<Byte>, x: nat, e: Endpoint, now: Tick, room: nat)
    requires e.Valid() && 8 <= |p| <= MAX_PAYLOAD && cfg.rxId == id && 1 <= x <= CfCount(|p|)
    ensures var ev := Receive(ConsecutiveFrame(id, p, x), now, room);
            && IsCf(cfg, ev, x % 16) && !Starts(cfg, ev) && Step(cfg, e, ev).delivered == []
            && (e.rx.Partial? ==> (IsCf(cfg, ev, e.rx.sn) <==> x % 16 == e.rx.sn))
            && ConsecutiveBytes(ev.frame) == p[Offset(|p|, x - 1)..Offset(|p|, x)]
  {
    CfShape(id, p, x);
    CfId(id, p, x);
    hide ConsecutiveFrame, CfCount, OnConsecutive, ConsecutiveBytes;
  }

  lemma WireCf(id: nat, p: seq<Byte>, k: nat, x: nat)
    requires 8 <= |p| <= MAX_PAYLOAD && 1 <= x <= k <= CfCount(|p|)
    ensures x < |Wire(id, p, k)| && Wire(id, p, k)[x] == ConsecutiveFrame(id, p, x)
  {
    hide CfCount, ConsecutiveFrame, FirstFrame;
  }

  lemma CfDoes(cfg: Config, id: nat, p: seq<Byte>, x: nat, e: Endpoint, now: Tick, room: nat)
    requires e.Valid() && 8 <= |p| <= MAX_PAYLOAD && cfg.rxId == id && 1 <= x <= CfCount(|p|)
    ensures var o := Step(cfg, e, Receive(ConsecutiveFrame(id, p, x), now, room));
            var r := e.rx;
            && o.delivered == []
            && (!r.Partial? || x % 16 != r.sn ==> o.next.rx == r)
            && (r.Partial? && x % 16 == r.sn ==>
                  var text := r.got + p[Offset(|p|, x - 1)..Offset(|p|, x)];
                  o.next.rx ==
                  if |text| < r.expected then Partial(r.expected, text, (r.sn + 1) % 16, Wrap32(now + cfg.nCr))
                  else Complete(text[..r.expected]))
  {
    var ev := Receive(ConsecutiveFrame(id, p, x), now, room);
    CfArrives(cfg, id, p, x, e, now, room);
    hide Step, ConsecutiveFrame, CfCount, Starts, IsCf, ConsecutiveBytes, Wrap32, Offset;
    if e.rx.Partial? && x % 16 == e.rx.sn {
      StepTakes(cfg, e, ev);
    } else {
      StepOther(cfg, e, ev);
    }
  }

  /** What one arrival does to the reception. */
  lemma HeadlessStep(cfg: Config, id: nat, p: seq<Byte>, k: nat, e: Endpoint, a: Arrival)
    requires e.Valid() && 8 <= |p| <= MAX_PAYLOAD && k <= CfCount(|p|) && cfg.rxId == id
    requires a.Arrives? ==> 1 <= a.index <= k && a.index < |Wire(id, p, k)|
    requires a.Fetch? ==> a.max >= MAX_PAYLOAD
    ensures var o := Step(cfg, e, ToEvent(Wire(id, p, k), a));
            var r, r' := e.rx, o.next.rx;
            && (o.delivered == if a.Fetch? && r.Complete? then r.payload else [])
            && (r.Idle? ==> r' == Idle)
            && (r.Complete? ==> r' == if a.Fetch? then Idle else r)
            && (r.Partial? && a.Arrives? && a.index % 16 == r.sn ==>
                  var text := r.got + p[Offset(|p|, a.index - 1)..Offset(|p|, a.index)];
                  r' == if |text| < r.expected then Partial(r.expected, text, (r.sn + 1) % 16, Wrap32(a.now + cfg.nCr))
                        else Complete(text[..r.expected]))
            && (r.Partial? && !(a.Arrives? && a.index % 16 == r.sn) ==> r' == r || r' == Idle)
            && (r.Partial? && a.Arrives? && a.index % 16 != r.sn ==> r' == r)
  {
    hide Step, Wire, ConsecutiveFrame, CfCount, Wrap32, Offset;
    match a
    case Arrives(x, now, room) =>
      WireCf(id, p, k, x);
      CfDoes(cfg, id, p, x, e, now, room);
    case Poll(now) => PollDoes(cfg, e, now);
    case Fetch(max) => FetchDoes(cfg, e, max);
  }

  lemma PollDoes(cfg: Config, e: Endpoint, now: Tick)
    requires e.Valid()
    ensures var o := Step(cfg, e, Update(now));
            o.delivered == [] && (o.next.rx == e.rx || (e.rx.Partial? && o.next.rx == Idle))
  {}

  lemma FetchDoes(cfg: Config, e: Endpoint, max: nat)
    requires e.Valid() && max >= MAX_PAYLOAD
    ensures var o := Step(cfg, e, Read(max));
            && o.delivered == (if e.rx.Complete? then e.rx.payload else [])
            && o.next.rx == if e.rx.Complete? then Idle else e.rx
  {
    if e.rx.Complete? {
      assert e.rx.payload[..|e.rx.payload|] == e.rx.payload;
    }
  }

  /** A receiver that is not in the middle of a reception delivers nothing of the message, and keeps what
      it had. */
  lemma {:induction false} NothingOfIt(cfg: Config, id: nat, p: seq<Byte>, k: nat, e: Endpoint, bus: seq<Arrival>)
    requires e.Valid() && 8 <= |p| <= MAX_PAYLOAD && k <= CfCount(|p|) && cfg.rxId == id && Headless(bus, k)
    requires forall a <- bus :: a.Arrives? ==> a.index < |Wire(id, p, k)|
    requires !e.rx.Partial?
    ensures var evs := Events(Wire(id, p, k), bus);
            var r, d := Run(cfg, e, evs).rx, Delivered(cfg, e, evs);
            || (r == e.rx && d == [])
            || (e.rx.Complete? && r == Idle && d == [e.rx.payload])
    decreases |bus|
  {
    hide Step, Wire, CfCount, ToEvent, Run, Delivered;
    if bus == [] {
      NothingHappened(cfg, e);
    } else {
      var w, before, a := Wire(id, p, k), bus[..|bus| - 1], bus[|bus| - 1];
      NothingOfIt(cfg, id, p, k, e, before);
      HeadlessStep(cfg, id, p, k, Run(cfg, e, Events(w, before)), a);
      RunSnoc(cfg, e, Events(w, before), ToEvent(w, a));
    }
  }

  // ---- In the middle of another reception ----

  /** The number of the first frame that a receiver waiting for `sn` takes. */
  function FirstMatch(sn: nat): nat
    requires sn < 16
  {
    if sn == 0 then 16 else sn
  }

  /** The bytes of the frames from there on. */
  function Remainder(r: Reassembly, p: seq<Byte>, k: nat): seq<Byte>
    requires r.Valid() && r.Partial? && 8 <= |p| && FirstMatch(r.sn) <= k <= CfCount(|p|)
  {
    OffsetsOrdered(|p|, FirstMatch(r.sn) - 1, k);
    p[Offset(|p|, FirstMatch(r.sn) - 1)..Offset(|p|, k)]
  }

  /** Enough consecutive frames with matching numbers follow to fill the reception. */
  predicate CanFill(r: Reassembly, p: seq<Byte>, k: nat)
    requires r.Valid() && r.Partial? && 8 <= |p| && k <= CfCount(|p|)
  {
    FirstMatch(r.sn) <= k && |r.got| + |Remainder(r, p, k)| >= r.expected
  }

  lemma OffsetsOrdered(len: nat, i: nat, j: nat)
    requires i <= j && 8 <= len
    ensures Offset(len, i) <= Offset(len, j) <= len
  {}

  lemma FirstMatchIsFirst(sn: nat, x: nat)
    requires sn < 16 && 1 <= x
    ensures x % 16 == sn ==> FirstMatch(sn) <= x
    ensures FirstMatch(sn) % 16 == sn && FirstMatch(sn) >= 1
  {}

  /** As long as frames up to `last` do not fill the reception: nothing was taken yet, or the last frame
      taken was number `i`. */
  ghost predicate Starved(r0: Reassembly, p: seq<Byte>, r: Reassembly, last: nat, i: nat)
    requires r0.Valid() && r0.Partial? && 8 <= |p|
  {
    r.Partial? && r.expected == r0.expected &&
    if i == 0 then r.got == r0.got && r.sn == r0.sn
    else
      && FirstMatch(r0.sn) <= i <= last && r.sn == NextSn(i)
      && |r.got| + Offset(|p|, FirstMatch(r0.sn) - 1) <= |r0.got| + Offset(|p|, i)
  }

  ghost predicate Starving(r0: Reassembly, p: seq<Byte>, r: Reassembly, last: nat)
    requires r0.Valid() && r0.Partial? && 8 <= |p|
  {
    r.Idle? || exists i: nat :: Starved(r0, p, r, last, i)
  }

  lemma RemainderLength(r: Reassembly, p: seq<Byte>, k: nat)
    requires r.Valid() && r.Partial? && 8 <= |p| && k <= CfCount(|p|)
    ensures FirstMatch(r.sn) <= k ==>
              |Remainder(r, p, k)| + Offset(|p|, FirstMatch(r.sn) - 1) == Offset(|p|, k)
  {
    hide CfCount, Offset;
    if FirstMatch(r.sn) <= k {
      OffsetsOrdered(|p|, FirstMatch(r.sn) - 1, k);
    }
  }

  lemma NextSnIs(x: nat)
    ensures NextSn(x) == (x % 16 + 1) % 16
  {}

  lemma StarvedTakes(r0: Reassembly, p: seq<Byte>, k: nat, r: Reassembly, last: nat, i: nat, x: nat)
    requires r0.Valid() && r0.Partial? && 8 <= |p| && k <= CfCount(|p|) && !CanFill(r0, p, k)
    requires Starved(r0, p, r, last, i) && last <= x <= k && 1 <= x && x % 16 == r.sn
    ensures Offset(|p|, x - 1) <= Offset(|p|, x) <= |p| && FirstMatch(r0.sn) <= x
    ensures var n := |r.got| + Offset(|p|, x) - Offset(|p|, x - 1);
            && n < r.expected
            && n + Offset(|p|, FirstMatch(r0.sn) - 1) <= |r0.got| + Offset(|p|, x)
    ensures (r.sn + 1) % 16 == NextSn(x)
  {
    hide Offset, CfCount, FirstMatch, NextSn, Remainder;
    FirstMatchIsFirst(r0.sn, x);
    OffsetsOrdered(|p|, x - 1, x);
    OffsetsOrdered(|p|, x, k);
    RemainderLength(r0, p, k);
    NextSnIs(x);
    if i == 0 {
      OffsetsOrdered(|p|, FirstMatch(r0.sn) - 1, x - 1);
    } else {
      SnStep(i, x);
      OffsetsOrdered(|p|, i, x - 1);
    }
  }

  lemma {:induction false} StarvedStays(cfg: Config, id: nat, p: seq<Byte>, k: nat, e: Endpoint, bus: seq<Arrival>)
    requires e.Valid() && 8 <= |p| <= MAX_PAYLOAD && k <= CfCount(|p|) && cfg.rxId == id && Headless(bus, k)
    requires forall a <- bus :: a.Arrives? ==> a.index < |Wire(id, p, k)|
    requires e.rx.Partial? && !CanFill(e.rx, p, k)
    ensures var evs := Events(Wire(id, p, k), bus);
            Delivered(cfg, e, evs) == [] && Starving(e.rx, p, Run(cfg, e, evs).rx, LastIndex(bus))
    decreases |bus|
  {
    hide Step, Wire, CfCount, ToEvent, CanFill, Starving, Wrap32, Run, Delivered;
    if bus == [] {
      StarvedAtStart(e.rx, p);
      NothingHappened(cfg, e);
    } else {
      var w, before, a := Wire(id, p, k), bus[..|bus| - 1], bus[|bus| - 1];
      StarvedStays(cfg, id, p, k, e, before);
      RunSnoc(cfg, e, Events(w, before), ToEvent(w, a));
      StarvedStep(cfg, id, p, k, e.rx, Run(cfg, e, Events(w, before)), LastIndex(before), a);
    }
  }

  lemma StarvedAtStart(r0: Reassembly, p: seq<Byte>)
    requires r0.Valid() && r0.Partial? && 8 <= |p|
    ensures Starving(r0, p, r0, 0)
  {
    assert Starved(r0, p, r0, 0, 0);
  }

  lemma StarvedStep(cfg: Config, id: nat, p: seq<Byte>, k: nat, r0: Reassembly, e: Endpoint, last: nat, a: Arrival)
    requires e.Valid() && 8 <= |p| <= MAX_PAYLOAD && k <= CfCount(|p|) && cfg.rxId == id
    requires r0.Valid() && r0.Partial? && !CanFill(r0, p, k)
    requires a.Arrives? ==> 1 <= a.index <= k && last <= a.index && a.index < |Wire(id, p, k)|
    requires a.Fetch? ==> a.max >= MAX_PAYLOAD
    requires Starving(r0, p, e.rx, last)
    ensures var o := Step(cfg, e, ToEvent(Wire(id, p, k), a));
            o.delivered == [] && Starving(r0, p, o.next.rx, if a.Arrives? then a.index else last)
  {
    hide Step, Wire, CfCount, ToEvent, CanFill, Wrap32, Offset, FirstMatch, NextSn;
    HeadlessStep(cfg, id, p, k, e, a);
    if !e.rx.Idle? {
      var i: nat :| Starved(r0, p, e.rx, last, i);
      var r' := Step(cfg, e, ToEvent(Wire(id, p, k), a)).next.rx;
      if a.Arrives? && a.index % 16 == e.rx.sn {
        StarvedTakes(r0, p, k, e.rx, last, i, a.index);
        assert Starved(r0, p, r', a.index, a.index);
      } else if r' == e.rx {
        assert Starved(r0, p, r', if a.Arrives? then a.index else last, i);
      }
    }
  }

  lemma {:induction false} StraightIsHeadless(from: nat, till: nat, k: nat)
    requires 1 <= from <= till + 1 && till <= k
    ensures Headless(Straight(from, till), k)
    ensures LastIndex(Straight(from, till)) == if from <= till then till else 0
    ensures forall a <- Straight(from, till) :: a.Arrives? && a.index <= till
    decreases till
  {
    if from <= till {
      StraightIsHeadless(from, till - 1, k);
      assert Straight(from, till)[..till - from] == Straight(from, till - 1);
    }
  }

  /** The text that the reception and the frames from the first match on make up, after frame `x`. */
  function Mixture(r: Reassembly, p: seq<Byte>, x: nat): seq<Byte>
    requires r.Valid() && r.Partial? && 8 <= |p| && FirstMatch(r.sn) <= x + 1
  {
    OffsetsOrdered(|p|, FirstMatch(r.sn) - 1, x);
    r.got + p[Offset(|p|, FirstMatch(r.sn) - 1)..Offset(|p|, x)]
  }

  lemma MixtureGrows(r: Reassembly, p: seq<Byte>, x: nat)
    requires r.Valid() && r.Partial? && 8 <= |p| && FirstMatch(r.sn) <= x
    ensures Offset(|p|, x - 1) <= Offset(|p|, x) <= |p|
    ensures Mixture(r, p, x) == Mixture(r, p, x - 1) + p[Offset(|p|, x - 1)..Offset(|p|, x)]
  {
    OffsetsOrdered(|p|, FirstMatch(r.sn) - 1, x - 1);
    OffsetsOrdered(|p|, x - 1, x);
    hide Offset;
  }

  /** Where the reception stands after frames `FirstMatch(r.sn)` to `x`. */
  predicate Mixing(r0: Reassembly, p: seq<Byte>, r: Reassembly, x: nat)
    requires r0.Valid() && r0.Partial? && 8 <= |p| && FirstMatch(r0.sn) <= x + 1
  {
    var text := Mixture(r0, p, x);
    if |text| < r0.expected then r.Partial? && r.expected == r0.expected && r.got == text && r.sn == NextSn(x)
    else r == Complete(text[..r0.expected])
  }

  lemma MixingStep(cfg: Config, id: nat, p: seq<Byte>, k: nat, r0: Reassembly, e: Endpoint, x: nat)
    requires e.Valid() && 8 <= |p| <= MAX_PAYLOAD && k <= CfCount(|p|) && cfg.rxId == id
    requires r0.Valid() && r0.Partial? && FirstMatch(r0.sn) <= x <= k && x < |Wire(id, p, k)|
    requires Mixing(r0, p, e.rx, x - 1)
    ensures var o := Step(cfg, e, ToEvent(Wire(id, p, k), Arrives(x, 0, 1)));
            Mixing(r0, p, o.next.rx, x) && o.delivered == []
  {
    FirstMatchIsFirst(r0.sn, x);
    WireCf(id, p, k, x);
    CfDoes(cfg, id, p, x, e, 0, 1);
    MixtureGrows(r0, p, x);
    SnStep(x - 1, x);
    hide Step, Wire, ConsecutiveFrame, CfCount, Wrap32, Offset, FirstMatch, Mixture, NextSn;
    var before, after := Mixture(r0, p, x - 1), Mixture(r0, p, x);
    if |before| >= r0.expected {
      assert after[..r0.expected] == before[..r0.expected];
    }
  }

  lemma MixingAtStart(r: Reassembly, p: seq<Byte>)
    requires r.Valid() && r.Partial? && 8 <= |p|
    ensures FirstMatch(r.sn) >= 1 && Mixing(r, p, r, FirstMatch(r.sn) - 1)
  {
    FirstMatchIsFirst(r.sn, 16);
    var o := Offset(|p|, FirstMatch(r.sn) - 1);
    OffsetsOrdered(|p|, FirstMatch(r.sn) - 1, FirstMatch(r.sn) - 1);
    assert p[o..o] == [] && r.got + [] == r.got;
    hide Offset;
  }

  lemma {:induction false} MixingRun(cfg: Config, id: nat, p: seq<Byte>, k: nat, e: Endpoint, x: nat)
    requires e.Valid() && 8 <= |p| <= MAX_PAYLOAD && k <= CfCount(|p|) && cfg.rxId == id
    requires e.rx.Partial? && 1 <= FirstMatch(e.rx.sn) <= x + 1 <= k + 1
    requires forall a <- Straight(FirstMatch(e.rx.sn), x) :: a.Arrives? ==> a.index < |Wire(id, p, k)|
    ensures var evs := Events(Wire(id, p, k), Straight(FirstMatch(e.rx.sn), x));
            Mixing(e.rx, p, Run(cfg, e, evs).rx, x) && Delivered(cfg, e, evs) == []
    decreases x
  {
    hide Step, Wire, CfCount, ToEvent, Mixing, FirstMatch, Offset, Run, Delivered;
    var first, w := FirstMatch(e.rx.sn), Wire(id, p, k);
    if first == x + 1 {
      MixingAtStart(e.rx, p);
      NothingHappened(cfg, e);
    } else {
      var before, bus := Straight(first, x - 1), Straight(first, x);
      assert bus == before + [Arrives(x, 0, 1)];
      assert bus[..|bus| - 1] == before && bus[|bus| - 1] == Arrives(x, 0, 1) && bus[|bus| - 1] in bus;
      MixingRun(cfg, id, p, k, e, x - 1);
      RunSnoc(cfg, e, Events(w, before), ToEvent(w, Arrives(x, 0, 1)));
      MixingStep(cfg, id, p, k, e.rx, Run(cfg, e, Events(w, before)), x);
    }
  }

  /** Over this bus the receiver delivers something. */
  ghost predicate Yields(cfg: Config, id: nat, p: seq<Byte>, k: nat, e: Endpoint, bus: seq<Arrival>)
    requires e.Valid() && 8 <= |p| <= MAX_PAYLOAD && k <= CfCount(|p|)
  {
    && Headless(bus, k) && (forall a <- bus :: a.Arrives? ==> a.index < |Wire(id, p, k)|)
    && Delivered(cfg, e, Events(Wire(id, p, k), bus)) != []
  }

  lemma FetchMixture(cfg: Config, r0: Reassembly, p: seq<Byte>, k: nat, e: Endpoint)
    requires e.Valid() && 8 <= |p| <= MAX_PAYLOAD && k <= CfCount(|p|)
    requires r0.Valid() && r0.Partial? && CanFill(r0, p, k) && Mixing(r0, p, e.rx, k)
    ensures Step(cfg, e, Read(MAX_PAYLOAD)).delivered == (r0.got + Remainder(r0, p, k))[..r0.expected]
    ensures Step(cfg, e, Read(MAX_PAYLOAD)).delivered != []
  {
    hide CfCount, FirstMatch, Offset;
    assert e.rx.payload[..|e.rx.payload|] == e.rx.payload;
  }

  /** Arrivals followed by a fetch. */
  lemma FetchLast(cfg: Config, w: seq<CanFrame>, k: nat, e: Endpoint, arrivals: seq<Arrival>)
    requires e.Valid() && Headless(arrivals, k) && forall a <- arrivals :: a.Arrives? ==> a.index < |w|
    requires Delivered(cfg, e, Events(w, arrivals)) == []
    ensures var bus := arrivals + [Fetch(MAX_PAYLOAD)];
            var text := Step(cfg, Run(cfg, e, Events(w, arrivals)), Read(MAX_PAYLOAD)).delivered;
            && Headless(bus, k) && (forall a <- bus :: a.Arrives? ==> a.index < |w|)
            && (text != [] ==> Delivered(cfg, e, Events(w, bus)) == [text])
  {
    hide Step, Run, Delivered;
    var bus := arrivals + [Fetch(MAX_PAYLOAD)];
    assert bus[..|bus| - 1] == arrivals && bus[|bus| - 1] == Fetch(MAX_PAYLOAD);
    RunSnoc(cfg, e, Events(w, arrivals), Read(MAX_PAYLOAD));
  }

  /** The worst bus: nothing is lost from the first match on, and the application fetches. */
  lemma Splices(cfg: Config, id: nat, p: seq<Byte>, k: nat, e: Endpoint) returns (bus: seq<Arrival>)
    requires e.Valid() && 8 <= |p| <= MAX_PAYLOAD && k <= CfCount(|p|) && cfg.rxId == id
    requires e.rx.Partial? && CanFill(e.rx, p, k)
    ensures Yields(cfg, id, p, k, e, bus)
    ensures Delivered(cfg, e, Events(Wire(id, p, k), bus)) == [(e.rx.got + Remainder(e.rx, p, k))[..e.rx.expected]]
  {
    hide Step, Wire, CfCount, Mixing, Headless, FirstMatch, Run, Delivered, Straight, Offset, Remainder, LastIndex,
         Mixture, Events;
    var first, w := FirstMatch(e.rx.sn), Wire(id, p, k);
    FirstMatchIsFirst(e.rx.sn, 16);
    StraightIsHeadless(first, k, k);
    var arrivals := Straight(first, k);
    MixingRun(cfg, id, p, k, e, k);
    bus := arrivals + [Fetch(MAX_PAYLOAD)];
    FetchLast(cfg, w, k, e, arrivals);
    FetchMixture(cfg, e.rx, p, k, Run(cfg, e, Events(w, arrivals)));
  }

  /** A message without its first frame makes a receiver in the middle of another reception deliver
      something exactly if enough of its consecutive frames, from the first one with the number waited for
      on, can follow to fill that reception. What it then delivers is the other message continued with
      bytes of this one. */
  lemma SplicesIff(cfg: Config, id: nat, p: seq<Byte>, k: nat, e: Endpoint)
    requires e.Valid() && 8 <= |p| <= MAX_PAYLOAD && k <= CfCount(|p|) && cfg.rxId == id && e.rx.Partial?
    ensures (exists bus :: Yields(cfg, id, p, k, e, bus)) <==> CanFill(e.rx, p, k)
  {
    hide CanFill, Run, Delivered, Wire, CfCount, Headless;
    if CanFill(e.rx, p, k) {
      var bus := Splices(cfg, id, p, k, e);
    } else {
      forall bus | Yields(cfg, id, p, k, e, bus) ensures false {
        StarvedStays(cfg, id, p, k, e, bus);
      }
    }
  }

  // ---- Failing runs ----

  lemma TwoFrames(cfg: Config, m: seq<Byte>, e: Endpoint)
    requires e.Valid() && |m| == 20
    ensures var o := Step(cfg, e, Receive(FirstFrame(cfg.rxId, m), 0, 1));
            var r := Step(cfg, o.next, Receive(ConsecutiveFrame(cfg.rxId, m, 1), 0, 1)).next.rx;
            r.Partial? && r.expected == 20 && r.got == m[..13] && r.sn == 2
  {
    FirstArrival(cfg, cfg.rxId, m, e, 0, 1);
    var o := Step(cfg, e, Receive(FirstFrame(cfg.rxId, m), 0, 1));
    CfArrives(cfg, cfg.rxId, m, 1, o.next, 0, 1);
    StepTakes(cfg, o.next, Receive(ConsecutiveFrame(cfg.rxId, m, 1), 0, 1));
    hide Step, FirstFrame, ConsecutiveFrame, IsCf, Starts, ConsecutiveBytes;
    assert m[..6] + m[6..13] == m[..13];
  }

  lemma NextTwoFrames(cfg: Config, m: seq<Byte>, e: Endpoint)
    requires e.Valid() && 20 <= |m| <= MAX_PAYLOAD
    requires e.rx.Partial? && e.rx.expected == 20 && |e.rx.got| == 13 && e.rx.sn == 2
    ensures var o := Step(cfg, e, Receive(ConsecutiveFrame(cfg.rxId, m, 1), 0, 1));
            var p := Step(cfg, o.next, Receive(ConsecutiveFrame(cfg.rxId, m, 2), 0, 1));
            p.next.rx == Complete(e.rx.got + m[13..20])
  {
    assert CfCount(|m|) >= 2;
    CfArrives(cfg, cfg.rxId, m, 1, e, 0, 1);
    StepOther(cfg, e, Receive(ConsecutiveFrame(cfg.rxId, m, 1), 0, 1));
    var o := Step(cfg, e, Receive(ConsecutiveFrame(cfg.rxId, m, 1), 0, 1));
    CfArrives(cfg, cfg.rxId, m, 2, o.next, 0, 1);
    StepTakes(cfg, o.next, Receive(ConsecutiveFrame(cfg.rxId, m, 2), 0, 1));
    hide Step, ConsecutiveFrame, IsCf, Starts, ConsecutiveBytes, CfCount;
    var text := e.rx.got + m[13..20];
    assert text[..20] == text;
  }

  lemma SplicedRun(cfg: Config, m1: seq<Byte>, m2: seq<Byte>)
    requires |m1| == 20 && 20 <= |m2| <= MAX_PAYLOAD
    ensures var evs := [Receive(FirstFrame(cfg.rxId, m1), 0, 1), Receive(ConsecutiveFrame(cfg.rxId, m1, 1), 0, 1)]
                       + [Receive(ConsecutiveFrame(cfg.rxId, m2, 1), 0, 1)]
                       + [Receive(ConsecutiveFrame(cfg.rxId, m2, 2), 0, 1)];
            Run(cfg, FRESH, evs).rx == Complete(m1[..13] + m2[13..20])
  {
    hide Step, Run, FirstFrame, ConsecutiveFrame;
    var begun := BegunRun(cfg, m1);
    NextTwoFrames(cfg, m2, Run(cfg, FRESH, begun));
    RunSnoc(cfg, FRESH, begun, Receive(ConsecutiveFrame(cfg.rxId, m2, 1), 0, 1));
    RunSnoc(cfg, FRESH, begun + [Receive(ConsecutiveFrame(cfg.rxId, m2, 1), 0, 1)],
            Receive(ConsecutiveFrame(cfg.rxId, m2, 2), 0, 1));
  }

  lemma BegunRun(cfg: Config, m: seq<Byte>) returns (evs: seq<Event>)
    requires |m| == 20
    ensures evs == [Receive(FirstFrame(cfg.rxId, m), 0, 1), Receive(ConsecutiveFrame(cfg.rxId, m, 1), 0, 1)]
    ensures var r := Run(cfg, FRESH, evs).rx; r.Partial? && r.expected == 20 && r.got == m[..13] && r.sn == 2
  {
    hide Step, FirstFrame, ConsecutiveFrame;
    var first, second := Receive(FirstFrame(cfg.rxId, m), 0, 1), Receive(ConsecutiveFrame(cfg.rxId, m, 1), 0, 1);
    evs := [first, second];
    assert [] + [first] == [first] && [first] + [second] == evs;
    RunSnoc(cfg, FRESH, [], first);
    RunSnoc(cfg, FRESH, [first], second);
    TwoFrames(cfg, m, FRESH);
  }

  lemma OversizedRun(cfg: Config, m1: seq<Byte>, m2: seq<Byte>)
    requires |m1| == 20 && |m2| == 4096
    ensures var evs := [Receive(FirstFrame(cfg.rxId, m1), 0, 1), Receive(ConsecutiveFrame(cfg.rxId, m1, 1), 0, 1)]
                       + [Receive(FirstFrame(cfg.rxId, m2), 0, 1)]
                       + [Receive(ConsecutiveFrame(cfg.rxId, m2, 1), 0, 1)]
                       + [Receive(ConsecutiveFrame(cfg.rxId, m2, 2), 0, 1)];
            Run(cfg, FRESH, evs).rx == Complete(m1[..13] + m2[13..20])
  {
    hide Step, Run, FirstFrame, ConsecutiveFrame;
    var begun := BegunRun(cfg, m1);
    var refused := Receive(FirstFrame(cfg.rxId, m2), 0, 1);
    RunSnoc(cfg, FRESH, begun, refused);
    RefusedFirst(cfg, m2, Run(cfg, FRESH, begun));
    var evs := begun + [refused];
    NextTwoFrames(cfg, m2, Run(cfg, FRESH, evs));
    RunSnoc(cfg, FRESH, evs, Receive(ConsecutiveFrame(cfg.rxId, m2, 1), 0, 1));
    RunSnoc(cfg, FRESH, evs + [Receive(ConsecutiveFrame(cfg.rxId, m2, 1), 0, 1)],
            Receive(ConsecutiveFrame(cfg.rxId, m2, 2), 0, 1));
  }

  lemma RefusedFirst(cfg: Config, m: seq<Byte>, e: Endpoint)
    requires e.Valid() && |m| == 4096
    ensures Step(cfg, e, Receive(FirstFrame(cfg.rxId, m), 0, 1)).next == e
  {
    FirstFrameLengthRoundTrip(cfg.rxId, m);
  }

  // ---- The senders of these runs ----

  /** A clear-to-send as ISO 15765-2 spells it, and a CAN driver that takes whatever follows. */
  function Clearance(cfg: Config, bs: Byte): Event { Receive(FlowControl(cfg.rxId, CTS, bs, 0), 0, MAX_PAYLOAD) }

  lemma OneBlock(cfg: Config, e: Endpoint, m: seq<Byte>, bs: Byte)
    requires e.Valid() && 8 <= |m| <= MAX_PAYLOAD && 0 < bs <= CfCount(|m|)
    ensures var a := Step(cfg, e, Send(m, 0, 1));
            var b := Step(cfg, a.next, Clearance(cfg, bs));
            a.sent == [FirstFrame(cfg.txId, m)] && b.sent == CfRange(cfg.txId, m, 0, bs)
  {
    ClearanceFacts(cfg, bs);
    assert CfCount(|m|) <= MAX_PAYLOAD;
    hide FirstFrame, FlowControl, CfRange, CfCount, Wrap32;
  }

  lemma RangeOfTwo(id: nat, m: seq<Byte>)
    requires 8 <= |m| <= MAX_PAYLOAD && 2 <= CfCount(|m|)
    ensures CfRange(id, m, 0, 1) == [ConsecutiveFrame(id, m, 1)]
    ensures CfRange(id, m, 0, 2) == [ConsecutiveFrame(id, m, 1), ConsecutiveFrame(id, m, 2)]
  {
    hide ConsecutiveFrame, CfCount;
  }

  /** Two messages and a block of each. */
  function TwoSends(cfg: Config, m1: seq<Byte>, b1: Byte, m2: seq<Byte>, b2: Byte): seq<Event> {
    [Send(m1, 0, 1)] + [Clearance(cfg, b1)] + [Send(m2, 0, 1)] + [Clearance(cfg, b2)]
  }

  lemma TwoSendsLog(cfg: Config, s: Endpoint, m1: seq<Byte>, b1: Byte, m2: seq<Byte>, b2: Byte)
    requires s.Valid() && 8 <= |m1| <= MAX_PAYLOAD && 8 <= |m2| <= MAX_PAYLOAD
    requires 0 < b1 <= CfCount(|m1|) && 0 < b2 <= CfCount(|m2|)
    ensures Sent(cfg, s, TwoSends(cfg, m1, b1, m2, b2))
            == [FirstFrame(cfg.txId, m1)] + CfRange(cfg.txId, m1, 0, b1)
               + [FirstFrame(cfg.txId, m2)] + CfRange(cfg.txId, m2, 0, b2)
    ensures IsoTpStreams.Messages(TwoSends(cfg, m1, b1, m2, b2)) == [m1, m2]
  {
    hide Step, Run, Sent, FirstFrame, CfRange, CfCount, FlowControl;
    var first := [Send(m1, 0, 1)];
    var second := first + [Clearance(cfg, b1)];
    var third := second + [Send(m2, 0, 1)];
    NothingHappened(cfg, s);
    assert [] + first == first;
    RunSnoc(cfg, s, [], Send(m1, 0, 1));
    RunSnoc(cfg, s, first, Clearance(cfg, b1));
    RunSnoc(cfg, s, second, Send(m2, 0, 1));
    RunSnoc(cfg, s, third, Clearance(cfg, b2));
    OneBlock(cfg, s, m1, b1);
    OneBlock(cfg, Run(cfg, s, second), m2, b2);
    TwoMessages(m1, Clearance(cfg, b1), m2, Clearance(cfg, b2));
  }

  lemma TwoMessages(m1: seq<Byte>, c1: Event, m2: seq<Byte>, c2: Event)
    requires 1 <= |m1| <= MAX_PAYLOAD && 1 <= |m2| <= MAX_PAYLOAD && c1.Receive? && c2.Receive?
    ensures IsoTpStreams.Messages([Send(m1, 0, 1)] + [c1] + [Send(m2, 0, 1)] + [c2]) == [m1, m2]
  {
    hide IsoTpStreams.Messages;
    IsoTpStreams.NoMessages();
    IsoTpStreams.MessagesSnoc([], Send(m1, 0, 1));
    assert [] + [Send(m1, 0, 1)] == [Send(m1, 0, 1)];
    IsoTpStreams.MessagesSnoc([Send(m1, 0, 1)], c1);
    IsoTpStreams.MessagesSnoc([Send(m1, 0, 1)] + [c1], Send(m2, 0, 1));
    IsoTpStreams.MessagesSnoc([Send(m1, 0, 1)] + [c1] + [Send(m2, 0, 1)], c2);
  }

  lemma {:induction false} NoReadsNoTexts(cfg: Config, e: Endpoint, evs: seq<Event>)
    requires e.Valid() && forall ev <- evs :: !ev.Read?
    ensures Delivered(cfg, e, evs) == []
  {
    hide Step, Run;
    if evs != [] {
      NoReadsNoTexts(cfg, e, evs[..|evs| - 1]);
      OnlyReadsDeliver(cfg, Run(cfg, e, evs[..|evs| - 1]), evs[|evs| - 1]);
    }
  }

  /** The frames at these places of the log arrive, and the application fetches. */
  function Carried(places: seq<nat>): seq<Arrival> {
    seq(|places|, i requires 0 <= i < |places| => Arrives(places[i], 0, 1)) + [Fetch(MAX_PAYLOAD)]
  }

  function Heard(w: seq<CanFrame>, places: seq<nat>): seq<Event>
    requires forall i | 0 <= i < |places| :: places[i] < |w|
  {
    seq(|places|, i requires 0 <= i < |places| => Receive(w[places[i]], 0, 1))
  }

  lemma {:induction false} EventsAt(w: seq<CanFrame>, bus: seq<Arrival>)
    requires forall a <- bus :: a.Arrives? ==> a.index < |w|
    ensures forall i | 0 <= i < |bus| :: Events(w, bus)[i] == ToEvent(w, bus[i])
  {
    hide ToEvent;
    if bus != [] {
      EventsAt(w, bus[..|bus| - 1]);
    }
  }

  lemma CarriedInLog(w: seq<CanFrame>, places: seq<nat>)
    requires forall i | 0 <= i < |places| :: places[i] < |w|
    ensures forall a <- Carried(places) :: a.Arrives? ==> a.index < |w|
  {
    forall a | a in Carried(places) && a.Arrives? ensures a.index < |w| {
      var i :| 0 <= i < |Carried(places)| && Carried(places)[i] == a;
    }
  }

  lemma EventsCarried(w: seq<CanFrame>, places: seq<nat>)
    requires forall i | 0 <= i < |places| :: places[i] < |w|
    requires forall a <- Carried(places) :: a.Arrives? ==> a.index < |w|
    ensures Events(w, Carried(places)) == Heard(w, places) + [Read(MAX_PAYLOAD)]
  {
    hide Events;
    var evs := Events(w, Carried(places));
    EventsAt(w, Carried(places));
    forall i | 0 <= i < |places| ensures evs[i] == Heard(w, places)[i] {
      assert Carried(places)[i] == Arrives(places[i], 0, 1);
    }
  }

  lemma FetchedText(cfg: Config, w: seq<CanFrame>, places: seq<nat>, text: seq<Byte>)
    requires forall i | 0 <= i < |places| :: places[i] < |w|
    requires Run(cfg, FRESH, Heard(w, places)).rx == Complete(text)
    ensures forall a <- Carried(places) :: a.Arrives? ==> a.index < |w|
    ensures Delivered(cfg, FRESH, Events(w, Carried(places))) == [text]
  {
    hide Step, Run, Delivered, Events, Carried;
    CarriedInLog(w, places);
    EventsCarried(w, places);
    NoReadsNoTexts(cfg, FRESH, Heard(w, places));
    RunSnoc(cfg, FRESH, Heard(w, places), Read(MAX_PAYLOAD));
    FetchDoes(cfg, Run(cfg, FRESH, Heard(w, places)), MAX_PAYLOAD);
  }

  lemma NeitherIsSelected(text: seq<Byte>, m1: seq<Byte>, m2: seq<Byte>)
    requires text != m1 && text != m2
    ensures !IsoTpStreams.Selected([text], [m1, m2], true)
  {
    assert [m1, m2][..1] == [m1] && [m1][..0] == [];
    assert !IsoTpStreams.Selected([text], [], true);
    assert !IsoTpStreams.Selected([text], [m1], true);
  }

  /** A sender whose second message gets a clear-to-send that was meant for the first, and a bus that loses
      the last frame of the first message and the first frame of the second: the application reads a
      message that nobody sent. Aborting at the wrong sequence number would have stopped it. */
  lemma LostFirstFrameSplices(sender: Config, s: Endpoint, receiver: Config, m1: seq<Byte>, m2: seq<Byte>)
    requires s.Valid() && receiver.rxId == sender.txId && |m1| == 20 && 20 <= |m2| <= MAX_PAYLOAD
    ensures var calls := TwoSends(sender, m1, 2, m2, 2);
            var log, bus, text := Sent(sender, s, calls), Carried([0, 1, 4, 5]), m1[..13] + m2[13..20];
            && (forall a <- bus :: a.Arrives? ==> a.index < |log|)
            && Delivered(receiver, FRESH, Events(log, bus)) == [text]
            && (text != m1 && text != m2 ==> !IsoTpStreams.Selected([text], IsoTpStreams.Messages(calls), true))
  {
    hide Step, Run, Sent, Delivered, FirstFrame, ConsecutiveFrame, CfRange, CfCount, TwoSends, IsoTpStreams.Messages,
         IsoTpStreams.Selected, Events, Carried;
    TwoFramesAtLeast(m1);
    TwoFramesAtLeast(m2);
    TwoSendsLog(sender, s, m1, 2, m2, 2);
    RangeOfTwo(sender.txId, m1);
    RangeOfTwo(sender.txId, m2);
    SplicedRun(receiver, m1, m2);
    var log, text := Sent(sender, s, TwoSends(sender, m1, 2, m2, 2)), m1[..13] + m2[13..20];
    assert Heard(log, [0, 1, 4, 5])
        == [Receive(FirstFrame(receiver.rxId, m1), 0, 1), Receive(ConsecutiveFrame(receiver.rxId, m1, 1), 0, 1)]
           + [Receive(ConsecutiveFrame(receiver.rxId, m2, 1), 0, 1)]
           + [Receive(ConsecutiveFrame(receiver.rxId, m2, 2), 0, 1)];
    FetchedText(receiver, log, [0, 1, 4, 5], text);
    if text != m1 && text != m2 {
      NeitherIsSelected(text, m1, m2);
    }
  }

  lemma TwoFramesAtLeast(m: seq<Byte>)
    requires 20 <= |m|
    ensures CfCount(|m|) >= 2
  {}

  /** A sender that gives up one message for another of 4096 bytes does the same on a bus that loses
      nothing: the first frame of the second announces 0 bytes and is refused. */
  lemma OversizedMessageSplices(sender: Config, s: Endpoint, receiver: Config, m1: seq<Byte>, m2: seq<Byte>)
    requires s.Valid() && receiver.rxId == sender.txId && |m1| == 20 && |m2| == 4096
    ensures var calls := TwoSends(sender, m1, 1, m2, 2);
            var log, bus, text := Sent(sender, s, calls), Carried([0, 1, 2, 3, 4]), m1[..13] + m2[13..20];
            && |log| == 5 && Delivered(receiver, FRESH, Events(log, bus)) == [text]
            && (text != m1 ==> !IsoTpStreams.Selected([text], IsoTpStreams.Messages(calls), true))
  {
    hide Step, Run, Sent, Delivered, FirstFrame, ConsecutiveFrame, CfRange, CfCount, TwoSends, IsoTpStreams.Messages,
         IsoTpStreams.Selected, Events;
    TwoFramesAtLeast(m1);
    TwoFramesAtLeast(m2);
    TwoSendsLog(sender, s, m1, 1, m2, 2);
    RangeOfTwo(sender.txId, m1);
    RangeOfTwo(sender.txId, m2);
    OversizedRun(receiver, m1, m2);
    var log, text := Sent(sender, s, TwoSends(sender, m1, 1, m2, 2)), m1[..13] + m2[13..20];
    assert Heard(log, [0, 1, 2, 3, 4])
        == [Receive(FirstFrame(receiver.rxId, m1), 0, 1), Receive(ConsecutiveFrame(receiver.rxId, m1, 1), 0, 1)]
           + [Receive(FirstFrame(receiver.rxId, m2), 0, 1)]
           + [Receive(ConsecutiveFrame(receiver.rxId, m2, 1), 0, 1)]
           + [Receive(ConsecutiveFrame(receiver.rxId, m2, 2), 0, 1)];
    FetchedText(receiver, log, [0, 1, 2, 3, 4], text);
    if text != m1 {
      NeitherIsSelected(text, m1, m2);
    }
  }
}
