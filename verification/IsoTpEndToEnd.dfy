/** From the sender's buffer to the receiver's reader, over a bus that keeps frames in order but may
    lose them and may repeat the one just carried. */
module IsoTpEndToEnd {
  import opened Words
  import opened IsoTpCodec
  import opened IsoTpMachine
  import opened IsoTpTransmit
  import IsoTpProgress

  /** What happens at the receiver: the frame at `index` of the transfer arrives, the timeouts are
      polled, or the application fetches with room for any message. */
  datatype Arrival =
    | Arrives(index: nat, now: Tick, room: nat)
    | Poll(now: Tick)
    | Fetch(max: nat)

  function ToEvent(w: seq<CanFrame>, a: Arrival): Event
    requires a.Arrives? ==> a.index < |w|
  {
    match a
    case Arrives(index, now, room) => Receive(w[index], now, room)
    case Poll(now) => Update(now)
    case Fetch(max) => Read(max)
  }

  /** The highest index seen so far; indices never decrease. */
  function LastIndex(bus: seq<Arrival>): nat {
    if bus == [] then 0
    else if bus[|bus| - 1].Arrives? then bus[|bus| - 1].index
    else LastIndex(bus[..|bus| - 1])
  }

  /** A first frame, then frames `0..k` in order, some missing and some repeated. */
  predicate InOrder(bus: seq<Arrival>, k: nat) {
    && bus != [] && bus[0].Arrives? && bus[0].index == 0
    && (|bus| > 1 ==>
          var last := bus[|bus| - 1];
          && InOrder(bus[..|bus| - 1], k)
          && (last.Arrives? ==> LastIndex(bus[..|bus| - 1]) <= last.index <= k)
          && (last.Fetch? ==> last.max >= MAX_PAYLOAD))
  }

  /** No frame up to the highest index seen is missing. */
  predicate Gapless(bus: seq<Arrival>) {
    bus != [] ==>
      var before, last := bus[..|bus| - 1], bus[|bus| - 1];
      Gapless(before) && (last.Arrives? ==> last.index <= LastIndex(before) + 1)
  }

  function Events(w: seq<CanFrame>, bus: seq<Arrival>): (evs: seq<Event>)
    requires forall a <- bus :: a.Arrives? ==> a.index < |w|
    ensures |evs| == |bus|
  {
    if bus == [] then [] else Events(w, bus[..|bus| - 1]) + [ToEvent(w, bus[|bus| - 1])]
  }

  lemma {:induction false} InOrderIndices(bus: seq<Arrival>, k: nat)
    requires InOrder(bus, k)
    ensures forall a <- bus :: a.Arrives? ==> a.index <= k
    ensures LastIndex(bus) <= k
  {
    if |bus| > 1 {
      InOrderIndices(bus[..|bus| - 1], k);
      assert bus == bus[..|bus| - 1] + [bus[|bus| - 1]];
    }
  }

  /** The sequence number that follows frame `i`. */
  function NextSn(i: nat): nat { (i + 1) % 16 }

  /** `j` consecutive frames were accepted, the last of them number `i` of the message. Either they
      are frames 1 to j, or a multiple of 16 was skipped and too few bytes can follow. */
  ghost predicate Tracks(p: seq<Byte>, r: Reassembly, last: nat, gapless: bool, j: nat, i: nat)
    requires 8 <= |p|
  {
    && r.Partial? && r.expected == |p| && r.sn == NextSn(i) && |r.got| <= 6 + 7 * j
    && i <= last && i <= CfCount(|p|)
    && (i == j || j + 16 <= i)
    && (i == j ==> j < CfCount(|p|) && r.got == p[..6 + 7 * j] && ((last == j && gapless) || last > j + 1))
  }

  /** The only states a receiver of this transfer can be in, with what it has delivered. */
  ghost predicate Sound(p: seq<Byte>, r: Reassembly, last: nat, gapless: bool, delivered: seq<seq<Byte>>)
    requires 8 <= |p|
  {
    || (r.Idle? && delivered == [])
    || (r.Idle? && delivered == [p] && last >= 1)
    || (r == Complete(p) && delivered == [] && gapless && last == CfCount(|p|))
    || (delivered == [] && exists j, i :: Tracks(p, r, last, gapless, j, i))
  }

  /** Two frames with adjacent sequence numbers are adjacent or at least 17 apart. */
  lemma SnStep(i: nat, x: nat)
    requires i <= x
    ensures x % 16 == NextSn(i) ==> (x == i + 1 || x >= i + 17) && (NextSn(i) + 1) % 16 == NextSn(x)
    ensures x == i + 1 ==> x % 16 == NextSn(i)
  {}

  lemma WrongSnIgnored(cfg: Config, r: Reassembly, f: CanFrame, now: Tick)
    requires r.Valid() && r.Partial? && f.dlc >= 1 && PciLow(f) != r.sn
    ensures OnConsecutive(cfg, r, f, now).rx == r
  {}

  /** What a receiver that tracks the transfer makes of a frame with the sequence number it waits for. */
  lemma TracksText(cfg: Config, id: nat, p: seq<Byte>, r: Reassembly, x: nat, now: Tick)
    requires 8 <= |p| <= 4095 && r.Valid() && r.Partial? && r.expected == |p|
    requires 1 <= x <= CfCount(|p|) && x % 16 == r.sn
    ensures var f := ConsecutiveFrame(id, p, x);
            var text := r.got + p[Offset(|p|, x - 1)..Offset(|p|, x)];
            && f.dlc >= 1 && |text| <= |r.got| + 7
            && OnConsecutive(cfg, r, f, now).rx
               == if |text| < |p| then Partial(|p|, text, (r.sn + 1) % 16, Wrap32(now + cfg.nCr))
                  else Complete(text[..|p|])
  {
    CfShape(id, p, x);
    hide CfCount, ConsecutiveFrame, Offset;
    var f := ConsecutiveFrame(id, p, x);
    var c := Min(r.expected - |r.got|, f.dlc - 1);
    TakeOfSlice(f.data, 1, f.dlc, c);
    assert r.got + ConsecutiveBytes(f)[..c] == (r.got + ConsecutiveBytes(f))[..|r.got| + c];
  }

  /** The frame the receiver waits for, with nothing skipped before it. */
  lemma TracksNext(cfg: Config, id: nat, p: seq<Byte>, r: Reassembly, last: nat, gapless: bool, j: nat, now: Tick)
    requires 8 <= |p| <= 4095 && r.Valid() && Tracks(p, r, last, gapless, j, j) && last <= j + 1 <= CfCount(|p|)
    ensures var f := ConsecutiveFrame(id, p, j + 1);
            && f.dlc >= 1
            && var r' := OnConsecutive(cfg, r, f, now).rx;
               || Tracks(p, r', j + 1, gapless, j + 1, j + 1)
               || (r' == Complete(p) && gapless && j + 1 == CfCount(|p|))
  {
    hide CfCount, ConsecutiveFrame, OnConsecutive, NextSn, Offset;
    SnStep(j, j + 1);
    TracksText(cfg, id, p, r, j + 1, now);
    CfChunk(|p|, j + 1);
    OffsetEnd(|p|, j + 1);
    OffsetBounds(|p|, j + 1);
    OffsetFull(|p|, j + 1);
    TakeThenSlice(p, 6 + 7 * j, Offset(|p|, j + 1));
    assert p[..|p|] == p;
  }

  /** A frame with the right sequence number but from further on. */
  lemma TracksSkip(cfg: Config, id: nat, p: seq<Byte>, r: Reassembly, last: nat, gapless: bool, j: nat, i: nat, x: nat,
                   now: Tick)
    requires 8 <= |p| <= 4095 && r.Valid() && Tracks(p, r, last, gapless, j, i)
    requires last <= x <= CfCount(|p|) && x % 16 == NextSn(i) && j + 17 <= x
    ensures var f := ConsecutiveFrame(id, p, x);
            f.dlc >= 1 && Tracks(p, OnConsecutive(cfg, r, f, now).rx, x, false, j + 1, x)
  {
    hide CfCount, ConsecutiveFrame, OnConsecutive, NextSn, Offset;
    SnStep(i, x);
    TracksText(cfg, id, p, r, x, now);
    OffsetFull(|p|, j + 1);
  }

  /** Arrival of consecutive frame `x` at a receiver that tracks the transfer. */
  lemma TracksCf(cfg: Config, id: nat, p: seq<Byte>, r: Reassembly, last: nat, gapless: bool, j: nat, i: nat, x: nat,
                 now: Tick)
    requires 8 <= |p| <= 4095 && r.Valid() && Tracks(p, r, last, gapless, j, i)
    requires last <= x <= CfCount(|p|) && 1 <= x
    ensures var f := ConsecutiveFrame(id, p, x);
            var gapless' := gapless && x <= last + 1;
            && f.dlc >= 1
            && var r' := OnConsecutive(cfg, r, f, now).rx;
               || Tracks(p, r', x, gapless', j, i)
               || Tracks(p, r', x, gapless', j + 1, x)
               || (r' == Complete(p) && gapless' && x == CfCount(|p|))
  {
    hide CfCount, ConsecutiveFrame, NextSn, OnConsecutive;
    CfShape(id, p, x);
    SnStep(i, x);
    if x % 16 != r.sn {
      WrongSnIgnored(cfg, r, ConsecutiveFrame(id, p, x), now);
      TracksIgnores(p, r, last, gapless, j, i, x);
    } else if x == j + 1 {
      TracksNext(cfg, id, p, r, last, gapless, j, now);
    } else {
      TracksSkip(cfg, id, p, r, last, gapless, j, i, x, now);
    }
  }

  lemma TracksIgnores(p: seq<Byte>, r: Reassembly, last: nat, gapless: bool, j: nat, i: nat, x: nat)
    requires 8 <= |p| && Tracks(p, r, last, gapless, j, i) && last <= x && x % 16 != r.sn
    ensures Tracks(p, r, x, gapless && x <= last + 1, j, i)
  {
    hide CfCount;
  }

  /** Before the last consecutive frame every frame is full. */
  lemma OffsetFull(len: nat, k: nat)
    requires 8 <= len && k <= CfCount(len)
    ensures k < CfCount(len) ==> Offset(len, k) == 6 + 7 * k < len
    ensures Offset(len, k) < len ==> Offset(len, k) == 6 + 7 * k && k < CfCount(len)
  {}

  /** The first frame of the transfer, at a receiver in any state. */
  lemma FirstArrival(cfg: Config, id: nat, p: seq<Byte>, e: Endpoint, now: Tick, room: nat)
    requires e.Valid() && 8 <= |p| <= 4095 && cfg.rxId == id
    ensures var o := Step(cfg, e, Receive(FirstFrame(id, p), now, room));
            && o.next.rx == Partial(|p|, p[..6], 1, Wrap32(now + cfg.nCr))
            && o.delivered == [] && Tracks(p, o.next.rx, 0, true, 0, 0)
  {
    FirstFrameLengthRoundTrip(id, p);
    hide FirstFrame;
    assert CfCount(|p|) > 0;
  }

  lemma WireAt(id: nat, p: seq<Byte>, k: nat, x: nat)
    requires 8 <= |p| <= 4095 && x <= k <= CfCount(|p|)
    ensures Wire(id, p, k)[x] == if x == 0 then FirstFrame(id, p) else ConsecutiveFrame(id, p, x)
  {
    hide CfCount, ConsecutiveFrame, FirstFrame;
  }

  lemma SoundFrame(cfg: Config, id: nat, p: seq<Byte>, e: Endpoint, last: nat, gapless: bool, d: seq<seq<Byte>>,
                   x: nat, now: Tick, room: nat)
    requires e.Valid() && 8 <= |p| <= 4095 && cfg.rxId == id && Sound(p, e.rx, last, gapless, d)
    requires last <= x <= CfCount(|p|) && 1 <= x
    ensures var o := Step(cfg, e, Receive(ConsecutiveFrame(id, p, x), now, room));
            o.delivered == [] && Sound(p, o.next.rx, x, gapless && x <= last + 1, d)
  {
    CfShape(id, p, x);
    var f := ConsecutiveFrame(id, p, x);
    hide ConsecutiveFrame, CfCount, Tracks, OnConsecutive;
    assert f.id == id by { CfId(id, p, x); }
    if e.rx.Partial? {
      var j: nat, i: nat :| Tracks(p, e.rx, last, gapless, j, i);
      TracksCf(cfg, id, p, e.rx, last, gapless, j, i, x, now);
    } else {
      NotTracking(p, e.rx, last, gapless);
      NotReceiving(cfg, e.rx, f, now);
    }
  }

  lemma CfId(id: nat, p: seq<Byte>, x: nat)
    requires 8 <= |p| <= MAX_PAYLOAD && 1 <= x <= CfCount(|p|)
    ensures ConsecutiveFrame(id, p, x).id == id
  {}

  lemma NotTracking(p: seq<Byte>, r: Reassembly, last: nat, gapless: bool)
    requires 8 <= |p| && !r.Partial?
    ensures forall j, i :: !Tracks(p, r, last, gapless, j, i)
  {}

  lemma NotReceiving(cfg: Config, r: Reassembly, f: CanFrame, now: Tick)
    requires r.Valid() && !r.Partial? && f.dlc >= 1
    ensures OnConsecutive(cfg, r, f, now).rx == r
  {}

  lemma SoundOther(cfg: Config, p: seq<Byte>, e: Endpoint, last: nat, gapless: bool, d: seq<seq<Byte>>, ev: Event)
    requires e.Valid() && 8 <= |p| <= 4095 && Sound(p, e.rx, last, gapless, d)
    requires ev.Update? || (ev.Read? && ev.max >= MAX_PAYLOAD)
    ensures var o := Step(cfg, e, ev);
            Sound(p, o.next.rx, last, gapless, d + if o.delivered == [] then [] else [o.delivered])
  {
    hide Tracks;
    assert d + [] == d;
    assert p[..|p|] == p;
    assert CfCount(|p|) >= 1;
    if !e.rx.Partial? {
      NotTracking(p, e.rx, last, gapless);
    }
  }

  lemma {:induction false} BusIsSound(cfg: Config, id: nat, p: seq<Byte>, k: nat, e: Endpoint, bus: seq<Arrival>)
    requires e.Valid() && 8 <= |p| <= 4095 && k <= CfCount(|p|) && cfg.rxId == id && InOrder(bus, k)
    requires forall a <- bus :: a.Arrives? ==> a.index < |Wire(id, p, k)|
    ensures var evs := Events(Wire(id, p, k), bus);
            Sound(p, Run(cfg, e, evs).rx, LastIndex(bus), Gapless(bus), Delivered(cfg, e, evs))
    decreases |bus|
  {
    hide Step, Wire, CfCount, Tracks, Sound, FirstFrame, ConsecutiveFrame;
    var w, before, a := Wire(id, p, k), bus[..|bus| - 1], bus[|bus| - 1];
    var ev := ToEvent(w, a);
    var prior, d := Run(cfg, e, Events(w, before)), Delivered(cfg, e, Events(w, before));
    RunSnoc(cfg, e, Events(w, before), ev);
    InOrderIndices(bus, k);
    assert d + [] == d;
    if |bus| == 1 {
      assert before == [];
      WireAt(id, p, k, 0);
      FirstArrival(cfg, id, p, prior, a.now, a.room);
      SoundTracks(p, Run(cfg, e, Events(w, bus)).rx, 0, true, 0, 0);
    } else {
      BusIsSound(cfg, id, p, k, e, before);
      if a.Arrives? {
        WireAt(id, p, k, a.index);
        if a.index == 0 {
          GaplessAtStart(before, k);
          SoundAtStart(p, prior.rx, d, Gapless(before));
          FirstArrival(cfg, id, p, prior, a.now, a.room);
          SoundTracks(p, Run(cfg, e, Events(w, bus)).rx, 0, true, 0, 0);
        } else {
          SoundFrame(cfg, id, p, prior, LastIndex(before), Gapless(before), d, a.index, a.now, a.room);
        }
      } else {
        SoundOther(cfg, p, prior, LastIndex(bus), Gapless(bus), d, ev);
      }
    }
  }

  lemma SoundTracks(p: seq<Byte>, r: Reassembly, last: nat, gapless: bool, j: nat, i: nat)
    requires 8 <= |p| && Tracks(p, r, last, gapless, j, i)
    ensures Sound(p, r, last, gapless, [])
  {
    hide Tracks, CfCount;
  }

  lemma SoundAtStart(p: seq<Byte>, r: Reassembly, d: seq<seq<Byte>>, gapless: bool)
    requires 8 <= |p| && Sound(p, r, 0, gapless, d)
    ensures d == []
  {
    hide Tracks;
  }

  lemma {:induction false} GaplessAtStart(bus: seq<Arrival>, k: nat)
    requires InOrder(bus, k) && LastIndex(bus) == 0
    ensures Gapless(bus)
  {
    if |bus| > 1 {
      GaplessAtStart(bus[..|bus| - 1], k);
    }
  }

  /** Over any in-order bus that loses and stutters frames, whatever else happens at the receiver,
      the reader gets the sender's message unchanged, at most once, or nothing; and a message is
      ready only if every one of its frames arrived. */
  lemma LossyBusDelivers(cfg: Config, id: nat, p: seq<Byte>, k: nat, e: Endpoint, bus: seq<Arrival>)
    requires e.Valid() && 8 <= |p| <= 4095 && k <= CfCount(|p|) && cfg.rxId == id && InOrder(bus, k)
    requires forall a <- bus :: a.Arrives? ==> a.index < |Wire(id, p, k)|
    ensures var evs := Events(Wire(id, p, k), bus);
            var r, d := Run(cfg, e, evs).rx, Delivered(cfg, e, evs);
            && (d == [] || d == [p])
            && (r.Complete? ==> r.payload == p && Gapless(bus) && LastIndex(bus) == CfCount(|p|))
  {
    hide Step, Run, Delivered, Wire, CfCount, InOrder;
    BusIsSound(cfg, id, p, k, e, bus);
    var r := Run(cfg, e, Events(Wire(id, p, k), bus)).rx;
    if !r.Partial? {
      NotTracking(p, r, LastIndex(bus), Gapless(bus));
    }
  }

  // ---- Nothing lost, nothing late ----

  /** When N_Cr was last restarted, if no frame is missing: at the latest new frame. */
  function LastNew(bus: seq<Arrival>): Tick {
    if bus == [] then 0
    else
      var before, a := bus[..|bus| - 1], bus[|bus| - 1];
      if a.Arrives? && (a.index == 0 || a.index > LastIndex(before)) then a.now else LastNew(before)
  }

  /** No poll finds N_Cr expired while the transfer is incomplete, and nothing is fetched. */
  predicate Timely(cfg: Config, bus: seq<Arrival>, n: nat) {
    bus != [] ==>
      var before, a := bus[..|bus| - 1], bus[|bus| - 1];
      && Timely(cfg, before, n) && !a.Fetch?
      && (a.Poll? && LastIndex(before) < n ==> !Expired(Wrap32(LastNew(before) + cfg.nCr), a.now))
  }

  /** The receiver after consecutive frames 1 to `j`, the newest of them at time `last`. */
  function Expected(cfg: Config, p: seq<Byte>, j: nat, last: Tick): Reassembly
    requires 8 <= |p| && j <= CfCount(|p|)
  {
    if j == CfCount(|p|) then Complete(p)
    else Partial(|p|, p[..Offset(|p|, j)], NextSn(j), Wrap32(last + cfg.nCr))
  }

  lemma ExpectedFrame(cfg: Config, id: nat, p: seq<Byte>, e: Endpoint, j: nat, last: Tick, x: nat, now: Tick, room: nat)
    requires e.Valid() && 8 <= |p| <= 4095 && cfg.rxId == id && j <= x <= j + 1 && 1 <= x <= CfCount(|p|)
    requires e.rx == Expected(cfg, p, j, last)
    ensures Step(cfg, e, Receive(ConsecutiveFrame(id, p, x), now, room)).next.rx
            == Expected(cfg, p, x, if x > j then now else last)
  {
    hide ConsecutiveFrame, CfCount, OnConsecutive, NextSn, Offset, Wrap32, Step;
    var f := ConsecutiveFrame(id, p, x);
    CfShape(id, p, x);
    CfId(id, p, x);
    SnStep(j, x);
    CfReceived(cfg, e, f, now, room);
    if !e.rx.Partial? {
      NotReceiving(cfg, e.rx, f, now);
    } else if x == j {
      WrongSnIgnored(cfg, e.rx, f, now);
    } else {
      ExpectedNext(cfg, id, p, e.rx, j, last, now);
    }
  }

  lemma CfReceived(cfg: Config, e: Endpoint, f: CanFrame, now: Tick, room: nat)
    requires e.Valid() && f.id == cfg.rxId && f.dlc >= 1 && PciType(f) == CONSECUTIVE
    ensures var o := Step(cfg, e, Receive(f, now, room));
            o.next.rx == OnConsecutive(cfg, e.rx, f, now).rx && o.delivered == []
  {
    hide OnConsecutive;
  }

  lemma ExpectedNext(cfg: Config, id: nat, p: seq<Byte>, r: Reassembly, j: nat, last: Tick, now: Tick)
    requires 8 <= |p| <= 4095 && r.Valid() && j < CfCount(|p|) && r == Expected(cfg, p, j, last)
    ensures var f := ConsecutiveFrame(id, p, j + 1);
            f.dlc >= 1 && OnConsecutive(cfg, r, f, now).rx == Expected(cfg, p, j + 1, now)
  {
    hide ConsecutiveFrame, CfCount, OnConsecutive, NextSn, Offset, Wrap32;
    SnStep(j, j + 1);
    OffsetEnd(|p|, j);
    OffsetEnd(|p|, j + 1);
    OffsetBounds(|p|, j + 1);
    TracksText(cfg, id, p, r, j + 1, now);
    TakeThenSlice(p, Offset(|p|, j), Offset(|p|, j + 1));
    assert p[..|p|] == p;
  }

  lemma ExpectedStart(cfg: Config, id: nat, p: seq<Byte>, e: Endpoint, now: Tick, room: nat)
    requires e.Valid() && 8 <= |p| <= 4095 && cfg.rxId == id
    ensures Step(cfg, e, Receive(FirstFrame(id, p), now, room)).next.rx == Expected(cfg, p, 0, now)
  {
    hide Step, FirstFrame;
    FirstArrival(cfg, id, p, e, now, room);
  }

  lemma ExpectedPoll(cfg: Config, p: seq<Byte>, e: Endpoint, j: nat, last: Tick, now: Tick)
    requires e.Valid() && 8 <= |p| && j <= CfCount(|p|) && e.rx == Expected(cfg, p, j, last)
    requires j < CfCount(|p|) ==> !Expired(Wrap32(last + cfg.nCr), now)
    ensures Step(cfg, e, Event.Update(now)).next.rx == e.rx
  {
    hide CfCount, Offset, NextSn, Wrap32;
  }

  lemma PromptArrival(cfg: Config, id: nat, p: seq<Byte>, k: nat, e: Endpoint, j: nat, last: Tick, a: Arrival)
    requires e.Valid() && 8 <= |p| <= 4095 && k <= CfCount(|p|) && cfg.rxId == id && j <= CfCount(|p|) && !a.Fetch?
    requires a.Arrives? ==> a.index < |Wire(id, p, k)| && (a.index == 0 || j <= a.index <= j + 1)
    requires a.Poll? || a.index != 0 ==> e.rx == Expected(cfg, p, j, last)
    requires a.Poll? && j < CfCount(|p|) ==> !Expired(Wrap32(last + cfg.nCr), a.now)
    ensures a.Arrives? ==> a.index <= CfCount(|p|)
    ensures Step(cfg, e, ToEvent(Wire(id, p, k), a)).next.rx ==
            if a.Arrives? then Expected(cfg, p, a.index, if a.index == 0 || a.index > j then a.now else last)
            else Expected(cfg, p, j, last)
  {
    hide Step, Wire, CfCount, FirstFrame, ConsecutiveFrame, Expected, Expired, Wrap32;
    if a.Poll? {
      ExpectedPoll(cfg, p, e, j, last, a.now);
    } else {
      WireAt(id, p, k, a.index);
      if a.index == 0 {
        ExpectedStart(cfg, id, p, e, a.now, a.room);
      } else {
        ExpectedFrame(cfg, id, p, e, j, last, a.index, a.now, a.room);
      }
    }
  }

  lemma {:induction false} PromptBus(cfg: Config, id: nat, p: seq<Byte>, k: nat, e: Endpoint, bus: seq<Arrival>)
    requires e.Valid() && 8 <= |p| <= 4095 && k <= CfCount(|p|) && cfg.rxId == id && InOrder(bus, k)
    requires forall a <- bus :: a.Arrives? ==> a.index < |Wire(id, p, k)|
    requires Gapless(bus) && Timely(cfg, bus, CfCount(|p|))
    ensures LastIndex(bus) <= CfCount(|p|)
    ensures Run(cfg, e, Events(Wire(id, p, k), bus)).rx == Expected(cfg, p, LastIndex(bus), LastNew(bus))
    decreases |bus|
  {
    hide Step, Run, Wire, CfCount, Expected, Expired, Wrap32, ToEvent;
    var w, before, a := Wire(id, p, k), bus[..|bus| - 1], bus[|bus| - 1];
    var prior := Run(cfg, e, Events(w, before));
    RunSnoc(cfg, e, Events(w, before), ToEvent(w, a));
    if |bus| == 1 {
      assert before == [];
      PromptArrival(cfg, id, p, k, prior, 0, 0, a);
    } else {
      PromptBus(cfg, id, p, k, e, before);
      PromptArrival(cfg, id, p, k, prior, LastIndex(before), LastNew(before), a);
    }
  }

  /** When no poll is late, the message is ready exactly when no frame was lost and the last one
      has arrived. */
  lemma PromptBusDeliversIff(cfg: Config, id: nat, p: seq<Byte>, k: nat, e: Endpoint, bus: seq<Arrival>)
    requires e.Valid() && 8 <= |p| <= 4095 && k <= CfCount(|p|) && cfg.rxId == id && InOrder(bus, k)
    requires forall a <- bus :: a.Arrives? ==> a.index < |Wire(id, p, k)|
    requires Timely(cfg, bus, CfCount(|p|))
    ensures Run(cfg, e, Events(Wire(id, p, k), bus)).rx == Complete(p)
            <==> Gapless(bus) && LastIndex(bus) == CfCount(|p|)
  {
    hide Step, Run, Wire, CfCount, InOrder, Gapless, Timely;
    LossyBusDelivers(cfg, id, p, k, e, bus);
    if Gapless(bus) && LastIndex(bus) == CfCount(|p|) {
      PromptBus(cfg, id, p, k, e, bus);
    }
  }

  /** End to end: the frames that a sender has put on the bus for its latest message, carried by an
      in-order bus that may lose and repeat them, give the receiving application that message or
      nothing, whatever either side was doing before and whatever flow control the sender got. */
  lemma EndToEnd(sender: Config, s: Endpoint, calls: seq<Event>,
                 receiver: Config, r: Endpoint, bus: seq<Arrival>)
    requires s.Valid() && s.tx == Quiet && r.Valid() && receiver.rxId == sender.txId
    requires LastMessage(calls).Some? && |LastMessage(calls).value| <= 4095
    requires var w := Current(Sent(sender, s, calls));
             w != [] ==> InOrder(bus, |w| - 1) && forall a <- bus :: a.Arrives? ==> a.index < |w|
    ensures var w, message := Current(Sent(sender, s, calls)), LastMessage(calls).value;
            && w != []
            && var d := Delivered(receiver, r, Events(w, bus)); d == [] || d == [message]
  {
    hide Step, Run, Delivered, Sent, Current, Wire, CfCount, InOrder;
    SentIsInStep(sender, s, calls);
    var w, m := Current(Sent(sender, s, calls)), LastMessage(calls).value;
    LossyBusDelivers(receiver, sender.txId, m, |w| - 1, r, bus);
  }

  /** A message of at most seven bytes takes one frame, and any receiver has it as soon as that frame
      arrives. */
  lemma SingleFrameDelivers(cfg: Config, id: nat, p: seq<Byte>, e: Endpoint, now: Tick, room: nat)
    requires e.Valid() && 1 <= |p| <= 7 && cfg.rxId == id
    ensures Step(cfg, e, Receive(SingleFrame(id, p), now, room)).next.rx == Complete(p)
  {
    var f := SingleFrame(id, p);
    assert f.data[..|p| + 1] == [|p|] + p;
    assert f.data[0] == f.data[..|p| + 1][0];
    assert f.data[1..1 + |p|] == f.data[..|p| + 1][1..];
    assert PciLow(f) == |p| && PciType(f) == SINGLE;
  }

  /** Liveness of a whole transfer. The sender accepts a message while idle and hears, before N_Bs
      expires, at least as many clear-to-send frames of block size `bs` as the message needs; all its
      frames then reach the receiver, repeated perhaps but none lost or late. Then exactly the message's
      frames were sent, and the receiving application reads exactly the message. */
  lemma WholeTransfer(sender: Config, s: Endpoint, m: seq<Byte>, start: Tick, room: nat, bs: Byte, calls: seq<Event>,
                      receiver: Config, r: Endpoint, bus: seq<Arrival>, max: nat)
    requires s.Valid() && r.Valid() && receiver.rxId == sender.txId && 8 <= |m| <= 4095 && room > 0 && max >= |m|
    requires forall ev <- calls :: IsoTpProgress.Helpful(sender, bs, ev)
    requires IsoTpProgress.InTime(sender, calls, start, CfCount(|m|))
    requires IsoTpProgress.CtsCount(sender, calls) >= IsoTpProgress.Rounds(CfCount(|m|), bs)
    requires InOrder(bus, CfCount(|m|)) && Gapless(bus) && LastIndex(bus) == CfCount(|m|)
    requires forall a <- bus :: a.Arrives? ==> a.index <= CfCount(|m|)
    requires Timely(receiver, bus, CfCount(|m|))
    ensures var w := Wire(sender.txId, m, CfCount(|m|));
            var run := [Send(m, start, room)] + calls;
            && Current(Sent(sender, s, run)) == w && Run(sender, s, run).tx == Quiet
            && Step(receiver, Run(receiver, r, Events(w, bus)), Read(max)).delivered == m
  {
    hide Run, Sent, Current, Wire, CfCount, InOrder, Gapless, Timely, IsoTpProgress.Helpful, IsoTpProgress.InTime,
         IsoTpProgress.Rounds, IsoTpProgress.CtsCount;
    TransferSent(sender, s, m, start, room, bs, calls);
    PromptBusDeliversIff(receiver, sender.txId, m, CfCount(|m|), r, bus);
    assert m[..|m|] == m;
  }

  lemma TransferSent(sender: Config, s: Endpoint, m: seq<Byte>, start: Tick, room: nat, bs: Byte, calls: seq<Event>)
    requires s.Valid() && 8 <= |m| <= 4095 && room > 0
    requires forall ev <- calls :: IsoTpProgress.Helpful(sender, bs, ev)
    requires IsoTpProgress.InTime(sender, calls, start, CfCount(|m|))
    requires IsoTpProgress.CtsCount(sender, calls) >= IsoTpProgress.Rounds(CfCount(|m|), bs)
    ensures var run := [Send(m, start, room)] + calls;
            && Current(Sent(sender, s, run)) == Wire(sender.txId, m, CfCount(|m|)) && Run(sender, s, run).tx == Quiet
  {
    hide Run, Sent, Current, Wire, CfCount, IsoTpProgress.Helpful, IsoTpProgress.InTime, IsoTpProgress.Rounds,
         IsoTpProgress.CtsCount;
    var send := Send(m, start, room);
    var s1 := Step(sender, s, send).next;
    FirstFrameOut(sender, s, m, start, room);
    RunAppend(sender, s, [send], calls);
    OutputAppend(sender, s, [send], calls);
    IsoTpProgress.FlowControlProgress(sender, s1, m, start, bs, calls, Sent(sender, s, [send]));
  }

  lemma FirstFrameOut(sender: Config, s: Endpoint, m: seq<Byte>, start: Tick, room: nat)
    requires s.Valid() && 8 <= |m| <= 4095 && room > 0
    ensures var send := Send(m, start, room);
            && Run(sender, s, [send]) == Step(sender, s, send).next
            && Run(sender, s, [send]).tx == Waiting(m, 0, Wrap32(start + sender.nBs))
            && Current(Sent(sender, s, [send])) == Wire(sender.txId, m, 0)
  {
    var send := Send(m, start, room);
    assert [] + [send] == [send];
    RunSnoc(sender, s, [], send);
    assert Sent(sender, s, []) == [];
    FirstFrameLengthRoundTrip(sender.txId, m);
    var f := FirstFrame(sender.txId, m);
    hide FirstFrame, CfCount;
    assert [] + [f] == [f];
    CurrentSnoc([], f);
    assert CfRange(sender.txId, m, 0, 0) == [];
  }

  // ---- A plain transfer ----

  /** `c` clear-to-send frames as ISO 15765-2 spells them, and nothing else. */
  function Clearances(cfg: Config, bs: Byte, c: nat): (evs: seq<Event>)
    ensures |evs| == c
  {
    seq(c, _ => Receive(FlowControl(cfg.rxId, CTS, bs, 0), 0, MAX_PAYLOAD))
  }

  /** Frames `first` to `last`, each once. */
  function Straight(first: nat, last: nat): (bus: seq<Arrival>)
    requires first <= last + 1
    ensures |bus| == last + 1 - first
  {
    seq(last + 1 - first, i requires 0 <= i < last + 1 - first => Arrives(first + i, 0, 1))
  }

  lemma ClearanceFacts(cfg: Config, bs: Byte)
    ensures var ev := Receive(FlowControl(cfg.rxId, CTS, bs, 0), 0, MAX_PAYLOAD);
            IsCts(cfg, ev) && IsoTpProgress.Helpful(cfg, bs, ev)
  {
    EmittedFlowControlType(cfg.rxId, CTS, bs, 0);
    assert Padded([0x30 + CTS, bs, 0])[..3] == [0x30, bs, 0];
    var f := FlowControl(cfg.rxId, CTS, bs, 0);
    assert f.data[1] == f.data[..3][1];
  }

  lemma {:induction false} ClearancesCount(cfg: Config, bs: Byte, c: nat)
    ensures IsoTpProgress.CtsCount(cfg, Clearances(cfg, bs, c)) == c
  {
    hide IsCts;
    if c > 0 {
      ClearancesCount(cfg, bs, c - 1);
      ClearanceFacts(cfg, bs);
      assert Clearances(cfg, bs, c)[..c - 1] == Clearances(cfg, bs, c - 1);
    }
  }

  lemma {:induction false} StraightBus(cfg: Config, n: nat, k: nat, last: nat)
    requires n <= k
    ensures var bus := Straight(0, n);
            InOrder(bus, k) && Gapless(bus) && LastIndex(bus) == n && Timely(cfg, bus, last)
  {
    var bus := Straight(0, n);
    if n == 0 {
      assert bus[..0] == [];
    } else {
      StraightBus(cfg, n - 1, k, last);
      assert bus[..n] == Straight(0, n - 1);
    }
  }

  /** A plain transfer succeeds: any message of 8 to 4095 bytes, sent by an endpoint in any state with a
      block size of the peer's choice, is read by the peer after as many clear-to-send frames as it needs
      and its frames in order, whatever the peer was doing before. */
  lemma PlainTransfer(sender: Config, s: Endpoint, m: seq<Byte>, start: Tick, bs: Byte,
                      receiver: Config, r: Endpoint, max: nat)
    requires s.Valid() && r.Valid() && receiver.rxId == sender.txId && 8 <= |m| <= 4095 && max >= |m|
    ensures var n := CfCount(|m|);
            var calls := [Send(m, start, 1)] + Clearances(sender, bs, IsoTpProgress.Rounds(n, bs));
            var w := Current(Sent(sender, s, calls));
            && |w| == n + 1
            && Step(receiver, Run(receiver, r, Events(w, Straight(0, n))), Read(max)).delivered == m
  {
    hide Run, Sent, Current, Wire, CfCount, InOrder, Gapless, Timely, FlowControl, IsoTpProgress.Helpful,
         IsoTpProgress.Rounds, IsoTpProgress.CtsCount, Step;
    var n := CfCount(|m|);
    var calls := Clearances(sender, bs, IsoTpProgress.Rounds(n, bs));
    ClearanceFacts(sender, bs);
    ClearancesCount(sender, bs, IsoTpProgress.Rounds(n, bs));
    StraightBus(receiver, n, n, n);
    WholeTransfer(sender, s, m, start, 1, bs, calls, receiver, r, Straight(0, n), max);
  }
}
