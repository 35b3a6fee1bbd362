/** SecurityAccess over whole runs: where an unlocked level comes from, and how often keys can be
    tried. */
module SecurityRuns {
  import opened Words
  import opened SecurityAccess
  import SeedKey

  /** The entry that answers for a level. */
  function Entry(s: Service, id: bv8): Option<Level> {
    var i := Find(s.levels, id);
    if i < |s.levels| then Some(s.levels[i]) else None
  }

  lemma RegisterEntry(s: Service, id: bv8, seedLen: nat, required: SessionType, other: bv8)
    ensures var next := Step(s, Register(id, seedLen, required)).next;
            && next.active == s.active && next.tick == s.tick
            && Entry(next, other) ==
               if Entry(s, other) == None && other == id && id & 1 == 1 && |s.levels| < 8
               then Some(Level(id, seedLen, required, [], false, false, 0, 0))
               else Entry(s, other)
  {
    IndexAppend(Ids(s.levels), id, other);
    assert Ids(s.levels + [Level(id, seedLen, required, [], false, false, 0, 0)]) == Ids(s.levels) + [id];
  }

  lemma UpdateEntry(s: Service, now: Tick, id: bv8)
    ensures var next := Step(s, Event.Update(now)).next;
            && next.active == s.active && next.tick == now
            && (Entry(s, id) == None ==> Entry(next, id) == None)
            && (Entry(s, id).Some? ==> Entry(next, id) == Some(Released(Entry(s, id).value, now)))
  {
    assert Ids(s.levels) == Ids(Step(s, Event.Update(now)).next.levels);
  }

  lemma ReplaceEntry(s: Service, i: nat, l: Level, active: bv8, id: bv8)
    requires i < |s.levels| && i == Find(s.levels, l.id) && l.id == s.levels[i].id
    ensures var next := Service(s.levels[i := l], active, s.tick);
            Entry(next, id) == if id == l.id then Some(l) else Entry(s, id)
  {
    assert Ids(s.levels) == Ids(s.levels[i := l]);
  }

  /** What asking one callback does to the entry of the level it was asked for. */
  ghost predicate Answers(s: Service, o: Outcome) {
    && |o.calls| == 1 && o.next.tick == s.tick
    && var call := o.calls[0];
    && Entry(s, call.level).Some?
    && var l := Entry(s, call.level).value;
    && l.id == call.level && o.next.active == call.level && !Locked(l, s.tick)
    && match call
       case SeedCall(_, seed) =>
         !l.unlocked && Entry(o.next, call.level) == Some(l.(seed := seed, seedSent := true))
       case KeyCall(_, seed, _, valid) =>
         && l.seedSent && s.active == call.level && seed == l.seed
         && Entry(o.next, call.level) == Some(if valid then AfterRightKey(l) else AfterWrongKey(l, s.tick))
  }

  lemma SeedAnswers(s: Service, i: nat, sub: bv8, generated: seq<bv8>, id: bv8)
    requires i < |s.levels| && s.levels[i].id == sub && i == Find(s.levels, sub) && !Locked(s.levels[i], s.tick)
    ensures var o := OnSeed(s, i, sub, generated);
            && (o.calls == [] ==> o.next == s)
            && (o.calls != [] ==> Answers(s, o) && (id != o.calls[0].level ==> Entry(o.next, id) == Entry(s, id)))
  {
    hide Find, Locked;
    var l := s.levels[i].(seed := generated, seedSent := true);
    ReplaceEntry(s, i, l, sub, id);
    ReplaceEntry(s, i, l, sub, sub);
  }

  lemma KeyAnswers(s: Service, i: nat, sub: bv8, key: seq<bv8>, valid: bool, id: bv8)
    requires i < |s.levels| && s.levels[i].id == sub - 1 && i == Find(s.levels, sub - 1) && !Locked(s.levels[i], s.tick)
    ensures var o := OnKey(s, i, sub, key, valid);
            && (o.calls == [] ==> o.next == s)
            && (o.calls != [] ==> Answers(s, o) && (id != o.calls[0].level ==> Entry(o.next, id) == Entry(s, id)))
  {
    hide Find, Locked, AfterRightKey, AfterWrongKey;
    var l := s.levels[i];
    var l' := if valid then AfterRightKey(l) else AfterWrongKey(l, s.tick);
    KeepsId(l, s.tick);
    ReplaceEntry(s, i, l', s.active, id);
    ReplaceEntry(s, i, l', s.active, l.id);
  }

  /** A request that asks no callback changes nothing; a request that asks one asks it for the level
      it names, whose entry alone changes. */
  lemma HandleEntry(s: Service, ev: Event, id: bv8)
    requires ev.Handle?
    ensures var o := Step(s, ev);
            && o.next.tick == s.tick
            && (o.calls == [] ==> o.next == s)
            && (o.calls != [] ==> Answers(s, o) && (id != o.calls[0].level ==> Entry(o.next, id) == Entry(s, id)))
  {
    hide OnSeed, OnKey, Answers, Entry, Locked, SeedSub, IsSeedRequest, Find;
    if |ev.req| >= 2 {
      var sub := ev.req[1];
      SubFunctions(sub);
      var i := Find(s.levels, SeedSub(sub));
      if i < |s.levels| && !Locked(s.levels[i], s.tick) {
        if IsSeedRequest(sub) {
          SeedAnswers(s, i, sub, ev.generated, id);
          SameTick(s, i, sub, ev.generated, [], false);
        } else {
          KeyAnswers(s, i, sub, ev.req[2..], ev.valid, id);
          SameTick(s, i, sub, [], ev.req[2..], ev.valid);
        }
      }
    }
  }

  lemma SubFunctions(sub: bv8)
    ensures SeedSub(sub) == if IsSeedRequest(sub) then sub else sub - 1
  {}

  lemma SameTick(s: Service, i: nat, sub: bv8, generated: seq<bv8>, key: seq<bv8>, valid: bool)
    requires i < |s.levels|
    ensures OnSeed(s, i, sub, generated).next.tick == s.tick && OnKey(s, i, sub, key, valid).next.tick == s.tick
  {}

  lemma KeepsId(l: Level, tick: Tick)
    ensures AfterRightKey(l).id == l.id && AfterWrongKey(l, tick).id == l.id
  {}

  // ---- Provenance ----

  /** The `j`-th callback call is legitimate: a key check directly follows the issue of the seed it
      is checked against, to the same level, and no level is asked again once its key was right. */
  ghost predicate Legitimate(calls: seq<Call>, j: nat)
    requires j < |calls|
  {
    && (calls[j].KeyCall? ==> j > 0 && calls[j - 1] == SeedCall(calls[j].level, calls[j].seed))
    && !Accepted(calls[..j], calls[j].level)
  }

  ghost predicate Accepted(calls: seq<Call>, id: bv8) {
    exists call <- calls :: call.KeyCall? && call.level == id && call.valid
  }

  ghost predicate AllLegitimate(calls: seq<Call>) {
    forall j | 0 <= j < |calls| :: Legitimate(calls, j)
  }

  /** The table reflects the calls: unlocked means that a key was accepted, and the active level's
      pending seed is the one issued last. */
  ghost predicate Reflects(s: Service, calls: seq<Call>, id: bv8) {
    match Entry(s, id)
    case None => forall call <- calls :: call.level != id
    case Some(l) =>
      && (l.unlocked <==> Accepted(calls, id))
      && (l.unlocked ==> !l.seedSent)
      && (l.seedSent && s.active == id ==> calls != [] && calls[|calls| - 1] == SeedCall(id, l.seed))
  }

  lemma AcceptedSnoc(calls: seq<Call>, call: Call, id: bv8)
    ensures Accepted(calls + [call], id) <==>
            Accepted(calls, id) || (call.KeyCall? && call.level == id && call.valid)
  {
    assert call in calls + [call];
    forall c | c in calls ensures c in calls + [call] {}
  }

  lemma LegitimateSnoc(calls: seq<Call>, call: Call)
    requires AllLegitimate(calls)
    requires call.KeyCall? ==> calls != [] && calls[|calls| - 1] == SeedCall(call.level, call.seed)
    requires !Accepted(calls, call.level)
    ensures AllLegitimate(calls + [call])
  {
    hide Accepted;
    var all := calls + [call];
    forall j | 0 <= j < |all| ensures Legitimate(all, j) {
      if j < |calls| {
        assert Legitimate(calls, j);
        assert all[..j] == calls[..j];
      } else {
        assert all[..j] == calls;
      }
    }
  }

  lemma ReflectsStep(s: Service, ev: Event, calls: seq<Call>, id: bv8)
    requires Reflects(s, calls, id) && AllLegitimate(calls)
    requires ev.Handle? && Step(s, ev).calls != [] ==> Reflects(s, calls, Step(s, ev).calls[0].level)
    ensures var o := Step(s, ev);
            Reflects(o.next, calls + o.calls, id) && AllLegitimate(calls + o.calls)
  {
    hide Step, Find, Legitimate, AllLegitimate;
    var o := Step(s, ev);
    match ev
    case Register(level, seedLen, required) =>
      RegisterEntry(s, level, seedLen, required, id);
      NoCalls(s, ev);
      assert calls + [] == calls;
    case Update(now) =>
      UpdateEntry(s, now, id);
      NoCalls(s, ev);
      assert calls + [] == calls;
    case Handle(_, _, _, _) =>
      HandleEntry(s, ev, id);
      if o.calls == [] {
        assert calls + [] == calls;
      } else {
        var call := o.calls[0];
        assert o.calls == [call];
        AcceptedSnoc(calls, call, id);
        AcceptedSnoc(calls, call, call.level);
        HandleEntry(s, ev, call.level);
        LegitimateSnoc(calls, call);
      }
  }

  lemma NoCalls(s: Service, ev: Event)
    requires !ev.Handle?
    ensures Step(s, ev).calls == []
  {}

  /** In every run, a level is unlocked exactly if one of its keys was accepted, and every key was
      checked against the seed issued directly before, for the same level: no seed is checked twice,
      none is checked after another level asked for one, and an unlocked level is never asked again. */
  lemma {:induction false} UnlockProvenance(evs: seq<Event>, id: bv8)
    ensures AllLegitimate(Calls(evs))
    ensures IsUnlocked(Run(evs), id) <==> Accepted(Calls(evs), id)
    ensures Reflects(Run(evs), Calls(evs), id)
  {
    hide Step, Find, Legitimate;
    if evs != [] {
      var before, ev := evs[..|evs| - 1], evs[|evs| - 1];
      var o := Step(Run(before), ev);
      UnlockProvenance(before, id);
      if ev.Handle? && o.calls != [] {
        UnlockProvenance(before, o.calls[0].level);
      }
      ReflectsStep(Run(before), ev, Calls(before), id);
    }
  }

  // ---- Rate ----

  /** Wrong keys tried for a level. */
  function Fails(calls: seq<Call>, id: bv8): nat {
    if calls == [] then 0
    else
      var call := calls[|calls| - 1];
      Fails(calls[..|calls| - 1], id) + if call.KeyCall? && call.level == id && !call.valid then 1 else 0
  }

  lemma FailsSnoc(calls: seq<Call>, call: Call, id: bv8)
    ensures Fails(calls + [call], id) ==
            Fails(calls, id) + if call.KeyCall? && call.level == id && !call.valid then 1 else 0
  {
    assert (calls + [call])[..|calls|] == calls;
  }

  /** The clock never goes back. */
  ghost predicate Ticking(evs: seq<Event>) {
    evs != [] ==>
      var before, ev := evs[..|evs| - 1], evs[|evs| - 1];
      Ticking(before) && (ev.Update? ==> Run(before).tick <= ev.now)
  }

  /** After `f` wrong keys, f / 3 delays have been served, or all but the one being served. */
  predicate OnSchedule(l: Level, f: nat, tick: Tick) {
    && (l.unlocked ==> l.lockedUntil == 0 && !l.seedSent)
    && (l.lockedUntil != 0 ==>
          && l.fails == 3 && f % 3 == 0 && tick < l.lockedUntil <= tick + DELAY
          && DELAY * (f / 3) <= l.lockedUntil)
    && (l.lockedUntil == 0 ==>
          l.fails < 3 && DELAY * (f / 3) <= tick && (!l.unlocked ==> l.fails == f % 3))
  }

  ghost predicate RateInvariant(s: Service, calls: seq<Call>, id: bv8) {
    && s.tick + DELAY < U32
    && match Entry(s, id)
       case None => Fails(calls, id) == 0
       case Some(l) => OnSchedule(l, Fails(calls, id), s.tick)
  }

  lemma OnScheduleWrongKey(l: Level, f: nat, tick: Tick)
    requires OnSchedule(l, f, tick) && l.seedSent && !Locked(l, tick) && tick + DELAY < U32
    ensures OnSchedule(AfterWrongKey(l, tick), f + 1, tick)
  {
    hide Wrap32;
    NoWrap(tick + DELAY);
    Thirds(f);
  }

  lemma Thirds(f: nat)
    ensures (f + 1) / 3 == (if f % 3 == 2 then f / 3 + 1 else f / 3)
    ensures (f + 1) % 3 == if f % 3 == 2 then 0 else f % 3 + 1
  {}

  lemma OnScheduleRightKey(l: Level, f: nat, tick: Tick)
    requires OnSchedule(l, f, tick) && l.seedSent && !Locked(l, tick)
    ensures OnSchedule(AfterRightKey(l), f, tick)
  {}

  lemma OnScheduleUpdate(l: Level, f: nat, tick: Tick, now: Tick)
    requires OnSchedule(l, f, tick) && tick <= now
    ensures OnSchedule(Released(l, now), f, now)
  {}

  lemma RateStep(s: Service, ev: Event, calls: seq<Call>, id: bv8)
    requires RateInvariant(s, calls, id)
    requires ev.Update? ==> s.tick <= ev.now && ev.now + DELAY < U32
    ensures var o := Step(s, ev); RateInvariant(o.next, calls + o.calls, id)
  {
    hide Step, Find, Locked, Fails, AfterRightKey, AfterWrongKey, OnSchedule, Released, Entry;
    var o := Step(s, ev);
    if !ev.Handle? {
      NoCalls(s, ev);
      assert calls + [] == calls;
    }
    match ev
    case Register(level, seedLen, required) =>
      RegisterEntry(s, level, seedLen, required, id);
      OnScheduleNew(id, seedLen, required, s.tick);
    case Update(now) =>
      UpdateEntry(s, now, id);
      if Entry(s, id).Some? {
        OnScheduleUpdate(Entry(s, id).value, Fails(calls, id), s.tick, now);
      }
    case Handle(_, _, _, _) =>
      HandleEntry(s, ev, id);
      if o.calls == [] {
        assert calls + [] == calls;
      } else {
        assert o.calls == [o.calls[0]];
        FailsSnoc(calls, o.calls[0], id);
        if o.calls[0].level == id {
          RateCall(s, o, Fails(calls, id), id);
        }
      }
  }

  lemma RateCall(s: Service, o: Outcome, f: nat, id: bv8)
    requires Answers(s, o) && o.calls[0].level == id && s.tick + DELAY < U32
    requires OnSchedule(Entry(s, id).value, f, s.tick)
    ensures Entry(o.next, id).Some?
    ensures OnSchedule(Entry(o.next, id).value,
                       f + if o.calls[0].KeyCall? && !o.calls[0].valid then 1 else 0, s.tick)
  {
    hide Locked, AfterRightKey, AfterWrongKey, OnSchedule, Entry;
    var l := Entry(s, id).value;
    match o.calls[0]
    case SeedCall(_, seed) => OnScheduleSeed(l, seed, f, s.tick);
    case KeyCall(_, _, _, _) =>
      OnScheduleWrongKey(l, f, s.tick);
      OnScheduleRightKey(l, f, s.tick);
  }

  lemma OnScheduleNew(id: bv8, seedLen: nat, required: SessionType, tick: Tick)
    ensures OnSchedule(Level(id, seedLen, required, [], false, false, 0, 0), 0, tick)
  {}

  lemma OnScheduleSeed(l: Level, seed: seq<bv8>, f: nat, tick: Tick)
    requires OnSchedule(l, f, tick) && !l.unlocked
    ensures OnSchedule(l.(seed := seed, seedSent := true), f, tick)
  {
    hide Wrap32;
  }

  lemma {:induction false} RunIsOnSchedule(evs: seq<Event>, id: bv8)
    requires Ticking(evs) && Run(evs).tick + DELAY < U32
    ensures RateInvariant(Run(evs), Calls(evs), id)
  {
    hide Step, RateInvariant;
    if evs == [] {
      EmptyOnSchedule(id);
    } else {
      var before, ev := evs[..|evs| - 1], evs[|evs| - 1];
      TickStep(Run(before), ev, id);
      RunIsOnSchedule(before, id);
      RateStep(Run(before), ev, Calls(before), id);
    }
  }

  /** Only an update moves the clock. */
  lemma TickStep(s: Service, ev: Event, id: bv8)
    ensures Step(s, ev).next.tick == if ev.Update? then ev.now else s.tick
  {
    hide Step;
    match ev
    case Register(level, seedLen, required) => RegisterEntry(s, level, seedLen, required, id);
    case Update(now) => UpdateEntry(s, now, id);
    case Handle(_, _, _, _) => HandleEntry(s, ev, id);
  }

  lemma EmptyOnSchedule(id: bv8)
    ensures RateInvariant(EMPTY, [], id)
  {}

  /** In every run whose clock does not go back, at most three wrong keys per started delay period have
      been tried for a level by tick t: 3 * (1 + t / 10000). A level under delay has used them all. The
      bound needs that the end of a delay set at t does not wrap; `RateBoundIff` says why. */
  lemma RateBound(evs: seq<Event>, id: bv8)
    requires Ticking(evs) && Run(evs).tick + DELAY < U32
    ensures var s, f := Run(evs), Fails(Calls(evs), id);
            && f <= 3 * (1 + s.tick / 10000)
            && (Entry(s, id).Some? && Locked(Entry(s, id).value, s.tick) ==> f % 3 == 0)
            && (Entry(s, id).Some? && !Locked(Entry(s, id).value, s.tick) ==> f <= 2 + 3 * (s.tick / 10000))
  {
    hide Run, Calls, Fails, Entry, OnSchedule, Locked, Ticking;
    RunIsOnSchedule(evs, id);
    if Entry(Run(evs), id).Some? {
      ScheduleBounds(Entry(Run(evs), id).value, Fails(Calls(evs), id), Run(evs).tick);
    }
  }

  lemma ScheduleBounds(l: Level, f: nat, tick: Tick)
    requires OnSchedule(l, f, tick)
    ensures f <= 3 * (1 + tick / 10000)
    ensures Locked(l, tick) ==> f % 3 == 0
    ensures !Locked(l, tick) ==> f <= 2 + 3 * (tick / 10000)
  {
    var q, t := f / 3, tick / 10000;
    assert f <= 3 * q + 2 && tick < 10000 * t + 10000;
  }

  /** One attempt at level 1: ask for a seed, answer with a wrong key. */
  const ATTEMPT: seq<Event> := [Handle([0x27, 1], Session.Default, [0], false),
                                Handle([0x27, 2, 0], Session.Default, [], false)]

  /** Three attempts at once, again as soon as each delay is over. */
  function Persistent(m: nat): seq<Event>
    requires DELAY * m + DELAY < U32
  {
    (if m == 0 then [Register(1, 1, Session.Default)] else Persistent(m - 1) + [Event.Update(DELAY * m)])
    + ATTEMPT + ATTEMPT + ATTEMPT
  }

  function Single(seed: seq<bv8>, fails: nat, lockedUntil: Tick, active: bv8, tick: Tick): Service {
    Service([Level(1, 1, Session.Default, seed, false, false, fails, lockedUntil)], active, tick)
  }

  lemma RunSnoc(evs: seq<Event>, ev: Event)
    ensures Run(evs + [ev]) == Step(Run(evs), ev).next
    ensures Calls(evs + [ev]) == Calls(evs) + Step(Run(evs), ev).calls
    ensures Ticking(evs + [ev]) <==>
            Ticking(evs) && (ev.Update? ==> Run(evs).tick <= ev.now)
  {
    hide Step;
    assert (evs + [ev])[..|evs|] == evs;
  }

  lemma AttemptFails(evs: seq<Event>, seed: seq<bv8>, fails: nat, active: bv8, tick: Tick)
    requires Ticking(evs) && Run(evs) == Single(seed, fails, 0, active, tick) && fails < 3 && tick + DELAY < U32
    ensures var after := evs + ATTEMPT;
            && Ticking(after)
            && Run(after) == Single([0], fails + 1, if fails == 2 then tick + DELAY else 0, 1, tick)
            && Fails(Calls(after), 1) == Fails(Calls(evs), 1) + 1
  {
    var mid := evs + [ATTEMPT[0]];
    assert evs + ATTEMPT == mid + [ATTEMPT[1]];
    RunSnoc(evs, ATTEMPT[0]);
    RunSnoc(mid, ATTEMPT[1]);
    AttemptSteps(seed, fails, active, tick);
    FailsSnoc(Calls(evs), SeedCall(1, [0]), 1);
    FailsSnoc(Calls(mid), KeyCall(1, [0], [0], false), 1);
    hide Step, Run, Calls, Fails, Ticking;
  }

  lemma AttemptSteps(seed: seq<bv8>, fails: nat, active: bv8, tick: Tick)
    requires fails < 3 && tick + DELAY < U32
    ensures var first := Step(Single(seed, fails, 0, active, tick), ATTEMPT[0]);
            var second := Step(first.next, ATTEMPT[1]);
            && first.calls == [SeedCall(1, [0])] && second.calls == [KeyCall(1, [0], [0], false)]
            && second.next == Single([0], fails + 1, if fails == 2 then tick + DELAY else 0, 1, tick)
  {
  }

  /** The bound is attained: for every number of delay periods there is a run that uses it up. */
  lemma RateBoundAttained(m: nat)
    requires DELAY * m + DELAY < U32
    ensures var evs := Persistent(m);
            && Ticking(evs) && Run(evs).tick == DELAY * m
            && Fails(Calls(evs), 1) == 3 * (1 + Run(evs).tick / 10000)
  {
    hide Run, Calls, Fails, Ticking, Persistent;
    PersistentState(m);
  }

  lemma {:induction false} PersistentState(m: nat)
    requires DELAY * m + DELAY < U32
    ensures var evs := Persistent(m);
            && Ticking(evs) && Run(evs) == Single([0], 3, DELAY * m + DELAY, 1, DELAY * m)
            && Fails(Calls(evs), 1) == 3 * (1 + m)
  {
    hide Step, Run, Calls, Fails, Ticking;
    var start, seed, active;
    if m == 0 {
      FirstRegistration();
      start, seed, active := [Register(1, 1, Session.Default)], [], 0;
    } else {
      PersistentState(m - 1);
      start, seed, active := Persistent(m - 1) + [Event.Update(DELAY * m)], [0], 1;
      RunSnoc(Persistent(m - 1), Event.Update(DELAY * m));
      DelayOver(m);
      assert Calls(Persistent(m - 1)) + [] == Calls(Persistent(m - 1));
    }
    AttemptFails(start, seed, 0, active, DELAY * m);
    AttemptFails(start + ATTEMPT, [0], 1, 1, DELAY * m);
    AttemptFails(start + ATTEMPT + ATTEMPT, [0], 2, 1, DELAY * m);
  }

  lemma FirstRegistration()
    ensures var evs := [Register(1, 1, Session.Default)];
            Ticking(evs) && Run(evs) == Single([], 0, 0, 0, 0) && Calls(evs) == [] && Fails(Calls(evs), 1) == 0
  {
    var evs := [Register(1, 1, Session.Default)];
    assert evs[..0] == [];
  }

  lemma DelayOver(m: nat)
    requires 0 < m && DELAY * m + DELAY < U32
    ensures var o := Step(Single([0], 3, DELAY * m, 1, DELAY * (m - 1)), Event.Update(DELAY * m));
            o.next == Single([0], 0, 0, 1, DELAY * m) && o.calls == []
  {
  }

  /** A level is registered at once and tried `n` times at tick `t`. */
  function Hammered(t: Tick, n: nat): seq<Event> {
    if n == 0 then [Register(1, 1, Session.Default), Event.Update(t)] else Hammered(t, n - 1) + ATTEMPT
  }

  /** Level 1 can be tried at tick `t`: it is neither unlocked nor effectively locked, because the end of
      its delay, if it has one, has wrapped to a tick that is past. */
  predicate Open(s: Service, t: Tick) {
    && |s.levels| == 1 && s.tick == t
    && var l := s.levels[0];
       l.id == 1 && l.seedLen == 1 && l.required == Session.Default && !l.unlocked && l.lockedUntil <= t
  }

  lemma OpenNotLocked(s: Service, t: Tick)
    requires Open(s, t)
    ensures Find(s.levels, 1) == 0 && !Locked(s.levels[0], s.tick)
  {
    assert s.levels[0].id == 1;
  }

  lemma OpenSeed(s: Service, t: Tick)
    requires Open(s, t)
    ensures var o := Step(s, ATTEMPT[0]);
            && o.calls == [SeedCall(1, [0])] && Open(o.next, t)
            && o.next.active == 1 && o.next.levels[0].seedSent && o.next.levels[0].seed == [0]
  {
    OpenNotLocked(s, t);
    hide Find;
  }

  lemma OpenKey(s: Service, t: Tick)
    requires Open(s, t) && t + DELAY >= U32
    requires s.active == 1 && s.levels[0].seedSent && s.levels[0].seed == [0]
    ensures var o := Step(s, ATTEMPT[1]);
            o.calls == [KeyCall(1, [0], [0], false)] && Open(o.next, t)
  {
    OpenNotLocked(s, t);
    assert Wrap32(t + DELAY) <= t;
    hide Find, Wrap32;
  }

  /** In the last ten seconds before the tick count wraps, the delay ends before it begins: any number of
      wrong keys can be tried at once, and the level is never locked. */
  lemma {:induction false} NoLockBeforeWrap(t: Tick, n: nat)
    requires t + DELAY >= U32
    ensures var evs := Hammered(t, n);
            && Ticking(evs) && Open(Run(evs), t) && !Locked(Run(evs).levels[0], t)
            && Fails(Calls(evs), 1) == n
  {
    hide Step, Run, Calls, Fails, Ticking, Open;
    if n == 0 {
      HammerStart(t);
    } else {
      NoLockBeforeWrap(t, n - 1);
      var evs := Hammered(t, n - 1);
      var mid := evs + [ATTEMPT[0]];
      assert Hammered(t, n) == mid + [ATTEMPT[1]];
      RunSnoc(evs, ATTEMPT[0]);
      OpenSeed(Run(evs), t);
      RunSnoc(mid, ATTEMPT[1]);
      OpenKey(Run(mid), t);
      FailsSnoc(Calls(evs), SeedCall(1, [0]), 1);
      FailsSnoc(Calls(mid), KeyCall(1, [0], [0], false), 1);
    }
    OpenIsUnlocked(Run(Hammered(t, n)), t);
  }

  lemma OpenIsUnlocked(s: Service, t: Tick)
    requires Open(s, t)
    ensures |s.levels| == 1 && !Locked(s.levels[0], t)
  {}

  lemma HammerStart(t: Tick)
    ensures var evs := Hammered(t, 0);
            Ticking(evs) && Open(Run(evs), t) && Calls(evs) == [] && Fails(Calls(evs), 1) == 0
  {
    FirstRegistration();
    var first := [Register(1, 1, Session.Default)];
    assert Hammered(t, 0) == first + [Event.Update(t)];
    RunSnoc(first, Event.Update(t));
    hide Run, Calls, Ticking;
    assert Step(Single([], 0, 0, 0, 0), Event.Update(t)).calls == [];
  }

  /** Every run that ends at tick `t`, with a clock that does not go back, keeps the bound. */
  ghost predicate BoundHoldsAt(t: Tick) {
    forall evs: seq<Event>, id: bv8 {:trigger Fails(Calls(evs), id)} | Ticking(evs) && Run(evs).tick == t ::
      Fails(Calls(evs), id) <= 3 * (1 + t / 10000)
  }

  /** The bound holds exactly up to ten seconds before the tick count wraps. */
  lemma RateBoundIff(t: Tick)
    ensures BoundHoldsAt(t) <==> t + DELAY < U32
  {
    hide Run, Calls, Fails, Ticking;
    if t + DELAY < U32 {
      forall evs: seq<Event>, id: bv8 | Ticking(evs) && Run(evs).tick == t
        ensures Fails(Calls(evs), id) <= 3 * (1 + t / 10000)
      {
        RateBound(evs, id);
      }
    } else {
      var evs := Hammered(t, 3 * (1 + t / 10000) + 1);
      NoLockBeforeWrap(t, 3 * (1 + t / 10000) + 1);
      assert Fails(Calls(evs), 1) > 3 * (1 + t / 10000);
    }
  }

  // ---- Seeds ----

  /** With the XOR algorithm's four-byte seeds, drawn from a generator in any non-zero state, the
      reply to a seed request is all zeros exactly when the level is already unlocked. */
  lemma ZeroSeedMeansUnlocked(s: Service, sub: bv8, session: SessionType, state: bv32, valid: bool)
    requires state != 0 && IsSeedRequest(sub) && Entry(s, sub).Some? && Entry(s, sub).value.seedLen == 4
    requires !Locked(Entry(s, sub).value, s.tick) && Entry(s, sub).value.required == session
    ensures var o := Step(s, Handle([0x27, sub], session, SeedKey.BigEndian(SeedKey.NextSeed(state)), valid));
            o.response == [0x67, sub] + Zeros(4) <==> IsUnlocked(s, sub)
  {
    hide SeedKey.NextSeed, SeedKey.BigEndian;
    var seed := SeedKey.BigEndian(SeedKey.NextSeed(state));
    SeedKey.SeedBytesNonZero(state);
    assert ([0x67, sub] + seed)[2..] == seed && ([0x67, sub] + Zeros(4))[2..] == Zeros(4);
    assert Zeros(4) == [0, 0, 0, 0];
  }
}
