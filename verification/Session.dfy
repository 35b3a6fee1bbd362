/** The diagnostic session and its S3 timer. */
module Session {
  import opened Words

  datatype SessionType = Default | Programming | Extended

  datatype State = State(session: SessionType, deadline: Tick, timedOut: bool)

  const FRESH := State(Default, 0, false)

  /** One call on the session object. */
  datatype Event =
    | Transition(target: SessionType)
    | Reset
    | Update(now: Tick)
    | KeepAlive(now: Tick)

  predicate TimesOut(s: State, now: Tick) { s.session != Default && 0 < s.deadline <= now }

  function Step(s3: nat, s: State, ev: Event): State {
    match ev
    case Transition(target) =>
      if target == Default then FRESH
      else if target == Programming && s.session != Default then s
      else s.(session := target, timedOut := false)
    case Reset => FRESH
    case Update(now) =>
      if s.session == Default then FRESH
      else if TimesOut(s, now) then State(Default, 0, true)
      else s
    case KeepAlive(now) =>
      var alive := s.(timedOut := false);
      if s.session == Default then alive else alive.(deadline := Wrap32(now + s3))
  }

  function Run(s3: nat, s: State, evs: seq<Event>): State {
    if evs == [] then s else Step(s3, Run(s3, s, evs[..|evs| - 1]), evs[|evs| - 1])
  }

  class UdsSession {
    const s3Ms: nat
    var session: SessionType
    var s3Deadline: Tick
    var timedOut: bool

    ghost function View(): State
      reads this
    {
      State(session, s3Deadline, timedOut)
    }

    constructor (s3: nat)
      ensures View() == FRESH && s3Ms == s3
    {
      s3Ms, session, s3Deadline, timedOut := s3, Default, 0, false;
    }

    method DoTransition(target: SessionType) returns (ok: bool)
      modifies this
      ensures View() == Step(s3Ms, old(View()), Transition(target))
      ensures ok <==> target != Programming || old(session) == Default
    {
      if target == Default {
        DoReset();
        return true;
      }
      if target == Programming && session != Default {
        return false;
      }
      session, timedOut := target, false;
      ok := true;
    }

    method DoReset()
      modifies this
      ensures View() == FRESH
    {
      session, timedOut, s3Deadline := Default, false, 0;
    }

    /** `notified` tells whether the timeout callback is invoked. */
    method DoUpdate(now: Tick) returns (notified: bool)
      modifies this
      ensures View() == Step(s3Ms, old(View()), Update(now))
      ensures notified <==> TimesOut(old(View()), now)
    {
      notified := false;
      if session == Default {
        s3Deadline, timedOut := 0, false;
        return;
      }
      if s3Deadline != 0 && now >= s3Deadline {
        timedOut, session, s3Deadline, notified := true, Default, 0, true;
      }
    }

    method DoKeepAlive(now: Tick)
      modifies this
      ensures View() == Step(s3Ms, old(View()), KeepAlive(now))
    {
      timedOut := false;
      if session != Default {
        s3Deadline := Wrap32(now + s3Ms);
      }
    }
  }

  lemma RunSnoc(s3: nat, s: State, evs: seq<Event>, ev: Event)
    ensures Run(s3, s, evs + [ev]) == Step(s3, Run(s3, s, evs), ev)
  {
    assert (evs + [ev])[..|evs|] == evs;
  }

  /** In every run the default session has no deadline, a timeout is only reported in the default
      session, and the programming session is entered from the default session alone. */
  lemma {:induction false} RunInvariant(s3: nat, evs: seq<Event>)
    ensures var s := Run(s3, FRESH, evs);
            && (s.session == Default ==> s.deadline == 0)
            && (s.timedOut ==> s.session == Default)
            && (evs != [] && s.session == Programming ==>
                  Run(s3, FRESH, evs[..|evs| - 1]).session in {Default, Programming})
  {
    if evs != [] {
      RunInvariant(s3, evs[..|evs| - 1]);
    }
  }

  /** The deadline was set by the keep-alive at position `k`, in an open session that has stayed open
      since, and no keep-alive came after it. */
  predicate SetAt(s3: nat, evs: seq<Event>, k: nat, deadline: Tick) {
    && k < |evs| && evs[k].KeepAlive? && deadline == Wrap32(evs[k].now + s3)
    && Run(s3, FRESH, evs[..k]).session != Default
    && forall j | k < j < |evs| :: !evs[j].KeepAlive? && Run(s3, FRESH, evs[..j + 1]).session != Default
  }

  /** In every run a running timer was set by the latest keep-alive of the open session. */
  lemma {:induction false} DeadlineIsLatestKeepAlive(s3: nat, evs: seq<Event>)
    requires Run(s3, FRESH, evs).deadline != 0
    ensures exists k: nat :: SetAt(s3, evs, k, Run(s3, FRESH, evs).deadline)
  {
    hide Wrap32;
    var before, ev := evs[..|evs| - 1], evs[|evs| - 1];
    var deadline := Run(s3, FRESH, evs).deadline;
    RunInvariant(s3, evs);
    assert evs == before + [ev];
    if ev.KeepAlive? && Run(s3, FRESH, before).session != Default {
      assert SetAt(s3, evs, |before|, deadline);
    } else {
      DeadlineIsLatestKeepAlive(s3, before);
      var k: nat :| SetAt(s3, before, k, deadline);
      StillSet(s3, before, ev, k, deadline);
      assert SetAt(s3, evs, k, deadline);
    }
  }

  lemma StillSet(s3: nat, before: seq<Event>, ev: Event, k: nat, deadline: Tick)
    requires SetAt(s3, before, k, deadline) && !ev.KeepAlive?
    requires Run(s3, FRESH, before + [ev]).session != Default
    ensures SetAt(s3, before + [ev], k, deadline)
  {
    hide Run, Wrap32;
    var evs := before + [ev];
    forall j | k < j < |evs| ensures !evs[j].KeepAlive? && Run(s3, FRESH, evs[..j + 1]).session != Default {
      if j < |before| {
        assert before[j] == evs[j] && before[..j + 1] == evs[..j + 1];
      } else {
        assert evs[..j + 1] == evs;
      }
    }
    assert before[..k] == evs[..k];
  }

  /** The event keeps a session with this deadline open and does not touch the timer. */
  predicate Harmless(ev: Event, deadline: Tick) {
    match ev
    case Transition(target) => target != Default
    case Update(now) => !(0 < deadline <= now)
    case _ => false
  }

  predicate AllHarmless(evs: seq<Event>, deadline: Tick) { forall ev <- evs :: Harmless(ev, deadline) }

  /** The session is open with this deadline. */
  predicate OpenUntil(s: State, deadline: Tick) {
    s.session != Default && s.deadline == deadline && !s.timedOut
  }

  lemma {:induction false} StaysOpen(s3: nat, s: State, deadline: Tick, mid: seq<Event>)
    requires OpenUntil(s, deadline) && AllHarmless(mid, deadline)
    ensures OpenUntil(Run(s3, s, mid), deadline)
  {
    hide Wrap32;
    if mid != [] {
      StaysOpen(s3, s, deadline, mid[..|mid| - 1]);
      assert Harmless(mid[|mid| - 1], deadline);
    }
  }

  lemma {:induction false} RunAppend(s3: nat, s: State, a: seq<Event>, b: seq<Event>)
    ensures Run(s3, s, a + b) == Run(s3, Run(s3, s, a), b)
    decreases |b|
  {
    hide Step;
    if b == [] {
      assert a + b == a;
    } else {
      RunAppend(s3, s, a, b[..|b| - 1]);
      assert (a + b)[..|a + b| - 1] == a + b[..|b| - 1];
    }
  }

  /** The run of `S3Exact`, in ticks. */
  lemma S3Run(s3: nat, s: State, alive: Tick, mid: seq<Event>, now: Tick)
    requires s.session != Default && AllHarmless(mid, Wrap32(alive + s3))
    ensures var deadline := Wrap32(alive + s3);
            var before := Run(s3, s, [KeepAlive(alive)] + mid);
            var after := Run(s3, s, [KeepAlive(alive)] + mid + [Update(now)]);
            && OpenUntil(before, deadline)
            && after == if 0 < deadline <= now then State(Default, 0, true) else before
  {
    hide Wrap32, AllHarmless, Run;
    var ev := KeepAlive(alive);
    StaysOpen(s3, Step(s3, s, ev), Wrap32(alive + s3), mid);
    RunOne(s3, s, ev);
    RunAppend(s3, s, [ev], mid);
    RunSnoc(s3, s, [ev] + mid, Update(now));
  }

  lemma RunOne(s3: nat, s: State, ev: Event)
    ensures Run(s3, s, [ev]) == Step(s3, s, ev)
  {
    hide Step;
    assert [] + [ev] == [ev];
    RunSnoc(s3, s, [], ev);
  }

  /** S3 is exact: kept alive at the true time `t`, a session that is neither left nor kept alive again
      stays open through every update that does not find the deadline reached, and ends, reporting a
      timeout, at the first one that does. The update at the true time `now` is right, ending the session
      exactly if t + s3 has come, under the condition of `DueIff`; in particular while nothing wraps. */
  lemma S3Exact(s3: nat, s: State, t: nat, mid: seq<Event>, now: nat)
    requires s.session != Default && s3 < U32 && t <= now < t + U32
    requires AllHarmless(mid, Wrap32(t + s3))
    ensures var deadline := Wrap32(t + s3);
            var before := Run(s3, s, [KeepAlive(Wrap32(t))] + mid);
            var after := Run(s3, s, [KeepAlive(Wrap32(t))] + mid + [Update(Wrap32(now))]);
            && OpenUntil(before, deadline)
            && (after.session == Default <==> 0 < deadline <= Wrap32(now))
            && (after == if after.session == Default then State(Default, 0, true) else before)
            && ((after.session == Default <==> now >= t + s3)
                <==> if deadline == 0 then now < t + s3 else SameWrap(t + s3, now))
            && (0 < t + s3 < U32 && now < U32 ==> (after.session == Default <==> now >= t + s3))
  {
    hide Wrap32, Run, AllHarmless, SameWrap;
    WrapSum(t, s3);
    DueIff(s3, t, now);
    NoWrap(now);
    NoWrap(t + s3);
    S3Run(s3, s, Wrap32(t), mid, Wrap32(now));
  }

  /** A deadline that wraps to 0 never comes: the session outlasts every update until it is kept alive
      again or left. */
  lemma ZeroDeadlineNeverComes(s3: nat, s: State, t: nat, mid: seq<Event>)
    requires s.session != Default && Wrap32(t + s3) == 0
    requires forall ev <- mid :: ev.Update? || (ev.Transition? && ev.target != Default)
    ensures OpenUntil(Run(s3, s, [KeepAlive(Wrap32(t))] + mid), 0)
  {
    hide Wrap32, Run;
    WrapSum(t, s3);
    var alive := KeepAlive(Wrap32(t));
    StaysOpen(s3, Step(s3, s, alive), 0, mid);
    RunOne(s3, s, alive);
    RunAppend(s3, s, [alive], mid);
  }

  /** Entering a session does not start the timer: until something keeps it alive, a session
      entered from the default session outlasts every update. */
  lemma {:induction false} UnarmedNeverExpires(s3: nat, target: SessionType, evs: seq<Event>)
    requires target != Default
    requires forall ev <- evs :: ev.Update? || (ev.Transition? && ev.target != Default)
    ensures var s := Run(s3, FRESH, [Transition(target)] + evs);
            s.session != Default && s.deadline == 0 && !s.timedOut
    decreases |evs|
  {
    hide Wrap32, Run;
    if evs == [] {
      assert [Transition(target)] + evs == [Transition(target)];
      RunOne(s3, FRESH, Transition(target));
    } else {
      var init, ev := evs[..|evs| - 1], evs[|evs| - 1];
      UnarmedNeverExpires(s3, target, init);
      assert [Transition(target)] + evs == ([Transition(target)] + init) + [ev];
      RunSnoc(s3, FRESH, [Transition(target)] + init, ev);
    }
  }

  /** The session was entered by the transition at position `k`, which was granted, and since then it was
      neither reset nor timed out, and no other transition was granted. */
  predicate EnteredAt(s3: nat, evs: seq<Event>, k: nat, target: SessionType) {
    && k < |evs| && evs[k] == Transition(target)
    && (target == Programming ==> Run(s3, FRESH, evs[..k]).session == Default)
    && forall j | k < j < |evs| :: Keeps(Run(s3, FRESH, evs[..j]), evs[j])
  }

  /** In an open session the event is neither a reset, nor a timeout, nor a transition that is granted:
      only the transition to programming is not. */
  predicate Keeps(s: State, ev: Event) {
    match ev
    case Transition(target) => target == Programming
    case Reset => false
    case Update(now) => !(0 < s.deadline <= now)
    case KeepAlive(_) => true
  }

  lemma KeepsStep(s3: nat, s: State, ev: Event)
    requires s.session != Default
    ensures var s' := Step(s3, s, ev);
            if Keeps(s, ev) then s'.session == s.session
            else s'.session == if ev.Transition? then ev.target else Default
  {
    hide Wrap32;
  }

  lemma EnteredSnoc(s3: nat, before: seq<Event>, ev: Event, k: nat, target: SessionType)
    requires k < |before|
    ensures EnteredAt(s3, before + [ev], k, target) <==>
            EnteredAt(s3, before, k, target) && Keeps(Run(s3, FRESH, before), ev)
  {
    hide Run, Keeps;
    var evs := before + [ev];
    assert evs[..k] == before[..k] && evs[..|before|] == before;
    assert forall j | k < j < |before| :: evs[..j] == before[..j] && evs[j] == before[j];
    if EnteredAt(s3, evs, k, target) {
      forall j | k < j < |before| ensures Keeps(Run(s3, FRESH, before[..j]), before[j]) {
        assert Keeps(Run(s3, FRESH, evs[..j]), evs[j]);
      }
      assert Keeps(Run(s3, FRESH, evs[..|before|]), evs[|before|]);
    }
  }

  lemma EnteredNow(s3: nat, before: seq<Event>, ev: Event, target: SessionType)
    ensures EnteredAt(s3, before + [ev], |before|, target) <==>
            ev == Transition(target) && (target == Programming ==> Run(s3, FRESH, before).session == Default)
  {
    hide Run;
    assert (before + [ev])[..|before|] == before;
  }

  lemma {:induction false} EnteredIsCurrent(s3: nat, evs: seq<Event>, k: nat, target: SessionType)
    requires EnteredAt(s3, evs, k, target) && target != Default
    ensures Run(s3, FRESH, evs).session == target
  {
    hide Step, Run, EnteredAt, Keeps;
    EnteredBounds(s3, evs, k, target);
    var before, ev := evs[..|evs| - 1], evs[|evs| - 1];
    assert evs == before + [ev];
    RunSnoc(s3, FRESH, before, ev);
    if k < |before| {
      EnteredSnoc(s3, before, ev, k, target);
      EnteredIsCurrent(s3, before, k, target);
      KeepsStep(s3, Run(s3, FRESH, before), ev);
    } else {
      EnteredNow(s3, before, ev, target);
      Granted(s3, Run(s3, FRESH, before), target);
    }
  }

  lemma EnteredBounds(s3: nat, evs: seq<Event>, k: nat, target: SessionType)
    requires EnteredAt(s3, evs, k, target)
    ensures k < |evs|
  {}

  lemma Granted(s3: nat, s: State, target: SessionType)
    requires target == Programming ==> s.session == Default
    ensures Step(s3, s, Transition(target)).session == target
  {}

  /** Only a transition opens a session. */
  lemma StaysDefault(s3: nat, s: State, ev: Event)
    requires s.session == Default
    ensures Step(s3, s, ev).session == if ev.Transition? then ev.target else Default
  {}

  lemma {:induction false} CurrentIsEntered(s3: nat, evs: seq<Event>) returns (k: nat)
    requires Run(s3, FRESH, evs).session != Default
    ensures EnteredAt(s3, evs, k, Run(s3, FRESH, evs).session)
  {
    hide Step, EnteredAt, Keeps;
    var before, ev := evs[..|evs| - 1], evs[|evs| - 1];
    var s := Run(s3, FRESH, before);
    assert evs == before + [ev];
    k := |before|;
    EnteredNow(s3, before, ev, Run(s3, FRESH, evs).session);
    if s.session == Default {
      StaysDefault(s3, s, ev);
    } else {
      KeepsStep(s3, s, ev);
      if Keeps(s, ev) {
        k := CurrentIsEntered(s3, before);
        EnteredBounds(s3, before, k, s.session);
        EnteredSnoc(s3, before, ev, k, s.session);
      } else {
        OnlyProgrammingRefused(s, ev);
      }
    }
  }

  lemma OnlyProgrammingRefused(s: State, ev: Event)
    requires ev.Transition? && !Keeps(s, ev)
    ensures ev.target != Programming
  {}

  /** In every run the current session, if it is not the default one, is the target of the latest transition
      that was granted since the last reset or timeout; the programming session is granted from the default
      session alone, and every other one always. */
  lemma CurrentIffEntered(s3: nat, evs: seq<Event>, target: SessionType)
    requires target != Default
    ensures Run(s3, FRESH, evs).session == target <==> exists k: nat :: EnteredAt(s3, evs, k, target)
  {
    hide Run, EnteredAt;
    if Run(s3, FRESH, evs).session == target {
      var k := CurrentIsEntered(s3, evs);
    }
    forall k: nat | EnteredAt(s3, evs, k, target) ensures Run(s3, FRESH, evs).session == target {
      EnteredIsCurrent(s3, evs, k, target);
    }
  }

  /** In every run a timeout is reported exactly from the update that found the deadline of the open session
      reached until the next call. */
  lemma ReportedIffJustTimedOut(s3: nat, evs: seq<Event>)
    ensures Run(s3, FRESH, evs).timedOut <==>
            && evs != [] && evs[|evs| - 1].Update?
            && var before := Run(s3, FRESH, evs[..|evs| - 1]);
               before.session != Default && 0 < before.deadline <= evs[|evs| - 1].now
  {
    if evs != [] {
      RunInvariant(s3, evs[..|evs| - 1]);
      hide Run, Wrap32;
    }
  }
}
