/** SecurityAccess without its tables: which requests ask the callbacks, and what every request is
    answered, in terms of the registrations and of the callback calls so far. */
module SecurityHistory {
  import opened Words
  import opened SecurityAccess
  import opened SecurityRuns

  /** How many levels have been registered: odd numbers, until there are eight. */
  function Registrations(evs: seq<Event>): nat {
    if evs == [] then 0
    else
      var prior, ev := Registrations(evs[..|evs| - 1]), evs[|evs| - 1];
      if ev.Register? && ev.level & 1 == 1 && prior < 8 then prior + 1 else prior
  }

  /** The session that the first registration of a level names. */
  function SessionFor(evs: seq<Event>, id: bv8): Option<SessionType> {
    if evs == [] then None
    else
      var before, ev := evs[..|evs| - 1], evs[|evs| - 1];
      var prior := SessionFor(before, id);
      if prior.Some? then prior
      else if ev.Register? && ev.level == id && id & 1 == 1 && Registrations(before) < 8 then Some(ev.required)
      else None
  }

  function Required(l: Option<Level>): Option<SessionType> { if l.Some? then Some(l.value.required) else None }

  lemma StepLevels(s: Service, ev: Event)
    ensures |Step(s, ev).next.levels|
            == |s.levels| + if ev.Register? && ev.level & 1 == 1 && |s.levels| < 8 then 1 else 0
  {
    hide Find, AfterRightKey, AfterWrongKey, Locked, SeedSub;
  }

  lemma AnswersRequired(s: Service, o: Outcome)
    requires Answers(s, o)
    ensures Required(Entry(o.next, o.calls[0].level)) == Required(Entry(s, o.calls[0].level))
  {
    hide Entry, Locked;
  }

  lemma StepRequired(s: Service, ev: Event, id: bv8)
    ensures Required(Entry(Step(s, ev).next, id)) ==
            if Entry(s, id).Some? then Required(Entry(s, id))
            else if ev.Register? && ev.level == id && id & 1 == 1 && |s.levels| < 8 then Some(ev.required)
            else None
  {
    hide Step, Entry, Answers;
    match ev
    case Register(level, seedLen, required) => RegisterEntry(s, level, seedLen, required, id);
    case Update(now) => UpdateEntry(s, now, id);
    case Handle(_, _, _, _) =>
      HandleEntry(s, ev, id);
      var o := Step(s, ev);
      if o.calls != [] {
        AnswersRequired(s, o);
      }
  }

  /** The table's levels and their sessions are those of the registrations. */
  lemma {:induction false} SessionIsHistory(evs: seq<Event>, id: bv8)
    ensures |Run(evs).levels| == Registrations(evs)
    ensures SessionFor(evs, id) == Required(Entry(Run(evs), id))
  {
    hide Step;
    if evs != [] {
      var before, ev := evs[..|evs| - 1], evs[|evs| - 1];
      SessionIsHistory(before, id);
      StepLevels(Run(before), ev);
      StepRequired(Run(before), ev, id);
      hide Entry;
    }
  }

  // ---- Who asks the callbacks ----

  /** The requests that asked a callback, one for each call. */
  function Askers(evs: seq<Event>): seq<Event> {
    if evs == [] then []
    else
      var before, ev := evs[..|evs| - 1], evs[|evs| - 1];
      Askers(before) + if Step(Run(before), ev).calls == [] then [] else [ev]
  }

  /** The request asks this call, in the session `required`: the seed of the level whose number is its
      sub-function, or the check of the key behind it, for the level one below. */
  predicate Asks(ev: Event, required: Option<SessionType>, call: Call) {
    && ev.Handle? && |ev.req| >= 2 && required == Some(ev.session)
    && match call
       case SeedCall(level, seed) => level == ev.req[1] && seed == ev.generated
       case KeyCall(level, _, key, valid) => level == ev.req[1] - 1 && key == ev.req[2..] && valid == ev.valid
  }

  lemma CallIsAsked(s: Service, ev: Event)
    requires ev.Handle? && Step(s, ev).calls != []
    ensures var calls := Step(s, ev).calls;
            |calls| == 1 && Asks(ev, Required(Entry(s, calls[0].level)), calls[0])
  {
    hide Locked, AfterRightKey, AfterWrongKey;
  }

  /** A session named once stays. */
  lemma SessionStays(before: seq<Event>, ev: Event, id: bv8)
    requires SessionFor(before, id).Some?
    ensures SessionFor(before + [ev], id) == SessionFor(before, id)
  {
    assert (before + [ev])[..|before|] == before;
  }

  ghost predicate AskedInSession(evs: seq<Event>, calls: seq<Call>, askers: seq<Event>) {
    |askers| == |calls|
    && forall j | 0 <= j < |calls| :: Asks(askers[j], SessionFor(evs, calls[j].level), calls[j])
  }

  lemma AskedSnoc(before: seq<Event>, ev: Event, calls: seq<Call>, askers: seq<Event>)
    requires AskedInSession(before, calls, askers)
    ensures AskedInSession(before + [ev], calls, askers)
  {
    hide SessionFor;
    forall j | 0 <= j < |calls| ensures Asks(askers[j], SessionFor(before + [ev], calls[j].level), calls[j]) {
      assert Asks(askers[j], SessionFor(before, calls[j].level), calls[j]);
      SessionStays(before, ev, calls[j].level);
    }
  }

  /** In every run, each seed and each key check was asked of the callbacks by a request for just that, in
      the session that the level was registered for. */
  lemma {:induction false} CallbacksInSession(evs: seq<Event>)
    ensures AskedInSession(evs, Calls(evs), Askers(evs))
  {
    hide Step, AskedInSession, Asks, SessionFor, Entry, Run;
    if evs == [] {
      NobodyAsked();
    } else {
      var before, ev := evs[..|evs| - 1], evs[|evs| - 1];
      CallbacksInSession(before);
      assert evs == before + [ev];
      AskedSnoc(before, ev, Calls(before), Askers(before));
      var calls := Step(Run(before), ev).calls;
      if calls == [] {
        assert Calls(before) + [] == Calls(before) && Askers(before) + [] == Askers(before);
      } else {
        AskedNow(before, ev);
      }
    }
  }

  lemma NobodyAsked()
    ensures AskedInSession([], Calls([]), Askers([]))
  {}

  lemma AskedNow(before: seq<Event>, ev: Event)
    requires AskedInSession(before + [ev], Calls(before), Askers(before)) && Step(Run(before), ev).calls != []
    ensures AskedInSession(before + [ev], Calls(before) + Step(Run(before), ev).calls, Askers(before) + [ev])
  {
    hide Step, Asks, SessionFor, Entry, Run, Calls, Askers;
    var calls := Step(Run(before), ev).calls;
    if !ev.Handle? {
      NoCalls(Run(before), ev);
    } else {
      CallIsAsked(Run(before), ev);
      SessionIsHistory(before, calls[0].level);
      AsksSome(ev, Required(Entry(Run(before), calls[0].level)), calls[0]);
      SessionStays(before, ev, calls[0].level);
    }
  }

  lemma AsksSome(ev: Event, required: Option<SessionType>, call: Call)
    requires Asks(ev, required, call)
    ensures required.Some?
  {}

  /** The request brought a right key for the level in its session. */
  predicate Opens(evs: seq<Event>, ev: Event, id: bv8) {
    && ev.Handle? && |ev.req| >= 2 && ev.req[1] == id + 1 && ev.valid
    && SessionFor(evs, id) == Some(ev.session)
  }

  /** A level is unlocked only if a right key for it arrived in the session that it requires. */
  lemma UnlockedInSession(evs: seq<Event>, id: bv8)
    requires IsUnlocked(Run(evs), id)
    ensures exists ev <- evs :: Opens(evs, ev, id)
  {
    hide Run, Calls, Askers, IsUnlocked, Asks, SessionFor, Legitimate, Opens;
    UnlockProvenance(evs, id);
    CallbacksInSession(evs);
    var call :| call in Calls(evs) && call.KeyCall? && call.level == id && call.valid;
    var j: nat :| j < |Calls(evs)| && Calls(evs)[j] == call;
    assert Asks(Askers(evs)[j], SessionFor(evs, id), call);
    AskedKeyOpens(evs, Askers(evs)[j], call);
    AskersHappened(evs);
  }

  lemma {:induction false} AskersHappened(evs: seq<Event>)
    ensures forall ev <- Askers(evs) :: ev in evs
  {
    hide Step, Run;
    if evs != [] {
      AskersHappened(evs[..|evs| - 1]);
    }
  }

  lemma AskedKeyOpens(evs: seq<Event>, ev: Event, call: Call)
    requires Asks(ev, SessionFor(evs, call.level), call) && call.KeyCall? && call.valid
    ensures Opens(evs, ev, call.level)
  {
    hide SessionFor;
    NextNumber(call.level, ev.req[1]);
  }

  lemma NextNumber(level: bv8, sub: bv8)
    ensures level == sub - 1 ==> sub == level + 1
  {}

  // ---- What a request is answered ----

  /** The latest callback call issued a seed for the level. */
  predicate Awaits(calls: seq<Call>, id: bv8) {
    calls != [] && calls[|calls| - 1].SeedCall? && calls[|calls| - 1].level == id
  }

  /** The table knows the seed that was issued last and has not been answered. */
  ghost predicate Remembers(s: Service, calls: seq<Call>, id: bv8) {
    Awaits(calls, id) ==>
      && s.active == id && Entry(s, id).Some?
      && Entry(s, id).value.seedSent && Entry(s, id).value.seed == calls[|calls| - 1].seed
  }

  lemma RemembersStep(s: Service, ev: Event, calls: seq<Call>, id: bv8)
    requires Remembers(s, calls, id)
    ensures var o := Step(s, ev); Remembers(o.next, calls + o.calls, id)
  {
    hide Step, Find;
    var o := Step(s, ev);
    match ev
    case Register(level, seedLen, required) =>
      RegisterEntry(s, level, seedLen, required, id);
      NoCalls(s, ev);
      assert calls + [] == calls;
    case Update(now) =>
      UpdateEntry(s, now, id);
      NoCalls(s, ev);
      assert calls + [] == calls;
    case Handle(_, _, _, _) =>
      HandleEntry(s, ev, id);
      if o.calls == [] {
        assert calls + [] == calls;
      } else {
        assert o.calls == [o.calls[0]];
      }
  }

  lemma {:induction false} RunRemembers(evs: seq<Event>, id: bv8)
    ensures Remembers(Run(evs), Calls(evs), id)
  {
    hide Step, Remembers;
    if evs == [] {
      assert Remembers(EMPTY, [], id) by { NothingToRemember(id); }
    } else {
      RunRemembers(evs[..|evs| - 1], id);
      RemembersStep(Run(evs[..|evs| - 1]), evs[|evs| - 1], Calls(evs[..|evs| - 1]), id);
    }
  }

  lemma NothingToRemember(id: bv8)
    ensures Remembers(EMPTY, [], id)
  {}

  lemma AwaitsIff(evs: seq<Event>, id: bv8)
    requires Entry(Run(evs), id).Some?
    ensures var s := Run(evs);
            Awaits(Calls(evs), id) <==> Entry(s, id).value.seedSent && s.active == id
    ensures Awaits(Calls(evs), id) ==> Calls(evs)[|Calls(evs)| - 1] == SeedCall(id, Entry(Run(evs), id).value.seed)
    ensures Entry(Run(evs), id).value.unlocked <==> Accepted(Calls(evs), id)
  {
    hide Run, Calls, Entry, Legitimate, Accepted;
    RunRemembers(evs, id);
    UnlockProvenance(evs, id);
  }

  /** The answer of the first entry for the level to a request for it that is not refused outright. */
  function Reply(l: Level, sub: bv8, unlocked: bool, awaits: bool, generated: seq<bv8>, valid: bool): seq<bv8> {
    if sub & 1 == 1 then [0x67, sub] + if unlocked then Zeros(l.seedLen) else generated
    else if !awaits then [0x7F, 0x27, 0x24]
    else if valid then [0x67, sub]
    else [0x7F, 0x27, if (l.fails + 1) % 256 >= 3 then 0x36 else 0x35]
  }

  predicate Delayed(entry: Option<Level>, tick: Tick) {
    entry.Some? && entry.value.lockedUntil != 0 && tick < entry.value.lockedUntil
  }

  lemma ReplyStep(s: Service, req: seq<bv8>, session: SessionType, generated: seq<bv8>, valid: bool)
    ensures var o := Step(s, Handle(req, session, generated, valid));
            if |req| < 2 then o == Outcome(s, [0x7F, 0x27, 0x13], [])
            else
              var sub := req[1];
              var id := if sub & 1 == 1 then sub else sub - 1;
              var entry := Entry(s, id);
              if entry == None then o == Outcome(s, [0x7F, 0x27, 0x12], [])
              else if Delayed(entry, s.tick) then o == Outcome(s, [0x7F, 0x27, 0x37], [])
              else if entry.value.required != session then o == Outcome(s, [0x7F, 0x27, 0x7F], [])
              else
                var l := entry.value;
                && o.response == Reply(l, sub, l.unlocked, l.seedSent && s.active == id, generated, valid)
                && (o.calls == [] <==> if sub & 1 == 1 then l.unlocked else !(l.seedSent && s.active == id))
                && (o.calls == [] ==> o.next == s)
  {
  }

  /** What a request is answered in every run, in numbers: the refusals, in the order in which they take
      precedence, and the seed, the zeros or the verdict on the key. A refused request changes nothing
      unless the callback was asked; a wrong key is refused with 0x35, and with 0x36 from the third on. */
  lemma RequestAnswered(evs: seq<Event>, req: seq<bv8>, session: SessionType, generated: seq<bv8>, valid: bool)
    ensures var s, calls := Run(evs), Calls(evs);
            var o := Step(s, Handle(req, session, generated, valid));
            if |req| < 2 then o == Outcome(s, [0x7F, 0x27, 0x13], [])
            else
              var sub := req[1];
              var id := if sub & 1 == 1 then sub else sub - 1;
              if SessionFor(evs, id) == None then o == Outcome(s, [0x7F, 0x27, 0x12], [])
              else if Delayed(Entry(s, id), s.tick) then o == Outcome(s, [0x7F, 0x27, 0x37], [])
              else if SessionFor(evs, id) != Some(session) then o == Outcome(s, [0x7F, 0x27, 0x7F], [])
              else
                && Entry(s, id).Some?
                && o.response
                   == Reply(Entry(s, id).value, sub, Accepted(calls, id), Awaits(calls, id), generated, valid)
                && (o.calls == [] <==> if sub & 1 == 1 then Accepted(calls, id) else !Awaits(calls, id))
                && (o.calls == [] ==> o.next == s)
  {
    hide Step, Run, Calls, Entry, SessionFor, Accepted, Awaits, Reply, Delayed;
    ReplyStep(Run(evs), req, session, generated, valid);
    if |req| >= 2 {
      var sub := req[1];
      var id := if sub & 1 == 1 then sub else sub - 1;
      SessionIsHistory(evs, id);
      if Entry(Run(evs), id).Some? {
        AwaitsIff(evs, id);
      }
    }
  }
}
