/** The SecurityAccess service (0x27): levels that are unlocked by answering a seed with a key, and
    locked for a while after three wrong keys. */
module SecurityAccess {
  import opened Words
  import Session

  type SessionType = Session.SessionType

  const MAX_LEVELS := 8
  const MAX_ATTEMPTS := 3
  const DELAY := 10000

  const INCORRECT_LENGTH: bv8 := 0x13
  const SUBFUNCTION_NOT_SUPPORTED: bv8 := 0x12
  const SEQUENCE_ERROR: bv8 := 0x24
  const INVALID_KEY: bv8 := 0x35
  const EXCEEDED_ATTEMPTS: bv8 := 0x36
  const DELAY_NOT_EXPIRED: bv8 := 0x37
  const NOT_IN_SESSION: bv8 := 0x7F

  datatype Level = Level(id: bv8, seedLen: nat, required: SessionType,
                         seed: seq<bv8>, seedSent: bool, unlocked: bool, fails: nat, lockedUntil: Tick)

  datatype Service = Service(levels: seq<Level>, active: bv8, tick: Tick)

  /** A call of the integrator's callbacks: a fresh seed, or the check of a key against a seed. */
  datatype Call =
    | SeedCall(level: bv8, seed: seq<bv8>)
    | KeyCall(level: bv8, seed: seq<bv8>, key: seq<bv8>, valid: bool)

  /** `generated` and `valid` are what the callbacks answer if they are asked. */
  datatype Event =
    | Register(level: bv8, seedLen: nat, required: SessionType)
    | Update(now: Tick)
    | Handle(req: seq<bv8>, session: SessionType, generated: seq<bv8>, valid: bool)

  datatype Outcome = Outcome(next: Service, response: seq<bv8>, calls: seq<Call>)

  function Negative(nrc: bv8): seq<bv8> { [0x7F, 0x27, nrc] }

  function Zeros(n: nat): seq<bv8> { seq(n, _ => 0) }

  /** A request-seed sub-function is odd; the send-key sub-function is the next number. */
  predicate IsSeedRequest(sub: bv8) { sub & 1 == 1 }

  function SeedSub(sub: bv8): bv8 { if IsSeedRequest(sub) then sub else sub - 1 }

  function Ids(levels: seq<Level>): seq<bv8> { seq(|levels|, i requires 0 <= i < |levels| => levels[i].id) }

  /** Index of the first entry for the level, or the number of entries. */
  function Find(levels: seq<Level>, id: bv8): (i: nat)
    ensures i <= |levels|
    ensures i < |levels| ==> levels[i].id == id
    ensures forall k | 0 <= k < i :: levels[k].id != id
  {
    assert forall k | 0 <= k < |levels| :: levels[k].id == Ids(levels)[k];
    IndexOf(Ids(levels), id)
  }

  predicate Locked(l: Level, tick: Tick) { l.lockedUntil != 0 && tick < l.lockedUntil }

  function Released(l: Level, now: Tick): Level {
    if 0 < l.lockedUntil <= now then l.(lockedUntil := 0, fails := 0) else l
  }

  function AfterWrongKey(l: Level, tick: Tick): Level {
    var fails := (l.fails + 1) % 256;
    if fails >= MAX_ATTEMPTS then l.(fails := fails, seedSent := false, lockedUntil := Wrap32(tick + DELAY))
    else l.(fails := fails, seedSent := false)
  }

  function AfterRightKey(l: Level): Level { l.(unlocked := true, fails := 0, seedSent := false) }

  function OnSeed(s: Service, i: nat, sub: bv8, generated: seq<bv8>): Outcome
    requires i < |s.levels|
  {
    var l := s.levels[i];
    if l.unlocked then Outcome(s, [0x67, sub] + Zeros(l.seedLen), [])
    else
      Outcome(Service(s.levels[i := l.(seed := generated, seedSent := true)], sub, s.tick),
              [0x67, sub] + generated, [SeedCall(l.id, generated)])
  }

  function OnKey(s: Service, i: nat, sub: bv8, key: seq<bv8>, valid: bool): Outcome
    requires i < |s.levels|
  {
    var l := s.levels[i];
    if !l.seedSent || s.active != sub - 1 then Outcome(s, Negative(SEQUENCE_ERROR), [])
    else
      var call := KeyCall(l.id, l.seed, key, valid);
      if valid then Outcome(s.(levels := s.levels[i := AfterRightKey(l)]), [0x67, sub], [call])
      else
        var l' := AfterWrongKey(l, s.tick);
        Outcome(s.(levels := s.levels[i := l']),
                Negative(if l'.fails >= MAX_ATTEMPTS then EXCEEDED_ATTEMPTS else INVALID_KEY), [call])
  }

  function OnRequest(s: Service, req: seq<bv8>, session: SessionType, generated: seq<bv8>, valid: bool): Outcome {
    if |req| < 2 then Outcome(s, Negative(INCORRECT_LENGTH), [])
    else
      var i := Find(s.levels, SeedSub(req[1]));
      if i == |s.levels| then Outcome(s, Negative(SUBFUNCTION_NOT_SUPPORTED), [])
      else if Locked(s.levels[i], s.tick) then Outcome(s, Negative(DELAY_NOT_EXPIRED), [])
      else if s.levels[i].required != session then Outcome(s, Negative(NOT_IN_SESSION), [])
      else if IsSeedRequest(req[1]) then OnSeed(s, i, req[1], generated)
      else OnKey(s, i, req[1], req[2..], valid)
  }

  function Step(s: Service, ev: Event): Outcome {
    match ev
    case Register(id, seedLen, required) =>
      if |s.levels| >= MAX_LEVELS || !IsSeedRequest(id) then Outcome(s, [], [])
      else Outcome(s.(levels := s.levels + [Level(id, seedLen, required, [], false, false, 0, 0)]), [], [])
    case Update(now) =>
      Outcome(Service(seq(|s.levels|, i requires 0 <= i < |s.levels| => Released(s.levels[i], now)), s.active, now),
              [], [])
    case Handle(req, session, generated, valid) => OnRequest(s, req, session, generated, valid)
  }

  const EMPTY := Service([], 0, 0)

  function Run(evs: seq<Event>): Service {
    if evs == [] then EMPTY else Step(Run(evs[..|evs| - 1]), evs[|evs| - 1]).next
  }

  /** Every callback call of the run, in order. */
  function Calls(evs: seq<Event>): seq<Call> {
    if evs == [] then []
    else Calls(evs[..|evs| - 1]) + Step(Run(evs[..|evs| - 1]), evs[|evs| - 1]).calls
  }

  predicate IsUnlocked(s: Service, id: bv8) {
    var i := Find(s.levels, id); i < |s.levels| && s.levels[i].unlocked
  }

  class SecurityAccessService {
    const table: array<Level>
    var count: nat
    var active: bv8
    var tick: Tick

    ghost predicate Valid()
      reads this
    {
      table.Length == MAX_LEVELS && count <= MAX_LEVELS
    }

    ghost function View(): Service
      requires Valid()
      reads this, table
    {
      Service(table[..count], active, tick)
    }

    constructor ()
      ensures Valid() && View() == EMPTY && fresh(table)
    {
      table := new Level[MAX_LEVELS](_ => Level(0, 0, Session.Default, [], false, false, 0, 0));
      count, active, tick := 0, 0, 0;
    }

    method RegisterLevel(id: bv8, seedLen: nat, required: SessionType) returns (ok: bool)
      requires Valid()
      modifies this, table
      ensures Valid() && View() == Step(old(View()), Register(id, seedLen, required)).next
      ensures ok <==> View() != old(View())
    {
      if count >= MAX_LEVELS {
        return false;
      }
      if id & 1 == 0 {
        return false;
      }
      table[count] := Level(id, seedLen, required, [], false, false, 0, 0);
      count := count + 1;
      ok := true;
    }

    method FindLevel(sub: bv8) returns (i: nat)
      requires Valid()
      ensures i == Find(table[..count], SeedSub(sub))
    {
      var seedSub := if sub & 1 == 1 then sub else sub - 1;
      i := 0;
      while i < count
        invariant i <= count
        invariant forall k | 0 <= k < i :: table[k].id != seedSub
      {
        if table[i].id == seedSub {
          break;
        }
        i := i + 1;
      }
      IndexIs(Ids(table[..count]), seedSub, i);
    }

    method DoIsUnlocked(id: bv8) returns (b: bool)
      requires Valid()
      ensures b == IsUnlocked(View(), id)
    {
      var i := 0;
      while i < count
        invariant i <= count
        invariant forall k | 0 <= k < i :: table[k].id != id
      {
        if table[i].id == id {
          IndexIs(Ids(table[..count]), id, i);
          return table[i].unlocked;
        }
        i := i + 1;
      }
      IndexIs(Ids(table[..count]), id, i);
      b := false;
    }

    method DoUpdate(now: Tick)
      requires Valid()
      modifies this, table
      ensures Valid() && View() == Step(old(View()), Update(now)).next
    {
      tick := now;
      var i := 0;
      while i < count
        invariant i <= count == old(count) && active == old(active) && tick == now
        invariant forall k | 0 <= k < i :: table[k] == Released(old(table[k]), now)
        invariant forall k | i <= k < count :: table[k] == old(table[k])
      {
        if table[i].lockedUntil > 0 && now >= table[i].lockedUntil {
          table[i] := table[i].(lockedUntil := 0, fails := 0);
        }
        i := i + 1;
      }
    }

    /** `calls` records which callback was asked, and with what. */
    method DoHandle(req: seq<bv8>, session: SessionType, generated: seq<bv8>, valid: bool)
      returns (response: seq<bv8>, calls: seq<Call>)
      requires Valid()
      modifies this, table
      ensures Valid()
      ensures Outcome(View(), response, calls) == Step(old(View()), Handle(req, session, generated, valid))
    {
      if |req| < 2 {
        return Negative(INCORRECT_LENGTH), [];
      }
      var sub := req[1];
      var i := FindLevel(sub);
      if i == count {
        return Negative(SUBFUNCTION_NOT_SUPPORTED), [];
      }
      if table[i].lockedUntil != 0 && tick < table[i].lockedUntil {
        return Negative(DELAY_NOT_EXPIRED), [];
      }
      if table[i].required != session {
        return Negative(NOT_IN_SESSION), [];
      }
      if sub & 1 != 0 {
        response, calls := HandleSeed(i, sub, generated);
      } else {
        response, calls := HandleKey(i, sub, req[2..], valid);
      }
    }

    method HandleSeed(i: nat, sub: bv8, generated: seq<bv8>) returns (response: seq<bv8>, calls: seq<Call>)
      requires Valid() && i < count
      modifies this, table
      ensures Valid() && Outcome(View(), response, calls) == OnSeed(old(View()), i, sub, generated)
    {
      if table[i].unlocked {
        return [0x67, sub] + Zeros(table[i].seedLen), [];
      }
      table[i] := table[i].(seed := generated, seedSent := true);
      active := sub;
      response := [0x67, sub] + table[i].seed;
      calls := [SeedCall(table[i].id, generated)];
    }

    method HandleKey(i: nat, sub: bv8, key: seq<bv8>, valid: bool) returns (response: seq<bv8>, calls: seq<Call>)
      requires Valid() && i < count
      modifies this, table
      ensures Valid() && Outcome(View(), response, calls) == OnKey(old(View()), i, sub, key, valid)
    {
      if !table[i].seedSent || active != sub - 1 {
        return Negative(SEQUENCE_ERROR), [];
      }
      calls := [KeyCall(table[i].id, table[i].seed, key, valid)];
      if !valid {
        table[i] := table[i].(fails := (table[i].fails + 1) % 256, seedSent := false);
        if table[i].fails >= MAX_ATTEMPTS {
          table[i] := table[i].(lockedUntil := Wrap32(tick + DELAY));
          response := Negative(EXCEEDED_ATTEMPTS);
        } else {
          response := Negative(INVALID_KEY);
        }
        return;
      }
      table[i] := table[i].(unlocked := true, fails := 0, seedSent := false);
      response := [0x67, sub];
    }
  }
}
