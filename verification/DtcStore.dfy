/** The store of diagnostic trouble codes and their status bytes. */
module DtcStore {
  import opened Words

  const MAX_DTCS := 64
  const MAX_SNAPSHOT := 64

  const TEST_FAILED: bv8 := 0x01
  const FAILED_THIS_CYCLE: bv8 := 0x02
  const PENDING: bv8 := 0x04
  const CONFIRMED: bv8 := 0x08
  const NOT_COMPLETED_SINCE_CLEAR: bv8 := 0x10
  const FAILED_SINCE_CLEAR: bv8 := 0x20
  const NOT_COMPLETED_THIS_CYCLE: bv8 := 0x40

  const UNTESTED: bv8 := NOT_COMPLETED_SINCE_CLEAR | NOT_COMPLETED_THIS_CYCLE

  /** `snapshot` is the part of the snapshot buffer that its length field makes valid. */
  datatype Entry = Entry(code: bv32, status: bv8, severity: bv8, active: bool, snapshot: seq<bv8>, extDataLen: nat)

  datatype Event =
    | Register(code: bv32, severity: bv8)
    | Test(code: bv32, failed: bool)
    | ClearAll
    | ClearGroup(mask: bv32)
    | NewCycle
    | Snapshot(code: bv32, data: seq<bv8>)

  /** Codes have 24 bits. */
  function Key(code: bv32): bv32 { code & 0xFFFFFF }

  function AfterTest(status: bv8, failed: bool): bv8 {
    var s := status & !NOT_COMPLETED_THIS_CYCLE & !NOT_COMPLETED_SINCE_CLEAR;
    if failed then s | TEST_FAILED | FAILED_THIS_CYCLE | FAILED_SINCE_CLEAR | PENDING | CONFIRMED
    else s & !TEST_FAILED & !FAILED_THIS_CYCLE & !PENDING
  }

  function AfterCycle(status: bv8): bv8 { (status & !FAILED_THIS_CYCLE) | NOT_COMPLETED_THIS_CYCLE }

  predicate InGroup(code: bv32, mask: bv32) { mask == 0xFFFFFF || code & mask == mask & 0xFFFFFF }

  function Codes(store: seq<Entry>): seq<bv32> { seq(|store|, i requires 0 <= i < |store| => store[i].code) }

  /** Index of the entry for a code, or the number of entries. */
  function Find(store: seq<Entry>, key: bv32): (i: nat)
    ensures i <= |store|
    ensures i < |store| ==> store[i].code == key
    ensures forall k | 0 <= k < i :: store[k].code != key
  {
    assert forall k | 0 <= k < |store| :: store[k].code == Codes(store)[k];
    IndexOf(Codes(store), key)
  }

  predicate Known(store: seq<Entry>, key: bv32) { Find(store, key) < |store| }

  function Changed(e: Entry, ev: Event): Entry {
    match ev
    case Test(code, failed) =>
      if e.code == Key(code) && e.active then e.(status := AfterTest(e.status, failed)) else e
    case ClearAll => e.(status := UNTESTED, snapshot := [], extDataLen := 0)
    case ClearGroup(mask) => if InGroup(e.code, mask) then e.(status := UNTESTED, snapshot := []) else e
    case NewCycle => e.(status := AfterCycle(e.status))
    case Snapshot(code, data) =>
      if e.code == Key(code) then e.(snapshot := data[..Min(|data|, MAX_SNAPSHOT)]) else e
    case Register(_, _) => e
  }

  function NewEntry(code: bv32, severity: bv8): Entry { Entry(Key(code), UNTESTED, severity, true, [], 0) }

  function Step(store: seq<Entry>, ev: Event): (next: seq<Entry>)
    ensures |store| <= |next| <= |store| + 1
  {
    match ev
    case Register(code, severity) =>
      if |store| >= MAX_DTCS || Known(store, Key(code)) then store
      else store + [NewEntry(code, severity)]
    case _ => seq(|store|, i requires 0 <= i < |store| => Changed(store[i], ev))
  }

  function Run(evs: seq<Event>): seq<Entry> {
    if evs == [] then [] else Step(Run(evs[..|evs| - 1]), evs[|evs| - 1])
  }

  /** Codes are unique 24-bit numbers, at most 64 of them. */
  ghost predicate WellFormed(store: seq<Entry>) {
    && |store| <= MAX_DTCS
    && (forall i, j | 0 <= i < j < |store| :: store[i].code != store[j].code)
    && (forall e <- store :: e.code == Key(e.code) && e.active && e.extDataLen == 0)
  }

  lemma KeyIdempotent(code: bv32)
    ensures Key(Key(code)) == Key(code)
  {}

  lemma ChangedKeeps(e: Entry, ev: Event)
    ensures var e' := Changed(e, ev);
            e'.code == e.code && e'.active == e.active && (e.extDataLen == 0 ==> e'.extDataLen == 0)
  {
    hide AfterTest, AfterCycle, InGroup, Key;
  }

  lemma StepWellFormed(store: seq<Entry>, ev: Event)
    requires WellFormed(store)
    ensures WellFormed(Step(store, ev))
  {
    hide Changed, Key;
    if ev.Register? {
      KeyIdempotent(ev.code);
    } else {
      forall i | 0 <= i < |store|
        ensures Changed(store[i], ev).code == store[i].code == Key(store[i].code)
        ensures Changed(store[i], ev).active && Changed(store[i], ev).extDataLen == 0
      {
        assert store[i] in store;
        ChangedKeeps(store[i], ev);
      }
    }
  }

  lemma {:induction false} RunWellFormed(evs: seq<Event>)
    ensures WellFormed(Run(evs))
  {
    hide Step;
    if evs != [] {
      RunWellFormed(evs[..|evs| - 1]);
      StepWellFormed(Run(evs[..|evs| - 1]), evs[|evs| - 1]);
    }
  }

  // ---- Filtering by status ----

  predicate Matches(e: Entry, mask: bv8) { mask == 0xFF || e.status & mask != 0 }

  /** The entries that match a status mask, in registration order. */
  function Matching(store: seq<Entry>, mask: bv8): (r: seq<Entry>)
    ensures |r| <= |store|
    ensures forall e :: e in r <==> e in store && Matches(e, mask)
  {
    if store == [] then []
    else
      var prior, last := Matching(store[..|store| - 1], mask), store[|store| - 1];
      if Matches(last, mask) then prior + [last] else prior
  }

  // ---- What happened to a code ----

  predicate Clears(ev: Event, key: bv32) {
    ev.ClearAll? || (ev.ClearGroup? && InGroup(key, ev.mask))
  }

  /** The event tests a code that has been registered before. */
  predicate Tests(before: seq<Event>, ev: Event, key: bv32) {
    ev.Test? && Key(ev.code) == key && Known(Run(before), key)
  }

  /** The last test result since the code was cleared. */
  function LastResult(evs: seq<Event>, key: bv32): Option<bool> {
    if evs == [] then None
    else
      var before, ev := evs[..|evs| - 1], evs[|evs| - 1];
      if Tests(before, ev, key) then Some(ev.failed)
      else if Clears(ev, key) then None
      else LastResult(before, key)
  }

  /** Some test has failed since the code was cleared. */
  predicate EverFailed(evs: seq<Event>, key: bv32) {
    evs != [] &&
    var before, ev := evs[..|evs| - 1], evs[|evs| - 1];
    (Tests(before, ev, key) && ev.failed) || (!Clears(ev, key) && EverFailed(before, key))
  }

  /** A test has run in this operation cycle, and the code has not been cleared since. */
  predicate RanThisCycle(evs: seq<Event>, key: bv32) {
    evs != [] &&
    var before, ev := evs[..|evs| - 1], evs[|evs| - 1];
    Tests(before, ev, key) || (!Clears(ev, key) && !ev.NewCycle? && RanThisCycle(before, key))
  }

  /** A test has failed in this operation cycle, and the code has not been cleared since. */
  predicate FailedThisCycle(evs: seq<Event>, key: bv32) {
    evs != [] &&
    var before, ev := evs[..|evs| - 1], evs[|evs| - 1];
    (Tests(before, ev, key) && ev.failed) || (!Clears(ev, key) && !ev.NewCycle? && FailedThisCycle(before, key))
  }

  function Flag(on: bool, bit: bv8): bv8 { if on then bit else 0 }

  /** The status byte that a history stands for. */
  function StatusOf(last: Option<bool>, everFailed: bool, ranThisCycle: bool): bv8 {
    var failing := last == Some(true);
    Flag(failing, TEST_FAILED) | Flag(failing && ranThisCycle, FAILED_THIS_CYCLE) | Flag(failing, PENDING)
    | Flag(everFailed, CONFIRMED) | Flag(last == None, NOT_COMPLETED_SINCE_CLEAR)
    | Flag(everFailed, FAILED_SINCE_CLEAR) | Flag(!ranThisCycle, NOT_COMPLETED_THIS_CYCLE)
  }

  function StatusFromHistory(evs: seq<Event>, key: bv32): bv8 {
    StatusOf(LastResult(evs, key), EverFailed(evs, key), RanThisCycle(evs, key))
  }

  lemma StatusSteps(last: Option<bool>, ever: bool, ran: bool, failed: bool)
    ensures AfterTest(StatusOf(last, ever, ran), failed) == StatusOf(Some(failed), ever || failed, true)
    ensures AfterCycle(StatusOf(last, ever, ran)) == StatusOf(last, ever, false)
    ensures UNTESTED == StatusOf(None, false, false)
  {}

  /** Index of a code, and its entry, after one event. */
  lemma StepEntry(store: seq<Entry>, ev: Event, key: bv32)
    ensures var next := Step(store, ev);
            && (Known(store, key) ==>
                  Find(next, key) == Find(store, key)
                  && next[Find(store, key)] == Changed(store[Find(store, key)], ev))
            && (!Known(store, key) && Known(next, key) ==>
                  ev.Register? && Key(ev.code) == key
                  && next[Find(next, key)] == NewEntry(ev.code, ev.severity))
  {
    hide AfterTest, AfterCycle, InGroup, Key;
    if ev.Register? {
      IndexAppend(Codes(store), Key(ev.code), key);
      assert Codes(store + [NewEntry(ev.code, ev.severity)]) == Codes(store) + [Key(ev.code)];
    } else {
      assert Codes(store) == Codes(Step(store, ev));
    }
  }

  /** A code that is not registered has no history. */
  lemma {:induction false} UnknownHasNoHistory(evs: seq<Event>, key: bv32)
    requires !Known(Run(evs), key)
    ensures LastResult(evs, key) == None && !EverFailed(evs, key) && !RanThisCycle(evs, key)
    ensures !FailedThisCycle(evs, key)
  {
    hide Step, Key, InGroup;
    if evs != [] {
      StepEntry(Run(evs[..|evs| - 1]), evs[|evs| - 1], key);
      UnknownHasNoHistory(evs[..|evs| - 1], key);
    }
  }

  lemma ChangedStatus(e: Entry, ev: Event, last: Option<bool>, ever: bool, ran: bool)
    requires e.active && e.status == StatusOf(last, ever, ran)
    ensures Changed(e, ev).status ==
            if ev.Test? && Key(ev.code) == e.code then StatusOf(Some(ev.failed), ever || ev.failed, true)
            else if Clears(ev, e.code) then StatusOf(None, false, false)
            else if ev.NewCycle? then StatusOf(last, ever, false)
            else e.status
  {
    hide Key, InGroup, AfterTest, AfterCycle, StatusOf;
    StatusSteps(last, ever, ran, ev.Test? && ev.failed);
  }

  lemma HistorySteps(before: seq<Event>, ev: Event, key: bv32)
    ensures var last, ever, ran := LastResult(before, key), EverFailed(before, key), RanThisCycle(before, key);
            StatusFromHistory(before + [ev], key) ==
            if Tests(before, ev, key) then StatusOf(Some(ev.failed), (!Clears(ev, key) && ever) || ev.failed, true)
            else if Clears(ev, key) then StatusOf(None, false, false)
            else if ev.NewCycle? then StatusOf(last, ever, false)
            else StatusOf(last, ever, ran)
  {
    hide StatusOf, Tests, Clears;
    assert (before + [ev])[..|before|] == before;
  }

  /** In every run the status byte of every code is exactly what its history stands for: the last
      result and any failure since it was cleared, and whether a test ran in this cycle. */
  lemma {:induction false} StatusIsHistory(evs: seq<Event>, key: bv32)
    requires Known(Run(evs), key)
    ensures Run(evs)[Find(Run(evs), key)].status == StatusFromHistory(evs, key)
  {
    hide Step, Key, InGroup, StatusOf, Changed, LastResult, EverFailed, RanThisCycle;
    var before, ev := evs[..|evs| - 1], evs[|evs| - 1];
    var store := Run(before);
    assert evs == before + [ev];
    StepEntry(store, ev, key);
    HistorySteps(before, ev, key);
    if Known(store, key) {
      StatusIsHistory(before, key);
      RunWellFormed(before);
      assert store[Find(store, key)] in store;
      ChangedStatus(store[Find(store, key)], ev, LastResult(before, key), EverFailed(before, key),
                    RanThisCycle(before, key));
    } else {
      UnknownHasNoHistory(before, key);
      StatusSteps(None, false, false, false);
    }
  }

  /** Only seven status bytes occur. */
  lemma StatusValues(evs: seq<Event>, key: bv32)
    requires Known(Run(evs), key)
    ensures Run(evs)[Find(Run(evs), key)].status in {0x50, 0x40, 0x00, 0x28, 0x68, 0x2F, 0x6D}
  {
    StatusIsHistory(evs, key);
    HistoryConsistent(evs, key);
    hide Run, Find, LastResult, EverFailed, RanThisCycle;
  }

  lemma {:induction false} HistoryConsistent(evs: seq<Event>, key: bv32)
    ensures LastResult(evs, key) == None ==> !EverFailed(evs, key) && !RanThisCycle(evs, key)
    ensures LastResult(evs, key) == Some(true) ==> EverFailed(evs, key)
    ensures FailedThisCycle(evs, key) ==> RanThisCycle(evs, key)
    ensures LastResult(evs, key) == Some(true) && RanThisCycle(evs, key) ==> FailedThisCycle(evs, key)
  {
    hide Run, Key, InGroup, Find;
    if evs != [] {
      HistoryConsistent(evs[..|evs| - 1], key);
    }
  }

  /** The bit documented as "failed at least once this operation cycle" means that exactly when no
      later test of the same cycle passed: a pass takes it back. */
  lemma FailedThisCycleBit(evs: seq<Event>, key: bv32)
    requires Known(Run(evs), key)
    ensures var status := Run(evs)[Find(Run(evs), key)].status;
            (status & FAILED_THIS_CYCLE != 0 <==> FailedThisCycle(evs, key))
            <==> !(FailedThisCycle(evs, key) && LastResult(evs, key) == Some(false))
  {
    hide Run, Find, LastResult, EverFailed, RanThisCycle, FailedThisCycle, StatusOf;
    StatusIsHistory(evs, key);
    HistoryConsistent(evs, key);
    FailedBit(LastResult(evs, key), EverFailed(evs, key), RanThisCycle(evs, key));
    match LastResult(evs, key)
    case None =>
    case Some(result) =>
      assert result || Some(result) == Some(false);
  }

  /** A code that fails and then passes in the same cycle: the bit is off although a test has failed. */
  lemma PassTakesBitBack()
    ensures var evs := [Register(1, 0), Test(1, true)] + [Test(1, false)];
            && Known(Run(evs), 1) && FailedThisCycle(evs, 1) && LastResult(evs, 1) == Some(false)
            && Run(evs)[Find(Run(evs), 1)].status & FAILED_THIS_CYCLE == 0
  {
    hide Step, Changed, Key, Find, StatusOf, InGroup;
    var one, two := [Register(1, 0)], [Register(1, 0), Test(1, true)];
    assert two == one + [Test(1, true)];
    OneEntry();
    StaysKnown(one, Test(1, true), 1);
    StaysKnown(two, Test(1, false), 1);
    StatusIsHistory(two + [Test(1, false)], 1);
    FailedBit(Some(false), EverFailed(two + [Test(1, false)], 1), RanThisCycle(two + [Test(1, false)], 1));
  }

  lemma OneEntry()
    ensures var evs := [Register(1, 0)];
            evs[..0] == [] && Run(evs) == [NewEntry(1, 0)] && Known(Run(evs), 1) && Key(1) == 1
  {
    var evs := [Register(1, 0)];
    assert evs[..0] == [];
    assert [] + [NewEntry(1, 0)] == [NewEntry(1, 0)];
  }

  lemma FailedBit(last: Option<bool>, ever: bool, ran: bool)
    ensures StatusOf(last, ever, ran) & FAILED_THIS_CYCLE != 0 <==> last == Some(true) && ran
  {}

  /** How many operation cycles have begun since the latest failed test, if the code has not been cleared
      since. */
  function CyclesSinceFailure(evs: seq<Event>, key: bv32): Option<nat> {
    if evs == [] then None
    else
      var before, ev := evs[..|evs| - 1], evs[|evs| - 1];
      if Tests(before, ev, key) && ev.failed then Some(0)
      else if Clears(ev, key) then None
      else
        match CyclesSinceFailure(before, key)
        case None => None
        case Some(n) => Some(if ev.NewCycle? then n + 1 else n)
  }

  /** A test has failed in this operation cycle or the one before. */
  predicate FailedRecently(evs: seq<Event>, key: bv32) {
    match CyclesSinceFailure(evs, key)
    case None => false
    case Some(n) => n <= 1
  }

  lemma {:induction false} FailureHasAge(evs: seq<Event>, key: bv32)
    ensures LastResult(evs, key) == Some(true) ==> CyclesSinceFailure(evs, key).Some?
    ensures CyclesSinceFailure(evs, key).Some? ==> LastResult(evs, key).Some?
  {
    hide Tests, Clears;
    if evs != [] {
      FailureHasAge(evs[..|evs| - 1], key);
      ClearsNoTest(evs[|evs| - 1], key);
      TestsIsTest(evs[..|evs| - 1], evs[|evs| - 1], key);
    }
  }

  lemma ClearsNoTest(ev: Event, key: bv32)
    ensures Clears(ev, key) ==> !ev.Test? && !ev.NewCycle?
  {
    hide InGroup;
  }

  lemma TestsIsTest(before: seq<Event>, ev: Event, key: bv32)
    ensures Tests(before, ev, key) ==> ev.Test?
  {}

  /** The bit documented as "failed in the current or the previous cycle" says whether the last test
      failed. That has the documented meaning exactly if no test has failed since the clear, the latest
      test failed and at most one cycle has begun since, or it passed and more than one has begun since the
      latest failure. */
  lemma PendingBit(evs: seq<Event>, key: bv32)
    requires Known(Run(evs), key)
    ensures var status := Run(evs)[Find(Run(evs), key)].status;
            && (status & PENDING != 0 <==> LastResult(evs, key) == Some(true))
            && ((status & PENDING != 0 <==> FailedRecently(evs, key)) <==>
                match CyclesSinceFailure(evs, key)
                case None => true
                case Some(n) => if LastResult(evs, key) == Some(true) then n <= 1 else n > 1)
  {
    hide Run, Find, LastResult, EverFailed, RanThisCycle, CyclesSinceFailure, StatusOf;
    StatusIsHistory(evs, key);
    FailureHasAge(evs, key);
    PendingOf(LastResult(evs, key), EverFailed(evs, key), RanThisCycle(evs, key));
  }

  /** A failure followed by `n` cycles without a test. */
  function FailedAndIdle(n: nat): seq<Event> {
    if n == 0 then [Register(1, 0)] + [Test(1, true)] else FailedAndIdle(n - 1) + [NewCycle]
  }

  /** It stays pending, however many cycles go by. */
  lemma {:induction false} StaysPending(n: nat)
    ensures var evs := FailedAndIdle(n);
            && Known(Run(evs), 1) && LastResult(evs, 1) == Some(true) && CyclesSinceFailure(evs, 1) == Some(n)
            && Run(evs)[Find(Run(evs), 1)].status & PENDING != 0
  {
    hide Step, Changed, Key, Find, StatusOf, InGroup, Run, LastResult, CyclesSinceFailure, Known;
    if n == 0 {
      OneEntry();
      StaysKnown([Register(1, 0)], Test(1, true), 1);
      FailsNow([Register(1, 0)]);
    } else {
      StaysPending(n - 1);
      StaysKnown(FailedAndIdle(n - 1), NewCycle, 1);
      IdleCycle(FailedAndIdle(n - 1));
    }
    PendingBit(FailedAndIdle(n), 1);
  }

  lemma FailsNow(before: seq<Event>)
    requires Known(Run(before), 1)
    ensures LastResult(before + [Test(1, true)], 1) == Some(true)
    ensures CyclesSinceFailure(before + [Test(1, true)], 1) == Some(0)
  {
    hide Run, Find, InGroup;
    assert (before + [Test(1, true)])[..|before|] == before;
  }

  lemma IdleCycle(before: seq<Event>)
    ensures LastResult(before + [NewCycle], 1) == LastResult(before, 1)
    ensures CyclesSinceFailure(before + [NewCycle], 1) ==
            match CyclesSinceFailure(before, 1)
            case None => None
            case Some(n) => Some(n + 1)
  {
    hide Run, Find, InGroup;
    assert (before + [NewCycle])[..|before|] == before;
  }

  lemma StaysKnown(before: seq<Event>, ev: Event, key: bv32)
    requires Known(Run(before), key)
    ensures Known(Run(before + [ev]), key) && (before + [ev])[..|before|] == before
  {
    hide Step, Changed, Find;
    StepEntry(Run(before), ev, key);
    assert (before + [ev])[..|before|] == before;
  }

  lemma PendingOf(last: Option<bool>, ever: bool, ran: bool)
    ensures StatusOf(last, ever, ran) & PENDING != 0 <==> last == Some(true)
  {}

  /** On every reachable store, clearing the group of all codes is clearing everything. */
  lemma ClearGroupOfAll(evs: seq<Event>)
    ensures Step(Run(evs), ClearGroup(0xFFFFFF)) == Step(Run(evs), ClearAll)
  {
    RunWellFormed(evs);
    hide Run, Key;
    var store := Run(evs);
    forall i | 0 <= i < |store| ensures Changed(store[i], ClearGroup(0xFFFFFF)) == Changed(store[i], ClearAll) {
      assert store[i] in store;
    }
  }

  // ---- Groups ----

  predicate Bit(x: bv32, k: bv5) { (x >> k) & 1 == 1 }

  /** Every one of the low 24 bits that is set in the mask is set in the code. */
  ghost predicate HasBits(code: bv32, mask: bv32) { forall k: bv5 | k < 24 :: Bit(mask, k) ==> Bit(code, k) }

  /** Bits k to k + 5 of the mask are set in the code. */
  predicate Six(code: bv32, mask: bv32, k: bv5)
    requires k <= 18
  {
    && (Bit(mask, k) ==> Bit(code, k)) && (Bit(mask, k + 1) ==> Bit(code, k + 1))
    && (Bit(mask, k + 2) ==> Bit(code, k + 2)) && (Bit(mask, k + 3) ==> Bit(code, k + 3))
    && (Bit(mask, k + 4) ==> Bit(code, k + 4)) && (Bit(mask, k + 5) ==> Bit(code, k + 5))
  }

  predicate Covers(code: bv32, mask: bv32) { code & mask == mask & 0xFFFFFF }

  lemma MaskedBit(code: bv32, mask: bv32, k: bv5)
    requires k < 24 && Covers(code, mask) && Bit(mask, k)
    ensures Bit(code, k)
  {}

  lemma SixBits(code: bv32, mask: bv32)
    requires Six(code, mask, 0) && Six(code, mask, 6) && Six(code, mask, 12) && Six(code, mask, 18)
    requires code == Key(code)
    ensures Covers(code, mask)
  {}

  lemma AllSix(code: bv32, mask: bv32)
    requires HasBits(code, mask)
    ensures Six(code, mask, 0) && Six(code, mask, 6) && Six(code, mask, 12) && Six(code, mask, 18)
  {
    hide Bit;
  }

  lemma GroupCovers(code: bv32, mask: bv32)
    ensures InGroup(code, mask) <==> mask == 0xFFFFFF || Covers(code, mask)
  {}

  lemma GroupBits(code: bv32, mask: bv32)
    requires code == Key(code)
    ensures InGroup(code, mask) <==> mask == 0xFFFFFF || HasBits(code, mask)
  {
    hide Bit, Covers, InGroup, Key, Six;
    GroupCovers(code, mask);
    if HasBits(code, mask) {
      AllSix(code, mask);
      SixBits(code, mask);
    }
    if Covers(code, mask) {
      forall k: bv5 | k < 24 && Bit(mask, k) ensures Bit(code, k) {
        MaskedBit(code, mask, k);
      }
    }
  }

  /** Clearing a group on any reachable store makes exactly the codes that have all of the mask's bits
      untested, with an empty snapshot, and leaves every other entry as it was; 0xFFFFFF clears them all. */
  lemma ClearGroupExact(evs: seq<Event>, mask: bv32, i: nat)
    requires i < |Run(evs)|
    ensures var store, next := Run(evs), Step(Run(evs), ClearGroup(mask));
            && |next| == |store|
            && next[i] == if mask == 0xFFFFFF || HasBits(store[i].code, mask)
                          then store[i].(status := 0x50, snapshot := [])
                          else store[i]
  {
    hide Run, InGroup, HasBits, Key;
    RunWellFormed(evs);
    assert Run(evs)[i] in Run(evs);
    GroupBits(Run(evs)[i].code, mask);
  }

  /** And exactly these codes lose their history. */
  lemma ClearGroupForgets(evs: seq<Event>, mask: bv32, key: bv32)
    requires Known(Run(evs), key)
    ensures var after := evs + [ClearGroup(mask)];
            if mask == 0xFFFFFF || HasBits(key, mask) then
              && LastResult(after, key) == None && !EverFailed(after, key) && !RanThisCycle(after, key)
              && !FailedThisCycle(after, key) && CyclesSinceFailure(after, key) == None
            else
              && LastResult(after, key) == LastResult(evs, key)
              && (EverFailed(after, key) <==> EverFailed(evs, key))
              && (RanThisCycle(after, key) <==> RanThisCycle(evs, key))
              && (FailedThisCycle(after, key) <==> FailedThisCycle(evs, key))
              && CyclesSinceFailure(after, key) == CyclesSinceFailure(evs, key)
  {
    RunWellFormed(evs);
    assert Run(evs)[Find(Run(evs), key)] in Run(evs);
    hide Run, InGroup, HasBits, Key;
    GroupBits(key, mask);
    assert (evs + [ClearGroup(mask)])[..|evs|] == evs;
  }

  // ---- Snapshots ----

  /** The latest snapshot given for a code that was registered before, cut to 64 bytes, unless the code has
      been cleared since. */
  function LatestSnapshot(evs: seq<Event>, key: bv32): seq<bv8> {
    if evs == [] then []
    else
      var before, ev := evs[..|evs| - 1], evs[|evs| - 1];
      if ev.Snapshot? && Key(ev.code) == key && Known(Run(before), key) then ev.data[..Min(|ev.data|, 64)]
      else if Clears(ev, key) then []
      else LatestSnapshot(before, key)
  }

  lemma {:induction false} NoSnapshot(evs: seq<Event>, key: bv32)
    requires !Known(Run(evs), key)
    ensures LatestSnapshot(evs, key) == []
  {
    hide Step, Key, InGroup;
    if evs != [] {
      StepEntry(Run(evs[..|evs| - 1]), evs[|evs| - 1], key);
      NoSnapshot(evs[..|evs| - 1], key);
    }
  }

  lemma ChangedSnapshot(e: Entry, ev: Event)
    ensures Changed(e, ev).snapshot ==
            if ev.Snapshot? && Key(ev.code) == e.code then ev.data[..Min(|ev.data|, 64)]
            else if Clears(ev, e.code) then []
            else e.snapshot
  {
    hide Key, InGroup, AfterTest, AfterCycle;
  }

  /** In every run the snapshot of a code is the one given last since it was cleared. */
  lemma {:induction false} SnapshotIsHistory(evs: seq<Event>, key: bv32)
    requires Known(Run(evs), key)
    ensures Run(evs)[Find(Run(evs), key)].snapshot == LatestSnapshot(evs, key)
  {
    hide Step, Key, Changed, Clears;
    var before, ev := evs[..|evs| - 1], evs[|evs| - 1];
    var store := Run(before);
    StepEntry(store, ev, key);
    if Known(store, key) {
      SnapshotIsHistory(before, key);
      ChangedSnapshot(store[Find(store, key)], ev);
    } else {
      NoSnapshot(before, key);
      RegisterIsNoClear(ev, key);
    }
  }

  lemma RegisterIsNoClear(ev: Event, key: bv32)
    ensures ev.Register? ==> !Clears(ev, key)
  {}

  // ---- Which codes are known ----

  /** The codes registered, in order: each once, and no more than 64. */
  function Registered(evs: seq<Event>): seq<bv32> {
    if evs == [] then []
    else
      var prior, ev := Registered(evs[..|evs| - 1]), evs[|evs| - 1];
      if ev.Register? && |prior| < 64 && ev.code & 0xFFFFFF !in prior then prior + [ev.code & 0xFFFFFF] else prior
  }

  lemma StepCodes(store: seq<Entry>, ev: Event)
    ensures Codes(Step(store, ev)) ==
            if ev.Register? && |store| < 64 && ev.code & 0xFFFFFF !in Codes(store)
            then Codes(store) + [ev.code & 0xFFFFFF]
            else Codes(store)
  {
    hide AfterTest, AfterCycle, InGroup;
    if ev.Register? {
      KnownIff(store, Key(ev.code));
      assert Codes(store + [NewEntry(ev.code, ev.severity)]) == Codes(store) + [Key(ev.code)];
    }
  }

  lemma KnownIff(store: seq<Entry>, key: bv32)
    ensures Known(store, key) <==> key in Codes(store)
  {}

  /** In every run the table has exactly the codes registered, in the order of their registration. */
  lemma {:induction false} CodesAreRegistered(evs: seq<Event>, key: bv32)
    ensures Codes(Run(evs)) == Registered(evs)
    ensures Known(Run(evs), key) <==> key in Registered(evs)
  {
    hide Step;
    if evs != [] {
      CodesAreRegistered(evs[..|evs| - 1], key);
      StepCodes(Run(evs[..|evs| - 1]), evs[|evs| - 1]);
    }
    KnownIff(Run(evs), key);
  }
}
