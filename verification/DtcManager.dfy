/** The table of trouble codes that the services share. */
module DtcManagement {
  import opened Words
  import opened DtcStore

  class DtcManager {
    const dtcs: array<Entry>
    var count: nat

    ghost predicate Valid()
      reads this, dtcs
    {
      dtcs.Length == MAX_DTCS && count <= MAX_DTCS && WellFormed(dtcs[..count])
    }

    ghost function View(): seq<Entry>
      requires Valid()
      reads this, dtcs
    {
      dtcs[..count]
    }

    constructor ()
      ensures Valid() && fresh(dtcs) && View() == Run([])
    {
      var blank := Entry(0, 0, 0, false, [], 0);
      dtcs := new Entry[MAX_DTCS](_ => blank);
      count := 0;
      new;
      RunWellFormed([]);
    }

    /** The index of a code's entry, or `count` where the source returns a null pointer. */
    method FindEntry(code: bv32) returns (i: nat)
      requires Valid()
      ensures i == Find(View(), Key(code))
    {
      hide Key, WellFormed;
      i := 0;
      while i < count
        invariant i <= count
        invariant forall k | 0 <= k < i :: dtcs[k].code != Key(code)
      {
        if dtcs[i].code == Key(code) {
          break;
        }
        i := i + 1;
      }
      IndexIs(Codes(View()), Key(code), i);
    }

    /** The index is -1 when the table is full or has the code already. */
    method RegisterDtc(code: bv32, severity: bv8) returns (index: int)
      requires Valid()
      modifies this, dtcs
      ensures Valid() && View() == Step(old(View()), Register(code, severity))
      ensures index == if |View()| == |old(View())| then -1 else |old(View())|
    {
      hide Key, WellFormed;
      if count >= MAX_DTCS {
        return -1;
      }
      var at := FindEntry(code);
      if at < count {
        return -1;
      }
      dtcs[count] := NewEntry(code, severity);
      index := count;
      count := count + 1;
      StepWellFormed(old(View()), Register(code, severity));
      assert dtcs[..count] == Step(old(View()), Register(code, severity));
    }

    method SetTestResult(code: bv32, failed: bool)
      requires Valid()
      modifies dtcs
      ensures Valid() && View() == Step(old(View()), Test(code, failed))
    {
      hide Key;
      StepWellFormed(View(), Test(code, failed));
      var at := FindEntry(code);
      if at == count || !dtcs[at].active {
        OnlyAt(View(), Test(code, failed), at);
        return;
      }
      OnlyAt(View(), Test(code, failed), at);
      var status := dtcs[at].status;
      status := status & !NOT_COMPLETED_THIS_CYCLE;
      status := status & !NOT_COMPLETED_SINCE_CLEAR;
      if failed {
        status := status | TEST_FAILED;
        status := status | FAILED_THIS_CYCLE;
        status := status | FAILED_SINCE_CLEAR;
        status := status | PENDING;
        status := status | CONFIRMED;
      } else {
        status := status & !TEST_FAILED;
        status := status & !FAILED_THIS_CYCLE;
        status := status & !PENDING;
      }
      dtcs[at] := dtcs[at].(status := status);
    }

    method DoClearAll()
      requires Valid()
      modifies dtcs
      ensures Valid() && View() == Step(old(View()), ClearAll)
    {
      hide WellFormed;
      StepWellFormed(View(), ClearAll);
      var i := 0;
      while i < count
        invariant i <= count
        invariant forall k | 0 <= k < i :: dtcs[k] == Changed(old(dtcs[k]), ClearAll)
        invariant forall k | i <= k < count :: dtcs[k] == old(dtcs[k])
      {
        dtcs[i] := dtcs[i].(status := UNTESTED, snapshot := [], extDataLen := 0);
        i := i + 1;
      }
      assert dtcs[..count] == Step(old(View()), ClearAll);
    }

    method DoClearGroup(mask: bv32)
      requires Valid()
      modifies dtcs
      ensures Valid() && View() == Step(old(View()), ClearGroup(mask))
    {
      hide InGroup, WellFormed;
      StepWellFormed(View(), ClearGroup(mask));
      var i := 0;
      while i < count
        invariant i <= count
        invariant forall k | 0 <= k < i :: dtcs[k] == Changed(old(dtcs[k]), ClearGroup(mask))
        invariant forall k | i <= k < count :: dtcs[k] == old(dtcs[k])
      {
        if InGroup(dtcs[i].code, mask) {
          dtcs[i] := dtcs[i].(status := UNTESTED, snapshot := []);
        }
        i := i + 1;
      }
      assert dtcs[..count] == Step(old(View()), ClearGroup(mask));
    }

    method UpdateOpCycle()
      requires Valid()
      modifies dtcs
      ensures Valid() && View() == Step(old(View()), NewCycle)
    {
      hide WellFormed;
      StepWellFormed(View(), NewCycle);
      var i := 0;
      while i < count
        invariant i <= count
        invariant forall k | 0 <= k < i :: dtcs[k] == Changed(old(dtcs[k]), NewCycle)
        invariant forall k | i <= k < count :: dtcs[k] == old(dtcs[k])
      {
        var status := dtcs[i].status & !FAILED_THIS_CYCLE;
        dtcs[i] := dtcs[i].(status := status | NOT_COMPLETED_THIS_CYCLE);
        i := i + 1;
      }
      assert dtcs[..count] == Step(old(View()), NewCycle);
    }

    /** `None` stands for a null data pointer. */
    method SetSnapshot(code: bv32, data: Option<seq<bv8>>) returns (ok: bool)
      requires Valid()
      modifies dtcs
      ensures Valid() && ok == (data.Some? && Known(old(View()), Key(code)))
      ensures View() == if data.None? then old(View()) else Step(old(View()), Snapshot(code, data.value))
    {
      hide Key, Find, WellFormed, Changed, Step;
      var at := FindEntry(code);
      if data.None? {
        return false;
      }
      StepWellFormed(View(), Snapshot(code, data.value));
      SnapshotAt(View(), code, data.value, at);
      if at == count {
        return false;
      }
      dtcs[at] := dtcs[at].(snapshot := data.value[..Min(|data.value|, MAX_SNAPSHOT)]);
      assert dtcs[..count] == Step(old(View()), Snapshot(code, data.value));
      ok := true;
    }

    method CountByStatus(mask: bv8) returns (n: nat)
      requires Valid()
      ensures n == |Matching(View(), mask)|
    {
      hide Matches, WellFormed;
      n := 0;
      var i := 0;
      while i < count
        invariant i <= count && n == |Matching(dtcs[..i], mask)|
      {
        assert dtcs[..i + 1][..i] == dtcs[..i];
        if Matches(dtcs[i], mask) {
          n := n + 1;
        }
        i := i + 1;
      }
    }
  }

  /** With unique codes, an event about one code is an update of the first entry that has it. */
  lemma OnlyAt(store: seq<Entry>, ev: Event, at: nat)
    requires ev.Test? || ev.Snapshot?
    requires forall i, j | 0 <= i < j < |store| :: store[i].code != store[j].code
    requires at == Find(store, Key(ev.code))
    ensures Step(store, ev) == if at < |store| then store[at := Changed(store[at], ev)] else store
  {
    hide Key, AfterTest, Find, Changed;
    forall i | 0 <= i < |store| && i != at ensures Changed(store[i], ev) == store[i] {
      assert i < at || store[at].code != store[i].code;
      OtherCodeUnchanged(store[i], ev);
    }
  }

  lemma SnapshotAt(store: seq<Entry>, code: bv32, data: seq<bv8>, at: nat)
    requires WellFormed(store) && at == Find(store, Key(code))
    ensures Step(store, Snapshot(code, data)) ==
            if at < |store| then store[at := store[at].(snapshot := data[..Min(|data|, MAX_SNAPSHOT)])] else store
  {
    hide Key, Step;
    OnlyAt(store, Snapshot(code, data), at);
  }

  lemma OtherCodeUnchanged(e: Entry, ev: Event)
    requires (ev.Test? || ev.Snapshot?) && e.code != Key(ev.code)
    ensures Changed(e, ev) == e
  {
    hide Key, AfterTest;
  }
}
