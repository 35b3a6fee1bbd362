/** ReadDTCInformation: counting and listing the trouble codes that match a status mask. */
module DtcReport {
  import opened Words
  import opened DtcStore
  import opened DtcManagement

  const COUNT_BY_MASK: bv8 := 0x01
  const LIST_BY_MASK: bv8 := 0x02
  const LIST_SUPPORTED: bv8 := 0x0A

  const BAD_LENGTH: bv8 := 0x13
  const BAD_SUB_FUNCTION: bv8 := 0x12

  /** One line of a report. */
  datatype Line = Line(code: bv32, status: bv8)

  /** Bits 8k to 8k + 7 of a code. */
  function CodeByte(code: bv32, k: nat): bv8
    requires k < 3
  {
    match k
    case 0 => (code & 0xFF) as bv8
    case 1 => ((code >> 8) & 0xFF) as bv8
    case 2 => ((code >> 16) & 0xFF) as bv8
  }

  function CodeOf(high: bv8, mid: bv8, low: bv8): bv32 {
    ((high as bv32) << 16) | ((mid as bv32) << 8) | (low as bv32)
  }

  lemma CodeRoundTrip(code: bv32)
    ensures CodeOf(CodeByte(code, 2), CodeByte(code, 1), CodeByte(code, 0)) == Key(code)
  {}

  /** The part of a status byte that a mask asks for. */
  function Masked(status: bv8, mask: bv8): bv8 { status & mask }

  function LineOf(e: Entry, mask: bv8): Line { Line(e.code, Masked(e.status, mask)) }

  function Lines(es: seq<Entry>, mask: bv8): seq<Line> { seq(|es|, i requires 0 <= i < |es| => LineOf(es[i], mask)) }

  /** The four bytes that stand for an entry. */
  function Spell(e: Entry, mask: bv8): seq<bv8> {
    [CodeByte(e.code, 2), CodeByte(e.code, 1), CodeByte(e.code, 0), Masked(e.status, mask)]
  }

  function Wire(es: seq<Entry>, mask: bv8): (r: seq<bv8>)
    ensures |r| == 4 * |es|
  {
    if es == [] then [] else Wire(es[..|es| - 1], mask) + Spell(es[|es| - 1], mask)
  }

  /** What a client reads from the bytes of a report. */
  function Decode(bytes: seq<bv8>): seq<Line> {
    if |bytes| < 4 then []
    else
      var n := |bytes|;
      Decode(bytes[..n - 4]) + [Line(CodeOf(bytes[n - 4], bytes[n - 3], bytes[n - 2]), bytes[n - 1])]
  }

  /** How many entries fit behind the three header bytes. */
  function Room(max: nat): nat
    requires max >= 3
  {
    (max - 3) / 4
  }

  /** The matching entries that a buffer of `max` bytes has room for. */
  function Listed(store: seq<Entry>, mask: bv8, max: nat): seq<Entry>
    requires max >= 3
  {
    var all := Matching(store, mask);
    all[..Min(|all|, Room(max))]
  }

  function Refusal(nrc: bv8): seq<bv8> { [0x7F, 0x19, nrc] }

  function CountAnswer(n: nat): seq<bv8> {
    [0x59, COUNT_BY_MASK, 0xFF, 0x01, (n / 256 % 256) as bv8, (n % 256) as bv8]
  }

  predicate Lists(sub: bv8) { sub == LIST_BY_MASK || sub == LIST_SUPPORTED }

  /** The response to a request in a buffer of `max` bytes. */
  function Answer(store: seq<Entry>, req: seq<bv8>, max: nat): seq<bv8>
    requires max >= 6
  {
    if |req| < 2 then Refusal(BAD_LENGTH)
    else if req[1] == COUNT_BY_MASK || Lists(req[1]) then
      if |req| < 3 then Refusal(BAD_LENGTH)
      else if Lists(req[1]) then [0x59, req[1], 0xFF] + Wire(Listed(store, req[2], max), req[2])
      else CountAnswer(|Matching(store, req[2])|)
    else Refusal(BAD_SUB_FUNCTION)
  }

  class ReadDtcInformation {
    const manager: DtcManager

    constructor (manager: DtcManager)
      ensures this.manager == manager
    {
      this.manager := manager;
    }

    /** Writes one record, or reports that it does not fit. */
    method WriteDtc(e: Entry, mask: bv8, resp: array<bv8>, pos: nat) returns (ok: bool, next: nat)
      requires pos <= resp.Length
      modifies resp
      ensures ok <==> pos + 4 <= resp.Length
      ensures next == if ok then pos + 4 else pos
      ensures resp[..next] == old(resp[..pos]) + if ok then Spell(e, mask) else []
    {
      hide CodeByte, Masked;
      if pos + 4 > resp.Length {
        return false, pos;
      }
      resp[pos] := CodeByte(e.code, 2);
      resp[pos + 1] := CodeByte(e.code, 1);
      resp[pos + 2] := CodeByte(e.code, 0);
      resp[pos + 3] := Masked(e.status, mask);
      assert resp[..pos + 4] == old(resp[..pos]) + Spell(e, mask);
      ok, next := true, pos + 4;
    }

    /** The iteration over matching entries, which stops at the first one that does not fit. */
    method WriteList(mask: bv8, resp: array<bv8>) returns (pos: nat)
      requires manager.Valid() && resp.Length >= 3
      requires resp as object != manager.dtcs as object
      modifies resp
      ensures pos <= resp.Length
      ensures resp[..pos] == old(resp[..3]) + Wire(Listed(manager.View(), mask, resp.Length), mask)
    {
      hide Matches, Matching, WellFormed, Spell, Wire, Listed;
      ghost var store := manager.View();
      ghost var header := resp[..3];
      ghost var done: seq<Entry> := [];
      EmptyWire(mask);
      pos := 3;
      var i := 0;
      while i < manager.count
        invariant i <= manager.count && manager.Valid() && manager.View() == store
        invariant done == Matching(store[..i], mask)
        invariant pos == 3 + 4 * |done| <= resp.Length
        invariant resp[..pos] == header + Wire(done, mask)
      {
        var e := manager.dtcs[i];
        MatchingNext(store, mask, i);
        if Matches(e, mask) {
          var ok;
          ok, pos := WriteDtc(e, mask, resp, pos);
          if !ok {
            StoppedAt(store, mask, i, resp.Length);
            return;
          }
          WireSnoc(done, e, mask);
          done := done + [e];
        }
        i := i + 1;
      }
      assert store[..i] == store;
      AllListed(store, mask, resp.Length);
    }

    method Handle(req: seq<bv8>, resp: array<bv8>) returns (len: nat)
      requires manager.Valid() && resp.Length >= 6
      requires resp as object != manager.dtcs as object
      modifies resp
      ensures len <= resp.Length
      ensures resp[..len] == Answer(manager.View(), req, resp.Length)
    {
      hide Matches, WellFormed, Matching, Wire, Listed;
      if |req| < 2 {
        len := Refuse(resp, BAD_LENGTH);
        return;
      }
      var sub := req[1];
      resp[0], resp[1] := 0x59, sub;
      if sub == COUNT_BY_MASK {
        if |req| < 3 {
          len := Refuse(resp, BAD_LENGTH);
          return;
        }
        var n := manager.CountByStatus(req[2]);
        resp[2], resp[3] := 0xFF, 0x01;
        resp[4], resp[5] := (n / 256 % 256) as bv8, (n % 256) as bv8;
        len := 6;
      } else if sub == LIST_BY_MASK || sub == LIST_SUPPORTED {
        if |req| < 3 {
          len := Refuse(resp, BAD_LENGTH);
          return;
        }
        resp[2] := 0xFF;
        assert resp[..3] == [0x59, sub, 0xFF];
        len := WriteList(req[2], resp);
      } else {
        len := Refuse(resp, BAD_SUB_FUNCTION);
      }
    }

    method Refuse(resp: array<bv8>, nrc: bv8) returns (len: nat)
      requires resp.Length >= 3
      modifies resp
      ensures len == 3 && resp[..len] == Refusal(nrc)
    {
      resp[0], resp[1], resp[2] := 0x7F, 0x19, nrc;
      len := 3;
    }
  }

  lemma EmptyWire(mask: bv8)
    ensures Wire([], mask) == []
  {}

  lemma WireSnoc(es: seq<Entry>, e: Entry, mask: bv8)
    ensures Wire(es + [e], mask) == Wire(es, mask) + Spell(e, mask)
  {
    assert (es + [e])[..|es|] == es;
  }

  lemma RoomExact(max: nat, n: nat)
    requires max >= 3
    ensures 3 + 4 * n <= max <==> n <= Room(max)
  {}

  lemma {:induction false} MatchingPrefix(store: seq<Entry>, mask: bv8, i: nat)
    requires i <= |store|
    ensures Matching(store[..i], mask) <= Matching(store, mask)
  {
    hide Matches;
    if i == |store| {
      assert store[..i] == store;
    } else {
      var init := store[..|store| - 1];
      MatchingPrefix(init, mask, i);
      assert init[..i] == store[..i];
    }
  }

  lemma MatchingNext(store: seq<Entry>, mask: bv8, i: nat)
    requires i < |store|
    ensures Matching(store[..i + 1], mask) ==
            Matching(store[..i], mask) + if Matches(store[i], mask) then [store[i]] else []
  {
    hide Matches;
    assert store[..i + 1][..i] == store[..i];
  }

  lemma AllListed(store: seq<Entry>, mask: bv8, max: nat)
    requires max >= 3
    ensures 3 + 4 * |Matching(store, mask)| <= max <==> Listed(store, mask, max) == Matching(store, mask)
    ensures 3 + 4 * |Listed(store, mask, max)| <= max
  {
    RoomExact(max, |Matching(store, mask)|);
    RoomExact(max, |Listed(store, mask, max)|);
    hide Matching, Room;
  }

  /** The entry at `i` matches and does not fit: what was written before is all that is listed. */
  lemma StoppedAt(store: seq<Entry>, mask: bv8, i: nat, max: nat)
    requires i < |store| && Matches(store[i], mask) && max >= 3
    requires 3 + 4 * |Matching(store[..i], mask)| <= max < 7 + 4 * |Matching(store[..i], mask)|
    ensures Listed(store, mask, max) == Matching(store[..i], mask)
  {
    MatchingNext(store, mask, i);
    MatchingPrefix(store, mask, i + 1);
    RoomExact(max, |Matching(store[..i], mask)|);
    RoomExact(max, |Matching(store[..i], mask)| + 1);
    hide Matches, Matching, Room;
  }

  lemma {:induction false} DecodeWire(es: seq<Entry>, mask: bv8)
    requires forall e <- es :: e.code == Key(e.code)
    ensures Decode(Wire(es, mask)) == Lines(es, mask)
  {
    hide Decode, Wire, Spell, Key;
    if es == [] {
      EmptyWire(mask);
      DecodeNothing();
    } else {
      var init, e := es[..|es| - 1], es[|es| - 1];
      assert es == init + [e] && e in es;
      DecodeWire(init, mask);
      WireSnoc(init, e, mask);
      DecodeSnoc(Wire(init, mask), e, mask);
      assert Lines(es, mask) == Lines(init, mask) + [LineOf(e, mask)];
    }
  }

  lemma DecodeNothing()
    ensures Decode([]) == []
  {}

  lemma DecodeSnoc(bytes: seq<bv8>, e: Entry, mask: bv8)
    requires e.code == Key(e.code)
    ensures Decode(bytes + Spell(e, mask)) == Decode(bytes) + [LineOf(e, mask)]
  {
    CodeRoundTrip(e.code);
    hide CodeByte, CodeOf, Key, Masked;
    assert (bytes + Spell(e, mask))[..|bytes|] == bytes;
  }

  /** What a client decodes from a listing, for every reachable store and every buffer: the matching
      codes in registration order, as many as fit. */
  lemma ListingDecodes(evs: seq<Event>, req: seq<bv8>, max: nat)
    requires |req| >= 3 && Lists(req[1]) && max >= 6
    ensures var answer := Answer(Run(evs), req, max);
            && 3 <= |answer| <= max
            && Decode(answer[3..]) == Lines(Listed(Run(evs), req[2], max), req[2])
            && (Listed(Run(evs), req[2], max) == Matching(Run(evs), req[2])
                <==> 3 + 4 * |Matching(Run(evs), req[2])| <= max)
  {
    hide Run, Matching, Decode, Wire, Lines, Listed, Key;
    var store := Run(evs);
    var listed := Listed(store, req[2], max);
    MatchingIsWellFormed(evs, req[2]);
    ListedIsMatching(store, req[2], max);
    DecodeWire(listed, req[2]);
    assert Answer(store, req, max)[3..] == Wire(listed, req[2]);
    AllListed(store, req[2], max);
  }

  lemma ListedIsMatching(store: seq<Entry>, mask: bv8, max: nat)
    requires max >= 3
    ensures forall e <- Listed(store, mask, max) :: e in Matching(store, mask)
  {
    hide Matching, Room;
  }

  lemma MatchingIsWellFormed(evs: seq<Event>, mask: bv8)
    ensures forall e <- Matching(Run(evs), mask) :: e.code == Key(e.code)
    ensures |Matching(Run(evs), mask)| <= MAX_DTCS
  {
    RunWellFormed(evs);
    hide Run, Matches, Key;
  }

  /** The number in the answer to a count request. */
  function CountIn(answer: seq<bv8>): nat
    requires |answer| == 6
  {
    answer[4] as nat * 256 + answer[5] as nat
  }

  lemma CountRoundTrip(n: nat)
    requires n < 256
    ensures CountIn(CountAnswer(n)) == n
  {
    assert n / 256 == 0 && n % 256 == n;
  }

  /** With the server's response buffer no listing is cut short, and it has as many lines as the count
      request for the same mask announces. */
  lemma CountAgrees(evs: seq<Event>, list: seq<bv8>, count: seq<bv8>, max: nat)
    requires |list| >= 3 && Lists(list[1]) && max >= 3 + 4 * MAX_DTCS
    requires |count| >= 3 && count[1] == COUNT_BY_MASK && count[2] == list[2]
    ensures var store := Run(evs);
            var answer := Answer(store, count, max);
            && |answer| == 6 && CountIn(answer) == |Decode(Answer(store, list, max)[3..])|
            && Decode(Answer(store, list, max)[3..]) == Lines(Matching(store, list[2]), list[2])
  {
    ListingDecodes(evs, list, max);
    MatchingIsWellFormed(evs, list[2]);
    CountRoundTrip(|Matching(Run(evs), list[2])|);
    hide Run, Matching, Decode, Wire, CountIn, Listed;
  }

  /** A listing tells the history of every code: a code is listed exactly when it is registered and its
      history has one of the asked-for status bits, and the line shows those bits. */
  lemma ListingTellsHistory(evs: seq<Event>, req: seq<bv8>, max: nat, line: Line)
    requires |req| >= 3 && Lists(req[1]) && max >= 3 + 4 * MAX_DTCS
    ensures line in Decode(Answer(Run(evs), req, max)[3..]) <==>
            Known(Run(evs), line.code) && Shows(StatusFromHistory(evs, line.code), req[2], line.status)
  {
    hide Run, Decode, Wire, StatusFromHistory, WellFormed, Find, Answer, Listed, Matching, Lines, Shows;
    var store, mask := Run(evs), req[2];
    ListingDecodes(evs, req, max);
    MatchingIsWellFormed(evs, mask);
    RunWellFormed(evs);
    LineOfStore(store, mask, line);
    if Known(store, line.code) {
      StatusIsHistory(evs, line.code);
    }
  }

  /** A status is asked for by a mask, and `shown` is the asked-for part of it. */
  predicate Shows(status: bv8, mask: bv8, shown: bv8) {
    (mask == 0xFF || Masked(status, mask) != 0) && shown == Masked(status, mask)
  }

  lemma ShowsLine(e: Entry, mask: bv8, line: Line)
    ensures e.code == line.code && Shows(e.status, mask, line.status) <==> Matches(e, mask) && line == LineOf(e, mask)
  {}

  lemma LineOfStore(store: seq<Entry>, mask: bv8, line: Line)
    requires WellFormed(store)
    ensures line in Lines(Matching(store, mask), mask) <==>
            Known(store, line.code) && Shows(store[Find(store, line.code)].status, mask, line.status)
  {
    hide Matches, Key, LineOf, Shows, Matching;
    var all := Matching(store, mask);
    if line in Lines(all, mask) {
      var i: nat :| i < |all| && LineOf(all[i], mask) == line;
      var e := all[i];
      assert e in store && Matches(e, mask);
      ShowsLine(e, mask, line);
      var k: nat :| k < |store| && store[k] == e;
      IndexIs(Codes(store), line.code, k);
    }
    if Known(store, line.code) {
      var e := store[Find(store, line.code)];
      ShowsLine(e, mask, line);
      if Shows(e.status, mask, line.status) {
        assert e in all;
        var i: nat :| i < |all| && all[i] == e;
        assert Lines(all, mask)[i] == line;
      }
    }
  }

  // ---- In numbers ----

  lemma {:induction false} WireAt(es: seq<Entry>, mask: bv8, i: nat)
    requires i < |es|
    ensures Wire(es, mask)[4 * i..4 * i + 4] == Spell(es[i], mask)
  {
    hide Spell;
    if i < |es| - 1 {
      WireAt(es[..|es| - 1], mask, i);
      assert Wire(es, mask)[4 * i..4 * i + 4] == Wire(es[..|es| - 1], mask)[4 * i..4 * i + 4];
    }
  }

  /** From `p` on the answer has the three bytes of the entry's code, most significant first, and the
      asked-for part of its status. */
  predicate Shown(answer: seq<bv8>, p: nat, e: Entry, mask: bv8) {
    && p + 4 <= |answer|
    && (answer[p] as bv32) * 0x10000 + (answer[p + 1] as bv32) * 0x100 + answer[p + 2] as bv32 == e.code
    && answer[p + 3] == e.status & mask
  }

  lemma SpellShown(e: Entry, mask: bv8)
    requires e.code == Key(e.code)
    ensures Shown(Spell(e, mask), 0, e, mask)
  {}

  lemma ShownAt(answer: seq<bv8>, p: nat, e: Entry, mask: bv8)
    requires e.code == Key(e.code) && p + 4 <= |answer| && answer[p..p + 4] == Spell(e, mask)
    ensures Shown(answer, p, e, mask)
  {
    SpellShown(e, mask);
    hide Spell, Key;
    var four := answer[p..p + 4];
    assert four[0] == answer[p] && four[1] == answer[p + 1] && four[2] == answer[p + 2] && four[3] == answer[p + 3];
  }

  /** The answer to 19 01 as it stands on the wire: how many codes match the mask. */
  lemma CountOnTheWire(evs: seq<Event>, mask: bv8, max: nat)
    requires max >= 6
    ensures var answer := Answer(Run(evs), [0x19, 0x01, mask], max);
            && |answer| == 6 && answer[..4] == [0x59, 0x01, 0xFF, 0x01]
            && answer[4] as nat * 256 + answer[5] as nat == |Matching(Run(evs), mask)|
  {
    MatchingIsWellFormed(evs, mask);
    hide Run, Matching, Wire, Listed;
    CountRoundTrip(|Matching(Run(evs), mask)|);
  }

  /** The answer to 19 02 and 19 0A as it stands on the wire, in the server's response buffer: the codes that
      match the mask, in the order of their registration, in four bytes each. */
  lemma ListOnTheWire(evs: seq<Event>, sub: bv8, mask: bv8, max: nat)
    requires (sub == 0x02 || sub == 0x0A) && max >= 3 + 4 * MAX_DTCS
    ensures var matching := Matching(Run(evs), mask);
            var answer := Answer(Run(evs), [0x19, sub, mask], max);
            && |answer| == 3 + 4 * |matching| && answer[..3] == [0x59, sub, 0xFF]
            && forall i | 0 <= i < |matching| :: Shown(answer, 3 + 4 * i, matching[i], mask)
  {
    MatchingIsWellFormed(evs, mask);
    hide Run, Matching, Wire, Shown, Spell, Listed, Key, CountAnswer;
    var matching := Matching(Run(evs), mask);
    AllListed(Run(evs), mask, max);
    var answer := Answer(Run(evs), [0x19, sub, mask], max);
    assert answer == [0x59, sub, 0xFF] + Wire(matching, mask);
    forall i | 0 <= i < |matching| ensures Shown(answer, 3 + 4 * i, matching[i], mask) {
      assert matching[i] in matching;
      WireAt(matching, mask, i);
      assert answer[3 + 4 * i..3 + 4 * i + 4] == Wire(matching, mask)[4 * i..4 * i + 4];
      ShownAt(answer, 3 + 4 * i, matching[i], mask);
    }
  }

  /** Every other request is refused: for its sub-function, or for its length. */
  lemma RefusedOnTheWire(evs: seq<Event>, req: seq<bv8>, max: nat)
    requires max >= 6
    ensures var answer := Answer(Run(evs), req, max);
            && (|req| < 2 || (|req| == 2 && req[1] in {0x01, 0x02, 0x0A}) ==> answer == [0x7F, 0x19, 0x13])
            && (|req| >= 2 && req[1] !in {0x01, 0x02, 0x0A} ==> answer == [0x7F, 0x19, 0x12])
  {
    hide Run, Wire, Listed, CountAnswer, Matching;
  }
}
