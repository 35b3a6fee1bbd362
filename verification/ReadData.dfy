/** ReadDataByIdentifier: one response assembled from the data of several identifiers. */
module ReadData {
  import opened Words

  const MAX_IDENTIFIERS := 64

  const BAD_LENGTH: Byte := 0x13
  const TOO_LONG: Byte := 0x14
  const NOT_CORRECT: Byte := 0x22
  const OUT_OF_RANGE: Byte := 0x31

  /** What the read callbacks write during one request: for the `i`-th identifier asked for, given the
      room that is left. The same callback may answer differently at each call, but it never writes more
      than there is room for. */
  type Writes = f: (nat, nat) -> seq<Byte> | forall i: nat, room: nat :: |f(i, room)| <= room
    witness ((_, _) => [])

  /** `readable` tells whether the entry has a read callback. */
  datatype Entry = Entry(did: nat, readable: bool)

  datatype Reply = Positive(bytes: seq<Byte>) | Refused(nrc: Byte)

  function Dids(table: seq<Entry>): seq<nat> { seq(|table|, i requires 0 <= i < |table| => table[i].did) }

  /** Index of the first entry for an identifier, or the number of entries. */
  function Find(table: seq<Entry>, did: nat): (i: nat)
    ensures i <= |table|
    ensures i < |table| ==> table[i].did == did
    ensures forall k | 0 <= k < i :: table[k].did != did
  {
    assert forall k | 0 <= k < |table| :: table[k].did == Dids(table)[k];
    IndexOf(Dids(table), did)
  }

  function Number(high: Byte, low: Byte): nat { high as int * 256 + low }

  /** The `i`-th identifier of a request. */
  function Asked(req: seq<Byte>, i: nat): nat
    requires 2 + 2 * i < |req|
  {
    Number(req[1 + 2 * i], req[2 + 2 * i])
  }

  function Head(did: nat): seq<Byte> { [did / 256 % 256, did % 256] }

  /** The response with the `i`-th identifier behind `out`. */
  function Extended(table: seq<Entry>, did: nat, i: nat, wrote: Writes, out: seq<Byte>, max: nat): Reply
    requires |out| <= max
  {
    var at := Find(table, did);
    if at == |table| then Refused(OUT_OF_RANGE)
    else if !table[at].readable then Refused(NOT_CORRECT)
    else if |out| + 3 > max then Refused(TOO_LONG)
    else
      var data := wrote(i, max - |out| - 2);
      if data == [] then Refused(NOT_CORRECT) else Positive(out + Head(did) + data)
  }

  /** The response after the first `k` identifiers of the request. */
  function Assembled(table: seq<Entry>, req: seq<Byte>, wrote: Writes, k: nat, max: nat): (r: Reply)
    requires max >= 3 && 2 * k < |req|
    ensures r.Positive? ==> 1 + 3 * k <= |r.bytes| <= max
  {
    if k == 0 then Positive([0x62])
    else
      match Assembled(table, req, wrote, k - 1, max)
      case Refused(nrc) => Refused(nrc)
      case Positive(out) => Extended(table, Asked(req, k - 1), k - 1, wrote, out, max)
  }

  predicate WellFormed(req: seq<Byte>) { |req| >= 3 && (|req| - 1) % 2 == 0 }

  function Answer(table: seq<Entry>, req: seq<Byte>, wrote: Writes, max: nat): Reply
    requires max >= 3
  {
    if !WellFormed(req) then Refused(BAD_LENGTH) else Assembled(table, req, wrote, (|req| - 1) / 2, max)
  }

  /** The bytes of a reply. */
  function Spelled(r: Reply): seq<Byte> {
    match r
    case Positive(bytes) => bytes
    case Refused(nrc) => [0x7F, 0x22, nrc]
  }

  class ReadDataByIdentifierService {
    const dids: array<Entry>
    var count: nat

    ghost predicate Valid()
      reads this
    {
      dids.Length == MAX_IDENTIFIERS && count <= MAX_IDENTIFIERS
    }

    ghost function View(): seq<Entry>
      requires Valid()
      reads this, dids
    {
      dids[..count]
    }

    constructor ()
      ensures Valid() && View() == [] && fresh(dids)
    {
      dids := new Entry[MAX_IDENTIFIERS](_ => Entry(0, false));
      count := 0;
    }

    method RegisterDid(e: Entry) returns (ok: bool)
      requires Valid()
      modifies this, dids
      ensures Valid() && (ok <==> old(count) < MAX_IDENTIFIERS)
      ensures View() == old(View()) + if ok then [e] else []
    {
      if count >= MAX_IDENTIFIERS {
        return false;
      }
      dids[count] := e;
      count := count + 1;
      ok := true;
    }

    method FindDid(did: nat) returns (i: nat)
      requires Valid()
      ensures i == Find(View(), did)
    {
      i := 0;
      while i < count
        invariant i <= count
        invariant forall k | 0 <= k < i :: dids[k].did != did
      {
        if dids[i].did == did {
          break;
        }
        i := i + 1;
      }
      IndexIs(Dids(View()), did, i);
    }

    method Handle(req: seq<Byte>, wrote: Writes, resp: array<Byte>) returns (len: nat)
      requires Valid() && resp.Length >= 3 && resp as object != dids as object
      modifies resp
      ensures len <= resp.Length && resp[..len] == Spelled(Answer(View(), req, wrote, resp.Length))
    {
      hide Find, Asked, Assembled, Extended;
      if |req| < 3 || (|req| - 1) % 2 != 0 {
        len := Refuse(resp, BAD_LENGTH);
        return;
      }
      var n := (|req| - 1) / 2;
      resp[0] := 0x62;
      var pos := 1;
      assert resp[..pos] == [0x62];
      AssembledFirst(View(), req, wrote, resp.Length);
      var i := 0;
      while i < n
        invariant i <= n && 1 <= pos <= resp.Length && Valid()
        invariant Assembled(View(), req, wrote, i, resp.Length) == Positive(resp[..pos])
      {
        AssembledNext(View(), req, wrote, i, resp.Length);
        var nrc;
        nrc, pos := Append(req, i, wrote, resp, pos);
        i := i + 1;
        if nrc.Some? {
          StaysRefused(View(), req, wrote, i, n, resp.Length);
          len := Refuse(resp, nrc.value);
          return;
        }
      }
      len := pos;
    }

    /** One turn of the loop: the code to refuse with, or the new end of the response. */
    method Append(req: seq<Byte>, i: nat, wrote: Writes, resp: array<Byte>, pos: nat)
      returns (nrc: Option<Byte>, end: nat)
      requires Valid() && resp.Length >= 3 && resp as object != dids as object
      requires 1 <= pos <= resp.Length && 2 + 2 * i < |req|
      modifies resp
      ensures pos <= end <= resp.Length
      ensures Extended(View(), Asked(req, i), i, wrote, old(resp[..pos]), resp.Length)
              == if nrc.Some? then Refused(nrc.value) else Positive(resp[..end])
    {
      hide Find, Head, Number;
      end := pos;
      var did := Number(req[1 + i * 2], req[2 + i * 2]);
      var at := FindDid(did);
      if at == count {
        return Some(OUT_OF_RANGE), end;
      }
      if !dids[at].readable {
        return Some(NOT_CORRECT), end;
      }
      if pos + 2 > resp.Length - 1 {
        return Some(TOO_LONG), end;
      }
      var data := wrote(i, resp.Length - pos - 2);
      WriteItem(did, data, resp, pos);
      if data == [] {
        return Some(NOT_CORRECT), end;
      }
      nrc, end := None, pos + 2 + |data|;
    }

    /** Writes the identifier, behind which the callback has written its data. */
    method WriteItem(did: nat, data: seq<Byte>, resp: array<Byte>, pos: nat)
      requires pos + 2 + |data| <= resp.Length
      modifies resp
      ensures resp[..pos + 2 + |data|] == old(resp[..pos]) + Head(did) + data
    {
      resp[pos], resp[pos + 1] := did / 256 % 256, did % 256;
      forall j | 0 <= j < |data| {
        resp[pos + 2 + j] := data[j];
      }
      assert resp[..pos + 2 + |data|] == old(resp[..pos]) + Head(did) + data;
    }

    method Refuse(resp: array<Byte>, nrc: Byte) returns (len: nat)
      requires resp.Length >= 3
      modifies resp
      ensures len == 3 && resp[..len] == Spelled(Refused(nrc))
    {
      resp[0], resp[1], resp[2] := 0x7F, 0x22, nrc;
      len := 3;
    }
  }

  lemma AssembledFirst(table: seq<Entry>, req: seq<Byte>, wrote: Writes, max: nat)
    requires max >= 3 && |req| > 0
    ensures Assembled(table, req, wrote, 0, max) == Positive([0x62])
  {}

  lemma AssembledNext(table: seq<Entry>, req: seq<Byte>, wrote: Writes, k: nat, max: nat)
    requires max >= 3 && 2 + 2 * k < |req| && Assembled(table, req, wrote, k, max).Positive?
    ensures Assembled(table, req, wrote, k + 1, max)
            == Extended(table, Asked(req, k), k, wrote, Assembled(table, req, wrote, k, max).bytes, max)
  {
    hide Asked, Extended;
  }

  lemma {:induction false} StaysRefused(table: seq<Entry>, req: seq<Byte>, wrote: Writes, i: nat, n: nat, max: nat)
    requires max >= 3 && i <= n && 2 * n < |req| && Assembled(table, req, wrote, i, max).Refused?
    ensures Assembled(table, req, wrote, n, max) == Assembled(table, req, wrote, i, max)
    decreases n
  {
    if i < n {
      StaysRefused(table, req, wrote, i, n - 1, max);
    }
    hide Extended, Asked;
  }

  // ---- The layout of a response ----

  /** The whole response with these values, as ISO 14229-1 lays it out. */
  function Layout(req: seq<Byte>, values: seq<seq<Byte>>, k: nat): seq<Byte>
    requires k <= |values| && 2 * k < |req|
  {
    if k == 0 then [0x62] else Layout(req, values, k - 1) + Head(Asked(req, k - 1)) + values[k - 1]
  }

  /** The `i`-th identifier is known and readable, its head fits behind the values before it, and its
      callback writes `values[i]`, which is not empty, into the room that is left. */
  predicate ServesOne(table: seq<Entry>, req: seq<Byte>, wrote: Writes, values: seq<seq<Byte>>, i: nat, max: nat)
    requires i < |values| && 2 * |values| < |req|
  {
    var at, used := Find(table, Asked(req, i)), |Layout(req, values, i)|;
    && at < |table| && table[at].readable
    && used + 3 <= max && values[i] == wrote(i, max - used - 2) && values[i] != []
  }

  ghost predicate Serves(table: seq<Entry>, req: seq<Byte>, wrote: Writes, values: seq<seq<Byte>>, max: nat) {
    2 * |values| < |req| && forall i | 0 <= i < |values| :: ServesOne(table, req, wrote, values, i, max)
  }

  lemma LayoutFits(table: seq<Entry>, req: seq<Byte>, wrote: Writes, values: seq<seq<Byte>>, max: nat)
    requires max >= 3 && Serves(table, req, wrote, values, max)
    ensures |Layout(req, values, |values|)| <= max
  {
    hide Asked, Head, Find;
    var k := |values|;
    if k > 0 {
      assert ServesOne(table, req, wrote, values, k - 1, max);
      HeadLength(Asked(req, k - 1));
    }
  }

  lemma SameService(table: seq<Entry>, req: seq<Byte>, wrote: Writes, a: seq<seq<Byte>>, b: seq<seq<Byte>>, i: nat,
                    max: nat)
    requires i < |a| && i < |b| && 2 * |a| < |req| && 2 * |b| < |req| && a[..i + 1] == b[..i + 1]
    ensures ServesOne(table, req, wrote, a, i, max) <==> ServesOne(table, req, wrote, b, i, max)
    ensures Layout(req, a, i) == Layout(req, b, i)
  {
    assert a[i] == a[..i + 1][i] && b[i] == b[..i + 1][i];
    assert a[..i] == a[..i + 1][..i] && b[..i] == b[..i + 1][..i];
    SameLayout(req, a, b, i);
    hide Layout, Asked, Find;
  }

  lemma ServesPrefix(table: seq<Entry>, req: seq<Byte>, wrote: Writes, init: seq<seq<Byte>>, last: seq<Byte>,
                     max: nat)
    requires 2 * |init| + 2 < |req|
    ensures Serves(table, req, wrote, init + [last], max) <==>
            && Serves(table, req, wrote, init, max)
            && ServesOne(table, req, wrote, init + [last], |init|, max)
    ensures Layout(req, init + [last], |init|) == Layout(req, init, |init|)
  {
    hide ServesOne, Layout, Asked;
    var values := init + [last];
    SameLayout(req, values, init, |init|);
    forall i | 0 <= i < |init|
      ensures ServesOne(table, req, wrote, values, i, max) <==> ServesOne(table, req, wrote, init, i, max)
    {
      assert values[..i + 1] == init[..i + 1];
      SameService(table, req, wrote, values, init, i, max);
    }
  }

  lemma ExtendedServes(table: seq<Entry>, req: seq<Byte>, wrote: Writes, init: seq<seq<Byte>>, last: seq<Byte>,
                       max: nat)
    requires 2 * |init| + 2 < |req| && |Layout(req, init, |init|)| <= max
    ensures ServesOne(table, req, wrote, init + [last], |init|, max) <==>
            Extended(table, Asked(req, |init|), |init|, wrote, Layout(req, init, |init|), max)
            == Positive(Layout(req, init, |init|) + Head(Asked(req, |init|)) + last) && last != []
  {
    hide Asked, Find, Layout, Head;
    SameLayout(req, init + [last], init, |init|);
    var out := Layout(req, init, |init|);
    var data := if |out| + 3 <= max then wrote(|init|, max - |out| - 2) else [];
    TailDetermined(out + Head(Asked(req, |init|)), last, data);
  }

  lemma TailDetermined(head: seq<Byte>, a: seq<Byte>, b: seq<Byte>)
    ensures head + a == head + b <==> a == b
  {
    assert (head + a)[|head|..] == a && (head + b)[|head|..] == b;
  }

  /** A response is positive exactly when there are values that serve every identifier, and then it lays
      those values out. Nothing is assumed of the callbacks. */
  lemma {:induction false} PositiveIff(table: seq<Entry>, req: seq<Byte>, wrote: Writes, k: nat, max: nat)
    returns (values: seq<seq<Byte>>)
    requires max >= 3 && 2 * k < |req|
    ensures |values| == k
    ensures Assembled(table, req, wrote, k, max).Positive? <==> Serves(table, req, wrote, values, max)
    ensures Serves(table, req, wrote, values, max) ==>
              Assembled(table, req, wrote, k, max) == Positive(Layout(req, values, k))
    ensures forall others | |others| == k && Serves(table, req, wrote, others, max) :: others == values
  {
    hide Extended, ServesOne, Asked, Serves, Layout, Assembled;
    if k == 0 {
      values := [];
      NothingAsked(table, req, wrote, max);
    } else {
      var init := PositiveIff(table, req, wrote, k - 1, max);
      var last := LastValue(table, req, wrote, init, max);
      values := init + [last];
      PositiveStep(table, req, wrote, init, last, max);
      forall others | |others| == k && Serves(table, req, wrote, others, max) ensures others == values {
        var others', other := others[..k - 1], others[k - 1];
        assert others == others' + [other];
        ServesPrefix(table, req, wrote, others', other, max);
        SameLast(table, req, wrote, init, other, last, max);
      }
    }
  }

  lemma NothingAsked(table: seq<Entry>, req: seq<Byte>, wrote: Writes, max: nat)
    requires max >= 3 && |req| > 0
    ensures Assembled(table, req, wrote, 0, max) == Positive(Layout(req, [], 0)) && Serves(table, req, wrote, [], max)
  {}

  /** What the next callback writes. */
  function LastValue(table: seq<Entry>, req: seq<Byte>, wrote: Writes, init: seq<seq<Byte>>, max: nat): seq<Byte>
    requires 2 * |init| + 2 < |req|
  {
    var used := |Layout(req, init, |init|)|;
    if used + 3 <= max then wrote(|init|, max - used - 2) else []
  }

  lemma SameLast(table: seq<Entry>, req: seq<Byte>, wrote: Writes, init: seq<seq<Byte>>, other: seq<Byte>,
                 last: seq<Byte>, max: nat)
    requires 2 * |init| + 2 < |req| && last == LastValue(table, req, wrote, init, max)
    requires ServesOne(table, req, wrote, init + [other], |init|, max)
    ensures other == last
  {
    SameLayout(req, init + [other], init, |init|);
    hide Asked, Find, Layout;
  }

  lemma LayoutSnoc(req: seq<Byte>, init: seq<seq<Byte>>, last: seq<Byte>)
    requires 2 * |init| + 2 < |req|
    ensures Layout(req, init + [last], |init| + 1)
            == Layout(req, init, |init|) + Head(Asked(req, |init|)) + last
  {
    SameLayout(req, init + [last], init, |init|);
    hide Asked, Head;
  }

  lemma PositiveStep(table: seq<Entry>, req: seq<Byte>, wrote: Writes, init: seq<seq<Byte>>, last: seq<Byte>,
                     max: nat)
    requires max >= 3 && 2 * |init| + 2 < |req| && last == LastValue(table, req, wrote, init, max)
    requires Assembled(table, req, wrote, |init|, max).Positive? <==> Serves(table, req, wrote, init, max)
    requires Serves(table, req, wrote, init, max) ==>
               Assembled(table, req, wrote, |init|, max) == Positive(Layout(req, init, |init|))
    ensures var r, values := Assembled(table, req, wrote, |init| + 1, max), init + [last];
            && (r.Positive? <==> Serves(table, req, wrote, values, max))
            && (r.Positive? ==> r == Positive(Layout(req, values, |init| + 1)))
  {
    hide Assembled, Serves, ServesOne, Layout, Extended, Asked, Head, LastValue;
    ServesPrefix(table, req, wrote, init, last, max);
    LayoutSnoc(req, init, last);
    if Serves(table, req, wrote, init, max) {
      LayoutFits(table, req, wrote, init, max);
      AssembledNext(table, req, wrote, |init|, max);
      ExtendedServes(table, req, wrote, init, last, max);
      ExtendedWrites(table, req, wrote, init, last, max);
    } else {
      StaysRefused(table, req, wrote, |init|, |init| + 1, max);
    }
  }

  lemma ExtendedWrites(table: seq<Entry>, req: seq<Byte>, wrote: Writes, init: seq<seq<Byte>>, last: seq<Byte>,
                       max: nat)
    requires 2 * |init| + 2 < |req| && |Layout(req, init, |init|)| <= max
    requires last == LastValue(table, req, wrote, init, max)
    ensures var out, did := Layout(req, init, |init|), Asked(req, |init|);
            var r := Extended(table, did, |init|, wrote, out, max);
            r.Positive? ==> last != [] && r == Positive(out + Head(did) + last)
  {
    hide Layout, Asked, Find, Head;
  }

  /** The same for a request as it arrives. */
  lemma AnswerIff(table: seq<Entry>, req: seq<Byte>, wrote: Writes, max: nat) returns (values: seq<seq<Byte>>)
    requires max >= 3 && WellFormed(req)
    ensures |req| == 1 + 2 * |values|
    ensures Answer(table, req, wrote, max).Positive? <==> Serves(table, req, wrote, values, max)
    ensures Serves(table, req, wrote, values, max) ==>
              Answer(table, req, wrote, max) == Positive(Layout(req, values, |values|))
    ensures forall others | |others| == |values| && Serves(table, req, wrote, others, max) :: others == values
  {
    values := PositiveIff(table, req, wrote, (|req| - 1) / 2, max);
  }

  // ---- Identifiers of a fixed length ----

  /** The `i`-th identifier is known and readable, and its callback has the non-empty `value`, which it
      writes if it fits and otherwise writes nothing. */
  ghost predicate Holds(table: seq<Entry>, req: seq<Byte>, wrote: Writes, i: nat, value: seq<Byte>)
    requires 2 + 2 * i < |req|
  {
    var at := Find(table, Asked(req, i));
    at < |table| && table[at].readable && value != []
    && forall room: nat :: wrote(i, room) == if |value| <= room then value else []
  }

  lemma ServesFixed(table: seq<Entry>, req: seq<Byte>, wrote: Writes, values: seq<seq<Byte>>, i: nat, max: nat)
    requires i < |values| && 2 * |values| < |req| && Holds(table, req, wrote, i, values[i])
    ensures ServesOne(table, req, wrote, values, i, max) <==> |Layout(req, values, i + 1)| <= max
  {
    HeadLength(Asked(req, i));
    assert Layout(req, values, i + 1) == Layout(req, values, i) + Head(Asked(req, i)) + values[i];
    hide Asked, Find, Layout, Head;
  }

  lemma {:induction false} LayoutGrows(req: seq<Byte>, values: seq<seq<Byte>>, i: nat, k: nat)
    requires i <= k <= |values| && 2 * |values| < |req|
    ensures |Layout(req, values, i)| <= |Layout(req, values, k)|
    decreases k
  {
    hide Asked, Head;
    if i < k {
      LayoutGrows(req, values, i, k - 1);
    }
  }

  /** For identifiers of fixed lengths the response is positive exactly when the whole fits. */
  lemma FixedAnswerIff(table: seq<Entry>, req: seq<Byte>, wrote: Writes, values: seq<seq<Byte>>, max: nat)
    requires max >= 3 && WellFormed(req) && |req| == 1 + 2 * |values|
    requires forall i | 0 <= i < |values| :: Holds(table, req, wrote, i, values[i])
    ensures var r := Answer(table, req, wrote, max);
            && (r.Positive? <==> |Layout(req, values, |values|)| <= max)
            && (r.Positive? ==> r.bytes == Layout(req, values, |values|))
  {
    hide Answer, Holds, ServesOne, Layout, Find, Asked;
    var served := AnswerIff(table, req, wrote, max);
    FixedValues(table, req, wrote, values, served, max);
    if |Layout(req, values, |values|)| <= max {
      forall i | 0 <= i < |values| ensures ServesOne(table, req, wrote, values, i, max) {
        ServesFixed(table, req, wrote, values, i, max);
        LayoutGrows(req, values, i + 1, |values|);
      }
    }
  }

  /** Whatever is served is what the identifiers hold. */
  lemma FixedValues(table: seq<Entry>, req: seq<Byte>, wrote: Writes, values: seq<seq<Byte>>,
                    served: seq<seq<Byte>>, max: nat)
    requires max >= 3 && |req| == 1 + 2 * |values| && |served| == |values|
    requires forall i | 0 <= i < |values| :: Holds(table, req, wrote, i, values[i])
    ensures Serves(table, req, wrote, served, max) ==> served == values && |Layout(req, values, |values|)| <= max
  {
    hide Layout, Find, Asked;
    if Serves(table, req, wrote, served, max) {
      forall i | 0 <= i < |values| ensures served[i] == values[i] {
        assert ServesOne(table, req, wrote, served, i, max) && Holds(table, req, wrote, i, values[i]);
      }
      assert served == values;
      LayoutFits(table, req, wrote, values, max);
    }
  }

  lemma HeadLength(did: nat)
    ensures |Head(did)| == 2
  {}

  /** A client that knows the lengths reads the identifiers and the data back. */
  function Parse(bytes: seq<Byte>, lengths: seq<nat>): Option<seq<(nat, seq<Byte>)>> {
    if lengths == [] then if bytes == [0x62] then Some([]) else None
    else
      var n := lengths[|lengths| - 1];
      if |bytes| < n + 2 then None
      else
        var at := |bytes| - n - 2;
        match Parse(bytes[..at], lengths[..|lengths| - 1])
        case None => None
        case Some(items) => Some(items + [(Number(bytes[at], bytes[at + 1]), bytes[at + 2..])])
  }

  function Lengths(values: seq<seq<Byte>>): seq<nat> { seq(|values|, i requires 0 <= i < |values| => |values[i]|) }

  /** The identifiers asked for, each with its value. */
  function Items(req: seq<Byte>, values: seq<seq<Byte>>): seq<(nat, seq<Byte>)>
    requires 2 * |values| < |req|
  {
    seq(|values|, i requires 0 <= i < |values| => (Asked(req, i), values[i]))
  }

  lemma ItemsSnoc(req: seq<Byte>, init: seq<seq<Byte>>, last: seq<Byte>)
    requires 2 * |init| + 2 < |req|
    ensures Items(req, init + [last]) == Items(req, init) + [(Asked(req, |init|), last)]
    ensures |Lengths(init + [last])| == |init| + 1
    ensures Lengths(init + [last])[..|init|] == Lengths(init) && Lengths(init + [last])[|init|] == |last|
  {
    hide Asked;
    assert Lengths(init + [last])[..|init|] == Lengths(init);
  }

  lemma {:induction false} ParseLayout(req: seq<Byte>, values: seq<seq<Byte>>)
    requires 2 * |values| < |req|
    ensures Parse(Layout(req, values, |values|), Lengths(values)) == Some(Items(req, values))
  {
    hide Asked, Head, Parse, Layout, Items, Lengths;
    if values == [] {
      ParseNothing(req);
    } else {
      var init, last := values[..|values| - 1], values[|values| - 1];
      assert values == init + [last];
      ParseLayout(req, init);
      LayoutSnoc(req, init, last);
      ItemsSnoc(req, init, last);
      AskedBound(req, |init|);
      ParseSnoc(Layout(req, init, |init|), Asked(req, |init|), last, Lengths(values));
    }
  }

  lemma ParseNothing(req: seq<Byte>)
    requires |req| > 0
    ensures Parse(Layout(req, [], 0), Lengths([])) == Some(Items(req, []))
  {
    assert Lengths([]) == [] && Items(req, []) == [];
  }

  lemma {:induction false} SameLayout(req: seq<Byte>, a: seq<seq<Byte>>, b: seq<seq<Byte>>, k: nat)
    requires k <= |a| && k <= |b| && 2 * k < |req| && a[..k] == b[..k]
    ensures Layout(req, a, k) == Layout(req, b, k)
  {
    hide Asked, Head;
    if k > 0 {
      assert a[..k - 1] == a[..k][..k - 1] && b[..k - 1] == b[..k][..k - 1];
      assert a[k - 1] == a[..k][k - 1] && b[k - 1] == b[..k][k - 1];
      SameLayout(req, a, b, k - 1);
    }
  }

  lemma AskedBound(req: seq<Byte>, i: nat)
    requires 2 + 2 * i < |req|
    ensures Asked(req, i) < 65536
  {}

  lemma HeadReads(did: nat)
    ensures |Head(did)| == 2 && (did < 65536 ==> Number(Head(did)[0], Head(did)[1]) == did)
  {}

  lemma ParseSnoc(front: seq<Byte>, did: nat, value: seq<Byte>, lengths: seq<nat>)
    requires lengths != [] && lengths[|lengths| - 1] == |value| && did < 65536
    ensures var r := Parse(front, lengths[..|lengths| - 1]);
            Parse(front + Head(did) + value, lengths)
            == if r.Some? then Some(r.value + [(did, value)]) else None
  {
    hide Head, Number;
    HeadReads(did);
    var bytes := front + Head(did) + value;
    assert bytes[..|front|] == front && bytes[|front| + 2..] == value;
    assert bytes[|front|] == Head(did)[0] && bytes[|front| + 1] == Head(did)[1];
  }

  // ---- The answer byte by byte ----

  /** The entry has the number that two bytes stand for, high byte first. */
  predicate Has(e: Entry, high: Byte, low: Byte) { e.did == 256 * (high as int) + low as int }

  /** Entry `at` is the first one with that number. */
  predicate First(table: seq<Entry>, at: nat, high: Byte, low: Byte) {
    at < |table| && Has(table[at], high, low) && forall k | 0 <= k < at :: !Has(table[k], high, low)
  }

  /** The identifier has a first entry, which is readable, and its callback, asked with the room that is
      left behind `used` bytes and the identifier itself, writes the value. */
  ghost predicate Served(table: seq<Entry>, high: Byte, low: Byte, i: nat, wrote: Writes, used: nat, max: nat,
                         value: seq<Byte>) {
    && used + 3 <= max && value == wrote(i, max - used - 2) && value != []
    && exists at: nat :: First(table, at, high, low) && table[at].readable
  }

  /** Why the request is refused at the `i`-th identifier. */
  ghost predicate Obstacle(table: seq<Entry>, high: Byte, low: Byte, i: nat, wrote: Writes, used: nat, max: nat,
                           nrc: Byte) {
    || (nrc == 0x31 && forall k | 0 <= k < |table| :: !Has(table[k], high, low))
    || (exists at: nat :: First(table, at, high, low) &&
                          if !table[at].readable then nrc == 0x22
                          else if used + 3 > max then nrc == 0x14
                          else nrc == 0x22 && wrote(i, max - used - 2) == [])
  }

  /** Where the `i`-th item begins. */
  function Position(values: seq<seq<Byte>>, i: nat): nat
    requires i <= |values|
  {
    if i == 0 then 1 else Position(values, i - 1) + 2 + |values[i - 1]|
  }

  ghost predicate AllServed(table: seq<Entry>, req: seq<Byte>, wrote: Writes, values: seq<seq<Byte>>, max: nat) {
    2 * |values| < |req|
    && forall i | 0 <= i < |values| ::
         Served(table, req[1 + 2 * i], req[2 + 2 * i], i, wrote, Position(values, i), max, values[i])
  }

  /** At `p` the response has two bytes and a value. */
  predicate Item(bytes: seq<Byte>, p: nat, high: Byte, low: Byte, value: seq<Byte>) {
    && p + 2 + |value| <= |bytes| && bytes[p] == high && bytes[p + 1] == low
    && bytes[p + 2..p + 2 + |value|] == value
  }

  predicate ItemAt(bytes: seq<Byte>, req: seq<Byte>, values: seq<seq<Byte>>, i: nat)
    requires i < |values| && 2 * |values| < |req|
  {
    Item(bytes, Position(values, i), req[1 + 2 * i], req[2 + 2 * i], values[i])
  }

  /** Each item of the response is the two bytes of the request and the value. */
  ghost predicate Carries(bytes: seq<Byte>, req: seq<Byte>, values: seq<seq<Byte>>) {
    && 2 * |values| < |req| && |bytes| == Position(values, |values|) && [0x62] <= bytes
    && forall i | 0 <= i < |values| :: ItemAt(bytes, req, values, i)
  }

  lemma HeadOfNumber(high: Byte, low: Byte)
    ensures Head(Number(high, low)) == [high, low]
    ensures forall e: Entry :: Has(e, high, low) <==> e.did == Number(high, low)
  {}

  lemma ExtendedExact(table: seq<Entry>, high: Byte, low: Byte, i: nat, wrote: Writes, out: seq<Byte>, max: nat)
    requires |out| <= max
    ensures match Extended(table, Number(high, low), i, wrote, out, max)
            case Refused(nrc) => Obstacle(table, high, low, i, wrote, |out|, max, nrc)
            case Positive(bytes) =>
              && |out| + 2 <= |bytes| && bytes == out + [high, low] + bytes[|out| + 2..]
              && Served(table, high, low, i, wrote, |out|, max, bytes[|out| + 2..])
  {
    HeadOfNumber(high, low);
    hide Head, Number, Find, Has;
    var at := Find(table, Number(high, low));
    if at < |table| {
      assert First(table, at, high, low);
    }
    match Extended(table, Number(high, low), i, wrote, out, max)
    case Refused(nrc) =>
    case Positive(bytes) =>
      var data := wrote(i, max - |out| - 2);
      assert bytes[|out| + 2..] == data;
  }

  lemma {:induction false} SamePosition(a: seq<seq<Byte>>, b: seq<seq<Byte>>, k: nat)
    requires k <= |a| && k <= |b| && a[..k] == b[..k]
    ensures Position(a, k) == Position(b, k)
  {
    if k > 0 {
      assert a[..k - 1] == a[..k][..k - 1] && b[..k - 1] == b[..k][..k - 1];
      assert a[k - 1] == a[..k][k - 1] && b[k - 1] == b[..k][k - 1];
      SamePosition(a, b, k - 1);
    }
  }

  lemma PositionInit(init: seq<seq<Byte>>, last: seq<Byte>, i: nat)
    requires i <= |init|
    ensures Position(init + [last], i) == Position(init, i)
  {
    assert (init + [last])[..i] == init[..i];
    SamePosition(init + [last], init, i);
  }

  lemma AllServedSnoc(table: seq<Entry>, req: seq<Byte>, wrote: Writes, init: seq<seq<Byte>>, last: seq<Byte>,
                      max: nat)
    requires AllServed(table, req, wrote, init, max) && 2 * |init| + 2 < |req|
    requires Served(table, req[1 + 2 * |init|], req[2 + 2 * |init|], |init|, wrote, Position(init, |init|), max, last)
    ensures AllServed(table, req, wrote, init + [last], max)
  {
    hide Served, Position;
    var values := init + [last];
    forall i | 0 <= i < |values|
      ensures Served(table, req[1 + 2 * i], req[2 + 2 * i], i, wrote, Position(values, i), max, values[i])
    {
      PositionInit(init, last, i);
    }
  }

  lemma ItemKept(bytes: seq<Byte>, more: seq<Byte>, req: seq<Byte>, init: seq<seq<Byte>>, last: seq<Byte>, i: nat)
    requires i < |init| && 2 * |init| + 2 < |req| && ItemAt(bytes, req, init, i)
    ensures ItemAt(bytes + more, req, init + [last], i)
  {
    hide Position;
    PositionInit(init, last, i);
    var p, n := Position(init, i), |init[i]|;
    assert (bytes + more)[p + 2..p + 2 + n] == bytes[p + 2..p + 2 + n];
  }

  /** The two bytes of the request and the value. */
  function NewItem(req: seq<Byte>, i: nat, value: seq<Byte>): seq<Byte>
    requires 2 + 2 * i < |req|
  {
    [req[1 + 2 * i], req[2 + 2 * i]] + value
  }

  lemma LastItem(bytes: seq<Byte>, req: seq<Byte>, init: seq<seq<Byte>>, last: seq<Byte>)
    requires 2 * |init| + 2 < |req| && |bytes| == Position(init, |init|)
    ensures ItemAt(bytes + NewItem(req, |init|, last), req, init + [last], |init|)
    ensures |bytes + NewItem(req, |init|, last)| == Position(init + [last], |init| + 1)
  {
    PositionInit(init, last, |init|);
  }

  lemma CarriesSnoc(bytes: seq<Byte>, req: seq<Byte>, init: seq<seq<Byte>>, last: seq<Byte>)
    requires Carries(bytes, req, init) && 2 * |init| + 2 < |req|
    ensures Carries(bytes + NewItem(req, |init|, last), req, init + [last])
  {
    hide ItemAt, Position, NewItem;
    var values, more := init + [last], NewItem(req, |init|, last);
    LastItem(bytes, req, init, last);
    forall i | 0 <= i < |values| ensures ItemAt(bytes + more, req, values, i) {
      if i < |init| {
        ItemKept(bytes, more, req, init, last, i);
      }
    }
  }

  /** What refuses a request after some values. */
  ghost predicate StoppedBy(table: seq<Entry>, req: seq<Byte>, wrote: Writes, values: seq<seq<Byte>>, max: nat,
                            nrc: Byte) {
    var i := |values|;
    2 + 2 * i < |req| && Obstacle(table, req[1 + 2 * i], req[2 + 2 * i], i, wrote, Position(values, i), max, nrc)
  }

  /** The response as far as `k` identifiers: all served, or refused at the first obstacle. */
  lemma {:induction false} AssembledExact(table: seq<Entry>, req: seq<Byte>, wrote: Writes, k: nat, max: nat)
    returns (values: seq<seq<Byte>>)
    requires max >= 3 && 2 * k < |req|
    ensures |values| <= k && AllServed(table, req, wrote, values, max)
    ensures match Assembled(table, req, wrote, k, max)
            case Positive(bytes) => |values| == k && Carries(bytes, req, values)
            case Refused(nrc) => |values| < k && StoppedBy(table, req, wrote, values, max, nrc)
  {
    hide Assembled, AllServed, Carries, StoppedBy, Extended;
    if k == 0 {
      values := [];
      NothingCarried(table, req, wrote, max);
    } else {
      values := AssembledExact(table, req, wrote, k - 1, max);
      if Assembled(table, req, wrote, k - 1, max).Refused? {
        StaysRefused(table, req, wrote, k - 1, k, max);
      } else {
        AssembledNext(table, req, wrote, k - 1, max);
        values := NextItem(table, req, wrote, values, Assembled(table, req, wrote, k - 1, max).bytes, max);
      }
    }
  }

  lemma NothingCarried(table: seq<Entry>, req: seq<Byte>, wrote: Writes, max: nat)
    requires max >= 3 && |req| > 0
    ensures AllServed(table, req, wrote, [], max) && Assembled(table, req, wrote, 0, max) == Positive([0x62])
    ensures Carries([0x62], req, [])
  {}

  lemma NextItem(table: seq<Entry>, req: seq<Byte>, wrote: Writes, init: seq<seq<Byte>>, out: seq<Byte>, max: nat)
    returns (values: seq<seq<Byte>>)
    requires 2 + 2 * |init| < |req| && |out| <= max
    requires AllServed(table, req, wrote, init, max) && Carries(out, req, init)
    ensures AllServed(table, req, wrote, values, max)
    ensures match Extended(table, Asked(req, |init|), |init|, wrote, out, max)
            case Positive(bytes) => |values| == |init| + 1 && Carries(bytes, req, values)
            case Refused(nrc) => |values| == |init| && StoppedBy(table, req, wrote, values, max, nrc)
  {
    hide Extended, AllServed, Served, Obstacle, Position, Number, ItemAt;
    values := init;
    var i := |init|;
    ExtendedExact(table, req[1 + 2 * i], req[2 + 2 * i], i, wrote, out, max);
    var r := Extended(table, Asked(req, i), i, wrote, out, max);
    if r.Positive? {
      var data := r.bytes[|out| + 2..];
      AllServedSnoc(table, req, wrote, init, data, max);
      CarriesSnoc(out, req, init, data);
      Associative(out, [req[1 + 2 * i], req[2 + 2 * i]], data);
      hide Carries;
      values := init + [data];
    }
  }

  /** The answer to any request, byte by byte. Identifiers are read and written high byte first, and the
      entry asked is the first one with the number that the two bytes stand for. Either every identifier is
      served, and each item of the response is the two bytes of the request with the value behind them; or
      the request is refused with the code of the first obstacle, or for its length. */
  lemma AnswerExact(table: seq<Entry>, req: seq<Byte>, wrote: Writes, max: nat) returns (values: seq<seq<Byte>>)
    requires max >= 3
    ensures |req| >= 3 && |req| % 2 == 1 ==>
              && AllServed(table, req, wrote, values, max)
              && match Answer(table, req, wrote, max)
                 case Positive(bytes) => |req| == 1 + 2 * |values| && Carries(bytes, req, values)
                 case Refused(nrc) => StoppedBy(table, req, wrote, values, max, nrc)
    ensures |req| < 3 || |req| % 2 == 0 ==> Answer(table, req, wrote, max) == Refused(0x13)
  {
    hide Assembled, StoppedBy, AllServed, Carries;
    values := [];
    if |req| >= 3 && |req| % 2 == 1 {
      values := AssembledExact(table, req, wrote, (|req| - 1) / 2, max);
    }
  }
}
