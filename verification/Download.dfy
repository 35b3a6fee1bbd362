/** Downloading to memory: RequestDownload, TransferData and RequestTransferExit. */
module Download {
  import opened Words
  import S = Session

  const BAD_LENGTH: Byte := 0x13
  const SEQUENCE_ERROR: Byte := 0x24
  const NOT_ACCEPTED: Byte := 0x70
  const PROGRAMMING_FAILURE: Byte := 0x72
  const WRONG_COUNTER: Byte := 0x73
  const WRONG_SESSION: Byte := 0x7F

  // ---- The address and length parameters ----

  /** The number that some bytes spell, most significant byte first. */
  function BigEndian(bytes: seq<Byte>): nat {
    if bytes == [] then 0 else BigEndian(bytes[..|bytes| - 1]) * 256 + bytes[|bytes| - 1]
  }

  datatype DownloadRequest = DownloadRequest(address: Tick, length: Tick, compression: Byte, encryption: Byte)

  /** How many bytes the address and the length take. */
  function AddressLen(format: Byte): nat { format % 16 }

  function LengthLen(format: Byte): nat { format / 16 }

  predicate Complete(req: seq<Byte>) {
    |req| >= 3 && |req| >= 3 + AddressLen(req[2]) + LengthLen(req[2])
  }

  function AddressBytes(req: seq<Byte>): seq<Byte>
    requires Complete(req)
  {
    req[3..3 + AddressLen(req[2])]
  }

  function LengthBytes(req: seq<Byte>): seq<Byte>
    requires Complete(req)
  {
    req[3 + AddressLen(req[2])..3 + AddressLen(req[2]) + LengthLen(req[2])]
  }

  function Parsed(req: seq<Byte>): DownloadRequest
    requires Complete(req)
  {
    DownloadRequest(Wrap32(BigEndian(AddressBytes(req))), Wrap32(BigEndian(LengthBytes(req))), req[1] / 16, req[1] % 16)
  }

  lemma BigEndianSnoc(bytes: seq<Byte>, b: Byte)
    ensures BigEndian(bytes + [b]) == BigEndian(bytes) * 256 + b
  {
    assert (bytes + [b])[..|bytes|] == bytes;
  }

  /** Shifting a wrapped number by one byte drops the same bits as wrapping the shifted number. */
  lemma ShiftWrapped(x: nat, b: Byte)
    ensures Wrap32(Wrap32(x) * 256) + b == Wrap32(x * 256 + b)
  {
    var q, r := x / U32, x % U32;
    assert Wrap32(x) == r;
    var t, u := r / 0x100_0000, r % 0x100_0000;
    ModUnique(x * 256 + b, 256 * q + t, u * 256 + b);
    ModUnique(r * 256, t, u * 256);
  }

  lemma LastFour(p: seq<Byte>, a: Byte, b: Byte, c: Byte, d: Byte)
    ensures BigEndian(p + [a, b, c, d]) == BigEndian(p) * U32 + (a * 0x100_0000 + b * 0x1_0000 + c * 0x100 + d)
  {
    BigEndianSnoc(p, a);
    BigEndianSnoc(p + [a], b);
    BigEndianSnoc(p + [a] + [b], c);
    BigEndianSnoc(p + [a] + [b] + [c], d);
    hide BigEndian;
    assert p + [a, b, c, d] == p + [a] + [b] + [c] + [d];
  }

  /** The parsed number is the whole number exactly when the bytes before the last four are zero. */
  lemma WrapsIff(bytes: seq<Byte>)
    ensures Wrap32(BigEndian(bytes)) == BigEndian(bytes) <==> forall i | 0 <= i < |bytes| - 4 :: bytes[i] == 0
  {
    hide BigEndian;
    if |bytes| <= 4 {
      BigEndianBound(bytes);
      NoWrap(BigEndian(bytes));
    } else {
      var n := |bytes| - 4;
      var high, low := bytes[..n], bytes[n..];
      var a: int, b: int, c: int, d: int := low[0], low[1], low[2], low[3];
      assert bytes == high + [a, b, c, d];
      LastFour(high, a, b, c, d);
      ZeroIff(high);
      ModUnique(BigEndian(bytes), BigEndian(high), a * 0x100_0000 + b * 0x1_0000 + c * 0x100 + d);
    }
  }

  lemma BigEndianBound(bytes: seq<Byte>)
    requires |bytes| <= 4
    ensures BigEndian(bytes) < U32
  {
    ShortBound(bytes, 4);
  }

  function Power256(n: nat): nat { if n == 0 then 1 else 256 * Power256(n - 1) }

  lemma {:induction false} ShortBound(bytes: seq<Byte>, n: nat)
    requires |bytes| <= n <= 4
    ensures BigEndian(bytes) < Power256(n) <= U32
  {
    assert Power256(4) == U32 && Power256(3) == 0x100_0000 && Power256(2) == 0x1_0000;
    if bytes != [] {
      ShortBound(bytes[..|bytes| - 1], n - 1);
    }
  }

  lemma {:induction false} ZeroIff(bytes: seq<Byte>)
    ensures BigEndian(bytes) == 0 <==> forall i | 0 <= i < |bytes| :: bytes[i] == 0
  {
    if bytes != [] {
      var init := bytes[..|bytes| - 1];
      ZeroIff(init);
      assert forall i | 0 <= i < |init| :: init[i] == bytes[i];
    }
  }

  // ---- A client's request ----

  /** The last `width` bytes of a number, most significant byte first. */
  function Digits(n: nat, width: nat): (s: seq<Byte>)
    ensures |s| == width
  {
    if width == 0 then [] else Digits(n / 256, width - 1) + [n % 256]
  }

  lemma {:induction false} DigitsRead(n: nat, width: nat)
    requires n < Power256(width)
    ensures BigEndian(Digits(n, width)) == n
  {
    hide BigEndian;
    if width == 0 {
      NoDigits();
    } else {
      OneDigitLess(n, Power256(width - 1));
      DigitsRead(n / 256, width - 1);
      BigEndianSnoc(Digits(n / 256, width - 1), n % 256);
    }
  }

  lemma NoDigits()
    ensures BigEndian([]) == 0
  {}

  lemma OneDigitLess(n: nat, p: nat)
    ensures n < 256 * p ==> n / 256 < p
  {}

  /** The request for a download, with the address in `a` bytes and the length in `l` bytes. */
  function Built(d: DownloadRequest, a: nat, l: nat): seq<Byte>
    requires a < 16 && l < 16 && d.compression < 16 && d.encryption < 16
  {
    [0x34, d.compression as int * 16 + d.encryption, l * 16 + a] + Digits(d.address, a) + Digits(d.length, l)
  }

  /** A request in which a client has written an address and a length, each in as many bytes as it likes as
      long as it fits, is offered to the application as exactly these, whatever follows. */
  lemma BuiltIsParsed(d: DownloadRequest, a: nat, l: nat, more: seq<Byte>)
    requires a < 16 && l < 16 && d.compression < 16 && d.encryption < 16
    requires d.address < Power256(a) && d.length < Power256(l)
    ensures var req := Built(d, a, l) + more; Complete(req) && Parsed(req) == d
  {
    hide BigEndian, Wrap32, Digits, Power256, Built, AddressBytes, LengthBytes, Complete;
    BuiltParts(d, a, l, more);
    DigitsRead(d.address, a);
    DigitsRead(d.length, l);
    NoWrap(d.address);
    NoWrap(d.length);
  }

  lemma BuiltParts(d: DownloadRequest, a: nat, l: nat, more: seq<Byte>)
    requires a < 16 && l < 16 && d.compression < 16 && d.encryption < 16
    ensures var req := Built(d, a, l) + more;
            && Complete(req) && req[1] / 16 == d.compression && req[1] % 16 == d.encryption
            && AddressBytes(req) == Digits(d.address, a) && LengthBytes(req) == Digits(d.length, l)
  {
    hide Digits;
    Nibbles(d.compression, d.encryption);
    Nibbles(l, a);
    var formats := [0x34, d.compression as int * 16 + d.encryption, l * 16 + a];
    Slices(formats, Digits(d.address, a), Digits(d.length, l), more);
  }

  lemma Slices<T>(x: seq<T>, y: seq<T>, z: seq<T>, more: seq<T>)
    ensures var s := x + y + z + more;
            && s[..|x|] == x && s[|x|..|x| + |y|] == y && s[|x| + |y|..|x| + |y| + |z|] == z
  {}

  lemma Nibbles(high: nat, low: nat)
    requires low < 16
    ensures (high * 16 + low) / 16 == high && (high * 16 + low) % 16 == low
  {}

  // ---- The three services as one state machine ----

  /** The state of TransferData. */
  datatype Transfer = Transfer(active: bool, expected: Byte)

  /** `open` is the state of RequestDownload. */
  datatype State = State(open: bool, transfer: Transfer)

  const IDLE := State(false, Transfer(false, 1))

  /** A request with what the application's callback answers, if it is called. `Start` is the call
      that arms TransferData. */
  datatype Event =
    | Request(req: seq<Byte>, session: S.SessionType, maxBlock: Option<Tick>)
    | Start
    | Block(req: seq<Byte>, ok: bool)
    | Exit(params: Option<seq<Byte>>)

  function Refusal(service: Byte, nrc: Byte): seq<Byte> { [0x7F, service, nrc] }

  /** The code with which RequestDownload refuses a request, if it does. */
  function RequestError(open: bool, req: seq<Byte>, session: S.SessionType, maxBlock: Option<Tick>): Option<Byte> {
    if |req| < 3 then Some(BAD_LENGTH)
    else if session != S.Programming then Some(WRONG_SESSION)
    else if open then Some(SEQUENCE_ERROR)
    else if !Complete(req) then Some(BAD_LENGTH)
    else if maxBlock == None then Some(NOT_ACCEPTED)
    else None
  }

  function BlockError(t: Transfer, req: seq<Byte>, ok: bool): Option<Byte> {
    if |req| < 2 then Some(BAD_LENGTH)
    else if !t.active then Some(SEQUENCE_ERROR)
    else if req[1] != t.expected then Some(WRONG_COUNTER)
    else if !ok then Some(PROGRAMMING_FAILURE)
    else None
  }

  function ExitError(open: bool, params: Option<seq<Byte>>): Option<Byte> {
    if !open then Some(SEQUENCE_ERROR) else if params == None then Some(PROGRAMMING_FAILURE) else None
  }

  function NextCounter(c: Byte): Byte { (c + 1) % 256 }

  function AfterBlock(t: Transfer, req: seq<Byte>, ok: bool): Transfer {
    if BlockError(t, req, ok) == None then t.(expected := NextCounter(req[1])) else t
  }

  function Step(s: State, ev: Event): State {
    match ev
    case Request(req, session, maxBlock) => s.(open := s.open || RequestError(s.open, req, session, maxBlock) == None)
    case Start => s.(transfer := Transfer(true, 1))
    case Block(req, ok) => s.(transfer := AfterBlock(s.transfer, req, ok))
    case Exit(params) => if ExitError(s.open, params) == None then IDLE else s
  }

  function Run(evs: seq<Event>): State {
    if evs == [] then IDLE else Step(Run(evs[..|evs| - 1]), evs[|evs| - 1])
  }

  class TransferDataService {
    var active: bool
    var expectedSeq: Byte

    ghost function View(): Transfer
      reads this
    {
      Transfer(active, expectedSeq)
    }

    constructor ()
      ensures View() == Transfer(false, 1)
    {
      active, expectedSeq := false, 1;
    }

    method DoStart()
      modifies this
      ensures View() == Transfer(true, 1)
    {
      active, expectedSeq := true, 1;
    }

    method Reset()
      modifies this
      ensures View() == Transfer(false, 1)
    {
      active, expectedSeq := false, 1;
    }

    /** `taken` is the block that the callback accepted; `ok` is true also when there is no callback. */
    method Handle(req: seq<Byte>, ok: bool) returns (resp: seq<Byte>, taken: Option<seq<Byte>>)
      modifies this
      ensures View() == AfterBlock(old(View()), req, ok)
      ensures var error := BlockError(old(View()), req, ok);
              && resp == (if error == None then [0x76, req[1]] else Refusal(0x36, error.value))
              && taken == if error == None then Some(req[2..]) else None
    {
      if |req| < 2 {
        return Refusal(0x36, BAD_LENGTH), None;
      }
      if !active {
        return Refusal(0x36, SEQUENCE_ERROR), None;
      }
      var seqNo := req[1];
      if seqNo != expectedSeq {
        return Refusal(0x36, WRONG_COUNTER), None;
      }
      if !ok {
        return Refusal(0x36, PROGRAMMING_FAILURE), None;
      }
      expectedSeq := if seqNo == 0xFF then 0 else seqNo + 1;
      resp, taken := [0x76, seqNo], Some(req[2..]);
    }
  }

  class RequestDownloadService {
    var active: bool

    constructor ()
      ensures !active
    {
      active := false;
    }

    method Reset()
      modifies this
      ensures !active
    {
      active := false;
    }

    /** One big-endian number, in a 32-bit variable. */
    method ParseNumber(req: seq<Byte>, from: nat, len: nat) returns (value: Tick)
      requires from + len <= |req|
      ensures value == Wrap32(BigEndian(req[from..from + len]))
    {
      hide Wrap32;
      value := 0;
      NoWrap(0);
      var i := 0;
      while i < len
        invariant i <= len
        invariant value == Wrap32(BigEndian(req[from..from + i]))
      {
        BigEndianSnoc(req[from..from + i], req[from + i]);
        assert req[from..from + i] + [req[from + i]] == req[from..from + i + 1];
        ShiftWrapped(BigEndian(req[from..from + i]), req[from + i]);
        value := Wrap32(value * 256) + req[from + i];
        i := i + 1;
      }
    }

    /** `offered` is the request that the application's callback is asked about. */
    method Handle(req: seq<Byte>, session: S.SessionType, maxBlock: Option<Tick>)
      returns (resp: seq<Byte>, offered: Option<DownloadRequest>)
      modifies this
      ensures var error := RequestError(old(active), req, session, maxBlock);
              && active == (old(active) || error == None)
              && resp == if error == None then [0x74, 0x20, maxBlock.value / 256 % 256, maxBlock.value % 256]
                         else Refusal(0x34, error.value)
      ensures offered ==
              if session == S.Programming && !old(active) && Complete(req) then Some(Parsed(req)) else None
    {
      hide BigEndian, Wrap32;
      offered := None;
      if |req| < 3 {
        return Refusal(0x34, BAD_LENGTH), offered;
      }
      if session != S.Programming {
        return Refusal(0x34, WRONG_SESSION), offered;
      }
      if active {
        return Refusal(0x34, SEQUENCE_ERROR), offered;
      }
      var addrLen, sizeLen := req[2] % 16, req[2] / 16;
      if |req| < 3 + addrLen + sizeLen {
        return Refusal(0x34, BAD_LENGTH), offered;
      }
      var address := ParseNumber(req, 3, addrLen);
      var length := ParseNumber(req, 3 + addrLen, sizeLen);
      offered := Some(DownloadRequest(address, length, req[1] / 16, req[1] % 16));
      if maxBlock == None {
        return Refusal(0x34, NOT_ACCEPTED), offered;
      }
      active := true;
      resp := [0x74, 0x20, maxBlock.value / 256 % 256, maxBlock.value % 256];
    }
  }

  class RequestTransferExitService {
    const dl: RequestDownloadService
    const td: TransferDataService

    constructor (dl: RequestDownloadService, td: TransferDataService)
      ensures this.dl == dl && this.td == td
    {
      this.dl, this.td := dl, td;
    }

    ghost function View(): State
      reads dl, td
    {
      State(dl.active, td.View())
    }

    /** `params` holds the response parameters of a callback that agrees, and is empty without one;
        `given` are the request parameters that the callback is asked about. */
    method Handle(req: seq<Byte>, params: Option<seq<Byte>>) returns (resp: seq<Byte>, given: Option<seq<Byte>>)
      modifies dl, td
      ensures View() == Step(old(View()), Exit(params))
      ensures var error := ExitError(old(View()).open, params);
              resp == if error == None then [0x77] + params.value else Refusal(0x37, error.value)
      ensures given.Some? <==> old(dl.active)
      ensures given.Some? ==> given.value == req[Min(1, |req|)..]
    {
      given := None;
      if !dl.active {
        return Refusal(0x37, SEQUENCE_ERROR), given;
      }
      given := Some(if |req| > 1 then req[1..] else []);
      if params == None {
        return Refusal(0x37, PROGRAMMING_FAILURE), given;
      }
      dl.Reset();
      td.Reset();
      resp := [0x77] + params.value;
    }
  }

  // ---- Runs ----

  predicate Accepts(s: State, ev: Event) { ev.Block? && BlockError(s.transfer, ev.req, ev.ok) == None }

  /** A block that was handed over, with its counter. */
  datatype Piece = Piece(counter: Byte, data: seq<Byte>)

  /** The blocks accepted since the transfer was last started or closed. */
  function Pieces(evs: seq<Event>): seq<Piece> {
    if evs == [] then []
    else
      var before, ev := evs[..|evs| - 1], evs[|evs| - 1];
      if Accepts(Run(before), ev) then Pieces(before) + [Piece(ev.req[1], ev.req[2..])]
      else if ev.Start? || (ev.Exit? && ExitError(Run(before).open, ev.params) == None) then []
      else Pieces(before)
  }

  lemma RunSnoc(evs: seq<Event>, ev: Event)
    ensures Run(evs + [ev]) == Step(Run(evs), ev)
    ensures Pieces(evs + [ev]) ==
            if Accepts(Run(evs), ev) then Pieces(evs) + [Piece(ev.req[1], ev.req[2..])]
            else if ev.Start? || (ev.Exit? && ExitError(Run(evs).open, ev.params) == None) then []
            else Pieces(evs)
  {
    assert (evs + [ev])[..|evs|] == evs;
  }

  function CounterOf(k: nat): Byte { (k + 1) % 256 }

  lemma NextCounterOf(k: nat)
    ensures NextCounter(CounterOf(k)) == CounterOf(k + 1)
  {}

  ghost predicate Numbered(pieces: seq<Piece>) {
    forall k: nat | k < |pieces| :: pieces[k].counter == CounterOf(k)
  }

  /** In every run the k-th accepted block since the start carries counter k modulo 256 (k from 1), and
      the next one has to continue that series. */
  lemma {:induction false} CountersFollow(evs: seq<Event>)
    ensures Numbered(Pieces(evs)) && Run(evs).transfer.expected == CounterOf(|Pieces(evs)|)
    ensures !Run(evs).transfer.active ==> Pieces(evs) == []
  {
    if evs != [] {
      var before, ev := evs[..|evs| - 1], evs[|evs| - 1];
      CountersFollow(before);
      assert evs == before + [ev];
      RunSnoc(before, ev);
      NextCounterOf(|Pieces(before)|);
      hide Run, Pieces, NextCounter, RequestError;
    } else {
      assert CounterOf(0) == 1;
    }
  }

  /** A download has been accepted, and not closed since. */
  predicate Opened(evs: seq<Event>) {
    evs != [] &&
    var before, ev := evs[..|evs| - 1], evs[|evs| - 1];
    match ev
    case Request(req, session, maxBlock) => RequestError(false, req, session, maxBlock) == None || Opened(before)
    case Exit(params) => params == None && Opened(before)
    case _ => Opened(before)
  }

  /** The transfer has been started, and no open download has been closed since. */
  predicate Started(evs: seq<Event>) {
    evs != [] &&
    var before, ev := evs[..|evs| - 1], evs[|evs| - 1];
    ev.Start? || (!(ev.Exit? && ev.params.Some? && Opened(before)) && Started(before))
  }

  /** In every run the state of the three services is its history: open, started, and the counter as far
      as blocks have been accepted since the start. Nothing that is refused, or fails in a callback,
      leaves a trace. */
  lemma {:induction false} StateIsHistory(evs: seq<Event>)
    ensures Run(evs) == State(Opened(evs), Transfer(Started(evs), CounterOf(|Pieces(evs)|)))
  {
    CountersFollow(evs);
    if evs != [] {
      var before, ev := evs[..|evs| - 1], evs[|evs| - 1];
      StateIsHistory(before);
      assert evs == before + [ev];
      RunSnoc(before, ev);
      StateStep(Run(before), ev);
      hide Step, Run, Pieces, CounterOf, RequestError;
    }
  }

  lemma StateStep(s: State, ev: Event)
    ensures var next := Step(s, ev);
            && (next.open <==>
                  match ev
                  case Request(req, session, maxBlock) =>
                    RequestError(false, req, session, maxBlock) == None || s.open
                  case Exit(params) => params == None && s.open
                  case _ => s.open)
            && (next.transfer.active <==>
                  ev.Start? || (!(ev.Exit? && ev.params.Some? && s.open) && s.transfer.active))
  {}

  /** What the three services refuse, in every run and in numbers, by the history and in order of
      precedence. `None` means that the request is granted. */
  lemma RefusalCodes(evs: seq<Event>, req: seq<Byte>, session: S.SessionType, maxBlock: Option<Tick>, ok: bool,
                     params: Option<seq<Byte>>)
    ensures RequestError(Run(evs).open, req, session, maxBlock) ==
            if |req| < 3 then Some(0x13)
            else if session != S.Programming then Some(0x7F)
            else if Opened(evs) then Some(0x24)
            else if |req| < 3 + req[2] as int / 16 + req[2] as int % 16 then Some(0x13)
            else if maxBlock == None then Some(0x70)
            else None
    ensures BlockError(Run(evs).transfer, req, ok) ==
            if |req| < 2 then Some(0x13)
            else if !Started(evs) then Some(0x24)
            else if req[1] != (|Pieces(evs)| + 1) % 256 then Some(0x73)
            else if !ok then Some(0x72)
            else None
    ensures ExitError(Run(evs).open, params) ==
            if !Opened(evs) then Some(0x24) else if params == None then Some(0x72) else None
  {
    hide Run, Opened, Started, Pieces;
    StateIsHistory(evs);
  }

  /** RequestDownload does not arm TransferData, and nothing else but the start call does: without it
      no run accepts a block. */
  lemma {:induction false} NothingWithoutStart(evs: seq<Event>, ev: Event)
    requires forall e <- evs :: !e.Start?
    ensures !Run(evs).transfer.active && Pieces(evs) == [] && !Accepts(Run(evs), ev)
  {
    if evs != [] {
      NothingWithoutStart(evs[..|evs| - 1], evs[|evs| - 1]);
    }
  }

  // ---- A client that sends the blocks of a file ----

  /** The request for block `j`, counting from 0. */
  function Sent(blocks: seq<seq<Byte>>, j: nat): seq<Byte>
    requires j < |blocks|
  {
    [0x36, CounterOf(j)] + blocks[j]
  }

  /** A client's block is accepted exactly when it is the next one, up to a multiple of 256. */
  lemma AcceptedIff(evs: seq<Event>, blocks: seq<seq<Byte>>, j: nat, ok: bool)
    requires j < |blocks|
    ensures Accepts(Run(evs), Block(Sent(blocks, j), ok)) <==>
            Run(evs).transfer.active && ok && j % 256 == |Pieces(evs)| % 256
  {
    CountersFollow(evs);
    CounterOfSame(j, |Pieces(evs)|);
    hide Run, Pieces, CounterOf;
  }

  /** Block 256 passes for block 0: right after the start it is accepted, and its data is handed over
      first. */
  lemma FarBlockPasses(blocks: seq<seq<Byte>>)
    requires |blocks| > 256
    ensures var evs := [Start] + [Block(Sent(blocks, 256), true)];
            Pieces(evs) == [Piece(1, blocks[256])]
  {
    var start := [Start];
    assert start == [] + [Start];
    RunSnoc([], Start);
    NoPieces();
    AcceptedIff(start, blocks, 256, true);
    RunSnoc(start, Block(Sent(blocks, 256), true));
    assert CounterOf(256) == 1;
    hide Run, Pieces;
    assert [] + [Piece(1, blocks[256])] == [Piece(1, blocks[256])];
  }

  lemma CounterOfSame(j: nat, k: nat)
    ensures CounterOf(j) == CounterOf(k) <==> j % 256 == k % 256
  {}

  /** Every block request is a copy of a block of the file less than 256 away from the next one that
      is due. Copies may be lost, repeated, reordered or fail in the callback. */
  ghost predicate FromClient(evs: seq<Event>, blocks: seq<seq<Byte>>) {
    evs == [] ||
    var before, ev := evs[..|evs| - 1], evs[|evs| - 1];
    FromClient(before, blocks) && (ev.Block? ==> exists j: nat :: Copy(ev.req, blocks, j, |Pieces(before)|))
  }

  predicate Copy(req: seq<Byte>, blocks: seq<seq<Byte>>, j: nat, due: nat) {
    j < |blocks| && req == Sent(blocks, j) && j < due + 256 && due < j + 256
  }

  function Data(pieces: seq<Piece>): seq<seq<Byte>> { seq(|pieces|, i requires 0 <= i < |pieces| => pieces[i].data) }

  lemma NearAndEqual(j: nat, due: nat)
    requires j < due + 256 && due < j + 256 && j % 256 == due % 256
    ensures j == due
  {}

  lemma DataSnoc(pieces: seq<Piece>, p: Piece)
    ensures Data(pieces + [p]) == Data(pieces) + [p.data]
  {}

  /** Whatever such a client's requests go through, the blocks handed over are the first blocks of the
      file, each once and in order. */
  lemma {:induction false} PrefixOnly(evs: seq<Event>, blocks: seq<seq<Byte>>)
    requires FromClient(evs, blocks)
    ensures Data(Pieces(evs)) <= blocks
  {
    hide Run, Copy, Sent, Data, Pieces;
    if evs == [] {
      NoPieces();
    } else {
      var before, ev := evs[..|evs| - 1], evs[|evs| - 1];
      PrefixOnly(before, blocks);
      assert evs == before + [ev];
      RunSnoc(before, ev);
      if Accepts(Run(before), ev) {
        PieceIsDue(before, ev, blocks);
        DataSnoc(Pieces(before), Piece(ev.req[1], ev.req[2..]));
        DataLength(Pieces(before));
      } else {
        NoPieces();
      }
    }
  }

  lemma NoPieces()
    ensures Pieces([]) == [] && Data([]) == []
  {}

  lemma DataLength(pieces: seq<Piece>)
    ensures |Data(pieces)| == |pieces|
  {}

  lemma PieceIsDue(before: seq<Event>, ev: Event, blocks: seq<seq<Byte>>)
    requires Accepts(Run(before), ev)
    requires exists j: nat :: Copy(ev.req, blocks, j, |Pieces(before)|)
    ensures |Pieces(before)| < |blocks| && ev.req[2..] == blocks[|Pieces(before)|]
  {
    hide Run, Pieces;
    var j: nat :| Copy(ev.req, blocks, j, |Pieces(before)|);
    AcceptedIff(before, blocks, j, ev.ok);
    NearAndEqual(j, |Pieces(before)|);
    hide Accepts, CounterOf;
  }

  /** Copies of one block, each with the callback's answer if it gets that far. */
  function Copies(blocks: seq<seq<Byte>>, j: nat, answers: seq<bool>): seq<Event>
    requires j < |blocks|
  {
    seq(|answers|, i requires 0 <= i < |answers| => Block(Sent(blocks, j), answers[i]))
  }

  /** The first `n` blocks in order, block `j` as often as `answers[j]` says. */
  function Stream(blocks: seq<seq<Byte>>, answers: seq<seq<bool>>, n: nat): seq<Event>
    requires n <= |blocks| == |answers|
  {
    if n == 0 then [] else Stream(blocks, answers, n - 1) + Copies(blocks, n - 1, answers[n - 1])
  }

  lemma {:induction false} CopiesRun(evs: seq<Event>, blocks: seq<seq<Byte>>, j: nat, answers: seq<bool>)
    requires j < |blocks| && Run(evs).transfer.active && Data(Pieces(evs)) == blocks[..j]
    ensures var after := evs + Copies(blocks, j, answers);
            && Run(after).transfer.active
            && Data(Pieces(after)) == blocks[..if true in answers then j + 1 else j]
    decreases |answers|
  {
    hide Run, Pieces, Data, Accepts, Sent;
    if answers == [] {
      assert evs + Copies(blocks, j, answers) == evs;
    } else {
      var init, ok := answers[..|answers| - 1], answers[|answers| - 1];
      CopiesRun(evs, blocks, j, init);
      var before := evs + Copies(blocks, j, init);
      var ev := Block(Sent(blocks, j), ok);
      assert evs + Copies(blocks, j, answers) == before + [ev];
      assert answers == init + [ok];
      CopyStep(before, blocks, j, ok);
    }
  }

  lemma CopyStep(before: seq<Event>, blocks: seq<seq<Byte>>, j: nat, ok: bool)
    requires j < |blocks| && Run(before).transfer.active
    requires Data(Pieces(before)) == blocks[..j] || Data(Pieces(before)) == blocks[..j + 1]
    ensures var after := before + [Block(Sent(blocks, j), ok)];
            && Run(after).transfer.active
            && Data(Pieces(after)) == if ok then blocks[..j + 1] else Data(Pieces(before))
  {
    hide Run, Pieces, Data, Accepts;
    var ev := Block(Sent(blocks, j), ok);
    RunSnoc(before, ev);
    AcceptedIff(before, blocks, j, ok);
    DataLength(Pieces(before));
    DataSnoc(Pieces(before), Piece(ev.req[1], ev.req[2..]));
    assert ev.req[2..] == blocks[j];
    ActiveStays(Run(before), ev);
    assert (j + 1) % 256 != j % 256;
    assert blocks[..j] + [blocks[j]] == blocks[..j + 1];
    hide Step, Sent;
  }

  lemma ActiveStays(s: State, ev: Event)
    requires ev.Block?
    ensures Step(s, ev).transfer.active == s.transfer.active
  {}

  /** A client that repeats each block until a copy is accepted, and perhaps some times more, gets the
      whole file across, however many times the counter wraps; the surplus copies are refused. */
  lemma {:induction false} StreamArrives(evs: seq<Event>, blocks: seq<seq<Byte>>, answers: seq<seq<bool>>, n: nat)
    requires n <= |blocks| == |answers| && forall a <- answers :: true in a
    ensures var after := evs + [Start] + Stream(blocks, answers, n);
            Run(after).transfer.active && Data(Pieces(after)) == blocks[..n]
    decreases n
  {
    hide Run, Pieces, Data;
    if n == 0 {
      RunSnoc(evs, Start);
      NoPieces();
      assert evs + [Start] + Stream(blocks, answers, 0) == evs + [Start];
    } else {
      StreamArrives(evs, blocks, answers, n - 1);
      var before := evs + [Start] + Stream(blocks, answers, n - 1);
      assert true in answers[n - 1];
      CopiesRun(before, blocks, n - 1, answers[n - 1]);
      assert before + Copies(blocks, n - 1, answers[n - 1]) == evs + [Start] + Stream(blocks, answers, n);
    }
  }

  /** The block length in a positive response has 16 bits: it is the callback's exactly when that fits. */
  lemma BlockLengthExact(maxBlock: Tick)
    ensures BigEndian([maxBlock / 256 % 256, maxBlock % 256]) == maxBlock <==> maxBlock < 65536
  {
    var hi, lo := maxBlock / 256 % 256, maxBlock % 256;
    TwoBytes(hi, lo);
    TwoBytesExact(maxBlock);
    hide BigEndian;
  }

  lemma TwoBytes(hi: Byte, lo: Byte)
    ensures BigEndian([hi, lo]) == hi as int * 256 + lo
  {
    hide BigEndian;
    assert [hi, lo] == [hi] + [lo] && [hi] == [] + [hi];
    BigEndianSnoc([hi], lo);
    BigEndianSnoc([], hi);
    BigEndianOfNone();
  }

  lemma BigEndianOfNone()
    ensures BigEndian([]) == 0
  {}

  lemma TwoBytesExact(n: nat)
    ensures n / 256 % 256 * 256 + n % 256 == n <==> n < 65536
  {}
}
