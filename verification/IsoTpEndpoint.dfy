/** `IsoTp` with its fields, buffer and loops, proved against the steps of `IsoTpMachine`. */
module IsoTpEndpoint {
  import opened Words
  import opened IsoTpCodec
  import opened IsoTpMachine

  datatype TxPhase = TxIdle | WaitFC | Sending

  class IsoTp {
    const cfg: Config

    var receiving: bool
    const rxBuf: array<Byte>
    var rxExpected: nat
    var rxReceived: nat
    var rxSn: Byte
    var rxDeadline: Tick
    var dataReady: bool

    var phase: TxPhase
    var txData: array?<Byte>
    var txTotal: nat
    var txOffset: nat
    var txSn: Byte
    var txBsCount: Byte
    var txBsRem: Byte
    var txStMin: Byte
    var txDeadline: Tick

    // The text behind `txData` when it was handed over, and the consecutive frames sent of it.
    ghost var txMessage: seq<Byte>
    ghost var txCfs: nat

    /** Reassembly never holds more than 4095 bytes, so the MAX_PAYLOAD checks cannot fail. */
    ghost predicate RxValid()
      reads this
    {
      && rxBuf.Length == MAX_PAYLOAD && rxSn < 16
      && (receiving ==> !dataReady && 6 <= rxReceived < rxExpected <= 4095 && 8 <= rxExpected)
      && (dataReady ==> 1 <= rxReceived == rxExpected <= 4095)
    }

    /** The fields of a transfer after `txCfs` consecutive frames, all of them possibly out. */
    ghost predicate TxCursor()
      reads this
    {
      && txData != null && txData != rxBuf && |txMessage| == txTotal <= txData.Length
      && 8 <= txTotal <= MAX_PAYLOAD && txCfs <= CfCount(txTotal)
      && txOffset == Offset(txTotal, txCfs) && txSn == (txCfs + 1) % 16
    }

    ghost predicate TxValid()
      reads this
    {
      phase != TxIdle ==> TxCursor() && txCfs < CfCount(txTotal)
    }

    ghost predicate Valid()
      reads this
    {
      RxValid() && TxValid()
    }

    /** The sender's buffer still holds the message: the endpoint keeps a pointer to it. */
    ghost predicate BufferIntact()
      requires TxValid()
      reads this, txData
    {
      phase != TxIdle ==> txData[..txTotal] == txMessage
    }

    ghost function RxView(): (r: Reassembly)
      requires RxValid()
      reads this, rxBuf
      ensures r.Valid()
    {
      if receiving then Partial(rxExpected, rxBuf[..rxReceived], rxSn, rxDeadline)
      else if dataReady then Complete(rxBuf[..rxReceived])
      else Idle
    }

    ghost function TxView(): (t: Transmission)
      requires TxValid()
      reads this
      ensures t.Valid()
    {
      match phase
      case TxIdle => Quiet
      case WaitFC => Waiting(txMessage, txCfs, txDeadline)
      case Sending => Stalled(txMessage, txCfs)
    }

    ghost function View(): (e: Endpoint)
      requires Valid()
      reads this, rxBuf
      ensures e.Valid()
    {
      Endpoint(RxView(), TxView())
    }

    constructor (config: Config)
      ensures Valid() && View() == FRESH && cfg == config && fresh(rxBuf)
    {
      cfg := config;
      receiving, rxExpected, rxReceived, rxSn, rxDeadline, dataReady := false, 0, 0, 0, 0, false;
      rxBuf := new Byte[MAX_PAYLOAD];
      phase, txData, txTotal, txOffset, txSn := TxIdle, null, 0, 0, 0;
      txBsCount, txBsRem, txStMin, txDeadline := 0, 0, 0, 0;
      txMessage, txCfs := [], 0;
    }

    method ProcessFrame(f: CanFrame, now: Tick, room: nat) returns (r: Result, sent: seq<CanFrame>)
      requires Valid() && BufferIntact()
      modifies this, rxBuf
      ensures Valid() && BufferIntact() && txData == old(txData)
      ensures Step(cfg, old(View()), Receive(f, now, room)) == Outcome(View(), r, sent, [])
    {
      hide OnSingle, OnFirst, OnConsecutive, OnFlowControl, CfCount, Offset;
      if f.id != cfg.rxId || f.dlc == 0 {
        return Error, [];
      }
      match PciType(f)
      case 0 =>
        r := HandleSf(f);
        sent := [];
      case 1 => r, sent := HandleFf(f, now, room);
      case 2 =>
        r := HandleCf(f, now);
        sent := [];
      case 3 => r, sent := HandleFc(f, now, room);
      case _ => return Error, [];
    }

    /** Copies `f.data[from..from + n]` to the buffer. */
    method Store(at: nat, f: CanFrame, from: nat, n: nat)
      requires at + n <= rxBuf.Length && from + n <= 8
      modifies rxBuf
      ensures rxBuf[..at + n] == old(rxBuf[..at]) + f.data[from..from + n]
    {
      forall i | 0 <= i < n {
        rxBuf[at + i] := f.data[from + i];
      }
    }

    method HandleSf(f: CanFrame) returns (r: Result)
      requires RxValid() && f.dlc >= 1
      modifies `receiving, `rxExpected, `rxReceived, `dataReady, rxBuf
      ensures RxValid() && RxOutcome(RxView(), r, []) == OnSingle(old(RxView()), f)
    {
      var len := PciLow(f);
      if len == 0 || f.dlc < 1 || len > f.dlc - 1 {
        return Error;
      }
      // A four-bit length cannot exceed MAX_PAYLOAD.
      dataReady, receiving, rxExpected, rxReceived := false, false, len, len;
      Store(0, f, 1, len);
      dataReady := true;
      r := Ok;
    }

    method HandleFf(f: CanFrame, now: Tick, room: nat) returns (r: Result, sent: seq<CanFrame>)
      requires RxValid()
      modifies `receiving, `rxExpected, `rxReceived, `rxSn, `rxDeadline, `dataReady, rxBuf
      ensures RxValid() && RxOutcome(RxView(), r, sent) == OnFirst(cfg, old(RxView()), f, now, room)
    {
      if f.dlc < 8 {
        return Error, [];
      }
      var len := FirstFrameLength(f);
      if len < 8 {
        return Error, [];
      }
      // A twelve-bit length cannot exceed MAX_PAYLOAD.
      dataReady, rxExpected, rxReceived, rxSn, receiving := false, len, 6, 1, true;
      rxDeadline := Wrap32(now + cfg.nCr);
      Store(0, f, 2, 6);
      sent := SendFc(CTS, cfg.blockSize, cfg.stMin, room);
      EmittedFlowControlBytes(cfg.txId, CTS, cfg.blockSize, cfg.stMin);
      r := Pending;
    }

    method HandleCf(f: CanFrame, now: Tick) returns (r: Result)
      requires RxValid() && f.dlc >= 1
      modifies `receiving, `rxReceived, `rxSn, `rxDeadline, `dataReady, rxBuf
      ensures RxValid() && RxOutcome(RxView(), r, []) == OnConsecutive(cfg, old(RxView()), f, now)
    {
      hide Wrap32, PciLow, OnConsecutive;
      ghost var before := RxView();
      OnConsecutiveCases(cfg, before, f, now);
      if !receiving {
        return Error;
      }
      if PciLow(f) != rxSn {
        return WrongSN;
      }
      rxSn := (rxSn + 1) % 16;
      var remaining := rxExpected - rxReceived;
      var copyLen := if remaining < 7 then remaining else 7;
      if f.dlc > 0 && copyLen > f.dlc - 1 {
        copyLen := f.dlc - 1;
      }
      if rxReceived + copyLen > MAX_PAYLOAD {
        assert false; // the source returns Overflow here
      }
      assert copyLen == Min(before.expected - |before.got|, f.dlc - 1);
      Store(rxReceived, f, 1, copyLen);
      rxReceived := rxReceived + copyLen;
      assert rxBuf[..rxReceived] == before.got + f.data[1..1 + copyLen];
      rxDeadline := Wrap32(now + cfg.nCr);
      if rxReceived >= rxExpected {
        rxReceived, receiving, dataReady := rxExpected, false, true;
        return Ok;
      }
      r := Pending;
    }

    method HandleFc(f: CanFrame, now: Tick, room: nat) returns (r: Result, sent: seq<CanFrame>)
      requires TxValid() && BufferIntact()
      modifies `phase, `txOffset, `txSn, `txBsCount, `txBsRem, `txStMin, `txDeadline, `txCfs
      ensures TxValid() && BufferIntact()
      ensures TxOutcome(TxView(), r, sent) == OnFlowControl(cfg, old(TxView()), f, now, room)
    {
      if phase != WaitFC || f.dlc < 3 {
        return Error, [];
      }
      var fs, bs, st := PciLow(f), f.data[1], f.data[2];
      if fs == OVFL {
        return Overflow, [];
      }
      if fs == WAIT {
        txDeadline := Wrap32(now + cfg.nBs);
        return Pending, [];
      }
      if fs != CTS {
        return Error, [];
      }
      txBsRem, txBsCount := bs, 0;
      txStMin := if st <= 0x7F then st else 1;
      phase := Sending;
      r, sent := SendNextCf(now, room);
    }

    /** The frame is built byte by byte. Of the type nibble nothing is left: the receiver of this frame
        finds a single frame of length `fs`. */
    method SendFc(fs: nat, bs: Byte, st: Byte, room: nat) returns (sent: seq<CanFrame>)
      requires fs < 16
      ensures sent == if room == 0 then [] else [Frame(cfg.txId, [fs, bs, st, 0, 0, 0, 0, 0], 3)]
      ensures forall f <- sent :: PciType(f) == SINGLE && PciLow(f) == fs
    {
      var pci := 0x30 * 16 + fs % 16;
      var data: seq<Byte> := [pci % 256, bs, st, 0, 0, 0, 0, 0];
      sent := if room == 0 then [] else [Frame(cfg.txId, data, 3)];
    }

    method Send(data: array?<Byte>, length: nat, now: Tick, room: nat) returns (r: Result, sent: seq<CanFrame>)
      requires TxValid()
      requires data != null ==> length <= data.Length && data != rxBuf
      modifies `phase, `txData, `txTotal, `txOffset, `txSn, `txBsCount, `txBsRem, `txDeadline, `txMessage, `txCfs
      ensures TxValid()
      ensures data == null ==> TxView() == old(TxView()) && r == Error && sent == []
      ensures data != null ==>
                TxOutcome(TxView(), r, sent) == OnSend(cfg, old(TxView()), data[..length], now, room)
      ensures old(BufferIntact()) ==> BufferIntact()
      ensures sent != [] && length > 7 ==> BufferIntact() && txData == data
    {
      hide FirstFrame, SingleFrame;
      if data == null || length == 0 || length > MAX_PAYLOAD {
        return Error, [];
      }
      if length <= 7 {
        if room == 0 {
          return Error, [];
        }
        return Ok, [SingleFrame(cfg.txId, data[..length])];
      }
      if room == 0 {
        return Error, [];
      }
      sent := [FirstFrame(cfg.txId, data[..length])];
      txData, txTotal, txOffset, txSn, txBsCount, txBsRem := data, length, 6, 1, 0, 0;
      phase, txDeadline := WaitFC, Wrap32(now + cfg.nBs);
      txMessage, txCfs := data[..length], 0;
      r := Pending;
    }

    /** The frame that the loop cuts from the retained buffer is the next one of the message. */
    method BuildCf() returns (cf: CanFrame, copyLen: nat)
      requires TxCursor() && txData[..txTotal] == txMessage && txCfs < CfCount(txTotal)
      ensures cf == ConsecutiveFrame(cfg.txId, txMessage, txCfs + 1)
      ensures txOffset + copyLen == Offset(txTotal, txCfs + 1)
    {
      OffsetEnd(txTotal, txCfs);
      hide CfCount;
      var remaining := txTotal - txOffset;
      copyLen := if remaining < 7 then remaining else 7;
      assert txOffset == 6 + 7 * txCfs;
      assert txData[..txTotal][txOffset..txOffset + copyLen] == txData[txOffset..txOffset + copyLen];
      cf := Frame(cfg.txId, Padded([0x20 + txSn] + txData[txOffset..txOffset + copyLen]), copyLen + 1);
    }

    /** The cursor moves past one consecutive frame. */
    method Advance(copyLen: nat)
      requires TxCursor() && txCfs < CfCount(txTotal)
      requires txOffset + copyLen == Offset(txTotal, txCfs + 1)
      modifies `txOffset, `txSn, `txBsCount, `txCfs
      ensures TxCursor() && txCfs == old(txCfs) + 1
      ensures txBsCount == if old(txBsCount) == 255 then 0 else old(txBsCount) + 1
    {
      hide CfCount, Offset;
      txOffset, txSn, txBsCount := txOffset + copyLen, (txSn + 1) % 16, (txBsCount + 1) % 256;
      txCfs := txCfs + 1;
    }

    method SendNextCf(now: Tick, room: nat) returns (r: Result, sent: seq<CanFrame>)
      requires TxValid() && BufferIntact() && phase == Sending && txBsCount == 0
      modifies `phase, `txOffset, `txSn, `txBsCount, `txDeadline, `txCfs
      ensures TxValid() && BufferIntact()
      ensures TxOutcome(TxView(), r, sent) == Burst(cfg, txMessage, old(txCfs), txBsRem, now, room)
    {
      hide CfRange, CfCount, Offset, ConsecutiveFrame, Wrap32, Burst, Budget;
      sent := [];
      CfRangeSnoc(cfg.txId, txMessage, txCfs, txCfs);
      ghost var start, count := txCfs, CfCount(txTotal);
      ghost var budget := Budget(count - start, txBsRem);
      while txOffset < txTotal
        invariant phase == Sending && TxCursor()
        invariant start <= txCfs && txCfs - start <= room && txCfs - start <= budget
        invariant sent == CfRange(cfg.txId, txMessage, start, txCfs)
        invariant txBsRem != 0 ==> txBsCount == txCfs - start
        decreases count - txCfs
      {
        OffsetEnd(txTotal, txCfs);
        BurstEnds(cfg, txMessage, start, txCfs, txBsRem, now, room);
        if txBsRem != 0 && txBsCount >= txBsRem {
          phase, txDeadline, txBsCount := WaitFC, Wrap32(now + cfg.nBs), 0;
          return Pending, sent;
        }
        var cf, copyLen := BuildCf();
        if |sent| == room {
          return Error, sent;
        }
        CfRangeSnoc(cfg.txId, txMessage, start, txCfs);
        sent := sent + [cf];
        Advance(copyLen);
      }
      OffsetEnd(txTotal, txCfs);
      BurstEnds(cfg, txMessage, start, txCfs, txBsRem, now, room);
      phase := TxIdle;
      r := Ok;
    }

    method GetData(buffer: array?<Byte>, max: nat) returns (n: nat)
      requires Valid()
      requires buffer != null ==> max <= buffer.Length && buffer != rxBuf
      modifies this, if buffer == null then {} else {buffer}
      ensures Valid()
      ensures buffer == null ==> View() == old(View()) && n == 0
      ensures buffer != null ==>
                && var o := Step(cfg, old(View()), Read(max));
                && View() == o.next && n == |o.delivered| <= max
                && buffer[..] == o.delivered + old(buffer[n..])
    {
      if !dataReady || buffer == null {
        return 0;
      }
      n := if rxReceived < max then rxReceived else max;
      forall i | 0 <= i < n {
        buffer[i] := rxBuf[i];
      }
      dataReady, rxReceived := false, 0;
    }

    method Update(now: Tick)
      requires Valid()
      modifies this
      ensures Valid() && View() == Step(cfg, old(View()), Event.Update(now)).next
      ensures old(BufferIntact()) ==> BufferIntact()
    {
      hide CfCount, Offset;
      if receiving && rxDeadline > 0 && now >= rxDeadline {
        receiving, rxReceived, rxExpected, rxDeadline := false, 0, 0, 0;
      }
      if phase == WaitFC && txDeadline > 0 && now >= txDeadline {
        phase := TxIdle;
      }
    }
  }
  /** Where a burst can stop: at the end of the message, after a whole block, or because the driver
      refuses; otherwise one more frame belongs to it. */
  lemma BurstEnds(cfg: Config, m: seq<Byte>, start: nat, at: nat, bs: Byte, now: Tick, room: nat)
    requires 8 <= |m| <= MAX_PAYLOAD && start < CfCount(|m|) && start <= at <= CfCount(|m|)
    requires at - start <= room && at - start <= Budget(CfCount(|m|) - start, bs)
    ensures var burst, frames := Burst(cfg, m, start, bs, now, room), CfRange(cfg.txId, m, start, at);
            && (at == CfCount(|m|) ==> burst == TxOutcome(Quiet, Ok, frames))
            && (at < CfCount(|m|) ==>
                  if bs != 0 && at - start >= bs
                  then burst == TxOutcome(Waiting(m, at, Wrap32(now + cfg.nBs)), Pending, frames)
                  else if at - start == room then burst == TxOutcome(Stalled(m, at), Error, frames)
                  else at + 1 - start <= Budget(CfCount(|m|) - start, bs))
  {
    hide CfCount, CfRange, Wrap32;
  }

  lemma OnConsecutiveCases(cfg: Config, r: Reassembly, f: CanFrame, now: Tick)
    requires r.Valid() && f.dlc >= 1
    ensures var o := OnConsecutive(cfg, r, f, now);
            && (!r.Partial? ==> o == RxOutcome(r, Error, []))
            && (r.Partial? && PciLow(f) != r.sn ==> o == RxOutcome(r, WrongSN, []))
            && (r.Partial? && PciLow(f) == r.sn ==>
                  var n := Min(r.expected - |r.got|, f.dlc - 1);
                  var got := r.got + f.data[1..1 + n];
                  o == if |got| == r.expected then RxOutcome(Complete(got), Ok, [])
                       else RxOutcome(Partial(r.expected, got, (r.sn + 1) % 16, Wrap32(now + cfg.nCr)), Pending, []))
  {}
}
