/** The frames of ISO 15765-2 as this library encodes and recognises them. */
module IsoTpCodec {
  import opened Words

  const MAX_PAYLOAD := 4096

  datatype RawFrame = Frame(id: nat, data: seq<Byte>, dlc: nat)

  /** A classic CAN frame: eight data bytes, of which the first `dlc` were transmitted. */
  type CanFrame = f: RawFrame | |f.data| == 8 && f.dlc <= 8
    witness Frame(0, [0, 0, 0, 0, 0, 0, 0, 0], 0)

  const SINGLE := 0
  const FIRST := 1
  const CONSECUTIVE := 2
  const FLOW_CONTROL := 3

  const CTS := 0
  const WAIT := 1
  const OVFL := 2

  function PciType(f: CanFrame): nat { f.data[0] / 16 }

  function PciLow(f: CanFrame): nat { f.data[0] % 16 }

  /** A zero-initialised data field whose first bytes have been filled in. */
  function Padded(s: seq<Byte>): (d: seq<Byte>)
    requires |s| <= 8
    ensures |d| == 8 && d[..|s|] == s
  {
    s + seq(8 - |s|, _ => 0)
  }

  function SingleFrame(id: nat, message: seq<Byte>): CanFrame
    requires 1 <= |message| <= 7
  {
    Frame(id, Padded([|message|] + message), |message| + 1)
  }

  /** The length field has twelve bits, so 4096 is written as 0. */
  function FirstFrame(id: nat, message: seq<Byte>): CanFrame
    requires 8 <= |message| <= MAX_PAYLOAD
  {
    Frame(id, [0x10 + |message| / 256 % 16, |message| % 256] + message[..6], 8)
  }

  function FirstFrameLength(f: CanFrame): nat { PciLow(f) * 256 + f.data[1] }

  /** Number of consecutive frames after the first frame: the ceiling of (len - 6) / 7. */
  function CfCount(len: nat): nat
    requires 8 <= len
  {
    (len - 6 + 6) / 7
  }

  /** Bytes sent once the first frame and `k` consecutive frames are out. */
  function Offset(len: nat, k: nat): nat { Min(6 + 7 * k, len) }

  function ConsecutiveFrame(id: nat, message: seq<Byte>, k: nat): CanFrame
    requires 8 <= |message| <= MAX_PAYLOAD && 1 <= k <= CfCount(|message|)
  {
    var chunk := message[Offset(|message|, k - 1)..Offset(|message|, k)];
    Frame(id, Padded([0x20 + k % 16] + chunk), |chunk| + 1)
  }

  /** Consecutive frames `from + 1` to `to`, in order. */
  function CfRange(id: nat, message: seq<Byte>, from: nat, to: nat): (s: seq<CanFrame>)
    requires 8 <= |message| <= MAX_PAYLOAD && from <= to <= CfCount(|message|)
    ensures |s| == to - from
  {
    seq<CanFrame>(to - from, i requires 0 <= i < to - from => ConsecutiveFrame(id, message, from + 1 + i))
  }

  /** The first frame and the first `k` consecutive frames of a message. */
  function Wire(id: nat, message: seq<Byte>, k: nat): (s: seq<CanFrame>)
    requires 8 <= |message| <= MAX_PAYLOAD && k <= CfCount(|message|)
    ensures |s| == k + 1
  {
    [FirstFrame(id, message)] + CfRange(id, message, 0, k)
  }

  /** What `send_fc` transmits. Its type nibble is computed as `0x30 << 4` and then truncated to
      eight bits, so the byte that leaves is just the flow status. */
  function EmittedFlowControl(id: nat, fs: nat, bs: Byte, st: Byte): CanFrame
    requires fs < 16
  {
    Frame(id, Padded([(0x30 * 16 + fs) % 256, bs, st]), 3)
  }

  /** A flow control frame with the type nibble that ISO 15765-2 gives it. */
  function FlowControl(id: nat, fs: nat, bs: Byte, st: Byte): CanFrame
    requires fs < 16
  {
    Frame(id, Padded([0x30 + fs, bs, st]), 3)
  }

  function FirstFrameBytes(f: CanFrame): seq<Byte> { f.data[2..8] }

  function ConsecutiveBytes(f: CanFrame): seq<Byte>
    requires f.dlc >= 1
  {
    f.data[1..f.dlc]
  }

  /** The text that a first frame followed by consecutive frames carries. */
  function Spelled(frames: seq<CanFrame>): seq<Byte>
    requires forall f <- frames :: f.dlc >= 1
  {
    if frames == [] then []
    else if |frames| == 1 then FirstFrameBytes(frames[0])
    else Spelled(frames[..|frames| - 1]) + ConsecutiveBytes(frames[|frames| - 1])
  }

  /** A single frame: the length, the text, zeros. */
  lemma SingleFrameShape(id: nat, message: seq<Byte>)
    requires 1 <= |message| <= 7
    ensures var f := SingleFrame(id, message);
            && f.id == id && f.dlc == |message| + 1 && f.data[0] == |message|
            && f.data[1..|message| + 1] == message && forall k | |message| < k < 8 :: f.data[k] == 0
  {
    PaddedText(|message|, message);
  }

  /** A first frame: twelve bits of length behind the type, high byte first, and six bytes of text. */
  lemma FirstFrameShape(id: nat, message: seq<Byte>)
    requires 8 <= |message| <= MAX_PAYLOAD
    ensures var f := FirstFrame(id, message);
            && f.id == id && f.dlc == 8 && 0x10 <= f.data[0] <= 0x1F && f.data[2..8] == message[..6]
            && 256 * (f.data[0] as int - 0x10) + f.data[1] as int == if |message| == 4096 then 0 else |message|
  {
    if |message| < 4096 {
      assert |message| / 256 % 16 == |message| / 256;
    }
    assert FirstFrame(id, message).data[2..8] == message[..6];
  }

  lemma CfShape(id: nat, message: seq<Byte>, k: nat)
    requires 8 <= |message| <= MAX_PAYLOAD && 1 <= k <= CfCount(|message|)
    ensures var f := ConsecutiveFrame(id, message, k);
            && PciType(f) == CONSECUTIVE && PciLow(f) == k % 16 && 2 <= f.dlc
            && ConsecutiveBytes(f) == message[Offset(|message|, k - 1)..Offset(|message|, k)]
            && f.dlc == 1 + Offset(|message|, k) - Offset(|message|, k - 1)
            && Offset(|message|, k - 1) == 6 + 7 * (k - 1)
  {
    CfChunk(|message|, k);
    hide Offset, CfCount, Padded;
    var chunk := message[Offset(|message|, k - 1)..Offset(|message|, k)];
    PaddedText(0x20 + k % 16, chunk);
  }

  /** A consecutive frame: type and number, text, zeros. */
  lemma CfBytes(id: nat, message: seq<Byte>, k: nat)
    requires 8 <= |message| <= MAX_PAYLOAD && 1 <= k <= CfCount(|message|)
    ensures var f := ConsecutiveFrame(id, message, k);
            f.id == id && f.data[0] == 0x20 + k % 16 && forall j | f.dlc <= j < 8 :: f.data[j] == 0
  {
    CfChunk(|message|, k);
    hide Offset, CfCount;
  }

  lemma CfChunk(len: nat, k: nat)
    requires 8 <= len && 1 <= k <= CfCount(len)
    ensures Offset(len, k - 1) == 6 + 7 * (k - 1) < Offset(len, k) <= Offset(len, k - 1) + 7
    ensures Offset(len, k) <= len
  {}

  lemma PaddedText(first: Byte, text: seq<Byte>)
    requires |text| <= 7
    ensures var d := Padded([first] + text); |d| == 8 && d[0] == first && d[1..1 + |text|] == text
  {
    var d := Padded([first] + text);
    assert d[..1 + |text|] == [first] + text;
    assert d[0] == d[..1 + |text|][0] && d[1..1 + |text|] == d[..1 + |text|][1..];
  }

  /** The length that a receiver reads back from a first frame is the message's length exactly when
      it fits in twelve bits; at 4096, which `send` accepts, it reads 0 and refuses the frame. */
  lemma FirstFrameLengthRoundTrip(id: nat, message: seq<Byte>)
    requires 8 <= |message| <= MAX_PAYLOAD
    ensures var f := FirstFrame(id, message);
            && PciType(f) == FIRST && f.dlc == 8 && FirstFrameBytes(f) == message[..6]
            && (FirstFrameLength(f) == |message| <==> |message| < 4096)
            && (FirstFrameLength(f) < 8 <==> |message| == 4096)
  {
    var f := FirstFrame(id, message);
    assert f.data[2..8] == message[..6];
    if |message| < 4096 {
      assert |message| / 256 % 16 == |message| / 256;
    }
  }

  /** All eight bytes of it. */
  lemma EmittedFlowControlBytes(id: nat, fs: nat, bs: Byte, st: Byte)
    requires fs < 16
    ensures EmittedFlowControl(id, fs, bs, st) == Frame(id, [fs, bs, st, 0, 0, 0, 0, 0], 3)
  {
    assert Padded([(0x30 * 16 + fs) % 256, bs, st]) == [fs, bs, st, 0, 0, 0, 0, 0];
  }

  lemma WireSnoc(id: nat, message: seq<Byte>, k: nat)
    requires 8 <= |message| <= MAX_PAYLOAD && 1 <= k <= CfCount(|message|)
    ensures Wire(id, message, k) == Wire(id, message, k - 1) + [ConsecutiveFrame(id, message, k)]
    ensures Wire(id, message, k)[k] == ConsecutiveFrame(id, message, k)
  {
    hide ConsecutiveFrame, FirstFrame, CfCount, Offset;
  }

  lemma CfRangeSnoc(id: nat, message: seq<Byte>, from: nat, to: nat)
    requires 8 <= |message| <= MAX_PAYLOAD && from <= to < CfCount(|message|)
    ensures CfRange(id, message, from, to) + [ConsecutiveFrame(id, message, to + 1)]
            == CfRange(id, message, from, to + 1)
    ensures CfRange(id, message, from, from) == []
  {
    hide ConsecutiveFrame, CfCount;
  }

  lemma OffsetEnd(len: nat, k: nat)
    requires 8 <= len && k <= CfCount(len)
    ensures Offset(len, k) < len <==> k < CfCount(len)
    ensures k > 0 ==> Offset(len, k - 1) <= Offset(len, k)
  {}

  lemma SpelledSnoc(frames: seq<CanFrame>, f: CanFrame)
    requires frames != [] && f.dlc >= 1 && forall g <- frames :: g.dlc >= 1
    ensures forall g <- frames + [f] :: g.dlc >= 1
    ensures Spelled(frames + [f]) == Spelled(frames) + ConsecutiveBytes(f)
  {
    hide ConsecutiveBytes, FirstFrameBytes;
    assert (frames + [f])[..|frames|] == frames;
  }

  lemma SpelledFirst(f: CanFrame)
    requires f.dlc >= 1
    ensures Spelled([f]) == FirstFrameBytes(f)
  {}

  /** The frames that a message is cut into spell exactly its first bytes. */
  lemma {:induction false} WireSpells(id: nat, message: seq<Byte>, k: nat)
    requires 8 <= |message| <= MAX_PAYLOAD && k <= CfCount(|message|)
    ensures forall f <- Wire(id, message, k) :: f.dlc >= 1
    ensures Spelled(Wire(id, message, k)) == message[..Offset(|message|, k)]
    ensures k == CfCount(|message|) ==> Spelled(Wire(id, message, k)) == message
  {
    hide Wire, FirstFrame, ConsecutiveFrame, CfCount, FirstFrameBytes, ConsecutiveBytes, Spelled, Offset;
    OffsetBounds(|message|, k);
    if k == 0 {
      FirstFrameLengthRoundTrip(id, message);
      WireStart(id, message);
      SpelledFirst(FirstFrame(id, message));
    } else {
      WireSpells(id, message, k - 1);
      WireSnoc(id, message, k);
      CfShape(id, message, k);
      SpelledSnoc(Wire(id, message, k - 1), ConsecutiveFrame(id, message, k));
      TakeThenSlice(message, Offset(|message|, k - 1), Offset(|message|, k));
    }
    if k == CfCount(|message|) {
      assert message[..|message|] == message;
    }
  }

  lemma WireStart(id: nat, message: seq<Byte>)
    requires 8 <= |message| <= MAX_PAYLOAD
    ensures Wire(id, message, 0) == [FirstFrame(id, message)] && Offset(|message|, 0) == 6
  {
    hide FirstFrame, ConsecutiveFrame;
  }

  lemma OffsetBounds(len: nat, k: nat)
    requires 8 <= len && k <= CfCount(len)
    ensures Offset(len, k) <= len && (k == CfCount(len) ==> Offset(len, k) == len)
    ensures k > 0 ==> Offset(len, k - 1) <= Offset(len, k)
  {}

  lemma TakeThenSlice<T>(s: seq<T>, i: nat, j: nat)
    requires i <= j <= |s|
    ensures s[..i] + s[i..j] == s[..j]
  {}

  /** A flow control frame emitted by this library is never recognised as one: it reads as a single
      frame, whose length is the flow status. The frame of ISO 15765-2 is recognised. */
  lemma EmittedFlowControlType(id: nat, fs: nat, bs: Byte, st: Byte)
    requires fs < 16
    ensures PciType(EmittedFlowControl(id, fs, bs, st)) == SINGLE
    ensures PciLow(EmittedFlowControl(id, fs, bs, st)) == fs
    ensures PciType(FlowControl(id, fs, bs, st)) == FLOW_CONTROL
    ensures PciLow(FlowControl(id, fs, bs, st)) == fs
  {
    var e := Padded([(0x30 * 16 + fs) % 256, bs, st]);
    var w := Padded([0x30 + fs, bs, st]);
    assert e[0] == e[..3][0] && w[0] == w[..3][0];
  }
}
