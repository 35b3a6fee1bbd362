/** CRC-16 CCITT: the loops against a fold, how checksums compose, and which errors they detect. */
module Crc16 {

  // The register's operations, and what is needed of them.

  function Xor(x: bv16, y: bv16): bv16 { x ^ y }

  function Double(x: bv16): bv16 { x << 1 }

  predicate Top(x: bv16) { x & 0x8000 != 0 }

  predicate Odd(x: bv16) { x & 1 != 0 }

  const POLY: bv16 := 0x1021
  const TOP: bv16 := 0x8000

  lemma XorFacts(a: bv16, b: bv16, c: bv16)
    ensures Xor(Xor(a, b), c) == Xor(Xor(a, c), b)
    ensures Xor(a, b) == Xor(b, a) && Xor(a, 0) == a && Xor(a, a) == 0 && Xor(Xor(a, b), b) == a
  {}

  lemma DoubleLinear(a: bv16, b: bv16)
    ensures Double(Xor(a, b)) == Xor(Double(a), Double(b))
  {}

  lemma TopLinear(a: bv16, b: bv16)
    ensures Top(Xor(a, b)) <==> Top(a) != Top(b)
  {}

  lemma OddLinear(a: bv16, b: bv16)
    ensures Odd(Xor(a, b)) <==> Odd(a) != Odd(b)
  {}

  lemma LinearFacts(a: bv16, b: bv16)
    ensures Double(Xor(a, b)) == Xor(Double(a), Double(b))
    ensures Top(Xor(a, b)) <==> Top(a) != Top(b)
    ensures Odd(Xor(a, b)) <==> Odd(a) != Odd(b)
  {
    hide Xor, Double, Top, Odd;
    DoubleLinear(a, b);
    TopLinear(a, b);
    OddLinear(a, b);
  }

  lemma DoubleFacts(a: bv16, b: bv16)
    ensures !Odd(Double(a))
    ensures Double(a) == Double(b) && Top(a) == Top(b) ==> a == b
  {}

  lemma ConstFacts()
    ensures Double(TOP) == 0 && Top(TOP) && Odd(POLY) && Double(0) == 0 && !Top(0)
  {}

  /** One turn of the inner loop. */
  function Shift(crc: bv16): bv16 {
    if Top(crc) then Xor(Double(crc), POLY) else Double(crc)
  }

  function Shifts(crc: bv16, n: nat): bv16
    decreases n
  {
    if n == 0 then crc else Shifts(Shift(crc), n - 1)
  }

  function Aligned(b: bv8): bv16 { (b as bv16) << 8 }

  function Absorb(crc: bv16, b: bv8): bv16 { Shifts(Xor(crc, Aligned(b)), 8) }

  function Crc(data: seq<bv8>, init: bv16): bv16 {
    if data == [] then init else Absorb(Crc(data[..|data| - 1], init), data[|data| - 1])
  }

  method Crc16Ccitt(data: array<bv8>, len: nat, init: bv16) returns (crc: bv16)
    requires len <= data.Length
    ensures crc == Crc(data[..len], init)
  {
    hide Double, Top, Aligned, Xor;
    crc := init;
    for i := 0 to len
      invariant crc == Crc(data[..i], init)
    {
      crc := Xor(crc, Aligned(data[i]));
      ghost var start := crc;
      for j := 0 to 8
        invariant Shifts(crc, 8 - j) == Shifts(start, 8)
      {
        if Top(crc) {
          crc := Xor(Double(crc), POLY);
        } else {
          crc := Double(crc);
        }
      }
      assert data[..i + 1][..i] == data[..i];
    }
  }

  /** A checksum can be continued: splitting the data anywhere gives the same result. */
  lemma {:induction false} CrcAppend(a: seq<bv8>, b: seq<bv8>, init: bv16)
    ensures Crc(a + b, init) == Crc(b, Crc(a, init))
    decreases |b|
  {
    hide Absorb;
    if b == [] {
      assert a + b == a;
    } else {
      CrcAppend(a, b[..|b| - 1], init);
      assert (a + b)[..|a + b| - 1] == a + b[..|b| - 1];
    }
  }

  // ---- Bit by bit ----

  /** The register after one more message bit. */
  function Feed(crc: bv16, bit: bool): bv16 { Shift(if bit then Xor(crc, TOP) else crc) }

  function FeedAll(crc: bv16, bits: seq<bool>): bv16
    decreases |bits|
  {
    if bits == [] then crc else FeedAll(Feed(crc, bits[0]), bits[1..])
  }

  /** The upper `n` bits of `x`, most significant first. */
  function Bits(x: bv16, n: nat): (s: seq<bool>)
    ensures |s| == n
    decreases n
  {
    if n == 0 then [] else [Top(x)] + Bits(Double(x), n - 1)
  }

  function Doubles(x: bv16, n: nat): bv16
    decreases n
  {
    if n == 0 then x else Doubles(Double(x), n - 1)
  }

  function ByteBits(b: bv8): (s: seq<bool>)
    ensures |s| == 8
  {
    Bits(Aligned(b), 8)
  }

  function MessageBits(data: seq<bv8>): (s: seq<bool>)
    ensures |s| == 8 * |data|
  {
    if data == [] then [] else MessageBits(data[..|data| - 1]) + ByteBits(data[|data| - 1])
  }

  /** The value of bit k of a byte. */
  predicate BitOf(b: bv8, k: nat)
    requires k < 8
  {
    (b >> k) & 1 == 1
  }

  function UpperNibble(b: bv8): seq<bool> { [BitOf(b, 7), BitOf(b, 6), BitOf(b, 5), BitOf(b, 4)] }

  function LowerNibble(b: bv8): seq<bool> { [BitOf(b, 3), BitOf(b, 2), BitOf(b, 1), BitOf(b, 0)] }

  lemma ByteBitsAre(b: bv8)
    ensures ByteBits(b) == UpperNibble(b) + LowerNibble(b)
  {
    hide TopFour, Aligned, Bits, Nibble, UpperNibble, LowerNibble;
    var x := Aligned(b);
    BitsFour(x, 4);
    BitsFour(Nibble(x), 0);
    NoBitsAtAll(Nibble(Nibble(x)));
    NibbleBits(b);
  }

  lemma NibbleBits(b: bv8)
    ensures TopFour(Aligned(b)) == UpperNibble(b) && TopFour(Nibble(Aligned(b))) == LowerNibble(b)
  {
    UpperBits(b);
    LowerBits(b);
    hide Top, Double, Aligned, Nibble, BitOf;
  }

  lemma UpperBits(b: bv8)
    ensures var x := Aligned(b);
            && (Top(x) <==> BitOf(b, 7)) && (Top(Double(x)) <==> BitOf(b, 6))
            && (Top(Double(Double(x))) <==> BitOf(b, 5)) && (Top(Double(Double(Double(x)))) <==> BitOf(b, 4))
  {}

  lemma LowerBits(b: bv8)
    ensures var x := Nibble(Aligned(b));
            && (Top(x) <==> BitOf(b, 3)) && (Top(Double(x)) <==> BitOf(b, 2))
            && (Top(Double(Double(x))) <==> BitOf(b, 1)) && (Top(Double(Double(Double(x)))) <==> BitOf(b, 0))
  {}

  /** The bits of a message are those of its bytes, the most significant one of each first. */
  lemma {:induction false} MessageBit(data: seq<bv8>, i: nat, j: nat)
    requires i < |data| && j < 8
    ensures MessageBits(data)[8 * i + j] <==> BitOf(data[i], 7 - j)
  {
    hide ByteBits, BitOf;
    if i < |data| - 1 {
      MessageBit(data[..|data| - 1], i, j);
    } else {
      ByteBitsAre(data[i]);
      hide MessageBits;
    }
  }

  lemma ShiftSplits(s: bv16, x: bv16)
    ensures Shift(Xor(s, x)) == Xor(Feed(s, Top(x)), Double(x))
  {
    hide Xor, Double, Top;
    LinearFacts(s, x);
    LinearFacts(s, TOP);
    ConstFacts();
    XorFacts(Double(s), Double(x), POLY);
    XorFacts(Double(s), 0, 0);
    XorFacts(Xor(Double(s), Double(x)), 0, 0);
  }

  /** Shifting in the upper bits of `x` all at once or one by one makes no difference. */
  lemma {:induction false} ShiftsAreFeeds(s: bv16, x: bv16, n: nat)
    ensures Shifts(Xor(s, x), n) == Xor(FeedAll(s, Bits(x, n)), Doubles(x, n))
    decreases n
  {
    hide Xor, Shift, Double, Top, Feed;
    if n > 0 {
      ShiftSplits(s, x);
      ShiftsAreFeeds(Feed(s, Top(x)), Double(x), n - 1);
      assert Bits(x, n)[1..] == Bits(Double(x), n - 1);
    }
  }

  lemma DoublesVanish(b: bv8)
    ensures Doubles(Aligned(b), 8) == 0
  {
    var x := Aligned(b);
    EightDoubles(b);
    hide Double, Aligned;
    assert Doubles(x, 8) == Doubles(Double(Double(Double(Double(x)))), 4) by {
      assert Doubles(x, 8) == Doubles(Double(Double(x)), 6);
    }
  }

  lemma EightDoubles(b: bv8)
    ensures Double(Double(Double(Double(Double(Double(Double(Double(Aligned(b))))))))) == 0
  {}

  lemma AbsorbIsFeed(c: bv16, b: bv8)
    ensures Absorb(c, b) == FeedAll(c, ByteBits(b))
  {
    hide Xor, Aligned, Bits, FeedAll, Shifts;
    ShiftsAreFeeds(c, Aligned(b), 8);
    DoublesVanish(b);
    XorFacts(FeedAll(c, ByteBits(b)), 0, 0);
  }

  lemma {:induction false} FeedAppend(c: bv16, u: seq<bool>, v: seq<bool>)
    ensures FeedAll(c, u + v) == FeedAll(FeedAll(c, u), v)
    decreases |u|
  {
    hide Feed;
    if u == [] {
      assert u + v == v;
    } else {
      FeedAppend(Feed(c, u[0]), u[1..], v);
      assert (u + v)[1..] == u[1..] + v;
    }
  }

  /** The byte-wise loops compute the bit-serial checksum of the message's bits. */
  lemma {:induction false} CrcIsBitSerial(data: seq<bv8>, init: bv16)
    ensures Crc(data, init) == FeedAll(init, MessageBits(data))
  {
    hide Absorb, FeedAll, ByteBits;
    if data == [] {
      FeedNothing(init);
    } else {
      CrcIsBitSerial(data[..|data| - 1], init);
      AbsorbIsFeed(Crc(data[..|data| - 1], init), data[|data| - 1]);
      FeedAppend(init, MessageBits(data[..|data| - 1]), ByteBits(data[|data| - 1]));
    }
  }

  lemma FeedNothing(c: bv16)
    ensures FeedAll(c, []) == c
  {}

  // ---- Detection ----

  lemma ShiftInjective(a: bv16, b: bv16)
    requires Shift(a) == Shift(b)
    ensures a == b
  {
    // POLY is odd, so the lowest bit of the result tells whether it was added.
    hide Xor, Double, Top, Odd;
    ConstFacts();
    DoubleFacts(a, b);
    DoubleFacts(b, a);
    LinearFacts(Double(a), POLY);
    LinearFacts(Double(b), POLY);
    XorFacts(Double(a), POLY, 0);
    XorFacts(Double(b), POLY, 0);
  }

  lemma FeedInjective(a: bv16, b: bv16, bit: bool)
    requires Feed(a, bit) == Feed(b, bit)
    ensures a == b
  {
    hide Xor, Shift;
    ShiftInjective(if bit then Xor(a, TOP) else a, if bit then Xor(b, TOP) else b);
    XorFacts(a, TOP, 0);
    XorFacts(b, TOP, 0);
  }

  lemma {:induction false} SameTail(a: bv16, b: bv16, w: seq<bool>)
    requires a != b
    ensures FeedAll(a, w) != FeedAll(b, w)
    decreases |w|
  {
    hide Feed;
    if w != [] {
      if Feed(a, w[0]) == Feed(b, w[0]) {
        FeedInjective(a, b, w[0]);
      }
      SameTail(Feed(a, w[0]), Feed(b, w[0]), w[1..]);
    }
  }

  function WithLowest(x: bv16): bv16 { x | 1 }

  /** The lowest `i + 1` bits. */
  function Window(i: nat): bv16 {
    if i == 0 then 1 else WithLowest(Double(Window(i - 1)))
  }

  predicate Meets(e: bv16, mask: bv16) { e & mask != 0 }

  lemma OddMeets(e: bv16, mask: bv16)
    ensures Odd(e) ==> Meets(e, WithLowest(mask)) && Meets(e, 1)
  {}

  lemma MeetsDoubled(e: bv16, mask: bv16)
    ensures !Top(mask) && Meets(e, mask) ==> Meets(Double(e), WithLowest(Double(mask)))
  {}

  lemma ZeroMeetsNothing(mask: bv16)
    ensures !Meets(0, mask)
  {}

  lemma WindowNext(i: nat)
    ensures Window(i + 1) == WithLowest(Double(Window(i)))
  {
    hide Double, WithLowest;
  }

  lemma WindowBelowTop(i: nat)
    requires i < 15
    ensures !Top(Window(i))
  {
    assert Window(4) == 0x1F;
    assert Window(8) == 0x1FF;
    assert Window(12) == 0x1FFF;
  }

  /** The difference of two registers after one more bit each. */
  lemma FeedDifference(a: bv16, b: bv16, x: bool, y: bool)
    ensures var e := Xor(a, b);
            Xor(Feed(a, x), Feed(b, y))
            == if Top(e) != (x != y) then Xor(Double(e), POLY) else Double(e)
  {
    hide Xor, Double, Top, Odd;
    var a', b' := if x then Xor(a, TOP) else a, if y then Xor(b, TOP) else b;
    LinearFacts(a, b);
    LinearFacts(a, TOP);
    LinearFacts(b, TOP);
    ConstFacts();
    XorFacts(Double(a), 0, 0);
    XorFacts(Double(b), 0, 0);
    ShiftDifference(Double(a), Double(b));
  }

  lemma ShiftDifference(a: bv16, b: bv16)
    ensures Xor(Xor(a, POLY), Xor(b, POLY)) == Xor(a, b)
    ensures Xor(Xor(a, POLY), b) == Xor(Xor(a, b), POLY) == Xor(a, Xor(b, POLY))
  {
    hide Xor;
    XorFacts(a, b, POLY);
    XorFacts(b, a, POLY);
    XorFacts(b, POLY, a);
    XorFacts(a, Xor(b, POLY), POLY);
    XorFacts(Xor(a, b), POLY, POLY);
    XorFacts(a, POLY, Xor(b, POLY));
  }

  /** A difference in the lowest bits stays in the lowest bits, one more for each message bit. */
  lemma WindowGrows(a: bv16, b: bv16, x: bool, y: bool, i: nat)
    requires i < 15 && Meets(Xor(a, b), Window(i))
    ensures Meets(Xor(Feed(a, x), Feed(b, y)), Window(i + 1))
  {
    hide Xor, Double, Top, Odd, Meets, Feed, Window, WithLowest;
    var e := Xor(a, b);
    FeedDifference(a, b, x, y);
    WindowBelowTop(i);
    ConstFacts();
    DoubleFacts(e, e);
    OddLinear(Double(e), POLY);
    MeetsDoubled(e, Window(i));
    OddMeets(Xor(Double(e), POLY), Double(Window(i)));
    WindowNext(i);
  }

  lemma {:induction false} WindowDiffers(a: bv16, b: bv16, u: seq<bool>, v: seq<bool>, i: nat)
    requires Meets(Xor(a, b), Window(i)) && |u| == |v| && i + |u| <= 15
    ensures FeedAll(a, u) != FeedAll(b, v)
    decreases |u|
  {
    hide Xor, Meets, Feed, Window;
    if u == [] {
      ZeroMeetsNothing(Window(i));
      XorFacts(a, a, 0);
    } else {
      WindowGrows(a, b, u[0], v[0], i);
      WindowDiffers(Feed(a, u[0]), Feed(b, v[0]), u[1..], v[1..], i + 1);
    }
  }

  /** Two different strings of at most 16 bits leave any register in different states. */
  lemma {:induction false} ShortDiffers(c: bv16, u: seq<bool>, v: seq<bool>)
    requires |u| == |v| <= 16 && u != v
    ensures FeedAll(c, u) != FeedAll(c, v)
    decreases |u|
  {
    hide Xor, Double, Top, Odd, Meets, Feed;
    if u[0] == v[0] {
      assert u == [u[0]] + u[1..] && v == [v[0]] + v[1..];
      ShortDiffers(Feed(c, u[0]), u[1..], v[1..]);
    } else {
      FeedDifference(c, c, u[0], v[0]);
      XorFacts(c, c, 0);
      ConstFacts();
      XorFacts(0, POLY, 0);
      XorFacts(POLY, 0, 0);
      OddMeets(POLY, 1);
      WindowDiffers(Feed(c, u[0]), Feed(c, v[0]), u[1..], v[1..], 0);
    }
  }

  /** The checksum detects every burst of up to 16 bits: two messages of the same length whose bits
      agree except within 16 consecutive positions, and differ there, have different checksums. */
  lemma BurstDetected(a: seq<bv8>, b: seq<bv8>, init: bv16, p: nat, w: nat)
    requires |a| == |b| && p + w <= 8 * |a| && w <= 16
    requires var u, v := MessageBits(a), MessageBits(b);
             u[..p] == v[..p] && u[p..p + w] != v[p..p + w] && u[p + w..] == v[p + w..]
    ensures Crc(a, init) != Crc(b, init)
  {
    hide MessageBits, FeedAll, Crc;
    var u, v := MessageBits(a), MessageBits(b);
    CrcIsBitSerial(a, init);
    CrcIsBitSerial(b, init);
    FeedThree(init, u, p, p + w);
    FeedThree(init, v, p, p + w);
    var c := FeedAll(init, u[..p]);
    ShortDiffers(c, u[p..p + w], v[p..p + w]);
    SameTail(FeedAll(c, u[p..p + w]), FeedAll(c, v[p..p + w]), u[p + w..]);
  }

  lemma FeedThree(c: bv16, u: seq<bool>, p: nat, q: nat)
    requires p <= q <= |u|
    ensures FeedAll(c, u) == FeedAll(FeedAll(FeedAll(c, u[..p]), u[p..q]), u[q..])
  {
    hide FeedAll;
    assert u == (u[..p] + u[p..q]) + u[q..];
    FeedAppend(c, u[..p] + u[p..q], u[q..]);
    FeedAppend(c, u[..p], u[p..q]);
  }

  lemma {:induction false} BitsDetermine(x: bv16, y: bv16, n: nat)
    requires Bits(x, n) == Bits(y, n) && Doubles(x, n) == Doubles(y, n)
    ensures x == y
    decreases n
  {
    hide Double, Top;
    if n > 0 {
      assert Bits(x, n)[0] == Top(x) && Bits(y, n)[0] == Top(y);
      assert Bits(x, n)[1..] == Bits(Double(x), n - 1) && Bits(y, n)[1..] == Bits(Double(y), n - 1);
      BitsDetermine(Double(x), Double(y), n - 1);
      DoubleFacts(x, y);
    }
  }

  lemma AlignedInjective(a: bv8, b: bv8)
    ensures Aligned(a) == Aligned(b) ==> a == b
  {}

  lemma {:induction false} MessageBitsDetermine(a: seq<bv8>, b: seq<bv8>)
    requires |a| == |b| && MessageBits(a) == MessageBits(b)
    ensures a == b
  {
    hide Aligned, Bits, Doubles;
    if a != [] {
      var n := |a| - 1;
      var u := MessageBits(a);
      assert u[..8 * n] == MessageBits(a[..n]) == MessageBits(b[..n]);
      assert u[8 * n..] == ByteBits(a[n]) == ByteBits(b[n]);
      MessageBitsDetermine(a[..n], b[..n]);
      DoublesVanish(a[n]);
      DoublesVanish(b[n]);
      BitsDetermine(Aligned(a[n]), Aligned(b[n]), 8);
      AlignedInjective(a[n], b[n]);
      assert a == a[..n] + [a[n]] && b == b[..n] + [b[n]];
    }
  }

  /** In particular, no change confined to one byte or to two adjacent bytes goes unnoticed. */
  lemma AdjacentBytesDetected(before: seq<bv8>, x: seq<bv8>, y: seq<bv8>, after: seq<bv8>, init: bv16)
    requires |x| == |y| <= 2 && x != y
    ensures Crc(before + x + after, init) != Crc(before + y + after, init)
  {
    hide Crc, MessageBits, FeedAll;
    var c := Crc(before, init);
    CrcAppend(before + x, after, init);
    CrcAppend(before, x, init);
    CrcAppend(before + y, after, init);
    CrcAppend(before, y, init);
    CrcIsBitSerial(x, c);
    CrcIsBitSerial(y, c);
    if MessageBits(x) == MessageBits(y) {
      MessageBitsDetermine(x, y);
    }
    ShortDiffers(c, MessageBits(x), MessageBits(y));
    CrcIsBitSerial(after, Crc(x, c));
    CrcIsBitSerial(after, Crc(y, c));
    SameTail(Crc(x, c), Crc(y, c), MessageBits(after));
  }

  // ---- Parity ----

  /** The upper `n` bits of `x` have an odd number of ones. */
  predicate OddUpper(x: bv16, n: nat)
    decreases n
  {
    n > 0 && Top(x) != OddUpper(Double(x), n - 1)
  }

  /** The register has an odd number of ones. */
  predicate Parity(x: bv16) { OddUpper(x, 16) }

  lemma {:induction false} OddUpperXor(a: bv16, b: bv16, n: nat)
    ensures OddUpper(Xor(a, b), n) <==> OddUpper(a, n) != OddUpper(b, n)
    decreases n
  {
    hide Xor, Double, Top;
    if n > 0 {
      LinearFacts(a, b);
      OddUpperXor(Double(a), Double(b), n - 1);
    }
  }

  lemma ParityXor(a: bv16, b: bv16)
    ensures Parity(Xor(a, b)) <==> Parity(a) != Parity(b)
  {
    hide Xor, OddUpper;
    OddUpperXor(a, b, 16);
  }

  /** One more bit at the lower end. */
  lemma {:induction false} OddUpperMore(x: bv16, n: nat)
    ensures OddUpper(x, n + 1) <==> OddUpper(x, n) != Top(Doubles(x, n))
    decreases n
  {
    hide Double, Top;
    if n > 0 {
      OddUpperMore(Double(x), n - 1);
    }
  }

  lemma ParityDouble(x: bv16)
    ensures Parity(Double(x)) <==> Parity(x) != Top(x)
  {
    hide Double, Top, OddUpper, Doubles;
    UpperSplit(x, 15);
    OddUpperMore(Double(x), 15);
    SixteenDoubles(x);
    ConstFacts();
  }

  lemma UpperSplit(x: bv16, n: nat)
    ensures OddUpper(x, n + 1) <==> Top(x) != OddUpper(Double(x), n)
  {
    hide Double, Top;
  }

  lemma SixteenDoubles(x: bv16)
    ensures Doubles(Double(x), 15) == 0
  {
    hide Double;
    EightShifts(x);
    EightShifts(x << 8);
    assert (x << 8) << 8 == 0;
    var y := x << 8;
    assert Doubles(Double(x), 15) == Doubles(Double(Double(Double(Double(x)))), 12);
    assert Doubles(Double(Double(Double(Double(x)))), 12) == Doubles(y, 8) by {
      var z := Double(Double(Double(Double(x))));
      assert Doubles(z, 12) == Doubles(Double(Double(Double(Double(z)))), 8);
    }
    assert Doubles(y, 8) == Doubles(Double(Double(Double(Double(y)))), 4);
  }

  lemma EightShifts(x: bv16)
    ensures Double(Double(Double(Double(Double(Double(Double(Double(x)))))))) == x << 8
  {}

  lemma ParityConsts()
    ensures Parity(POLY) && Parity(TOP)
  {
    hide Top, Double, OddUpper, OddNibble, Nibble;
    FourBits(POLY, 12);
    FourBits(0x0210, 8);
    FourBits(0x2100, 4);
    FourBits(0x1000, 0);
    FourBits(TOP, 12);
    FourBits(0, 8);
    FourBits(0, 4);
    FourBits(0, 0);
    NoBits(0);
    Nibbles();
  }

  lemma NoBits(x: bv16)
    ensures !OddUpper(x, 0)
  {}

  lemma Nibbles()
    ensures Nibble(POLY) == 0x0210 && Nibble(0x0210) == 0x2100 && Nibble(0x2100) == 0x1000 && Nibble(0x1000) == 0
    ensures Nibble(TOP) == 0 && Nibble(0) == 0
    ensures OddNibble(POLY) && !OddNibble(0x0210) && OddNibble(0x2100) && OddNibble(0x1000)
    ensures OddNibble(TOP) && !OddNibble(0)
  {}

  predicate OddNibble(x: bv16) {
    (Top(x) != Top(Double(x))) != (Top(Double(Double(x))) != Top(Double(Double(Double(x)))))
  }

  function Nibble(x: bv16): bv16 { Double(Double(Double(Double(x)))) }

  lemma FourBits(x: bv16, n: nat)
    ensures OddUpper(x, n + 4) <==> OddNibble(x) != OddUpper(Nibble(x), n)
  {
    hide Top, Double;
    UpperSplit(x, n + 3);
    UpperSplit(Double(x), n + 2);
    UpperSplit(Double(Double(x)), n + 1);
    UpperSplit(Double(Double(Double(x))), n);
  }

  /** The generator polynomial is divisible by x + 1: a message bit flips the parity exactly if it is
      set. */
  lemma ParityFeed(c: bv16, bit: bool)
    ensures Parity(Feed(c, bit)) <==> Parity(c) != bit
  {
    hide Parity, Xor, Double, Top;
    var x := if bit then Xor(c, TOP) else c;
    ParityConsts();
    ParityXor(c, TOP);
    ParityDouble(x);
    ParityXor(Double(x), POLY);
  }

  /** An odd number of bits is set. */
  predicate OddOnes(bits: seq<bool>)
    decreases |bits|
  {
    bits != [] && bits[0] != OddOnes(bits[1..])
  }

  lemma {:induction false} ParityFeedAll(c: bv16, bits: seq<bool>)
    ensures Parity(FeedAll(c, bits)) <==> Parity(c) != OddOnes(bits)
    decreases |bits|
  {
    hide Parity, Feed;
    if bits != [] {
      ParityFeed(c, bits[0]);
      ParityFeedAll(Feed(c, bits[0]), bits[1..]);
    }
  }

  /** In how many positions two strings differ. */
  function Differences(u: seq<bool>, v: seq<bool>): nat
    requires |u| == |v|
    decreases |u|
  {
    if u == [] then 0 else (if u[0] == v[0] then 0 else 1) + Differences(u[1..], v[1..])
  }

  lemma {:induction false} DifferencesParity(u: seq<bool>, v: seq<bool>)
    requires |u| == |v|
    ensures Differences(u, v) % 2 == 1 <==> OddOnes(u) != OddOnes(v)
    decreases |u|
  {
    if u != [] {
      DifferencesParity(u[1..], v[1..]);
    }
  }

  /** The checksum detects every odd number of flipped bits, wherever they are. */
  lemma OddFlipsDetected(a: seq<bv8>, b: seq<bv8>, init: bv16)
    requires |a| == |b| && Differences(MessageBits(a), MessageBits(b)) % 2 == 1
    ensures Crc(a, init) != Crc(b, init)
  {
    hide MessageBits, FeedAll, Crc, Parity, OddOnes, Differences;
    CrcIsBitSerial(a, init);
    CrcIsBitSerial(b, init);
    ParityFeedAll(init, MessageBits(a));
    ParityFeedAll(init, MessageBits(b));
    DifferencesParity(MessageBits(a), MessageBits(b));
  }

  // ---- Residue ----

  function High(crc: bv16): bv8 { ((crc >> 8) & 0xFF) as bv8 }

  function Low(crc: bv16): bv8 { (crc & 0xFF) as bv8 }

  /** A message followed by its own checksum, high byte first, has checksum 0. */
  lemma Residue(data: seq<bv8>, init: bv16)
    ensures var c := Crc(data, init); Crc(data + [High(c), Low(c)], init) == 0
  {
    hide Absorb, High, Low, Crc;
    var c := Crc(data, init);
    CrcAppend(data, [High(c), Low(c)], init);
    CrcOfTwo(High(c), Low(c), c);
    ResidueStep(c);
  }

  lemma CrcOfTwo(h: bv8, l: bv8, init: bv16)
    ensures Crc([h, l], init) == Absorb(Absorb(init, h), l)
  {
    hide Absorb;
    assert [h, l][..1] == [h] && [h][..0] == [];
    assert Crc([h], init) == Absorb(Crc([], init), h);
  }

  /** Absorbing the register's own bytes shifts everything out. */
  lemma ResidueStep(c: bv16)
    ensures Absorb(Absorb(c, High(c)), Low(c)) == 0
  {
    hide Xor, High, Low, Aligned, Shifts, Double, Top;
    XorHigh(c);
    LowShifts(Low(c));
    XorFacts(Aligned(Low(c)), 0, 0);
    ZeroShifts(8);
  }

  lemma XorHigh(c: bv16)
    ensures Xor(c, Aligned(High(c))) == Low(c) as bv16
  {}

  lemma LowShifts(b: bv8)
    ensures Shifts(b as bv16, 8) == Aligned(b)
  {
  }

  lemma {:induction false} ZeroShifts(n: nat)
    ensures Shifts(0, n) == 0
  {
    hide Double, Top;
    ConstFacts();
    if n > 0 {
      ZeroShifts(n - 1);
    }
  }

  // ---- The generator ----

  /** The polynomial of a bit string, whose first bit belongs to the highest power, has the term x^e. */
  predicate Term(bits: seq<bool>, e: nat) { e < |bits| && bits[|bits| - 1 - e] }

  /** The product of the polynomial with the terms `q` and x^16 + x^12 + x^5 + 1 has the term x^e. */
  predicate ProductTerm(q: set<nat>, e: nat) {
    (((e - 16 in q) != (e - 12 in q)) != (e - 5 in q)) != (e in q)
  }

  ghost predicate IsProduct(bits: seq<bool>, q: set<nat>) {
    forall e: nat :: Term(bits, e) <==> ProductTerm(q, e)
  }

  /** The bits spell a multiple of x^16 + x^12 + x^5 + 1. */
  ghost predicate Multiple(bits: seq<bool>) {
    exists q: set<nat> :: IsProduct(bits, q)
  }

  function Sum(u: seq<bool>, v: seq<bool>): (s: seq<bool>)
    requires |u| == |v|
    ensures |s| == |u|
  {
    seq(|u|, i requires 0 <= i < |u| => u[i] != v[i])
  }

  /** The generator at the front of `n` bits. */
  function Generator(n: nat): (s: seq<bool>)
    requires n >= 17
    ensures |s| == n
  {
    seq(n, i => i in {0, 4, 11, 16})
  }

  /** One more bit acts on the sum of two registers as the sum of the two bits does. */
  lemma FeedLinear(a: bv16, b: bv16, x: bool, y: bool)
    ensures Xor(Feed(a, x), Feed(b, y)) == Feed(Xor(a, b), x != y)
  {
    hide Xor, Double, Top, Odd;
    FeedDifference(a, b, x, y);
    FeedDifference(Xor(a, b), 0, x != y, false);
    XorFacts(Xor(a, b), 0, 0);
    XorFacts(Feed(Xor(a, b), x != y), 0, 0);
    ConstFacts();
  }

  lemma {:induction false} FeedAllLinear(a: bv16, b: bv16, u: seq<bool>, v: seq<bool>)
    requires |u| == |v|
    ensures Xor(FeedAll(a, u), FeedAll(b, v)) == FeedAll(Xor(a, b), Sum(u, v))
    decreases |u|
  {
    hide Xor, Feed;
    if u != [] {
      FeedLinear(a, b, u[0], v[0]);
      FeedAllLinear(Feed(a, u[0]), Feed(b, v[0]), u[1..], v[1..]);
      assert Sum(u, v)[1..] == Sum(u[1..], v[1..]);
    }
  }

  /** The register's own bits shift everything out. */
  lemma OwnBits(c: bv16)
    ensures FeedAll(c, Bits(c, 16)) == 0
  {
    hide Xor, Bits, FeedAll, Shifts, Doubles;
    ShiftsAreFeeds(c, c, 16);
    XorFacts(c, c, 0);
    ZeroShifts(16);
    DoublesSixteen(c);
    XorFacts(FeedAll(c, Bits(c, 16)), 0, 0);
  }

  lemma DoublesSixteen(x: bv16)
    ensures Doubles(x, 16) == 0
  {
    hide Double;
    SixteenDoubles(x);
  }

  function TopFour(x: bv16): seq<bool> {
    [Top(x), Top(Double(x)), Top(Double(Double(x))), Top(Double(Double(Double(x))))]
  }

  lemma BitsFour(x: bv16, n: nat)
    ensures Bits(x, n + 4) == TopFour(x) + Bits(Nibble(x), n)
  {
    hide Top, Double, Bits;
    var y := Double(x);
    var z := Double(y);
    BitsStep(x, n + 3);
    BitsStep(y, n + 2);
    BitsStep(z, n + 1);
    BitsStep(Double(z), n);
  }

  lemma BitsStep(x: bv16, n: nat)
    ensures Bits(x, n + 1) == [Top(x)] + Bits(Double(x), n)
  {
    hide Top, Double;
  }

  lemma GeneratorNibbles()
    ensures TopFour(POLY) == [false, false, false, true] && TopFour(0x0210) == [false, false, false, false]
    ensures TopFour(0x2100) == [false, false, true, false] && TopFour(0x1000) == [false, false, false, true]
  {}

  /** The register's constant stands for the terms below x^16. */
  lemma GeneratorBits()
    ensures [true] + Bits(POLY, 16) == Generator(17)
  {
    hide TopFour, Bits, Nibble;
    BitsFour(POLY, 12);
    BitsFour(0x0210, 8);
    BitsFour(0x2100, 4);
    BitsFour(0x1000, 0);
    Nibbles();
    GeneratorNibbles();
    NoBitsAtAll(0);
  }

  lemma NoBitsAtAll(x: bv16)
    ensures Bits(x, 0) == []
  {}

  lemma FirstBit()
    ensures Feed(0, true) == POLY && Feed(0, false) == 0
  {
    hide Double, Top, Xor;
    ConstFacts();
    XorFacts(0, TOP, 0);
    XorFacts(TOP, 0, 0);
    XorFacts(0, POLY, 0);
    XorFacts(POLY, 0, 0);
  }

  function Clear(n: nat): seq<bool> { seq(n, _ => false) }

  lemma {:induction false} ClearKeepsZero(n: nat)
    ensures FeedAll(0, Clear(n)) == 0
  {
    hide Feed;
    FirstBit();
    if n > 0 {
      ClearKeepsZero(n - 1);
      assert Clear(n)[1..] == Clear(n - 1);
    }
  }

  lemma FeedFirst(c: bv16, bit: bool, bits: seq<bool>)
    ensures FeedAll(c, [bit] + bits) == FeedAll(Feed(c, bit), bits)
  {
    hide Feed;
    assert ([bit] + bits)[1..] == bits;
  }

  lemma GeneratorVanishes(n: nat)
    requires n >= 17
    ensures FeedAll(0, Generator(n)) == 0
  {
    hide Feed, FeedAll, Bits;
    FirstBit();
    FeedFirst(0, true, Bits(POLY, 16));
    OwnBits(POLY);
    GeneratorBits();
    assert Generator(n) == Generator(17) + Clear(n - 17);
    FeedAppend(0, Generator(17), Clear(n - 17));
    ClearKeepsZero(n - 17);
  }

  lemma GeneratorTerms(n: nat, e: nat)
    requires n >= 17
    ensures Term(Generator(n), e) <==> e - (n - 17) in {16, 12, 5, 0}
  {}

  /** Add or take away one term. */
  function Toggled(q: set<nat>, p: nat): set<nat> { if p in q then q - {p} else q + {p} }

  lemma ToggledProduct(q: set<nat>, p: nat, e: nat)
    ensures ProductTerm(Toggled(q, p), e) <==> ProductTerm(q, e) != (e - p in {16, 12, 5, 0})
  {}

  lemma AddGenerator(bits: seq<bool>, q: set<nat>)
    requires |bits| >= 17 && IsProduct(bits, q)
    ensures IsProduct(Sum(bits, Generator(|bits|)), Toggled(q, |bits| - 17))
  {
    hide ProductTerm, Toggled;
    var sum := Sum(bits, Generator(|bits|));
    forall e: nat ensures Term(sum, e) <==> ProductTerm(Toggled(q, |bits| - 17), e) {
      GeneratorTerms(|bits|, e);
      ToggledProduct(q, |bits| - 17, e);
      assert Term(bits, e) <==> ProductTerm(q, e);
      SumTerm(bits, Generator(|bits|), e);
    }
  }

  lemma SumTerm(u: seq<bool>, v: seq<bool>, e: nat)
    requires |u| == |v|
    ensures Term(Sum(u, v), e) <==> Term(u, e) != Term(v, e)
  {}

  lemma SumTwice(u: seq<bool>, v: seq<bool>)
    requires |u| == |v|
    ensures Sum(Sum(u, v), v) == u
  {}

  /** Adding the generator changes neither the register nor whether the bits are a multiple. */
  lemma GeneratorNeutral(bits: seq<bool>)
    requires |bits| >= 17
    ensures var sum := Sum(bits, Generator(|bits|));
            FeedAll(0, sum) == FeedAll(0, bits) && (Multiple(sum) <==> Multiple(bits))
  {
    hide FeedAll, Sum, IsProduct, Generator, Xor;
    var n := |bits|;
    var sum := Sum(bits, Generator(n));
    FeedAllLinear(0, 0, bits, Generator(n));
    GeneratorVanishes(n);
    XorFacts(0, 0, 0);
    XorFacts(FeedAll(0, bits), 0, 0);
    SumTwice(bits, Generator(n));
    if q: set<nat> :| IsProduct(bits, q) {
      AddGenerator(bits, q);
    }
    if q: set<nat> :| IsProduct(sum, q) {
      AddGenerator(sum, q);
    }
  }

  lemma ClearFront(bits: seq<bool>)
    ensures FeedAll(0, [false] + bits) == FeedAll(0, bits) && (Multiple([false] + bits) <==> Multiple(bits))
  {
    hide FeedAll, Feed, ProductTerm;
    FeedFirst(0, false, bits);
    FirstBit();
    assert forall e: nat :: Term([false] + bits, e) <==> Term(bits, e);
    forall q: set<nat> ensures IsProduct([false] + bits, q) <==> IsProduct(bits, q) {}
  }

  lemma {:induction false} HasLargest(q: set<nat>) returns (m: nat)
    requires q != {}
    ensures m in q && forall k <- q :: k <= m
  {
    var k :| k in q;
    var rest := q - {k};
    assert q == rest + {k};
    if rest == {} {
      m := k;
    } else {
      m := HasLargest(rest);
      m := if m < k then k else m;
    }
  }

  /** Of at most 16 bits, only all clear is a multiple, and only that keeps the register at zero. */
  lemma ShortIff(bits: seq<bool>)
    requires |bits| <= 16
    ensures FeedAll(0, bits) == 0 <==> Multiple(bits)
  {
    hide FeedAll;
    var n := |bits|;
    ClearKeepsZero(n);
    if bits == Clear(n) {
      assert IsProduct(bits, {});
    } else {
      ShortDiffers(0, bits, Clear(n));
      var k: nat :| k < n && bits[k];
      assert Term(bits, n - 1 - k);
      forall q: set<nat> ensures !IsProduct(bits, q) {
        if q != {} {
          var m := HasLargestTerm(q);
          assert !Term(bits, m + 16);
        }
      }
    }
  }

  /** The product has the largest term of `q` times x^16. */
  lemma HasLargestTerm(q: set<nat>) returns (m: nat)
    requires q != {}
    ensures m in q && ProductTerm(q, m + 16)
  {
    m := HasLargest(q);
  }

  lemma {:induction false} ZeroIffMultiple(bits: seq<bool>)
    ensures FeedAll(0, bits) == 0 <==> Multiple(bits)
    decreases |bits|
  {
    hide FeedAll, Multiple;
    if |bits| <= 16 {
      ShortIff(bits);
    } else {
      GeneratorNeutral(bits);
      var divided := if bits[0] then Sum(bits, Generator(|bits|)) else bits;
      assert divided == [false] + divided[1..];
      ClearFront(divided[1..]);
      ZeroIffMultiple(divided[1..]);
    }
  }

  /** Which errors go unnoticed: two messages of the same length have the same checksum exactly when their
      bits differ by a multiple of the generator polynomial x^16 + x^12 + x^5 + 1. */
  lemma UndetectedIffMultiple(a: seq<bv8>, b: seq<bv8>, init: bv16)
    requires |a| == |b|
    ensures Crc(a, init) == Crc(b, init) <==> Multiple(Sum(MessageBits(a), MessageBits(b)))
  {
    hide FeedAll, Multiple, Sum, MessageBits, Crc, Xor;
    CrcIsBitSerial(a, init);
    CrcIsBitSerial(b, init);
    FeedAllLinear(init, init, MessageBits(a), MessageBits(b));
    ZeroIffMultiple(Sum(MessageBits(a), MessageBits(b)));
    XorFacts(init, init, 0);
    XorZeroIff(Crc(a, init), Crc(b, init));
  }

  lemma XorZeroIff(x: bv16, y: bv16)
    ensures Xor(x, y) == 0 <==> x == y
  {
    hide Xor;
    XorFacts(x, y, 0);
    XorFacts(y, 0, 0);
    XorFacts(y, y, 0);
  }

  /** The message with the initial value in its first 16 bits and nothing else. */
  function Start(init: bv16, n: nat): seq<bv8> { [High(init), Low(init)] + seq(n, _ => 0) }

  lemma ZeroBytesKeepZero(n: nat)
    ensures Crc(seq(n, _ => 0), 0) == 0
  {
    hide Absorb;
    if n > 0 {
      ZeroBytesKeepZero(n - 1);
      assert seq(n, _ => 0 as bv8)[..n - 1] == seq(n - 1, _ => 0 as bv8);
      ZeroAbsorbed();
    }
  }

  lemma ZeroAbsorbed()
    ensures Absorb(0, 0) == 0
  {
    hide Xor, Aligned, Shifts;
    assert Xor(0, Aligned(0)) == 0 by { AlignedZero(); }
    ZeroShifts(8);
  }

  lemma AlignedZero()
    ensures Xor(0, Aligned(0)) == 0
  {}

  lemma StartVanishes(init: bv16, n: nat)
    ensures Crc(Start(init, n), init) == 0
  {
    hide Absorb, High, Low, Crc;
    CrcAppend([High(init), Low(init)], seq(n, _ => 0), init);
    CrcOfTwo(High(init), Low(init), init);
    ResidueStep(init);
    ZeroBytesKeepZero(n);
  }

  /** What the checksum is: of all pairs of bytes that could follow a message, it is the one that makes the
      whole, with the initial value added to its first 16 bits, a multiple of x^16 + x^12 + x^5 + 1. */
  lemma ChecksumIsRemainder(data: seq<bv8>, init: bv16, high: bv8, low: bv8)
    ensures var whole := data + [high, low];
            Multiple(Sum(MessageBits(whole), MessageBits(Start(init, |data|))))
            <==> high == High(Crc(data, init)) && low == Low(Crc(data, init))
  {
    hide Crc, High, Low, Multiple, Sum, MessageBits;
    var c := Crc(data, init);
    UndetectedIffMultiple(data + [high, low], Start(init, |data|), init);
    StartVanishes(init, |data|);
    Residue(data, init);
    if [high, low] != [High(c), Low(c)] {
      AdjacentBytesDetected(data, [high, low], [High(c), Low(c)], [], init);
      assert data + [high, low] + [] == data + [high, low];
      assert data + [High(c), Low(c)] + [] == data + [High(c), Low(c)];
      assert [high, low][0] == high && [high, low][1] == low;
    }
  }
}
