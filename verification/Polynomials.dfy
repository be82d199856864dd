/** What the two checksums of loggerFirmware/src/crc.cc are: remainders of the message's bits, sent lowest
    first, on division by a polynomial over two elements, by long division. */
module Polynomials {
  import Checksum8
  import opened Crc16
  import opened CrcRegister

  // ----- Long division -----

  /** Coefficients from the highest power down; adding is subtracting. */
  function Plus(x: seq<bool>, y: seq<bool>): (z: seq<bool>)
    requires |x| == |y|
    ensures |z| == |x| && forall i :: 0 <= i < |x| ==> z[i] == (x[i] != y[i])
  {
    seq(|x|, i requires 0 <= i < |x| => x[i] != y[i])
  }

  /** A shorter polynomial, added at the highest powers. */
  function PlusFront(x: seq<bool>, y: seq<bool>): (z: seq<bool>)
    requires |y| <= |x|
    ensures |z| == |x|
    ensures forall i :: 0 <= i < |y| ==> z[i] == (x[i] != y[i])
    ensures forall i :: |y| <= i < |x| ==> z[i] == x[i]
  {
    Plus(x[..|y|], y) + x[|y|..]
  }

  /** Division by a polynomial whose highest coefficient is one, and whose others are given. */
  function Remainder(dividend: seq<bool>, divisor: seq<bool>): (r: seq<bool>)
    requires |divisor| <= |dividend|
    ensures |r| == |divisor|
    decreases |dividend|
  {
    if |dividend| == |divisor| then dividend
    else Remainder(if dividend[0] then PlusFront(dividend[1..], divisor) else dividend[1..], divisor)
  }

  function Zeros(n: nat): (z: seq<bool>)
    ensures |z| == n && forall i :: 0 <= i < n ==> !z[i]
  {
    seq(n, _ => false)
  }

  /** x^16 + x^12 + x^5 + 1 and x^8 + x^5 + x^4 + 1, without their highest coefficients. */
  const X16_X12_X5_1: seq<bool> :=
    [false, false, false, true, false, false, false, false, false, false, true, false, false, false, false, true]

  const X8_X5_X4_1: seq<bool> := [false, false, true, true, false, false, false, true]

  // ----- A shift register divides -----

  /** One bit enters the register, whose bits are given in the order in which they leave. */
  function Shifted(bits: seq<bool>, b: bool, divisor: seq<bool>): (next: seq<bool>)
    requires |bits| == |divisor| > 0
    ensures |next| == |divisor|
  {
    var moved := bits[1..] + [false];
    if bits[0] != b then Plus(moved, divisor) else moved
  }

  function ShiftIn(message: seq<bool>, bits: seq<bool>, divisor: seq<bool>): (after: seq<bool>)
    requires |bits| == |divisor| > 0
    ensures |after| == |divisor|
    decreases |message|
  {
    if message == [] then bits else ShiftIn(message[1..], Shifted(bits, message[0], divisor), divisor)
  }

  lemma {:induction false} DivideOnce(rest: seq<bool>, b: bool, bits: seq<bool>, divisor: seq<bool>)
    requires |bits| == |divisor| > 0 && |rest| >= |divisor|
    ensures Remainder(PlusFront([b] + rest, bits), divisor)
      == Remainder(PlusFront(rest, Shifted(bits, b, divisor)), divisor)
  {
    var all := PlusFront([b] + rest, bits);
    FirstGone(rest, b, bits, all);
    OneStep(rest, bits[1..] + [false], divisor, all);
  }

  /** What is left behind the first coefficient. */
  lemma FirstGone(rest: seq<bool>, b: bool, bits: seq<bool>, all: seq<bool>)
    requires 0 < |bits| <= |rest| && all == PlusFront([b] + rest, bits)
    ensures all[0] == (b != bits[0]) && all[1..] == PlusFront(rest, bits[1..] + [false])
  {
    var moved := bits[1..] + [false];
    forall i | 0 <= i < |rest|
      ensures all[1..][i] == PlusFront(rest, moved)[i]
    {
      assert all[1..][i] == all[i + 1] && ([b] + rest)[i + 1] == rest[i];
    }
  }

  lemma OneStep(rest: seq<bool>, moved: seq<bool>, divisor: seq<bool>, all: seq<bool>)
    requires |moved| == |divisor| <= |rest| == |all| - 1 && all[1..] == PlusFront(rest, moved)
    ensures Remainder(all, divisor)
      == Remainder(PlusFront(rest, if all[0] then Plus(moved, divisor) else moved), divisor)
  {
    if all[0] {
      assert PlusFront(PlusFront(rest, moved), divisor) == PlusFront(rest, Plus(moved, divisor));
    }
  }

  /** The register ends with the remainder of the message, followed by zeros, with the first register added
      at its front. */
  lemma {:induction false} ShiftInDivides(message: seq<bool>, bits: seq<bool>, divisor: seq<bool>)
    requires |bits| == |divisor| > 0
    ensures ShiftIn(message, bits, divisor)
      == Remainder(PlusFront(message + Zeros(|divisor|), bits), divisor)
    decreases |message|
  {
    var zeros := Zeros(|divisor|);
    if message == [] {
      assert PlusFront(message + zeros, bits) == bits;
    } else {
      var rest := message[1..] + zeros;
      assert message + zeros == [message[0]] + rest;
      DivideOnce(rest, message[0], bits, divisor);
      ShiftInDivides(message[1..], Shifted(bits, message[0], divisor), divisor);
    }
  }

  // ----- The bits of a register, in the order in which they leave -----

  function BitsOf(s: bv16, n: nat): (bits: seq<bool>)
    ensures |bits| == n
  {
    if n == 0 then [] else [Low(s)] + BitsOf(Half(s), n - 1)
  }

  predicate Low(s: bv16) { s & 1 == 1 }

  function Half(s: bv16): bv16 { s >> 1 }

  /** No bit is set but the lowest n. */
  predicate Narrow(s: bv16, n: nat) { if n == 0 then s == 0 else Narrow(Half(s), n - 1) }

  function Added(x: bv16, y: bv16): bv16 { x ^ y }

  lemma AddBits(x: bv16, y: bv16, z: bv16)
    requires z == Added(x, y)
    ensures Low(z) == (Low(x) != Low(y)) && Half(z) == Added(Half(x), Half(y))
  {}

  lemma PlusFirst(a: bool, x: seq<bool>, b: bool, y: seq<bool>, c: bool, z: seq<bool>)
    requires |x| == |y| && c == (a != b) && z == Plus(x, y)
    ensures Plus([a] + x, [b] + y) == [c] + z
  {}

  lemma AddedStep(x: bv16, y: bv16, z: bv16, n: nat, hx: bv16, hy: bv16, hz: bv16)
    requires n > 0 && Low(z) == (Low(x) != Low(y)) && hx == Half(x) && hy == Half(y) && hz == Half(z)
    requires BitsOf(hz, n - 1) == Plus(BitsOf(hx, n - 1), BitsOf(hy, n - 1))
    ensures BitsOf(z, n) == Plus(BitsOf(x, n), BitsOf(y, n))
  {
    PlusFirst(Low(x), BitsOf(hx, n - 1), Low(y), BitsOf(hy, n - 1), Low(z), BitsOf(hz, n - 1));
  }

  lemma {:induction false} AddedBits(x: bv16, y: bv16, z: bv16, n: nat)
    requires z == Added(x, y)
    ensures BitsOf(z, n) == Plus(BitsOf(x, n), BitsOf(y, n))
  {
    if n > 0 {
      AddBits(x, y, z);
      AddedBits(Half(x), Half(y), Half(z), n - 1);
      AddedStep(x, y, z, n, Half(x), Half(y), Half(z));
    }
  }

  lemma FirstBit(s: bv16, low: bool, half: bv16, n: nat)
    requires n > 0 && low == Low(s) && half == Half(s)
    ensures BitsOf(s, n) == [low] + BitsOf(half, n - 1)
  {}

  lemma {:induction false} BitsLast(s: bv16, n: nat)
    requires n > 0 && Narrow(s, n - 1)
    ensures BitsOf(s, n) == BitsOf(s, n - 1) + [false]
  {
    if n > 1 {
      BitsLast(Half(s), n - 1);
    }
  }

  /** One bit enters the register: it is halved, and the generator is added if the bit differs from the one
      leaving. */
  function Moved(s: bv16, b: bool, generator: bv16): bv16 {
    if Low(s) != b then Added(Half(s), generator) else Half(s)
  }

  lemma {:induction false} MovedBits(s: bv16, b: bool, generator: bv16, n: nat)
    requires n > 0 && Narrow(s, n)
    ensures BitsOf(Moved(s, b, generator), n) == Shifted(BitsOf(s, n), b, BitsOf(generator, n))
  {
    BitsLast(Half(s), n);
    AddedBits(Half(s), generator, Added(Half(s), generator), n);
    assert BitsOf(s, n)[1..] == BitsOf(Half(s), n - 1);
  }

  // ----- The frame check sequence -----

  lemma FeedMoves(s: bv16, b: bool)
    ensures Feed(s, b) == Moved(s, b, 0x8408)
  {}

  lemma FourBits(s: bv16, n: nat, b0: bool, b1: bool, b2: bool, b3: bool, rest: bv16)
    requires n >= 4 && b0 == Low(s) && b1 == Low(Half(s)) && b2 == Low(Half(Half(s)))
    requires b3 == Low(Half(Half(Half(s)))) && rest == Half(Half(Half(Half(s))))
    ensures BitsOf(s, n) == [b0, b1, b2, b3] + BitsOf(rest, n - 4)
  {
    FirstBit(s, b0, Half(s), n);
    FirstBit(Half(s), b1, Half(Half(s)), n - 1);
    FirstBit(Half(Half(s)), b2, Half(Half(Half(s))), n - 2);
    FirstBit(Half(Half(Half(s))), b3, rest, n - 3);
  }

  lemma HighNibbles()
    ensures BitsOf(0x8408, 16) == [false, false, false, true, false, false, false, false] + BitsOf(0x0084, 8)
  {
    FourBits(0x8408, 16, false, false, false, true, 0x0840);
    FourBits(0x0840, 12, false, false, false, false, 0x0084);
  }

  lemma LowNibbles()
    ensures BitsOf(0x0084, 8) == [false, false, true, false, false, false, false, true]
  {
    FourBits(0x0084, 8, false, false, true, false, 0x0008);
    FourBits(0x0008, 4, false, false, false, true, 0);
  }

  lemma GeneratorBits()
    ensures BitsOf(0x8408, 16) == X16_X12_X5_1
  {
    HighNibbles();
    LowNibbles();
  }

  lemma RecordGeneratorBits()
    ensures BitsOf(0x8C, 8) == X8_X5_X4_1
  {
    FourBits(0x8C, 8, false, false, true, true, 0x8);
    FourBits(0x8, 4, false, false, false, true, 0);
  }

  lemma {:induction false} NarrowWider(s: bv16, n: nat)
    requires Narrow(s, n)
    ensures Narrow(s, n + 1)
  {
    if n > 0 {
      NarrowWider(Half(s), n - 1);
    }
  }

  lemma NarrowFour(s: bv16, n: nat, rest: bv16)
    requires rest == Half(Half(Half(Half(s)))) && Narrow(rest, n)
    ensures Narrow(s, n + 4)
  {
    assert Narrow(Half(Half(Half(s))), n + 1) && Narrow(Half(Half(s)), n + 2) && Narrow(Half(s), n + 3);
  }

  lemma FourthHalf(s: bv16, rest: bv16)
    requires rest == Half(Half(Half(Half(s))))
    ensures rest <= 0x0FFF && (s <= 0x0FFF ==> rest <= 0x00FF) && (s <= 0x00FF ==> rest <= 0x000F)
    ensures s <= 0x000F ==> rest == 0
  {}

  lemma {:induction false} OctetNarrow(s: bv16)
    requires s <= 0xFF
    ensures Narrow(s, 8)
  {
    var x := Half(Half(Half(Half(s))));
    var y := Half(Half(Half(Half(x))));
    FourthHalf(s, x);
    FourthHalf(x, y);
    NarrowFour(x, 0, y);
    NarrowFour(s, 4, x);
  }

  lemma {:induction false} AllNarrow(s: bv16)
    ensures Narrow(s, 16)
  {
    var x := Half(Half(Half(Half(s))));
    var y := Half(Half(Half(Half(x))));
    FourthHalf(s, x);
    FourthHalf(x, y);
    OctetNarrow(y);
    NarrowFour(x, 8, y);
    NarrowFour(s, 12, x);
  }

  lemma {:induction false} SerialShiftsIn(bits: seq<bool>, s: bv16)
    ensures BitsOf(Serial(bits, s), 16) == ShiftIn(bits, BitsOf(s, 16), X16_X12_X5_1)
    decreases |bits|
  {
    if bits != [] {
      FeedMoves(s, bits[0]);
      AllNarrow(s);
      MovedBits(s, bits[0], 0x8408, 16);
      GeneratorBits();
      SerialShiftsIn(bits[1..], Feed(s, bits[0]));
    }
  }

  /** The 16-bit sum of any message, from any register. */
  lemma {:induction false} CrcIsRemainder(message: seq<bv8>, crc: bv16)
    ensures BitsOf(CrcFrom(message, crc), 16)
      == Remainder(PlusFront(MessageBits(message) + Zeros(16), BitsOf(crc, 16)), X16_X12_X5_1)
  {
    CrcIsSerial(message, crc);
    SerialShiftsIn(MessageBits(message), crc);
    ShiftInDivides(MessageBits(message), BitsOf(crc, 16), X16_X12_X5_1);
  }

  // ----- The checksum of a record -----

  function Wide(d: bv8): bv16 { d as bv16 }

  lemma WideOctet(d: bv8)
    ensures Narrow(Wide(d), 8)
  {
    WideBound(d);
    OctetNarrow(Wide(d));
  }

  lemma WideBound(d: bv8)
    ensures Wide(d) <= 0xFF
  {}

  function Feed8(crc: bv8, b: bool): bv8 { Checksum8.Shift(if b then crc ^ 1 else crc) }

  lemma Feed8Moves(s: bv8, b: bool)
    ensures Wide(Feed8(s, b)) == Moved(Wide(s), b, 0x8C)
  {}

  function Half8(d: bv8): bv8 { d >> 1 }

  function Added8(x: bv8, y: bv8): bv8 { x ^ y }

  lemma ShiftFeeds(x: bv8, d: bv8)
    ensures Checksum8.Shift(Added8(x, d)) == Added8(Feed8(x, Low(Wide(d))), Half8(d))
    ensures Wide(Half8(d)) == Half(Wide(d))
  {}

  lemma NothingAdded(x: bv8, d: bv8)
    requires Wide(d) == 0
    ensures Added8(x, d) == x
  {}

  /** The shifts of one octet take its bits one by one. */
  lemma {:induction false} ShiftsFeed(x: bv8, d: bv8, n: nat)
    requires Narrow(Wide(d), n)
    ensures Checksum8.Shifts(Added8(x, d), n) == Fold(Feed8, BitsOf(Wide(d), n), x)
    decreases n
  {
    if n == 0 {
      NothingAdded(x, d);
    } else {
      ShiftFeeds(x, d);
      ShiftsFeed(Feed8(x, Low(Wide(d))), Half8(d), n - 1);
      FoldFirst(Low(Wide(d)), BitsOf(Half(Wide(d)), n - 1), x);
      FirstBit(Wide(d), Low(Wide(d)), Half(Wide(d)), n);
    }
  }

  lemma {:induction false} FoldFirst(b: bool, bits: seq<bool>, s: bv8)
    ensures Fold(Feed8, [b] + bits, s) == Fold(Feed8, bits, Feed8(s, b))
  {
    assert ([b] + bits)[1..] == bits;
  }

  lemma {:induction false} EightBits(s: bv16, x: bv16, y: bv16, b0: bool, b1: bool, b2: bool, b3: bool,
                  b4: bool, b5: bool, b6: bool, b7: bool)
    requires x == Half(Half(Half(Half(s)))) && y == Half(Half(Half(Half(x))))
    requires b0 == Low(s) && b1 == Low(Half(s)) && b2 == Low(Half(Half(s))) && b3 == Low(Half(Half(Half(s))))
    requires b4 == Low(x) && b5 == Low(Half(x)) && b6 == Low(Half(Half(x))) && b7 == Low(Half(Half(Half(x))))
    ensures BitsOf(s, 8) == [b0, b1, b2, b3, b4, b5, b6, b7]
  {
    FourBits(s, 8, b0, b1, b2, b3, x);
    FourBits(x, 4, b4, b5, b6, b7, y);
  }

  lemma OctetBitsOf(d: bv8)
    ensures OctetBits(d) == BitsOf(Wide(d), 8)
  {
    var s := Wide(d);
    var x := Half(Half(Half(Half(s))));
    LowBits(d, s, x);
    EightBits(s, x, Half(Half(Half(Half(x)))), d & 1 == 1, (d >> 1) & 1 == 1, (d >> 2) & 1 == 1, (d >> 3) & 1 == 1,
              (d >> 4) & 1 == 1, (d >> 5) & 1 == 1, (d >> 6) & 1 == 1, (d >> 7) & 1 == 1);
  }

  lemma LowBits(d: bv8, s: bv16, x: bv16)
    requires s == Wide(d) && x == Half(Half(Half(Half(s))))
    ensures Low(s) == (d & 1 == 1) && Low(Half(s)) == ((d >> 1) & 1 == 1)
    ensures Low(Half(Half(s))) == ((d >> 2) & 1 == 1) && Low(Half(Half(Half(s)))) == ((d >> 3) & 1 == 1)
    ensures Low(x) == ((d >> 4) & 1 == 1) && Low(Half(x)) == ((d >> 5) & 1 == 1)
    ensures Low(Half(Half(x))) == ((d >> 6) & 1 == 1) && Low(Half(Half(Half(x)))) == ((d >> 7) & 1 == 1)
  {}

  lemma {:induction false} UpdateFeeds(d: bv8, crc: bv8)
    ensures Checksum8.Update(d, crc) == Fold(Feed8, OctetBits(d), crc)
  {
    WideOctet(d);
    ShiftsFeed(crc, d, 8);
    OctetBitsOf(d);
  }

  lemma {:induction false} Crc8Feeds(data: seq<bv8>, crc: bv8)
    ensures Checksum8.Crc8From(data, crc) == Fold(Feed8, MessageBits(data), crc)
    decreases |data|
  {
    if data != [] {
      UpdateFeeds(data[0], crc);
      FoldAppend(Feed8, OctetBits(data[0]), MessageBits(data[1..]), crc);
      Crc8Feeds(data[1..], Checksum8.Update(data[0], crc));
    }
  }

  lemma {:induction false} FeedsShiftIn(bits: seq<bool>, s: bv8)
    ensures BitsOf(Wide(Fold(Feed8, bits, s)), 8) == ShiftIn(bits, BitsOf(Wide(s), 8), X8_X5_X4_1)
    decreases |bits|
  {
    if bits != [] {
      Feed8Moves(s, bits[0]);
      WideOctet(s);
      MovedBits(Wide(s), bits[0], 0x8C, 8);
      RecordGeneratorBits();
      FeedsShiftIn(bits[1..], Feed8(s, bits[0]));
    }
  }

  lemma ZeroRegister(message: seq<bool>)
    requires |message| >= 8
    ensures BitsOf(Wide(0), 8) == Zeros(8) && PlusFront(message, Zeros(8)) == message
  {
    FourBits(0, 8, false, false, false, false, 0);
    FourBits(0, 4, false, false, false, false, 0);
  }

  /** The checksum of any record is the remainder of its bits followed by eight zeros. */
  lemma {:induction false} Crc8IsRemainder(data: seq<bv8>)
    ensures OctetBits(Checksum8.Crc8(data)) == Remainder(MessageBits(data) + Zeros(8), X8_X5_X4_1)
  {
    Crc8Feeds(data, 0);
    FeedsShiftIn(MessageBits(data), 0);
    ShiftInDivides(MessageBits(data), BitsOf(Wide(0), 8), X8_X5_X4_1);
    ZeroRegister(MessageBits(data) + Zeros(8));
    OctetBitsOf(Checksum8.Crc8(data));
  }
}
