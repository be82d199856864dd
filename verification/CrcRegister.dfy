/** The arithmetic of one CRC step, as loggerFirmware/src/crc.cc does it (a look-up in a 256-entry
    table) and as the 16-bit frame check sequence of RFC 1662 is defined (a shift register that
    takes one bit at a time, generator 0x8408). Every lemma here is about single steps. */
module CrcRegister {
  const INIT_CRC: bv16 := 0xFFFF
  const GOOD_CRC: bv16 := 0xF0B8

  function Column(column: bv8, v0: bv16, v1: bv16, v2: bv16, v3: bv16, v4: bv16, v5: bv16, v6: bv16, v7: bv16): bv16 {
    if column == 0 then v0 else if column == 1 then v1 else if column == 2 then v2 else if column == 3 then v3
    else if column == 4 then v4 else if column == 5 then v5 else if column == 6 then v6 else v7
  }

  /** The 256-entry table, row by row (eight entries a row). */
  function CrcTable(index: bv8): bv16 {
    var column := index & 7;
    match index >> 3
    case 0 => Column(column, 0x0000, 0x1189, 0x2312, 0x329b, 0x4624, 0x57ad, 0x6536, 0x74bf)
    case 1 => Column(column, 0x8c48, 0x9dc1, 0xaf5a, 0xbed3, 0xca6c, 0xdbe5, 0xe97e, 0xf8f7)
    case 2 => Column(column, 0x1081, 0x0108, 0x3393, 0x221a, 0x56a5, 0x472c, 0x75b7, 0x643e)
    case 3 => Column(column, 0x9cc9, 0x8d40, 0xbfdb, 0xae52, 0xdaed, 0xcb64, 0xf9ff, 0xe876)
    case 4 => Column(column, 0x2102, 0x308b, 0x0210, 0x1399, 0x6726, 0x76af, 0x4434, 0x55bd)
    case 5 => Column(column, 0xad4a, 0xbcc3, 0x8e58, 0x9fd1, 0xeb6e, 0xfae7, 0xc87c, 0xd9f5)
    case 6 => Column(column, 0x3183, 0x200a, 0x1291, 0x0318, 0x77a7, 0x662e, 0x54b5, 0x453c)
    case 7 => Column(column, 0xbdcb, 0xac42, 0x9ed9, 0x8f50, 0xfbef, 0xea66, 0xd8fd, 0xc974)
    case 8 => Column(column, 0x4204, 0x538d, 0x6116, 0x709f, 0x0420, 0x15a9, 0x2732, 0x36bb)
    case 9 => Column(column, 0xce4c, 0xdfc5, 0xed5e, 0xfcd7, 0x8868, 0x99e1, 0xab7a, 0xbaf3)
    case 10 => Column(column, 0x5285, 0x430c, 0x7197, 0x601e, 0x14a1, 0x0528, 0x37b3, 0x263a)
    case 11 => Column(column, 0xdecd, 0xcf44, 0xfddf, 0xec56, 0x98e9, 0x8960, 0xbbfb, 0xaa72)
    case 12 => Column(column, 0x6306, 0x728f, 0x4014, 0x519d, 0x2522, 0x34ab, 0x0630, 0x17b9)
    case 13 => Column(column, 0xef4e, 0xfec7, 0xcc5c, 0xddd5, 0xa96a, 0xb8e3, 0x8a78, 0x9bf1)
    case 14 => Column(column, 0x7387, 0x620e, 0x5095, 0x411c, 0x35a3, 0x242a, 0x16b1, 0x0738)
    case 15 => Column(column, 0xffcf, 0xee46, 0xdcdd, 0xcd54, 0xb9eb, 0xa862, 0x9af9, 0x8b70)
    case 16 => Column(column, 0x8408, 0x9581, 0xa71a, 0xb693, 0xc22c, 0xd3a5, 0xe13e, 0xf0b7)
    case 17 => Column(column, 0x0840, 0x19c9, 0x2b52, 0x3adb, 0x4e64, 0x5fed, 0x6d76, 0x7cff)
    case 18 => Column(column, 0x9489, 0x8500, 0xb79b, 0xa612, 0xd2ad, 0xc324, 0xf1bf, 0xe036)
    case 19 => Column(column, 0x18c1, 0x0948, 0x3bd3, 0x2a5a, 0x5ee5, 0x4f6c, 0x7df7, 0x6c7e)
    case 20 => Column(column, 0xa50a, 0xb483, 0x8618, 0x9791, 0xe32e, 0xf2a7, 0xc03c, 0xd1b5)
    case 21 => Column(column, 0x2942, 0x38cb, 0x0a50, 0x1bd9, 0x6f66, 0x7eef, 0x4c74, 0x5dfd)
    case 22 => Column(column, 0xb58b, 0xa402, 0x9699, 0x8710, 0xf3af, 0xe226, 0xd0bd, 0xc134)
    case 23 => Column(column, 0x39c3, 0x284a, 0x1ad1, 0x0b58, 0x7fe7, 0x6e6e, 0x5cf5, 0x4d7c)
    case 24 => Column(column, 0xc60c, 0xd785, 0xe51e, 0xf497, 0x8028, 0x91a1, 0xa33a, 0xb2b3)
    case 25 => Column(column, 0x4a44, 0x5bcd, 0x6956, 0x78df, 0x0c60, 0x1de9, 0x2f72, 0x3efb)
    case 26 => Column(column, 0xd68d, 0xc704, 0xf59f, 0xe416, 0x90a9, 0x8120, 0xb3bb, 0xa232)
    case 27 => Column(column, 0x5ac5, 0x4b4c, 0x79d7, 0x685e, 0x1ce1, 0x0d68, 0x3ff3, 0x2e7a)
    case 28 => Column(column, 0xe70e, 0xf687, 0xc41c, 0xd595, 0xa12a, 0xb0a3, 0x8238, 0x93b1)
    case 29 => Column(column, 0x6b46, 0x7acf, 0x4854, 0x59dd, 0x2d62, 0x3ceb, 0x0e70, 0x1ff9)
    case 30 => Column(column, 0xf78f, 0xe606, 0xd49d, 0xc514, 0xb1ab, 0xa022, 0x92b9, 0x8330)
    case _ => Column(column, 0x7bc7, 0x6a4e, 0x58d5, 0x495c, 0x3de3, 0x2c6a, 0x1ef1, 0x0f78)
  }

  /** One octet: `ccitt_crc16(data, crc)`. */
  function Update(data: bv8, crc: bv16): bv16 {
    Xor(crc >> 8, CrcTable(TableIndex(crc, data)))
  }

  function TableIndex(crc: bv16, data: bv8): bv8 { ((crc ^ (data as bv16)) & 0xFF) as bv8 }

  function Xor(x: bv16, y: bv16): bv16 { x ^ y }

  /** One message bit enters the register; the generator polynomial is applied when the bit
      differs from the one leaving. */
  function Feed(crc: bv16, b: bool): bv16 {
    if (crc & 1 == 1) != b then (crc >> 1) ^ 0x8408 else crc >> 1
  }

  // ----- The table step is eight serial steps -----

  /** Eight zero bits: what a table entry holds for its index. */
  function ZeroOctet(x: bv16): bv16 {
    Feed(Feed(Feed(Feed(Feed(Feed(Feed(Feed(x, false), false), false), false), false), false), false), false)
  }

  function FeedOctet(crc: bv16, d: bv8): bv16 {
    Feed(Feed(Feed(Feed(Feed(Feed(Feed(Feed(
      crc, d & 1 == 1), (d >> 1) & 1 == 1), (d >> 2) & 1 == 1), (d >> 3) & 1 == 1),
      (d >> 4) & 1 == 1), (d >> 5) & 1 == 1), (d >> 6) & 1 == 1), (d >> 7) & 1 == 1)
  }

  lemma TableLowHalf(i: bv8)
    requires i < 128
    ensures CrcTable(i) == ZeroOctet(i as bv16)
  {}

  lemma TableHighHalf(i: bv8)
    requires 128 <= i
    ensures CrcTable(i) == ZeroOctet(i as bv16)
  {}

  lemma OctetStep(crc: bv16, d: bv8, i: bv8)
    requires i == ((crc ^ (d as bv16)) & 0xFF) as bv8
    ensures (crc >> 8) ^ ZeroOctet(i as bv16) == FeedOctet(crc, d)
  {}

  lemma XorMeans(x: bv16, y: bv16, z: bv16)
    requires x ^ y == z
    ensures Xor(x, y) == z
  {}

  lemma TableIsZeroOctet(i: bv8)
    ensures CrcTable(i) == ZeroOctet(i as bv16)
  {
    if i < 128 { TableLowHalf(i); } else { TableHighHalf(i); }
  }

  lemma UpdateIsFeedOctet(d: bv8, crc: bv16)
    ensures Update(d, crc) == FeedOctet(crc, d)
  {
    var i := TableIndex(crc, d);
    TableIsZeroOctet(i);
    OctetStep(crc, d, i);
    XorMeans(crc >> 8, ZeroOctet(i as bv16), FeedOctet(crc, d));
  }

  // ----- The register loses nothing -----

  /** The low n bits set. */
  function Mask(n: nat): bv16 {
    if n == 0 then 0 else Wider(Mask(n - 1))
  }

  function Wider(mask: bv16): bv16 { (mask << 1) | 1 }

  lemma {:induction false} MaskBound(n: nat)
    requires n <= 15
    ensures Mask(n) < 0x8000
  {
    if n == 15 {} else if n == 14 {}
  }

  predicate Agree(x: bv16, y: bv16, mask: bv16) { x | mask == y | mask }

  /** A step backwards: registers that agree above a mask come from registers that agree above
      the next wider one. */
  lemma FeedBackwards(s: bv16, b: bool, t: bv16, c: bool, mask: bv16)
    requires Agree(Feed(s, b), Feed(t, c), mask) && mask < 0x8000
    ensures Agree(s, t, Wider(mask))
    ensures s == t ==> b == c
  {}

  /** The registers agree but for their low n bits. */
  predicate Close(n: nat, x: bv16, y: bv16) { Agree(x, y, Mask(n)) }

  lemma CloseBackwards(n: nat, s: bv16, b: bool, t: bv16, c: bool)
    requires n < 16 && Close(n, Feed(s, b), Feed(t, c))
    ensures Close(n + 1, s, t)
    ensures s == t ==> b == c
  {
    MaskBound(n);
    FeedBackwards(s, b, t, c, Mask(n));
  }

  lemma FeedInjective(s: bv16, t: bv16, b: bool)
    requires Feed(s, b) == Feed(t, b)
    ensures s == t
  {}

  // ----- The frame check sequence -----

  function FcsLow(crc: bv16): bv8 { ((crc ^ 0xFFFF) & 0xFF) as bv8 }

  function FcsHigh(crc: bv16): bv8 { (((crc ^ 0xFFFF) >> 8) & 0xFF) as bv8 }

  lemma FcsDetermines(s: bv16, t: bv16)
    requires FcsLow(s) == FcsLow(t) && FcsHigh(s) == FcsHigh(t)
    ensures s == t
  {}

  lemma FcsIndices(s: bv16, s1: bv16)
    requires s1 == (s >> 8) ^ 0x0f78
    ensures TableIndex(s, FcsLow(s)) == 0xFF
    ensures TableIndex(s1, FcsHigh(s)) == 0x87
    ensures (s1 >> 8) ^ 0xf0b7 == GOOD_CRC
  {}

  // ----- Parity -----

  predicate On(x: bv16, mask: bv16) { x & mask != 0 }

  predicate OddHighOctet(x: bv16) {
    On(x, 0x8000) != (On(x, 0x4000) != (On(x, 0x2000) != (On(x, 0x1000)
      != (On(x, 0x800) != (On(x, 0x400) != (On(x, 0x200) != On(x, 0x100)))))))
  }

  /** Whether an odd number of the register's sixteen bits is set. */
  predicate Odd(x: bv16) {
    OddHighOctet(x) != (On(x, 0x80) != (On(x, 0x40) != (On(x, 0x20) != (On(x, 0x10)
      != (On(x, 8) != (On(x, 4) != (On(x, 2) != On(x, 1))))))))
  }

  /** The generator has a factor x + 1: parity passes through the register. */
  lemma FeedParity(s: bv16, b: bool)
    ensures Odd(Feed(s, b)) == (Odd(s) != b)
  {}

  lemma BitsDetermineOctet(a: bv8, b: bv8)
    requires (a & 1 == 1) == (b & 1 == 1) && ((a >> 1) & 1 == 1) == ((b >> 1) & 1 == 1)
    requires ((a >> 2) & 1 == 1) == ((b >> 2) & 1 == 1) && ((a >> 3) & 1 == 1) == ((b >> 3) & 1 == 1)
    requires ((a >> 4) & 1 == 1) == ((b >> 4) & 1 == 1) && ((a >> 5) & 1 == 1) == ((b >> 5) & 1 == 1)
    requires ((a >> 6) & 1 == 1) == ((b >> 6) & 1 == 1) && ((a >> 7) & 1 == 1) == ((b >> 7) & 1 == 1)
    ensures a == b
  {}
}
