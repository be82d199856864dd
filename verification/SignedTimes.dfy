/** `time_t`, a signed 32-bit number on the eCos target, and its order. */
module SignedTimes {

  predicate TimeAtMost(x: bv32, y: bv32) { x ^ 0x8000_0000 <= y ^ 0x8000_0000 }

  // ----- The number that four octets stand for -----

  /** Each bit of an octet counts twice what the one below it does. */
  function OctetValue(b: bv8): (v: nat)
    decreases b
  {
    if b == 0 then 0 else HalfSmaller(b); (if Low(b) then 1 else 0) + 2 * OctetValue(Half(b))
  }

  lemma HalfSmaller(b: bv8)
    requires b != 0
    ensures Half(b) < b
  {}

  predicate Low(b: bv8) { b & 1 == 1 }

  function Half(b: bv8): bv8 { b >> 1 }

  /** In two's complement the highest bit of the highest octet counts negative. */
  function SignedOctet(b: bv8): int { OctetValue(b) - if b < 128 then 0 else 256 }

  /** Four octets, lowest first. */
  function SignedValue(b0: bv8, b1: bv8, b2: bv8, b3: bv8): int {
    OctetValue(b0) + 0x100 * OctetValue(b1) + 0x1_0000 * OctetValue(b2) + 0x100_0000 * SignedOctet(b3)
  }

  function Signed(x: bv32): int {
    SignedValue((x & 0xFF) as bv8, ((x >> 8) & 0xFF) as bv8, ((x >> 16) & 0xFF) as bv8, (x >> 24) as bv8)
  }

  // ----- Octets -----

  lemma HalvesOrdered(x: bv8, y: bv8)
    ensures x <= y <==> if Half(x) != Half(y) then Half(x) <= Half(y) else Low(x) ==> Low(y)
    ensures x == y <==> Half(x) == Half(y) && Low(x) == Low(y)
  {}

  lemma TwiceOrdered(a: nat, i: bool, b: nat, j: bool)
    ensures (if i then 1 else 0) + 2 * a <= (if j then 1 else 0) + 2 * b <==> if a != b then a <= b else i ==> j
  {}

  lemma ZeroHalves(b: bv8)
    requires b == 0
    ensures Half(b) == 0 && !Low(b)
  {}

  lemma {:induction false} ValueStep(b: bv8)
    ensures OctetValue(b) == (if Low(b) then 1 else 0) + 2 * OctetValue(Half(b))
  {
    if b == 0 {
      ZeroHalves(b);
    }
  }

  lemma {:induction false} OctetFacts(x: bv8, y: bv8)
    ensures x <= y <==> OctetValue(x) <= OctetValue(y)
    ensures x == y <==> OctetValue(x) == OctetValue(y)
    decreases x, y
  {
    if x != 0 || y != 0 {
      if x != 0 {
        HalfSmaller(x);
      } else {
        HalfSmaller(y);
        ZeroHalves(x);
      }
      HalvesOrdered(x, y);
      OctetFacts(Half(x), Half(y));
      ValueStep(x);
      ValueStep(y);
      TwiceOrdered(OctetValue(Half(x)), Low(x), OctetValue(Half(y)), Low(y));
    }
  }

  lemma Marks()
    ensures OctetValue(128) == 128 && OctetValue(255) == 255
  {}

  lemma {:induction false} OctetBound(b: bv8)
    ensures OctetValue(b) < 256 && (OctetValue(b) < 128 <==> b < 128)
  {
    Marks();
    OctetFacts(b, 255);
    OctetFacts(128, b);
  }

  lemma SignedOctetFacts(x: bv8, y: bv8)
    ensures (if (x < 128) == (y < 128) then x <= y else y < 128) <==> SignedOctet(x) <= SignedOctet(y)
    ensures x == y <==> SignedOctet(x) == SignedOctet(y)
  {
    OctetFacts(x, y);
    OctetBound(x);
    OctetBound(y);
    SignsOrdered(OctetValue(x), x < 128, OctetValue(y), y < 128);
  }

  lemma SignsOrdered(a: nat, i: bool, b: nat, j: bool)
    requires a < 256 && b < 256 && (i <==> a < 128) && (j <==> b < 128)
    ensures (if i == j then a <= b else j) <==> a - (if i then 0 else 256) <= b - (if j then 0 else 256)
    ensures a == b <==> a - (if i then 0 else 256) == b - (if j then 0 else 256)
  {}

  // ----- The order of times -----

  lemma HighestFirst(x: bv32, y: bv32, a3: bv8, b3: bv8, below: bool)
    requires a3 == (x >> 24) as bv8 && b3 == (y >> 24) as bv8 && below == (x & 0xFF_FFFF <= y & 0xFF_FFFF)
    ensures TimeAtMost(x, y) <==> if a3 != b3 then (if (a3 < 128) == (b3 < 128) then a3 <= b3 else b3 < 128) else below
  {}

  lemma ThirdNext(x: bv32, y: bv32, a2: bv8, b2: bv8, below: bool)
    requires a2 == ((x >> 16) & 0xFF) as bv8 && b2 == ((y >> 16) & 0xFF) as bv8 && below == (x & 0xFFFF <= y & 0xFFFF)
    ensures x & 0xFF_FFFF <= y & 0xFF_FFFF <==> if a2 != b2 then a2 <= b2 else below
  {}

  lemma SecondNext(x: bv32, y: bv32, a1: bv8, b1: bv8, below: bool)
    requires a1 == ((x >> 8) & 0xFF) as bv8 && b1 == ((y >> 8) & 0xFF) as bv8 && below == (x & 0xFF <= y & 0xFF)
    ensures x & 0xFFFF <= y & 0xFFFF <==> if a1 != b1 then a1 <= b1 else below
  {}

  lemma FirstLast(x: bv32, y: bv32, a0: bv8, b0: bv8)
    requires a0 == (x & 0xFF) as bv8 && b0 == (y & 0xFF) as bv8
    ensures x & 0xFF <= y & 0xFF <==> a0 <= b0
  {}

  lemma TimesByOctets(x: bv32, y: bv32, a0: bv8, a1: bv8, a2: bv8, a3: bv8, b0: bv8, b1: bv8, b2: bv8, b3: bv8)
    requires a0 == (x & 0xFF) as bv8 && b0 == (y & 0xFF) as bv8
    requires a1 == ((x >> 8) & 0xFF) as bv8 && b1 == ((y >> 8) & 0xFF) as bv8
    requires a2 == ((x >> 16) & 0xFF) as bv8 && b2 == ((y >> 16) & 0xFF) as bv8
    requires a3 == (x >> 24) as bv8 && b3 == (y >> 24) as bv8
    ensures TimeAtMost(x, y) <==>
      if a3 != b3 then (if (a3 < 128) == (b3 < 128) then a3 <= b3 else b3 < 128)
      else if a2 != b2 then a2 <= b2 else if a1 != b1 then a1 <= b1 else a0 <= b0
  {
    HighestFirst(x, y, a3, b3, x & 0xFF_FFFF <= y & 0xFF_FFFF);
    ThirdNext(x, y, a2, b2, x & 0xFFFF <= y & 0xFFFF);
    SecondNext(x, y, a1, b1, x & 0xFF <= y & 0xFF);
    FirstLast(x, y, a0, b0);
  }

  lemma ByPlaces(a0: int, a1: int, a2: int, a3: int, b0: int, b1: int, b2: int, b3: int)
    requires 0 <= a0 < 256 && 0 <= a1 < 256 && 0 <= a2 < 256 && 0 <= b0 < 256 && 0 <= b1 < 256 && 0 <= b2 < 256
    ensures a0 + 0x100 * a1 + 0x1_0000 * a2 + 0x100_0000 * a3 <= b0 + 0x100 * b1 + 0x1_0000 * b2 + 0x100_0000 * b3
      <==> if a3 != b3 then a3 <= b3 else if a2 != b2 then a2 <= b2 else if a1 != b1 then a1 <= b1 else a0 <= b0
  {}

  lemma {:induction false} ThreeBounds(a0: bv8, a1: bv8, a2: bv8)
    ensures OctetValue(a0) < 256 && OctetValue(a1) < 256 && OctetValue(a2) < 256
  {
    OctetBound(a0);
    OctetBound(a1);
    OctetBound(a2);
  }

  lemma OctetsOrdered(a0: bv8, a1: bv8, a2: bv8, a3: bv8, b0: bv8, b1: bv8, b2: bv8, b3: bv8)
    ensures SignedValue(a0, a1, a2, a3) <= SignedValue(b0, b1, b2, b3) <==>
      if a3 != b3 then (if (a3 < 128) == (b3 < 128) then a3 <= b3 else b3 < 128)
      else if a2 != b2 then a2 <= b2 else if a1 != b1 then a1 <= b1 else a0 <= b0
  {
    OctetFacts(a0, b0);
    OctetFacts(a1, b1);
    OctetFacts(a2, b2);
    SignedOctetFacts(a3, b3);
    ThreeBounds(a0, a1, a2);
    ThreeBounds(b0, b1, b2);
    ByPlaces(OctetValue(a0), OctetValue(a1), OctetValue(a2), SignedOctet(a3),
             OctetValue(b0), OctetValue(b1), OctetValue(b2), SignedOctet(b3));
  }

  lemma TimesByValues(x: bv32, y: bv32, a0: bv8, a1: bv8, a2: bv8, a3: bv8, b0: bv8, b1: bv8, b2: bv8, b3: bv8)
    requires a0 == (x & 0xFF) as bv8 && b0 == (y & 0xFF) as bv8
    requires a1 == ((x >> 8) & 0xFF) as bv8 && b1 == ((y >> 8) & 0xFF) as bv8
    requires a2 == ((x >> 16) & 0xFF) as bv8 && b2 == ((y >> 16) & 0xFF) as bv8
    requires a3 == (x >> 24) as bv8 && b3 == (y >> 24) as bv8
    ensures TimeAtMost(x, y) <==> SignedValue(a0, a1, a2, a3) <= SignedValue(b0, b1, b2, b3)
  {
    TimesByOctets(x, y, a0, a1, a2, a3, b0, b1, b2, b3);
    OctetsOrdered(a0, a1, a2, a3, b0, b1, b2, b3);
  }

  lemma OctetsOf(x: bv32) returns (a0: bv8, a1: bv8, a2: bv8, a3: bv8)
    ensures a0 == (x & 0xFF) as bv8 && a1 == ((x >> 8) & 0xFF) as bv8
    ensures a2 == ((x >> 16) & 0xFF) as bv8 && a3 == (x >> 24) as bv8
    ensures Signed(x) == SignedValue(a0, a1, a2, a3)
  {
    a0, a1, a2, a3 := (x & 0xFF) as bv8, ((x >> 8) & 0xFF) as bv8, ((x >> 16) & 0xFF) as bv8, (x >> 24) as bv8;
  }

  /** The order of times is that of the numbers they stand for. */
  lemma TimesOrdered(x: bv32, y: bv32)
    ensures TimeAtMost(x, y) <==> Signed(x) <= Signed(y)
  {
    var a0, a1, a2, a3 := OctetsOf(x);
    var b0, b1, b2, b3 := OctetsOf(y);
    TimesByValues(x, y, a0, a1, a2, a3, b0, b1, b2, b3);
  }
}
