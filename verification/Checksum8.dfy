/** The 8-bit checksum of loggerFirmware/src/crc.cc (`crc8_update`, `crc8`), which guards the
    records of the flash log. */
module Checksum8 {

  function Shift(crc: bv8): bv8 {
    if crc & 1 == 1 then (crc >> 1) ^ 0x8C else crc >> 1
  }

  function Shifts(crc: bv8, n: nat): bv8
    decreases n
  {
    if n == 0 then crc else Shifts(Shift(crc), n - 1)
  }

  const BITS: nat := 8

  function Update(data: bv8, crc: bv8): bv8 {
    Shifts(crc ^ data, BITS)
  }

  /** `crc8_update`. */
  method Crc8Update(data: bv8, crc: bv8) returns (r: bv8)
    ensures r == Update(data, crc)
  {
    r := crc ^ data;
    for i := 0 to BITS
      invariant Shifts(r, BITS - i) == Update(data, crc)
    {
      if r & 1 == 1 {
        r := (r >> 1) ^ 0x8C;
      } else {
        r := r >> 1;
      }
    }
  }

  function Crc8From(data: seq<bv8>, crc: bv8): bv8
    decreases |data|
  {
    if data == [] then crc else Crc8From(data[1..], Update(data[0], crc))
  }

  function Crc8(data: seq<bv8>): bv8 {
    Crc8From(data, 0)
  }

  /** `crc8`, over the first `len` octets of a record. */
  method Crc8OfRecord(data: seq<bv8>, len: nat) returns (crc: bv8)
    requires len <= |data|
    ensures crc == Crc8(data[..len])
  {
    crc := 0;
    var i := 0;
    while i < len
      invariant 0 <= i <= len
      invariant Crc8From(data[i..len], crc) == Crc8(data[..len])
    {
      assert data[i..len][1..] == data[i + 1..len];
      crc := Crc8Update(data[i], crc);
      i := i + 1;
    }
  }

  // ----- A zero residue means a correct checksum -----

  lemma ShiftInjective(x: bv8, y: bv8)
    requires Shift(x) == Shift(y)
    ensures x == y
  {}

  lemma {:induction false} ShiftsInjective(x: bv8, y: bv8, n: nat)
    requires Shifts(x, n) == Shifts(y, n)
    ensures x == y
    decreases n
  {
    if n > 0 {
      ShiftsInjective(Shift(x), Shift(y), n - 1);
      ShiftInjective(x, y);
    }
  }

  lemma {:induction false} ShiftsZero(n: nat)
    ensures Shifts(0, n) == 0
  {
    if n > 0 {
      assert Shift(0) == 0;
      ShiftsZero(n - 1);
    }
  }

  lemma SameCancels(x: bv8, y: bv8)
    ensures x ^ y == 0 <==> x == y
  {}

  lemma UpdateZeroIff(data: bv8, crc: bv8)
    ensures Update(data, crc) == 0 <==> data == crc
  {
    ShiftsZero(BITS);
    SameCancels(crc, data);
    if Update(data, crc) == 0 {
      ShiftsInjective(crc ^ data, 0, BITS);
    }
  }

  lemma {:induction false} Crc8Append(x: seq<bv8>, y: seq<bv8>, crc: bv8)
    ensures Crc8From(x + y, crc) == Crc8From(y, Crc8From(x, crc))
    decreases |x|
  {
    if x == [] {
      assert x + y == y;
    } else {
      assert (x + y)[1..] == x[1..] + y;
      Crc8Append(x[1..], y, Update(x[0], crc));
    }
  }

  /** The checksum of data followed by one octet is zero exactly when that octet is the checksum
      of the data. */
  lemma ResidueZeroIff(data: seq<bv8>, b: bv8)
    ensures Crc8(data + [b]) == 0 <==> b == Crc8(data)
  {
    Crc8Append(data, [b], 0);
    assert [b][1..] == [];
    UpdateZeroIff(b, Crc8(data));
  }
}
