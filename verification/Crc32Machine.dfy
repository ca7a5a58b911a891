/** The CRC on machine words, as protocol/src/crc32.cpp and the firmware write it down, and its known value. */
module Crc32Machine {
  import opened FixedWidth
  import opened Words
  import opened Crc32

  type Machine = bv32

  /** The machine word with only bit i set. */
  function Mask(i: nat): Machine {
    if i == 0 then 1 else Mask(i - 1) << 1
  }

  predicate Has(v: Machine, i: nat) {
    v & Mask(i) != 0
  }

  /** The word has the bits of the machine word. */
  ghost predicate Same(w: Word, v: Machine) {
    forall i | 0 <= i < 32 :: w[i] <==> Has(v, i)
  }

  /** One turn of the inner loop. */
  function Turn(crc: Machine): Machine {
    (crc >> 1) ^ (if crc & 1 == 1 then 0xEDB88320 else 0)
  }

  function Turns(crc: Machine, n: nat): Machine {
    if n == 0 then crc else Turn(Turns(crc, n - 1))
  }

  // ---------------------------------------------------------------- masks

  lemma MaskValues()
    ensures Mask(0) == 0x1 && Mask(1) == 0x2 && Mask(2) == 0x4 && Mask(3) == 0x8
    ensures Mask(4) == 0x10 && Mask(5) == 0x20 && Mask(6) == 0x40 && Mask(7) == 0x80
    ensures Mask(8) == 0x100 && Mask(9) == 0x200 && Mask(10) == 0x400 && Mask(11) == 0x800
    ensures Mask(12) == 0x1000 && Mask(13) == 0x2000 && Mask(14) == 0x4000 && Mask(15) == 0x8000
    ensures Mask(16) == 0x10000 && Mask(17) == 0x20000 && Mask(18) == 0x40000 && Mask(19) == 0x80000
    ensures Mask(20) == 0x100000 && Mask(21) == 0x200000 && Mask(22) == 0x400000 && Mask(23) == 0x800000
    ensures Mask(24) == 0x1000000 && Mask(25) == 0x2000000 && Mask(26) == 0x4000000 && Mask(27) == 0x8000000
    ensures Mask(28) == 0x10000000 && Mask(29) == 0x20000000 && Mask(30) == 0x40000000 && Mask(31) == 0x80000000
  {
    assert Mask(0) == 0x1; assert Mask(1) == 0x2; assert Mask(2) == 0x4; assert Mask(3) == 0x8;
    assert Mask(4) == 0x10; assert Mask(5) == 0x20; assert Mask(6) == 0x40; assert Mask(7) == 0x80;
    assert Mask(8) == 0x100; assert Mask(9) == 0x200; assert Mask(10) == 0x400; assert Mask(11) == 0x800;
    assert Mask(12) == 0x1000; assert Mask(13) == 0x2000; assert Mask(14) == 0x4000; assert Mask(15) == 0x8000;
    assert Mask(16) == 0x10000; assert Mask(17) == 0x20000; assert Mask(18) == 0x40000; assert Mask(19) == 0x80000;
    assert Mask(20) == 0x100000; assert Mask(21) == 0x200000; assert Mask(22) == 0x400000; assert Mask(23) == 0x800000;
    assert Mask(24) == 0x1000000; assert Mask(25) == 0x2000000; assert Mask(26) == 0x4000000; assert Mask(27) == 0x8000000;
    assert Mask(28) == 0x10000000; assert Mask(29) == 0x20000000; assert Mask(30) == 0x40000000; assert Mask(31) == 0x80000000;
  }

  predicate OneBit(m: Machine) {
    m != 0 && m & (m - 1) == 0
  }

  lemma MaskIsOneBit(i: nat)
    requires i < 32
    ensures OneBit(Mask(i))
    ensures i < 31 ==> Mask(i) & 0x80000000 == 0
  {
    MaskValues();
  }

  lemma ShiftedMask(v: Machine, m: Machine)
    requires OneBit(m) && m & 0x80000000 == 0
    ensures (v >> 1) & m != 0 <==> v & (m << 1) != 0
  {
  }

  lemma XorMask(v: Machine, u: Machine, m: Machine)
    requires OneBit(m)
    ensures (v ^ u) & m != 0 <==> (v & m != 0) != (u & m != 0)
  {
  }

  // ---------------------------------------------------------------- the operations

  lemma HalfBit(v: Machine, i: nat)
    requires i < 32
    ensures Has(v >> 1, i) <==> i < 31 && Has(v, i + 1)
  {
    MaskIsOneBit(i);
    if i < 31 {
      ShiftedMask(v, Mask(i));
    } else {
      MaskValues();
      TopBitGone(v);
    }
  }

  lemma TopBitGone(v: Machine)
    ensures (v >> 1) & 0x80000000 == 0
  {
  }

  lemma XorBit(v: Machine, u: Machine, i: nat)
    requires i < 32
    ensures Has(v ^ u, i) <==> Has(v, i) != Has(u, i)
  {
    MaskIsOneBit(i);
    XorMask(v, u, Mask(i));
  }

  /** Bit by bit, away from the machine's own operations. */
  ghost predicate Halves(v: Machine, u: Machine) {
    forall i | 0 <= i < 32 :: Has(u, i) <==> i < 31 && Has(v, i + 1)
  }

  ghost predicate Differs(v: Machine, u: Machine, x: Machine) {
    forall i | 0 <= i < 32 :: Has(x, i) <==> Has(v, i) != Has(u, i)
  }

  lemma ShiftHalves(v: Machine, u: Machine)
    requires u == v >> 1
    ensures Halves(v, u)
  {
    forall i | 0 <= i < 32
      ensures Has(u, i) <==> i < 31 && Has(v, i + 1)
    {
      HalfBit(v, i);
    }
  }

  lemma XorDiffers(v: Machine, u: Machine, x: Machine)
    requires x == v ^ u
    ensures Differs(v, u, x)
  {
    forall i | 0 <= i < 32
      ensures Has(x, i) <==> Has(v, i) != Has(u, i)
    {
      XorBit(v, u, i);
    }
  }

  lemma HalfIsHalf(w: Word, v: Machine, u: Machine)
    requires Same(w, v) && Halves(v, u)
    ensures Same(Half(w), u)
  {
  }

  lemma XorIsDifference(a: Word, b: Word, v: Machine, u: Machine, x: Machine)
    requires Same(a, v) && Same(b, u) && Differs(v, u, x)
    ensures Same(Xor(a, b), x)
  {
  }

  lemma XorIsXor(a: Word, b: Word, v: Machine, u: Machine)
    requires Same(a, v) && Same(b, u)
    ensures Same(Xor(a, b), v ^ u)
  {
    var x := v ^ u;
    XorDiffers(v, u, x);
    XorIsDifference(a, b, v, u, x);
  }

  lemma PolynomialIsConstant()
    ensures Same(Polynomial(), 0xEDB88320)
  {
    MaskValues();
  }

  lemma HalfIsShift(w: Word, v: Machine)
    requires Same(w, v)
    ensures Same(Half(w), v >> 1)
  {
    var u := v >> 1;
    ShiftHalves(v, u);
    HalfIsHalf(w, v, u);
  }

  lemma TurnByBit(v: Machine)
    ensures Turn(v) == if Has(v, 0) then (v >> 1) ^ 0xEDB88320 else v >> 1
  {
  }

  /** The bit step is the machine's. */
  lemma ShiftIsTurn(w: Word, v: Machine)
    requires Same(w, v)
    ensures Same(Shift(w), Turn(v))
  {
    HalfIsShift(w, v);
    PolynomialIsConstant();
    TurnByBit(v);
    if w[0] {
      XorIsXor(Half(w), Polynomial(), v >> 1, 0xEDB88320);
    }
  }

  lemma {:induction false} ShiftBitsIsTurns(w: Word, v: Machine, n: nat)
    requires Same(w, v)
    ensures Same(ShiftBits(w, n), Turns(v, n))
  {
    if n > 0 {
      ShiftBitsIsTurns(w, v, n - 1);
      ShiftIsTurn(ShiftBits(w, n - 1), Turns(v, n - 1));
    }
  }

  lemma AllBits(i: nat)
    requires i < 32
    ensures Has(0xFFFFFFFF, i)
  {
    MaskIsOneBit(i);
    AllOnes(Mask(i));
  }

  lemma AllOnes(m: Machine)
    ensures 0xFFFFFFFF & m == m
  {
  }

  lemma ComplementIsXor(w: Word, v: Machine)
    requires Same(w, v)
    ensures Same(Complement(w), v ^ 0xFFFFFFFF)
  {
    OnesAreSame();
    XorIsXor(w, Ones(), v, 0xFFFFFFFF);
    assert Complement(w) == Xor(w, Ones());
  }

  lemma OnesAreSame()
    ensures Same(Ones(), 0xFFFFFFFF)
  {
    forall i | 0 <= i < 32
      ensures Has(0xFFFFFFFF, i)
    {
      AllBits(i);
    }
  }

  // ---------------------------------------------------------------- whole messages

  /** The units are the bytes, each in a machine word. */
  ghost predicate SameBytes(bytes: seq<u8>, units: seq<Machine>) {
    |bytes| == |units| && forall i | 0 <= i < |bytes| :: Same(Widen(bytes[i]), units[i])
  }

  /** The outer loop. */
  function Taken(crc: Machine, units: seq<Machine>): Machine
    decreases |units|
  {
    if units == [] then crc else Taken(Turns(crc ^ units[0], 8), units[1..])
  }

  lemma {:induction false} UpdateIsTaken(w: Word, v: Machine, bytes: seq<u8>, units: seq<Machine>)
    requires Same(w, v) && SameBytes(bytes, units)
    ensures Same(Update(w, bytes), Taken(v, units))
    decreases |bytes|
  {
    if bytes != [] {
      XorIsXor(w, Widen(bytes[0]), v, units[0]);
      ShiftBitsIsTurns(Xor(w, Widen(bytes[0])), v ^ units[0], 8);
      UpdateIsTaken(AddByte(w, bytes[0]), Turns(v ^ units[0], 8), bytes[1..], units[1..]);
      UpdateOne(w, bytes[0]);
      assert [bytes[0]] + bytes[1..] == bytes;
      UpdateAppend(w, [bytes[0]], bytes[1..]);
    }
  }

  lemma UpdateOne(w: Word, b: u8)
    ensures Update(w, [b]) == AddByte(w, b)
  {
    assert [b][..0] == [];
  }

  /** The checksum of every message is what the machine words of the sources compute. */
  lemma ChecksumOnMachine(bytes: seq<u8>, units: seq<Machine>)
    requires SameBytes(bytes, units)
    ensures Same(Checksum(bytes), Taken(0xFFFFFFFF, units) ^ 0xFFFFFFFF)
  {
    OnesAreSame();
    UpdateIsTaken(Ones(), 0xFFFFFFFF, bytes, units);
    ComplementIsXor(Update(Ones(), bytes), Taken(0xFFFFFFFF, units));
  }

  // ---------------------------------------------------------------- the known value

  const DIGITS: seq<u8> := [0x31, 0x32, 0x33, 0x34, 0x35, 0x36, 0x37, 0x38, 0x39]
  const DIGIT_UNITS: seq<Machine> := [0x31, 0x32, 0x33, 0x34, 0x35, 0x36, 0x37, 0x38, 0x39]

  lemma HighBits(u: Machine, i: nat)
    requires u & 0xFFFFFF00 == 0 && 8 <= i < 32
    ensures !Has(u, i)
  {
    MaskValues();
  }

  lemma LowMasks()
    ensures Mask(0) == 1 && Mask(1) == 2 && Mask(2) == 4 && Mask(3) == 8
    ensures Mask(4) == 16 && Mask(5) == 32 && Mask(6) == 64 && Mask(7) == 128
  {
    MaskValues();
  }

  lemma ByteIsSame(b: u8, u: Machine)
    requires u & 0xFFFFFF00 == 0
    requires forall i | 0 <= i < 8 :: Bit(b, i) <==> Has(u, i)
    ensures Same(Widen(b), u)
  {
    forall i | 0 <= i < 32
      ensures Widen(b)[i] <==> Has(u, i)
    {
      if i >= 8 {
        HighBits(u, i);
      }
    }
  }

  lemma DigitsAreSame()
    ensures SameBytes(DIGITS, DIGIT_UNITS)
  {
    LowMasks();
    assert Same(Widen(0x31), 0x31) by { ByteIsSame(0x31, 0x31); }
    assert Same(Widen(0x32), 0x32) by { ByteIsSame(0x32, 0x32); }
    assert Same(Widen(0x33), 0x33) by { ByteIsSame(0x33, 0x33); }
    assert Same(Widen(0x34), 0x34) by { ByteIsSame(0x34, 0x34); }
    assert Same(Widen(0x35), 0x35) by { ByteIsSame(0x35, 0x35); }
    assert Same(Widen(0x36), 0x36) by { ByteIsSame(0x36, 0x36); }
    assert Same(Widen(0x37), 0x37) by { ByteIsSame(0x37, 0x37); }
    assert Same(Widen(0x38), 0x38) by { ByteIsSame(0x38, 0x38); }
    assert Same(Widen(0x39), 0x39) by { ByteIsSame(0x39, 0x39); }
  }

  /** The states between the bytes. */
  ghost predicate Through(states: seq<Machine>, units: seq<Machine>) {
    |states| == |units| + 1 && forall i | 0 <= i < |units| :: states[i + 1] == Turns(states[i] ^ units[i], 8)
  }

  lemma {:induction false} TakenThrough(states: seq<Machine>, units: seq<Machine>)
    requires Through(states, units)
    ensures Taken(states[0], units) == states[|units|]
    decreases |units|
  {
    if units != [] {
      assert states[1..][0] == states[1];
      TakenThrough(states[1..], units[1..]);
    }
  }

  const DIGIT_STATES: seq<Machine> := [
    0xFFFFFFFF, 0x7C231048, 0xB0ACBB32, 0x77B79C2D, 0x641C1F5C,
    0x340AC5E3, 0xF68D2C9E, 0xAFFC9660, 0x651F2550, 0x340BC6D9]

  lemma FirstDigits()
    ensures Turns(0xFFFFFFFF ^ 0x31, 8) == 0x7C231048
    ensures Turns(0x7C231048 ^ 0x32, 8) == 0xB0ACBB32
    ensures Turns(0xB0ACBB32 ^ 0x33, 8) == 0x77B79C2D
  {
  }

  lemma MiddleDigits()
    ensures Turns(0x77B79C2D ^ 0x34, 8) == 0x641C1F5C
    ensures Turns(0x641C1F5C ^ 0x35, 8) == 0x340AC5E3
    ensures Turns(0x340AC5E3 ^ 0x36, 8) == 0xF68D2C9E
  {
  }

  lemma LastDigits()
    ensures Turns(0xF68D2C9E ^ 0x37, 8) == 0xAFFC9660
    ensures Turns(0xAFFC9660 ^ 0x38, 8) == 0x651F2550
    ensures Turns(0x651F2550 ^ 0x39, 8) == 0x340BC6D9
  {
  }

  lemma DigitsGoThrough()
    ensures Through(DIGIT_STATES, DIGIT_UNITS)
  {
    FirstDigits();
    MiddleDigits();
    LastDigits();
  }

  /** The checksum of the digits from one to nine. */
  lemma KnownValue()
    ensures Same(Checksum(DIGITS), 0xCBF43926)
  {
    DigitsAreSame();
    ChecksumOnMachine(DIGITS, DIGIT_UNITS);
    DigitsGoThrough();
    TakenThrough(DIGIT_STATES, DIGIT_UNITS);
  }
}
