/** The bitwise CRC-32 of protocol/src/crc32.cpp, and why it notices every change confined to four
    neighbouring bytes (IEEE 802.3, clause 3.2.9). */
module Crc32 {
  import opened FixedWidth
  import opened Words

  /** The powers of x below 32 in the generator polynomial of IEEE 802.3, clause 3.2.9. */
  predicate Generates(power: int) {
    power in {0, 1, 2, 4, 5, 7, 8, 10, 11, 12, 16, 22, 23, 26}
  }

  /** 0xEDB88320: the highest power is the lowest bit. */
  function Polynomial(): Word {
    seq(32, i requires 0 <= i < 32 => Generates(31 - i))
  }

  /** One turn of the inner loop: the mask of the source selects the polynomial when the lowest bit is set. */
  function Shift(crc: Word): Word {
    if crc[0] then Xor(Half(crc), Polynomial()) else Half(crc)
  }

  function ShiftBits(crc: Word, n: nat): Word {
    if n == 0 then crc else Shift(ShiftBits(crc, n - 1))
  }

  function AddByte(crc: Word, b: u8): Word {
    ShiftBits(Xor(crc, Widen(b)), 8)
  }

  function Update(crc: Word, bytes: seq<u8>): Word {
    if bytes == [] then crc
    else AddByte(Update(crc, bytes[..|bytes| - 1]), bytes[|bytes| - 1])
  }

  function Checksum(bytes: seq<u8>): Word {
    Complement(Update(Ones(), bytes))
  }

  lemma UpdateByOne(crc: Word, data: seq<u8>, i: nat)
    requires i < |data|
    ensures Update(crc, data[..i + 1]) == ShiftBits(Xor(Update(crc, data[..i]), Widen(data[i])), 8)
  {
    assert data[..i + 1][..i] == data[..i];
  }

  /** The inner loop over the eight bits of a byte. */
  method TakeByte(before: Word) returns (crc: Word)
    ensures crc == ShiftBits(before, 8)
  {
    crc := before;
    var bit := 0;
    while bit < 8
      invariant 0 <= bit <= 8
      invariant crc == ShiftBits(before, bit)
    {
      crc := if crc[0] then Xor(Half(crc), Polynomial()) else Half(crc);
      bit := bit + 1;
    }
  }

  /** The outer loop; the firmware's crc32_update runs it from any state. */
  method Advance(start: Word, data: seq<u8>) returns (crc: Word)
    ensures crc == Update(start, data)
  {
    crc := start;
    var i := 0;
    while i < |data|
      invariant 0 <= i <= |data|
      invariant crc == Update(start, data[..i])
    {
      UpdateByOne(start, data, i);
      crc := TakeByte(Xor(crc, Widen(data[i])));
      i := i + 1;
    }
    assert data[..|data|] == data;
  }

  method Compute(data: seq<u8>) returns (checksum: Word)
    ensures checksum == Checksum(data)
  {
    var crc := Advance(Ones(), data);
    checksum := Complement(crc);
  }

  // ---------------------------------------------------------------- the bit step

  /** The step is injective: the polynomial's top bit gives the lost bit back. */
  lemma ShiftInjective(a: Word, b: Word)
    requires Shift(a) == Shift(b)
    ensures a == b
  {
    assert Shift(a)[31] == a[0] && Shift(b)[31] == b[0];
    forall i | 0 <= i < 32
      ensures a[i] == b[i]
    {
      if i > 0 {
        assert Shift(a)[i - 1] == Shift(b)[i - 1];
      }
    }
  }

  lemma ShiftLinear(a: Word, b: Word)
    ensures Xor(Shift(a), Shift(b)) == Shift(Xor(a, b))
  {
    assert Xor(a, b)[0] == (a[0] != b[0]);
    forall i | 0 <= i < 32
      ensures Xor(Shift(a), Shift(b))[i] == Shift(Xor(a, b))[i]
    {
    }
  }

  lemma {:induction false} ShiftBitsInjective(a: Word, b: Word, n: nat)
    requires ShiftBits(a, n) == ShiftBits(b, n)
    ensures a == b
  {
    if n > 0 {
      ShiftInjective(ShiftBits(a, n - 1), ShiftBits(b, n - 1));
      ShiftBitsInjective(a, b, n - 1);
    }
  }

  lemma {:induction false} ShiftBitsLinear(a: Word, b: Word, n: nat)
    ensures Xor(ShiftBits(a, n), ShiftBits(b, n)) == ShiftBits(Xor(a, b), n)
  {
    if n > 0 {
      ShiftBitsLinear(a, b, n - 1);
      ShiftLinear(ShiftBits(a, n - 1), ShiftBits(b, n - 1));
    }
  }

  /** The bits from place n on are clear. */
  predicate Below(w: Word, n: nat) {
    forall i | n <= i < 32 :: !w[i]
  }

  /** A word moved up by n places. */
  function Up(w: Word, n: nat): Word {
    seq(32, i requires 0 <= i < 32 => i >= n && w[i - n])
  }

  /** Shifting back a word that was moved up by n places, when no bit was lost. */
  lemma {:induction false} ShiftBack(w: Word, n: nat, k: nat)
    requires k <= n <= 8 && Below(w, 24)
    ensures ShiftBits(Up(w, n), k) == Up(w, n - k)
  {
    if k > 0 {
      ShiftBack(w, n, k - 1);
      var up := Up(w, n - k + 1);
      assert !up[0];
      assert Half(up) == Up(w, n - k);
    }
  }

  // ---------------------------------------------------------------- runs of bytes

  lemma {:induction false} UpdateAppend(crc: Word, a: seq<u8>, b: seq<u8>)
    ensures Update(crc, a + b) == Update(Update(crc, a), b)
  {
    if b == [] {
      assert a + b == a;
    } else {
      assert (a + b)[..|a + b| - 1] == a + b[..|b| - 1];
      UpdateAppend(crc, a, b[..|b| - 1]);
    }
  }

  /** Bytes that follow cannot undo a difference. */
  lemma {:induction false} UpdateInjective(x: Word, y: Word, bytes: seq<u8>)
    requires Update(x, bytes) == Update(y, bytes)
    ensures x == y
  {
    if bytes != [] {
      var front, last := bytes[..|bytes| - 1], bytes[|bytes| - 1];
      var u, v := Update(x, front), Update(y, front);
      ShiftBitsInjective(Xor(u, Widen(last)), Xor(v, Widen(last)), 8);
      XorCancels(u, v, Widen(last));
      UpdateInjective(x, y, front);
    }
  }

  // ---------------------------------------------------------------- bursts of up to four bytes

  /** If two bytes leave two states differing in the lowest m bytes only, the states differed in the
      lowest m + 1 bytes only, and equal states mean equal bytes. */
  lemma ByteBehind(u: Word, v: Word, a: u8, b: u8, m: nat)
    requires m <= 3 && Below(Xor(AddByte(u, a), AddByte(v, b)), 8 * m)
    ensures Below(Xor(u, v), 8 * (m + 1))
    ensures u == v ==> a == b
  {
    var x, y := Widen(a), Widen(b);
    var d := Xor(AddByte(u, a), AddByte(v, b));
    var e := Xor(u, v);
    ShiftBitsLinear(Xor(u, x), Xor(v, y), 8);
    XorSwap(u, x, v, y);
    ShiftBack(d, 8, 8);
    assert Up(d, 0) == d;
    ShiftBitsInjective(Xor(e, Xor(x, y)), Up(d, 8), 8);
    forall i | 8 * (m + 1) <= i < 32
      ensures !e[i]
    {
      assert Xor(e, Xor(x, y))[i] == Up(d, 8)[i];
    }
    if u == v {
      forall i | 0 <= i < 32
        ensures x[i] == y[i]
      {
        assert i < 8 ==> Xor(e, Xor(x, y))[i] == Up(d, 8)[i];
      }
      WidenInjective(a, b);
    }
  }

  /** Two runs of k bytes from one state whose results differ in the lowest m bytes only, with k + m at
      most four, are the same run. */
  lemma {:induction false} ShortRunsDiffer(crc: Word, a: seq<u8>, b: seq<u8>, m: nat)
    requires |a| == |b| && |a| + m <= 4
    requires Below(Xor(Update(crc, a), Update(crc, b)), 8 * m)
    ensures a == b
    decreases |a|
  {
    if a != [] {
      var n := |a| - 1;
      ByteBehind(Update(crc, a[..n]), Update(crc, b[..n]), a[n], b[n], m);
      ShortRunsDiffer(crc, a[..n], b[..n], m + 1);
      assert a == a[..n] + [a[n]] && b == b[..n] + [b[n]];
    }
  }

  /** A change confined to at most four neighbouring bytes changes the checksum. */
  lemma BurstChangesChecksum(before: seq<u8>, a: seq<u8>, b: seq<u8>, after: seq<u8>)
    requires |a| == |b| <= 4 && a != b
    ensures Checksum(before + a + after) != Checksum(before + b + after)
  {
    if Checksum(before + a + after) == Checksum(before + b + after) {
      ComplementInjective(Update(Ones(), before + a + after), Update(Ones(), before + b + after));
      UpdateAppend(Ones(), before + a, after);
      UpdateAppend(Ones(), before + b, after);
      UpdateInjective(Update(Ones(), before + a), Update(Ones(), before + b), after);
      UpdateAppend(Ones(), before, a);
      UpdateAppend(Ones(), before, b);
      var crc := Update(Ones(), before);
      XorSelf(Update(crc, a), Update(crc, b));
      ShortRunsDiffer(crc, a, b, 0);
    }
  }
}
