/** 32-bit words and bytes as their bits, lowest bit first: the view in which the CRC is computed. */
module Words {
  import opened FixedWidth

  type Word = w: seq<bool> | |w| == 32 witness seq(32, _ => false)

  function Zero(): Word {
    seq(32, _ => false)
  }

  function Ones(): Word {
    seq(32, _ => true)
  }

  function Xor(a: Word, b: Word): Word {
    seq(32, i requires 0 <= i < 32 => a[i] != b[i])
  }

  function Complement(a: Word): Word {
    seq(32, i requires 0 <= i < 32 => !a[i])
  }

  /** a >> 1 */
  function Half(a: Word): Word {
    seq(32, i requires 0 <= i < 32 => i < 31 && a[i + 1])
  }

  /** Bit i of a number: the lowest bit after i halvings. */
  predicate Bit(b: nat, i: nat) {
    if i == 0 then b % 2 == 1 else Bit(b / 2, i - 1)
  }

  function PowerOfTwo(n: nat): (p: nat)
    ensures p > 0
  {
    if n == 0 then 1 else 2 * PowerOfTwo(n - 1)
  }

  /** The number with the given bits. */
  function Value(bits: seq<bool>): (n: nat)
    ensures n < PowerOfTwo(|bits|)
  {
    if bits == [] then 0 else (if bits[0] then 1 else 0) + 2 * Value(bits[1..])
  }

  /** A byte in the low bits of a word. */
  function Widen(b: u8): Word {
    seq(32, i requires 0 <= i < 32 => i < 8 && Bit(b, i))
  }

  lemma BytesHaveEightBits()
    ensures PowerOfTwo(8) == 256
  {
    assert PowerOfTwo(4) == 16;
  }

  /** Byte k of a word. */
  function ByteOf(w: Word, k: nat): u8
    requires k < 4
  {
    BytesHaveEightBits();
    Value(w[8 * k..8 * k + 8])
  }

  /** The four bytes of a word, lowest first. */
  function ToBytes(w: Word): (bytes: seq<u8>)
    ensures |bytes| == 4
  {
    [ByteOf(w, 0), ByteOf(w, 1), ByteOf(w, 2), ByteOf(w, 3)]
  }

  function FromBytes(bytes: seq<u8>): Word
    requires |bytes| == 4
  {
    seq(32, i requires 0 <= i < 32 => Bit(bytes[i / 8], i % 8))
  }

  // ---------------------------------------------------------------- facts

  lemma {:induction false} BitOfValue(bits: seq<bool>, i: nat)
    requires i < |bits|
    ensures Bit(Value(bits), i) == bits[i]
  {
    var n := Value(bits);
    assert n % 2 == (if bits[0] then 1 else 0) && n / 2 == Value(bits[1..]);
    if i > 0 {
      BitOfValue(bits[1..], i - 1);
    }
  }

  /** Numbers below 2^n are told apart by their lowest n bits. */
  lemma {:induction false} BitsDetermine(a: nat, b: nat, n: nat)
    requires a < PowerOfTwo(n) && b < PowerOfTwo(n)
    requires forall i | 0 <= i < n :: Bit(a, i) == Bit(b, i)
    ensures a == b
  {
    if n > 0 {
      assert Bit(a, 0) == Bit(b, 0);
      forall i | 0 <= i < n - 1
        ensures Bit(a / 2, i) == Bit(b / 2, i)
      {
        assert Bit(a, i + 1) == Bit(b, i + 1);
      }
      BitsDetermine(a / 2, b / 2, n - 1);
    }
  }

  lemma ByteOfBits(w: Word, k: nat, i: nat)
    requires k < 4 && i < 8
    ensures Bit(ByteOf(w, k), i) == w[8 * k + i]
  {
    BitOfValue(w[8 * k..8 * k + 8], i);
  }

  lemma BytesRoundTrip(w: Word)
    ensures FromBytes(ToBytes(w)) == w
  {
    forall i | 0 <= i < 32
      ensures FromBytes(ToBytes(w))[i] == w[i]
    {
      ByteOfBits(w, i / 8, i % 8);
      var bytes := ToBytes(w);
      assert bytes[i / 8] == ByteOf(w, i / 8);
    }
  }

  /** Different bytes make different words. */
  lemma FromBytesInjective(a: seq<u8>, b: seq<u8>)
    requires |a| == |b| == 4 && FromBytes(a) == FromBytes(b)
    ensures a == b
  {
    forall k | 0 <= k < 4
      ensures a[k] == b[k]
    {
      forall i | 0 <= i < 8
        ensures Bit(a[k], i) == Bit(b[k], i)
      {
        assert FromBytes(a)[8 * k + i] == FromBytes(b)[8 * k + i];
      }
      BytesHaveEightBits();
      BitsDetermine(a[k], b[k], 8);
    }
  }

  lemma WidenInjective(a: u8, b: u8)
    requires Widen(a) == Widen(b)
    ensures a == b
  {
    forall i | 0 <= i < 8
      ensures Bit(a, i) == Bit(b, i)
    {
      assert Widen(a)[i] == Widen(b)[i];
    }
    BytesHaveEightBits();
    BitsDetermine(a, b, 8);
  }

  lemma ComplementInjective(a: Word, b: Word)
    requires Complement(a) == Complement(b)
    ensures a == b
  {
    forall i | 0 <= i < 32
      ensures a[i] == b[i]
    {
      assert Complement(a)[i] == Complement(b)[i];
    }
  }

  lemma XorCancels(a: Word, b: Word, c: Word)
    requires Xor(a, c) == Xor(b, c)
    ensures a == b
  {
    forall i | 0 <= i < 32
      ensures a[i] == b[i]
    {
      assert Xor(a, c)[i] == Xor(b, c)[i];
    }
  }

  lemma XorSwap(a: Word, b: Word, c: Word, d: Word)
    ensures Xor(Xor(a, b), Xor(c, d)) == Xor(Xor(a, c), Xor(b, d))
  {
  }

  lemma XorSelf(a: Word, b: Word)
    ensures a == b <==> Xor(a, b) == Zero()
  {
    if Xor(a, b) == Zero() {
      forall i | 0 <= i < 32
        ensures a[i] == b[i]
      {
        assert Xor(a, b)[i] == Zero()[i];
      }
    }
  }
}
