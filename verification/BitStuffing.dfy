/** CAN bit stuffing (Bosch CAN Specification 2.0, Part A, section 5): after five equal bits on the wire the opposite
    bit is inserted. */
module BitStuffing {

  /** What the transmitter remembers: the last bit on the wire and how many equal ones end there. */
  datatype Line = Quiet | Sent(last: bool, run: nat)

  function Emit(line: Line, bit: bool): Line {
    if line.Sent? && line.last == bit then Sent(bit, line.run + 1) else Sent(bit, 1)
  }

  /** The bits on the wire for `bits`, stuff bits included. */
  function Stuff(line: Line, bits: seq<bool>): seq<bool>
    decreases bits
  {
    if bits == [] then []
    else
      var bit := bits[0];
      var sent := Emit(line, bit);
      if sent.run >= 5 then [bit, !bit] + Stuff(Emit(sent, !bit), bits[1..])
      else [bit] + Stuff(sent, bits[1..])
  }

  function StuffBits(line: Line, bits: seq<bool>): int {
    |Stuff(line, bits)| - |bits|
  }

  function RunOf(line: Line): nat {
    if line.Quiet? then 0 else line.run
  }

  /** Four bits of the message pay for every stuff bit. */
  lemma {:induction false} StuffingPaidFor(line: Line, bits: seq<bool>)
    requires RunOf(line) < 5
    ensures 0 <= StuffBits(line, bits)
    ensures bits != [] ==> 4 * StuffBits(line, bits) + 1 <= |bits| + RunOf(line)
    decreases |bits|
  {
    if bits != [] {
      var sent := Emit(line, bits[0]);
      var next := if sent.run >= 5 then Emit(sent, !bits[0]) else sent;
      StuffingPaidFor(next, bits[1..]);
    }
  }

  /** The bound used for the wire time: a message of n bits gets at most (n - 1) / 4 stuff bits. */
  lemma StuffingBound(bits: seq<bool>)
    requires bits != []
    ensures 0 <= StuffBits(Quiet, bits) <= (|bits| - 1) / 4
  {
    StuffingPaidFor(Quiet, bits);
  }

  /** The rest of a worst message: runs of four that each complete a run of five with the stuff bit before them. */
  function WorstRest(bit: bool, n: nat): (bits: seq<bool>)
    ensures |bits| == n
    decreases n
  {
    if n < 4 then seq(n, _ => bit) else [bit, bit, bit, bit] + WorstRest(!bit, n - 4)
  }

  lemma {:induction false} NoStuffing(bit: bool, run: nat, n: nat)
    requires 1 <= run && run + n < 5
    ensures StuffBits(Sent(bit, run), seq(n, _ => bit)) == 0
    decreases n
  {
    if n > 0 {
      assert seq(n, _ => bit)[1..] == seq(n - 1, _ => bit);
      NoStuffing(bit, run + 1, n - 1);
    }
  }

  lemma FourMore(bit: bool, rest: seq<bool>)
    ensures StuffBits(Sent(bit, 1), [bit, bit, bit, bit] + rest) == 1 + StuffBits(Sent(!bit, 1), rest)
  {
    var a := [bit, bit, bit, bit] + rest;
    assert a[1..] == [bit, bit, bit] + rest;
    assert a[1..][1..] == [bit, bit] + rest;
    assert a[1..][1..][1..] == [bit] + rest;
    assert a[1..][1..][1..][1..] == rest;
    assert Stuff(Sent(bit, 4), [bit] + rest) == [bit, !bit] + Stuff(Sent(!bit, 1), rest);
    assert Stuff(Sent(bit, 3), [bit, bit] + rest) == [bit] + Stuff(Sent(bit, 4), [bit] + rest);
    assert Stuff(Sent(bit, 2), [bit, bit, bit] + rest) == [bit] + Stuff(Sent(bit, 3), [bit, bit] + rest);
  }

  lemma {:induction false} WorstRestStuffs(bit: bool, n: nat)
    ensures StuffBits(Sent(bit, 1), WorstRest(bit, n)) == n / 4
    decreases n
  {
    if n < 4 {
      NoStuffing(bit, 1, n);
    } else {
      FourMore(bit, WorstRest(!bit, n - 4));
      WorstRestStuffs(!bit, n - 4);
    }
  }

  /** The bound is met for every length. */
  lemma StuffingBoundIsTight(n: nat)
    requires n > 0
    ensures exists bits: seq<bool> :: |bits| == n && StuffBits(Quiet, bits) == (n - 1) / 4
  {
    var bits := [false] + WorstRest(false, n - 1);
    assert bits[1..] == WorstRest(false, n - 1);
    WorstRestStuffs(false, n - 1);
    assert Stuff(Quiet, bits) == [false] + Stuff(Sent(false, 1), bits[1..]);
    assert |bits| == n && StuffBits(Quiet, bits) == (n - 1) / 4;
  }
}
