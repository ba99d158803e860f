/** The CRC-32 register: one bit at a time as the reference, a table entry a byte as the program
    does it (crc32_combine.go, and section 8 of RFC 1952). */
module Crc32 {
  import opened Bytes

  type reg = bv32

  // The generator polynomial, lowest degree in the highest bit.
  const POLY: reg := 0xEDB8_8320
  // The polynomial 1.
  const ONE: reg := 0x8000_0000

  /** Addition over GF(2). */
  function Plus(a: reg, b: reg): reg {
    a ^ b
  }

  /** One bit: multiply by x and reduce. */
  function Step(c: reg): reg {
    if c & 1 == 1 then (c >> 1) ^ POLY else c >> 1
  }

  function Steps(c: reg, n: nat): reg {
    if n == 0 then c else Step(Steps(c, n - 1))
  }

  // ----- the reference: a message is a string of bits, each byte's lowest first

  /** The shift register takes one message bit. */
  function Shift(c: reg, bit: bool): reg {
    if (c & 1 == 1) != bit then (c >> 1) ^ POLY else c >> 1
  }

  function Register(c: reg, bits: seq<bool>): reg {
    if bits == [] then c else Shift(Register(c, bits[..|bits| - 1]), bits[|bits| - 1])
  }

  function Bits(v: byte): (s: seq<bool>)
    ensures |s| == 8
  {
    [v & 1 != 0, v & 2 != 0, v & 4 != 0, v & 8 != 0, v & 16 != 0, v & 32 != 0, v & 64 != 0, v & 128 != 0]
  }

  function Message(p: seq<byte>): seq<bool> {
    if p == [] then [] else Message(p[..|p| - 1]) + Bits(p[|p| - 1])
  }

  // ----- bytes

  /** A byte into the register. */
  function Feed(c: reg, v: byte): reg {
    Steps(Plus(c, v as reg), 8)
  }

  /** The register after the bytes of p. */
  function Raw(c: reg, p: seq<byte>): reg {
    if p == [] then c else Feed(Raw(c, p[..|p| - 1]), p[|p| - 1])
  }

  /** An entry of the table: section 8 of RFC 1952 fills it with eight steps each. */
  function Table(i: byte): reg {
    Steps(i as reg, 8)
  }

  function Inverted(c: reg): reg {
    !c
  }

  /** crc32.Update: the register, inverted on the way in and out. */
  function Update(crc: reg, p: seq<byte>): reg {
    Inverted(Raw(Inverted(crc), p))
  }

  // ----- linearity

  lemma PlusZero(a: reg)
    ensures Plus(a, 0) == a && Plus(0, a) == a && Plus(a, a) == 0
  {
  }

  lemma PlusSwap(a: reg, b: reg)
    ensures Plus(a, b) == Plus(b, a)
  {
  }

  lemma PlusAssoc(a: reg, b: reg, c: reg)
    ensures Plus(Plus(a, b), c) == Plus(a, Plus(b, c))
  {
  }

  predicate IsOdd(c: reg) {
    c & 1 == 1
  }

  function Halved(c: reg): reg {
    c >> 1
  }

  lemma StepIs(c: reg)
    ensures Step(c) == if IsOdd(c) then Plus(Halved(c), POLY) else Halved(c)
  {
  }

  lemma OddSum(a: reg, b: reg)
    ensures IsOdd(Plus(a, b)) <==> IsOdd(a) != IsOdd(b)
  {
    assert a & 1 == 0 || a & 1 == 1;
    assert b & 1 == 0 || b & 1 == 1;
    assert (a ^ b) & 1 == (a & 1) ^ (b & 1);
  }

  lemma HalvedSum(a: reg, b: reg)
    ensures Halved(Plus(a, b)) == Plus(Halved(a), Halved(b))
  {
  }

  lemma PolyCancels(x: reg, y: reg, p: reg)
    ensures Plus(Plus(x, p), Plus(y, p)) == Plus(x, y)
    ensures Plus(Plus(x, p), y) == Plus(Plus(x, y), p) && Plus(x, Plus(y, p)) == Plus(Plus(x, y), p)
  {
    hide *;
    PlusAssoc(x, p, y);
    PlusSwap(p, y);
    PlusAssoc(x, y, p);
    PlusAssoc(x, p, Plus(y, p));
    PlusSwap(p, Plus(y, p));
    PlusAssoc(y, p, p);
    PlusZero(p);
    PlusZero(y);
  }

  lemma StepLinear(a: reg, b: reg)
    ensures Step(Plus(a, b)) == Plus(Step(a), Step(b))
  {
    hide *;
    StepIs(a);
    StepIs(b);
    StepIs(Plus(a, b));
    OddSum(a, b);
    HalvedSum(a, b);
    PolyCancels(Halved(a), Halved(b), POLY);
  }

  lemma {:induction false} StepsLinear(a: reg, b: reg, n: nat)
    ensures Steps(Plus(a, b), n) == Plus(Steps(a, n), Steps(b, n))
  {
    hide Step, Plus;
    if n > 0 {
      StepsLinear(a, b, n - 1);
      StepLinear(Steps(a, n - 1), Steps(b, n - 1));
    }
  }

  lemma {:induction false} StepsAdd(c: reg, m: nat, n: nat)
    ensures Steps(Steps(c, m), n) == Steps(c, m + n)
  {
    hide Step;
    if n > 0 {
      StepsAdd(c, m, n - 1);
    }
  }

  lemma {:induction false} StepsZero(n: nat)
    ensures Steps(0, n) == 0
  {
    if n > 0 {
      StepsZero(n - 1);
    }
  }

  lemma StepsNext(c: reg, n: nat)
    ensures Steps(c, n + 1) == Step(Steps(c, n)) && Steps(c, 0) == c
  {
  }

  lemma EightSteps(c: reg)
    ensures Steps(c, 8) == Step(Step(Step(Step(Step(Step(Step(Step(c))))))))
  {
    hide Step, Steps;
    StepsNext(c, 7); StepsNext(c, 6); StepsNext(c, 5); StepsNext(c, 4);
    StepsNext(c, 3); StepsNext(c, 2); StepsNext(c, 1); StepsNext(c, 0);
  }

  // Steps only move bits whose low end is clear.
  lemma HighStepsShift(c: reg)
    requires c & 0xFF == 0
    ensures Steps(c, 8) == c >> 8
  {
    hide Steps;
    EightSteps(c);
  }

  function LowByte(c: reg): byte {
    (c & 0xFF) as byte
  }

  // What is not in a register's low byte.
  function High(w: reg): reg {
    w & 0xFFFF_FF00
  }

  // The low byte is done with.
  function Drop(w: reg): reg {
    w >> 8
  }

  lemma HighBits(w: reg)
    ensures High(w) & 0xFF == 0 && High(w) >> 8 == Drop(w)
  {
  }

  lemma HighSteps(w: reg)
    ensures Steps(High(w), 8) == Drop(w)
  {
    hide Steps, High, Drop;
    HighBits(w);
    HighStepsShift(High(w));
  }

  // A register with v added to its low byte.
  lemma Split(c: reg, v: byte)
    ensures Plus(c, v as reg) == Plus((LowByte(c) ^ v) as reg, High(c))
  {
    assert LowByte(c) as reg == c & 0xFF;
    assert (LowByte(c) ^ v) as reg == (LowByte(c) as reg) ^ (v as reg);
  }

  /** The table-driven step is eight steps of the register. */
  lemma TableStep(c: reg, v: byte)
    ensures Feed(c, v) == Plus(Table(LowByte(c) ^ v), c >> 8)
  {
    hide Steps, Plus, High;
    Split(c, v);
    HighSteps(c);
    StepsLinear((LowByte(c) ^ v) as reg, High(c), 8);
  }

  /** rawUpdate, a table look-up for every byte. */
  method RawUpdate(c: reg, p: seq<byte>) returns (crc: reg)
    ensures crc == Raw(c, p)
  {
    hide Feed, Table;
    crc := c;
    for i := 0 to |p|
      invariant crc == Raw(c, p[..i])
    {
      assert p[..i + 1][..i] == p[..i];
      TableStep(crc, p[i]);
      crc := Table(LowByte(crc) ^ p[i]) ^ (crc >> 8);
    }
    assert p[..|p|] == p;
  }

  /** crc32.Update over the table. */
  method UpdateCrc(c: reg, p: seq<byte>) returns (crc: reg)
    ensures crc == Update(c, p)
  {
    crc := RawUpdate(Inverted(c), p);
    crc := Inverted(crc);
  }

  lemma UpdateIs(c: reg, p: seq<byte>)
    ensures Update(c, p) == Inverted(Raw(Inverted(c), p))
  {
  }

  lemma InvertedTwice(c: reg)
    ensures Inverted(Inverted(c)) == c
  {
  }

  /** The checksum of a concatenation goes on from the checksum of its first part. */
  lemma UpdateConcat(c: reg, a: seq<byte>, b: seq<byte>)
    ensures Update(c, a + b) == Update(Update(c, a), b)
  {
    hide Raw, Inverted;
    RawConcat(Inverted(c), a, b);
    InvertedTwice(Raw(Inverted(c), a));
  }

  // ----- the register over bytes against the register over bits

  lemma {:induction false} RegisterConcat(c: reg, a: seq<bool>, b: seq<bool>)
    ensures Register(c, a + b) == Register(Register(c, a), b)
  {
    hide Shift;
    if b == [] {
      assert a + b == a;
    } else {
      assert (a + b)[..|a + b| - 1] == a + b[..|b| - 1];
      RegisterConcat(c, a, b[..|b| - 1]);
    }
  }

  // Adding the same bits again after a step brings the register back to the bits it has seen.
  lemma ShiftAhead(c: reg, v: reg)
    ensures Shift(c, v & 1 == 1) == Plus(Step(Plus(c, v)), v >> 1)
  {
    hide Step, Shift;
    assert c & 1 == 0 || c & 1 == 1;
    assert v & 1 == 0 || v & 1 == 1;
    ShiftAheadAt(c, v);
  }

  lemma ShiftAheadAt(c: reg, v: reg)
    requires c & 1 == 0 || c & 1 == 1
    requires v & 1 == 0 || v & 1 == 1
    ensures Shift(c, v & 1 == 1) == Plus(Step(Plus(c, v)), v >> 1)
  {
    if c & 1 == 0 {
      if v & 1 == 0 {
        assert (c ^ v) & 1 == 0 && ((c ^ v) >> 1) ^ (v >> 1) == c >> 1;
      } else {
        assert (c ^ v) & 1 == 1 && (((c ^ v) >> 1) ^ POLY) ^ (v >> 1) == (c >> 1) ^ POLY;
      }
    } else {
      if v & 1 == 0 {
        assert (c ^ v) & 1 == 1 && (((c ^ v) >> 1) ^ POLY) ^ (v >> 1) == (c >> 1) ^ POLY;
      } else {
        assert (c ^ v) & 1 == 0 && ((c ^ v) >> 1) ^ (v >> 1) == c >> 1;
      }
    }
  }

  lemma {:induction false} ShiftsAhead(c: reg, v: byte, n: nat)
    requires n <= 8
    ensures Register(c, Bits(v)[..n]) == Plus(Steps(Plus(c, v as reg), n), Rest(v, n))
  {
    hide Step, Shift, Bits, Plus, Register, Steps;
    if n == 0 {
      RegisterNext(c, Bits(v), 0);
      StepsNext(Plus(c, v as reg), 0);
      PlusBack(c, v as reg);
    } else {
      ShiftsAhead(c, v, n - 1);
      var s := Steps(Plus(c, v as reg), n - 1);
      RegisterNext(c, Bits(v), n - 1);
      RestBit(v, n - 1);
      ShiftAhead(Plus(s, Rest(v, n - 1)), Rest(v, n - 1));
      PlusBack(s, Rest(v, n - 1));
      StepsNext(Plus(c, v as reg), n - 1);
    }
  }

  lemma PlusBack(a: reg, b: reg)
    ensures Plus(Plus(a, b), b) == a
  {
  }

  function Rest(v: byte, n: nat): reg {
    if n == 0 then v as reg else Rest(v, n - 1) >> 1
  }

  lemma RestBit(v: byte, n: nat)
    requires n < 8
    ensures Rest(v, n) & 1 == 1 <==> Bits(v)[n]
  {
    var w := v as reg;
    assert Rest(v, 1) == w >> 1 && Rest(v, 2) == w >> 2 && Rest(v, 3) == w >> 3;
    assert Rest(v, 4) == w >> 4 && Rest(v, 5) == w >> 5 && Rest(v, 6) == w >> 6 && Rest(v, 7) == w >> 7;
  }

  lemma RestEmpty(v: byte)
    ensures Rest(v, 8) == 0
  {
    var w := v as reg;
    assert Rest(v, 1) == w >> 1 && Rest(v, 2) == w >> 2 && Rest(v, 3) == w >> 3;
    assert Rest(v, 4) == w >> 4 && Rest(v, 5) == w >> 5 && Rest(v, 6) == w >> 6 && Rest(v, 7) == w >> 7;
  }

  lemma RegisterEight(c: reg, v: byte)
    ensures Register(c, Bits(v)) == Feed(c, v)
  {
    hide Register, Steps, Plus;
    assert Bits(v)[..8] == Bits(v);
    ShiftsAhead(c, v, 8);
    RestEmpty(v);
    PlusZero(Steps(Plus(c, v as reg), 8));
  }

  lemma RegisterNext(c: reg, bits: seq<bool>, k: nat)
    requires k < |bits|
    ensures Register(c, bits[..k + 1]) == Shift(Register(c, bits[..k]), bits[k])
    ensures Register(c, bits[..0]) == c
  {
    assert bits[..k + 1][..k] == bits[..k];
  }

  /** The register fed by bytes is the shift register fed by the message's bits. */
  lemma {:induction false} RawIsRegister(c: reg, p: seq<byte>)
    ensures Raw(c, p) == Register(c, Message(p))
  {
    hide Feed, Bits, Shift;
    if p != [] {
      RawIsRegister(c, p[..|p| - 1]);
      RegisterConcat(c, Message(p[..|p| - 1]), Bits(p[|p| - 1]));
      RegisterEight(Raw(c, p[..|p| - 1]), p[|p| - 1]);
    }
  }

  // ----- the laws of the register over bytes

  /** Over a concatenation the register goes on, over the second part, from its value after the first. */
  lemma {:induction false} RawConcat(c: reg, a: seq<byte>, b: seq<byte>)
    ensures Raw(c, a + b) == Raw(Raw(c, a), b)
  {
    hide Feed;
    if b == [] {
      assert a + b == a;
    } else {
      assert (a + b)[..|a + b| - 1] == a + b[..|b| - 1];
      RawConcat(c, a, b[..|b| - 1]);
    }
  }

  lemma FeedLinear(a: reg, b: reg, v: byte)
    ensures Feed(Plus(a, b), v) == Plus(Feed(a, 0), Feed(b, v))
  {
    hide Steps, Plus;
    PlusZero(a);
    PlusAssoc(a, b, v as reg);
    StepsLinear(a, Plus(b, v as reg), 8);
  }

  /** The register is linear: one initial value through zeros, the other through the data. */
  lemma {:induction false} RawLinear(a: reg, b: reg, p: seq<byte>)
    ensures Raw(Plus(a, b), p) == Plus(Raw(a, Zeros(|p|)), Raw(b, p))
  {
    hide Feed, Plus;
    if p != [] {
      var q := p[..|p| - 1];
      RawLinear(a, b, q);
      FeedLinear(Raw(a, Zeros(|q|)), Raw(b, q), p[|p| - 1]);
      assert Zeros(|p|)[..|q|] == Zeros(|q|);
    }
  }

  /** So a block's contribution can be added to what the initial value becomes over as many zeros. */
  lemma RawSplits(c: reg, p: seq<byte>)
    ensures Raw(c, p) == Plus(Raw(c, Zeros(|p|)), Raw(0, p))
  {
    hide Raw, Plus;
    PlusZero(c);
    RawLinear(c, 0, p);
  }

  /** Zero bytes are eight bare steps each. */
  lemma {:induction false} ZerosAreSteps(c: reg, n: nat)
    ensures Raw(c, Zeros(n)) == Steps(c, 8 * n)
  {
    hide Steps;
    if n == 0 {
      StepsNext(c, 0);
    } else {
      ZerosAreSteps(c, n - 1);
      assert Zeros(n)[..n - 1] == Zeros(n - 1);
      FeedZero(Raw(c, Zeros(n - 1)));
      StepsAdd(c, 8 * (n - 1), 8);
    }
  }

  lemma FeedZero(c: reg)
    ensures Feed(c, 0) == Steps(c, 8)
  {
    hide Steps;
    PlusZero(c);
  }

  // ----- words

  /** The four bytes of a word, lowest first. */
  function WordBytes(w: reg): (p: seq<byte>)
    ensures |p| == 4
  {
    [LowByte(w), LowByte(Drop(w)), LowByte(Drop(Drop(w))), LowByte(Drop(Drop(Drop(w))))]
  }

  // Eight steps, with the bytes still to come in the register already or not.
  lemma FeedAhead(c: reg, w: reg)
    ensures Steps(Plus(c, w), 8) == Plus(Feed(c, LowByte(w)), Drop(w))
  {
    hide Steps, Plus, LowByte, High, Drop;
    var low := LowByte(w) as reg;
    LowAndRest(w);
    HighSteps(w);
    PlusAssoc(c, low, High(w));
    StepsLinear(Plus(c, low), High(w), 8);
  }

  lemma LowAndRest(w: reg)
    ensures w == Plus(LowByte(w) as reg, High(w))
  {
    assert LowByte(w) as reg == w & 0xFF;
  }

  /** Four bytes are a word and thirty-two steps. */
  lemma RawOfWord(r: reg, w: reg)
    ensures Raw(r, WordBytes(w)) == Steps(Plus(r, w), 32)
  {
    hide Steps, Plus, Feed, Raw, LowByte, Drop;
    var r1 := Feed(r, LowByte(w));
    var r2 := Feed(r1, LowByte(Drop(w)));
    var r3 := Feed(r2, LowByte(Drop(Drop(w))));
    var r4 := Feed(r3, LowByte(Drop(Drop(Drop(w)))));
    FeedAhead(r, w);
    FeedAhead(r1, Drop(w));
    FeedAhead(r2, Drop(Drop(w)));
    FeedAhead(r3, Drop(Drop(Drop(w))));
    DropAll(w);
    PlusZero(r4);
    var s := Plus(r, w);
    StepsAdd(s, 8, 8); StepsAdd(s, 16, 8); StepsAdd(s, 24, 8);
    RawFour(r, WordBytes(w));
  }

  lemma DropAll(w: reg)
    ensures Drop(Drop(Drop(Drop(w)))) == 0
    ensures Drop(Drop(w)) == w >> 16 && Drop(Drop(Drop(w))) == w >> 24
  {
    assert Drop(Drop(w)) == w >> 16;
    assert (w >> 16) >> 8 == w >> 24;
    assert (w >> 24) >> 8 == 0;
  }

  lemma RawFour(r: reg, p: seq<byte>)
    requires |p| == 4
    ensures Raw(r, p) == Feed(Feed(Feed(Feed(r, p[0]), p[1]), p[2]), p[3])
  {
    hide Feed, Raw;
    RawNext(r, p, 3); RawNext(r, p, 2); RawNext(r, p, 1); RawNext(r, p, 0);
    assert p[..4] == p;
  }

  lemma RawNext(r: reg, p: seq<byte>, k: nat)
    requires k < |p|
    ensures Raw(r, p[..k + 1]) == Feed(Raw(r, p[..k]), p[k])
    ensures Raw(r, p[..0]) == r
  {
    assert p[..k + 1][..k] == p[..k];
  }
}
