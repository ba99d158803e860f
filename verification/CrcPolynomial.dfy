/** CRC-32 as division: the register's value is the remainder of the message as a polynomial over
    GF(2), times x^32, by the generator polynomial written out by its exponents. */
module CrcPolynomial {
  import opened Bytes
  import opened Crc32

  // ----- polynomials, as their coefficients from the highest degree down

  const EXPONENTS: set<nat> := {32, 26, 23, 22, 16, 12, 11, 10, 8, 7, 5, 4, 2, 1, 0}

  /** x^32 + x^26 + x^23 + x^22 + x^16 + x^12 + x^11 + x^10 + x^8 + x^7 + x^5 + x^4 + x^2 + x + 1 */
  function Generator(): (g: seq<bool>)
    ensures |g| == 33 && forall i :: 0 <= i < 33 ==> g[i] == (32 - i in EXPONENTS)
  {
    seq(33, i requires 0 <= i < 33 => 32 - i in EXPONENTS)
  }

  // Subtracts the generator from the 33 leading coefficients.
  function Reduced(p: seq<bool>): (r: seq<bool>)
    requires 33 <= |p|
    ensures |r| == |p|
    ensures forall i :: 0 <= i < |p| ==> r[i] == if i < 33 then p[i] != Generator()[i] else p[i]
  {
    seq(|p|, i requires 0 <= i < |p| => if i < 33 then p[i] != Generator()[i] else p[i])
  }

  /** Long division: what is left below degree 32. */
  function Remainder(p: seq<bool>): (r: seq<bool>)
    requires 32 <= |p|
    ensures |r| == 32
    decreases |p|
  {
    if |p| == 32 then p else Remainder(if p[0] then Reduced(p)[1..] else p[1..])
  }

  function Sum(a: seq<bool>, b: seq<bool>): (s: seq<bool>)
    requires |a| == |b|
    ensures |s| == |a| && forall i :: 0 <= i < |a| ==> s[i] == (a[i] != b[i])
  {
    seq(|a|, i requires 0 <= i < |a| => a[i] != b[i])
  }

  // Times x^n.
  function Raised(p: seq<bool>, n: nat): (r: seq<bool>)
    ensures |r| == |p| + n
  {
    p + seq(n, _ => false)
  }

  // ----- the register's coefficients

  /** The coefficient of x^(31 - i): the register has the highest degree in its lowest bit. */
  predicate Bit(c: reg, i: nat)
    requires i < 32
  {
    if i == 0 then IsOdd(c) else Bit(Halved(c), i - 1)
  }

  function Coefficients(c: reg): (p: seq<bool>)
    ensures |p| == 32 && forall i :: 0 <= i < 32 ==> p[i] == Bit(c, i)
  {
    seq(32, i requires 0 <= i < 32 => Bit(c, i))
  }

  /** What is divided: the register's start value before the message, and the message raised. */
  function Dividend(c: reg, bits: seq<bool>): (p: seq<bool>)
    ensures |p| == |bits| + 32
  {
    Sum(Raised(Coefficients(c), |bits|), Raised(bits, 32))
  }

  lemma {:induction false} BitOfSum(a: reg, b: reg, i: nat)
    requires i < 32
    ensures Bit(Plus(a, b), i) == (Bit(a, i) != Bit(b, i))
    decreases i
  {
    hide Plus, IsOdd, Halved;
    if i == 0 {
      OddSum(a, b);
    } else {
      HalvedSum(a, b);
      BitOfSum(Halved(a), Halved(b), i - 1);
    }
  }

  lemma {:induction false} NoBits(i: nat)
    requires i < 32
    ensures !Bit(0, i)
  {
    if i > 0 {
      assert Halved(0) == 0;
      NoBits(i - 1);
    }
  }

  // Four bits at a time.
  lemma BitFour(c: reg, i: nat)
    requires i < 32
    ensures i == 0 ==> Bit(c, i) == (c & 1 == 1)
    ensures i == 1 ==> Bit(c, i) == ((c >> 1) & 1 == 1)
    ensures i == 2 ==> Bit(c, i) == ((c >> 2) & 1 == 1)
    ensures i == 3 ==> Bit(c, i) == ((c >> 3) & 1 == 1)
    ensures 4 <= i ==> Bit(c, i) == Bit(Fourth(c), i - 4)
  {
    HalvedTwice(c);
    hide Halved, IsOdd, Fourth;
    if 0 < i {
      assert Bit(c, i) == Bit(Halved(c), i - 1);
    }
    if 1 < i {
      assert Bit(Halved(c), i - 1) == Bit(Halved(Halved(c)), i - 2);
    }
    if 2 < i {
      assert Bit(Halved(Halved(c)), i - 2) == Bit(Halved(Halved(Halved(c))), i - 3);
    }
    if 3 < i {
      assert Bit(Halved(Halved(Halved(c))), i - 3) == Bit(Halved(Halved(Halved(Halved(c)))), i - 4);
    }
  }

  function Fourth(c: reg): reg {
    c >> 4
  }

  lemma HalvedTwice(c: reg)
    ensures Halved(Halved(c)) == c >> 2 && Halved(Halved(Halved(c))) == c >> 3
    ensures Halved(Halved(Halved(Halved(c)))) == Fourth(c)
    ensures IsOdd(c) == (c & 1 == 1) && IsOdd(Halved(c)) == ((c >> 1) & 1 == 1)
    ensures IsOdd(Halved(Halved(c))) == ((c >> 2) & 1 == 1)
    ensures IsOdd(Halved(Halved(Halved(c)))) == ((c >> 3) & 1 == 1)
  {
  }

  /** Nothing comes in at the top when the register is halved. */
  lemma TopClear(c: reg)
    ensures !Bit(Halved(c), 31)
  {
    var h := Halved(c);
    BitFour(h, 31);
    BitFour(Fourth(h), 27);
    BitFour(Fourth(Fourth(h)), 23);
    BitFour(Fourth(Fourth(Fourth(h))), 19);
    var g := Fourth(Fourth(Fourth(Fourth(h))));
    BitFour(g, 15);
    BitFour(Fourth(g), 11);
    BitFour(Fourth(Fourth(g)), 7);
    BitFour(Fourth(Fourth(Fourth(g))), 3);
    assert Fourth(Fourth(Fourth(g))) == c >> 29;
    assert ((c >> 29) >> 3) & 1 == 0;
  }

  /** The generator is the polynomial the register reduces by: bit i is the coefficient of
      x^(31 - i). */
  lemma PolyBits(i: nat)
    requires i < 32
    ensures Bit(POLY, i) == Generator()[i + 1]
  {
    PolyFrom(POLY, 0, i);
  }

  lemma {:induction false} PolyFrom(c: reg, k: nat, i: nat)
    requires i < 32 && k < 8 && 4 * k <= i
    requires c == [0xEDB8_8320, 0x0EDB_8832, 0x00ED_B883, 0x000E_DB88, 0xEDB8, 0xEDB, 0xED, 0xE][k]
    ensures Bit(c, i - 4 * k) == (31 - i in EXPONENTS)
    decreases 8 - k
  {
    BitFour(c, i - 4 * k);
    if i - 4 * k >= 4 {
      PolyNext(c, k);
      PolyFrom(Fourth(c), k + 1, i);
    } else {
      PolyNibble(c, k, i - 4 * k);
    }
  }

  lemma PolyNext(c: reg, k: nat)
    requires k < 7
    requires c == [0xEDB8_8320, 0x0EDB_8832, 0x00ED_B883, 0x000E_DB88, 0xEDB8, 0xEDB, 0xED, 0xE][k]
    ensures Fourth(c) == [0xEDB8_8320, 0x0EDB_8832, 0x00ED_B883, 0x000E_DB88, 0xEDB8, 0xEDB, 0xED, 0xE][k + 1]
  {
  }

  lemma PolyNibble(c: reg, k: nat, j: nat)
    requires k < 8 && j < 4
    requires c == [0xEDB8_8320, 0x0EDB_8832, 0x00ED_B883, 0x000E_DB88, 0xEDB8, 0xEDB, 0xED, 0xE][k]
    ensures j == 0 ==> (c & 1 == 1) == (31 - 4 * k in EXPONENTS)
    ensures j == 1 ==> ((c >> 1) & 1 == 1) == (30 - 4 * k in EXPONENTS)
    ensures j == 2 ==> ((c >> 2) & 1 == 1) == (29 - 4 * k in EXPONENTS)
    ensures j == 3 ==> ((c >> 3) & 1 == 1) == (28 - 4 * k in EXPONENTS)
  {
  }

  lemma ShiftBits(c: reg, bit: bool, i: nat)
    requires i < 32
    ensures Bit(Shift(c, bit), i) == ((i < 31 && Bit(c, i + 1)) != (Bit(c, 0) != bit && Generator()[i + 1]))
  {
    ShiftIs(c, bit);
    hide Shift, Plus, Halved, IsOdd, Generator;
    if i == 31 {
      TopClear(c);
    } else {
      assert Bit(c, i + 1) == Bit(Halved(c), i);
    }
    BitOfSum(Halved(c), POLY, i);
    PolyBits(i);
  }

  lemma ShiftIs(c: reg, bit: bool)
    ensures Shift(c, bit) == if IsOdd(c) != bit then Plus(Halved(c), POLY) else Halved(c)
  {
  }

  /** One message bit is one step of the division. */
  lemma DividendNext(c: reg, bit: bool, bits: seq<bool>)
    ensures var p := Dividend(c, [bit] + bits);
      (if p[0] then Reduced(p)[1..] else p[1..]) == Dividend(Shift(c, bit), bits)
  {
    hide Shift, Bit, Generator;
    var p, q := Dividend(c, [bit] + bits), Dividend(Shift(c, bit), bits);
    var next := if p[0] then Reduced(p)[1..] else p[1..];
    forall i | 0 <= i < |q|
      ensures next[i] == q[i]
    {
      if i < 32 {
        ShiftBits(c, bit, i);
      }
    }
  }

  /** The register is the remainder, whatever it starts from and whatever the message. */
  lemma {:induction false} RegisterIsRemainder(c: reg, bits: seq<bool>)
    ensures Coefficients(Register(c, bits)) == Remainder(Dividend(c, bits))
    decreases |bits|
  {
    hide Dividend, Reduced, Coefficients, Shift;
    if bits == [] {
      NothingDivided(c);
    } else {
      var rest := bits[1..];
      assert bits == [bits[0]] + rest;
      RegisterConcat(c, [bits[0]], rest);
      RegisterOne(c, bits[0]);
      DividendNext(c, bits[0], rest);
      RegisterIsRemainder(Shift(c, bits[0]), rest);
    }
  }

  lemma RegisterOne(c: reg, bit: bool)
    ensures Register(c, [bit]) == Shift(c, bit)
  {
    RegisterNext(c, [bit], 0);
    assert [bit][..1] == [bit];
  }

  lemma NothingDivided(c: reg)
    ensures Register(c, []) == c && Dividend(c, []) == Coefficients(c)
  {
    hide Bit;
  }

  /** So for bytes, each taken lowest bit first. */
  lemma RawIsRemainder(c: reg, p: seq<byte>)
    ensures Coefficients(Raw(c, p)) == Remainder(Dividend(c, Message(p)))
  {
    hide *;
    RawIsRegister(c, p);
    RegisterIsRemainder(c, Message(p));
  }

  // ----- the check value

  lemma FedIs(c: reg, v: byte, sum: reg, next: reg)
    requires Plus(c, v as reg) == sum
    requires next == Step(Step(Step(Step(Step(Step(Step(Step(sum))))))))
    ensures Feed(c, v) == next
  {
    hide Step, Steps, Plus;
    EightSteps(sum);
  }

  /** The checksum of the nine digits from 1 to 9, which identifies a CRC. */
  lemma CheckValue()
    ensures Update(0, [49, 50, 51, 52, 53, 54, 55, 56, 57]) == 0xCBF4_3926
  {
    var p: seq<byte> := [49, 50, 51, 52, 53, 54, 55, 56, 57];
    hide Feed, Raw;
    RawNext(0xFFFF_FFFF, p, 0);
    FedIs(0xFFFF_FFFF, 49, 0xFFFF_FFCE, 0x7C23_1048);
    RawNext(0xFFFF_FFFF, p, 1);
    FedIs(0x7C23_1048, 50, 0x7C23_107A, 0xB0AC_BB32);
    RawNext(0xFFFF_FFFF, p, 2);
    FedIs(0xB0AC_BB32, 51, 0xB0AC_BB01, 0x77B7_9C2D);
    RawNext(0xFFFF_FFFF, p, 3);
    FedIs(0x77B7_9C2D, 52, 0x77B7_9C19, 0x641C_1F5C);
    RawNext(0xFFFF_FFFF, p, 4);
    FedIs(0x641C_1F5C, 53, 0x641C_1F69, 0x340A_C5E3);
    RawNext(0xFFFF_FFFF, p, 5);
    FedIs(0x340A_C5E3, 54, 0x340A_C5D5, 0xF68D_2C9E);
    RawNext(0xFFFF_FFFF, p, 6);
    FedIs(0xF68D_2C9E, 55, 0xF68D_2CA9, 0xAFFC_9660);
    RawNext(0xFFFF_FFFF, p, 7);
    FedIs(0xAFFC_9660, 56, 0xAFFC_9658, 0x651F_2550);
    RawNext(0xFFFF_FFFF, p, 8);
    FedIs(0x651F_2550, 57, 0x651F_2569, 0x340B_C6D9);
    assert p[..9] == p;
  }
}
