/** Combining registers: the carry-less product (crc32_clmul_generic.go) and multiplication modulo
    the CRC polynomial (crc32_combine.go). */
module CrcCombine {
  import opened Bytes
  import opened Crc32
  import opened Words

  type wide = bv64

  // A loop counter that can be shifted by.
  type count = bv8

  // ----- the carry-less product

  /** Addition over GF(2). */
  function Sum(a: wide, b: wide): wide {
    a ^ b
  }

  function Double(a: wide): wide {
    a << 1
  }

  function Widen(b: bv32): wide {
    b as wide
  }

  // x where the term is there.
  function Term(x: wide, there: bool): wide {
    if there then x else 0
  }

  /** The product of two polynomials over GF(2), modulo x^64. */
  function Product(x: wide, y: wide): wide
    decreases y
  {
    if y == 0 then 0 else Sum(Term(x, Odd(y)), Product(Double(x), Half(y)))
  }

  // x times x^i, and b without its lowest i bits.
  function Up(x: wide, i: count): wide
    requires i <= 32
  {
    x << i
  }

  function Down(b: bv32, i: count): bv32
    requires i <= 32
  {
    b >> i
  }

  function Mask(i: count): bv32
    requires i <= 32
  {
    1 << i
  }

  predicate Meet(a: bv32, b: bv32) {
    a & b != 0
  }

  lemma MaskNext(i: count)
    requires i < 31
    ensures Mask(i + 1) == Mask(i) << 1 && Mask(i) & 0x8000_0000 == 0
  {
    var m := (1 as bv32) << i;
    assert (1 as bv32) << (i + 1) == m << 1 && m & 0x8000_0000 == 0;
  }

  lemma DownNext(b: bv32, i: count)
    requires i < 32
    ensures Down(Halved(b), i) == Down(b, i + 1) && Halved(Down(b, i)) == Down(b, i + 1)
  {
    ShiftDownNext(b, i);
  }

  lemma ShiftDownNext(b: bv32, i: count)
    requires i < 32
    ensures (b >> 1) >> i == b >> (i + 1) && (b >> i) >> 1 == b >> (i + 1)
  {
  }

  lemma UpNext(x: wide, i: count)
    requires i < 32
    ensures Double(Up(x, i)) == Up(x, i + 1)
  {
    ShiftNext(x, i);
  }

  lemma ShiftNext(x: wide, i: count)
    requires i < 32
    ensures (x << i) << 1 == x << (i + 1)
  {
  }

  lemma MaskHalf(b: bv32, m: bv32)
    requires m & 0x8000_0000 == 0
    ensures Meet(b, m << 1) <==> Meet(Halved(b), m)
  {
  }

  // The test for bit i.
  lemma {:induction false} BitAt(b: bv32, i: count)
    requires i < 32
    ensures Meet(b, Mask(i)) <==> IsOdd(Down(b, i))
    decreases i
  {
    if i == 0 {
      BitZero(b);
    } else {
      BitAt(Halved(b), i - 1);
      BitNext(b, i - 1);
    }
  }

  lemma BitNext(b: bv32, i: count)
    requires i < 31 && (Meet(Halved(b), Mask(i)) <==> IsOdd(Down(Halved(b), i)))
    ensures Meet(b, Mask(i + 1)) <==> IsOdd(Down(b, i + 1))
  {
    hide *;
    MaskNext(i);
    MaskHalf(b, Mask(i));
    DownNext(b, i);
  }

  lemma BitZero(b: bv32)
    ensures Meet(b, Mask(0)) <==> IsOdd(Down(b, 0))
  {
    assert b & 1 == 0 || b & 1 == 1;
  }

  lemma WideBits(b: bv32)
    ensures Odd(Widen(b)) <==> IsOdd(b)
    ensures Half(Widen(b)) == Widen(Halved(b))
  {
  }

  lemma WideHalf(d: bv32, e: bv32)
    requires Halved(d) == e
    ensures Half(Widen(d)) == Widen(e)
  {
    hide *;
    WideBits(d);
  }

  // Bit i is the odd bit of what is left of b.
  lemma DownOdd(b: bv32, i: count)
    requires i < 32
    ensures Odd(Widen(Down(b, i))) <==> Meet(b, Mask(i))
  {
    hide *;
    BitAt(b, i);
    WideBits(Down(b, i));
  }

  lemma DownAfter(b: bv32, i: count)
    requires i < 32
    ensures Halved(Down(b, i)) == Down(b, i + 1)
  {
    DownNext(b, i);
  }

  lemma DownHalf(b: bv32, i: count)
    requires i < 32
    ensures Half(Widen(Down(b, i))) == Widen(Down(b, i + 1))
  {
    hide *;
    DownAfter(b, i);
    WideHalf(Down(b, i), Down(b, i + 1));
  }

  lemma SumAssoc(a: wide, b: wide, c: wide)
    ensures Sum(Sum(a, b), c) == Sum(a, Sum(b, c))
  {
    assert (a ^ b) ^ c == a ^ (b ^ c);
  }

  lemma SumZero(a: wide)
    ensures Sum(a, 0) == a && Sum(0, a) == a && Sum(a, a) == 0
  {
  }

  lemma SumSwap(a: wide, b: wide)
    ensures Sum(a, b) == Sum(b, a)
  {
  }

  lemma ProductNext(x: wide, y: wide)
    ensures Product(x, y) == Sum(Term(x, Odd(y)), Product(Double(x), Half(y)))
  {
    if y == 0 {
      assert Half(0) == 0;
    }
  }

  // Bits i and up of b are still to be multiplied.
  lemma LoopStep(res: wide, x: wide, b: bv32, i: count)
    requires i < 32
    ensures var more := if Meet(b, Mask(i)) then Sum(res, Up(x, i)) else res;
      Sum(more, Product(Up(x, i + 1), Widen(Down(b, i + 1)))) == Sum(res, Product(Up(x, i), Widen(Down(b, i))))
  {
    hide Widen, Product, Sum, Odd, Half, Double, Up, Down, Mask, Meet;
    DownOdd(b, i);
    DownHalf(b, i);
    UpNext(x, i);
    ProductNext(Up(x, i), Widen(Down(b, i)));
    SumAssoc(res, Term(Up(x, i), Odd(Widen(Down(b, i)))), Product(Up(x, i + 1), Widen(Down(b, i + 1))));
    SumZero(res);
  }

  lemma LoopEnds(x: wide, b: bv32)
    ensures Up(x, 0) == x && Down(b, 0) == b && Widen(Down(b, 32)) == 0
  {
  }

  /** clmul32 */
  method Clmul32(a: bv32, b: bv32) returns (res: wide)
    ensures res == Product(Widen(a), Widen(b))
  {
    hide Widen, Product, Sum, Up, Down, Mask, Meet;
    res := 0;
    var x := Widen(a);
    var i: count := 0;
    LoopEnds(x, b);
    SumZero(Product(x, Widen(b)));
    while i < 32
      invariant i <= 32
      invariant Sum(res, Product(Up(x, i), Widen(Down(b, i)))) == Product(x, Widen(b))
      decreases 32 - i
    {
      LoopStep(res, x, b, i);
      if Meet(b, Mask(i)) {
        res := Sum(res, Up(x, i));
      }
      i := i + 1;
    }
    ProductByZero(Up(x, 32));
    SumZero(res);
  }

  lemma ProductByZero(x: wide)
    ensures Product(x, 0) == 0
  {
  }

  // ----- laws of the product

  lemma DoubleSum(a: wide, b: wide)
    ensures Double(Sum(a, b)) == Sum(Double(a), Double(b)) && Double(0) == 0
  {
  }

  lemma TermDouble(x: wide, there: bool)
    ensures Term(Double(x), there) == Double(Term(x, there))
  {
    DoubleSum(0, 0);
  }

  lemma {:induction false} ProductDouble(x: wide, y: wide)
    ensures Product(Double(x), y) == Double(Product(x, y))
    decreases y
  {
    if y == 0 {
      DoubleSum(0, 0);
    } else {
      ProductDouble(Double(x), Half(y));
      hide *;
      ProductNext(x, y);
      ProductNext(Double(x), y);
      TermDouble(x, Odd(y));
      DoubleSum(Term(x, Odd(y)), Product(Double(x), Half(y)));
    }
  }

  // Horner's form of the product.
  lemma ProductHorner(x: wide, y: wide)
    ensures Product(x, y) == Sum(Term(x, Odd(y)), Double(Product(x, Half(y))))
  {
    hide *;
    ProductNext(x, y);
    ProductDouble(x, Half(y));
  }

  lemma SumExchange(a: wide, b: wide, c: wide, d: wide)
    ensures Sum(Sum(a, b), Sum(c, d)) == Sum(Sum(a, c), Sum(b, d))
  {
    hide Sum;
    SumAssoc(a, b, Sum(c, d));
    SumAssoc(b, c, d);
    SumSwap(b, c);
    SumAssoc(c, b, d);
    SumAssoc(a, c, Sum(b, d));
  }

  lemma TermSum(a: wide, b: wide, there: bool)
    ensures Term(Sum(a, b), there) == Sum(Term(a, there), Term(b, there))
  {
    SumZero(0);
  }

  /** The product is linear in its first argument. */
  lemma {:induction false} ProductLinear(a: wide, b: wide, y: wide)
    ensures Product(Sum(a, b), y) == Sum(Product(a, y), Product(b, y))
    decreases y
  {
    hide Product, Sum;
    if y == 0 {
      SumZero(0);
      ProductByZero(a); ProductByZero(b); ProductByZero(Sum(a, b));
    } else {
      ProductLinear(a, b, Half(y));
      ProductLinearNext(a, b, y);
    }
  }

  lemma ProductLinearNext(a: wide, b: wide, y: wide)
    requires Product(Sum(a, b), Half(y)) == Sum(Product(a, Half(y)), Product(b, Half(y)))
    ensures Product(Sum(a, b), y) == Sum(Product(a, y), Product(b, y))
  {
    hide *;
    var p, q := Product(a, Half(y)), Product(b, Half(y));
    ProductHorner(Sum(a, b), y);
    ProductHorner(a, y);
    ProductHorner(b, y);
    DoubleSum(p, q);
    TermSum(a, b, Odd(y));
    SumExchange(Term(a, Odd(y)), Term(b, Odd(y)), Double(p), Double(q));
  }

  lemma OddAndHalf(y: wide)
    ensures y == Sum(Term(1, Odd(y)), Double(Half(y)))
  {
    assert y & 1 == 0 || y & 1 == 1;
    assert y == (y & 1) ^ ((y >> 1) << 1);
  }

  lemma {:induction false} ProductOne(y: wide)
    ensures Product(1, y) == y
    decreases y
  {
    if y != 0 {
      ProductOne(Half(y));
      hide *;
      ProductHorner(1, y);
      OddAndHalf(y);
    }
  }

  lemma {:induction false} ZeroProduct(y: wide)
    ensures Product(0, y) == 0
    decreases y
  {
    if y != 0 {
      ZeroProduct(Half(y));
      hide *;
      ProductHorner(0, y);
      DoubleSum(0, 0);
      SumZero(0);
      TermOfZero(Odd(y));
    }
  }

  lemma TermOfZero(there: bool)
    ensures Term(0, there) == 0
  {
  }

  lemma TermProduct(there: bool, y: wide)
    ensures Product(Term(1, there), y) == Term(y, there)
  {
    hide Product;
    ProductOne(y);
    ZeroProduct(y);
  }

  // Both factors split into their odd bit and their half.
  lemma ProductSplit(a: wide, b: wide)
    ensures Product(a, b)
      == Sum(Sum(Term(a, Odd(b)), Double(Term(Half(b), Odd(a)))), Double(Double(Product(Half(a), Half(b)))))
  {
    hide *;
    ProductHorner(a, b);
    OddAndHalf(a);
    ProductLinear(Term(1, Odd(a)), Double(Half(a)), Half(b));
    TermProduct(Odd(a), Half(b));
    ProductDouble(Half(a), Half(b));
    DoubleSum(Term(Half(b), Odd(a)), Double(Product(Half(a), Half(b))));
    SumAssoc(Term(a, Odd(b)), Double(Term(Half(b), Odd(a))), Double(Double(Product(Half(a), Half(b)))));
  }

  lemma SplitSwaps(a: wide, b: wide)
    ensures Sum(Term(a, Odd(b)), Double(Term(Half(b), Odd(a)))) == Sum(Term(b, Odd(a)), Double(Term(Half(a), Odd(b))))
  {
    hide *;
    OddAndHalf(a);
    OddAndHalf(b);
    SplitSwapsAt(a, b, Odd(a), Odd(b), Double(Half(a)), Double(Half(b)));
    TermDouble(Half(a), Odd(b));
    TermDouble(Half(b), Odd(a));
  }

  lemma SplitSwapsAt(a: wide, b: wide, p: bool, q: bool, c: wide, d: wide)
    requires a == Sum(Term(1, p), c) && b == Sum(Term(1, q), d)
    ensures Sum(Term(a, q), Term(d, p)) == Sum(Term(b, p), Term(c, q))
  {
    hide Sum;
    SumZero(0);
    SumZero(a); SumZero(b); SumZero(c); SumZero(d);
    SumAssoc(1, c, d);
    SumAssoc(1, d, c);
    SumSwap(c, d);
  }

  /** The product is commutative. */
  lemma {:induction false} ProductSwap(a: wide, b: wide)
    ensures Product(a, b) == Product(b, a)
    decreases b
  {
    if b == 0 {
      ZeroProduct(a);
      ProductByZero(a);
    } else {
      ProductSwap(Half(a), Half(b));
      hide *;
      ProductSplit(a, b);
      ProductSplit(b, a);
      SplitSwaps(a, b);
    }
  }

  // ----- reduction

  function Low32(p: wide): reg {
    (p & 0xFFFF_FFFF) as reg
  }

  function High32(p: wide): reg {
    (p >> 32) as reg
  }

  // The lowest half of p is the coefficients of x^32 and up.
  function Reduce(p: wide): reg {
    Plus(Steps(Low32(p), 32), High32(p))
  }

  /** What crcMul computes. */
  function CrcProduct(a: reg, b: reg): reg {
    Reduce(Double(Product(Widen(a), Widen(b))))
  }

  lemma SumParts(p: wide, q: wide)
    ensures Low32(Sum(p, q)) == Plus(Low32(p), Low32(q))
    ensures High32(Sum(p, q)) == Plus(High32(p), High32(q))
  {
  }

  lemma ReduceSum(p: wide, q: wide)
    ensures Reduce(Sum(p, q)) == Plus(Reduce(p), Reduce(q))
  {
    hide Low32, High32, Steps, Plus, Sum;
    SumParts(p, q);
    StepsLinear(Low32(p), Low32(q), 32);
    PlusExchange(Steps(Low32(p), 32), Steps(Low32(q), 32), High32(p), High32(q));
  }

  lemma PlusExchange(a: reg, b: reg, c: reg, d: reg)
    ensures Plus(Plus(a, b), Plus(c, d)) == Plus(Plus(a, c), Plus(b, d))
  {
    hide Plus;
    PlusAssoc(a, b, Plus(c, d));
    PlusAssoc(b, c, d);
    PlusSwap(b, c);
    PlusAssoc(c, b, d);
    PlusAssoc(a, c, Plus(b, d));
  }

  lemma WidenPlus(a: reg, b: reg)
    ensures Widen(Plus(a, b)) == Sum(Widen(a), Widen(b))
  {
  }

  /** crcMul is linear. */
  lemma CrcProductLinear(a: reg, b: reg, c: reg)
    ensures CrcProduct(Plus(a, b), c) == Plus(CrcProduct(a, c), CrcProduct(b, c))
    ensures CrcProduct(c, Plus(a, b)) == Plus(CrcProduct(c, a), CrcProduct(c, b))
  {
    hide Widen, Plus, Reduce, Product, Sum, Double;
    WidenPlus(a, b);
    ProductLinear(Widen(a), Widen(b), Widen(c));
    DoubleSum(Product(Widen(a), Widen(c)), Product(Widen(b), Widen(c)));
    ReduceSum(Double(Product(Widen(a), Widen(c))), Double(Product(Widen(b), Widen(c))));
    CrcProductSwap(a, c);
    CrcProductSwap(b, c);
    CrcProductSwap(Plus(a, b), c);
  }

  /** crcMul is commutative. */
  lemma CrcProductSwap(a: reg, b: reg)
    ensures CrcProduct(a, b) == CrcProduct(b, a)
  {
    hide Product, Reduce;
    ProductSwap(Widen(a), Widen(b));
  }

  // ----- one step is one multiplication by x

  lemma {:induction false} StepsOfStep(c: reg, n: nat)
    ensures Steps(Step(c), n) == Step(Steps(c, n))
  {
    hide Step;
    if n > 0 {
      StepsOfStep(c, n - 1);
    }
  }

  lemma HighBitSteps()
    ensures Steps(ONE, 32) == POLY
  {
    hide Steps;
    HighStepsShift(ONE);
    HighStepsShift(ONE >> 8);
    HighStepsShift(ONE >> 16);
    EightSteps(ONE >> 24);
    StepsAdd(ONE, 8, 8);
    StepsAdd(ONE, 16, 8);
    StepsAdd(ONE, 24, 8);
  }

  // The bit that crosses from the high word to the low one.
  function Carry(h: reg): reg {
    if IsOdd(h) then ONE else 0
  }

  lemma ShiftKeeps(p: wide)
    requires p & 1 == 0 && (p >> 32) & 1 == 0
    ensures ((p >> 1) & 0xFFFF_FFFF) as reg == ((p & 0xFFFF_FFFF) as reg) >> 1
  {
  }

  lemma ShiftCarries(p: wide)
    requires p & 1 == 0 && (p >> 32) & 1 == 1
    ensures ((p >> 1) & 0xFFFF_FFFF) as reg == (((p & 0xFFFF_FFFF) as reg) >> 1) ^ ONE
  {
  }

  lemma ShiftHigh(p: wide)
    ensures ((p >> 1) >> 32) as reg == ((p >> 32) as reg) >> 1
    ensures ((p >> 32) as reg) & 1 == 1 <==> (p >> 32) & 1 == 1
    ensures (p >> 32) & 1 == 0 || (p >> 32) & 1 == 1
  {
  }

  lemma PlusOne(a: reg)
    ensures Plus(a, ONE) == a ^ ONE
  {
  }

  lemma EvenParts(p: wide)
    requires !Odd(p)
    ensures p & 1 == 0 && Step(Low32(p)) == ((p & 0xFFFF_FFFF) as reg) >> 1
  {
    assert p & 1 == 0 || p & 1 == 1;
    var low := (p & 0xFFFF_FFFF) as reg;
    assert p & 1 == 0 ==> low & 1 == 0;
  }

  lemma HalfParts(p: wide)
    requires !Odd(p)
    ensures Low32(Half(p)) == Plus(Step(Low32(p)), Carry(High32(p)))
    ensures High32(Half(p)) == Halved(High32(p))
  {
    hide Step, Plus, Odd;
    ShiftHigh(p);
    EvenParts(p);
    if (p >> 32) & 1 == 1 {
      ShiftCarries(p);
      PlusOne(((p & 0xFFFF_FFFF) as reg) >> 1);
    } else {
      ShiftKeeps(p);
      PlusZero(((p & 0xFFFF_FFFF) as reg) >> 1);
    }
  }

  lemma StepOdd(c: reg)
    ensures Step(c) == Plus(Halved(c), if IsOdd(c) then POLY else 0)
  {
    hide *;
    StepIs(c);
    PlusZero(Halved(c));
  }

  lemma ReduceHalf(p: wide)
    requires !Odd(p)
    ensures Reduce(Half(p)) == Step(Reduce(p))
  {
    hide Low32, High32, Steps, Step, Plus, Half, Halved, Odd, IsOdd;
    var low, high := Low32(p), High32(p);
    HalfParts(p);
    StepsLinear(Step(low), Carry(high), 32);
    StepsOfStep(low, 32);
    HighBitSteps();
    StepsZero(32);
    StepOdd(high);
    StepLinear(Steps(low, 32), high);
    PlusAssoc(Step(Steps(low, 32)), Steps(Carry(high), 32), Halved(high));
    PlusSwap(Steps(Carry(high), 32), Halved(high));
  }

  // ----- the product's degree

  // n ones at the low end.
  function Ones(n: nat): wide {
    if n == 0 then 0 else Sum(Double(Ones(n - 1)), 1)
  }

  // The bits the product of a 32-bit word and a word of n bits can have.
  function Cap(n: nat): wide {
    if n == 0 then 0x7FFF_FFFF else Sum(Double(Cap(n - 1)), 1)
  }

  lemma BoundStep(x: wide, q: wide, cap: wide, there: bool)
    requires Within(x, 0xFFFF_FFFF) && Within(q, cap) && Within(0x7FFF_FFFF, cap)
    ensures Within(Sum(Term(x, there), Double(q)), Sum(Double(cap), 1)) && Within(0x7FFF_FFFF, Sum(Double(cap), 1))
  {
  }

  lemma HalfWithin(y: wide, ones: wide)
    requires Within(y, Sum(Double(ones), 1))
    ensures Within(Half(y), ones)
  {
  }

  lemma {:induction false} Bounded(x: wide, y: wide, n: nat)
    requires Within(x, 0xFFFF_FFFF) && Within(y, Ones(n))
    ensures Within(Product(x, y), Cap(n)) && Within(0x7FFF_FFFF, Cap(n))
    decreases n
  {
    hide Product, Within, Half, Sum, Double;
    if n == 0 {
      BoundedZero(x, y);
    } else {
      HalfWithin(y, Ones(n - 1));
      Bounded(x, Half(y), n - 1);
      ProductHorner(x, y);
      BoundStep(x, Product(x, Half(y)), Cap(n - 1), Odd(y));
    }
  }

  lemma BoundedZero(x: wide, y: wide)
    requires Within(y, 0)
    ensures Within(Product(x, y), 0x7FFF_FFFF) && Within(0x7FFF_FFFF, 0x7FFF_FFFF)
  {
    ProductByZero(x);
  }

  lemma OnesFour(n: nat)
    ensures Ones(n + 4) == Four(Ones(n)) && Cap(n + 4) == Four(Cap(n))
  {
    hide Sum, Double, Four;
    assert Ones(n + 2) == Sum(Double(Sum(Double(Ones(n)), 1)), 1);
    assert Cap(n + 2) == Sum(Double(Sum(Double(Cap(n)), 1)), 1);
    FourIs(Ones(n));
    FourIs(Cap(n));
  }

  function Four(o: wide): wide {
    (o << 4) | 15
  }

  lemma FourIs(o: wide)
    ensures Sum(Double(Sum(Double(Sum(Double(Sum(Double(o), 1)), 1)), 1)), 1) == Four(o)
  {
  }

  lemma OnesAndCap()
    ensures Ones(31) == 0x7FFF_FFFF && Cap(31) == 0x3FFF_FFFF_FFFF_FFFF
  {
    assert Ones(2) == 3 && Ones(3) == 7 && Cap(2) == 0x1_FFFF_FFFF && Cap(3) == 0x3_FFFF_FFFF;
    hide Ones, Cap;
    OnesFour(3); OnesFour(7); OnesFour(11); OnesFour(15); OnesFour(19); OnesFour(23); OnesFour(27);
  }

  lemma WidenWithin(b: reg)
    ensures Within(Widen(b), 0xFFFF_FFFF) && Within(Half(Widen(b)), 0x7FFF_FFFF)
  {
  }

  lemma DoubleTwice(q: wide)
    requires Within(q, 0x3FFF_FFFF_FFFF_FFFF)
    ensures Half(Double(Double(q))) == Double(q) && !Odd(Double(Double(q)))
  {
  }

  // ----- multiplication modulo the polynomial

  /** An even factor, halved: times x. */
  lemma CrcProductHalf(a: reg, b: reg)
    requires !IsOdd(b)
    ensures CrcProduct(a, Halved(b)) == Step(CrcProduct(a, b))
  {
    hide *;
    var q := Product(Widen(a), Half(Widen(b)));
    WidenBits(b);
    EvenProduct(Widen(a), Widen(b));
    WidenWithin(a);
    WidenWithin(b);
    OnesAndCap();
    Bounded(Widen(a), Half(Widen(b)), 31);
    DoubleTwice(q);
    ReduceHalf(Double(Double(q)));
    CrcProductIs(a, b);
    CrcProductIs(a, Halved(b));
  }

  lemma CrcProductIs(a: reg, b: reg)
    ensures CrcProduct(a, b) == Reduce(Double(Product(Widen(a), Widen(b))))
  {
  }

  lemma WidenBits(b: reg)
    ensures Odd(Widen(b)) <==> IsOdd(b)
    ensures Half(Widen(b)) == Widen(Halved(b))
  {
    WideBits(b);
  }

  lemma EvenProduct(x: wide, y: wide)
    requires !Odd(y)
    ensures Product(x, y) == Double(Product(x, Half(y)))
  {
    hide Product, Odd, Sum, Double, Half;
    ProductHorner(x, y);
    SumZero(Double(Product(x, Half(y))));
  }

  predicate HighBit(b: reg) {
    b & ONE != 0
  }

  // b without its constant term, divided by x.
  function Divide(b: reg): reg {
    b << 1
  }

  /** a times b modulo the polynomial, by Horner's rule: b's highest bit is its constant term, and
      the rest of b is a multiple of x. Only b's highest n bits count. */
  function Horner(a: reg, b: reg, n: nat): reg
    decreases n
  {
    if n == 0 then 0 else Plus(if HighBit(b) then a else 0, Step(Horner(a, Divide(b), n - 1)))
  }

  /** Multiplication modulo the CRC polynomial. */
  function Times(a: reg, b: reg): reg {
    Horner(a, b, 32)
  }

  // Nothing of b is left after n divisions.
  predicate Vanishes(b: reg, n: nat)
    decreases n
  {
    if n == 0 then b == 0 else Vanishes(Divide(b), n - 1)
  }

  lemma AllVanish(b: reg)
    ensures Vanishes(b, 32)
  {
    hide Vanishes;
    VanishesBy8(b, 24); VanishesBy8(b << 8, 16); VanishesBy8(b << 16, 8); VanishesBy8(b << 24, 0);
    VanishesZero((b << 24) << 8);
  }

  lemma VanishesZero(b: reg)
    ensures Vanishes(b, 0) <==> b == 0
  {
  }

  lemma VanishesBy8(b: reg, n: nat)
    ensures Vanishes(b << 8, n) ==> Vanishes(b, n + 8)
  {
    hide Vanishes;
    VanishesNext(b, n + 7); VanishesNext(b << 1, n + 6); VanishesNext(b << 2, n + 5); VanishesNext(b << 3, n + 4);
    VanishesNext(b << 4, n + 3); VanishesNext(b << 5, n + 2); VanishesNext(b << 6, n + 1); VanishesNext(b << 7, n);
  }

  lemma VanishesNext(b: reg, n: nat)
    ensures Vanishes(b, n + 1) <==> Vanishes(Divide(b), n)
  {
  }

  lemma HighBitIs(b: reg)
    ensures b & ONE == 0 || b & ONE == ONE
    ensures b == (b & ONE) ^ ((b << 1) >> 1)
    ensures (b << 1) & 1 == 0
  {
  }

  lemma TopAndRest(b: reg)
    ensures b == Plus(if HighBit(b) then ONE else 0, Halved(Divide(b))) && !IsOdd(Divide(b))
  {
    HighBitIs(b);
  }

  /** 1 is the unit. */
  lemma UnitProduct(a: reg)
    ensures CrcProduct(a, ONE) == a && CrcProduct(ONE, a) == a && CrcProduct(a, 0) == 0
  {
    hide Product, Reduce, Double;
    CrcProductSwap(a, ONE);
    WidenOne();
    ProductOfPower(Widen(a));
    ReduceHigh(a);
    ProductByZero(Widen(a));
    ReduceZero();
  }

  lemma WidenOne()
    ensures Widen(ONE) == 0x8000_0000 && Widen(0) == 0
  {
  }

  lemma ReduceZero()
    ensures Reduce(Double(0)) == 0
  {
    hide Steps;
    StepsZero(32);
  }

  lemma ReduceHigh(a: reg)
    ensures Reduce(Double(Up(Widen(a), 31))) == a
  {
    hide Steps;
    StepsZero(32);
    assert ((Widen(a) << 31) << 1) >> 32 == Widen(a);
    assert ((Widen(a) << 31) << 1) & 0xFFFF_FFFF == 0;
  }

  lemma {:induction false} ProductOfShift(x: wide, i: count)
    requires i <= 32
    ensures Product(Up(1, i), x) == Up(x, i)
    decreases i
  {
    hide Product, Up, Double;
    if i == 0 {
      UpZero(x);
      UpZero(1);
      ProductOne(x);
    } else {
      ProductOfShift(x, i - 1);
      ProductOfShiftNext(x, i - 1);
    }
  }

  lemma ProductOfShiftNext(x: wide, i: count)
    requires i < 32 && Product(Up(1, i), x) == Up(x, i)
    ensures Product(Up(1, i + 1), x) == Up(x, i + 1)
  {
    hide *;
    UpNext(1, i);
    UpNext(x, i);
    ProductDouble(Up(1, i), x);
  }

  lemma UpZero(x: wide)
    ensures Up(x, 0) == x
  {
  }

  lemma ProductOfPower(x: wide)
    ensures Product(x, 0x8000_0000) == Up(x, 31)
  {
    hide Product;
    assert Up(1, 31) == 0x8000_0000;
    ProductOfShift(x, 31);
    ProductSwap(x, 0x8000_0000);
  }

  // ----- crcMul multiplies modulo the polynomial

  lemma {:induction false} ProductIsHorner(a: reg, b: reg, n: nat)
    requires Vanishes(b, n)
    ensures CrcProduct(a, b) == Horner(a, b, n)
    decreases n
  {
    hide CrcProduct, HighBit, Divide, Plus, Step;
    UnitProduct(a);
    if n > 0 {
      ProductIsHorner(a, Divide(b), n - 1);
      TopAndRest(b);
      CrcProductLinear(if HighBit(b) then ONE else 0, Halved(Divide(b)), a);
      CrcProductHalf(a, Divide(b));
    }
  }

  /** crcMul is multiplication modulo the CRC polynomial. */
  lemma ProductIsTimes(a: reg, b: reg)
    ensures CrcProduct(a, b) == Times(a, b)
  {
    hide CrcProduct, Horner, Vanishes;
    AllVanish(b);
    ProductIsHorner(a, b, 32);
  }

  lemma {:induction false} HornerStep(a: reg, b: reg, n: nat)
    ensures Horner(Step(a), b, n) == Step(Horner(a, b, n))
    decreases n
  {
    hide Step, Plus, HighBit, Divide;
    if n == 0 {
      StepOfZero();
    } else {
      HornerStep(a, Divide(b), n - 1);
      StepOfZero();
      StepLinear(if HighBit(b) then a else 0, Step(Horner(a, Divide(b), n - 1)));
    }
  }

  lemma StepOfZero()
    ensures Step(0) == 0
  {
  }

  /** Multiplication commutes with the one-bit step. */
  lemma TimesStep(a: reg, b: reg)
    ensures Times(a, Step(b)) == Step(Times(a, b))
  {
    hide Horner, Step, CrcProduct;
    TimesSwap(a, b);
    TimesSwap(a, Step(b));
    HornerStep(b, a, 32);
  }

  /** Multiplication is commutative, with 1 as its unit. */
  lemma TimesSwap(a: reg, b: reg)
    ensures Times(a, b) == Times(b, a) && Times(a, ONE) == a
  {
    hide Times, CrcProduct;
    ProductIsTimes(a, b);
    ProductIsTimes(b, a);
    ProductIsTimes(a, ONE);
    UnitProduct(a);
    CrcProductSwap(a, b);
  }

  lemma TimesLinear(a: reg, b: reg, c: reg)
    ensures Times(c, Plus(a, b)) == Plus(Times(c, a), Times(c, b)) && Times(c, 0) == 0
  {
    hide Times, CrcProduct, Plus;
    ProductIsTimes(c, Plus(a, b)); ProductIsTimes(c, a); ProductIsTimes(c, b); ProductIsTimes(c, 0);
    CrcProductLinear(a, b, c);
    UnitProduct(c);
  }

  lemma {:induction false} TimesHorner(a: reg, b: reg, c: reg, n: nat)
    ensures Times(a, Horner(b, c, n)) == Horner(Times(a, b), c, n)
    decreases n
  {
    hide Times, Step, Plus, HighBit, Divide;
    TimesLinear(0, 0, a);
    if n > 0 {
      var rest := Horner(b, Divide(c), n - 1);
      TimesHorner(a, b, Divide(c), n - 1);
      TimesLinear(if HighBit(c) then b else 0, Step(rest), a);
      TimesStep(a, rest);
    }
  }

  /** Multiplication is associative, so shifts may be combined before they are applied. */
  lemma TimesAssoc(a: reg, b: reg, c: reg)
    ensures Times(a, Times(b, c)) == Times(Times(a, b), c)
  {
    TimesHorner(a, b, c, 32);
  }

  lemma {:induction false} TimesSteps(a: reg, b: reg, n: nat)
    ensures Times(a, Steps(b, n)) == Steps(Times(a, b), n)
  {
    hide Times, Step;
    if n > 0 {
      TimesSteps(a, b, n - 1);
      TimesStep(a, Steps(b, n - 1));
    }
  }

  /** Multiplying by what 1 becomes over n zero bytes is running a register over n zero bytes. */
  lemma TimesShifts(a: reg, n: nat)
    ensures Times(a, Raw(ONE, Zeros(n))) == Raw(a, Zeros(n))
  {
    hide Times, Steps, Raw;
    ZerosAreSteps(ONE, n);
    ZerosAreSteps(a, n);
    TimesSteps(a, ONE, 8 * n);
    TimesSwap(a, ONE);
  }

  // byte(p), byte(p >> 8), byte(p >> 16), byte(p >> 24)
  function LowBytes(p: wide): seq<byte> {
    [(p & 0xFF) as byte, ((p >> 8) & 0xFF) as byte, ((p >> 16) & 0xFF) as byte, ((p >> 24) & 0xFF) as byte]
  }

  lemma LowBytesOfWord(p: wide)
    ensures LowBytes(p) == WordBytes(Low32(p))
  {
    hide Drop;
    DropAll(Low32(p));
    DropOnce(Low32(p));
  }

  lemma DropOnce(w: reg)
    ensures Drop(w) == w >> 8
  {
  }

  /** crcMul */
  method CrcMul(a: reg, b: reg) returns (crc: reg)
    ensures crc == Times(a, b)
  {
    hide Times, Product, Raw, Steps, Plus, WordBytes, LowBytes, Low32, High32, Widen, Double;
    var p := Clmul32(a, b);
    p := Double(p);
    var low := RawUpdate(0, LowBytes(p));
    crc := Plus(low, High32(p));
    LowBytesOfWord(p);
    RawOfWord(0, Low32(p));
    PlusZero(Low32(p));
    ProductIsTimes(a, b);
  }

  /** shiftZeros */
  method ShiftZeros(c: reg, n: nat) returns (crc: reg)
    ensures crc == Raw(c, Zeros(n))
  {
    crc := RawUpdate(c, Zeros(n));
  }
}
