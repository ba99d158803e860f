/** The 64-bit lane masks of the vector kernels. Lane i of a mask is its i-th least significant
    bit. Masks that stay lane-wise are sequences of booleans; fixEqMask, whose addition carries
    across lanes, works on the machine word. */
module BitMasks {
  import opened Words

  // ----- words and lanes

  function Push(word: bv64, low: bool): bv64 { (word << 1) | (if low then 1 else 0) }

  /** ToBits: one bit a lane. */
  function Pack(lanes: seq<bool>): bv64 {
    if lanes == [] then 0 else Push(Pack(lanes[1..]), lanes[0])
  }

  function Lanes(word: bv64, n: nat): (lanes: seq<bool>)
    ensures |lanes| == n
  {
    if n == 0 then [] else [Odd(word)] + Lanes(Half(word), n - 1)
  }

  // The n low bits.
  function Low(n: nat): bv64 {
    if n == 0 then 0 else Push(Low(n - 1), true)
  }

  lemma PushWithin(word: bv64, bound: bv64, low: bool)
    requires Within(word, bound)
    ensures Within(Push(word, low), Push(bound, true))
  {
    ShiftWithin(word, bound, if low then 1 else 0);
  }

  lemma ShiftWithin(word: bv64, bound: bv64, low: bv64)
    requires word & !bound == 0 && (low == 0 || low == 1)
    ensures ((word << 1) | low) & !((bound << 1) | 1) == 0
  {
  }

  lemma PushPops(word: bv64, low: bool, bound: bv64)
    requires Within(word, bound) && Within(bound, 0x7FFFFFFFFFFFFFFF)
    ensures Half(Push(word, low)) == word && Odd(Push(word, low)) == low
  {
  }

  lemma {:induction false} PackFits(lanes: seq<bool>)
    ensures Within(Pack(lanes), Low(|lanes|))
  {
    hide Push, Within;
    if lanes == [] {
      ZeroWithin(Low(0));
    } else {
      PackFits(lanes[1..]);
      PushWithin(Pack(lanes[1..]), Low(|lanes| - 1), lanes[0]);
    }
  }

  lemma {:induction false} LowGrows(n: nat, m: nat)
    requires n <= m
    ensures Within(Low(n), Low(m))
    decreases m
  {
    hide Push, Within;
    if n == 0 {
      ZeroWithin(Low(m));
    } else {
      LowGrows(n - 1, m - 1);
      PushWithin(Low(n - 1), Low(m - 1), true);
    }
  }

  lemma ZeroWithin(bound: bv64)
    ensures Within(0, bound)
  {
  }

  function PushThree(word: bv64): bv64 { (word << 3) | 7 }

  lemma PushThrice(word: bv64)
    ensures Push(Push(Push(word, true), true), true) == PushThree(word)
  {
  }

  lemma LowThree(n: nat)
    ensures Low(n + 3) == PushThree(Low(n))
  {
    hide Push, PushThree;
    assert Low(n + 2) == Push(Push(Low(n), true), true);
    PushThrice(Low(n));
  }

  lemma Low63()
    ensures Low(63) == 0x7FFFFFFFFFFFFFFF
  {
    LowThree(0); LowThree(3); LowThree(6); LowThree(9); LowThree(12); LowThree(15); LowThree(18);
    LowThree(21); LowThree(24); LowThree(27); LowThree(30); LowThree(33); LowThree(36); LowThree(39);
    LowThree(42); LowThree(45); LowThree(48); LowThree(51); LowThree(54); LowThree(57); LowThree(60);
  }

  lemma PackPops(lanes: seq<bool>)
    requires 0 < |lanes| <= 64
    ensures Half(Pack(lanes)) == Pack(lanes[1..]) && Odd(Pack(lanes)) == lanes[0]
  {
    hide Push, Half, Odd, Within;
    PackFits(lanes[1..]);
    Low63();
    LowGrows(|lanes| - 1, 63);
    PushPops(Pack(lanes[1..]), lanes[0], Low(|lanes| - 1));
  }

  lemma {:induction false} LanesOfPack(lanes: seq<bool>)
    requires |lanes| <= 64
    ensures Lanes(Pack(lanes), |lanes|) == lanes
  {
    if lanes != [] {
      LanesOfPack(lanes[1..]);
      PackPops(lanes);
      hide Pack, Push, Half, Odd;
    }
  }

  // ----- escapes

  /** The `=` bytes a left-to-right scan takes as escape characters: those that are not
      themselves escaped. carry says that the byte before the first lane is one. */
  function Starters(eq: seq<bool>, carry: bool): (starters: seq<bool>)
    ensures |starters| == |eq|
  {
    if eq == [] then [] else [eq[0] && !carry] + Starters(eq[1..], eq[0] && !carry)
  }

  function CarryOut(eq: seq<bool>, carry: bool): bool {
    if eq == [] then carry else CarryOut(eq[1..], eq[0] && !carry)
  }

  lemma {:induction false} CarryOutIsLast(eq: seq<bool>, carry: bool)
    requires eq != []
    ensures CarryOut(eq, carry) == Starters(eq, carry)[|eq| - 1]
  {
    if 1 < |eq| {
      CarryOutIsLast(eq[1..], eq[0] && !carry);
    }
  }

  // maskEqShift1: the lanes after a set lane, and the first lane when there is a carry.
  function ShiftIn(mask: bv64, carry: bv64): bv64 { (mask << 1) + carry }

  function FixEqMask(mask: bv64, maskShift1: bv64): bv64 {
    // the start of each group of consecutive bits
    var start := mask & !maskShift1;
    var even: bv64 := 0x5555555555555555;
    // groups starting on an odd bit, and a trailing bit that the last step drops
    var oddGroups := mask + (start & even);
    (oddGroups ^ even) & mask
  }

  /** The scan's recurrence on a whole word: a set bit is in the mask and not after a set bit. */
  predicate Recurs(r: bv64, mask: bv64, carry: bool) {
    r == mask & !Push(r, carry)
  }

  /** The carry chain of the addition settles into the scan's own recurrence. */
  lemma FixEqMaskRecurs(mask: bv64, carry: bv64)
    requires carry == 0 || carry == 1
    ensures Recurs(FixEqMask(mask, ShiftIn(mask, carry)), mask, carry == 1)
  {
  }

  lemma RecursHalf(r: bv64, mask: bv64, carry: bool)
    requires Recurs(r, mask, carry)
    ensures Odd(r) == (Odd(mask) && !carry)
    ensures Recurs(Half(r), Half(mask), Odd(r))
  {
  }

  /** A word meeting the recurrence is the scan, lane by lane. */
  lemma {:induction false} RecurrenceScans(r: bv64, mask: bv64, carry: bool, n: nat)
    requires Recurs(r, mask, carry)
    ensures Lanes(r, n) == Starters(Lanes(mask, n), carry)
    decreases n
  {
    hide Recurs, Half, Odd;
    if n > 0 {
      RecursHalf(r, mask, carry);
      RecurrenceScans(Half(r), Half(mask), Odd(r), n - 1);
      assert Lanes(mask, n)[1..] == Lanes(Half(mask), n - 1);
    }
  }

  lemma {:induction false} StartersAt(eq: seq<bool>, carry: bool, i: nat)
    requires i < |eq|
    ensures Starters(eq, carry)[i] == (eq[i] && !(if i == 0 then carry else Starters(eq, carry)[i - 1]))
  {
    if i > 0 {
      StartersAt(eq[1..], eq[0] && !carry, i - 1);
    }
  }

  /** fixEqMask marks exactly the escape characters of a 64-byte block. */
  lemma FixEqMaskMarksStarters(eq: seq<bool>, carry: bv64)
    requires |eq| == 64 && (carry == 0 || carry == 1)
    ensures Lanes(FixEqMask(Pack(eq), ShiftIn(Pack(eq), carry)), 64) == Starters(eq, carry == 1)
  {
    hide *;
    FixEqMaskRecurs(Pack(eq), carry);
    RecurrenceScans(FixEqMask(Pack(eq), ShiftIn(Pack(eq), carry)), Pack(eq), carry == 1, 64);
    LanesOfPack(eq);
  }

  // Whether the byte before lane i is `=`, or the carry for the first lane.
  function EqBefore(eq: seq<bool>, carry: bool, i: nat): bool
    requires i < |eq|
  {
    if i == 0 then carry else eq[i - 1]
  }

  /** Where no `=` follows another, or the carry, every `=` is an escape character. */
  lemma {:induction false} ApartAreStarters(eq: seq<bool>, carry: bool)
    requires forall i :: 0 <= i < |eq| && EqBefore(eq, carry, i) ==> !eq[i]
    ensures Starters(eq, carry) == eq
  {
    if eq != [] {
      var tail, next := eq[1..], eq[0] && !carry;
      assert EqBefore(eq, carry, 0) == carry;
      forall i | 0 <= i < |tail| && EqBefore(tail, next, i)
        ensures !tail[i]
      {
        assert EqBefore(eq, carry, i + 1);
      }
      ApartAreStarters(tail, next);
    }
  }

  lemma {:induction false} StartersConcat(a: seq<bool>, b: seq<bool>, carry: bool)
    ensures Starters(a + b, carry) == Starters(a, carry) + Starters(b, CarryOut(a, carry))
  {
    if a == [] {
      assert a + b == b;
    } else {
      assert (a + b)[1..] == a[1..] + b;
      StartersConcat(a[1..], b, a[0] && !carry);
    }
  }

  // ----- block after block

  /** A block's `=` lanes, and all its lanes of special bytes, `=` among them. */
  datatype Block = Block(eq: seq<bool>, special: seq<bool>)

  predicate IsBlock(b: Block) {
    |b.eq| == 64 && |b.special| == 64 && forall i :: 0 <= i < 64 && b.eq[i] ==> b.special[i]
  }

  /** The escape characters of a block, worked out only when some special byte follows a `=`. */
  function BlockStarters(b: Block, carry: bool): (starters: seq<bool>)
    requires IsBlock(b)
    ensures |starters| == 64
  {
    if exists i :: 0 <= i < 64 && b.special[i] && EqBefore(b.eq, carry, i) then
      Lanes(FixEqMask(Pack(b.eq), ShiftIn(Pack(b.eq), if carry then 1 else 0)), 64)
    else b.eq
  }

  /** Each block's last lane is the next one's carry. */
  function ChainedStarters(blocks: seq<Block>, carry: bool): seq<bool>
    requires forall i :: 0 <= i < |blocks| ==> IsBlock(blocks[i])
  {
    if blocks == [] then []
    else
      var starters := BlockStarters(blocks[0], carry);
      starters + ChainedStarters(blocks[1..], starters[63])
  }

  function AllEq(blocks: seq<Block>): seq<bool> {
    if blocks == [] then [] else blocks[0].eq + AllEq(blocks[1..])
  }

  lemma BlockStartersScan(b: Block, carry: bool)
    requires IsBlock(b)
    ensures BlockStarters(b, carry) == Starters(b.eq, carry)
    ensures BlockStarters(b, carry)[63] == CarryOut(b.eq, carry)
  {
    hide Starters, CarryOut, Pack, Lanes, FixEqMask, ShiftIn;
    FixEqMaskMarksStarters(b.eq, if carry then 1 else 0);
    CarryOutIsLast(b.eq, carry);
    if !exists i :: 0 <= i < 64 && b.special[i] && EqBefore(b.eq, carry, i) {
      ApartAreStarters(b.eq, carry);
    }
  }

  /** Over any number of blocks, short cut or not, the chained masks are one scan of it all. */
  lemma {:induction false} ChainedIsScan(blocks: seq<Block>, carry: bool)
    requires forall i :: 0 <= i < |blocks| ==> IsBlock(blocks[i])
    ensures ChainedStarters(blocks, carry) == Starters(AllEq(blocks), carry)
  {
    hide BlockStarters, Starters, CarryOut;
    if blocks == [] {
      NothingStarts(carry);
    } else {
      BlockStartersScan(blocks[0], carry);
      ChainedIsScan(blocks[1..], BlockStarters(blocks[0], carry)[63]);
      StartersConcat(blocks[0].eq, AllEq(blocks[1..]), carry);
    }
  }

  lemma NothingStarts(carry: bool)
    ensures Starters([], carry) == []
  {
  }

  // ----- compaction

  function Count(mask: seq<bool>): (n: nat)
    ensures n <= |mask|
  {
    if mask == [] then 0 else (if mask[0] then 1 else 0) + Count(mask[1..])
  }

  /** The values in the lanes the mask leaves clear, in order. */
  function Unmasked<T>(values: seq<T>, mask: seq<bool>): (kept: seq<T>)
    requires |values| == |mask|
    ensures |kept| == |mask| - Count(mask)
  {
    if mask == [] then []
    else (if mask[0] then [] else [values[0]]) + Unmasked(values[1..], mask[1..])
  }

  lemma {:induction false} CountConcat(a: seq<bool>, b: seq<bool>)
    ensures Count(a + b) == Count(a) + Count(b)
  {
    if a == [] {
      assert a + b == b;
    } else {
      assert (a + b)[1..] == a[1..] + b;
      CountConcat(a[1..], b);
    }
  }

  lemma {:induction false} UnmaskedConcat<T>(v: seq<T>, w: seq<T>, a: seq<bool>, b: seq<bool>)
    requires |v| == |a| && |w| == |b|
    ensures Unmasked(v + w, a + b) == Unmasked(v, a) + Unmasked(w, b)
  {
    if a == [] {
      assert v + w == w && a + b == b;
    } else {
      assert (a + b)[1..] == a[1..] + b && (v + w)[1..] == v[1..] + w;
      UnmaskedConcat(v[1..], w, a[1..], b);
    }
  }

  // ----- table indices: lane masks read as numbers

  function IndexOf(lanes: seq<bool>): nat {
    if lanes == [] then 0 else (if lanes[0] then 1 else 0) + 2 * IndexOf(lanes[1..])
  }

  function IndexLanes(k: nat, n: nat): (lanes: seq<bool>)
    ensures |lanes| == n
  {
    if n == 0 then [] else [k % 2 == 1] + IndexLanes(k / 2, n - 1)
  }

  lemma {:induction false} IndexLanesOfIndex(lanes: seq<bool>, n: nat)
    requires |lanes| <= n
    ensures IndexLanes(IndexOf(lanes), n) == lanes + seq(n - |lanes|, _ => false)
    decreases n
  {
    hide IndexLanes, IndexOf;
    if lanes == [] {
      ClearLanes(n);
    } else {
      IndexLanesOfIndex(lanes[1..], n - 1);
      IndexPush(lanes, n);
    }
  }

  lemma IndexPush(lanes: seq<bool>, n: nat)
    requires 1 <= |lanes| <= n
    ensures IndexLanes(IndexOf(lanes), n) == [lanes[0]] + IndexLanes(IndexOf(lanes[1..]), n - 1)
  {
  }

  lemma {:induction false} ClearLanes(n: nat)
    ensures IndexOf([]) == 0 && IndexLanes(0, n) == seq(n, _ => false)
  {
    if n > 0 {
      ClearLanes(n - 1);
    }
  }

  function PowerOfTwo(n: nat): nat {
    if n == 0 then 1 else 2 * PowerOfTwo(n - 1)
  }

  lemma {:induction false} IndexBound(lanes: seq<bool>)
    ensures IndexOf(lanes) < PowerOfTwo(|lanes|)
  {
    if lanes != [] {
      IndexBound(lanes[1..]);
    }
  }

  // The next lane of an index being shifted out.
  lemma IndexLanesPop(k: nat, lanes: seq<bool>, j: nat)
    requires j < |lanes| && IndexLanes(k, |lanes| - j) == lanes[j..]
    ensures lanes[j] == (k % 2 != 0) && IndexLanes(k / 2, |lanes| - j - 1) == lanes[j + 1..]
  {
    assert lanes[j..][0] == lanes[j] && lanes[j..][1..] == lanes[j + 1..];
  }

  // ----- shuffles: a table row lists, lane by lane, the source lane to take

  const LANES := 16
  const IOTA: seq<bv8> := [0, 1, 2, 3, 4, 5, 6, 7, 8, 9, 10, 11, 12, 13, 14, 15]

  lemma IotaAt(j: nat)
    requires j < LANES
    ensures IOTA[j] == j as bv8
  {
  }

  // One lane of a shuffle: a set sign bit in its index takes another value in place of a source lane.
  function Pick(data: seq<bv8>, index: bv8, other: bv8): bv8
    requires |data| == LANES
  {
    if index & 0x80 != 0 then other else data[(index & 0x0F) as int]
  }

  function Picks(data: seq<bv8>, indices: seq<bv8>, other: bv8): (lanes: seq<bv8>)
    requires |data| == LANES
    ensures |lanes| == |indices|
    ensures forall i :: 0 <= i < |indices| ==> lanes[i] == Pick(data, indices[i], other)
  {
    seq(|indices|, i requires 0 <= i < |indices| => Pick(data, indices[i], other))
  }
}
