/** decodeSIMDAVX2: 64 bytes at a time, on lane masks. */
module Avx2Decoder {
  import opened Bytes
  import opened YencMachine
  import opened MachineWindows
  import opened BitMasks
  import CompactLut

  const BLOCK := 64

  // The bytes special wherever they stand.
  predicate IsSpecial(c: byte) { c == CR || c == LF || c == EQUALS }

  // minMask: every lane holds `.`, but for the first two, which hold 0 where the byte is a dot to drop.
  datatype MinMask = MinMask(lane0: byte, lane1: byte) {
    function At(i: nat): byte {
      if i == 0 then lane0 else if i == 1 then lane1 else DOT
    }
  }

  const NO_DOTS := MinMask(DOT, DOT)

  // ----- the special-character search

  // PermuteOrZero of specialLut by one index byte.
  function SpecialLut(index: byte): byte {
    if index & 0x80 != 0 then 0
    else
      var low := index & 0x0F;
      if low == 0 then DOT
      else if low == 10 then LF
      else if low == 13 then CR
      else if low == 14 then EQUALS
      else 0xFF
  }

  function SpecialLane(c: byte, min: byte): bool {
    c == SpecialLut(if c < min then c else min)
  }

  /** The lookup is set membership: of the three specials where minMask holds `.`, of the dot
      alone where it holds 0. */
  lemma SpecialLaneIsMembership(c: byte)
    ensures SpecialLane(c, DOT) <==> IsSpecial(c)
    ensures SpecialLane(c, 0) <==> c == DOT
  {
  }

  // ----- the lane masks of a block and what they mean to the machine

  function EqLanes(src: seq<byte>, at: nat): (eq: seq<bool>)
    requires at + BLOCK <= |src|
    ensures |eq| == BLOCK
    ensures forall i :: 0 <= i < BLOCK ==> eq[i] == (src[at + i] == EQUALS)
  {
    seq(BLOCK, i requires 0 <= i < BLOCK => src[at + i] == EQUALS)
  }

  // A dot to drop: announced by minMask in the first two lanes, seen with its CR LF elsewhere.
  predicate DotLane(src: seq<byte>, at: nat, min: MinMask, i: nat)
    requires at + BLOCK <= |src| && i < BLOCK
  {
    if i == 0 then min.lane0 == 0 else if i == 1 then min.lane1 == 0 else NewlineDot(src, at + i - 2)
  }

  function LaneValue(c: byte, escaped: bool): byte {
    c - (if escaped then ESCAPED_SHIFT else SHIFT)
  }

  // The lanes a block does not store.
  predicate MaskedLane(src: seq<byte>, at: nat, min: MinMask, escaped: bool, i: nat)
    requires at + BLOCK <= |src| && i < BLOCK
  {
    !escaped && (IsSpecial(src[at + i]) || DotLane(src, at, min, i))
  }

  function EscapedLane(src: seq<byte>, at: nat, carry: bool, i: nat): bool
    requires at + BLOCK <= |src| && i < BLOCK
  {
    EqBefore(Starters(EqLanes(src, at), carry), carry, i)
  }

  ghost predicate BlockLanes(src: seq<byte>, at: nat, min: MinMask, carry: bool, mask: seq<bool>, values: seq<byte>)
    requires at + BLOCK <= |src|
  {
    && |mask| == |values| == BLOCK
    && (forall i :: 0 <= i < BLOCK ==> mask[i] == MaskedLane(src, at, min, EscapedLane(src, at, carry, i), i))
    && (forall i :: 0 <= i < BLOCK ==> values[i] == LaneValue(src[at + i], EscapedLane(src, at, carry, i)))
  }

  /** What minMask and escFirst carry into a block entered in state q. */
  ghost predicate CarriedIn(q: State, src: seq<byte>, at: nat, min: MinMask, carry: bool)
    requires at + 2 <= |src|
  {
    && carry == Escaping(q)
    && min.lane0 == (if StuffedDot(q, src, at) then 0 else DOT)
    && min.lane1 == (if q == StateCR && src[at] == LF && src[at + 1] == DOT then 0 else DOT)
  }

  ghost predicate NoEndIn(src: seq<byte>, at: nat)
    requires at + BLOCK + 4 <= |src|
  {
    forall j :: at <= j < at + BLOCK ==> !EndsAt(src, j)
  }

  // The machine at lane i of a block entered in q.
  ghost predicate AtLane(r: State, q: State, src: seq<byte>, at: nat, carry: bool, i: nat)
    requires at + BLOCK + 4 <= |src| && i <= BLOCK
  {
    && !Pending(r, src, at + i)
    && Seen(r, src, at, at + i)
    && Escaping(r) == (if i == 0 then carry else Starters(EqLanes(src, at), carry)[i - 1])
    && (i == 0 ==> r == q)
    && (i == 1 ==> (r == StateCRLF <==> q == StateCR && src[at] == LF))
  }

  lemma LaneMoves(r: State, q: State, src: seq<byte>, at: nat, min: MinMask, carry: bool, i: nat)
    requires at + BLOCK + 4 <= |src| && i < BLOCK
    requires CarriedIn(q, src, at, min, carry) && NoEndIn(src, at)
    requires AtLane(r, q, src, at, carry, i)
    ensures Step(r, src[at + i]).Go?
    ensures AtLane(Step(r, src[at + i]).next, q, src, at, carry, i + 1)
    ensures var escaped := EscapedLane(src, at, carry, i);
      Step(r, src[at + i]).emit
        == if MaskedLane(src, at, min, escaped, i) then [] else [LaneValue(src[at + i], escaped)]
  {
    assert !EndsAt(src, at + i);
    NoEndYet(r, src, at + i);
    StepSeen(r, src[at + i]);
    SeenNext(r, src, at, at + i);
    StartersAt(EqLanes(src, at), carry, i);
    assert StuffedDot(r, src, at + i) == DotLane(src, at, min, i);
  }

  /** The first n lanes of a block without a terminator do what the machine does. */
  lemma {:induction false} LanesRun(entry: State, src: seq<byte>, at: nat, out: seq<byte>, q: State,
      min: MinMask, carry: bool, mask: seq<bool>, values: seq<byte>, n: nat) returns (r: State)
    requires at + BLOCK + 4 <= |src| && n <= BLOCK
    requires Run(entry, src, at) == Live(out, q) && !Pending(q, src, at)
    requires CarriedIn(q, src, at, min, carry) && NoEndIn(src, at)
    requires BlockLanes(src, at, min, carry, mask, values) && |mask| == |values| == BLOCK
    requires carry == Escaping(q)
    ensures Run(entry, src, at + n) == Live(out + Unmasked(values[..n], mask[..n]), r)
    ensures AtLane(r, q, src, at, carry, n)
  {
    hide Run, AtLane, BlockLanes, CarriedIn, NoEndIn, Pending, MaskedLane, LaneValue, EscapedLane, Step, Unmasked;
    if n == 0 {
      NoLanesRun(q, src, at, carry, out, mask, values);
      return q;
    }
    var i := n - 1;
    var p := LanesRun(entry, src, at, out, q, min, carry, mask, values, i);
    LaneMoves(p, q, src, at, min, carry, i);
    LaneStored(src, at, min, carry, mask, values, i);
    var kept, move := Unmasked(values[..i], mask[..i]), Step(p, src[at + i]);
    RunNext(entry, src, at + i, out + kept, p);
    assert (out + kept) + move.emit == out + (kept + move.emit);
    r := move.next;
  }

  lemma NoLanesRun(q: State, src: seq<byte>, at: nat, carry: bool, out: seq<byte>, mask: seq<bool>, values: seq<byte>)
    requires at + BLOCK + 4 <= |src| && |mask| == |values| == BLOCK
    requires carry == Escaping(q) && !Pending(q, src, at)
    ensures AtLane(q, q, src, at, carry, 0)
    ensures out + Unmasked(values[..0], mask[..0]) == out
  {
  }

  lemma LaneStored(src: seq<byte>, at: nat, min: MinMask, carry: bool, mask: seq<bool>, values: seq<byte>, i: nat)
    requires at + BLOCK <= |src| && i < BLOCK && BlockLanes(src, at, min, carry, mask, values)
    ensures |mask| == |values| == BLOCK
    ensures var escaped := EscapedLane(src, at, carry, i);
      Unmasked(values[..i + 1], mask[..i + 1]) == Unmasked(values[..i], mask[..i])
        + (if MaskedLane(src, at, min, escaped, i) then [] else [LaneValue(src[at + i], escaped)])
  {
    LaneEmits(values, mask, i);
  }

  lemma LaneEmits(values: seq<byte>, mask: seq<bool>, i: nat)
    requires |values| == |mask| && i < |mask|
    ensures Unmasked(values[..i + 1], mask[..i + 1])
      == Unmasked(values[..i], mask[..i]) + (if mask[i] then [] else [values[i]])
  {
    assert values[..i + 1] == values[..i] + [values[i]];
    assert mask[..i + 1] == mask[..i] + [mask[i]];
    UnmaskedConcat(values[..i], [values[i]], mask[..i], [mask[i]]);
  }

  // ----- terminators and dots to drop

  // =y at a 16-bit lane of the data four bytes ahead, and that match moved up a byte lane.
  predicate Word4EqY(src: seq<byte>, at: nat, k: nat)
    requires at + BLOCK + 4 <= |src| && k < 32
  {
    src[at + 4 + 2 * k] == EQUALS && src[at + 4 + 2 * k + 1] == LETTER_Y
  }

  predicate Match4EqY(src: seq<byte>, at: nat, i: nat)
    requires at + BLOCK + 4 <= |src| && i < BLOCK
  {
    i % 2 == 1 && Word4EqY(src, at, i / 2)
  }

  // =y two bytes ahead, and that match moved down a byte lane within its 16-bit lane.
  predicate Match3EqY(src: seq<byte>, at: nat, i: nat)
    requires at + BLOCK + 4 <= |src| && i < BLOCK
  {
    src[at + i + 2] == EQUALS && src[at + i + 3] == LETTER_Y
  }

  predicate Match3EqYLowered(src: seq<byte>, at: nat, i: nat)
    requires at + BLOCK + 4 <= |src| && i < BLOCK
  {
    i % 2 == 0 && Match3EqY(src, at, i + 1)
  }

  predicate Match1Nl(src: seq<byte>, at: nat, i: nat)
    requires at + BLOCK + 4 <= |src| && i < BLOCK
  {
    src[at + i + 1] == LF && src[at + i] == CR
  }

  predicate Match2CrXDt(src: seq<byte>, at: nat, i: nat)
    requires at + BLOCK + 4 <= |src| && i < BLOCK
  {
    src[at + i] == CR && src[at + i + 2] == DOT
  }

  predicate Match2NlDot(src: seq<byte>, at: nat, i: nat)
    requires at + BLOCK + 4 <= |src| && i < BLOCK
  {
    Match2CrXDt(src, at, i) && Match1Nl(src, at, i)
  }

  predicate MatchEnd(src: seq<byte>, at: nat, i: nat)
    requires at + BLOCK + 4 <= |src| && i < BLOCK
  {
    || ((|| (src[at + i + 3] == CR && src[at + i + 4] == LF)
         || Match4EqY(src, at, i)
         || Match3EqYLowered(src, at, i))
        && Match2NlDot(src, at, i))
    || (Match3EqY(src, at, i) && Match1Nl(src, at, i))
  }

  /** The two 16-bit searches cover the odd and the even lanes between them. */
  lemma MatchEndIsEnd(src: seq<byte>, at: nat, i: nat)
    requires at + BLOCK + 4 <= |src| && i < BLOCK
    ensures MatchEnd(src, at, i) <==> EndsAt(src, at + i)
    ensures Match2NlDot(src, at, i) <==> NewlineDot(src, at + i)
    ensures EndsAt(src, at + i) && !Match2NlDot(src, at, i) ==> Match3EqY(src, at, i) && Match1Nl(src, at, i)
  {
  }

  lemma MatchesInBlock(src: seq<byte>, at: nat)
    requires at + BLOCK + 4 <= |src|
    ensures NoEndIn(src, at) <==> forall i :: 0 <= i < BLOCK ==> !MatchEnd(src, at, i)
    ensures (forall i :: 0 <= i < BLOCK ==> !Match2CrXDt(src, at, i)) ==>
      forall j :: at <= j < at + BLOCK ==> !NewlineDot(src, j)
    ensures (forall i :: 0 <= i < BLOCK ==> !Match2CrXDt(src, at, i)) ==>
      (NoEndIn(src, at) <==> forall i :: 0 <= i < BLOCK ==> !(Match3EqY(src, at, i) && Match1Nl(src, at, i)))
  {
    forall i | 0 <= i < BLOCK
      ensures MatchEnd(src, at, i) <==> EndsAt(src, at + i)
      ensures Match2NlDot(src, at, i) <==> NewlineDot(src, at + i)
      ensures EndsAt(src, at + i) && !Match2NlDot(src, at, i) ==> Match3EqY(src, at, i) && Match1Nl(src, at, i)
    {
      MatchEndIsEnd(src, at, i);
    }
    forall j | at <= j < at + BLOCK
      ensures MatchEnd(src, at, j - at) <==> EndsAt(src, j)
      ensures Match2NlDot(src, at, j - at) <==> NewlineDot(src, j)
    {
      MatchEndIsEnd(src, at, j - at);
    }
  }

  function SubSaturated(a: byte, b: byte): byte {
    if a < b then 0 else a - b
  }

  // The dots to drop in the two lanes after a block that ends at e.
  function DotsAfter(src: seq<byte>, e: nat): MinMask
    requires 2 <= e && e + 2 <= |src|
  {
    MinMask(if NewlineDot(src, e - 2) then 0 else DOT, if NewlineDot(src, e - 1) then 0 else DOT)
  }

  /** The search for line starts, entered when the block has a special other than `=`. */
  method LineStarts(src: seq<byte>, at: nat, specials: seq<bool>)
    returns (stop: bool, mask: seq<bool>, min: MinMask)
    requires at + BLOCK + 4 <= |src| && |specials| == BLOCK
    ensures stop <==> !NoEndIn(src, at)
    ensures |mask| == BLOCK
    ensures !stop ==> min == DotsAfter(src, at + BLOCK)
    ensures !stop ==> forall i :: 0 <= i < BLOCK ==>
      mask[i] == (specials[i] || (2 <= i && NewlineDot(src, at + i - 2)))
  {
    MatchesInBlock(src, at);
    stop, mask, min := false, specials, NO_DOTS;
    if exists i :: 0 <= i < BLOCK && Match2CrXDt(src, at, i) {
      if exists i :: 0 <= i < BLOCK && MatchEnd(src, at, i) {
        return true, mask, min;
      }
      mask := seq(BLOCK, i requires 0 <= i < BLOCK => specials[i] || (2 <= i && Match2NlDot(src, at, i - 2)));
      min := MinMask(SubSaturated(DOT, if Match2NlDot(src, at, 62) then 0xFF else 0),
                     SubSaturated(DOT, if Match2NlDot(src, at, 63) then 0xFF else 0));
    } else if exists i :: 0 <= i < BLOCK && Match3EqY(src, at, i) {
      if exists i :: 0 <= i < BLOCK && Match3EqY(src, at, i) && Match1Nl(src, at, i) {
        return true, mask, min;
      }
    }
  }

  // ----- escapes

  // The offset added to a lane: the escaped one, or yencOffset, which differs only in lane 0.
  function LaneOffset(escaped: bool, yencOffset: byte, i: nat): byte {
    if escaped then -ESCAPED_SHIFT else if i == 0 then yencOffset else -SHIFT
  }

  function YencOffset(escFirst: bv64): byte {
    if escFirst > 0 then -ESCAPED_SHIFT else -SHIFT
  }

  lemma OffsetGivesValue(c: byte, escaped: bool, escFirst: bv64, i: nat)
    requires escFirst == 0 || escFirst == 1
    ensures c + LaneOffset(escaped, YencOffset(escFirst), i) == LaneValue(c, escaped || (i == 0 && escFirst == 1))
  {
  }

  // The lanes after unescaping: escaped bytes leave the mask, and every byte gets its offset.
  ghost predicate Unescaped(src: seq<byte>, at: nat, specials: seq<bool>, carry: bool, mask: seq<bool>, values: seq<byte>)
    requires at + BLOCK <= |src| && |specials| == BLOCK
  {
    && |mask| == |values| == BLOCK
    && (forall i :: 0 <= i < BLOCK ==> mask[i] == (specials[i] && !EscapedLane(src, at, carry, i)))
    && (forall i :: 0 <= i < BLOCK ==> values[i] == LaneValue(src[at + i], EscapedLane(src, at, carry, i)))
  }

  method UnescapeRuns(src: seq<byte>, at: nat, specials: seq<bool>, escFirst: bv64, yencOffset: byte)
    returns (mask: seq<bool>, values: seq<byte>, nextEscFirst: bv64)
    requires at + BLOCK <= |src| && |specials| == BLOCK
    requires escFirst == 0 || escFirst == 1
    requires yencOffset == YencOffset(escFirst)
    ensures Unescaped(src, at, specials, escFirst == 1, mask, values)
    ensures nextEscFirst == if Starters(EqLanes(src, at), escFirst == 1)[63] then 1 else 0
  {
    hide Lanes, FixEqMask, Pack, ShiftIn, Starters;
    var maskEq := EqLanes(src, at);
    var carry := escFirst == 1;
    FixEqMaskMarksStarters(maskEq, escFirst);
    var starters := Lanes(FixEqMask(Pack(maskEq), ShiftIn(Pack(maskEq), escFirst)), BLOCK);
    nextEscFirst := if starters[63] then 1 else 0;
    var escaped := [carry] + starters[..63];
    mask := seq(BLOCK, i requires 0 <= i < BLOCK => specials[i] && !escaped[i]);
    values := seq(BLOCK, i requires 0 <= i < BLOCK => src[at + i] + LaneOffset(escaped[i], yencOffset, i));
    forall i | 0 <= i < BLOCK
      ensures escaped[i] == EscapedLane(src, at, carry, i)
      ensures values[i] == LaneValue(src[at + i], escaped[i])
    {
      OffsetGivesValue(src[at + i], escaped[i], escFirst, i);
    }
  }

  method UnescapeApart(src: seq<byte>, at: nat, specials: seq<bool>, escFirst: bv64, yencOffset: byte)
    returns (values: seq<byte>, nextEscFirst: bv64)
    requires at + BLOCK <= |src| && |specials| == BLOCK
    requires escFirst == 0 || escFirst == 1
    requires yencOffset == YencOffset(escFirst)
    requires forall i :: 0 <= i < BLOCK ==> EqLanes(src, at)[i] ==> specials[i]
    requires forall i :: 0 <= i < BLOCK && EqBefore(EqLanes(src, at), escFirst == 1, i) ==> !specials[i]
    ensures Unescaped(src, at, specials, escFirst == 1, specials, values)
    ensures nextEscFirst == if Starters(EqLanes(src, at), escFirst == 1)[63] then 1 else 0
  {
    var maskEq := EqLanes(src, at);
    var carry := escFirst == 1;
    ApartAreStarters(maskEq, carry);
    hide Starters;
    nextEscFirst := if maskEq[63] then 1 else 0;
    values := seq(BLOCK, i requires 0 <= i < BLOCK =>
      src[at + i] + LaneOffset(0 < i && src[at + i - 1] == EQUALS, yencOffset, i));
    forall i | 0 <= i < BLOCK
      ensures values[i] == LaneValue(src[at + i], EscapedLane(src, at, carry, i))
    {
      OffsetGivesValue(src[at + i], 0 < i && src[at + i - 1] == EQUALS, escFirst, i);
      assert 0 < i ==> maskEq[i - 1] == (src[at + (i - 1)] == EQUALS);
    }
  }

  /** Removes escaped bytes from the mask and adds each lane's offset. fixEqMask runs only when
      a masked byte follows a `=`. */
  method Unescape(src: seq<byte>, at: nat, specials: seq<bool>, escFirst: bv64, yencOffset: byte)
    returns (mask: seq<bool>, values: seq<byte>, nextEscFirst: bv64)
    requires at + BLOCK <= |src| && |specials| == BLOCK
    requires escFirst == 0 || escFirst == 1
    requires yencOffset == YencOffset(escFirst)
    requires forall i :: 0 <= i < BLOCK ==> EqLanes(src, at)[i] ==> specials[i]
    ensures Unescaped(src, at, specials, escFirst == 1, mask, values)
    ensures nextEscFirst == if Starters(EqLanes(src, at), escFirst == 1)[63] then 1 else 0
  {
    hide Unescaped, Starters;
    var maskEq := EqLanes(src, at);
    if exists i :: 0 <= i < BLOCK && specials[i] && EqBefore(maskEq, escFirst == 1, i) {
      mask, values, nextEscFirst := UnescapeRuns(src, at, specials, escFirst, yencOffset);
    } else {
      mask := specials;
      values, nextEscFirst := UnescapeApart(src, at, specials, escFirst, yencOffset);
    }
  }

  // ----- one block

  /** The kernel's registers between blocks, as the machine sees them. */
  ghost predicate InStep(entry: State, src: seq<byte>, at: nat, out: seq<byte>, escFirst: bv64, min: MinMask)
    requires at + 4 <= |src|
  {
    && (escFirst == 0 || escFirst == 1)
    && Run(entry, src, at).Live?
    && Run(entry, src, at).out == out
    && !Pending(Run(entry, src, at).state, src, at)
    && CarriedIn(Run(entry, src, at).state, src, at, min, escFirst == 1)
  }

  lemma BlockSteps(entry: State, src: seq<byte>, at: nat, out: seq<byte>, escFirst: bv64, min: MinMask,
      mask: seq<bool>, values: seq<byte>, nextEscFirst: bv64)
    requires at + BLOCK + 4 <= |src|
    requires InStep(entry, src, at, out, escFirst, min) && NoEndIn(src, at)
    requires BlockLanes(src, at, min, escFirst == 1, mask, values)
    requires nextEscFirst == if Starters(EqLanes(src, at), escFirst == 1)[63] then 1 else 0
    ensures InStep(entry, src, at + BLOCK, out + Unmasked(values, mask), nextEscFirst, DotsAfter(src, at + BLOCK))
  {
    hide AtLane, NoEndIn, CarriedIn, Run, Starters, Unmasked, Pending, EqLanes, DotsAfter, MaskedLane, LaneValue;
    InStepEntered(entry, src, at, out, escFirst, min);
    var q, carry := Run(entry, src, at).state, escFirst == 1;
    var r := LanesRun(entry, src, at, out, q, min, carry, mask, values, BLOCK);
    assert values[..BLOCK] == values && mask[..BLOCK] == mask;
    CarriedOut(r, q, src, at, carry);
  }

  lemma InStepEntered(entry: State, src: seq<byte>, at: nat, out: seq<byte>, escFirst: bv64, min: MinMask)
    requires at + 4 <= |src| && InStep(entry, src, at, out, escFirst, min)
    ensures Run(entry, src, at) == Live(out, Run(entry, src, at).state)
    ensures (escFirst == 1) == Escaping(Run(entry, src, at).state)
  {
  }

  lemma CarriedOut(r: State, q: State, src: seq<byte>, at: nat, carry: bool)
    requires at + BLOCK + 4 <= |src| && AtLane(r, q, src, at, carry, BLOCK)
    ensures !Pending(r, src, at + BLOCK)
    ensures CarriedIn(r, src, at + BLOCK, DotsAfter(src, at + BLOCK), Starters(EqLanes(src, at), carry)[63])
  {
  }

  lemma SpecialsOf(src: seq<byte>, at: nat, q: State, min: MinMask, carry: bool, specials: seq<bool>)
    requires at + BLOCK <= |src| && |specials| == BLOCK
    requires CarriedIn(q, src, at, min, carry)
    requires forall i :: 0 <= i < BLOCK ==> specials[i] == SpecialLane(src[at + i], min.At(i))
    ensures forall i :: 0 <= i < BLOCK ==> EqLanes(src, at)[i] ==> specials[i]
    ensures forall i :: 0 <= i < BLOCK ==>
      specials[i] == (IsSpecial(src[at + i]) || (i < 2 && DotLane(src, at, min, i)))
  {
    forall i | 0 <= i < BLOCK
      ensures specials[i] == (IsSpecial(src[at + i]) || (i < 2 && DotLane(src, at, min, i)))
    {
      SpecialLaneIsMembership(src[at + i]);
    }
  }

  /** Without a special other than `=`, no line starts in or right after the block, and no dot
      was announced to it. */
  lemma OnlyEquals(src: seq<byte>, at: nat, q: State, min: MinMask, carry: bool)
    requires at + BLOCK + 4 <= |src|
    requires CarriedIn(q, src, at, min, carry)
    requires forall i :: 0 <= i < BLOCK ==> SpecialLane(src[at + i], min.At(i)) ==> src[at + i] == EQUALS
    ensures NoEndIn(src, at) && min == NO_DOTS && DotsAfter(src, at + BLOCK) == NO_DOTS
    ensures forall i :: 0 <= i < BLOCK ==> !DotLane(src, at, min, i)
  {
    SpecialLaneIsMembership(src[at]);
    SpecialLaneIsMembership(src[at + 1]);
    assert SpecialLane(src[at + 0], min.At(0)) ==> src[at + 0] == EQUALS;
    assert SpecialLane(src[at + 1], min.At(1)) ==> src[at + 1] == EQUALS;
    forall j | at <= j < at + BLOCK
      ensures src[j] != CR
    {
      SpecialLaneIsMembership(src[j]);
      assert SpecialLane(src[at + (j - at)], min.At(j - at)) ==> src[at + (j - at)] == EQUALS;
    }
  }

  method AppendBlock(dest: array<byte>, base: nat, produced: nat, values: seq<byte>)
    requires |values| == BLOCK && base + produced + BLOCK <= dest.Length
    modifies dest
    ensures dest[base..base + produced + BLOCK] == old(dest[base..base + produced]) + values
    ensures forall k :: 0 <= k < dest.Length && !(base + produced <= k < base + produced + BLOCK) ==>
      dest[k] == old(dest[k])
  {
    ghost var out := dest[base..base + produced];
    Store64(dest, base + produced, values);
    Joined(dest, base, produced, BLOCK);
    assert dest[base..base + produced] == out;
  }

  /** No special byte in the block: every lane is stored as it is. */
  method DecodeOrdinary(dest: array<byte>, base: nat, src: seq<byte>, at: nat, produced: nat,
      escFirst: bv64, yencOffset: byte, min: MinMask, ghost entry: State)
    requires at + BLOCK + 4 <= |src| && produced <= at && base + |src| <= dest.Length
    requires InStep(entry, src, at, dest[base..base + produced], escFirst, min)
    requires yencOffset == YencOffset(escFirst)
    requires forall i :: 0 <= i < BLOCK ==> !SpecialLane(src[at + i], min.At(i))
    modifies dest
    ensures NoEndIn(src, at) && min == DotsAfter(src, at + BLOCK)
    ensures InStep(entry, src, at + BLOCK, dest[base..base + produced + BLOCK], 0, min)
    ensures forall k :: 0 <= k < dest.Length && !(base + produced <= k < base + produced + BLOCK) ==>
      dest[k] == old(dest[k])
  {
    ghost var out, q := dest[base..base + produced], Run(entry, src, at).state;
    InStepEsc(entry, src, at, out, escFirst, min);
    InStepCarried(entry, src, at, out, escFirst, min);
    hide InStep, CarriedIn, BlockLanes, Starters, NoEndIn, SpecialLane, Unmasked, DotsAfter, EqLanes, YencOffset, Run;
    ghost var mask := seq(BLOCK, _ => false);
    var values := seq(BLOCK, i requires 0 <= i < BLOCK => src[at + i] + LaneOffset(false, yencOffset, i));
    OrdinaryLanes(src, at, q, min, escFirst, values);
    BlockSteps(entry, src, at, out, escFirst, min, mask, values, 0);
    AllKept(values, mask);
    AppendBlock(dest, base, produced, values);
  }

  lemma OrdinaryLanes(src: seq<byte>, at: nat, q: State, min: MinMask, escFirst: bv64, values: seq<byte>)
    requires at + BLOCK + 4 <= |src| && |values| == BLOCK && (escFirst == 0 || escFirst == 1)
    requires CarriedIn(q, src, at, min, escFirst == 1)
    requires forall i :: 0 <= i < BLOCK ==> !SpecialLane(src[at + i], min.At(i))
    requires forall i :: 0 <= i < BLOCK ==> values[i] == src[at + i] + LaneOffset(false, YencOffset(escFirst), i)
    ensures NoEndIn(src, at) && min == NO_DOTS && DotsAfter(src, at + BLOCK) == NO_DOTS
    ensures BlockLanes(src, at, min, escFirst == 1, seq(BLOCK, _ => false), values)
    ensures !Starters(EqLanes(src, at), escFirst == 1)[63]
  {
    var carry := escFirst == 1;
    OnlyEquals(src, at, q, min, carry);
    forall j | at <= j < at + BLOCK
      ensures !IsSpecial(src[j])
    {
      SpecialLaneIsMembership(src[j]);
      assert !SpecialLane(src[at + (j - at)], min.At(j - at));
    }
    ApartAreStarters(EqLanes(src, at), carry);
    forall i | 0 <= i < BLOCK
      ensures values[i] == LaneValue(src[at + i], EscapedLane(src, at, carry, i))
      ensures !MaskedLane(src, at, min, EscapedLane(src, at, carry, i), i)
    {
      OffsetGivesValue(src[at + i], false, escFirst, i);
    }
  }

  lemma {:induction false} AllKept(values: seq<byte>, mask: seq<bool>)
    requires |values| == |mask| && forall i :: 0 <= i < |mask| ==> !mask[i]
    ensures Unmasked(values, mask) == values
  {
    if mask != [] {
      AllKept(values[1..], mask[1..]);
    }
  }

  // Two 32-byte stores.
  method Store64(dest: array<byte>, at: nat, values: seq<byte>)
    requires |values| == BLOCK && at + BLOCK <= dest.Length
    modifies dest
    ensures dest[at..at + BLOCK] == values
    ensures forall k :: 0 <= k < dest.Length && !(at <= k < at + BLOCK) ==> dest[k] == old(dest[k])
  {
    forall i | 0 <= i < BLOCK {
      dest[at + i] := values[i];
    }
  }

  /** Adds the dots to drop to the special bytes of a block, or finds a terminator in it. */
  method MarkDots(src: seq<byte>, at: nat, min: MinMask, specials: seq<bool>, ghost q: State, ghost carry: bool)
    returns (stop: bool, marked: seq<bool>, nMin: MinMask)
    requires at + BLOCK + 4 <= |src| && CarriedIn(q, src, at, min, carry)
    requires |specials| == BLOCK && forall i :: 0 <= i < BLOCK ==> specials[i] == SpecialLane(src[at + i], min.At(i))
    ensures stop ==> nMin == min && !NoEndIn(src, at)
    ensures !stop ==> NoEndIn(src, at) && nMin == DotsAfter(src, at + BLOCK) && |marked| == BLOCK
    ensures !stop ==> forall i :: 0 <= i < BLOCK ==> EqLanes(src, at)[i] ==> marked[i]
    ensures !stop ==> forall i :: 0 <= i < BLOCK ==>
      marked[i] == (IsSpecial(src[at + i]) || DotLane(src, at, min, i))
  {
    SpecialsOf(src, at, q, min, carry, specials);
    if specials == EqLanes(src, at) {
      OnlyEquals(src, at, q, min, carry);
      return false, specials, min;
    }
    hide SpecialLane, NewlineDot, NoEndIn;
    stop, marked, nMin := LineStarts(src, at, specials);
    if stop {
      nMin := min;
    }
  }

  /** The search, the unescaping and the compacting stores of a block with special bytes. */
  method DecodeSpecial(dest: array<byte>, base: nat, lut: array2<byte>, src: seq<byte>, at: nat, produced: nat,
      escFirst: bv64, yencOffset: byte, min: MinMask, specials: seq<bool>, ghost entry: State)
    returns (stop: bool, nProduced: nat, nEscFirst: bv64, nMin: MinMask)
    requires at + BLOCK + 4 <= |src| && produced <= at && base + |src| <= dest.Length
    requires CompactLut.IsCompactLut(lut)
    requires InStep(entry, src, at, dest[base..base + produced], escFirst, min)
    requires yencOffset == YencOffset(escFirst)
    requires |specials| == BLOCK && forall i :: 0 <= i < BLOCK ==> specials[i] == SpecialLane(src[at + i], min.At(i))
    modifies dest
    ensures CompactLut.IsCompactLut(lut)
    ensures stop <==> !NoEndIn(src, at)
    ensures stop ==> nProduced == produced && nEscFirst == escFirst && nMin == min && dest[..] == old(dest[..])
    ensures !stop ==> nProduced <= at + BLOCK && produced <= nProduced && nMin == DotsAfter(src, at + BLOCK)
    ensures !stop ==> InStep(entry, src, at + BLOCK, dest[base..base + nProduced], nEscFirst, nMin)
    ensures forall k :: 0 <= k < dest.Length && !(base + produced <= k < base + at + BLOCK) ==> dest[k] == old(dest[k])
  {
    ghost var out := dest[base..base + produced];
    nProduced, nEscFirst := produced, escFirst;
    InStepEsc(entry, src, at, out, escFirst, min);
    InStepCarried(entry, src, at, out, escFirst, min);
    hide InStep, CompactLut.IsCompactLut, SpecialLane, CarriedIn, NoEndIn, DotLane, Starters;
    var marked;
    stop, marked, nMin := MarkDots(src, at, min, specials, Run(entry, src, at).state, escFirst == 1);
    if stop {
      return;
    }
    var mask, values;
    mask, values, nEscFirst := Unescape(src, at, marked, escFirst, yencOffset);
    SpecialLanes(src, at, min, escFirst == 1, marked, mask, values);
    hide Unescaped, BlockLanes, Unmasked, IsSpecial, EqLanes;
    BlockSteps(entry, src, at, out, escFirst, min, mask, values, nEscFirst);
    nProduced := AppendCompacted(dest, base, lut, produced, values, mask);
  }

  method AppendCompacted(dest: array<byte>, base: nat, lut: array2<byte>, produced: nat, values: seq<byte>, mask: seq<bool>)
    returns (nProduced: nat)
    requires |mask| == |values| == BLOCK && base + produced + BLOCK <= dest.Length
    requires CompactLut.IsCompactLut(lut)
    modifies dest
    ensures CompactLut.IsCompactLut(lut)
    ensures produced <= nProduced <= produced + BLOCK
    ensures dest[base..base + nProduced] == old(dest[base..base + produced]) + Unmasked(values, mask)
    ensures forall k :: 0 <= k < dest.Length && !(base + produced <= k < base + produced + BLOCK) ==> dest[k] == old(dest[k])
  {
    hide CompactLut.IsCompactLut, Unmasked, Count;
    ghost var out := dest[base..base + produced];
    CompactLut.StoreCompacted(dest, base + produced, lut, values, mask);
    nProduced := produced + BLOCK - Count(mask);
    Joined(dest, base, produced, nProduced - produced);
    assert dest[base..base + produced] == out;
  }

  lemma SpecialLanes(src: seq<byte>, at: nat, min: MinMask, carry: bool, marked: seq<bool>, mask: seq<bool>, values: seq<byte>)
    requires at + BLOCK <= |src| && |marked| == BLOCK
    requires forall i :: 0 <= i < BLOCK ==> marked[i] == (IsSpecial(src[at + i]) || DotLane(src, at, min, i))
    requires Unescaped(src, at, marked, carry, mask, values)
    ensures BlockLanes(src, at, min, carry, mask, values)
  {
  }

  // ----- the kernel

  // minMask as the kernel sets it up from nextMask.
  function MinMaskOf(nextMask: nat): MinMask {
    if nextMask == 1 then MinMask(0, DOT) else if nextMask == 2 then MinMask(DOT, 0) else NO_DOTS
  }

  lemma DotsAreApart(src: seq<byte>, e: nat)
    requires 2 <= e && e + 2 <= |src|
    ensures DotsAfter(src, e)
      == MinMaskOf(if NewlineDot(src, e - 2) then 1 else if NewlineDot(src, e - 1) then 2 else 0)
  {
  }

  /** When a terminator stops the loop, nextMask is recovered from the block's first two lanes. */
  method NextMaskAtStop(src: seq<byte>, at: nat, specials: seq<bool>, ghost q: State, ghost min: MinMask, ghost carry: bool)
    returns (nextMask: nat)
    requires at + BLOCK + 4 <= |src| && CarriedIn(q, src, at, min, carry)
    requires |specials| == BLOCK && forall i :: 0 <= i < BLOCK ==> specials[i] == SpecialLane(src[at + i], min.At(i))
    ensures nextMask <= 2 && MinMaskOf(nextMask) == min
  {
    SpecialLaneIsMembership(src[at]);
    SpecialLaneIsMembership(src[at + 1]);
    assert specials[0] == SpecialLane(src[at + 0], min.At(0));
    assert specials[1] == SpecialLane(src[at + 1], min.At(1));
    if src[at] == DOT {
      nextMask := if specials[0] then 1 else 0;
    } else if src[at + 1] == DOT {
      nextMask := if specials[1] then 2 else 0;
    } else {
      nextMask := 0;
    }
  }

  /** Where the kernel stops: at the first block in which a terminator starts, or where there is no
      whole block with four bytes behind it. */
  ghost predicate StopsAt(src: seq<byte>, consumed: nat) {
    && consumed % BLOCK == 0 && consumed + 4 <= |src|
    && NoEndBefore(src, consumed)
    && (|src| < consumed + BLOCK + 4 || !NoEndIn(src, consumed))
  }

  ghost predicate NoEndBefore(src: seq<byte>, n: nat)
    requires n + 4 <= |src|
  {
    forall j :: 0 <= j < n ==> !EndsAt(src, j)
  }

  /** nextMask as it will be after the last block, which ends at e. */
  method NextMaskAtEnd(src: seq<byte>, nextMaskIn: nat) returns (nextMask: nat, ghost e: nat)
    requires 4 <= |src| && nextMaskIn <= 2
    ensures nextMask <= 2 && e % BLOCK == 0 && e + 4 <= |src| < e + BLOCK + 4
    ensures MinMaskOf(nextMask) == if e == 0 then MinMaskOf(nextMaskIn) else DotsAfter(src, e)
  {
    var n, blocks := |src|, 0;
    nextMask, e := nextMaskIn, 0;
    if n >= 68 {
      blocks := (n - 4) / 64;
    }
    if blocks > 0 {
      e := 64 * blocks;
      DotsAreApart(src, e);
      nextMask := if NewlineDot(src, 64 * blocks - 2) then 1 else if NewlineDot(src, 64 * blocks - 1) then 2 else 0;
    }
  }

  // Another block without an end.
  lemma NoEndNext(src: seq<byte>, at: nat)
    requires at + BLOCK + 4 <= |src| && NoEndBefore(src, at) && NoEndIn(src, at)
    ensures NoEndBefore(src, at + BLOCK)
  {
  }

  /** decodeSIMDAVX2: consumes whole blocks, up to one that a terminator starts in or the last
      four bytes, and hands the rest over in step with the machine. */
  method DecodeBlocks(dest: array<byte>, base: nat, lut: array2<byte>, src: seq<byte>,
      escFirstIn: bv64, nextMaskIn: nat, ghost entry: State)
    returns (consumed: nat, produced: nat, escFirst: bv64, nextMask: nat)
    requires 4 <= |src| && base + |src| <= dest.Length
    requires CompactLut.IsCompactLut(lut)
    requires nextMaskIn <= 2 && InStep(entry, src, 0, [], escFirstIn, MinMaskOf(nextMaskIn))
    modifies dest
    ensures StopsAt(src, consumed) && produced <= consumed && nextMask <= 2
    ensures InStep(entry, src, consumed, dest[base..base + produced], escFirst, MinMaskOf(nextMask))
    ensures forall k :: 0 <= k < dest.Length && !(base <= k < base + consumed) ==> dest[k] == old(dest[k])
    ensures CompactLut.IsCompactLut(lut)
  {
    hide InStep, CompactLut.IsCompactLut, SpecialLane, MinMaskOf, DotsAfter, NoEndIn, NoEndBefore;
    var n := |src|;
    consumed, produced, escFirst := 0, 0, escFirstIn;
    var min := MinMaskOf(nextMaskIn);
    ghost var e;
    nextMask, e := NextMaskAtEnd(src, nextMaskIn);
    NoneBefore(src);
    InStepEsc(entry, src, 0, [], escFirst, min);
    var yencOffset := YencOffset(escFirst);
    assert dest[base..base] == [];
    while consumed + 68 <= n
      invariant consumed + 4 <= n && consumed % 64 == 0 && consumed <= e
      invariant produced <= consumed && NoEndBefore(src, consumed)
      invariant InStep(entry, src, consumed, dest[base..base + produced], escFirst, min)
      invariant yencOffset == YencOffset(escFirst)
      invariant if consumed == 0 then min == MinMaskOf(nextMaskIn) else min == DotsAfter(src, consumed)
      invariant forall k :: 0 <= k < dest.Length && !(base <= k < base + consumed) ==> dest[k] == old(dest[k])
      invariant CompactLut.IsCompactLut(lut)
    {
      var specials := seq(BLOCK, i requires 0 <= i < BLOCK => SpecialLane(src[consumed + i], min.At(i)));
      if forall i :: 0 <= i < BLOCK ==> !specials[i] {
        NoneSpecial(src, consumed, min, specials);
        DecodeOrdinary(dest, base, src, consumed, produced, escFirst, yencOffset, min, entry);
        produced, escFirst := produced + BLOCK, 0;
      } else {
        var stop;
        label block:
        stop, produced, escFirst, min :=
          DecodeSpecial(dest, base, lut, src, consumed, produced, escFirst, yencOffset, min, specials, entry);
        if stop {
          assert dest[base..base + produced] == old@block(dest[base..base + produced]);
          InStepCarried(entry, src, consumed, dest[base..base + produced], escFirst, min);
          nextMask := NextMaskAtStop(src, consumed, specials, Run(entry, src, consumed).state, min, escFirst == 1);
          return;
        }
      }
      NoEndNext(src, consumed);
      yencOffset := YencOffset(escFirst);
      consumed := consumed + 64;
    }
  }

  lemma NoneBefore(src: seq<byte>)
    requires 4 <= |src|
    ensures NoEndBefore(src, 0)
  {
  }

  lemma InStepEsc(entry: State, src: seq<byte>, at: nat, out: seq<byte>, escFirst: bv64, min: MinMask)
    requires at + 4 <= |src| && InStep(entry, src, at, out, escFirst, min)
    ensures escFirst == 0 || escFirst == 1
  {
  }

  lemma InStepCarried(entry: State, src: seq<byte>, at: nat, out: seq<byte>, escFirst: bv64, min: MinMask)
    requires at + 4 <= |src| && InStep(entry, src, at, out, escFirst, min)
    ensures CarriedIn(Run(entry, src, at).state, src, at, min, escFirst == 1)
  {
  }

  lemma NoneSpecial(src: seq<byte>, at: nat, min: MinMask, specials: seq<bool>)
    requires at + BLOCK <= |src| && |specials| == BLOCK
    requires forall i :: 0 <= i < BLOCK ==> specials[i] == SpecialLane(src[at + i], min.At(i))
    requires forall i :: 0 <= i < BLOCK ==> !specials[i]
    ensures forall i :: 0 <= i < BLOCK ==> !SpecialLane(src[at + i], min.At(i))
  {
  }
}
