/** The AVX2 encoder's tables, and the two ways it expands a vector with them. */
module ExpandTables {
  import opened Bytes
  import opened BitMasks
  import opened ColumnEncoder
  import opened Expansion

  const ROWS := 65536
  const WIDE := 32
  const MARK: byte := 0xFF
  const PAD: byte := 0x40

  // ----- shufExpand

  /** The shuffle that makes room for an escape character before every flagged lane. */
  function IndexRun(indices: seq<byte>, flags: seq<bool>): (run: seq<byte>)
    requires |indices| == |flags|
    ensures |run| == |flags| + Count(flags)
  {
    if flags == [] then []
    else (if flags[0] then [MARK, indices[0]] else [indices[0]]) + IndexRun(indices[1..], flags[1..])
  }

  lemma {:induction false} IndexRunPush(indices: seq<byte>, flags: seq<bool>, index: byte, flag: bool)
    requires |indices| == |flags|
    ensures IndexRun(indices + [index], flags + [flag])
      == IndexRun(indices, flags) + (if flag then [MARK, index] else [index])
  {
    if flags != [] {
      assert (indices + [index])[1..] == indices[1..] + [index] && (flags + [flag])[1..] == flags[1..] + [flag];
      IndexRunPush(indices[1..], flags[1..], index, flag);
    }
  }

  function ExpandRow(flags: seq<bool>): (row: seq<byte>)
    requires |flags| == LANES
    ensures |row| == WIDE
  {
    IndexRun(IOTA, flags) + seq(LANES - Count(flags), _ => PAD)
  }

  ghost predicate IsExpandLut(lut: array2<byte>)
    reads lut
  {
    && lut.Length0 == ROWS && lut.Length1 == WIDE
    && forall i, j :: 0 <= i < ROWS && 0 <= j < WIDE ==> lut[i, j] == ExpandRow(IndexLanes(i, LANES))[j]
  }

  // What a row holds once its first j lanes have been placed.
  ghost function Placed(flags: seq<bool>, j: nat): seq<byte>
    requires |flags| == LANES && j <= LANES
  {
    IndexRun(IOTA[..j], flags[..j])
  }

  lemma PlacedNext(flags: seq<bool>, j: nat)
    requires |flags| == LANES && j < LANES
    ensures Placed(flags, j + 1) == Placed(flags, j) + (if flags[j] then [MARK, j as byte] else [j as byte])
  {
    assert flags[..j + 1] == flags[..j] + [flags[j]] && IOTA[..j + 1] == IOTA[..j] + [IOTA[j]];
    IndexRunPush(IOTA[..j], flags[..j], IOTA[j], flags[j]);
    IotaAt(j);
  }

  lemma PlacedEnds(flags: seq<bool>)
    requires |flags| == LANES
    ensures Placed(flags, 0) == [] && flags[0..] == flags
    ensures ExpandRow(flags) == Placed(flags, LANES) + seq(WIDE - |Placed(flags, LANES)|, _ => PAD)
    ensures LANES <= |Placed(flags, LANES)| <= WIDE
  {
    assert flags[..LANES] == flags && IOTA[..LANES] == IOTA;
  }

  method FillRow(i: nat) returns (res: array<byte>)
    requires i < ROWS
    ensures fresh(res) && res[..] == ExpandRow(IndexLanes(i, LANES))
  {
    res := new byte[WIDE];
    var k, p := i, 0;
    ghost var flags := IndexLanes(i, LANES);
    PlacedEnds(flags);
    hide IndexLanes, Placed, ExpandRow;
    assert res[..0] == [];
    for j := 0 to LANES
      invariant IndexLanes(k, LANES - j) == flags[j..]
      invariant 0 <= p <= j && res[..j + p] == Placed(flags, j)
    {
      IndexLanesPop(k, flags, j);
      PlacedNext(flags, j);
      p := PlaceLane(res, j, p, k % 2 != 0);
      k := k / 2;
    }
    PadRow(res, p);
  }

  // Lane j, after its marker if it is flagged.
  method PlaceLane(res: array<byte>, j: nat, marked: nat, flag: bool) returns (p: nat)
    requires j < LANES && j + marked + 1 < res.Length
    modifies res
    ensures p == marked + if flag then 1 else 0
    ensures res[..j + 1 + p] == old(res[..j + marked]) + (if flag then [MARK, j as byte] else [j as byte])
  {
    p := marked;
    if flag {
      res[j + p] := MARK;
      p := p + 1;
    }
    res[j + p] := j as byte;
  }

  method PadRow(res: array<byte>, placed: nat)
    requires res.Length == WIDE && placed <= LANES
    modifies res
    ensures res[..] == old(res[..LANES + placed]) + seq(LANES - placed, _ => PAD)
  {
    var p := placed;
    while p < LANES
      invariant placed <= p <= LANES
      invariant res[..LANES + p] == old(res[..LANES + placed]) + seq(p - placed, _ => PAD)
    {
      res[LANES + p] := PAD;
      p := p + 1;
    }
    assert res[..] == res[..WIDE];
  }

  /** initAVX2Encoder's expansion table. */
  method BuildExpandLut() returns (lut: array2<byte>)
    ensures fresh(lut) && IsExpandLut(lut)
  {
    lut := new byte[ROWS, WIDE];
    for i := 0 to ROWS
      invariant forall r, j :: 0 <= r < i && 0 <= j < WIDE ==> lut[r, j] == ExpandRow(IndexLanes(r, LANES))[j]
    {
      var res := FillRow(i);
      forall j | 0 <= j < WIDE {
        lut[i, j] := res[j];
      }
      assert forall j :: 0 <= j < WIDE ==> lut[i, j] == res[..][j];
    }
  }

  // ----- the shuffle of a quarter

  // Offsets already added, +106 in flagged lanes and +42 elsewhere.
  function Offset(data: seq<byte>, flags: seq<bool>): (half: seq<byte>)
    requires |data| == |flags|
    ensures |half| == |data|
    ensures forall i :: 0 <= i < |data| ==> half[i] == data[i] + (if flags[i] then ESCAPED_SHIFT else SHIFT)
  {
    seq(|data|, i requires 0 <= i < |data| => data[i] + (if flags[i] then ESCAPED_SHIFT else SHIFT))
  }

  lemma PicksThen(half: seq<byte>, a: seq<byte>, b: seq<byte>)
    requires |half| == LANES
    ensures Picks(half, a + b, EQUALS) == Picks(half, a, EQUALS) + Picks(half, b, EQUALS)
  {
    hide Pick;
  }

  lemma {:induction false} PicksExpand(half: seq<byte>, indices: seq<byte>, data: seq<byte>, flags: seq<bool>)
    requires |half| == LANES && |indices| == |data| == |flags|
    requires forall i :: 0 <= i < |indices| ==>
      Pick(half, indices[i], EQUALS) == data[i] + (if flags[i] then ESCAPED_SHIFT else SHIFT)
    ensures Picks(half, IndexRun(indices, flags), EQUALS) == Expand(data, flags)
  {
    if flags != [] {
      var rest := IndexRun(indices[1..], flags[1..]);
      PicksExpand(half, indices[1..], data[1..], flags[1..]);
      assert Pick(half, indices[0], EQUALS) == data[0] + (if flags[0] then ESCAPED_SHIFT else SHIFT);
      assert Pick(half, MARK, EQUALS) == EQUALS;
      hide Pick;
      PicksThen(half, if flags[0] then [MARK, indices[0]] else [indices[0]], rest);
    }
  }

  lemma PickIota(half: seq<byte>, i: nat)
    requires |half| == LANES && i < LANES
    ensures Pick(half, IOTA[i], EQUALS) == half[i]
  {
  }

  lemma RowExpands(data: seq<byte>, flags: seq<bool>)
    requires |data| == |flags| == LANES
    ensures Picks(Offset(data, flags), ExpandRow(flags), EQUALS)[..LANES + Count(flags)] == Expand(data, flags)
  {
    var half := Offset(data, flags);
    forall i | 0 <= i < LANES
      ensures Pick(half, IOTA[i], EQUALS) == data[i] + (if flags[i] then ESCAPED_SHIFT else SHIFT)
    {
      PickIota(half, i);
    }
    PicksExpand(half, IOTA, data, flags);
    assert ExpandRow(flags)[..LANES + Count(flags)] == IndexRun(IOTA, flags);
    assert Picks(half, ExpandRow(flags), EQUALS)[..LANES + Count(flags)] == Picks(half, IndexRun(IOTA, flags), EQUALS);
  }

  // signMask: the lanes whose index has its sign bit set.
  function SignLanes(row: seq<byte>): (signs: seq<bool>)
    ensures |signs| == |row|
    ensures forall i :: 0 <= i < |row| ==> signs[i] == (row[i] & 0x80 != 0)
  {
    seq(|row|, i requires 0 <= i < |row| => row[i] & 0x80 != 0)
  }

  lemma {:induction false} RunSigns(indices: seq<byte>, flags: seq<bool>)
    requires |indices| == |flags|
    requires forall i :: 0 <= i < |indices| ==> indices[i] & 0x80 == 0
    ensures SignLanes(IndexRun(indices, flags)) == Marks(flags)
  {
    if flags != [] {
      assert indices[0] & 0x80 == 0;
      RunSigns(indices[1..], flags[1..]);
      assert SignLanes(IndexRun(indices, flags))
          == (if flags[0] then [true, false] else [false]) + SignLanes(IndexRun(indices[1..], flags[1..]));
    }
  }

  lemma RowSigns(flags: seq<bool>)
    requires |flags| == LANES
    ensures SignLanes(ExpandRow(flags)) == Marks(flags) + Clear(LANES - Count(flags))
  {
    forall i | 0 <= i < LANES
      ensures IOTA[i] & 0x80 == 0
    {
    }
    RunSigns(IOTA, flags);
    SignsConcat(IndexRun(IOTA, flags), LANES - Count(flags));
  }

  lemma SignsConcat(run: seq<byte>, n: nat)
    ensures SignLanes(run + seq(n, _ => PAD)) == SignLanes(run) + Clear(n)
  {
  }

  // ----- the slow path's stores

  method LoadRow(lut: array2<byte>, flags: seq<bool>) returns (row: seq<byte>)
    requires IsExpandLut(lut) && |flags| == LANES
    ensures row == ExpandRow(flags)
  {
    IndexBound(flags);
    assert PowerOfTwo(15) == 32768 && PowerOfTwo(16) == 2 * PowerOfTwo(15);
    IndexLanesOfIndex(flags, LANES);
    assert flags + seq(0, _ => false) == flags;
    var index := IndexOf(flags);
    row := seq(WIDE, j requires 0 <= j < WIDE reads lut => lut[index, j]);
  }

  method Store32(dest: array<byte>, at: nat, lanes: seq<byte>)
    requires |lanes| == WIDE && at + WIDE <= dest.Length
    modifies dest
    ensures dest[at..at + WIDE] == lanes
    ensures forall k :: 0 <= k < dest.Length && !(at <= k < at + WIDE) ==> dest[k] == old(dest[k])
  {
    forall i | 0 <= i < WIDE {
      dest[at + i] := lanes[i];
    }
  }

  /** Sixteen lanes: 32 bytes are stored, the expansion first. signs marks its escape characters. */
  method StoreQuarter(dest: array<byte>, at: nat, lut: array2<byte>, data: seq<byte>, flags: seq<bool>)
    returns (signs: seq<bool>)
    requires |data| == |flags| == LANES && at + WIDE <= dest.Length
    requires IsExpandLut(lut)
    modifies dest
    ensures IsExpandLut(lut)
    ensures dest[at..at + LANES + Count(flags)] == Expand(data, flags)
    ensures forall k :: 0 <= k < dest.Length && !(at <= k < at + WIDE) ==> dest[k] == old(dest[k])
    ensures signs == Marks(flags) + Clear(LANES - Count(flags))
  {
    var row := LoadRow(lut, flags);
    hide IsExpandLut, Count, ExpandRow, Expand, Marks, Clear;
    RowExpands(data, flags);
    RowSigns(flags);
    Store32(dest, at, Picks(Offset(data, flags), row, EQUALS));
    assert dest[at..at + LANES + Count(flags)] == dest[at..at + WIDE][..LANES + Count(flags)];
    signs := SignLanes(row);
  }

  /** Two quarters, the second over the first one's padding. */
  method StoreHalf(dest: array<byte>, at: nat, lut: array2<byte>, data: seq<byte>, flags: seq<bool>)
    returns (low: seq<bool>, high: seq<bool>)
    requires |data| == |flags| == 32 && at + 64 <= dest.Length
    requires IsExpandLut(lut)
    modifies dest
    ensures IsExpandLut(lut)
    ensures dest[at..at + 32 + Count(flags)] == Expand(data, flags)
    ensures forall k :: 0 <= k < dest.Length && !(at <= k < at + 64) ==> dest[k] == old(dest[k])
    ensures low == Marks(flags[..16]) + Clear(16 - Count(flags[..16]))
    ensures high == Marks(flags[16..]) + Clear(16 - Count(flags[16..]))
  {
    hide IsExpandLut, Count, Expand, Marks, Clear;
    assert data == data[..16] + data[16..] && flags == flags[..16] + flags[16..];
    ExpandConcat(data[..16], data[16..], flags[..16], flags[16..]);
    CountConcat(flags[..16], flags[16..]);
    var len := 16 + Count(flags[..16]);
    low := StoreQuarter(dest, at, lut, data[..16], flags[..16]);
    ghost var front := dest[at..at + len];
    high := StoreQuarter(dest, at + len, lut, data[16..], flags[16..]);
    var end := at + len + 16 + Count(flags[16..]);
    assert dest[at..end] == dest[at..at + len] + dest[at + len..end];
    assert dest[at..at + len] == front;
  }

  /** The four stores of a batch leave its expansion in place, and touch at most 128 bytes. */
  method StoreExpanded(dest: array<byte>, at: nat, lut: array2<byte>, data: seq<byte>, flags: seq<bool>)
    returns (lowA: seq<bool>, highA: seq<bool>, lowB: seq<bool>, highB: seq<bool>)
    requires |data| == |flags| == 64 && at + 128 <= dest.Length
    requires IsExpandLut(lut)
    modifies dest
    ensures IsExpandLut(lut)
    ensures dest[at..at + 64 + Count(flags)] == Expand(data, flags)
    ensures forall k :: 0 <= k < dest.Length && !(at <= k < at + 128) ==> dest[k] == old(dest[k])
    ensures lowA == Marks(flags[..16]) + Clear(16 - Count(flags[..16]))
    ensures highA == Marks(flags[16..32]) + Clear(16 - Count(flags[16..32]))
    ensures lowB == Marks(flags[32..48]) + Clear(16 - Count(flags[32..48]))
    ensures highB == Marks(flags[48..]) + Clear(16 - Count(flags[48..]))
  {
    hide IsExpandLut, Count, Expand, Marks, Clear;
    var dataA, dataB, maskA, maskB := data[..32], data[32..], flags[..32], flags[32..];
    assert data == dataA + dataB && flags == maskA + maskB;
    assert maskA[..16] == flags[..16] && maskA[16..] == flags[16..32];
    assert maskB[..16] == flags[32..48] && maskB[16..] == flags[48..];
    ExpandConcat(dataA, dataB, maskA, maskB);
    CountConcat(maskA, maskB);
    var outputBytesA := 32 + Count(maskA);
    lowA, highA := StoreHalf(dest, at, lut, dataA, maskA);
    ghost var front := dest[at..at + outputBytesA];
    lowB, highB := StoreHalf(dest, at + outputBytesA, lut, dataB, maskB);
    var end := at + outputBytesA + 32 + Count(maskB);
    assert dest[at..end] == dest[at..at + outputBytesA] + dest[at + outputBytesA..end];
    assert dest[at..at + outputBytesA] == front;
  }

  // eqMask: two 32-lane masks in a 64-bit word, the second shifted up by n.
  function EqMask(low: seq<bool>, high: seq<bool>, n: nat): (word: seq<bool>)
    requires |low| == |high| == WIDE
    ensures |word| == 64
  {
    seq(64, i requires 0 <= i < 64 => (i < 32 && low[i]) || (n <= i < n + 32 && high[i - n]))
  }

  lemma EqMaskJoins(low: seq<bool>, high: seq<bool>, a: seq<bool>, b: seq<bool>)
    requires |a| <= WIDE && |b| <= WIDE
    requires low == a + Clear(WIDE - |a|) && high == b + Clear(WIDE - |b|)
    ensures EqMask(low, high, |a|) == a + b + Clear(64 - |a| - |b|)
  {
    var word := EqMask(low, high, |a|);
    forall i | 0 <= i < 64
      ensures word[i] == (a + b + Clear(64 - |a| - |b|))[i]
    {
    }
  }

  /** The word holds the marks of both quarters, end to end. */
  lemma EqMaskIsMarks(f: seq<bool>, g: seq<bool>, low: seq<bool>, high: seq<bool>)
    requires |f| == |g| == LANES
    requires low == Marks(f) + Clear(LANES - Count(f)) && high == Marks(g) + Clear(LANES - Count(g))
    ensures EqMask(low, high, LANES + Count(f)) == Marks(f + g) + Clear(32 - Count(f + g))
  {
    CountConcat(f, g);
    MarksConcat(f, g);
    EqMaskJoins(low, high, Marks(f), Marks(g));
  }

  // ----- the fast path's store

  // expandMergemix, whose rows depend on where the escape is: z clear lanes below the top.
  function EscapeLane(z: nat): nat {
    if z >= 32 then 32 else 31 - z
  }

  predicate KeepsLane(z: nat, j: nat) { EscapeLane(z) >= j }

  function MergeAdd(z: nat, j: nat): byte {
    if EscapeLane(z) == j then EQUALS else if EscapeLane(z) + 1 == j then ESCAPED_SHIFT else SHIFT
  }

  // One lane: the byte itself up to the escape, cleared there, and the byte before it beyond.
  function FastLane(src: seq<byte>, q: nat, flags: seq<bool>, z: nat, j: nat): byte
    requires 1 <= q && q + 32 <= |src| && |flags| == 32 && j < 32
  {
    (if KeepsLane(z, j) then if flags[j] then 0 else src[q + j] else src[q + j - 1]) + MergeAdd(z, j)
  }

  // The byte past the vector.
  function Spill(src: seq<byte>, q: nat, flags: seq<bool>): byte
    requires q + 32 <= |src| && |flags| == 32
  {
    src[q + 31] + 42 + (if flags[31] then 64 else 0)
  }

  /** Merging in the shifted bytes and adding the row expands a vector with at most one escape. */
  lemma FastExpands(src: seq<byte>, q: nat, flags: seq<bool>, t: nat)
    requires 1 <= q && q + 32 <= |src| && |flags| == 32
    requires Count(flags) <= 1 && t < 32 + Count(flags)
    ensures Expand(src[q..q + 32], flags)[t]
      == if t < 32 then FastLane(src, q, flags, LeadingZeros(flags), t) else Spill(src, q, flags)
  {
    OneFlag(flags);
    var z := LeadingZeros(flags);
    hide LeadingZeros, Count, Expand, FastLane, Clear;
    if z == 32 {
      FastExpandsNone(src, q, flags, t);
    } else {
      FastExpandsOne(src, q, flags, 31 - z, t);
    }
  }

  lemma FastExpandsNone(src: seq<byte>, q: nat, flags: seq<bool>, t: nat)
    requires 1 <= q && q + 32 <= |src| && |flags| == 32 && t < 32
    requires Count(flags) == 0
    ensures Expand(src[q..q + 32], flags)[t] == FastLane(src, q, flags, 32, t)
  {
    hide Count, Expand;
    NoFlagExpand(src[q..q + 32], flags, t);
  }

  lemma {:induction false} NoFlagExpand(data: seq<byte>, flags: seq<bool>, t: nat)
    requires |data| == |flags| && Count(flags) == 0 && t < |data|
    ensures Expand(data, flags)[t] == data[t] + SHIFT && !flags[t]
  {
    if t > 0 {
      NoFlagExpand(data[1..], flags[1..], t - 1);
    }
  }

  lemma FastExpandsOne(src: seq<byte>, q: nat, flags: seq<bool>, p: nat, t: nat)
    requires 1 <= q && q + 32 <= |src| && p < 32 && t <= 32
    requires flags == Clear(p) + [true] + Clear(31 - p)
    ensures |Expand(src[q..q + 32], flags)| == 33
    ensures Expand(src[q..q + 32], flags)[t]
      == if t < 32 then FastLane(src, q, flags, 31 - p, t) else Spill(src, q, flags)
  {
    FlaggedLane(flags, p, 31 - p);
    hide Count, Expand, Clear;
    ExpandOne(src[q..q + 32], p, t);
  }

  lemma FlaggedLane(flags: seq<bool>, p: nat, z: nat)
    requires flags == Clear(p) + [true] + Clear(z)
    ensures forall j :: 0 <= j < |flags| ==> flags[j] == (j == p)
  {
  }

  /** A vector with at most one escape: 32 bytes and the one that spills past them. */
  method StoreFast(dest: array<byte>, at: nat, src: seq<byte>, q: nat, flags: seq<bool>)
    requires 1 <= q && q + 32 <= |src| && |flags| == 32 && Count(flags) <= 1
    requires at + 33 <= dest.Length
    modifies dest
    ensures dest[at..at + 32 + Count(flags)] == Expand(src[q..q + 32], flags)
    ensures forall k :: 0 <= k < dest.Length && !(at <= k < at + 33) ==> dest[k] == old(dest[k])
  {
    hide Count, Expand, LeadingZeros, FastLane;
    var z := LeadingZeros(flags);
    Store32(dest, at, seq(32, j requires 0 <= j < 32 => FastLane(src, q, flags, z, j)));
    ghost var lanes := dest[at..at + 32];
    dest[at + 32] := Spill(src, q, flags);
    ghost var stored, wanted := dest[at..at + 32 + Count(flags)], Expand(src[q..q + 32], flags);
    forall t | 0 <= t < |wanted|
      ensures stored[t] == wanted[t]
    {
      FastExpands(src, q, flags, t);
      assert t < 32 ==> stored[t] == lanes[t];
    }
  }

  // ----- the end of a line

  // eolLastChar: the last byte's encoding and the break, in one word.
  function EolLastChar(c: byte): bv32 {
    if IsCriticalLast(c) then (((c + ESCAPED_SHIFT) as bv32) << 8) + 0x0A0D003D
    else (c + SHIFT) as bv32 + 0x0A0D00
  }

  function EolBytes(v: bv32): seq<byte> {
    [(v & 0xFF) as byte, ((v >> 8) & 0xFF) as byte, ((v >> 16) & 0xFF) as byte, (v >> 24) as byte]
  }

  lemma EolEscaped(c: byte)
    requires IsCriticalLast(c)
    ensures EolLastChar(c) >> 27 == 1
    ensures EolBytes(EolLastChar(c)) == [EQUALS, c + ESCAPED_SHIFT, CR, LF]
  {
  }

  lemma EolPlain(c: byte)
    requires !IsCriticalLast(c)
    ensures EolLastChar(c) >> 27 == 0
    ensures EolBytes(EolLastChar(c)) == [c + SHIFT, CR, LF, 0]
  {
  }

  // Written as a 4-byte store; bit 27, set by the last LF of the long form, gives the width.
  method StoreEol(dest: array<byte>, at: nat, c: byte) returns (k: nat)
    requires at + 4 <= dest.Length
    modifies dest
    ensures k == |Last(c)| + 2 && dest[at..at + k] == Last(c) + NEWLINE
    ensures forall i :: 0 <= i < dest.Length && !(at <= i < at + 4) ==> dest[i] == old(dest[i])
  {
    var v := EolLastChar(c);
    if IsCriticalLast(c) {
      EolEscaped(c);
    } else {
      EolPlain(c);
    }
    var bytes := EolBytes(v);
    dest[at] := bytes[0];
    dest[at + 1] := bytes[1];
    dest[at + 2] := bytes[2];
    dest[at + 3] := bytes[3];
    k := 3 + (v >> 27) as int;
    assert dest[at..at + 4] == bytes;
    assert dest[at..at + k] == bytes[..k];
  }

  // ----- the search for bytes to escape

  // The absolute value of a lane read as a signed byte; -128 is its own.
  function Abs(c: byte): byte { if c & 0x80 != 0 then 0 - c else c }

  // AddSaturated(88): only the first lane of a line gets it.
  function AddFirst(c: byte): byte {
    if c & 0x80 == 0 && (c + 88) & 0x80 != 0 then 0x7F else c + 88
  }

  // encoderSpecialLUT
  const SPECIAL_LUT: seq<byte> := [
    LF - 42, 214, SPACE - 42, EQUALS - 42, 214, CR - 42, 214, 214,
    LF - 42, TAB - 42, NUL - 42, EQUALS - 42, DOT - 42, CR - 42, 214, NUL - 42
  ]

  function SpecialLut(index: byte): byte {
    if index & 0x80 != 0 then 0 else SPECIAL_LUT[(index & 0x0F) as int]
  }

  predicate EscapeFlag(c: byte, first: bool) {
    c == SpecialLut(if first then AddFirst(Abs(c)) else Abs(c))
  }

  /** One table, indexed by magnitude, finds the bytes to escape inside a line, and with the
      index moved up the longer list for a line's first byte. */
  lemma EscapeFlagIsMembership(c: byte)
    ensures EscapeFlag(c, false) <==> IsCritical(c)
    ensures EscapeFlag(c, true) <==> IsCriticalFirst(c)
  {
  }
}
