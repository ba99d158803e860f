/** compactLUT and the compacting stores: dropping the masked bytes of a block with one table
    shuffle and one 16-byte store a quarter. */
module CompactLut {
  import opened Bytes
  import opened BitMasks

  const ROWS := 32768
  const DROP: byte := 0x80

  // ----- the table

  /** The row of a mask: the numbers of its clear lanes, then the dropping index. */
  function CompactRow(mask: seq<bool>): (row: seq<byte>)
    requires |mask| == LANES
    ensures |row| == LANES
  {
    Unmasked(IOTA, mask) + seq(Count(mask), _ => DROP)
  }

  ghost predicate IsCompactLut(lut: array2<byte>)
    reads lut
  {
    && lut.Length0 == ROWS && lut.Length1 == LANES
    && forall i, j :: 0 <= i < ROWS && 0 <= j < LANES ==> lut[i, j] == CompactRow(IndexLanes(i, LANES))[j]
  }

  // What a row holds once its first j lanes have been looked at.
  ghost function Kept(mask: seq<bool>, j: nat): seq<byte>
    requires |mask| == LANES && j <= LANES
  {
    Unmasked(IOTA[..j], mask[..j])
  }

  lemma KeptNext(mask: seq<bool>, j: nat)
    requires |mask| == LANES && j < LANES
    ensures Kept(mask, j + 1) == Kept(mask, j) + (if mask[j] then [] else [j as byte])
    ensures |Kept(mask, j)| <= j
  {
    assert mask[..j + 1] == mask[..j] + [mask[j]];
    assert IOTA[..j + 1] == IOTA[..j] + [IOTA[j]];
    UnmaskedConcat(IOTA[..j], [IOTA[j]], mask[..j], [mask[j]]);
    IotaAt(j);
  }

  lemma KeptAll(mask: seq<bool>)
    requires |mask| == LANES
    ensures CompactRow(mask) == Kept(mask, LANES) + seq(LANES - |Kept(mask, LANES)|, _ => DROP)
  {
    assert mask[..LANES] == mask && IOTA[..LANES] == IOTA;
  }

  method FillRow(lut: array2<byte>, i: nat)
    requires lut.Length0 == ROWS && lut.Length1 == LANES && i < ROWS
    modifies lut
    ensures forall j :: 0 <= j < LANES ==> lut[i, j] == CompactRow(IndexLanes(i, LANES))[j]
    ensures forall r, j :: 0 <= r < ROWS && r != i && 0 <= j < LANES ==> lut[r, j] == old(lut[r, j])
  {
    var k, p := i, 0;
    ghost var mask := IndexLanes(i, LANES);
    hide IndexLanes, Kept, CompactRow;
    KeptNone(mask);
    for j := 0 to LANES
      invariant IndexLanes(k, LANES - j) == mask[j..]
      invariant p == |Kept(mask, j)| <= j
      invariant forall t :: 0 <= t < p ==> lut[i, t] == Kept(mask, j)[t]
      invariant forall r, t :: 0 <= r < ROWS && r != i && 0 <= t < LANES ==> lut[r, t] == old(lut[r, t])
    {
      IndexLanesPop(k, mask, j);
      KeptNext(mask, j);
      if k % 2 == 0 {
        lut[i, p] := j as byte;
        p := p + 1;
      }
      k := k / 2;
    }
    KeptAll(mask);
    PadRow(lut, i, p, Kept(mask, LANES));
  }

  method PadRow(lut: array2<byte>, i: nat, from: nat, ghost kept: seq<byte>)
    requires lut.Length0 == ROWS && lut.Length1 == LANES && i < ROWS && from == |kept| <= LANES
    requires forall t :: 0 <= t < from ==> lut[i, t] == kept[t]
    modifies lut
    ensures forall t :: 0 <= t < LANES ==> lut[i, t] == (kept + seq(LANES - |kept|, _ => DROP))[t]
    ensures forall r, t :: 0 <= r < ROWS && r != i && 0 <= t < LANES ==> lut[r, t] == old(lut[r, t])
  {
    var p := from;
    while p < LANES
      invariant from <= p <= LANES
      invariant forall t :: 0 <= t < from ==> lut[i, t] == kept[t]
      invariant forall t :: from <= t < p ==> lut[i, t] == DROP
      invariant forall r, t :: 0 <= r < ROWS && r != i && 0 <= t < LANES ==> lut[r, t] == old(lut[r, t])
    {
      lut[i, p] := DROP;
      p := p + 1;
    }
  }

  lemma KeptNone(mask: seq<bool>)
    requires |mask| == LANES
    ensures Kept(mask, 0) == [] && mask[0..] == mask
  {
  }

  /** initAVX2's table. */
  method BuildCompactLut() returns (lut: array2<byte>)
    ensures fresh(lut) && IsCompactLut(lut)
  {
    lut := new byte[ROWS, LANES];
    for i := 0 to ROWS
      invariant forall r, j :: 0 <= r < i && 0 <= j < LANES ==> lut[r, j] == CompactRow(IndexLanes(r, LANES))[j]
    {
      FillRow(lut, i);
    }
  }

  // ----- the shuffle

  lemma PicksIota(data: seq<byte>)
    requires |data| == LANES
    ensures Picks(data, IOTA, 0) == data
  {
  }

  lemma {:induction false} UnmaskedPicks(data: seq<byte>, indices: seq<byte>, mask: seq<bool>)
    requires |data| == LANES && |indices| == |mask|
    ensures Picks(data, Unmasked(indices, mask), 0) == Unmasked(Picks(data, indices, 0), mask)
  {
    if mask != [] {
      UnmaskedPicks(data, indices[1..], mask[1..]);
      assert Picks(data, indices, 0)[1..] == Picks(data, indices[1..], 0);
    }
  }

  /** A row's shuffle moves the unmasked lanes to the front. */
  lemma RowCompacts(data: seq<byte>, mask: seq<bool>)
    requires |data| == |mask| == LANES
    ensures Picks(data, CompactRow(mask), 0)[..LANES - Count(mask)] == Unmasked(data, mask)
  {
    UnmaskedPicks(data, IOTA, mask);
    PicksIota(data);
    var row := CompactRow(mask);
    assert row[..LANES - Count(mask)] == Unmasked(IOTA, mask);
    assert Picks(data, row, 0)[..LANES - Count(mask)] == Picks(data, Unmasked(IOTA, mask), 0);
  }

  /** The table is indexed with the last lane's bit dropped. The lane it then keeps comes last,
      past the bytes that count. */
  lemma FifteenBitsSuffice(data: seq<byte>, mask: seq<bool>)
    requires |data| == |mask| == LANES
    ensures Picks(data, CompactRow(mask[..15] + [false]), 0)[..LANES - Count(mask)] == Unmasked(data, mask)
  {
    var low, shuffled := mask[..15], Picks(data, CompactRow(mask[..15] + [false]), 0);
    RowCompacts(data, low + [false]);
    DropLast(data, mask);
    hide Count, Unmasked, Picks, CompactRow;
    assert shuffled[..LANES - Count(low + [false])] == Unmasked(data[..15], low) + [data[15]];
    if mask[15] {
      assert shuffled[..LANES - Count(mask)] == shuffled[..LANES - Count(low + [false])][..LANES - Count(mask)];
    }
  }

  // The last lane's bit counted and not.
  lemma DropLast(data: seq<byte>, mask: seq<bool>)
    requires |data| == |mask| == LANES
    ensures var low := mask[..15];
      && Count(low + [false]) == Count(low) && Count(mask) == Count(low) + (if mask[15] then 1 else 0)
      && Unmasked(data, low + [false]) == Unmasked(data[..15], low) + [data[15]]
      && Unmasked(data, mask) == Unmasked(data[..15], low) + (if mask[15] then [] else [data[15]])
  {
    var low := mask[..15];
    LaneCount(data[15], false);
    LaneCount(data[15], mask[15]);
    hide Count, Unmasked;
    assert mask == low + [mask[15]] && data == data[..15] + [data[15]];
    CountConcat(low, [false]);
    CountConcat(low, [mask[15]]);
    UnmaskedConcat(data[..15], [data[15]], low, [false]);
    UnmaskedConcat(data[..15], [data[15]], low, [mask[15]]);
  }

  lemma LaneCount(value: byte, masked: bool)
    ensures Count([masked]) == if masked then 1 else 0
    ensures Unmasked([value], [masked]) == if masked then [] else [value]
  {
  }

  // ----- the stores

  method LoadRow(lut: array2<byte>, index: nat) returns (row: seq<byte>)
    requires IsCompactLut(lut) && index < ROWS
    ensures row == CompactRow(IndexLanes(index, LANES))
  {
    row := seq(LANES, j requires 0 <= j < LANES reads lut => lut[index, j]);
  }

  method Store16(dest: array<byte>, at: nat, lanes: seq<byte>)
    requires |lanes| == LANES && at + LANES <= dest.Length
    modifies dest
    ensures dest[at..at + LANES] == lanes
    ensures forall k :: 0 <= k < dest.Length && !(at <= k < at + LANES) ==> dest[k] == old(dest[k])
  {
    forall i | 0 <= i < LANES {
      dest[at + i] := lanes[i];
    }
  }

  /** Shuffles a quarter of the block and stores all sixteen lanes; only the first ones count. */
  method StoreQuarter(dest: array<byte>, at: nat, lut: array2<byte>, data: seq<byte>, mask: seq<bool>)
    requires |data| == |mask| == LANES && at + LANES <= dest.Length
    requires IsCompactLut(lut)
    modifies dest
    ensures dest[at..at + LANES - Count(mask)] == Unmasked(data, mask)
    ensures forall k :: 0 <= k < dest.Length && !(at <= k < at + LANES) ==> dest[k] == old(dest[k])
  {
    IndexBound(mask[..15]);
    assert PowerOfTwo(15) == 32768;
    IndexLanesOfIndex(mask[..15], LANES);
    assert mask[..15] + seq(1, _ => false) == mask[..15] + [false];
    var row := LoadRow(lut, IndexOf(mask[..15]));
    Store16(dest, at, Picks(data, row, 0));
    FifteenBitsSuffice(data, mask);
    assert dest[at..at + LANES - Count(mask)] == dest[at..at + LANES][..LANES - Count(mask)];
  }

  // The first n quarters of a block.
  ghost function Front(values: seq<byte>, mask: seq<bool>, n: nat): seq<byte>
    requires |values| == |mask| == 64 && n <= 4
  {
    Unmasked(values[..16 * n], mask[..16 * n])
  }

  lemma FrontNext(values: seq<byte>, mask: seq<bool>, n: nat)
    requires |values| == |mask| == 64 && n < 4
    ensures Front(values, mask, n + 1)
      == Front(values, mask, n) + Unmasked(values[16 * n..16 * n + 16], mask[16 * n..16 * n + 16])
    ensures Count(mask[..16 * n + 16]) == Count(mask[..16 * n]) + Count(mask[16 * n..16 * n + 16])
  {
    assert mask[..16 * n + 16] == mask[..16 * n] + mask[16 * n..16 * n + 16];
    assert values[..16 * n + 16] == values[..16 * n] + values[16 * n..16 * n + 16];
    CountConcat(mask[..16 * n], mask[16 * n..16 * n + 16]);
    UnmaskedConcat(values[..16 * n], values[16 * n..16 * n + 16], mask[..16 * n], mask[16 * n..16 * n + 16]);
  }

  /** Store n: its address is 16 * n less the bits set in the mask below that lane. */
  method StoreNext(dest: array<byte>, at: nat, lut: array2<byte>, values: seq<byte>, mask: seq<bool>, n: nat)
    requires |values| == |mask| == 64 && n < 4 && at + 64 <= dest.Length
    requires IsCompactLut(lut)
    requires dest[at..at + |Front(values, mask, n)|] == Front(values, mask, n)
    modifies dest
    ensures dest[at..at + |Front(values, mask, n + 1)|] == Front(values, mask, n + 1)
    ensures forall k :: 0 <= k < dest.Length && !(at <= k < at + 64) ==> dest[k] == old(dest[k])
    ensures IsCompactLut(lut)
  {
    FrontNext(values, mask, n);
    var d := at + 16 * n - Count(mask[..16 * n]);
    ghost var before := Front(values, mask, n);
    hide IsCompactLut, Front, Count, Unmasked;
    StoreQuarter(dest, d, lut, values[16 * n..16 * n + 16], mask[16 * n..16 * n + 16]);
    var e := d + 16 - Count(mask[16 * n..16 * n + 16]);
    assert dest[at..e] == dest[at..d] + dest[d..e];
    assert dest[at..d] == before;
  }

  /** The four overlapping stores leave the unmasked bytes of the block, in order, and touch
      nothing outside its 64 bytes. */
  method StoreCompacted(dest: array<byte>, at: nat, lut: array2<byte>, values: seq<byte>, mask: seq<bool>)
    requires |values| == |mask| == 64 && at + 64 <= dest.Length
    requires IsCompactLut(lut)
    modifies dest
    ensures dest[at..at + 64 - Count(mask)] == Unmasked(values, mask)
    ensures forall k :: 0 <= k < dest.Length && !(at <= k < at + 64) ==> dest[k] == old(dest[k])
    ensures IsCompactLut(lut)
  {
    StoreNext(dest, at, lut, values, mask, 0);
    StoreNext(dest, at, lut, values, mask, 1);
    StoreNext(dest, at, lut, values, mask, 2);
    StoreNext(dest, at, lut, values, mask, 3);
    assert values[..64] == values && mask[..64] == mask;
  }
}
