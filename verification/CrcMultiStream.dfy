/** crc32_multistream_arm64: four registers advanced side by side over the quarters of a chunk,
    then combined. */
module CrcMultiStream {
  import opened Bytes
  import opened Crc32
  import C = CrcCombine

  const STREAMS := 4
  const QUARTER_BIG := 2048
  const QUARTER_SMALL := 256
  const MIN_CHUNK := STREAMS * QUARTER_SMALL

  // ----- the instruction

  /** CRC32X: a register takes a 64-bit word, its lowest bit first. */
  function Crc32x(c: reg, w: bv64): reg {
    Steps(Plus(Steps(Plus(c, C.Low32(w)), 32), C.High32(w)), 32)
  }

  function Word32(a: byte, b: byte, c: byte, d: byte): bv32 {
    (a as bv32) | (b as bv32 << 8) | (c as bv32 << 16) | (d as bv32 << 24)
  }

  function Word64(a: byte, b: byte, c: byte, d: byte, e: byte, f: byte, g: byte, h: byte): bv64 {
    (a as bv64) | (b as bv64 << 8) | (c as bv64 << 16) | (d as bv64 << 24)
    | (e as bv64 << 32) | (f as bv64 << 40) | (g as bv64 << 48) | (h as bv64 << 56)
  }

  /** A load: the lowest byte of the word comes first in memory. */
  function Load64(p: seq<byte>, at: nat): bv64
    requires at + 8 <= |p|
  {
    Word64(p[at], p[at + 1], p[at + 2], p[at + 3], p[at + 4], p[at + 5], p[at + 6], p[at + 7])
  }

  lemma WordHalves(a: byte, b: byte, c: byte, d: byte, e: byte, f: byte, g: byte, h: byte)
    ensures C.Low32(Word64(a, b, c, d, e, f, g, h)) == Word32(a, b, c, d)
    ensures C.High32(Word64(a, b, c, d, e, f, g, h)) == Word32(e, f, g, h)
  {
  }

  lemma Word32Bytes(a: byte, b: byte, c: byte, d: byte)
    ensures WordBytes(Word32(a, b, c, d)) == [a, b, c, d]
  {
    hide Drop, Word32;
    var w := Word32(a, b, c, d);
    DropAll(w);
    C.DropOnce(w);
    Word32Parts(a, b, c, d);
  }

  lemma Word32Parts(a: byte, b: byte, c: byte, d: byte)
    ensures var w := Word32(a, b, c, d);
      && (w & 0xFF) as byte == a && ((w >> 8) & 0xFF) as byte == b
      && ((w >> 16) & 0xFF) as byte == c && ((w >> 24) & 0xFF) as byte == d
  {
  }

  lemma LoadIs(p: seq<byte>, at: nat)
    requires at + 8 <= |p|
    ensures WordBytes(C.Low32(Load64(p, at))) + WordBytes(C.High32(Load64(p, at))) == p[at..at + 8]
  {
    hide WordBytes, Word32, Word64, C.Low32, C.High32;
    WordHalves(p[at], p[at + 1], p[at + 2], p[at + 3], p[at + 4], p[at + 5], p[at + 6], p[at + 7]);
    Word32Bytes(p[at], p[at + 1], p[at + 2], p[at + 3]);
    Word32Bytes(p[at + 4], p[at + 5], p[at + 6], p[at + 7]);
  }

  /** The instruction on eight bytes of memory is the register over them. */
  lemma InstructionIsRaw(c: reg, p: seq<byte>, at: nat)
    requires at + 8 <= |p|
    ensures Crc32x(c, Load64(p, at)) == Raw(c, p[at..at + 8])
  {
    hide Raw, Steps, Plus, WordBytes, Load64, C.Low32, C.High32;
    var w := Load64(p, at);
    LoadIs(p, at);
    RawConcat(c, WordBytes(C.Low32(w)), WordBytes(C.High32(w)));
    RawOfWord(c, C.Low32(w));
    RawOfWord(Raw(c, WordBytes(C.Low32(w))), C.High32(w));
  }

  // ----- four streams

  // The k-th of four equal parts.
  function Quarter(p: seq<byte>, k: nat): seq<byte>
    requires k < 4
  {
    var n := |p| / 4;
    p[k * n..(k + 1) * n]
  }

  lemma SixteenMore(c: reg, p: seq<byte>, a: nat, b: nat)
    requires a <= b && b + 16 <= |p|
    ensures Raw(c, p[a..b + 16]) == Crc32x(Crc32x(Raw(c, p[a..b]), Load64(p, b)), Load64(p, b + 8))
  {
    hide Raw, Crc32x, Load64;
    var r := Raw(c, p[a..b]);
    InstructionIsRaw(r, p, b);
    InstructionIsRaw(Raw(r, p[b..b + 8]), p, b + 8);
    RawConcat(r, p[b..b + 8], p[b + 8..b + 16]);
    RawConcat(c, p[a..b], p[b..b + 8] + p[b + 8..b + 16]);
    assert p[a..b] + (p[b..b + 8] + p[b + 8..b + 16]) == p[a..b + 16];
  }

  lemma QuartersAre(p: seq<byte>, n: nat)
    requires |p| % 64 == 0 && n == |p| / 4
    ensures |p| == 4 * n && n % 16 == 0
    ensures Quarter(p, 0) == p[0..n] && Quarter(p, 1) == p[n..2 * n]
    ensures Quarter(p, 2) == p[2 * n..3 * n] && Quarter(p, 3) == p[3 * n..4 * n]
  {
  }

  /** crc32IEEEQuad: each register is advanced over its own quarter of p. */
  method Crc32IeeeQuad(crcs: array<reg>, p: seq<byte>)
    requires crcs.Length == 4 && |p| % 64 == 0
    modifies crcs
    ensures crcs[0] == Raw(old(crcs[0]), Quarter(p, 0)) && crcs[1] == Raw(old(crcs[1]), Quarter(p, 1))
    ensures crcs[2] == Raw(old(crcs[2]), Quarter(p, 2)) && crcs[3] == Raw(old(crcs[3]), Quarter(p, 3))
  {
    hide Raw, Crc32x, Load64, Quarter;
    var r13, r20 := 0, |p| / 4;
    ghost var n := r20;
    var r14 := r13 + r20;
    var r15 := r14 + r20;
    var r16 := r15 + r20;
    var r9, r10, r11, r12 := crcs[0], crcs[1], crcs[2], crcs[3];
    ghost var c0, c1, c2, c3 := r9, r10, r11, r12;
    RawNothing(r9); RawNothing(r10); RawNothing(r11); RawNothing(r12);
    QuartersAre(p, n);
    assert p[0..0] == [] && p[n..n] == [] && p[2 * n..2 * n] == [] && p[3 * n..3 * n] == [];
    while r20 != 0
      invariant 0 <= r13 && 0 <= r20 && r13 + r20 == n && r20 % 16 == 0
      invariant r14 == n + r13 && r15 == 2 * n + r13 && r16 == 3 * n + r13
      invariant r9 == Raw(c0, p[0..r13]) && r10 == Raw(c1, p[n..r14])
      invariant r11 == Raw(c2, p[2 * n..r15]) && r12 == Raw(c3, p[3 * n..r16])
    {
      SixteenMore(c0, p, 0, r13); SixteenMore(c1, p, n, r14);
      SixteenMore(c2, p, 2 * n, r15); SixteenMore(c3, p, 3 * n, r16);
      var r1, r2 := Load64(p, r13), Load64(p, r13 + 8);
      var r3, r4 := Load64(p, r14), Load64(p, r14 + 8);
      var r5, r6 := Load64(p, r15), Load64(p, r15 + 8);
      var r7, r8 := Load64(p, r16), Load64(p, r16 + 8);
      r13, r14, r15, r16 := r13 + 16, r14 + 16, r15 + 16, r16 + 16;
      r9 := Crc32x(r9, r1);
      r10 := Crc32x(r10, r3);
      r11 := Crc32x(r11, r5);
      r12 := Crc32x(r12, r7);
      r9 := Crc32x(r9, r2);
      r10 := Crc32x(r10, r4);
      r11 := Crc32x(r11, r6);
      r12 := Crc32x(r12, r8);
      r20 := r20 - 16;
    }
    crcs[0], crcs[1], crcs[2], crcs[3] := r9, r10, r11, r12;
  }

  lemma RawNothing(c: reg)
    ensures Raw(c, []) == c
  {
  }

  // ----- combining them

  /** Two adjacent blocks: the first register moved over the second block, plus that block's own. */
  lemma Combine(c: reg, b: seq<byte>)
    ensures Raw(c, b) == Plus(C.Times(c, Raw(ONE, Zeros(|b|))), Raw(0, b))
  {
    hide Raw, C.Times, Plus;
    RawSplits(c, b);
    C.TimesShifts(c, |b|);
  }

  lemma FourQuarters(c: reg, p: seq<byte>)
    requires |p| % 4 == 0
    ensures var k := Raw(ONE, Zeros(|p| / 4));
      var c0 := Raw(c, Quarter(p, 0));
      var c1 := Plus(C.Times(c0, k), Raw(0, Quarter(p, 1)));
      var c2 := Plus(C.Times(c1, k), Raw(0, Quarter(p, 2)));
      Plus(C.Times(c2, k), Raw(0, Quarter(p, 3))) == Raw(c, p)
  {
    hide Raw, C.Times, Plus;
    var a, b, d, e := Quarter(p, 0), Quarter(p, 1), Quarter(p, 2), Quarter(p, 3);
    Combine(Raw(c, a), b);
    RawConcat(c, a, b);
    Combine(Raw(c, a + b), d);
    RawConcat(c, a + b, d);
    Combine(Raw(c, a + b + d), e);
    RawConcat(c, a + b + d, e);
    assert a + b + d + e == p;
  }

  ghost predicate IsQuarterK(quarterK: array<reg>)
    reads quarterK
  {
    && quarterK.Length == 2
    && quarterK[0] == Raw(ONE, Zeros(QUARTER_BIG))
    && quarterK[1] == Raw(ONE, Zeros(QUARTER_SMALL))
  }

  /** init: the factor for each quarter length. */
  method InitQuarterK(quarterK: array<reg>)
    requires quarterK.Length == 2
    modifies quarterK
    ensures IsQuarterK(quarterK)
  {
    hide Raw;
    var quarters := [QUARTER_BIG, QUARTER_SMALL];
    for i := 0 to 2
      invariant 0 < i ==> quarterK[0] == Raw(ONE, Zeros(QUARTER_BIG))
      invariant 1 < i ==> quarterK[1] == Raw(ONE, Zeros(QUARTER_SMALL))
    {
      quarterK[i] := C.ShiftZeros(ONE, quarters[i]);
    }
  }

  /** One chunk, in four streams. */
  method UpdateChunk(raw: reg, p: seq<byte>, k: reg) returns (next: reg)
    requires |p| % 64 == 0 && k == Raw(ONE, Zeros(|p| / 4))
    ensures next == Raw(raw, p)
  {
    hide Raw, C.Times, Plus, Quarter;
    var c := new reg[4] [raw, 0, 0, 0];
    Crc32IeeeQuad(c, p);
    FourQuarters(raw, p);
    next := C.CrcMul(c[0], k);
    next := Plus(next, c[1]);
    next := C.CrcMul(next, k);
    next := Plus(next, c[2]);
    next := C.CrcMul(next, k);
    next := Plus(next, c[3]);
  }

  /** Chunks of one size, as long as there are any. */
  method UpdateChunks(r: reg, data: seq<byte>, quarter: nat, k: reg) returns (raw: reg, p: seq<byte>)
    requires 0 < quarter && quarter % 16 == 0 && k == Raw(ONE, Zeros(quarter))
    ensures Raw(raw, p) == Raw(r, data)
  {
    hide Raw, Zeros;
    raw, p := r, data;
    var chunk := STREAMS * quarter;
    while |p| >= chunk
      invariant Raw(raw, p) == Raw(r, data)
    {
      RawConcat(raw, p[..chunk], p[chunk..]);
      assert p[..chunk] + p[chunk..] == p;
      raw := UpdateChunk(raw, p[..chunk], k);
      p := p[chunk..];
    }
  }

  /** crcUpdate: for every initial value and length it is the plain CRC. */
  method CrcUpdate(multiStream: bool, quarterK: array<reg>, crc: reg, data: seq<byte>) returns (r: reg)
    requires IsQuarterK(quarterK)
    ensures r == Update(crc, data)
  {
    hide Raw, Zeros, Update, Inverted;
    if !multiStream || |data| < MIN_CHUNK {
      r := UpdateCrc(crc, data);
      return;
    }
    var raw, p := Inverted(crc), data;
    var quarters := [QUARTER_BIG, QUARTER_SMALL];
    for i := 0 to 2
      invariant Raw(raw, p) == Raw(Inverted(crc), data)
    {
      raw, p := UpdateChunks(raw, p, quarters[i], quarterK[i]);
    }
    r := UpdateCrc(Inverted(raw), p);
    UpdateIs(Inverted(raw), p);
    UpdateIs(crc, data);
    InvertedTwice(raw);
  }
}
