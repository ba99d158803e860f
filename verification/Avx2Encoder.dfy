/** encodeSIMDAVX2: 64 bytes expanded as if inside a line, and cut where the line ends. */
module Avx2Encoder {
  import opened Bytes
  import opened Avx2Cursor
  import opened BitMasks
  import opened ColumnEncoder
  import opened Expansion
  import opened ExpandTables
  import Laws = EncodingLaws
  import G = GenericEncoder

  // ----- the eager automaton, step by step

  /** The first n bytes of src, encoded eagerly, gave out and ended at column col. */
  ghost predicate Eagerly(lineSize: nat, start: nat, src: seq<byte>, n: nat, out: seq<byte>, col: nat) {
    n <= |src| && EncodeEagerly(lineSize, start, src, n) == Settled(out, col)
  }

  lemma EagerNext(lineSize: nat, start: nat, src: seq<byte>, n: nat, out: seq<byte>, col: nat)
    requires n < |src| && Eagerly(lineSize, start, src, n, out, col)
    ensures var next := Settle(lineSize, EncodeByte(lineSize, At(col), src[n]));
      Eagerly(lineSize, start, src, n + 1, out + next.out, next.col)
  {
  }

  lemma EagerMid(lineSize: nat, start: nat, src: seq<byte>, n: nat, out: seq<byte>, col: nat)
    requires n < |src| && Eagerly(lineSize, start, src, n, out, col)
    requires 0 < col < lineSize - 1 && col + |Mid(src[n])| < lineSize
    ensures Eagerly(lineSize, start, src, n + 1, out + Mid(src[n]), col + |Mid(src[n])|)
  {
    EagerNext(lineSize, start, src, n, out, col);
  }

  lemma EagerFirst(lineSize: nat, start: nat, src: seq<byte>, n: nat, out: seq<byte>)
    requires n < |src| && Eagerly(lineSize, start, src, n, out, 0) && 3 <= lineSize
    ensures Eagerly(lineSize, start, src, n + 1, out + First(src[n]), |First(src[n])|)
  {
    EagerNext(lineSize, start, src, n, out, 0);
  }

  /** The byte that fills the line: in its last column, or as a pair over its last two. */
  lemma EagerLast(lineSize: nat, start: nat, src: seq<byte>, n: nat, out: seq<byte>, col: nat)
    requires n < |src| && Eagerly(lineSize, start, src, n, out, col) && 3 <= lineSize
    requires col == lineSize - 1 || (col == lineSize - 2 && IsCritical(src[n]))
    ensures Eagerly(lineSize, start, src, n + 1, out + (Last(src[n]) + NEWLINE), 0)
  {
    EagerNext(lineSize, start, src, n, out, col);
  }

  // ----- a batch

  // The lanes to escape; first says that the batch starts a line.
  function Flags(src: seq<byte>, at: nat, first: bool): (flags: seq<bool>)
    requires at + CHUNK <= |src|
    ensures |flags| == CHUNK
    ensures forall i :: 0 <= i < CHUNK ==> flags[i] == EscapeFlag(src[at + i], first && i == 0)
  {
    seq(CHUNK, i requires 0 <= i < CHUNK => EscapeFlag(src[at + i], first && i == 0))
  }

  lemma FlagMeans(src: seq<byte>, at: nat, first: bool, i: nat)
    requires at + CHUNK <= |src| && i < CHUNK
    ensures Flags(src, at, first)[i] == (if first && i == 0 then IsCriticalFirst(src[at + i]) else IsCritical(src[at + i]))
  {
    EscapeFlagIsMembership(src[at + i]);
  }

  // The first k lanes of the batch, expanded.
  function Expanded(src: seq<byte>, at: nat, first: bool, k: nat): seq<byte>
    requires at + CHUNK <= |src| && k <= CHUNK
  {
    Expand(src[at..at + k], Flags(src, at, first)[..k])
  }

  lemma LanesNext(src: seq<byte>, at: nat, first: bool, k: nat)
    requires at + CHUNK <= |src| && k < CHUNK
    ensures Expanded(src, at, first, k + 1)
      == Expanded(src, at, first, k) + (if first && k == 0 then First(src[at]) else Mid(src[at + k]))
  {
    hide Expand, Flags;
    var flags := Flags(src, at, first);
    OneMore(src[at..at + CHUNK], src[at..at + k + 1], k);
    OneMore(flags, flags[..k + 1], k);
    assert src[at..at + k + 1][..k] == src[at..at + k];
    ExpandConcat(src[at..at + k], [src[at + k]], flags[..k], [flags[k]]);
    FlagMeans(src, at, first, k);
    ExpandSingle(src[at + k], flags[k]);
  }

  lemma OneMore<T>(s: seq<T>, t: seq<T>, k: nat)
    requires k < |s| && t == s[..k + 1]
    ensures t == t[..k] + [s[k]] && t[..k] == s[..k]
  {
  }

  lemma ExpandSingle(c: byte, flag: bool)
    ensures Expand([c], [flag]) == Encoded(c, flag)
  {
  }

  lemma {:induction false} LanesWidth(src: seq<byte>, at: nat, first: bool, k: nat)
    requires at + CHUNK <= |src| && k <= CHUNK
    ensures |Expanded(src, at, first, k)| == Width(Flags(src, at, first), k)
  {
    if k > 0 {
      LanesWidth(src, at, first, k - 1);
      LanesNext(src, at, first, k - 1);
      WidthPush(Flags(src, at, first), k - 1);
      FlagMeans(src, at, first, k - 1);
    }
  }

  /** While it stays inside the line, a batch's expansion is what the automaton writes. */
  lemma {:induction false} LanesEager(lineSize: nat, start: nat, src: seq<byte>, at: nat, out: seq<byte>, col: nat, k: nat)
    requires at + CHUNK <= |src| && k <= CHUNK && 3 <= lineSize
    requires Eagerly(lineSize, start, src, at, out, col)
    requires col + Width(Flags(src, at, col == 0), k) < lineSize
    ensures var e := Expanded(src, at, col == 0, k);
      Eagerly(lineSize, start, src, at + k, out + e, col + |e|)
  {
    hide Eagerly, Width, Flags, Mid, First, Expanded;
    var first := col == 0;
    NoLanes(src, at, first, out);
    if k == 0 {
      return;
    }
    var i := k - 1;
    WidthPush(Flags(src, at, first), i);
    LanesEager(lineSize, start, src, at, out, col, i);
    LanesNext(src, at, first, i);
    LanesWidth(src, at, first, k);
    var e := Expanded(src, at, first, i);
    if i == 0 && first {
      EagerFirst(lineSize, start, src, at, out);
    } else {
      PastFirst(src, at, col, i);
      EagerMid(lineSize, start, src, at + i, out + e, col + |e|);
      assert (out + e) + Mid(src[at + i]) == out + (e + Mid(src[at + i]));
    }
  }

  lemma NoLanes(src: seq<byte>, at: nat, first: bool, out: seq<byte>)
    requires at + CHUNK <= |src|
    ensures Expanded(src, at, first, 0) == [] && out + [] == out
    ensures [] + First(src[at]) == First(src[at])
  {
  }

  lemma PastFirst(src: seq<byte>, at: nat, col: nat, i: nat)
    requires at + CHUNK <= |src| && i < CHUNK && (0 < i || 0 < col)
    ensures 0 < col + |Expanded(src, at, col == 0, i)|
  {
  }

  lemma ExpandedFront(src: seq<byte>, at: nat, first: bool, k: nat)
    requires at + CHUNK <= |src| && k <= CHUNK
    ensures var whole := Expanded(src, at, first, CHUNK);
      && Width(Flags(src, at, first), k) <= |whole| == CHUNK + Count(Flags(src, at, first))
      && whole == Expand(src[at..at + CHUNK], Flags(src, at, first))
      && whole[..Width(Flags(src, at, first), k)] == Expanded(src, at, first, k)
  {
    var flags := Flags(src, at, first);
    LanesWidth(src, at, first, k);
    assert flags[..CHUNK] == flags == flags[..k] + flags[k..];
    assert src[at..at + CHUNK] == src[at..at + k] + src[at + k..at + CHUNK];
    ExpandConcat(src[at..at + k], src[at + k..at + CHUNK], flags[..k], flags[k..]);
  }

  // ----- the slow path: more than one escape in a half

  lemma TailOfPadded(marks: seq<bool>, n: nat, i: nat)
    requires i < |marks|
    ensures (marks + Clear(n))[i..] == marks[i..] + Clear(n)
    ensures Count((marks + Clear(n))[i..]) == Count(marks[i..])
    ensures (marks + Clear(n))[i] == marks[i]
  {
    ClearCount(n);
    CountConcat(marks[i..], Clear(n));
  }

  /** From the marks of the half the cut falls in, the bytes and lanes to take back. */
  lemma HalfCut(half: seq<bool>, word: seq<bool>, pad: nat, back: nat) returns (k: nat)
    requires |half| == 32 && word == Marks(half) + Clear(pad) && back < 32 + Count(half)
    ensures var shiftAmt := 32 + Count(half) - 1 - back;
      var tail := word[shiftAmt..];
      var revert := back + (if tail[0] then 1 else 0);
      && k == 32 + Count(tail) - revert && k <= 32
      && IsCut(half, 32 + Count(half) - back, k)
      && Width(half, k) + revert == 32 + Count(half)
  {
    var m := 32 + Count(half) - back;
    TailOfPadded(Marks(half), pad, m - 1);
    MarksCut(half, m);
    var tail := Marks(half)[m - 1..];
    k := 32 + Count(tail) - Revert(tail);
  }

  /** The slow path's rewind, once the expansion is known to pass the line's last column by back bytes. */
  method SlowRewind(flags: seq<bool>, lowA: seq<bool>, highA: seq<bool>, lowB: seq<bool>, highB: seq<bool>, back: nat)
    returns (lanes: nat, revert: nat)
    requires |flags| == CHUNK && back < CHUNK + Count(flags)
    requires lowA == Marks(flags[..16]) + Clear(16 - Count(flags[..16]))
    requires highA == Marks(flags[16..32]) + Clear(16 - Count(flags[16..32]))
    requires lowB == Marks(flags[32..48]) + Clear(16 - Count(flags[32..48]))
    requires highB == Marks(flags[48..]) + Clear(16 - Count(flags[48..]))
    ensures lanes <= CHUNK && IsCut(flags, CHUNK + Count(flags) - back, lanes)
    ensures Width(flags, lanes) + revert == CHUNK + Count(flags)
  {
    hide Marks, Count, Clear, EqMask, IsCut, Width;
    var maskA, maskB := flags[..32], flags[32..];
    assert flags == maskA + maskB;
    assert maskA == flags[..16] + flags[16..32] && maskB == flags[32..48] + flags[48..];
    CountConcat(maskA, maskB);
    var maskBitsB, outputBytesA := Count(maskB), 32 + Count(maskA);
    var shiftAmt: int := maskBitsB + 32 - 1 - back;
    if shiftAmt < 0 {
      shiftAmt := shiftAmt + outputBytesA;
      EqMaskIsMarks(flags[..16], flags[16..32], lowA, highA);
      var eqMask := EqMask(lowA, highA, 16 + Count(flags[..16]));
      ghost var k := HalfCut(maskA, eqMask, 32 - Count(maskA), back - 32 - maskBitsB);
      var tail := eqMask[shiftAmt..];
      revert := back + (if tail[0] then 1 else 0);
      lanes := CHUNK + maskBitsB + Count(tail) - revert;
      assert lanes == k;
      CutInFront(maskA, maskB, 32 + Count(maskA) - (back - 32 - maskBitsB), k);
      WidthInFront(maskA, maskB, k);
    } else {
      EqMaskIsMarks(flags[32..48], flags[48..], lowB, highB);
      var eqMask := EqMask(lowB, highB, 16 + Count(flags[32..48]));
      ghost var k := HalfCut(maskB, eqMask, 32 - Count(maskB), back);
      var tail := eqMask[shiftAmt..];
      revert := back + (if tail[0] then 1 else 0);
      lanes := CHUNK + Count(tail) - revert;
      assert lanes == 32 + k;
      CutBehind(maskA, maskB, 32 + Count(maskB) - back, k);
      WidthBehind(maskA, maskB, k);
    }
  }

  // ----- the fast path: at most one escape in each half

  /** The fast path's rewind. */
  method FastRewind(flags: seq<bool>, back: nat) returns (lanes: nat, revert: nat)
    requires |flags| == CHUNK && back < CHUNK + Count(flags)
    requires Count(flags[..32]) <= 1 && Count(flags[32..]) <= 1
    ensures lanes <= CHUNK && IsCut(flags, CHUNK + Count(flags) - back, lanes)
    ensures Width(flags, lanes) + revert == CHUNK + Count(flags)
  {
    hide Count, IsCut, Width, LeadingZeros;
    var maskA, maskB := flags[..32], flags[32..];
    assert flags == maskA + maskB;
    CountConcat(maskA, maskB);
    var maskBitsB := Count(maskB) + 32;
    var pos := CHUNK;
    revert := back;
    if back > maskBitsB {
      OneFlagCut(maskA, back - maskBitsB);
      var bitIndexA := LeadingZeros(maskA) + 1 + maskBitsB;
      pos := pos + maskBitsB - 32;
      if back == bitIndexA {
        // the cut would split the pair, so the line will run over it
        revert := revert + 1;
      } else if back > bitIndexA {
        pos := pos + 1;
      }
      lanes := pos - back;
      CutInFront(maskA, maskB, 32 + Count(maskA) - (back - maskBitsB), lanes);
      WidthInFront(maskA, maskB, lanes);
    } else {
      OneFlagCut(maskB, back);
      var bitIndexB := LeadingZeros(maskB) + 1;
      if back == bitIndexB {
        revert := revert + 1;
      } else if back > bitIndexB {
        pos := pos + 1;
      }
      lanes := pos - back;
      CutBehind(maskA, maskB, 32 + Count(maskB) - back, lanes - 32);
      WidthBehind(maskA, maskB, lanes - 32);
    }
  }

  // ----- one batch

  /** Two half vectors, each with at most one escape. */
  method StoreFastPair(dest: array<byte>, at: nat, src: seq<byte>, q: nat, flags: seq<bool>)
    requires 1 <= q && q + CHUNK <= |src| && |flags| == CHUNK && at + 128 <= dest.Length
    requires Count(flags[..32]) <= 1 && Count(flags[32..]) <= 1
    modifies dest
    ensures dest[at..at + CHUNK + Count(flags)] == Expand(src[q..q + CHUNK], flags)
    ensures forall k :: 0 <= k < dest.Length && !(at <= k < at + 128) ==> dest[k] == old(dest[k])
  {
    hide Count, Expand;
    var maskA, maskB := flags[..32], flags[32..];
    assert flags == maskA + maskB && src[q..q + CHUNK] == src[q..q + 32] + src[q + 32..q + 64];
    ExpandConcat(src[q..q + 32], src[q + 32..q + 64], maskA, maskB);
    CountConcat(maskA, maskB);
    var outputBytesA := 32 + Count(maskA);
    StoreFast(dest, at, src, q, maskA);
    ghost var front := dest[at..at + outputBytesA];
    StoreFast(dest, at + outputBytesA, src, q + 32, maskB);
    var end := at + outputBytesA + 32 + Count(maskB);
    assert dest[at..end] == dest[at..at + outputBytesA] + dest[at + outputBytesA..end];
    assert dest[at..at + outputBytesA] == front;
  }

  lemma FrontKept(dest: array<byte>, base: nat, wp: nat, whole: seq<byte>, w: nat)
    requires base + wp + |whole| <= dest.Length && w <= |whole|
    requires dest[base + wp..base + wp + |whole|] == whole
    ensures dest[base..base + wp + w] == dest[base..base + wp] + whole[..w]
  {
    assert dest[base + wp..base + wp + w] == whole[..w];
  }

  // The stores of a batch, by whichever path its escapes allow, and the rewind if a line ends in it.
  method StoreBatch(dest: array<byte>, at: nat, lut: array2<byte>, src: seq<byte>, q: nat, flags: seq<bool>,
      overflow: bool, col: int)
    returns (lanes: nat, revert: nat)
    requires 1 <= q && q + CHUNK <= |src| && |flags| == CHUNK && at + 128 <= dest.Length
    requires overflow ==> 0 <= col < CHUNK + Count(flags)
    requires IsExpandLut(lut)
    modifies dest
    ensures IsExpandLut(lut) && lanes <= CHUNK
    ensures dest[at..at + CHUNK + Count(flags)] == Expand(src[q..q + CHUNK], flags)
    ensures if overflow then IsCut(flags, CHUNK + Count(flags) - col, lanes) else lanes == CHUNK
    ensures Width(flags, lanes) + revert == CHUNK + Count(flags)
    ensures forall k :: 0 <= k < dest.Length && !(at <= k < at + 128) ==> dest[k] == old(dest[k])
  {
    hide IsExpandLut, IsCut, Expand, Width, Count, Marks, Clear;
    WidthAllOf(flags);
    lanes, revert := CHUNK, 0;
    var maskBitsA, maskBitsB := Count(flags[..32]), Count(flags[32..]);
    if maskBitsA > 1 || maskBitsB > 1 {
      var lowA, highA, lowB, highB := StoreExpanded(dest, at, lut, src[q..q + CHUNK], flags);
      if overflow {
        lanes, revert := SlowRewind(flags, lowA, highA, lowB, highB, col);
      }
    } else {
      StoreFastPair(dest, at, src, q, flags);
      if overflow {
        lanes, revert := FastRewind(flags, col);
      }
    }
  }

  /** Expands the batch at src[at..], with the line's column counted up to its last one, and takes
      back what does not fit before that column. */
  method ExpandBatch(dest: array<byte>, base: nat, lut: array2<byte>, src: seq<byte>, at: nat, wpIn: nat,
      first: bool, colIn: int)
    returns (overflow: bool, lanes: nat, wp: nat, col: int)
    requires 1 <= at && at + CHUNK <= |src| && base + wpIn + 128 <= dest.Length && colIn < 0
    requires IsExpandLut(lut)
    modifies dest
    ensures IsExpandLut(lut) && lanes <= CHUNK && base + wp <= dest.Length
    ensures dest[base..base + wp] == old(dest[base..base + wpIn]) + Expanded(src, at, first, lanes)
    ensures col == colIn + CHUNK + Count(Flags(src, at, first)) && (overflow <==> 0 <= col)
    ensures if overflow then IsCut(Flags(src, at, first), -colIn, lanes) else lanes == CHUNK
    ensures forall k :: 0 <= k < dest.Length && !(base + wpIn <= k < base + wpIn + 128) ==> dest[k] == old(dest[k])
  {
    hide IsExpandLut, IsCut, Width, Expanded, Expand, Count, Flags;
    var flags := Flags(src, at, first);
    ghost var before := dest[base..base + wpIn];
    CountBound(flags);
    var outputBytes := CHUNK + Count(flags);
    col := colIn + outputBytes;
    overflow := 0 <= col;
    var revert;
    lanes, revert := StoreBatch(dest, base + wpIn, lut, src, at, flags, overflow, col);
    wp := wpIn + outputBytes - revert;
    assert dest[base..base + wpIn] == before;
    ExpandedFront(src, at, first, lanes);
    FrontKept(dest, base, wpIn, Expanded(src, at, first, CHUNK), Width(flags, lanes));
  }

  lemma CountBound(flags: seq<bool>)
    ensures Count(flags) <= |flags|
  {
  }

  lemma WidthAllOf(flags: seq<bool>)
    requires |flags| == CHUNK
    ensures Width(flags, CHUNK) == CHUNK + Count(flags)
  {
    WidthAll(flags);
  }

  // ----- the kernel

  lemma EagerStart(lineSize: nat, start: nat, src: seq<byte>)
    ensures Eagerly(lineSize, start, src, 0, [], start)
  {
  }

  lemma EagerRoom(lineSize: nat, start: nat, src: seq<byte>, n: nat, out: seq<byte>, col: nat)
    requires 1 <= lineSize && Eagerly(lineSize, start, src, n, out, col)
    ensures |out| + 62 + 2 * (|src| - n) <= G.MaxLength(|src|, lineSize)
  {
    hide G.MaxLength, Encode, EncodeEagerly;
    EagerLength(lineSize, start, src, n);
    G.DivGrows(2 * n, 2 * |src|, lineSize);
    var a, b := (2 * n) / lineSize, (2 * |src|) / lineSize;
    G.MaxLengthIs(|src|, lineSize);
    assert |out| <= 2 * n + 4 + 2 * a && a <= b;
  }

  lemma EagerLength(lineSize: nat, start: nat, src: seq<byte>, n: nat)
    requires 1 <= lineSize && n <= |src|
    ensures |EncodeEagerly(lineSize, start, src, n).out| <= 2 * n + 4 + 2 * ((2 * n) / lineSize)
  {
    if n > 0 {
      hide Encode, EncodeEagerly;
      EagerIsSettled(lineSize, start, src, n);
      Laws.EncodedLength(lineSize, At(start), src, n);
    }
  }

  /** The lanes a batch keeps at a cut end where the line's last byte goes. */
  lemma CutEager(lineSize: nat, start: nat, src: seq<byte>, at: nat, out: seq<byte>, col: nat, lanes: nat)
    requires at + CHUNK < |src| && 16 <= lineSize && col < lineSize - 1
    requires Eagerly(lineSize, start, src, at, out, col)
    requires IsCut(Flags(src, at, col == 0), lineSize - 1 - col, lanes)
    ensures var kept := out + Expanded(src, at, col == 0, lanes);
      && Eagerly(lineSize, start, src, at + lanes, kept, |kept| - |out| + col)
      && Eagerly(lineSize, start, src, at + lanes + 1, kept + (Last(src[at + lanes]) + NEWLINE), 0)
  {
    hide Eagerly, Expanded, Width, Flags, Last;
    var first := col == 0;
    LanesEager(lineSize, start, src, at, out, col, lanes);
    LanesWidth(src, at, first, lanes);
    if lanes < CHUNK {
      FlagMeans(src, at, first, lanes);
    }
    var kept := out + Expanded(src, at, first, lanes);
    NoWidth(Flags(src, at, first));
    EagerLast(lineSize, start, src, at + lanes, kept, |kept| - |out| + col);
  }

  // The column after so many lanes that stay inside the line.
  lemma LaneColumn(lineSize: nat, start: nat, src: seq<byte>, at: nat, out: seq<byte>, col: nat, k: nat)
    requires at + CHUNK <= |src| && k <= CHUNK && 3 <= lineSize
    requires Eagerly(lineSize, start, src, at, out, col)
    requires col + Width(Flags(src, at, col == 0), k) < lineSize
    ensures ColumnAt(lineSize, start, src, at + k) == col + Width(Flags(src, at, col == 0), k)
    ensures 0 < k ==> 0 < ColumnAt(lineSize, start, src, at + k)
  {
    hide Width, Flags, Expanded;
    LanesEager(lineSize, start, src, at, out, col, k);
    LanesWidth(src, at, col == 0, k);
    WidthAtLeast(Flags(src, at, col == 0), k);
  }

  lemma {:induction false} WidthAtLeast(flags: seq<bool>, k: nat)
    requires k <= |flags|
    ensures k <= Width(flags, k)
  {
    if k > 0 {
      WidthAtLeast(flags, k - 1);
      WidthPush(flags, k - 1);
    }
  }

  lemma LanesInLine(lineSize: nat, start: nat, src: seq<byte>, at: nat, out: seq<byte>, col: nat, k: nat)
    requires at + CHUNK <= |src| && k <= CHUNK && 3 <= lineSize
    requires Eagerly(lineSize, start, src, at, out, col)
    requires col + Width(Flags(src, at, col == 0), k) < lineSize
    ensures SameLine(lineSize, start, src, at, at + k)
  {
    hide Eagerly, Width, Flags, ColumnAt;
    forall j | at < j <= at + k
      ensures ColumnAt(lineSize, start, src, j) != 0
    {
      WidthGrows(Flags(src, at, col == 0), j - at, k);
      LaneColumn(lineSize, start, src, at, out, col, j - at);
    }
  }

  /** The cut is where the line ends. */
  lemma CutIsLineEnd(lineSize: nat, start: nat, src: seq<byte>, at: nat, out: seq<byte>, col: nat, lanes: nat)
    requires at + CHUNK < |src| && 16 <= lineSize && col < lineSize - 1
    requires Eagerly(lineSize, start, src, at, out, col)
    requires IsCut(Flags(src, at, col == 0), lineSize - 1 - col, lanes)
    ensures LineEnd(lineSize, start, src, at, 0) == lanes
  {
    hide Flags, Width, LineEnd, Expanded, ColumnAt, SameLine;
    CutEager(lineSize, start, src, at, out, col, lanes);
    LanesInLine(lineSize, start, src, at, out, col, lanes);
    LaneColumn(lineSize, start, src, at, out, col, lanes);
    EagerColumn(lineSize, start, src, at + lanes + 1,
      out + Expanded(src, at, col == 0, lanes) + (Last(src[at + lanes]) + NEWLINE), 0);
    LineEndWhere(lineSize, start, src, at, 0, lanes);
  }

  lemma EagerColumn(lineSize: nat, start: nat, src: seq<byte>, n: nat, out: seq<byte>, col: nat)
    requires Eagerly(lineSize, start, src, n, out, col)
    ensures ColumnAt(lineSize, start, src, n) == col
  {
  }

  lemma WholeHasNoEnd(lineSize: nat, start: nat, src: seq<byte>, at: nat, out: seq<byte>, col: nat)
    requires at + CHUNK < |src| && 16 <= lineSize
    requires Eagerly(lineSize, start, src, at, out, col)
    requires col + CHUNK + Count(Flags(src, at, col == 0)) < lineSize - 1
    ensures LineEnd(lineSize, start, src, at, 0) == CHUNK + 1
  {
    WidthAllOf(Flags(src, at, col == 0));
    hide Flags, Width, LineEnd, ColumnAt, SameLine, Count, Eagerly;
    LanesInLine(lineSize, start, src, at, out, col, CHUNK);
    LaneColumn(lineSize, start, src, at, out, col, CHUNK);
    LineEndWhere(lineSize, start, src, at, 0, CHUNK + 1);
  }

  lemma NoWidth(flags: seq<bool>)
    ensures Width(flags, 0) == 0
  {
  }

  lemma WholeEager(lineSize: nat, start: nat, src: seq<byte>, at: nat, out: seq<byte>, col: nat)
    requires at + CHUNK <= |src| && 16 <= lineSize
    requires Eagerly(lineSize, start, src, at, out, col)
    requires col + CHUNK + Count(Flags(src, at, col == 0)) < lineSize - 1
    ensures Eagerly(lineSize, start, src, at + CHUNK, out + Expanded(src, at, col == 0, CHUNK),
      col + CHUNK + Count(Flags(src, at, col == 0)))
  {
    WidthAllOf(Flags(src, at, col == 0));
    LanesEager(lineSize, start, src, at, out, col, CHUNK);
    LanesWidth(src, at, col == 0, CHUNK);
  }

  /** The line's last byte and its break: encodeEOLHandle, but for the reload. */
  method EndLine(dest: array<byte>, base: nat, lineSize: nat, ghost start: nat, src: seq<byte>, pos: nat, wpIn: nat,
      ghost col: nat)
    returns (wp: nat)
    requires 16 <= lineSize && pos < |src| && base + G.MaxLength(|src|, lineSize) <= dest.Length
    requires base + wpIn <= dest.Length
    requires Eagerly(lineSize, start, src, pos, dest[base..base + wpIn], col)
    requires Eagerly(lineSize, start, src, pos + 1, dest[base..base + wpIn] + (Last(src[pos]) + NEWLINE), 0)
    modifies dest
    ensures base + wp <= dest.Length
    ensures Eagerly(lineSize, start, src, pos + 1, dest[base..base + wp], 0)
    ensures dest[..base] == old(dest[..base])
  {
    ghost var before := dest[base..base + wpIn];
    EagerRoom(lineSize, start, src, pos, before, col);
    hide Eagerly, Last, G.MaxLength;
    var k := StoreEol(dest, base + wpIn, src[pos]);
    wp := wpIn + k;
    Joined(dest, base, wpIn, k);
    assert dest[base..base + wpIn] == before;
  }

  /** The vector loop, entered inside a line with at least one byte behind it. */
  method EncodeChunks(dest: array<byte>, base: nat, lut: array2<byte>, lineSize: nat, ghost start: nat, src: seq<byte>,
      from: nat, begin: nat, colIn: nat)
    returns (pos: nat, wp: nat, col: nat)
    requires 16 <= lineSize && 65 < |src| && base + G.MaxLength(|src|, lineSize) <= dest.Length
    requires base + begin <= dest.Length
    requires 1 <= from < |src| && 0 < colIn < lineSize - 1
    requires Eagerly(lineSize, start, src, from, dest[base..base + begin], colIn)
    requires IsExpandLut(lut)
    modifies dest
    ensures pos == Stops(lineSize, start, src, from, false) && base + wp <= dest.Length
    ensures pos == |src| ==> col == 0
    ensures Eagerly(lineSize, start, src, pos, dest[base..base + wp], col)
    ensures dest[..base] == old(dest[..base])
  {
    hide Eagerly, Expanded, IsCut, IsExpandLut, G.MaxLength, Flags, Count, LineEnd, Stops, Last, Width;
    ghost var goal := Stops(lineSize, start, src, from, false);
    StopsShort(lineSize, start, src, from);
    var lineSizeOffset: int := 1 - lineSize;
    var endPos: int := |src| - CHUNK - 1;
    var c: int := colIn + lineSizeOffset;
    pos, wp := from, begin;
    var first, running := false, pos + CHUNK <= endPos;
    while running
      invariant from <= pos <= |src| && base + wp <= dest.Length
      invariant lineSizeOffset <= c && Eagerly(lineSize, start, src, pos, dest[base..base + wp], c + lineSize - 1)
      invariant pos == |src| ==> c == lineSizeOffset
      invariant running ==> c < 0 && pos + CHUNK < |src| && (first <==> c == lineSizeOffset)
      invariant if running then Stops(lineSize, start, src, pos, first) == goal else pos == goal
      invariant running && !first ==> pos + CHUNK <= endPos
      invariant IsExpandLut(lut)
      invariant dest[..base] == old(dest[..base])
      decreases |src| - pos, running
    {
      ghost var out, col0: nat := dest[base..base + wp], c + lineSize - 1;
      EagerRoom(lineSize, start, src, pos, out, col0);
      var overflow, lanes;
      overflow, lanes, wp, c := ExpandBatch(dest, base, lut, src, pos, wp, first, c);
      if overflow {
        CutEager(lineSize, start, src, pos, out, col0, lanes);
        CutIsLineEnd(lineSize, start, src, pos, out, col0, lanes);
        StopsNext(lineSize, start, src, pos, first);
        pos := pos + lanes;
        wp := EndLine(dest, base, lineSize, start, src, pos, wp, |dest[base..base + wp]| - |out| + col0);
        c := lineSizeOffset;
        running := pos < endPos;
        first := true;
        pos := pos + 1;
      } else {
        WholeEager(lineSize, start, src, pos, out, col0);
        WholeHasNoEnd(lineSize, start, src, pos, out, col0);
        StopsNext(lineSize, start, src, pos, first);
        pos := pos + CHUNK;
        running := pos + CHUNK <= endPos;
        first := false;
        StopsShort(lineSize, start, src, pos);
      }
    }
    col := c + lineSize - 1;
  }

  // ----- before the loop

  /** Between two bytes that are still encoded lazily, at column col. */
  ghost predicate Lazily(lineSize: nat, start: nat, src: seq<byte>, n: nat, out: seq<byte>, col: nat) {
    n <= |src| && Encode(lineSize, At(start), src, n) == Written(out, At(col))
  }

  lemma LazyIsEager(lineSize: nat, start: nat, src: seq<byte>, n: nat, out: seq<byte>, col: nat)
    requires 1 <= lineSize && Lazily(lineSize, start, src, n, out, col) && col < lineSize
    ensures Eagerly(lineSize, start, src, n, out, col)
  {
    if n > 0 {
      EagerIsSettled(lineSize, start, src, n);
    }
  }

  lemma LazyMid(lineSize: nat, start: nat, src: seq<byte>, n: nat, out: seq<byte>, col: nat)
    requires n < |src| && Lazily(lineSize, start, src, n, out, col) && 0 < col < lineSize - 1
    ensures Lazily(lineSize, start, src, n + 1, out + Mid(src[n]), col + |Mid(src[n])|)
  {
    EncodeNext(lineSize, At(start), src, n);
  }

  lemma LazyBreak(lineSize: nat, start: nat, src: seq<byte>, n: nat, out: seq<byte>, col: nat)
    requires n < |src| && Lazily(lineSize, start, src, n, out, col) && 1 <= lineSize <= col
    ensures Lazily(lineSize, start, src, n + 1, out + (NEWLINE + First(src[n])), |First(src[n])|)
  {
    EncodeNext(lineSize, At(start), src, n);
  }

  lemma LazyLast(lineSize: nat, start: nat, src: seq<byte>, n: nat, out: seq<byte>, col: nat)
    requires n < |src| && Lazily(lineSize, start, src, n, out, col) && 2 <= lineSize == col + 1
    ensures Eagerly(lineSize, start, src, n + 1, out + (Last(src[n]) + NEWLINE), 0)
  {
    EncodeNext(lineSize, At(start), src, n);
    EagerIsSettled(lineSize, start, src, n + 1);
    assert (out + Last(src[n])) + NEWLINE == out + (Last(src[n]) + NEWLINE);
  }

  lemma LazyRoom(lineSize: nat, start: nat, src: seq<byte>, n: nat, out: seq<byte>, col: nat)
    requires 1 <= lineSize && Lazily(lineSize, start, src, n, out, col)
    ensures |out| + 64 <= G.MaxLength(|src|, lineSize)
  {
    G.Room(lineSize, At(start), src, n);
  }

  // A byte inside the line, unless the line is just starting or about to end.
  method PrologueMid(dest: array<byte>, base: nat, lineSize: nat, src: seq<byte>, start: nat)
    returns (pos: nat, wp: nat, col: nat)
    requires 16 <= lineSize && 0 < |src| && base + G.MaxLength(|src|, lineSize) <= dest.Length
    modifies dest
    ensures pos == (if 0 < start < lineSize - 1 then 1 else 0) && base + wp <= dest.Length
    ensures Lazily(lineSize, start, src, pos, dest[base..base + wp], col)
    ensures col == if pos == 1 then start + |Mid(src[0])| else start
    ensures dest[..base] == old(dest[..base])
  {
    pos, wp, col := 0, 0, start;
    assert dest[base..base] == [];
    if 0 < col < lineSize - 1 {
      LazyRoom(lineSize, start, src, 0, [], col);
      LazyMid(lineSize, start, src, 0, [], col);
      hide G.MaxLength, Mid, Lazily;
      wp := G.PutMid(dest, base, src[0]);
      assert dest[base..base + wp] == [] + Mid(src[0]);
      pos, col := 1, col + wp;
    }
  }

  // The end of a line that was already due, or the break that was.
  method PrologueEnd(dest: array<byte>, base: nat, lineSize: nat, src: seq<byte>, ghost start: nat,
      from: nat, begin: nat, colIn: nat)
    returns (pos: nat, wp: nat, col: nat)
    requires 16 <= lineSize && from < |src| && base + G.MaxLength(|src|, lineSize) <= dest.Length
    requires base + begin <= dest.Length && Lazily(lineSize, start, src, from, dest[base..base + begin], colIn)
    modifies dest
    ensures pos == (if colIn < lineSize - 1 then from else from + 1) && base + wp <= dest.Length
    ensures col < lineSize - 1 && (col == 0 <==> colIn == 0 || colIn == lineSize - 1)
    ensures Eagerly(lineSize, start, src, pos, dest[base..base + wp], col)
    ensures dest[..base] == old(dest[..base])
  {
    hide G.MaxLength, First, Last, Lazily, Eagerly;
    pos, wp, col := from, begin, colIn;
    ghost var out := dest[base..base + begin];
    LazyRoom(lineSize, start, src, from, out, colIn);
    if col < lineSize - 1 {
      LazyIsEager(lineSize, start, src, from, out, colIn);
      return;
    }
    var k;
    if col == lineSize - 1 {
      LazyLast(lineSize, start, src, from, out, colIn);
      k := StoreEol(dest, base + begin, src[from]);
      col := 0;
    } else {
      LazyBreak(lineSize, start, src, from, out, colIn);
      LazyIsEager(lineSize, start, src, from + 1, out + (NEWLINE + First(src[from])), |First(src[from])|);
      k := G.PutBreak(dest, base + begin, src[from]);
      col := k - 2;
    }
    pos, wp := from + 1, begin + k;
    Joined(dest, base, begin, k);
    assert dest[base..base + begin] == out;
  }

  // The first byte of a line.
  method PrologueFirst(dest: array<byte>, base: nat, lineSize: nat, src: seq<byte>, ghost start: nat,
      from: nat, begin: nat)
    returns (wp: nat, col: nat)
    requires 16 <= lineSize && from < |src| && base + G.MaxLength(|src|, lineSize) <= dest.Length
    requires base + begin <= dest.Length && Eagerly(lineSize, start, src, from, dest[base..base + begin], 0)
    modifies dest
    ensures base + wp <= dest.Length && 0 < col < lineSize - 1
    ensures Eagerly(lineSize, start, src, from + 1, dest[base..base + wp], col)
    ensures dest[..base] == old(dest[..base])
  {
    hide G.MaxLength, First, Eagerly;
    ghost var out := dest[base..base + begin];
    EagerRoom(lineSize, start, src, from, out, 0);
    EagerFirst(lineSize, start, src, from, out);
    var k := G.PutFirst(dest, base + begin, src[from]);
    wp, col := begin + k, k;
    Joined(dest, base, begin, k);
    assert dest[base..base + begin] == out;
  }

  /** encodeSIMDAVX2: what it writes for the bytes it consumes is what the eager automaton writes,
      for every line size and starting column. */
  method EncodeBlocks(dest: array<byte>, base: nat, lut: array2<byte>, lineSize: nat, colOffset: nat, src: seq<byte>)
    returns (consumed: nat, written: nat, col: nat)
    requires 1 <= lineSize && base + G.MaxLength(|src|, lineSize) <= dest.Length
    requires IsExpandLut(lut)
    modifies dest
    ensures consumed == Taken(lineSize, colOffset, src) && base + written <= dest.Length
    ensures consumed == |src| && src != [] ==> col == 0
    ensures Eagerly(lineSize, colOffset, src, consumed, dest[base..base + written], col)
    ensures dest[..base] == old(dest[..base])
  {
    hide Eagerly, G.MaxLength, IsExpandLut, Lazily, Stops, Mid;
    EagerStart(lineSize, colOffset, src);
    G.Room(lineSize, At(colOffset), src, 0);
    consumed, written, col := 0, 0, colOffset;
    assert dest[base..base] == [];
    if |src| <= CHUNK + 1 || lineSize < 16 {
      return;
    }
    consumed, written, col := PrologueMid(dest, base, lineSize, src, colOffset);
    consumed, written, col := PrologueEnd(dest, base, lineSize, src, colOffset, consumed, written, col);
    if col == 0 {
      written, col := PrologueFirst(dest, base, lineSize, src, colOffset, consumed, written);
      consumed := consumed + 1;
    }
    consumed, written, col := EncodeChunks(dest, base, lut, lineSize, colOffset, src, consumed, written, col);
  }
}
