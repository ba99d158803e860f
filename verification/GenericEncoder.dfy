/** encodeGeneric: the scalar encoder, with its batches of eight and their rewind. */
module GenericEncoder {
  import opened Bytes
  import opened ColumnEncoder
  import Laws = EncodingLaws

  // ----- tables

  // 0 stands for "escape it".
  function EscapeLut(c: byte): byte {
    if IsCritical(c) then 0 else c + SHIFT
  }

  // The pair `=`, c + 106 as a little-endian word, or 0.
  function EscapedLut(c: byte): bv16 {
    if IsCriticalFirst(c) then (EQUALS as bv16) | ((c + ESCAPED_SHIFT) as bv16 << 8) else 0
  }

  lemma LutsDecide(c: byte)
    ensures EscapeLut(c) != 0 <==> !IsCritical(c)
    ensures EscapeLut(c) != 0 ==> [EscapeLut(c)] == Mid(c)
    ensures EscapedLut(c) != 0 <==> IsCriticalFirst(c)
    ensures IsCriticalFirst(c) ==> EscapedLut(c) & 0xFF == EQUALS as bv16 && EscapedLut(c) >> 8 == (c + ESCAPED_SHIFT) as bv16
  {
  }

  // binary.LittleEndian.PutUint16
  method PutUint16(dest: array<byte>, at: nat, v: bv16)
    requires at + 2 <= dest.Length
    modifies dest
    ensures dest[at] == (v & 0xFF) as byte && dest[at + 1] == (v >> 8) as byte
    ensures forall k :: 0 <= k < dest.Length && k != at && k != at + 1 ==> dest[k] == old(dest[k])
  {
    dest[at] := (v & 0xFF) as byte;
    dest[at + 1] := (v >> 8) as byte;
  }

  /** An escape pair from the table. */
  method PutPair(dest: array<byte>, at: nat, c: byte)
    requires IsCriticalFirst(c) && at + 2 <= dest.Length
    modifies dest
    ensures dest[at..at + 2] == Encoded(c, true)
    ensures forall k :: 0 <= k < dest.Length && !(at <= k < at + 2) ==> dest[k] == old(dest[k])
  {
    LutsDecide(c);
    PutUint16(dest, at, EscapedLut(c));
    assert dest[at..at + 2] == [dest[at], dest[at + 1]];
  }

  /** A byte inside a line. */
  method PutMid(dest: array<byte>, at: nat, c: byte) returns (k: nat)
    requires at + 2 <= dest.Length
    modifies dest
    ensures k == |Mid(c)| && dest[at..at + k] == Mid(c)
    ensures forall i :: 0 <= i < dest.Length && !(at <= i < at + 2) ==> dest[i] == old(dest[i])
  {
    LutsDecide(c);
    var escaped := EscapeLut(c);
    if escaped != 0 {
      dest[at] := escaped;
      k := 1;
    } else {
      PutPair(dest, at, c);
      k := 2;
    }
  }

  /** A line's first byte, where nothing precedes it. */
  method PutFirst(dest: array<byte>, at: nat, c: byte) returns (k: nat)
    requires at + 2 <= dest.Length
    modifies dest
    ensures k == |First(c)| && dest[at..at + k] == First(c)
    ensures forall i :: 0 <= i < dest.Length && !(at <= i < at + 2) ==> dest[i] == old(dest[i])
  {
    LutsDecide(c);
    if EscapedLut(c) != 0 {
      PutPair(dest, at, c);
      k := 2;
    } else {
      dest[at] := c + SHIFT;
      k := 1;
    }
  }

  /** The byte in a line's last column. */
  method PutLast(dest: array<byte>, at: nat, c: byte) returns (k: nat)
    requires at + 2 <= dest.Length
    modifies dest
    ensures k == |Last(c)| && dest[at..at + k] == Last(c)
    ensures forall i :: 0 <= i < dest.Length && !(at <= i < at + 2) ==> dest[i] == old(dest[i])
  {
    LutsDecide(c);
    if EscapedLut(c) != 0 && c != DOT - SHIFT {
      PutPair(dest, at, c);
      k := 2;
    } else {
      dest[at] := c + SHIFT;
      k := 1;
    }
  }

  // binary.LittleEndian.PutUint32
  method PutUint32(dest: array<byte>, at: nat, v: bv32)
    requires at + 4 <= dest.Length
    modifies dest
    ensures dest[at] == (v & 0xFF) as byte && dest[at + 1] == ((v >> 8) & 0xFF) as byte
    ensures dest[at + 2] == ((v >> 16) & 0xFF) as byte && dest[at + 3] == (v >> 24) as byte
    ensures forall k :: 0 <= k < dest.Length && !(at <= k < at + 4) ==> dest[k] == old(dest[k])
  {
    dest[at] := (v & 0xFF) as byte;
    dest[at + 1] := ((v >> 8) & 0xFF) as byte;
    dest[at + 2] := ((v >> 16) & 0xFF) as byte;
    dest[at + 3] := (v >> 24) as byte;
  }

  // CR, LF and a 16-bit value above them.
  function BreakWord(low: bv16): bv32 {
    (CR as bv32) | ((LF as bv32) << 8) | ((low as bv32) << 16)
  }

  lemma BreakWordBytes(low: bv16)
    ensures (BreakWord(low) & 0xFF) as byte == CR && ((BreakWord(low) >> 8) & 0xFF) as byte == LF
    ensures ((BreakWord(low) >> 16) & 0xFF) as byte == (low & 0xFF) as byte
    ensures (BreakWord(low) >> 24) as byte == (low >> 8) as byte
  {
  }

  /** A line break and the byte after it, in one 4-byte store. */
  method PutBreak(dest: array<byte>, at: nat, c: byte) returns (k: nat)
    requires at + 4 <= dest.Length
    modifies dest
    ensures k == 2 + |First(c)| && dest[at..at + k] == NEWLINE + First(c)
    ensures forall i :: 0 <= i < dest.Length && !(at <= i < at + 4) ==> dest[i] == old(dest[i])
  {
    LutsDecide(c);
    var escaped := EscapedLut(c);
    if escaped != 0 {
      BreakWordBytes(escaped);
      PutUint32(dest, at, BreakWord(escaped));
      k := 4;
    } else {
      BreakWordBytes((c + SHIFT) as bv16);
      PutUint32(dest, at, BreakWord((c + SHIFT) as bv16));
      k := 3;
    }
  }

  // ----- room

  function MaxLength(length: nat, lineLength: nat): nat
    requires 1 <= lineLength
  {
    var ret := length * 2 + 2 + 64;
    if lineLength == 128 then ret + 2 * (length / 64) else ret + 2 * ((length * 2) / lineLength)
  }

  lemma DivGrows(a: nat, b: nat, k: nat)
    requires a <= b && 1 <= k
    ensures a / k <= b / k
  {
    assert (a / k) * k <= a && b < (b / k) * k + k;
    assert (b / k + 1) * k == (b / k) * k + k;
    Laws.LessOfTimesLess(a / k, b / k + 1, k);
  }

  lemma MaxLengthIs(length: nat, lineLength: nat)
    requires 1 <= lineLength
    ensures MaxLength(length, lineLength) == 2 * length + 66 + 2 * ((2 * length) / lineLength)
  {
    assert (length * 2) / 128 == length / 64;
  }

  /** Whatever has been encoded so far, 64 bytes of the buffer are still free. */
  lemma Room(lineSize: nat, start: Column, src: seq<byte>, n: nat)
    requires 1 <= lineSize && n <= |src|
    ensures |Encode(lineSize, start, src, n).out| + 64 <= MaxLength(|src|, lineSize)
  {
    Laws.EncodedLength(lineSize, start, src, n);
    DivGrows(2 * n, 2 * |src|, lineSize);
    MaxLengthIs(|src|, lineSize);
  }

  /** Room for everything that will be written, and for the widest store past it. */
  ghost function Need(lineSize: nat, start: Column, src: seq<byte>): nat {
    |EncodeAll(lineSize, start, src).out| + 16
  }

  lemma {:induction false} OutGrows(lineSize: nat, start: Column, src: seq<byte>, n: nat, m: nat)
    requires n <= m <= |src|
    ensures |Encode(lineSize, start, src, n).out| <= |Encode(lineSize, start, src, m).out|
  {
    hide Encode, EncodeByte;
    if n < m {
      OutGrows(lineSize, start, src, n, m - 1);
      EncodeNext(lineSize, start, src, m - 1);
    }
  }

  /** maxLength is always enough. */
  lemma MaxLengthSuffices(lineSize: nat, start: Column, src: seq<byte>)
    requires 1 <= lineSize
    ensures Need(lineSize, start, src) <= MaxLength(|src|, lineSize)
  {
    Room(lineSize, start, src, |src|);
  }

  // ----- the loops

  /** What holds between the bytes of src: dest holds the encoding of the first pos of them. */
  ghost predicate Holds(lineSize: nat, start: Column, src: seq<byte>, pos: nat, out: seq<byte>, col: nat) {
    && pos <= |src|
    && Encode(lineSize, start, src, pos) == Written(out, At(col))
    && 0 < col
  }

  // k bytes from pos, all encoded as if inside a line.
  ghost function MidRun(src: seq<byte>, pos: nat, k: nat): (run: seq<byte>)
    requires pos + k <= |src|
    ensures k <= |run| <= 2 * k
  {
    if k == 0 then [] else MidRun(src, pos, k - 1) + Mid(src[pos + k - 1])
  }

  lemma MidHolds(lineSize: nat, start: Column, src: seq<byte>, pos: nat, out: seq<byte>, col: nat)
    requires pos < |src| && Holds(lineSize, start, src, pos, out, col) && col < lineSize - 1
    ensures Holds(lineSize, start, src, pos + 1, out + Mid(src[pos]), col + |Mid(src[pos])|)
  {
    EncodeNext(lineSize, start, src, pos);
  }

  /** A run that is inside the line before its last byte is what the automaton writes. */
  lemma {:induction false} MidRunHolds(lineSize: nat, start: Column, src: seq<byte>, pos: nat, out: seq<byte>, col: nat, k: nat)
    requires pos + k <= |src| && Holds(lineSize, start, src, pos, out, col)
    requires k > 0 ==> col + |MidRun(src, pos, k - 1)| < lineSize - 1
    ensures Holds(lineSize, start, src, pos + k, out + MidRun(src, pos, k), col + |MidRun(src, pos, k)|)
  {
    hide Holds, Mid;
    if k == 0 {
      assert out + [] == out;
    } else {
      var run := MidRun(src, pos, k - 1);
      MidRunHolds(lineSize, start, src, pos, out, col, k - 1);
      MidHolds(lineSize, start, src, pos + k - 1, out + run, col + |run|);
      assert (out + run) + Mid(src[pos + k - 1]) == out + (run + Mid(src[pos + k - 1]));
    }
  }

  // What has been written, as part of everything in front.
  lemma Within(dest: array<byte>, base: nat, n: nat)
    requires base + n <= dest.Length
    ensures dest[base..base + n] == dest[..base + n][base..] && dest[..base] == dest[..base + n][..base]
  {
  }

  /** Eight bytes with no look at the column. */
  method Batch(dest: array<byte>, at: nat, src: seq<byte>, pos: nat) returns (k: nat)
    requires pos + 8 <= |src| && at + 16 <= dest.Length
    modifies dest
    ensures k == |MidRun(src, pos, 8)| && dest[at..at + k] == MidRun(src, pos, 8)
    ensures dest[..at] == old(dest[..at])
  {
    hide Mid;
    k := 0;
    for n := 0 to 8
      invariant k == |MidRun(src, pos, n)| && dest[at..at + k] == MidRun(src, pos, n)
      invariant forall i :: 0 <= i < dest.Length && !(at <= i < at + 16) ==> dest[i] == old(dest[i])
    {
      ghost var run := dest[at..at + k];
      var w := PutMid(dest, at + k, src[pos + n]);
      assert dest[at..at + k] == run;
      Joined(dest, at, k, w);
      k := k + w;
    }
  }

  /** The loop over batches: the newest one, from sp on, is not known to fit its line yet. */
  ghost predicate Batched(lineSize: nat, start: Column, src: seq<byte>, pos: nat, out: seq<byte>, col: nat, sp: int) {
    if sp < 0 then Holds(lineSize, start, src, pos, out, col)
    else
      var run := |out| - sp;
      && 8 <= pos <= |src| && 0 <= run < col && col - run < lineSize - 9
      && out[sp..] == MidRun(src, pos - 8, 8)
      && Holds(lineSize, start, src, pos - 8, out[..sp], col - run)
  }

  lemma BatchFits(lineSize: nat, start: Column, src: seq<byte>, pos: nat, out: seq<byte>, col: nat, sp: int)
    requires Batched(lineSize, start, src, pos, out, col, sp) && col < lineSize - 1
    ensures Holds(lineSize, start, src, pos, out, col)
  {
    if 0 <= sp {
      MidRunHolds(lineSize, start, src, pos - 8, out[..sp], col - (|out| - sp), 8);
      assert out[..sp] + out[sp..] == out;
    }
  }

  lemma HoldsRoom(lineSize: nat, start: Column, src: seq<byte>, pos: nat, out: seq<byte>, col: nat)
    requires 1 <= lineSize && Holds(lineSize, start, src, pos, out, col)
    ensures |out| + 16 <= Need(lineSize, start, src)
  {
    OutGrows(lineSize, start, src, pos, |src|);
  }

  lemma NewBatch(lineSize: nat, start: Column, src: seq<byte>, pos: nat, out: seq<byte>, col: nat, more: seq<byte>)
    requires pos + 8 <= |src| && Holds(lineSize, start, src, pos, out, col) && col < lineSize - 9
    requires out + MidRun(src, pos, 8) == more
    ensures Batched(lineSize, start, src, pos + 8, more, col + |more| - |out|, |out|)
  {
    assert more[..|out|] == out && more[|out|..] == MidRun(src, pos, 8);
  }

  /** Batches while the line has room for the next one; the last is taken back if it went past
      the column before the last. */
  method Batches(dest: array<byte>, base: nat, lineSize: nat, ghost start: Column, src: seq<byte>,
      from: nat, begin: nat, column: nat)
    returns (pos: nat, write: nat, col: nat)
    requires 1 <= lineSize && from < |src| && base + Need(lineSize, start, src) <= dest.Length
    requires base + begin <= dest.Length
    requires Holds(lineSize, start, src, from, dest[base..base + begin], column)
    modifies dest
    ensures from <= pos < |src| && base + write <= dest.Length
    ensures Holds(lineSize, start, src, pos, dest[base..base + write], col)
    ensures dest[..base] == old(dest[..base])
  {
    hide Holds, Batched, MidRun, Need;
    pos, write, col := from, begin, column;
    var sp: int := -1;
    StartBatches(lineSize, start, src, pos, dest[base..base + write], col);
    while pos + 8 < |src| && lineSize - col - 1 > 8
      invariant from <= pos < |src| && base + write <= dest.Length && -1 <= sp <= write
      invariant 0 <= sp ==> from + 8 <= pos
      invariant Batched(lineSize, start, src, pos, dest[base..base + write], col, sp)
      invariant dest[..base] == old(dest[..base])
      decreases |src| - pos
    {
      ghost var out, front := dest[base..base + write], dest[..base + write];
      Within(dest, base, write);
      BatchFits(lineSize, start, src, pos, out, col, sp);
      HoldsRoom(lineSize, start, src, pos, out, col);
      sp := write;
      var k := Batch(dest, base + write, src, pos);
      Within(dest, base, write);
      assert dest[..base] == front[..base];
      Joined(dest, base, write, k);
      NewBatch(lineSize, start, src, pos, out, col, dest[base..base + write + k]);
      write := write + k;
      pos := pos + 8;
      col := col + write - sp;
    }
    if sp >= 0 && col >= lineSize - 1 {
      Rewinds(lineSize, start, src, pos, dest[base..base + write], col, sp);
      FrontOf(dest, base, sp, write);
      col := col - (write - sp);
      write := sp;
      pos := pos - 8;
    } else {
      LastBatchFits(lineSize, start, src, pos, dest[base..base + write], col, sp);
    }
  }

  lemma FrontOf(dest: array<byte>, base: nat, a: nat, b: nat)
    requires a <= b && base + b <= dest.Length
    ensures dest[base..base + b][..a] == dest[base..base + a]
  {
  }

  lemma StartBatches(lineSize: nat, start: Column, src: seq<byte>, pos: nat, out: seq<byte>, col: nat)
    requires Holds(lineSize, start, src, pos, out, col)
    ensures Batched(lineSize, start, src, pos, out, col, -1)
  {
  }

  lemma Rewinds(lineSize: nat, start: Column, src: seq<byte>, pos: nat, out: seq<byte>, col: nat, sp: int)
    requires 0 <= sp && Batched(lineSize, start, src, pos, out, col, sp)
    ensures 8 <= pos <= |src| && sp <= |out| && |out| - sp < col
    ensures Holds(lineSize, start, src, pos - 8, out[..sp], col - (|out| - sp))
  {
  }

  lemma LastBatchFits(lineSize: nat, start: Column, src: seq<byte>, pos: nat, out: seq<byte>, col: nat, sp: int)
    requires Batched(lineSize, start, src, pos, out, col, sp) && (0 <= sp ==> col < lineSize - 1)
    ensures Holds(lineSize, start, src, pos, out, col)
  {
    if 0 <= sp {
      BatchFits(lineSize, start, src, pos, out, col, sp);
    }
  }

  /** Byte by byte up to the column before the last, or to the end of src. */
  method FillLine(dest: array<byte>, base: nat, lineSize: nat, ghost start: Column, src: seq<byte>,
      from: nat, begin: nat, column: nat)
    returns (pos: nat, write: nat, col: nat)
    requires 1 <= lineSize && from < |src| && base + Need(lineSize, start, src) <= dest.Length
    requires base + begin <= dest.Length
    requires Holds(lineSize, start, src, from, dest[base..base + begin], column)
    modifies dest
    ensures from <= pos <= |src| && base + write <= dest.Length
    ensures pos < |src| ==> lineSize - 1 <= col
    ensures Holds(lineSize, start, src, pos, dest[base..base + write], col)
    ensures dest[..base] == old(dest[..base])
  {
    hide Holds, Need, Mid;
    pos, write, col := from, begin, column;
    while col < lineSize - 1
      invariant from <= pos < |src| && base + write <= dest.Length
      invariant Holds(lineSize, start, src, pos, dest[base..base + write], col)
      invariant dest[..base] == old(dest[..base])
      decreases |src| - pos
    {
      ghost var out := dest[base..base + write];
      HoldsRoom(lineSize, start, src, pos, out, col);
      MidHolds(lineSize, start, src, pos, out, col);
      var k := PutMid(dest, base + write, src[pos]);
      assert dest[base..base + write] == out;
      Joined(dest, base, write, k);
      pos, write, col := pos + 1, write + k, col + k;
      if pos >= |src| {
        return;
      }
    }
  }

  lemma Appends(lineSize: nat, start: Column, src: seq<byte>, pos: nat, out: seq<byte>, column: Column)
    requires pos < |src| && Encode(lineSize, start, src, pos) == Written(out, column)
    ensures var e := EncodeByte(lineSize, column, src[pos]);
      Encode(lineSize, start, src, pos + 1) == Written(out + e.out, e.column)
  {
    EncodeNext(lineSize, start, src, pos);
  }

  lemma LastFills(lineSize: nat, start: Column, src: seq<byte>, pos: nat, out: seq<byte>)
    requires 1 <= lineSize && pos < |src| && Holds(lineSize, start, src, pos, out, lineSize - 1)
    ensures Encode(lineSize, start, src, pos + 1) == Written(out + Last(src[pos]), Filled)
  {
    Appends(lineSize, start, src, pos, out, At(lineSize - 1));
  }

  method PutLastColumn(dest: array<byte>, base: nat, lineSize: nat, ghost start: Column, src: seq<byte>,
      from: nat, begin: nat, column: nat)
    returns (write: nat)
    requires 1 <= lineSize && from < |src| && base + Need(lineSize, start, src) <= dest.Length
    requires base + begin <= dest.Length && lineSize - 1 == column
    requires Holds(lineSize, start, src, from, dest[base..base + begin], column)
    modifies dest
    ensures base + write <= dest.Length
    ensures Encode(lineSize, start, src, from + 1) == Written(dest[base..base + write], Filled)
    ensures dest[..base] == old(dest[..base])
  {
    hide *;
    ghost var out := dest[base..base + begin];
    HoldsRoom(lineSize, start, src, from, out, column);
    LastFills(lineSize, start, src, from, out);
    var k := PutLast(dest, base + begin, src[from]);
    write := begin + k;
    assert dest[base..base + write] == dest[base..base + begin] + dest[base + begin..base + write];
    assert dest[base..base + begin] == out;
  }

  method BreakLine(dest: array<byte>, base: nat, lineSize: nat, ghost start: Column, src: seq<byte>,
      from: nat, begin: nat, ghost column: Column)
    returns (write: nat, col: nat)
    requires 1 <= lineSize && from < |src| && base + Need(lineSize, start, src) <= dest.Length
    requires base + begin <= dest.Length && IsFull(lineSize, column) && column != At(0)
    requires Encode(lineSize, start, src, from) == Written(dest[base..base + begin], column)
    modifies dest
    ensures base + write <= dest.Length
    ensures Holds(lineSize, start, src, from + 1, dest[base..base + write], col)
    ensures dest[..base] == old(dest[..base])
  {
    ghost var out := dest[base..base + begin];
    OutGrows(lineSize, start, src, from, |src|);
    Appends(lineSize, start, src, from, out, column);
    hide First, Last, Mid, Encode;
    var k := PutBreak(dest, base + begin, src[from]);
    write, col := begin + k, k - 2;
    assert dest[base..base + write] == dest[base..base + begin] + dest[base + begin..base + write];
    assert dest[base..base + begin] == out;
  }

  /** What a call has to deliver: the whole encoding, and the column to go on in. */
  ghost predicate Delivers(lineSize: nat, start: Column, src: seq<byte>, out: seq<byte>, col: nat) {
    var w := EncodeAll(lineSize, start, src);
    out == w.out && col == Laws.Exposed(lineSize, w.column)
  }

  /** The end of one line and the start of the next: the last column's byte, unless an escape
      pair has already covered it, then, if anything is left, a break and the byte after it. */
  method EndLine(dest: array<byte>, base: nat, lineSize: nat, ghost start: Column, src: seq<byte>,
      from: nat, begin: nat, column: nat)
    returns (pos: nat, write: nat, col: nat)
    requires 1 <= lineSize && from < |src| && base + Need(lineSize, start, src) <= dest.Length
    requires base + begin <= dest.Length && lineSize - 1 <= column
    requires Holds(lineSize, start, src, from, dest[base..base + begin], column)
    modifies dest
    ensures from < pos <= |src| && base + write <= dest.Length
    ensures pos < |src| ==> Holds(lineSize, start, src, pos, dest[base..base + write], col)
    ensures pos == |src| ==>
      (|| Delivers(lineSize, start, src, dest[base..base + write], col)
       || Holds(lineSize, start, src, pos, dest[base..base + write], col))
    ensures dest[..base] == old(dest[..base])
  {
    hide Need, Encode;
    pos, write, col := from, begin, column;
    ghost var reached := At(col);
    if col < lineSize {
      write := PutLastColumn(dest, base, lineSize, start, src, pos, write, col);
      pos, reached := pos + 1, Filled;
    }
    if pos >= |src| {
      return;
    }
    write, col := BreakLine(dest, base, lineSize, start, src, pos, write, reached);
    pos := pos + 1;
  }

  lemma HoldsAll(lineSize: nat, start: Column, src: seq<byte>, out: seq<byte>, col: nat)
    requires Holds(lineSize, start, src, |src|, out, col)
    ensures Delivers(lineSize, start, src, out, col)
  {
  }

  /** Everything but doEnd. */
  method EncodeOpen(dest: array<byte>, base: nat, lineSize: nat, colOffset: nat, src: seq<byte>)
    returns (write: nat, col: nat)
    requires 1 <= lineSize && src != [] && base + Need(lineSize, At(colOffset), src) <= dest.Length
    modifies dest
    ensures base + write <= dest.Length
    ensures Delivers(lineSize, At(colOffset), src, dest[base..base + write], col)
    ensures dest[..base] == old(dest[..base])
  {
    hide First, Holds, Delivers, Need;
    var pos := 0;
    write, col := 0, colOffset;
    ghost var start := At(colOffset);
    NeedSome(lineSize, start, src);
    if col == 0 {
      col := PutFirst(dest, base, src[pos]);
      pos, write := pos + 1, col;
      FirstHolds(lineSize, src, dest[base..base + write]);
    } else {
      NothingHolds(lineSize, col, src);
      assert dest[base..base] == [];
    }
    while pos < |src|
      invariant pos <= |src| && base + write <= dest.Length
      invariant pos < |src| ==> Holds(lineSize, start, src, pos, dest[base..base + write], col)
      invariant pos == |src| ==>
        (|| Delivers(lineSize, start, src, dest[base..base + write], col)
         || Holds(lineSize, start, src, pos, dest[base..base + write], col))
      invariant dest[..base] == old(dest[..base])
      decreases |src| - pos
    {
      ghost var from := pos;
      pos, write, col := Batches(dest, base, lineSize, start, src, pos, write, col);
      pos, write, col := FillLine(dest, base, lineSize, start, src, pos, write, col);
      if pos >= |src| {
        break;
      }
      pos, write, col := EndLine(dest, base, lineSize, start, src, pos, write, col);
    }
    if Holds(lineSize, start, src, |src|, dest[base..base + write], col) {
      HoldsAll(lineSize, start, src, dest[base..base + write], col);
    }
  }

  lemma NeedSome(lineSize: nat, start: Column, src: seq<byte>)
    ensures 16 <= Need(lineSize, start, src)
  {
  }

  lemma FirstHolds(lineSize: nat, src: seq<byte>, out: seq<byte>)
    requires src != [] && out == First(src[0])
    ensures Holds(lineSize, At(0), src, 1, out, |out|)
  {
    EncodeNext(lineSize, At(0), src, 0);
    assert [] + out == out;
  }

  lemma NothingHolds(lineSize: nat, col: nat, src: seq<byte>)
    requires 0 < col
    ensures Holds(lineSize, At(col), src, 0, [], col)
  {
  }

  /** doEnd: a blank in the very last place is escaped. */
  method CloseLine(dest: array<byte>, base: nat, open: nat) returns (write: nat)
    requires 0 < open && base + open < dest.Length
    modifies dest
    ensures base + write <= dest.Length
    ensures dest[base..base + write] == Laws.Closed(old(dest[base..base + open]))
    ensures dest[..base] == old(dest[..base])
  {
    write := open;
    ghost var out := dest[base..base + open];
    var lc := dest[base + write - 1];
    assert out[|out| - 1] == lc;
    if lc == TAB || lc == SPACE {
      dest[base + write - 1] := EQUALS;
      dest[base + write] := lc + 64;
      write := write + 1;
      assert dest[base..base + write] == out[..|out| - 1] + [EQUALS, lc + 64];
    }
  }

  /** encodeGeneric. The bytes, whatever the batches did, are the automaton's; the column it
      leaves forgets that a last-column byte filled the line. */
  method EncodeGeneric(dest: array<byte>, base: nat, lineSize: nat, colOffset: nat, src: seq<byte>, doEnd: bool)
    returns (write: nat, col: nat)
    requires 1 <= lineSize && src != [] && base + Need(lineSize, At(colOffset), src) <= dest.Length
    modifies dest
    ensures base + write <= dest.Length
    ensures var w := EncodeAll(lineSize, At(colOffset), src);
      && dest[base..base + write] == (if doEnd then Laws.Closed(w.out) else w.out)
      && col == Laws.Exposed(lineSize, w.column) + (if doEnd then write - |w.out| else 0)
    ensures dest[..base] == old(dest[..base])
  {
    hide Encode, Laws.Closed, Laws.Exposed;
    var open;
    open, col := EncodeOpen(dest, base, lineSize, colOffset, src);
    write := open;
    Laws.FirstOut(lineSize, At(colOffset), src, |src|);
    if doEnd {
      write := CloseLine(dest, base, open);
      Laws.ClosedLength(EncodeAll(lineSize, At(colOffset), src).out);
      col := col + (write - open);
    }
  }
}
