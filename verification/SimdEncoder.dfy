/** encodeSIMD: the driver around the AVX2 kernel. */
module SimdEncoder {
  import opened Bytes
  import opened ColumnEncoder
  import Cursor = Avx2Cursor
  import Laws = EncodingLaws
  import G = GenericEncoder
  import K = Avx2Encoder
  import T = ExpandTables

  /** What encodeGeneric delivers. */
  ghost predicate Plainly(lineSize: nat, colOffset: nat, src: seq<byte>, doEnd: bool, out: seq<byte>, col: nat) {
    var w := EncodeAll(lineSize, At(colOffset), src);
    && out == (if doEnd then Laws.Closed(w.out) else w.out)
    && col == Laws.Exposed(lineSize, w.column) + |out| - |w.out|
  }

  /** What the driver promises. Where the kernel takes everything, the last line is full and its
      break has been written too, so that the next call starts a line; otherwise the scalar loop
      comes last, and it is what encodeGeneric delivers. */
  ghost predicate Promised(lineSize: nat, colOffset: nat, src: seq<byte>, doEnd: bool, out: seq<byte>, col: nat) {
    if Cursor.TakesAll(lineSize, colOffset, src) then
      var w := EncodeAll(lineSize, At(colOffset), src);
      IsFull(lineSize, w.column) && out == w.out + NEWLINE && col == 0
    else
      Plainly(lineSize, colOffset, src, doEnd, out, col)
  }

  lemma KernelTookAll(lineSize: nat, colOffset: nat, src: seq<byte>, out: seq<byte>, doEnd: bool)
    requires 1 <= lineSize && src != [] && K.Eagerly(lineSize, colOffset, src, |src|, out, 0)
    requires Cursor.TakesAll(lineSize, colOffset, src)
    ensures Promised(lineSize, colOffset, src, doEnd, out, 0)
    ensures out != [] && out[|out| - 1] == LF
  {
    EagerIsSettled(lineSize, colOffset, src, |src|);
    EncodeNext(lineSize, At(colOffset), src, |src| - 1);
  }

  lemma TailRoom(lineSize: nat, colOffset: nat, src: seq<byte>, n: nat, out: seq<byte>, col: nat)
    requires 1 <= lineSize && n < |src| && K.Eagerly(lineSize, colOffset, src, n, out, col)
    ensures |out| + G.Need(lineSize, At(col), src[n..]) <= G.MaxLength(|src|, lineSize)
  {
    EagerThenLazy(lineSize, colOffset, src, n);
    G.MaxLengthSuffices(lineSize, At(colOffset), src);
  }

  /** The kernel's bytes and the scalar loop's make the lazy encoding of the whole. */
  lemma TailCompletes(lineSize: nat, colOffset: nat, src: seq<byte>, n: nat, out: seq<byte>, col: nat,
      doEnd: bool, rest: seq<byte>, newCol: nat)
    requires 1 <= lineSize && n < |src| && K.Eagerly(lineSize, colOffset, src, n, out, col)
    requires var w := EncodeAll(lineSize, At(col), src[n..]);
      && rest == (if doEnd then Laws.Closed(w.out) else w.out)
      && newCol == Laws.Exposed(lineSize, w.column) + |rest| - |w.out|
    ensures Plainly(lineSize, colOffset, src, doEnd, out + rest, newCol)
  {
    hide Encode, Laws.Closed;
    EagerThenLazy(lineSize, colOffset, src, n);
    Laws.FirstOut(lineSize, At(col), src[n..], |src| - n);
    Laws.ClosedAppend(out, EncodeAll(lineSize, At(col), src[n..]).out);
  }

  // The scalar loop over what the kernel left.
  method EncodeTail(dest: array<byte>, base: nat, lineSize: nat, ghost colOffset: nat, src: seq<byte>, doEnd: bool,
      consumed: nat, written: nat, c: nat)
    returns (write: nat, col: nat)
    requires 1 <= lineSize && base + G.MaxLength(|src|, lineSize) <= dest.Length
    requires consumed < |src| && base + written <= dest.Length
    requires K.Eagerly(lineSize, colOffset, src, consumed, dest[base..base + written], c)
    modifies dest
    ensures base + write <= dest.Length && dest[..base] == old(dest[..base])
    ensures Plainly(lineSize, colOffset, src, doEnd, dest[base..base + write], col)
  {
    hide K.Eagerly, G.MaxLength, G.Need, Plainly, Laws.Closed, Laws.Exposed, Encode;
    ghost var out := dest[base..base + written];
    TailRoom(lineSize, colOffset, src, consumed, out, c);
    var n;
    n, col := G.EncodeGeneric(dest, base + written, lineSize, c, src[consumed..], doEnd);
    write := written + n;
    assert dest[..base + written][..base] == dest[..base];
    assert dest[base..base + written] == out;
    assert dest[base..base + write] == dest[base..base + written] + dest[base + written..base + write];
    Laws.ClosedLength(EncodeAll(lineSize, At(c), src[consumed..]).out);
    TailCompletes(lineSize, colOffset, src, consumed, out, c, doEnd, dest[base + written..base + write], col);
  }

  // encodeSIMD on something to encode.
  method EncodeSome(dest: array<byte>, base: nat, lut: array2<byte>, lineSize: nat, colOffset: nat, src: seq<byte>, doEnd: bool)
    returns (write: nat, col: nat)
    requires 1 <= lineSize && src != [] && base + G.MaxLength(|src|, lineSize) <= dest.Length
    requires T.IsExpandLut(lut)
    modifies dest
    ensures base + write <= dest.Length && dest[..base] == old(dest[..base])
    ensures Promised(lineSize, colOffset, src, doEnd, dest[base..base + write], col)
  {
    hide K.Eagerly, G.MaxLength, Plainly, T.IsExpandLut, Encode, Cursor.Stops;
    var consumed, written := 0, 0;
    col := colOffset;
    K.EagerStart(lineSize, colOffset, src);
    assert dest[base..base] == [];
    if |src| >= 12 {
      consumed, written, col := K.EncodeBlocks(dest, base, lut, lineSize, colOffset, src);
    }
    if consumed >= |src| {
      write := written;
      KernelTookAll(lineSize, colOffset, src, dest[base..base + write], doEnd);
      var lc := dest[base..base + write][write - 1];
      if doEnd && write > 0 && (lc == TAB || lc == SPACE) {
        // the kernel has just ended a line, so this is its LF
        assert false;
      }
    } else {
      write, col := EncodeTail(dest, base, lineSize, colOffset, src, doEnd, consumed, written, col);
    }
  }

  /** encodeSIMD. A negative column counts as 0. */
  method EncodeSimd(dest: array<byte>, base: nat, lut: array2<byte>, lineSize: nat, colOffset: int, src: seq<byte>, doEnd: bool)
    returns (write: nat, col: int)
    requires 1 <= lineSize && base + G.MaxLength(|src|, lineSize) <= dest.Length
    requires T.IsExpandLut(lut)
    modifies dest
    ensures base + write <= dest.Length && dest[..base] == old(dest[..base])
    ensures src == [] ==> write == 0 && col == colOffset
    ensures src != [] ==> 0 <= col
    ensures src != [] ==>
      Promised(lineSize, if colOffset < 0 then 0 else colOffset, src, doEnd, dest[base..base + write], col)
  {
    hide G.MaxLength, Promised, T.IsExpandLut;
    if |src| < 1 {
      return 0, colOffset;
    }
    write, col := EncodeSome(dest, base, lut, lineSize, if colOffset < 0 then 0 else colOffset, src, doEnd);
  }

  /** Against encodeGeneric on the same input: the same bytes and column, unless the kernel takes
      everything; then one more line break, and column 0 in place of the full line's. */
  lemma AgainstGeneric(lineSize: nat, colOffset: nat, src: seq<byte>, doEnd: bool, out: seq<byte>, col: nat,
      generic: seq<byte>, genericCol: nat)
    requires 1 <= lineSize && src != [] && Promised(lineSize, colOffset, src, doEnd, out, col)
    requires Plainly(lineSize, colOffset, src, doEnd, generic, genericCol)
    ensures out == generic <==> !Cursor.TakesAll(lineSize, colOffset, src)
    ensures out == generic ==> col == genericCol
    ensures out != generic ==> out == generic + NEWLINE && col == 0 && lineSize - 1 <= genericCol
    ensures out != generic ==> 65 <= lineSize <= 129
  {
    hide Cursor.TakesAll;
    if Cursor.TakesAll(lineSize, colOffset, src) {
      FullEndsUnblank(lineSize, colOffset, src);
      Cursor.TakesAllOnly(lineSize, colOffset, src);
    }
  }

  // A full line never ends in a raw tab or space, so there is nothing for doEnd to do.
  lemma FullEndsUnblank(lineSize: nat, colOffset: nat, src: seq<byte>)
    requires 1 <= lineSize && src != [] && IsFull(lineSize, EncodeAll(lineSize, At(colOffset), src).column)
    ensures var out := EncodeAll(lineSize, At(colOffset), src).out; Laws.Closed(out) == out
  {
    var n := |src| - 1;
    var before := Encode(lineSize, At(colOffset), src, n);
    EncodeNext(lineSize, At(colOffset), src, n);
    var e := EncodeByte(lineSize, before.column, src[n]);
    Laws.BlankIsMid(lineSize, before.column, src[n]);
    Laws.ClosedAppend(before.out, e.out);
  }
}
