/** What the encoder writes, one byte at a time, with the column it has reached. */
module ColumnEncoder {
  import opened Bytes

  // ----- which bytes are escaped where (escape and escaped)

  /** Encodes to NUL, LF, CR or `=`: escaped everywhere. */
  predicate IsCritical(c: byte) { c == 214 || c == 214 + CR || c == 214 + LF || c == EQUALS - SHIFT }

  predicate IsCriticalFirst(c: byte) {
    IsCritical(c) || c == 214 + TAB || c == 214 + SPACE || c == DOT - SHIFT
  }

  predicate IsCriticalLast(c: byte) { IsCriticalFirst(c) && c != DOT - SHIFT }

  function Encoded(c: byte, escaped: bool): (e: seq<byte>)
    ensures |e| == if escaped then 2 else 1
  {
    if escaped then [EQUALS, c + ESCAPED_SHIFT] else [c + SHIFT]
  }

  function First(c: byte): (e: seq<byte>)
    ensures 1 <= |e| <= 2
  {
    Encoded(c, IsCriticalFirst(c))
  }

  function Mid(c: byte): (e: seq<byte>)
    ensures 1 <= |e| <= 2
  {
    Encoded(c, IsCritical(c))
  }

  function Last(c: byte): (e: seq<byte>)
    ensures 1 <= |e| <= 2
  {
    Encoded(c, IsCriticalLast(c))
  }

  // ----- the column automaton

  /** Where the next byte goes. Filled says that the last column has been written, which the
      encoder's own column does not. */
  datatype Column = At(col: nat) | Filled

  predicate IsFull(lineSize: nat, column: Column) {
    column.Filled? || column.col >= lineSize
  }

  datatype Written = Written(out: seq<byte>, column: Column)

  function EncodeByte(lineSize: nat, column: Column, c: byte): Written {
    if column == At(0) then Written(First(c), At(|First(c)|))
    else if IsFull(lineSize, column) then Written(NEWLINE + First(c), At(|First(c)|))
    else if column.col < lineSize - 1 then Written(Mid(c), At(column.col + |Mid(c)|))
    else Written(Last(c), Filled)
  }

  function Append(w: Written, lineSize: nat, c: byte): Written {
    var e := EncodeByte(lineSize, w.column, c);
    Written(w.out + e.out, e.column)
  }

  /** The first n bytes of src, encoded from the given column. A line break is written only when
      a byte follows it. */
  function Encode(lineSize: nat, start: Column, src: seq<byte>, n: nat): Written
    requires n <= |src|
  {
    if n == 0 then Written([], start)
    else Append(Encode(lineSize, start, src, n - 1), lineSize, src[n - 1])
  }

  function EncodeAll(lineSize: nat, start: Column, src: seq<byte>): Written {
    Encode(lineSize, start, src, |src|)
  }

  // ----- composition

  lemma EncodeNext(lineSize: nat, start: Column, src: seq<byte>, n: nat)
    requires n < |src|
    ensures Encode(lineSize, start, src, n + 1) == Append(Encode(lineSize, start, src, n), lineSize, src[n])
  {
  }

  lemma {:induction false} EncodePrefix(lineSize: nat, start: Column, a: seq<byte>, b: seq<byte>, n: nat)
    requires n <= |a|
    ensures Encode(lineSize, start, a + b, n) == Encode(lineSize, start, a, n)
  {
    if n > 0 {
      EncodePrefix(lineSize, start, a, b, n - 1);
      assert (a + b)[n - 1] == a[n - 1];
    }
  }

  function After(out: seq<byte>, w: Written): Written {
    Written(out + w.out, w.column)
  }

  lemma AppendAfter(out: seq<byte>, w: Written, lineSize: nat, c: byte)
    ensures Append(After(out, w), lineSize, c) == After(out, Append(w, lineSize, c))
  {
    var e := EncodeByte(lineSize, w.column, c).out;
    assert (out + w.out) + e == out + (w.out + e);
  }

  lemma {:induction false} EncodeConcat(lineSize: nat, start: Column, a: seq<byte>, b: seq<byte>, k: nat)
    requires k <= |b|
    ensures Encode(lineSize, start, a + b, |a| + k)
      == After(EncodeAll(lineSize, start, a).out, Encode(lineSize, EncodeAll(lineSize, start, a).column, b, k))
  {
    hide Append, EncodeByte;
    var wa := EncodeAll(lineSize, start, a);
    if k == 0 {
      EncodePrefix(lineSize, start, a, b, |a|);
      assert wa.out + [] == wa.out;
    } else {
      EncodeConcat(lineSize, start, a, b, k - 1);
      assert (a + b)[|a| + k - 1] == b[k - 1];
      AppendAfter(wa.out, Encode(lineSize, wa.column, b, k - 1), lineSize, b[k - 1]);
    }
  }

  // ----- the eager form

  /** The vector kernel ends a line as soon as it is full, and starts the next at column 0. */
  datatype Settled = Settled(out: seq<byte>, col: nat)

  function Settle(lineSize: nat, w: Written): Settled {
    if IsFull(lineSize, w.column) then Settled(w.out + NEWLINE, 0) else Settled(w.out, w.column.col)
  }

  function EncodeEagerly(lineSize: nat, col: nat, src: seq<byte>, n: nat): Settled
    requires n <= |src|
  {
    if n == 0 then Settled([], col)
    else
      var before := EncodeEagerly(lineSize, col, src, n - 1);
      var next := Settle(lineSize, EncodeByte(lineSize, At(before.col), src[n - 1]));
      Settled(before.out + next.out, next.col)
  }

  /** A byte after a full line: the lazy form writes the break first, the eager form already has. */
  lemma SettledAppend(lineSize: nat, w: Written, c: byte)
    requires 1 <= lineSize
    ensures var before := Settle(lineSize, w);
      var next := Settle(lineSize, EncodeByte(lineSize, At(before.col), c));
      Settle(lineSize, Append(w, lineSize, c)) == Settled(before.out + next.out, next.col)
  {
    var lazy, eager := EncodeByte(lineSize, w.column, c), EncodeByte(lineSize, At(Settle(lineSize, w).col), c);
    assert w.out + lazy.out == Settle(lineSize, w).out + eager.out by {
      assert w.out + (NEWLINE + First(c)) == (w.out + NEWLINE) + First(c);
    }
    assert (w.out + lazy.out) + NEWLINE == Settle(lineSize, w).out + (eager.out + NEWLINE);
  }

  /** The eager form is the lazy one with the last line's break brought forward. */
  lemma {:induction false} EagerIsSettled(lineSize: nat, col: nat, src: seq<byte>, n: nat)
    requires 1 <= lineSize && 0 < n <= |src|
    ensures EncodeEagerly(lineSize, col, src, n) == Settle(lineSize, Encode(lineSize, At(col), src, n))
  {
    EncodeNext(lineSize, At(col), src, n - 1);
    if n == 1 {
      var e := EncodeByte(lineSize, At(col), src[0]);
      assert Encode(lineSize, At(col), src, 1) == Written([] + e.out, e.column);
      assert [] + e.out == e.out && [] + Settle(lineSize, e).out == Settle(lineSize, e).out;
      assert EncodeEagerly(lineSize, col, src, 0) == Settled([], col);
    } else {
      EagerIsSettled(lineSize, col, src, n - 1);
      SettledAppend(lineSize, Encode(lineSize, At(col), src, n - 1), src[n - 1]);
    }
  }

  /** A tail encoded from where the eager form stands completes the lazy encoding. */
  lemma EagerThenLazy(lineSize: nat, col: nat, src: seq<byte>, n: nat)
    requires 1 <= lineSize && n < |src|
    ensures var e := EncodeEagerly(lineSize, col, src, n);
      EncodeAll(lineSize, At(col), src) == After(e.out, EncodeAll(lineSize, At(e.col), src[n..]))
  {
    hide Append, EncodeByte, Settle;
    assert src == src[..n] + src[n..];
    EncodeConcat(lineSize, At(col), src[..n], src[n..], |src| - n);
    EncodePrefix(lineSize, At(col), src[..n], src[n..], n);
    if n > 0 {
      EagerIsSettled(lineSize, col, src, n);
      FullThenFirst(lineSize, Encode(lineSize, At(col), src, n), src[n..], |src| - n);
    }
  }

  lemma {:induction false} FullThenFirst(lineSize: nat, w: Written, src: seq<byte>, n: nat)
    requires 1 <= lineSize && 0 < n <= |src|
    ensures After(w.out, Encode(lineSize, w.column, src, n))
      == After(Settle(lineSize, w).out, Encode(lineSize, At(Settle(lineSize, w).col), src, n))
  {
    var s := Settle(lineSize, w);
    if n == 1 {
      SettledFirst(lineSize, w, src);
    } else {
      FullThenFirst(lineSize, w, src, n - 1);
      AppendAfter(w.out, Encode(lineSize, w.column, src, n - 1), lineSize, src[n - 1]);
      AppendAfter(s.out, Encode(lineSize, At(s.col), src, n - 1), lineSize, src[n - 1]);
    }
  }

  lemma SettledFirst(lineSize: nat, w: Written, src: seq<byte>)
    requires 1 <= lineSize && 0 < |src|
    ensures After(w.out, Encode(lineSize, w.column, src, 1))
      == After(Settle(lineSize, w).out, Encode(lineSize, At(Settle(lineSize, w).col), src, 1))
  {
    var c := src[0];
    EncodeNext(lineSize, w.column, src, 0);
    EncodeNext(lineSize, At(Settle(lineSize, w).col), src, 0);
    assert w.out + ([] + (NEWLINE + First(c))) == (w.out + NEWLINE) + ([] + First(c));
  }
}
