/** What the encoder writes, in plain numbers and from the front: a line is filled byte by byte,
    and a byte takes two columns exactly where its plain form must not stand. */
module EncodedForm {
  import opened Bytes
  import E = ColumnEncoder
  import Laws = EncodingLaws

  // ----- the form

  /** The plain forms that must not stand: 0, 10, 13 and 61 anywhere, 9 and 32 in a line's first
      and last column, and 46 in its first. */
  predicate Forbidden(plain: byte, first: bool, last: bool) {
    || plain == 0 || plain == 10 || plain == 13 || plain == 61
    || ((plain == 9 || plain == 32) && (first || last))
    || (plain == 46 && first)
  }

  function Unit(c: byte, first: bool, last: bool): (u: seq<byte>)
    ensures 1 <= |u| <= 2
  {
    if Forbidden(c + 42, first, last) then [61, c + 42 + 64] else [c + 42]
  }

  /** Lines of lineSize columns, from a column on; the last byte of a line may go one over. A break
      is written only when a byte follows it. */
  function Layout(lineSize: nat, col: nat, src: seq<byte>): seq<byte>
    requires 1 <= lineSize
    decreases |src|, if lineSize <= col then 1 else 0
  {
    if src == [] then []
    else if lineSize <= col then [13, 10] + Layout(lineSize, 0, src)
    else
      var u := Unit(src[0], col == 0, col == lineSize - 1);
      u + Layout(lineSize, col + |u|, src[1..])
  }

  // ----- the encoder writes it

  // The column, once the last one counts as written.
  function ColumnOf(lineSize: nat, column: E.Column): nat {
    if column.Filled? then lineSize else column.col
  }

  lemma UnitsAre(c: byte)
    ensures E.First(c) == Unit(c, true, false) == Unit(c, true, true)
    ensures E.Mid(c) == Unit(c, false, false)
    ensures E.Last(c) == Unit(c, false, true)
  {
    EscapedSum(c);
  }

  lemma EscapedSum(c: byte)
    ensures c + 42 + 64 == c + 106
    ensures c + 42 == 0 <==> c == 214
    ensures c + 42 == 10 <==> c == 224
    ensures c + 42 == 13 <==> c == 227
    ensures c + 42 == 61 <==> c == 19
    ensures c + 42 == 9 <==> c == 223
    ensures c + 42 == 32 <==> c == 246
    ensures c + 42 == 46 <==> c == 4
  {
  }

  lemma ByteIs(lineSize: nat, column: E.Column, c: byte)
    requires 1 <= lineSize
    ensures var e, col := E.EncodeByte(lineSize, column, c), ColumnOf(lineSize, column);
      var full := lineSize <= col;
      var u := if full then Unit(c, true, lineSize == 1) else Unit(c, col == 0, col == lineSize - 1);
      && e.out == (if full then [13, 10] + u else u)
      && (ColumnOf(lineSize, e.column) == (if full then 0 else col) + |u|
          || (!full && e.column.Filled? && lineSize <= col + |u|))
  {
    hide E.First, E.Mid, E.Last, Unit;
    UnitsAre(c);
  }

  /** A full line is full, by however much. */
  lemma FullAlike(lineSize: nat, a: nat, b: nat, src: seq<byte>)
    requires 1 <= lineSize && (a == b || (lineSize <= a && lineSize <= b))
    ensures Layout(lineSize, a, src) == Layout(lineSize, b, src)
  {
  }

  lemma LayoutNext(lineSize: nat, column: E.Column, src: seq<byte>)
    requires 1 <= lineSize && src != []
    ensures var e := E.EncodeByte(lineSize, column, src[0]);
      Layout(lineSize, ColumnOf(lineSize, column), src)
      == e.out + Layout(lineSize, ColumnOf(lineSize, e.column), src[1..])
  {
    hide E.EncodeByte, Unit, Layout;
    var e, col := E.EncodeByte(lineSize, column, src[0]), ColumnOf(lineSize, column);
    ByteIs(lineSize, column, src[0]);
    if lineSize <= col {
      var u := Unit(src[0], true, lineSize == 1);
      FullAlike(lineSize, ColumnOf(lineSize, e.column), |u|, src[1..]);
      LaidOut(lineSize, 0, src);
      LaidOut(lineSize, col, src);
      assert [13, 10] + (u + Layout(lineSize, |u|, src[1..])) == ([13, 10] + u) + Layout(lineSize, |u|, src[1..]);
    } else {
      var u := Unit(src[0], col == 0, col == lineSize - 1);
      FullAlike(lineSize, ColumnOf(lineSize, e.column), col + |u|, src[1..]);
      LaidOut(lineSize, col, src);
    }
  }

  lemma LaidOut(lineSize: nat, col: nat, src: seq<byte>)
    requires 1 <= lineSize && src != []
    ensures Layout(lineSize, col, src)
      == if lineSize <= col then [13, 10] + Layout(lineSize, 0, src)
        else
          var u := Unit(src[0], col == 0, col == lineSize - 1);
          u + Layout(lineSize, col + |u|, src[1..])
  {
    hide Unit;
  }

  /** For every line size, start column and source, the automaton writes the layout. */
  lemma {:induction false} EncodeIsLayout(lineSize: nat, start: E.Column, src: seq<byte>)
    requires 1 <= lineSize
    ensures E.EncodeAll(lineSize, start, src).out == Layout(lineSize, ColumnOf(lineSize, start), src)
    decreases |src|
  {
    hide E.EncodeByte, Layout;
    if src == [] {
      NothingLaidOut(lineSize, ColumnOf(lineSize, start));
    } else {
      var e := E.EncodeByte(lineSize, start, src[0]);
      assert src == [src[0]] + src[1..];
      E.EncodeConcat(lineSize, start, [src[0]], src[1..], |src| - 1);
      E.EncodeNext(lineSize, start, [src[0]], 0);
      assert E.EncodeAll(lineSize, start, [src[0]]) == E.Written([] + e.out, e.column);
      assert [] + e.out == e.out;
      EncodeIsLayout(lineSize, e.column, src[1..]);
      LayoutNext(lineSize, start, src);
    }
  }

  lemma NothingLaidOut(lineSize: nat, col: nat)
    requires 1 <= lineSize
    ensures Layout(lineSize, col, []) == []
  {
  }

  // ----- what can be read off the bytes written

  /** The column a byte of the output stands in, counted from the last 10. */
  function Place(out: seq<byte>, col: nat, i: nat): nat
    requires i <= |out|
  {
    if i == 0 then col else if out[i - 1] == 10 then 0 else Place(out, col, i - 1) + 1
  }

  /** The second of two bytes, the first a 61. */
  predicate Second(out: seq<byte>, i: nat)
    requires i < |out|
  {
    0 < i && out[i - 1] == 61
  }

  /** What stands at a place: a 61 only before a byte that had to be escaped there, by its plain
      form; alone, a byte that need not be; and a break, of 13 and 10, exactly where the line is full. */
  ghost predicate WellPlaced(lineSize: nat, out: seq<byte>, col: nat, i: nat)
    requires i < |out|
  {
    var at := Place(out, col, i);
    && (out[i] == 61 ==> at < lineSize && i + 1 < |out| && Forbidden(out[i + 1] - 64, at == 0, at == lineSize - 1))
    && (out[i] == 13 ==> lineSize <= at && i + 1 < |out| && out[i + 1] == 10)
    && (out[i] == 10 ==> 0 < i && out[i - 1] == 13)
    && (out[i] != 61 && out[i] != 13 && out[i] != 10 && !Second(out, i) ==>
          at < lineSize && !Forbidden(out[i], at == 0, at == lineSize - 1))
    && (Second(out, i) ==> at <= lineSize)
  }

  ghost predicate AllPlaced(lineSize: nat, out: seq<byte>, col: nat) {
    forall i :: 0 <= i < |out| ==> WellPlaced(lineSize, out, col, i)
  }

  lemma {:induction false} PlaceBehind(a: seq<byte>, b: seq<byte>, col: nat, next: nat, i: nat)
    requires i <= |b| && Place(a, col, |a|) == next
    ensures Place(a + b, col, |a| + i) == Place(b, next, i)
  {
    if i == 0 {
      PlaceBefore(a, b, col, |a|);
    } else {
      PlaceBehind(a, b, col, next, i - 1);
      assert (a + b)[|a| + i - 1] == b[i - 1];
    }
  }

  lemma {:induction false} PlaceBefore(a: seq<byte>, b: seq<byte>, col: nat, i: nat)
    requires i <= |a|
    ensures Place(a + b, col, i) == Place(a, col, i)
  {
    if i > 0 {
      PlaceBefore(a, b, col, i - 1);
      assert (a + b)[i - 1] == a[i - 1];
    }
  }

  /** A front of one piece that is well placed whatever follows, and does not end in a 61 or 13. */
  lemma PieceThen(lineSize: nat, a: seq<byte>, b: seq<byte>, col: nat, next: nat)
    requires 1 <= |a| && a[|a| - 1] != 61 && a[|a| - 1] != 13 && Place(a, col, |a|) == next
    requires AllPlaced(lineSize, a, col)
    requires AllPlaced(lineSize, b, next)
    ensures AllPlaced(lineSize, a + b, col)
  {
    var s := a + b;
    forall i | 0 <= i < |s|
      ensures WellPlaced(lineSize, s, col, i)
    {
      if i < |a| {
        PlaceBefore(a, b, col, i);
        assert WellPlaced(lineSize, a, col, i);
      } else {
        PlaceBehind(a, b, col, next, i - |a|);
        assert WellPlaced(lineSize, b, next, i - |a|);
      }
    }
  }

  lemma UnitPlaced(lineSize: nat, col: nat, c: byte)
    requires col < lineSize
    ensures var u := Unit(c, col == 0, col == lineSize - 1);
      && u[|u| - 1] != 61 && u[|u| - 1] != 13 && Place(u, col, |u|) == col + |u|
      && AllPlaced(lineSize, u, col)
  {
    var u := Unit(c, col == 0, col == lineSize - 1);
    EscapedSum(c);
    UnitBytes(c, col == 0, col == lineSize - 1);
    assert Place(u, col, 0) == col && Place(u, col, 1) == col + 1;
  }

  lemma UnitBytes(c: byte, first: bool, last: bool)
    ensures var u := Unit(c, first, last);
      && (|u| == 1 ==> u[0] != 61 && u[0] != 13 && u[0] != 10 && !Forbidden(u[0], first, last))
      && (|u| == 2 ==> u[0] == 61 && u[1] != 61 && u[1] != 13 && u[1] != 10 && Forbidden(u[1] - 64, first, last))
  {
    assert (c + 42 + 64) - 64 == c + 42;
  }

  lemma BreakPlaced(lineSize: nat, col: nat)
    requires lineSize <= col
    ensures var b: seq<byte> := [13, 10];
      Place(b, col, 2) == 0 && AllPlaced(lineSize, b, col)
  {
  }

  /** Of every layout, every byte is where it may be: nothing is escaped that need not be, nothing
      stands plain that must not, and lines break where they are full and nowhere else. */
  lemma {:induction false} LayoutPlaced(lineSize: nat, col: nat, src: seq<byte>)
    requires 1 <= lineSize
    ensures AllPlaced(lineSize, Layout(lineSize, col, src), col)
    decreases |src|, if lineSize <= col then 1 else 0
  {
    hide Unit, AllPlaced, Place;
    if src == [] {
      NonePlaced(lineSize, col);
    } else if lineSize <= col {
      LayoutPlaced(lineSize, 0, src);
      BreakPlaced(lineSize, col);
      PieceThen(lineSize, [13, 10], Layout(lineSize, 0, src), col, 0);
    } else {
      var u := Unit(src[0], col == 0, col == lineSize - 1);
      LayoutPlaced(lineSize, col + |u|, src[1..]);
      UnitPlaced(lineSize, col, src[0]);
      PieceThen(lineSize, u, Layout(lineSize, col + |u|, src[1..]), col, col + |u|);
    }
  }

  lemma NonePlaced(lineSize: nat, col: nat)
    ensures AllPlaced(lineSize, [], col)
  {
  }

  /** So for everything the automaton writes. */
  lemma EncodedPlaced(lineSize: nat, start: E.Column, src: seq<byte>)
    requires 1 <= lineSize
    ensures AllPlaced(lineSize, E.EncodeAll(lineSize, start, src).out, ColumnOf(lineSize, start))
  {
    EncodeIsLayout(lineSize, start, src);
    LayoutPlaced(lineSize, ColumnOf(lineSize, start), src);
  }

  /** doEnd escapes a 9 or 32 in the last place and changes nothing else. */
  lemma ClosedForm(out: seq<byte>)
    ensures Laws.Closed(out)
      == if out != [] && (out[|out| - 1] == 9 || out[|out| - 1] == 32)
         then out[..|out| - 1] + [61, out[|out| - 1] + 64] else out
  {
  }
}
