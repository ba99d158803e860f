/** What holds of everything the encoder writes: it decodes back, its lines keep their shape, and
    its length is bounded. */
module EncodingLaws {
  import opened Bytes
  import opened YencMachine
  import E = ColumnEncoder

  // ----- round trip

  // CR LF `=y`
  const CONTROL: seq<byte> := [13, 10, 61, 121]

  lemma PlainDecodes(c: byte, e: bool, q: State)
    requires E.IsCritical(c) ==> e
    requires e ==> E.IsCriticalFirst(c)
    requires q == StateNone || (q == StateCRLF && (c == DOT - SHIFT ==> e))
    ensures Decode(q, E.Encoded(c, e)) == Live([c], StateNone)
  {
    var s := E.Encoded(c, e);
    RunEmpty(q, s);
    RunNext(q, s, 0, [], q);
    assert [] + [c] == [c];
    if e {
      assert Step(q, EQUALS) == Go([], if q == StateCRLF then StateCRLFEQ else StateEQ);
      assert c + ESCAPED_SHIFT != CR && c + ESCAPED_SHIFT != LETTER_Y;
      assert (c + ESCAPED_SHIFT) - ESCAPED_SHIFT == c;
      RunNext(q, s, 1, [], if q == StateCRLF then StateCRLFEQ else StateEQ);
    } else {
      assert (c + SHIFT) - SHIFT == c;
      assert c + SHIFT != CR && c + SHIFT != LF && c + SHIFT != EQUALS;
      assert q == StateCRLF ==> c + SHIFT != DOT;
    }
  }

  lemma NewlineDecodes(q: State)
    requires q == StateNone || q == StateCRLF
    ensures Decode(q, NEWLINE) == Live([], StateCRLF)
  {
    RunNext(q, NEWLINE, 0, [], q);
    RunNext(q, NEWLINE, 1, [], StateCR);
  }

  /** The decoder is at a line's start exactly where the encoder may be. */
  predicate Aligned(q: State, column: E.Column) {
    q == StateNone || (q == StateCRLF && column == E.At(0))
  }

  lemma ByteDecodes(lineSize: nat, column: E.Column, c: byte, q: State)
    requires Aligned(q, column)
    ensures Decode(q, E.EncodeByte(lineSize, column, c).out) == Live([c], StateNone)
  {
    if column == E.At(0) {
      PlainDecodes(c, E.IsCriticalFirst(c), q);
    } else if E.IsFull(lineSize, column) {
      DecodeConcat(q, NEWLINE, E.First(c));
      NewlineDecodes(q);
      PlainDecodes(c, E.IsCriticalFirst(c), StateCRLF);
      assert [] + [c] == [c];
    } else if column.col < lineSize - 1 {
      PlainDecodes(c, E.IsCritical(c), q);
    } else {
      PlainDecodes(c, E.IsCriticalLast(c), q);
    }
  }

  /** Whatever the column it starts in, encoded data decodes to itself. */
  lemma {:induction false} EncodedDecodes(lineSize: nat, start: E.Column, src: seq<byte>, n: nat, q: State)
    requires n <= |src| && Aligned(q, start)
    ensures Decode(q, E.Encode(lineSize, start, src, n).out) == Live(src[..n], if n == 0 then q else StateNone)
  {
    hide Run, E.EncodeByte, Decode;
    if n == 0 {
      NothingDecodes(q);
      return;
    }
    EncodedDecodes(lineSize, start, src, n - 1, q);
    var before := E.Encode(lineSize, start, src, n - 1);
    var r := if n == 1 then q else StateNone;
    var e := E.EncodeByte(lineSize, before.column, src[n - 1]);
    ByteDecodes(lineSize, before.column, src[n - 1], r);
    DecodeConcat(q, before.out, e.out);
    assert src[..n] == src[..n - 1] + [src[n - 1]];
  }

  lemma NothingDecodes(q: State)
    ensures Decode(q, []) == Live([], q)
  {
  }

  /** doEnd: a raw tab or space at the very end becomes an escape pair. */
  function Closed(out: seq<byte>): seq<byte> {
    if out != [] && IsBlank(out[|out| - 1]) then out[..|out| - 1] + [EQUALS, out[|out| - 1] + 64] else out
  }

  predicate IsBlank(c: byte) { c == TAB || c == SPACE }

  lemma ClosedLength(out: seq<byte>)
    ensures |out| <= |Closed(out)| <= |out| + 1
  {
  }

  lemma BlankIsMid(lineSize: nat, column: E.Column, c: byte)
    ensures var e := E.EncodeByte(lineSize, column, c).out;
      IsBlank(e[|e| - 1]) ==> e == [c + SHIFT] && column.At? && 0 < column.col < lineSize - 1
  {
  }

  lemma ClosedByteDecodes(lineSize: nat, column: E.Column, c: byte, q: State)
    requires Aligned(q, column)
    ensures E.EncodeByte(lineSize, column, c).out != []
    ensures Decode(q, Closed(E.EncodeByte(lineSize, column, c).out)) == Live([c], StateNone)
  {
    var e := E.EncodeByte(lineSize, column, c).out;
    ByteDecodes(lineSize, column, c, q);
    BlankIsMid(lineSize, column, c);
    if IsBlank(e[|e| - 1]) {
      var s := Closed(e);
      assert s == [EQUALS, (c + SHIFT) + 64];
      RunNext(q, s, 0, [], q);
      RunNext(q, s, 1, [], StateEQ);
      assert ((c + SHIFT) + 64) - ESCAPED_SHIFT == c && (c + SHIFT) + 64 != CR;
    }
  }

  /** Closing the encoding changes its last byte's form, not what it decodes to. */
  lemma ClosedDecodes(lineSize: nat, start: E.Column, src: seq<byte>, q: State)
    requires src != [] && Aligned(q, start)
    ensures Decode(q, Closed(E.EncodeAll(lineSize, start, src).out)) == Live(src, StateNone)
  {
    hide Run, E.EncodeByte, Closed;
    var n := |src|;
    var before := E.Encode(lineSize, start, src, n - 1);
    E.EncodeNext(lineSize, start, src, n - 1);
    var e := E.EncodeByte(lineSize, before.column, src[n - 1]).out;
    EncodedDecodes(lineSize, start, src, n - 1, q);
    var r := if n == 1 then q else StateNone;
    ClosedByteDecodes(lineSize, before.column, src[n - 1], r);
    ClosedAppend(before.out, e);
    DecodeConcat(q, before.out, Closed(e));
    assert src == src[..n - 1] + [src[n - 1]];
  }

  lemma ClosedAppend(a: seq<byte>, b: seq<byte>)
    requires b != []
    ensures Closed(a + b) == a + Closed(b)
  {
    assert (a + b)[|a + b| - 1] == b[|b| - 1];
    assert (a + b)[..|a + b| - 1] == a + b[..|b| - 1];
  }

  /** The law the codec is for. Encoding src from column 0, closed or not, and ending the body
      with a control line decodes to exactly src; the decoder stops just after that line's `=y`. */
  lemma RoundTrip(lineSize: nat, src: seq<byte>, doEnd: bool)
    ensures var out := E.EncodeAll(lineSize, E.At(0), src).out;
      var body := if doEnd then Closed(out) else out;
      Decode(StateCRLF, body + CONTROL) == Halted(src, StateNone, EndControl, |body| + 4)
  {
    var out := E.EncodeAll(lineSize, E.At(0), src).out;
    var body := if doEnd then Closed(out) else out;
    EncodedDecodes(lineSize, E.At(0), src, |src|, StateCRLF);
    assert src[..|src|] == src;
    if src != [] {
      ClosedDecodes(lineSize, E.At(0), src, StateCRLF);
    }
    var q := if src == [] then StateCRLF else StateNone;
    assert Decode(StateCRLF, body) == Live(src, q);
    ControlStops(q);
    DecodeConcat(StateCRLF, body, CONTROL);
    assert src + [] == src;
  }

  /** A control line ends any body that has not ended, at a line's end or after one. */
  lemma ControlLineEnds(body: seq<byte>, rest: seq<byte>)
    requires Decode(StateCRLF, body).Live?
    requires Decode(StateCRLF, body).state == StateNone || Decode(StateCRLF, body).state == StateCRLF
    ensures Decode(StateCRLF, body + [13, 10, 61, 121, 101, 110, 100] + rest)
      == Halted(Decode(StateCRLF, body).out, StateNone, EndControl, |body| + 4)
  {
    var t, after := Decode(StateCRLF, body), [101, 110, 100] + rest;
    ControlStops(t.state);
    DecodeConcat(t.state, CONTROL, after);
    DecodeConcat(StateCRLF, body, CONTROL + after);
    assert body + [13, 10, 61, 121, 101, 110, 100] + rest == body + (CONTROL + after);
    assert t.out + [] == t.out;
  }

  lemma ControlStops(q: State)
    requires q == StateNone || q == StateCRLF
    ensures Decode(q, CONTROL) == Halted([], StateNone, EndControl, 4)
  {
    RunNext(q, CONTROL, 0, [], q);
    RunNext(q, CONTROL, 1, [], StateCR);
    RunNext(q, CONTROL, 2, [], StateCRLF);
    RunNext(q, CONTROL, 3, [], StateCRLFEQ);
  }

  // ----- length

  // Line breaks among the first n bytes' encoding.
  ghost function Breaks(lineSize: nat, start: E.Column, src: seq<byte>, n: nat): nat
    requires n <= |src|
  {
    if n == 0 then 0
    else
      var column := E.Encode(lineSize, start, src, n - 1).column;
      Breaks(lineSize, start, src, n - 1) + (if BreaksBefore(lineSize, column) then 1 else 0)
  }

  // Columns of the current line, as far as it counts towards being full.
  ghost function Reached(lineSize: nat, column: E.Column): nat {
    if E.IsFull(lineSize, column) then lineSize else column.col
  }

  // Writing the next byte breaks the line first.
  predicate BreaksBefore(lineSize: nat, column: E.Column) {
    column != E.At(0) && E.IsFull(lineSize, column)
  }

  lemma ByteBudget(lineSize: nat, column: E.Column, c: byte)
    requires 1 <= lineSize
    ensures var e := E.EncodeByte(lineSize, column, c);
      var broke := BreaksBefore(lineSize, column);
      var columns := |e.out| - (if broke then 2 else 0);
      && 1 <= columns <= 2
      && Reached(lineSize, e.column) + (if broke then lineSize else 0) <= Reached(lineSize, column) + columns
  {
  }

  // lineSize for every break so far.
  ghost function Charged(lineSize: nat, start: E.Column, src: seq<byte>, n: nat): nat
    requires n <= |src|
  {
    if n == 0 then 0
    else
      var column := E.Encode(lineSize, start, src, n - 1).column;
      Charged(lineSize, start, src, n - 1) + (if BreaksBefore(lineSize, column) then lineSize else 0)
  }

  lemma {:induction false} ChargedPerBreak(lineSize: nat, start: E.Column, src: seq<byte>, n: nat)
    requires n <= |src|
    ensures Charged(lineSize, start, src, n) == Breaks(lineSize, start, src, n) * lineSize
  {
    hide E.Encode, BreaksBefore;
    if n > 0 {
      ChargedPerBreak(lineSize, start, src, n - 1);
      OneMore(Breaks(lineSize, start, src, n - 1), lineSize);
    }
  }

  lemma OneMore(b: nat, k: nat)
    ensures (b + 1) * k == b * k + k
  {
  }

  lemma {:induction false} LengthBudget(lineSize: nat, start: E.Column, src: seq<byte>, n: nat)
    requires 1 <= lineSize && n <= |src|
    ensures var w, b := E.Encode(lineSize, start, src, n), Breaks(lineSize, start, src, n);
      && n + 2 * b <= |w.out| <= 2 * n + 2 * b
      && Charged(lineSize, start, src, n) + Reached(lineSize, w.column) <= |w.out| - 2 * b + lineSize
  {
    hide E.EncodeByte, Reached, BreaksBefore;
    if n == 0 {
      ReachedBound(lineSize, start);
    } else {
      LengthBudget(lineSize, start, src, n - 1);
      ByteBudget(lineSize, E.Encode(lineSize, start, src, n - 1).column, src[n - 1]);
    }
  }

  lemma ReachedBound(lineSize: nat, column: E.Column)
    ensures Reached(lineSize, column) <= lineSize
  {
  }

  lemma BreaksBound(b: nat, lineSize: nat, columns: nat)
    requires 1 <= lineSize && b * lineSize <= columns + lineSize
    ensures b <= 1 + columns / lineSize
  {
    var d := columns / lineSize;
    assert columns < d * lineSize + lineSize;
    assert (d + 2) * lineSize == d * lineSize + lineSize + lineSize;
    assert b * lineSize < (d + 2) * lineSize;
    LessOfTimesLess(b, d + 2, lineSize);
  }

  lemma LessOfTimesLess(a: nat, b: nat, k: nat)
    requires a * k < b * k
    ensures a < b
  {
  }

  /** Whatever the starting column, n bytes encode to at most 2n, and two more for each break:
      one that may come early, and one for every lineSize columns. */
  lemma EncodedLength(lineSize: nat, start: E.Column, src: seq<byte>, n: nat)
    requires 1 <= lineSize && n <= |src|
    ensures |E.Encode(lineSize, start, src, n).out| <= 2 * n + 2 + 2 * ((2 * n) / lineSize)
  {
    LengthBudget(lineSize, start, src, n);
    ChargedPerBreak(lineSize, start, src, n);
    BreaksBound(Breaks(lineSize, start, src, n), lineSize, 2 * n);
  }

  // ----- line shape

  function Join(lines: seq<seq<byte>>): seq<byte>
    requires lines != []
  {
    if |lines| == 1 then lines[0] else Join(lines[..|lines| - 1]) + NEWLINE + lines[|lines| - 1]
  }

  // What comes before the last line.
  function JoinFront(before: seq<seq<byte>>): seq<byte> {
    if before == [] then [] else Join(before) + NEWLINE
  }

  lemma JoinLast(before: seq<seq<byte>>, line: seq<byte>)
    ensures Join(before + [line]) == JoinFront(before) + line
  {
    assert (before + [line])[..|before|] == before;
  }

  /** No CR, LF or NUL anywhere, and no dot, tab or space in front. */
  predicate CleanLine(line: seq<byte>) {
    && (forall i :: 0 <= i < |line| ==> line[i] != CR && line[i] != LF && line[i] != NUL)
    && (line != [] ==> line[0] != DOT && !IsBlank(line[0]))
  }

  // A line the encoder has finished with.
  predicate CompleteLine(lineSize: nat, line: seq<byte>) {
    CleanLine(line) && lineSize <= |line| <= lineSize + 1 && line != [] && !IsBlank(line[|line| - 1])
  }

  /** The line being written, as its column tells. */
  predicate CurrentLine(lineSize: nat, line: seq<byte>, column: E.Column) {
    && CleanLine(line)
    && (column.At? ==> |line| == column.col)
    && (E.IsFull(lineSize, column) ==> CompleteLine(lineSize, line))
    && (!E.IsFull(lineSize, column) ==> |line| < lineSize)
  }

  /** The output as complete lines and the one being written. */
  ghost predicate Shaped(lineSize: nat, lines: seq<seq<byte>>, last: seq<byte>, w: E.Written) {
    && w.out == JoinFront(lines) + last
    && AllComplete(lineSize, lines)
    && CurrentLine(lineSize, last, w.column)
  }

  predicate AllComplete(lineSize: nat, lines: seq<seq<byte>>) {
    forall i :: 0 <= i < |lines| ==> CompleteLine(lineSize, lines[i])
  }

  lemma UnitIsClean(c: byte, e: bool)
    requires E.IsCritical(c) ==> e
    requires e ==> E.IsCriticalFirst(c)
    ensures var u := E.Encoded(c, e);
      && (forall i :: 0 <= i < |u| ==> u[i] != CR && u[i] != LF && u[i] != NUL)
      && (e ==> !IsBlank(u[1]))
      && (E.IsCriticalFirst(c) == e ==> CleanLine(u))
      && ((E.IsCriticalLast(c) ==> e) ==> !IsBlank(u[|u| - 1]))
  {
  }

  lemma LineGrows(lineSize: nat, line: seq<byte>, column: E.Column, c: byte)
    requires 1 <= lineSize && CurrentLine(lineSize, line, column)
    ensures var e := E.EncodeByte(lineSize, column, c);
      if BreaksBefore(lineSize, column) then
        e.out == NEWLINE + E.First(c) && CurrentLine(lineSize, E.First(c), e.column) && CompleteLine(lineSize, line)
      else
        CurrentLine(lineSize, line + e.out, e.column)
  {
    var e := E.EncodeByte(lineSize, column, c);
    UnitIsClean(c, E.IsCriticalFirst(c));
    UnitIsClean(c, E.IsCriticalLast(c));
    UnitIsClean(c, E.IsCritical(c));
    if !BreaksBefore(lineSize, column) {
      if column == E.At(0) {
        assert line + e.out == E.First(c);
      } else {
        var longer := line + e.out;
        assert forall i :: 0 <= i < |line| ==> longer[i] == line[i];
        assert forall i :: 0 <= i < |e.out| ==> longer[|line| + i] == e.out[i];
      }
    }
  }

  lemma LineBreaks(lines: seq<seq<byte>>, last: seq<byte>, first: seq<byte>)
    ensures (JoinFront(lines) + last) + (NEWLINE + first) == JoinFront(lines + [last]) + first
  {
    JoinLast(lines, last);
    assert (JoinFront(lines) + last) + (NEWLINE + first) == ((JoinFront(lines) + last) + NEWLINE) + first;
  }

  /** From column 0, the output is lines joined by CR LF, every one but the last exactly full. */
  lemma {:induction false} LineShape(lineSize: nat, src: seq<byte>, n: nat)
    returns (lines: seq<seq<byte>>, last: seq<byte>)
    requires 1 <= lineSize && n <= |src|
    ensures Shaped(lineSize, lines, last, E.Encode(lineSize, E.At(0), src, n))
  {
    hide JoinFront, CurrentLine, CompleteLine, E.EncodeByte, BreaksBefore;
    if n == 0 {
      NothingShaped(lineSize);
      return [], [];
    }
    lines, last := LineShape(lineSize, src, n - 1);
    var w, c := E.Encode(lineSize, E.At(0), src, n - 1), src[n - 1];
    var e := E.EncodeByte(lineSize, w.column, c);
    LineGrows(lineSize, last, w.column, c);
    if BreaksBefore(lineSize, w.column) {
      LineBreaks(lines, last, E.First(c));
      lines, last := lines + [last], E.First(c);
    } else {
      assert JoinFront(lines) + (last + e.out) == (JoinFront(lines) + last) + e.out;
      last := last + e.out;
    }
  }

  lemma NothingShaped(lineSize: nat)
    requires 1 <= lineSize
    ensures Shaped(lineSize, [], [], E.Written([], E.At(0)))
  {
  }

  lemma LineStarted(lineSize: nat, line: seq<byte>, column: E.Column, c: byte)
    requires 1 <= lineSize && CurrentLine(lineSize, line, E.EncodeByte(lineSize, column, c).column)
    ensures line != []
  {
  }

  /** With doEnd, the last line does not end in a raw tab or space either. */
  lemma ClosedShape(lineSize: nat, src: seq<byte>) returns (lines: seq<seq<byte>>, last: seq<byte>)
    requires 1 <= lineSize && src != []
    ensures Join(lines + [last]) == Closed(E.EncodeAll(lineSize, E.At(0), src).out)
    ensures AllComplete(lineSize, lines)
    ensures CleanLine(last) && 1 <= |last| <= lineSize + 1 && !IsBlank(last[|last| - 1])
  {
    hide Join, JoinFront, CleanLine, Closed, IsBlank, E.EncodeByte, E.Encode, CurrentLine, AllComplete;
    var line;
    lines, line := LineShape(lineSize, src, |src|);
    var w, before := E.EncodeAll(lineSize, E.At(0), src), E.Encode(lineSize, E.At(0), src, |src| - 1);
    E.EncodeNext(lineSize, E.At(0), src, |src| - 1);
    LineStarted(lineSize, line, before.column, src[|src| - 1]);
    ClosedAppend(JoinFront(lines), line);
    last := Closed(line);
    JoinLast(lines, last);
    ClosedIsClean(lineSize, line, w.column);
  }

  lemma ClosedIsClean(lineSize: nat, line: seq<byte>, column: E.Column)
    requires CurrentLine(lineSize, line, column) && line != []
    ensures var closed := Closed(line);
      CleanLine(closed) && 1 <= |closed| <= lineSize + 1 && !IsBlank(closed[|closed| - 1])
  {
    if IsBlank(line[|line| - 1]) {
      assert forall i :: 0 <= i < |line| - 1 ==> Closed(line)[i] == line[i];
    }
  }

  // ----- splitting the input over calls

  /** The column a call leaves for the next one: after a last-column byte it is still that column. */
  function Exposed(lineSize: nat, column: E.Column): nat {
    if column.Filled? then if lineSize == 0 then 0 else lineSize - 1 else column.col
  }

  lemma {:induction false} FilledNeedsTwo(lineSize: nat, col: nat, src: seq<byte>, n: nat)
    requires 1 <= lineSize && n <= |src| && E.Encode(lineSize, E.At(col), src, n).column.Filled?
    ensures 2 <= lineSize
  {
    E.EncodeNext(lineSize, E.At(col), src, n - 1);
  }

  /** Encoding in two calls equals encoding in one exactly when the first call does not end on
      a last-column byte. When it does, the second call goes on in a line that is already full. */
  lemma SplitLaw(lineSize: nat, col: nat, a: seq<byte>, b: seq<byte>)
    requires 1 <= lineSize && b != []
    ensures var w := E.EncodeAll(lineSize, E.At(col), a);
      var two := w.out + E.EncodeAll(lineSize, E.At(Exposed(lineSize, w.column)), b).out;
      E.EncodeAll(lineSize, E.At(col), a + b).out == two <==> !w.column.Filled?
  {
    var w := E.EncodeAll(lineSize, E.At(col), a);
    E.EncodeConcat(lineSize, E.At(col), a, b, |b|);
    if w.column.Filled? {
      FilledNeedsTwo(lineSize, col, a, |a|);
      var one, two := E.EncodeAll(lineSize, E.Filled, b).out, E.EncodeAll(lineSize, E.At(lineSize - 1), b).out;
      FirstOut(lineSize, E.Filled, b, |b|);
      FirstOut(lineSize, E.At(lineSize - 1), b, |b|);
      UnitIsClean(b[0], E.IsCriticalLast(b[0]));
      assert one[0] == CR && two[0] != CR;
      assert (w.out + one)[|w.out|] != (w.out + two)[|w.out|];
    }
  }

  /** For one: three zeros in lines of two columns, and the same with a split before the third. */
  lemma SplitExample()
    ensures E.EncodeAll(2, E.At(0), [0, 0, 0]).out == [SHIFT, SHIFT, CR, LF, SHIFT]
    ensures var w := E.EncodeAll(2, E.At(0), [0, 0]);
      w.out + E.EncodeAll(2, E.At(Exposed(2, w.column)), [0]).out == [SHIFT, SHIFT, SHIFT]
  {
    var two, three: seq<byte> := [0, 0], [0, 0, 0];
    E.EncodeNext(2, E.At(0), three, 2); E.EncodeNext(2, E.At(0), three, 1); E.EncodeNext(2, E.At(0), three, 0);
    E.EncodeNext(2, E.At(0), two, 1); E.EncodeNext(2, E.At(0), two, 0);
    E.EncodeNext(2, E.At(1), [0], 0);
  }

  lemma {:induction false} FirstOut(lineSize: nat, start: E.Column, src: seq<byte>, n: nat)
    requires 0 < n <= |src|
    ensures E.Encode(lineSize, start, src, n).out != []
    ensures E.Encode(lineSize, start, src, n).out[0] == E.EncodeByte(lineSize, start, src[0]).out[0]
  {
    E.EncodeNext(lineSize, start, src, n - 1);
    if n > 1 {
      FirstOut(lineSize, start, src, n - 1);
    }
  }

  /** Calls over single bytes: the output of each, one after another. */
  function ByteCalls(lineSize: nat, col: nat, src: seq<byte>): seq<byte>
    decreases src
  {
    if src == [] then []
    else
      var w := E.EncodeAll(lineSize, E.At(col), src[..1]);
      w.out + ByteCalls(lineSize, Exposed(lineSize, w.column), src[1..])
  }

  /** So a stream of one-byte calls that reaches the last column never breaks a line again. */
  lemma {:induction false} ByteCallsNeverBreak(lineSize: nat, src: seq<byte>)
    requires 2 <= lineSize
    ensures CR !in ByteCalls(lineSize, lineSize - 1, src)
  {
    if src != [] {
      E.EncodeNext(lineSize, E.At(lineSize - 1), src[..1], 0);
      UnitIsClean(src[0], E.IsCriticalLast(src[0]));
      ByteCallsNeverBreak(lineSize, src[1..]);
    }
  }
}
