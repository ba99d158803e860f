/** Encoder: a stream of Writes, with the blank that may turn out to end a line held back. */
module EncoderWriter {
  import opened Bytes
  import opened YencMachine
  import opened YencHeaders
  import Crc = Crc32
  import Cursor = Avx2Cursor
  import E = ColumnEncoder
  import G = GenericEncoder
  import Laws = EncodingLaws
  import S = SimdEncoder
  import T = ExpandTables

  // ----- the body between them

  /** What the body is once the held byte has been escaped. */
  function ClosedBody(body: seq<byte>, held: seq<byte>): seq<byte> {
    if held == [] then body else body + [EQUALS, held[0] + 64]
  }

  predicate EndsUnblank(s: seq<byte>) {
    s != [] ==> !Laws.IsBlank(s[|s| - 1])
  }

  /** No line ends in a raw tab or space. */
  predicate UnblankBreaks(s: seq<byte>) {
    forall i :: 0 < i < |s| && s[i] == CR ==> !Laws.IsBlank(s[i - 1])
  }

  // Where the decoder is after the body, as the encoder's column tells.
  function Reached(column: nat): State {
    if column == 0 then StateCRLF else StateNone
  }

  /** The body written so far, and the byte held, stand for the payload: they decode to it whether
      another Write follows or the held byte is escaped. */
  ghost predicate Carries(lineSize: nat, body: seq<byte>, held: seq<byte>, column: nat, payload: seq<byte>) {
    && Decode(StateCRLF, body + held) == Live(payload, Reached(column))
    && Decode(StateCRLF, ClosedBody(body, held)) == Live(payload, Reached(column))
    && (payload == [] ==> body + held == [] && column == 0)
    && (held != [] ==> |held| == 1 && Laws.IsBlank(held[0]))
    && UnblankBreaks(body + held)
    && (E.IsFull(lineSize, E.At(column)) ==> EndsUnblank(body + held))
  }

  lemma NothingCarried(lineSize: nat)
    requires 1 <= lineSize
    ensures Carries(lineSize, [], [], 0, [])
  {
    assert Decode(StateCRLF, []) == Live([], StateCRLF);
    var none: seq<byte> := [];
    assert none + none == none;
  }

  // The bytes one source byte becomes keep lines from ending in a blank.
  lemma ByteBreaks(lineSize: nat, column: E.Column, c: byte, s: seq<byte>)
    requires 1 <= lineSize && UnblankBreaks(s) && (E.IsFull(lineSize, column) && column != E.At(0) ==> EndsUnblank(s))
    ensures var e := E.EncodeByte(lineSize, column, c);
      UnblankBreaks(s + e.out) && (E.IsFull(lineSize, e.column) ==> EndsUnblank(s + e.out))
  {
    var e := E.EncodeByte(lineSize, column, c);
    Laws.BlankIsMid(lineSize, column, c);
    Laws.UnitIsClean(c, E.IsCriticalFirst(c));
    Laws.UnitIsClean(c, E.IsCriticalLast(c));
    Laws.UnitIsClean(c, E.IsCritical(c));
    assert forall i :: 0 <= i < |e.out| && e.out[i] == CR ==> i == 0 && E.IsFull(lineSize, column) && column != E.At(0);
    var t := s + e.out;
    forall i | 0 < i < |t| && t[i] == CR
      ensures !Laws.IsBlank(t[i - 1])
    {
      if |s| <= i {
        assert e.out[i - |s|] == CR;
      }
    }
  }

  lemma {:induction false} EncodedBreaks(lineSize: nat, start: E.Column, src: seq<byte>, n: nat, before: seq<byte>)
    requires 1 <= lineSize && n <= |src| && UnblankBreaks(before)
    requires E.IsFull(lineSize, start) && start != E.At(0) ==> EndsUnblank(before)
    ensures var w := E.Encode(lineSize, start, src, n);
      && UnblankBreaks(before + w.out)
      && (E.IsFull(lineSize, w.column) && (n == 0 ==> start != E.At(0)) ==> EndsUnblank(before + w.out))
  {
    hide UnblankBreaks, EndsUnblank, E.EncodeByte, E.IsFull;
    if n == 0 {
      assert before + [] == before;
    } else {
      EncodedBreaks(lineSize, start, src, n - 1, before);
      NotFullAtZero(lineSize);
      var w := E.Encode(lineSize, start, src, n - 1);
      var e := E.EncodeByte(lineSize, w.column, src[n - 1]);
      ByteBreaks(lineSize, w.column, src[n - 1], before + w.out);
      assert before + (w.out + e.out) == (before + w.out) + e.out;
    }
  }

  lemma NotFullAtZero(lineSize: nat)
    requires 1 <= lineSize
    ensures !E.IsFull(lineSize, E.At(0))
  {
  }

  // What is written of a Write's output, and what is held.
  function Kept(out: seq<byte>): seq<byte> {
    if out != [] && Laws.IsBlank(out[|out| - 1]) then out[..|out| - 1] else out
  }

  function Held(out: seq<byte>): seq<byte> {
    if out != [] && Laws.IsBlank(out[|out| - 1]) then [out[|out| - 1]] else []
  }

  lemma KeptAndHeld(before: seq<byte>, out: seq<byte>)
    requires out != []
    ensures before + Kept(out) + Held(out) == before + out
    ensures ClosedBody(before + Kept(out), Held(out)) == before + Laws.Closed(out)
    ensures Held(out) == [] ==> EndsUnblank(before + Kept(out))
  {
  }

  /** What a Write makes of p: what either encoder writes from its column, and the column it is
      left in. */
  function Encoded(vector: bool, lineSize: nat, column: nat, p: seq<byte>): E.Settled {
    var w := E.EncodeAll(lineSize, E.At(column), p);
    if vector && Cursor.TakesAll(lineSize, column, p) then E.Settled(w.out + NEWLINE, 0)
    else E.Settled(w.out, Laws.Exposed(lineSize, w.column))
  }

  /** A Write of something carries its bytes on, whichever encoder it goes through. */
  lemma WriteCarries(vector: bool, lineSize: nat, body: seq<byte>, held: seq<byte>, column: nat, payload: seq<byte>, p: seq<byte>)
    requires 1 <= lineSize && p != [] && Carries(lineSize, body, held, column, payload)
    ensures var e := Encoded(vector, lineSize, column, p);
      && e.out != []
      && Carries(lineSize, body + held + Kept(e.out), Held(e.out), e.col, payload + p)
      && (Held(e.out) == [] ==> EndsUnblank(body + held + Kept(e.out)))
  {
    hide Decode, E.Encode, UnblankBreaks, EndsUnblank, Laws.Closed, Kept, Held, ClosedBody, Cursor.TakesAll;
    var w, before, q := E.EncodeAll(lineSize, E.At(column), p), body + held, Reached(column);
    Laws.FirstOut(lineSize, E.At(column), p, |p|);
    Laws.EncodedDecodes(lineSize, E.At(column), p, |p|, q);
    assert p[..|p|] == p;
    DecodeConcat(StateCRLF, before, w.out);
    EncodedBreaks(lineSize, E.At(column), p, |p|, before);
    if vector && Cursor.TakesAll(lineSize, column, p) {
      TakenIsFull(lineSize, column, p);
      ExtraBreak(before, w.out, payload + p);
      assert lineSize > 0;
    } else {
      Laws.ClosedDecodes(lineSize, E.At(column), p, q);
      DecodeConcat(StateCRLF, before, Laws.Closed(w.out));
      KeptAndHeld(before, w.out);
      HeldIsBlank(w.out);
      ExposedFull(lineSize, E.At(column), p, w.column);
      ExposedPositive(lineSize, column, p);
    }
  }

  // The break a full line is given at once.
  lemma ExtraBreak(before: seq<byte>, out: seq<byte>, payload: seq<byte>)
    requires Decode(StateCRLF, before + out) == Live(payload, StateNone)
    requires UnblankBreaks(before + out) && EndsUnblank(before + out) && out != []
    ensures var more := out + NEWLINE;
      && Held(more) == [] && Kept(more) == more && before + more + [] == before + more
      && ClosedBody(before + more, []) == before + more
      && Decode(StateCRLF, before + more) == Live(payload, StateCRLF)
      && UnblankBreaks(before + more) && EndsUnblank(before + more)
  {
    hide Decode;
    Laws.NewlineDecodes(StateNone);
    DecodeConcat(StateCRLF, before + out, NEWLINE);
    var s := (before + out) + NEWLINE;
    assert s == before + (out + NEWLINE);
    assert payload + [] == payload;
    forall i | 0 < i < |s| && s[i] == CR
      ensures !Laws.IsBlank(s[i - 1])
    {
      if i == |before + out| {
        assert s[i - 1] == (before + out)[i - 1];
      } else {
        assert i < |before + out|;
      }
    }
  }

  lemma TakenIsFull(lineSize: nat, column: nat, p: seq<byte>)
    requires Cursor.TakesAll(lineSize, column, p)
    ensures E.IsFull(lineSize, E.EncodeAll(lineSize, E.At(column), p).column) && p != []
  {
    hide Cursor.TakesAll, Cursor.ColumnAt, E.Encode;
    Cursor.TakesAllOnly(lineSize, column, p);
    Cursor.LastColumnEnds(lineSize, column, p, |p| - 1);
    ColumnZeroIsFull(lineSize, column, p);
  }

  lemma ColumnZeroIsFull(lineSize: nat, column: nat, p: seq<byte>)
    requires 1 <= lineSize && p != [] && Cursor.ColumnAt(lineSize, column, p, |p|) == 0
    ensures E.IsFull(lineSize, E.EncodeAll(lineSize, E.At(column), p).column)
  {
    E.EagerIsSettled(lineSize, column, p, |p|);
    E.EncodeNext(lineSize, E.At(column), p, |p| - 1);
  }

  lemma ExposedPositive(lineSize: nat, column: nat, p: seq<byte>)
    requires 1 <= lineSize && p != []
    ensures 0 < Laws.Exposed(lineSize, E.EncodeAll(lineSize, E.At(column), p).column)
  {
    E.EncodeNext(lineSize, E.At(column), p, |p| - 1);
    if E.EncodeAll(lineSize, E.At(column), p).column.Filled? {
      Laws.FilledNeedsTwo(lineSize, column, p, |p|);
    }
  }

  lemma HeldIsBlank(out: seq<byte>)
    ensures Held(out) != [] ==> |Held(out)| == 1 && Laws.IsBlank(Held(out)[0])
  {
  }

  lemma ExposedFull(lineSize: nat, start: E.Column, p: seq<byte>, column: E.Column)
    requires 1 <= lineSize
    ensures E.IsFull(lineSize, E.At(Laws.Exposed(lineSize, column))) ==> E.IsFull(lineSize, column)
  {
  }

  /** A Write of nothing lets a held blank go, unescaped. */
  lemma EmptyWriteCarries(lineSize: nat, body: seq<byte>, held: seq<byte>, column: nat, payload: seq<byte>)
    requires Carries(lineSize, body, held, column, payload)
    ensures Carries(lineSize, body + held, [], column, payload)
    ensures held != [] ==> !UnblankBreaks(ClosedBody(body + held, []) + NEWLINE)
  {
    assert (body + held) + [] == body + held;
    if held != [] {
      var s := (body + held) + NEWLINE;
      assert s[|body| + 1] == CR && s[|body|] == held[0];
    }
  }

  /** For one: a byte, a byte that encodes to a tab, and a Write of nothing. */
  lemma EmptyWriteExample()
    ensures var w := E.EncodeAll(128, E.At(0), [0, TAB - SHIFT]);
      && Kept(w.out) == [SHIFT] && Held(w.out) == [TAB]
      && !UnblankBreaks(ClosedBody(Kept(w.out) + Held(w.out), []) + NEWLINE)
  {
    var p: seq<byte> := [0, TAB - SHIFT];
    E.EncodeNext(128, E.At(0), p, 1); E.EncodeNext(128, E.At(0), p, 0);
    assert E.EncodeAll(128, E.At(0), p).out == [SHIFT, TAB];
    var s: seq<byte> := [SHIFT, TAB] + NEWLINE;
    assert s[2] == CR && s[1] == TAB;
  }

  /** The body, closed, decodes to the payload and stops at the control line after it; and its
      lines, the last included, end in no raw blank exactly when none was let go at its end. */
  lemma ClosedCarries(lineSize: nat, body: seq<byte>, held: seq<byte>, column: nat, payload: seq<byte>, rest: seq<byte>)
    requires Carries(lineSize, body, held, column, payload)
    ensures var closed := ClosedBody(body, held);
      && Decode(StateCRLF, closed + (Laws.CONTROL + rest)) == Halted(payload, StateNone, EndControl, |closed| + 4)
      && (UnblankBreaks(closed + NEWLINE) <==> held != [] || EndsUnblank(body))
  {
    var closed := ClosedBody(body, held);
    CarriedStops(closed, column, payload, rest);
    BreaksWithin(body, held);
    var s := closed + NEWLINE;
    assert s[|closed|] == CR && s[|closed| + 1] == LF;
    assert closed != [] ==> s[|closed| - 1] == closed[|closed| - 1];
    assert forall i :: 0 <= i < |closed| ==> s[i] == closed[i];
    BlankSum(held);
  }

  lemma BlankSum(held: seq<byte>)
    ensures held != [] && Laws.IsBlank(held[0]) ==> !Laws.IsBlank(held[0] + 64) && held[0] + 64 != CR
  {
  }

  lemma CarriedStops(closed: seq<byte>, column: nat, payload: seq<byte>, rest: seq<byte>)
    requires Decode(StateCRLF, closed) == Live(payload, Reached(column))
    ensures Decode(StateCRLF, closed + (Laws.CONTROL + rest)) == Halted(payload, StateNone, EndControl, |closed| + 4)
  {
    hide Decode;
    Laws.ControlStops(Reached(column));
    DecodeConcat(Reached(column), Laws.CONTROL, rest);
    DecodeConcat(StateCRLF, closed, Laws.CONTROL + rest);
    assert payload + [] == payload;
  }

  lemma BreaksWithin(body: seq<byte>, held: seq<byte>)
    requires UnblankBreaks(body + held) && (held != [] ==> |held| == 1 && Laws.IsBlank(held[0]))
    ensures UnblankBreaks(ClosedBody(body, held))
  {
    var closed, s := ClosedBody(body, held), body + held;
    BlankSum(held);
    forall i | 0 < i < |closed| && closed[i] == CR
      ensures !Laws.IsBlank(closed[i - 1])
    {
      assert i < |body|;
      assert s[i] == CR && s[i - 1] == closed[i - 1];
    }
  }

  // ----- a run of Writes

  // The column, the held byte and whether a blank has been let go, after a run of Writes.
  function ColumnAfter(vector: bool, lineSize: nat, writes: seq<seq<byte>>): nat {
    if writes == [] then 0
    else
      var column := ColumnAfter(vector, lineSize, writes[..|writes| - 1]);
      if writes[|writes| - 1] == [] then column else Encoded(vector, lineSize, column, writes[|writes| - 1]).col
  }

  function HeldAfter(vector: bool, lineSize: nat, writes: seq<seq<byte>>): seq<byte> {
    if writes == [] || writes[|writes| - 1] == [] then []
    else Held(Encoded(vector, lineSize, ColumnAfter(vector, lineSize, writes[..|writes| - 1]), writes[|writes| - 1]).out)
  }

  /** The last Write was of nothing, and the last of something before it encoded to a blank at its
      end. */
  predicate LetGo(vector: bool, lineSize: nat, writes: seq<seq<byte>>) {
    && writes != [] && writes[|writes| - 1] == []
    && var before := writes[..|writes| - 1];
      HeldAfter(vector, lineSize, before) != [] || LetGo(vector, lineSize, before)
  }

  // All that the Writes encode to, in a row.
  function Encodings(vector: bool, lineSize: nat, writes: seq<seq<byte>>): seq<byte> {
    if writes == [] then []
    else
      var before := writes[..|writes| - 1];
      Encodings(vector, lineSize, before)
        + EncodedOut(vector, lineSize, ColumnAfter(vector, lineSize, before), writes[|writes| - 1])
  }

  function EncodedOut(vector: bool, lineSize: nat, column: nat, p: seq<byte>): seq<byte> {
    if p == [] then [] else Encoded(vector, lineSize, column, p).out
  }

  // ----- the writer's object

  class Encoder {
    // the options, and the build's choice of encoder
    const lineLength: int
    const raw: bool
    const vector: bool
    const lut: array2<byte>
    // false until Reset and once closed, when w is nil
    var open: bool
    // everything written to w
    var sink: seq<byte>
    var meta: Meta
    var hWritten: bool
    var crc: Crc.reg
    var column: nat
    var processed: nat
    var buf: array<byte>
    var endByte: seq<byte>
    ghost var start: seq<byte>
    ghost var body: seq<byte>
    ghost var payload: seq<byte>

    /** The sink holds what it held at the last Reset, the header if there is one, and the body;
        body and held byte stand for the payload, of which checksum and count are kept. */
    ghost predicate Valid()
      reads this, lut
    {
      Consistent() && crc == Crc.Update(0, payload) && processed == |payload|
    }

    ghost predicate Consistent()
      reads this, lut
    {
      && 1 <= lineLength
      && T.IsExpandLut(lut)
      && (raw ==> !hWritten)
      && (!raw && !hWritten ==> body == [] && endByte == [])
      && sink == Front() + body
      && Carries(lineLength, body, endByte, column, payload)
    }

    // The sink before the body.
    ghost function Front(): seq<byte>
      reads this
    {
      start + (if hWritten then Header(meta, lineLength) else [])
    }

    /** A blank has been let go that a Close now would leave raw at the end of its line. */
    ghost predicate BlankLetGo()
      reads this
    {
      endByte == [] && !EndsUnblank(body)
    }

    constructor (lineLength: int, raw: bool, vector: bool, lut: array2<byte>)
      requires 1 <= lineLength && T.IsExpandLut(lut)
      ensures Valid() && !open && sink == [] && fresh(buf)
      ensures this.lineLength == lineLength && this.raw == raw && this.vector == vector && this.lut == lut
    {
      this.lineLength, this.raw, this.vector, this.lut := lineLength, raw, vector, lut;
      open, sink, start, body, payload := false, [], [], [], [];
      meta := Meta([], 0, 0, 0, 0, 0);
      hWritten, crc, column, processed, endByte := false, 0, 0, 0, [];
      buf := new byte[0];
      NothingCarried(lineLength);
      Crc.InvertedTwice(0);
    }

    /** Reset: it refuses invalid metadata, unless no headers are to be written, and otherwise goes
        back to the start, over any writer. */
    method Reset(m: Meta, w: seq<byte>) returns (ok: bool)
      requires Valid()
      modifies `open, `sink, `meta, `hWritten, `crc, `column, `processed, `endByte, `start, `body, `payload
      ensures Valid()
      ensures ok <==> (raw || (|m.fileName| >= 1 && m.fileSize >= 1 && m.partNumber >= 1
                               && m.totalParts >= m.partNumber && m.offset >= 0 && m.partSize >= 1))
      ensures !ok ==> unchanged(this)
      ensures ok ==> open && meta == m && sink == start == w && payload == [] && !hWritten
      ensures ok ==> column == 0 && endByte == [] && !BlankLetGo()
    {
      hide T.IsExpandLut, Carries, EndsUnblank, Crc.Update, Header;
      ok := raw || m.Valid();
      if ok {
        meta := m;
        Restart(w);
      }
    }

    // Everything but the metadata, back to the start.
    method Restart(w: seq<byte>)
      requires 1 <= lineLength && T.IsExpandLut(lut)
      modifies `open, `sink, `hWritten, `crc, `column, `processed, `endByte, `start, `body, `payload
      ensures Valid() && !BlankLetGo()
      ensures open && sink == start == w && payload == [] && !hWritten && column == 0 && endByte == []
    {
      hide Consistent, T.IsExpandLut, EndsUnblank, Crc.Update;
      sink, start, body := w, w, [];
      hWritten := false;
      crc := 0;
      endByte := [];
      column, processed := 0, 0;
      open, payload := true, [];
      EmptyIsConsistent();
      NoChecksum();
    }

    // Nothing written yet.
    lemma EmptyIsConsistent()
      requires 1 <= lineLength && T.IsExpandLut(lut) && sink == start
      requires !hWritten && body == [] && endByte == [] && payload == [] && column == 0
      ensures Consistent() && !BlankLetGo()
    {
      NothingCarried(lineLength);
    }

    /** Since a Reset with this metadata, over an empty sink, these have been written. */
    ghost predicate HasWritten(meta: Meta, writes: seq<seq<byte>>)
      reads this, lut
    {
      && Valid() && open && start == [] && this.meta == meta && !raw
      && (hWritten <==> writes != [])
      && payload == Concat(writes)
      && column == ColumnAfter(vector, lineLength, writes)
      && endByte == HeldAfter(vector, lineLength, writes)
      && (BlankLetGo() <==> LetGo(vector, lineLength, writes))
      && body + endByte == Encodings(vector, lineLength, writes)
    }

    // writeHeader
    method WriteHeader()
      modifies `sink, `hWritten
      ensures hWritten
      ensures sink == old(sink) + (if old(hWritten) then [] else Header(meta, lineLength))
    {
      hide Header;
      if hWritten {
        return;
      }
      hWritten := true;
      sink := sink + Header(meta, lineLength);
    }

    // encodeIncremental, as the build has it.
    method EncodeIncremental(p: seq<byte>) returns (length: nat)
      requires 1 <= lineLength && T.IsExpandLut(lut) && p != [] && G.MaxLength(|p|, lineLength) <= buf.Length
      modifies `column, buf
      ensures length <= buf.Length
      ensures E.Settled(buf[..length], column) == Encoded(vector, lineLength, old(column), p)
    {
      hide E.Encode, Laws.Exposed, G.MaxLength, Cursor.TakesAll, T.IsExpandLut;
      if vector {
        length, column := S.EncodeSimd(buf, 0, lut, lineLength, column, p, false);
      } else {
        G.MaxLengthSuffices(lineLength, E.At(column), p);
        length, column := G.EncodeGeneric(buf, 0, lineLength, column, p, false);
      }
      assert buf[..length] == buf[0..0 + length];
    }

    // The part of Write that encodes: the buffer is grown to maxLength, filled, and written out.
    method EncodePart(p: seq<byte>)
      requires 1 <= lineLength && T.IsExpandLut(lut) && p != [] && endByte == []
      modifies `processed, `column, `buf, `sink, `endByte, buf
      ensures var e := Encoded(vector, lineLength, old(column), p);
        sink == old(sink) + Kept(e.out) && endByte == Held(e.out) && column == e.col
      ensures processed == old(processed) + |p| && (buf == old(buf) || fresh(buf))
    {
      hide Encoded, T.IsExpandLut;
      processed := processed + |p|;
      var need := G.MaxLength(|p|, lineLength);
      if need > buf.Length {
        buf := new byte[need];
      }
      var length := EncodeIncremental(p);
      var encoded := buf[..length];
      if length > 0 {
        if encoded[length - 1] == TAB || encoded[length - 1] == SPACE {
          endByte := endByte + [encoded[length - 1]];
          encoded := encoded[..length - 1];
        }
        if |encoded| > 0 {
          sink := sink + encoded;
        }
      }
    }

    // The header, before anything else, and the blank held back, which did not end the stream.
    method Flush()
      requires Consistent()
      modifies `sink, `hWritten, `endByte, `body
      ensures Consistent() && endByte == [] && (raw || hWritten) && body == old(body + endByte)
      ensures BlankLetGo() <==> old(endByte) != [] || old(BlankLetGo())
    {
      hide Header, Carries, T.IsExpandLut;
      EmptyWriteCarries(lineLength, body, endByte, column, payload);
      CarriedBlank(lineLength, body, endByte, column, payload);
      if !raw {
        WriteHeader();
      }
      assert sink == Front() + body;
      if |endByte| > 0 {
        assert Front() + (body + endByte) == sink + endByte;
        sink := sink + endByte;
        body := body + endByte;
        endByte := [];
      }
    }

    method Append(p: seq<byte>)
      requires Consistent() && endByte == [] && p != [] && (raw || hWritten)
      modifies `processed, `column, `buf, `sink, `endByte, `body, `payload, buf
      ensures Consistent() && !BlankLetGo()
      ensures payload == old(payload) + p && processed == old(processed) + |p| && (buf == old(buf) || fresh(buf))
      ensures body + endByte == old(body) + EncodedOut(vector, lineLength, old(column), p)
      ensures var e := Encoded(vector, lineLength, old(column), p); column == e.col && endByte == Held(e.out)
    {
      hide Header, Carries, Kept, Held, Encoded, T.IsExpandLut;
      WriteCarries(vector, lineLength, body, [], column, payload, p);
      ghost var out := Encoded(vector, lineLength, column, p).out;
      KeptAndHeld(body, out);
      assert body + [] + Kept(out) == body + Kept(out);
      assert Front() + (body + Kept(out)) == sink + Kept(out);
      body := body + Kept(out);
      EncodePart(p);
      assert sink == Front() + body;
      payload := payload + p;
    }

    /** Write. */
    method Write(p: seq<byte>) returns (n: nat, ok: bool)
      requires Valid()
      modifies this, buf
      ensures Valid() && ok == old(open) && open == old(open) && (buf == old(buf) || fresh(buf))
      ensures meta == old(meta) && start == old(start)
      ensures !ok ==> n == 0 && payload == old(payload) && sink == old(sink) && hWritten == old(hWritten)
      ensures ok ==> n == |p| && payload == old(payload) + p && (raw || hWritten)
      ensures ok ==> body + endByte == old(body + endByte) + EncodedOut(vector, lineLength, old(column), p)
      ensures ok && p == [] ==> column == old(column) && endByte == []
      ensures ok && p == [] ==> (BlankLetGo() <==> old(endByte) != [] || old(BlankLetGo()))
      ensures ok && p != [] ==> !BlankLetGo()
      ensures ok && p != [] ==>
        var e := Encoded(vector, lineLength, old(column), p); column == e.col && endByte == Held(e.out)
    {
      hide Header, Carries, Crc.Update, Encoded, Held, T.IsExpandLut;
      ghost var before := body + endByte;
      if !open {
        return 0, false;
      }
      n, ok := |p|, true;
      Crc.UpdateConcat(0, payload, p);
      crc := Crc.UpdateCrc(crc, p);
      Flush();
      if |p| > 0 {
        Append(p);
      } else {
        assert payload + p == payload;
        assert body + endByte == body + [];
      }
    }

    method EscapeHeld()
      requires Valid()
      modifies `sink
      ensures sink == Front() + ClosedBody(body, endByte)
    {
      hide Header, Carries, Crc.Update, T.IsExpandLut;
      if |endByte| > 0 {
        assert Front() + (body + [EQUALS, endByte[0] + 64]) == (Front() + body) + [EQUALS, endByte[0] + 64];
        sink := sink + [EQUALS, endByte[0] + 64];
      }
    }

    /** Close. */
    method Close() returns (ok: bool)
      requires Valid()
      modifies `open, `sink
      ensures !open
      ensures !old(open) ==> !ok && sink == old(sink)
      ensures old(open) ==> sink == Front() + ClosedBody(body, endByte) + (if raw then [] else Trailer(meta, crc))
      ensures old(open) ==> (ok <==> raw || processed == meta.partSize)
    {
      hide Header, Trailer, Carries, Crc.Update, ClosedBody, T.IsExpandLut;
      if !open {
        return false;
      }
      EscapeHeld();
      ok := true;
      if !raw {
        sink := sink + Trailer(meta, crc);
        ok := processed == meta.partSize;
      } else {
        assert sink + [] == sink;
      }
      open := false;
    }
  }

  /** What a reader of a closed encoder's output gets: after the header, the body decodes to the
      concatenated Writes and stops at the trailer, which carries their checksum and length; and
      no line ends in a raw tab or space unless the last Write was of nothing. */
  lemma ClosedOutput(e: Encoder)
    requires e.Valid() && !e.raw
    ensures var closed := ClosedBody(e.body, e.endByte);
      && Decode(StateCRLF, closed + Trailer(e.meta, e.crc)) == Halted(e.payload, StateNone, EndControl, |closed| + 4)
      && e.crc == Crc.Update(0, e.payload) && e.processed == |e.payload|
      && (UnblankBreaks(closed + NEWLINE) <==> !e.BlankLetGo())
  {
    hide Carries, Crc.Update, UnblankBreaks, EndsUnblank, T.IsExpandLut;
    TrailerBegins(e.meta, e.crc);
    hide Trailer;
    ClosedCarries(e.lineLength, e.body, e.endByte, e.column, e.payload, Trailer(e.meta, e.crc)[4..]);
  }

  /** The closed body is everything that was encoded, with a blank at its very end escaped unless it
      was let go. */
  lemma ClosedIs(lineSize: nat, body: seq<byte>, held: seq<byte>, column: nat, payload: seq<byte>)
    requires Carries(lineSize, body, held, column, payload)
    ensures ClosedBody(body, held)
      == if held == [] && !EndsUnblank(body) then body + held else Laws.Closed(body + held)
  {
    assert held != [] ==> (body + held)[..|body + held| - 1] == body;
    assert body + [] == body;
  }

  lemma CarriedBlank(lineSize: nat, body: seq<byte>, held: seq<byte>, column: nat, payload: seq<byte>)
    requires Carries(lineSize, body, held, column, payload)
    ensures held != [] ==> !EndsUnblank(body + held)
    ensures body + [] == body
  {
  }

  lemma NoChecksum()
    ensures Crc.Update(0, []) == 0
  {
    Crc.InvertedTwice(0);
  }

  lemma LetGoNext(vector: bool, lineSize: nat, writes: seq<seq<byte>>, i: nat)
    requires i < |writes|
    ensures var before, after := writes[..i], writes[..i + 1];
      && Concat(after) == Concat(before) + writes[i]
      && (writes[i] == [] ==>
            && ColumnAfter(vector, lineSize, after) == ColumnAfter(vector, lineSize, before)
            && HeldAfter(vector, lineSize, after) == []
            && (LetGo(vector, lineSize, after) <==>
                  HeldAfter(vector, lineSize, before) != [] || LetGo(vector, lineSize, before)))
      && (writes[i] != [] ==>
            var e := Encoded(vector, lineSize, ColumnAfter(vector, lineSize, before), writes[i]);
            && ColumnAfter(vector, lineSize, after) == e.col
            && HeldAfter(vector, lineSize, after) == Held(e.out)
            && !LetGo(vector, lineSize, after))
  {
    assert writes[..i + 1][..i] == writes[..i];
  }

  /** A whole run: a new Encoder, any Writes, Close. A run of no Writes has no header. */
  method WriteAll(meta: Meta, lineLength: int, vector: bool, lut: array2<byte>, writes: seq<seq<byte>>)
    returns (e: Encoder, accepted: bool, ok: bool)
    requires 1 <= lineLength && T.IsExpandLut(lut)
    ensures accepted <==> meta.Valid()
    ensures !accepted ==> e.sink == [] && !ok
    ensures accepted ==> e.payload == Concat(writes) && (ok <==> |Concat(writes)| == meta.partSize)
    ensures accepted ==>
      var closed := ClosedBody(e.body, e.endByte);
      var trailer := Trailer(meta, Crc.Update(0, Concat(writes)));
      && e.sink == (if writes == [] then [] else Header(meta, lineLength)) + closed + trailer
      && Decode(StateCRLF, closed + trailer) == Halted(Concat(writes), StateNone, EndControl, |closed| + 4)
      && (UnblankBreaks(closed + NEWLINE) <==> !LetGo(vector, lineLength, writes))
      && closed == (if LetGo(vector, lineLength, writes) then Encodings(vector, lineLength, writes)
                    else Laws.Closed(Encodings(vector, lineLength, writes)))
  {
    hide Header, Trailer, Carries, Crc.Update, ClosedBody, UnblankBreaks, EndsUnblank, Decode, Encoded, Held,
      ColumnAfter, HeldAfter, LetGo, Concat, Encodings, EncodedOut, Laws.Closed, T.IsExpandLut;
    e := new Encoder(lineLength, false, vector, lut);
    accepted := e.Reset(meta, []);
    ok := false;
    if !accepted {
      return;
    }
    NoWrites(vector, lineLength);
    for i := 0 to |writes|
      invariant e.HasWritten(meta, writes[..i]) && fresh(e) && fresh(e.buf)
    {
      WriteNext(e, meta, writes, i);
    }
    assert writes[..|writes|] == writes;
    ClosedOutput(e);
    ClosedIs(e.lineLength, e.body, e.endByte, e.column, e.payload);
    ok := e.Close();
  }

  method WriteNext(e: Encoder, ghost meta: Meta, writes: seq<seq<byte>>, i: nat)
    requires i < |writes| && e.HasWritten(meta, writes[..i])
    modifies e, e.buf
    ensures e.HasWritten(meta, writes[..i + 1]) && (e.buf == old(e.buf) || fresh(e.buf))
  {
    hide Carries, Crc.Update, EndsUnblank, Encoded, Held, ColumnAfter, HeldAfter, LetGo, Concat, Encodings, EncodedOut,
      T.IsExpandLut;
    LetGoNext(e.vector, e.lineLength, writes, i);
    EncodingsNext(e.vector, e.lineLength, writes, i);
    var n, written := e.Write(writes[i]);
  }

  lemma EncodingsNext(vector: bool, lineSize: nat, writes: seq<seq<byte>>, i: nat)
    requires i < |writes|
    ensures Encodings(vector, lineSize, writes[..i + 1])
      == Encodings(vector, lineSize, writes[..i])
        + EncodedOut(vector, lineSize, ColumnAfter(vector, lineSize, writes[..i]), writes[i])
  {
    assert writes[..i + 1][..i] == writes[..i];
  }

  lemma NoWrites(vector: bool, lineSize: nat)
    ensures Concat([]) == [] && ColumnAfter(vector, lineSize, []) == 0 && HeldAfter(vector, lineSize, []) == []
    ensures !LetGo(vector, lineSize, []) && Encodings(vector, lineSize, []) == []
  {
  }
}
