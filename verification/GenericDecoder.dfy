/** decodeGeneric: the incremental decoder, with its gotos, lookahead and step-backs. */
module GenericDecoder {
  import opened Bytes
  import opened YencMachine

  /** The scanning loop treats the byte at pos as if nothing special came before it. That is
      right in state q as long as the bytes it can still see do not complete q's sequence. */
  predicate LooksPlain(q: State, src: seq<byte>, pos: nat) {
    match q
    case StateNone => true
    case StateCR =>
      pos < |src| && (src[pos] == LF ==> pos + 1 < |src| && src[pos + 1] != DOT && src[pos + 1] != EQUALS)
    case StateCRLF => pos < |src| && src[pos] != DOT && src[pos] != EQUALS
    case StateCRLFDT => pos < |src| && src[pos] != CR && src[pos] != EQUALS
    case StateCRLFDTCR => pos < |src| && src[pos] != LF
    case _ => false
  }

  /** What holds whenever the scanning loop looks at pos, having produced out. In the second
      case the loop stepped back onto a CR that was escaped and is already in out. */
  ghost predicate Scanning(entry: State, src: seq<byte>, pos: nat, out: seq<byte>) {
    && pos <= |src|
    && |out| <= pos
    && (|| (&& Run(entry, src, pos).Live?
            && Run(entry, src, pos).out == out
            && LooksPlain(Run(entry, src, pos).state, src, pos))
        || (&& pos < |src|
            && src[pos] == CR
            && Run(entry, src, pos + 1) == Live(out, StateCR)))
  }

  lemma ScanPlain(entry: State, src: seq<byte>, pos: nat, out: seq<byte>)
    requires Scanning(entry, src, pos, out) && pos < |src|
    ensures src[pos] == CR ==> Run(entry, src, pos + 1) == Live(out, StateCR)
    ensures src[pos] == EQUALS ==> Run(entry, src, pos + 1) == Live(out, StateEQ)
    ensures src[pos] == LF ==> Scanning(entry, src, pos + 1, out)
    ensures src[pos] != CR && src[pos] != EQUALS && src[pos] != LF ==>
      Run(entry, src, pos + 1) == Live(out + [src[pos] - SHIFT], StateNone)
  {
    assert out + [] == out;
  }

  /** The machine's next move from q is the run's next byte. */
  lemma Moves(entry: State, src: seq<byte>, pos: nat, out: seq<byte>, q: State)
    requires pos < |src| && |out| <= pos && Run(entry, src, pos) == Live(out, q)
    ensures match Step(q, src[pos])
      case Go(emit, next) =>
        |out + emit| <= pos + 1 && Run(entry, src, pos + 1) == Live(out + emit, next)
      case Stop(end, next) =>
        Decodes(entry, src, pos + 1, out, next, end)
  {
    if Step(q, src[pos]).Stop? {
      RunHalted(entry, src, pos + 1, |src|);
    }
  }

  lemma Exhausts(entry: State, src: seq<byte>)
    requires Decode(entry, src).Live?
    ensures var t := Decode(entry, src); Decodes(entry, src, |src|, t.out, t.state, EndNone)
  {
    OutNoLongerThanUsed(entry, src, |src|);
  }

  /** dest[write] = c; write++ */
  method Emit(dest: array<byte>, base: nat, write: nat, c: byte) returns (w: nat)
    requires base + write < dest.Length
    modifies dest
    ensures w == write + 1
    ensures dest[base..base + w] == old(dest[base..base + write]) + [c]
    ensures forall k :: 0 <= k < dest.Length && k != base + write ==> dest[k] == old(dest[k])
  {
    dest[base + write] := c;
    w := write + 1;
    assert dest[base..base + write] == old(dest[base..base + write]);
  }

  // From these states a CR is scanned, not jumped over.
  predicate ScansCr(q: State) {
    q == StateNone || q == StateCR || q == StateCRLF || q == StateCRLFDTCR
  }

  /** Where the code under label at goes after looking at src[pos], and whether it moved past
      that byte. A label is the state it handles, and done is StateNone. */
  method Jump(src: seq<byte>, pos: nat, at: State) returns (next: State, consumed: bool)
    requires pos < |src| && at != StateNone && Step(at, src[pos]).Go?
    ensures consumed ==>
      Step(at, src[pos]) == Go(if at == StateCRLFEQ || at == StateEQ then [src[pos] - ESCAPED_SHIFT] else [], next)
    ensures !consumed ==> next == StateNone && LooksPlain(at, src, pos)
    ensures ScansCr(at) && src[pos] == CR ==> !consumed
  {
    var c := src[pos];
    if at == StateCRLFEQ || at == StateEQ {
      return if c == CR then StateCR else StateNone, true;
    } else if at == StateCR && c == LF {
      return StateCRLF, true;
    } else if at == StateCRLF && c == DOT {
      return StateCRLFDT, true;
    } else if (at == StateCRLF || at == StateCRLFDT) && c == EQUALS {
      return StateCRLFEQ, true;
    } else if at == StateCRLFDT && c == CR {
      return StateCRLFDTCR, true;
    }
    return StateNone, false;
  }

  lemma EmitNothing(out: seq<byte>)
    ensures out + [] == out
  {
  }

  // The code under one label, where it does not return.
  method EnterByte(dest: array<byte>, base: nat, src: seq<byte>, ghost entry: State, pos: nat, start: nat, at: State)
    returns (next: State, consumed: bool, write: nat)
    requires pos < |src| && start <= pos && base + |src| <= dest.Length
    requires at != StateNone && Step(at, src[pos]).Go?
    requires Run(entry, src, pos) == Live(dest[base..base + start], at)
    modifies dest
    ensures start <= write <= pos + 1
    ensures consumed ==> Run(entry, src, pos + 1) == Live(dest[base..base + write], next)
    ensures !consumed ==> next == StateNone && LooksPlain(at, src, pos) && write == start
    ensures !consumed ==> Run(entry, src, pos) == Live(dest[base..base + write], at)
    ensures ScansCr(at) && src[pos] == CR ==> !consumed
    ensures forall k :: 0 <= k < dest.Length && !(base + start <= k < base + write) ==> dest[k] == old(dest[k])
  {
    hide Run;
    write := start;
    ghost var out := dest[base..base + start];
    Moves(entry, src, pos, out, at);
    EmitNothing(out);
    if at == StateCRLFEQ || at == StateEQ {
      write := Emit(dest, base, write, src[pos] - ESCAPED_SHIFT);
    }
    next, consumed := Jump(src, pos, at);
  }

  /** The jump into the state entered with, up to the label done. */
  method EnterState(dest: array<byte>, base: nat, src: seq<byte>, entry: State)
    returns (pos: nat, write: nat, returned: bool, state: State, end: End)
    requires 0 < |src| && base + |src| <= dest.Length
    modifies dest
    ensures pos <= |src| && write <= pos
    ensures returned ==> Decodes(entry, src, pos, dest[base..base + write], state, end)
    ensures returned && end == EndNone ==> pos == |src|
    ensures !returned ==> Scanning(entry, src, pos, dest[base..base + write])
    ensures ScansCr(entry) && src[0] == CR ==> !returned && pos == 0
    ensures forall k :: 0 <= k < dest.Length && !(base <= k < base + write) ==> dest[k] == old(dest[k])
  {
    hide Run, Decodes;
    pos, write, returned, state, end := 0, 0, false, entry, EndNone;
    var at, consumed := entry, false;
    ghost var q := entry;
    RunEmpty(entry, src);
    while at != StateNone
      invariant pos <= |src| && write <= pos
      invariant at != StateNone ==> pos < |src| && q == at
      invariant at == StateNone ==> LooksPlain(q, src, pos)
      invariant ScansCr(entry) && src[0] == CR ==> pos == 0 && ScansCr(at)
      invariant Run(entry, src, pos) == Live(dest[base..base + write], q)
      invariant forall k :: 0 <= k < dest.Length && !(base <= k < base + write) ==> dest[k] == old(dest[k])
      decreases |src| - pos, if at == StateNone then 0 else 1
    {
      ghost var out := dest[base..base + write];
      Moves(entry, src, pos, out, q);
      EmitNothing(out);
      if at == StateCRLFEQ && src[pos] == LETTER_Y {
        return pos + 1, write, true, StateNone, EndControl;
      }
      if at == StateCRLFDTCR && src[pos] == LF {
        return pos + 1, write, true, StateCRLF, EndArticle;
      }
      at, consumed, write := EnterByte(dest, base, src, entry, pos, write, at);
      if consumed {
        pos, q := pos + 1, at;
      }
      if pos >= |src| && at != StateNone {
        // checkEnd
        Exhausts(entry, src);
        return pos, write, true, at, EndNone;
      }
    }
  }

  /** After a line's first dot. */
  method DotAhead(dest: array<byte>, base: nat, src: seq<byte>, entry: State, from: nat, start: nat)
    returns (pos: nat, write: nat, returned: bool, state: State, end: End)
    requires 0 < from <= |src|
    requires start + 3 <= from && base + |src| <= dest.Length
    requires Run(entry, src, from) == Live(dest[base..base + start], StateCRLFDT)
    modifies dest
    ensures pos <= |src| && from <= pos + 1 && start <= write <= pos
    ensures returned ==> Decodes(entry, src, pos, dest[base..base + write], state, end)
    ensures returned && end == EndNone ==> pos == |src|
    ensures !returned ==> pos < |src| && Scanning(entry, src, pos + 1, dest[base..base + write])
    ensures forall k :: 0 <= k < dest.Length && !(base <= k < base + write) ==> dest[k] == old(dest[k])
  {
    hide Run, Decodes;
    pos, write, returned, state, end := from, start, false, StateNone, EndNone;
    ghost var out := dest[base..base + start];
    if pos >= |src| {
      Exhausts(entry, src);
      return pos, write, true, StateCRLFDT, EndNone;
    }
    Moves(entry, src, pos, out, StateCRLFDT);
    EmitNothing(out);
    if src[pos] == CR {
      pos := pos + 1;
      if pos >= |src| {
        Exhausts(entry, src);
        return pos, write, true, StateCRLFDTCR, EndNone;
      }
      Moves(entry, src, pos, out, StateCRLFDTCR);
      if src[pos] == LF {
        return pos + 1, write, true, StateCRLF, EndArticle;
      }
      pos := pos - 1;
    } else if src[pos] == EQUALS {
      pos := pos + 1;
      if pos >= |src| {
        Exhausts(entry, src);
        return pos, write, true, StateCRLFEQ, EndNone;
      }
      pos, write, returned, state, end := EscapeAhead(dest, base, src, entry, pos, write);
    } else {
      pos := pos - 1;
    }
  }

  /** The lookahead at a CR LF pair with at least one byte after it. Where it returns without
      an end, pos is left so that the loop's pos++ lands on the next byte to scan. */
  method NewlineAhead(dest: array<byte>, base: nat, src: seq<byte>, entry: State, from: nat, start: nat)
    returns (pos: nat, write: nat, returned: bool, state: State, end: End)
    requires from + 3 <= |src| && src[from] == CR && src[from + 1] == LF
    requires start <= from && base + |src| <= dest.Length
    requires Scanning(entry, src, from, dest[base..base + start])
    modifies dest
    ensures pos <= |src| && from <= pos && start <= write <= pos
    ensures returned ==> Decodes(entry, src, pos, dest[base..base + write], state, end)
    ensures returned && end == EndNone ==> pos == |src|
    ensures !returned ==> pos < |src| && Scanning(entry, src, pos + 1, dest[base..base + write])
    ensures forall k :: 0 <= k < dest.Length && !(base <= k < base + write) ==> dest[k] == old(dest[k])
  {
    hide Run, Decodes;
    pos, write, returned, state, end := from, start, false, StateNone, EndNone;
    ghost var out := dest[base..base + start];
    ScanPlain(entry, src, from, out);
    Moves(entry, src, from + 1, out, StateCR);
    Moves(entry, src, from + 2, out, StateCRLF);
    assert out + [] == out;
    if src[pos + 2] == DOT {
      pos, write, returned, state, end := DotAhead(dest, base, src, entry, pos + 3, write);
    } else if src[pos + 2] == EQUALS {
      pos := pos + 3;
      if pos >= |src| {
        Exhausts(entry, src);
        return pos, write, true, StateCRLFEQ, EndNone;
      }
      pos, write, returned, state, end := EscapeAhead(dest, base, src, entry, pos, write);
    }
  }

  /** The byte after a line's first `=`: the control line's y, or an escaped byte. */
  method EscapeAhead(dest: array<byte>, base: nat, src: seq<byte>, entry: State, from: nat, start: nat)
    returns (pos: nat, write: nat, returned: bool, state: State, end: End)
    requires 0 < from < |src|
    requires start + 1 < from && base + |src| <= dest.Length
    requires Run(entry, src, from) == Live(dest[base..base + start], StateCRLFEQ)
    modifies dest
    ensures pos <= |src| && from <= pos + 1 && start <= write <= pos
    ensures returned ==> Decodes(entry, src, pos, dest[base..base + write], state, end) && end == EndControl
    ensures !returned ==> pos < |src| && Scanning(entry, src, pos + 1, dest[base..base + write])
    ensures forall k :: 0 <= k < dest.Length && !(base <= k < base + write) ==> dest[k] == old(dest[k])
  {
    pos, write, returned, state, end := from, start, false, StateNone, EndNone;
    Moves(entry, src, from, dest[base..base + start], StateCRLFEQ);
    if src[pos] == LETTER_Y {
      return pos + 1, write, true, StateNone, EndControl;
    }
    var c := src[pos];
    write := Emit(dest, base, write, c - ESCAPED_SHIFT);
    if c == CR {
      // the CR is looked at once more, as a line's possible end
      pos := pos - 1;
    }
  }

  /** An escape character and the byte after it, which is looked at again when it is a CR. */
  method EscapedByte(dest: array<byte>, base: nat, src: seq<byte>, entry: State, from: nat, start: nat)
    returns (pos: nat, write: nat)
    requires from + 1 < |src| && src[from] == EQUALS
    requires start <= from && base + |src| <= dest.Length
    requires Scanning(entry, src, from, dest[base..base + start])
    modifies dest
    ensures from <= pos < |src| && write == start + 1
    ensures Scanning(entry, src, pos + 1, dest[base..base + write])
    ensures forall k :: 0 <= k < dest.Length && !(base <= k < base + write) ==> dest[k] == old(dest[k])
  {
    pos, write := from, start;
    ScanPlain(entry, src, pos, dest[base..base + write]);
    Moves(entry, src, pos + 1, dest[base..base + write], StateEQ);
    var c := src[pos + 1];
    write := Emit(dest, base, write, c - ESCAPED_SHIFT);
    if c != CR {
      pos := pos + 1;
    }
  }

  /** One byte with nothing special to look ahead for: dropped, or emitted. */
  method LoneByte(dest: array<byte>, base: nat, src: seq<byte>, ghost entry: State, pos: nat, start: nat)
    returns (write: nat)
    requires pos < |src| && src[pos] != EQUALS
    requires src[pos] == CR ==> pos + 1 < |src| && src[pos + 1] != LF
    requires start <= pos && base + |src| <= dest.Length
    requires Scanning(entry, src, pos, dest[base..base + start])
    modifies dest
    ensures start <= write <= pos + 1
    ensures Scanning(entry, src, pos + 1, dest[base..base + write])
    ensures forall k :: 0 <= k < dest.Length && !(base <= k < base + write) ==> dest[k] == old(dest[k])
  {
    write := start;
    var c := src[pos];
    ScanPlain(entry, src, pos, dest[base..base + write]);
    if c != CR && c != LF {
      write := Emit(dest, base, write, c - SHIFT);
    }
  }

  /** The loop over every byte with at least two more behind it. */
  method ScanBody(dest: array<byte>, base: nat, src: seq<byte>, entry: State, from: nat, start: nat)
    returns (pos: nat, write: nat, returned: bool, state: State, end: End)
    requires base + |src| <= dest.Length && start <= from <= |src|
    requires Scanning(entry, src, from, dest[base..base + start])
    modifies dest
    ensures pos <= |src| && start <= write <= pos
    ensures returned ==> Decodes(entry, src, pos, dest[base..base + write], state, end)
    ensures returned && end == EndNone ==> pos == |src|
    ensures !returned ==> |src| < pos + 3 && Scanning(entry, src, pos, dest[base..base + write])
    ensures |src| < from + 3 ==> !returned && pos == from
    ensures forall k :: 0 <= k < dest.Length && !(base <= k < base + write) ==> dest[k] == old(dest[k])
  {
    hide Run, Decodes, Scanning;
    pos, write, returned, state, end := from, start, false, StateNone, EndNone;
    while pos + 3 <= |src|
      invariant from <= pos <= |src| && start <= write <= pos && (|src| < from + 3 ==> pos == from)
      invariant Scanning(entry, src, pos, dest[base..base + write])
      invariant forall k :: 0 <= k < dest.Length && !(base <= k < base + write) ==> dest[k] == old(dest[k])
    {
      var c := src[pos];
      if c == CR && src[pos + 1] == LF {
        pos, write, returned, state, end := NewlineAhead(dest, base, src, entry, pos, write);
        if returned {
          return;
        }
      } else if c == EQUALS {
        pos, write := EscapedByte(dest, base, src, entry, pos, write);
      } else {
        write := LoneByte(dest, base, src, entry, pos, write);
      }
      pos := pos + 1;
    }
  }

  /** The second last byte, whose lookahead is one byte. */
  method ScanSecondLast(dest: array<byte>, base: nat, src: seq<byte>, entry: State, from: nat, start: nat)
    returns (pos: nat, write: nat, returned: bool)
    requires base + |src| <= dest.Length && start <= from && from + 2 == |src|
    requires Scanning(entry, src, from, dest[base..base + start])
    modifies dest
    ensures pos <= |src| && start <= write <= pos
    ensures returned ==>
      Decodes(entry, src, pos, dest[base..base + write], StateCRLF, EndNone) && src[pos..] == NEWLINE
    ensures !returned ==> |src| < pos + 2 && Scanning(entry, src, pos, dest[base..base + write])
    ensures src[from] == CR && src[from + 1] == LF ==> returned && pos == from
    ensures forall k :: 0 <= k < dest.Length && !(base <= k < base + write) ==> dest[k] == old(dest[k])
  {
    hide Run, Decodes;
    pos, write, returned := from, start, false;
    var c := src[pos];
    if c == CR && src[pos + 1] == LF {
      ScanPlain(entry, src, pos, dest[base..base + write]);
      NewlineHeldBack(entry, src, dest[base..base + write]);
      return pos, write, true;
    }
    if c == EQUALS {
      pos, write := EscapedByte(dest, base, src, entry, pos, write);
    } else {
      write := LoneByte(dest, base, src, entry, pos, write);
    }
    pos := pos + 1;
  }

  /** The final byte is kept apart: it may be the escape character. */
  method ScanLast(dest: array<byte>, base: nat, src: seq<byte>, entry: State, from: nat, start: nat)
    returns (write: nat, state: State)
    requires base + |src| <= dest.Length && start <= from <= |src| < from + 2
    requires Scanning(entry, src, from, dest[base..base + start])
    modifies dest
    ensures start <= write <= |src|
    ensures Decodes(entry, src, |src|, dest[base..base + write], state, EndNone)
    ensures forall k :: 0 <= k < dest.Length && !(base <= k < base + write) ==> dest[k] == old(dest[k])
  {
    hide Decodes;
    write, state := start, StateNone;
    if from + 1 == |src| {
      var c := src[from];
      ScanPlain(entry, src, from, dest[base..base + write]);
      if c != LF && c != CR && c != EQUALS {
        write := Emit(dest, base, write, c - SHIFT);
      } else {
        state := if c == EQUALS then StateEQ else if c == CR then StateCR else StateNone;
      }
    }
    Exhausts(entry, src);
  }

  /** A CR LF at the very end is left for the next call, which sees it from StateCRLF. */
  lemma NewlineHeldBack(entry: State, src: seq<byte>, out: seq<byte>)
    requires 2 <= |src| && |out| <= |src| - 2 && src[|src| - 2] == CR && src[|src| - 1] == LF
    requires Run(entry, src, |src| - 1) == Live(out, StateCR)
    ensures Decodes(entry, src, |src| - 2, out, StateCRLF, EndNone)
    ensures src[|src| - 2..] == NEWLINE
  {
    assert src[|src| - 2..] == NEWLINE;
    assert Run(StateCRLF, NEWLINE, 1) == Live([], StateCR);
    assert Decode(StateCRLF, NEWLINE) == Live([], StateCRLF);
    assert out + [] == out;
  }

  /** The last two bytes, with what is left to see for their lookahead. */
  method ScanTail(dest: array<byte>, base: nat, src: seq<byte>, entry: State, from: nat, start: nat)
    returns (nSrc: nat, nOut: nat, state: State)
    requires base + |src| <= dest.Length && start <= from <= |src| < from + 3
    requires Scanning(entry, src, from, dest[base..base + start])
    modifies dest
    ensures start <= nOut <= |src|
    ensures Decodes(entry, src, nSrc, dest[base..base + nOut], state, EndNone)
    ensures nSrc < |src| ==> src[nSrc..] == NEWLINE && state == StateCRLF
    ensures from + 2 == |src| && src[from] == CR && src[from + 1] == LF ==> nSrc == from
    ensures forall k :: 0 <= k < dest.Length && !(base <= k < base + nOut) ==> dest[k] == old(dest[k])
  {
    hide Decodes, Scanning, Run;
    nSrc, nOut := from, start;
    if nSrc + 2 == |src| {
      state := StateCRLF;
      var returned;
      nSrc, nOut, returned := ScanSecondLast(dest, base, src, entry, nSrc, nOut);
      if returned {
        return;
      }
    }
    nOut, state := ScanLast(dest, base, src, entry, nSrc, nOut);
    nSrc := |src|;
  }

  lemma NothingToDecode(entry: State, src: seq<byte>)
    requires src == []
    ensures Decodes(entry, src, 0, [], entry, EndNone)
  {
  }

  /** decodeGeneric: it writes dest from base on, and no further than it decodes. */
  method DecodeGeneric(dest: array<byte>, base: nat, src: seq<byte>, entry: State)
    returns (nSrc: nat, nOut: nat, state: State, end: End)
    requires base + |src| <= dest.Length
    modifies dest
    ensures nOut <= |src|
    ensures Decodes(entry, src, nSrc, dest[base..base + nOut], state, end)
    ensures end == EndNone && nSrc < |src| ==> src[nSrc..] == NEWLINE && state == StateCRLF
    ensures |src| == 2 && src[0] == CR && src[1] == LF && ScansCr(entry) ==> nSrc == 0
    ensures forall k :: 0 <= k < dest.Length && !(base <= k < base + nOut) ==> dest[k] == old(dest[k])
  {
    hide *;
    if |src| < 1 {
      NothingToDecode(entry, src);
      assert dest[base..base + 0] == [];
      return 0, 0, entry, EndNone;
    }
    var returned;
    nSrc, nOut, returned, state, end := EnterState(dest, base, src, entry);
    if !returned {
      nSrc, nOut, returned, state, end := ScanBody(dest, base, src, entry, nSrc, nOut);
    }
    if !returned {
      nSrc, nOut, state := ScanTail(dest, base, src, entry, nSrc, nOut);
      end := EndNone;
    }
  }
}
