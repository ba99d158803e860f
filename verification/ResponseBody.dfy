/** The yEnc body of a response: decodeYenc, the buffer it decodes into, and what its backing up
    means for whatever is fed next. */
module ResponseBody {
  import opened Bytes
  import opened YencMachine
  import CompactLut
  import Crc = Crc32
  import G = GenericDecoder
  import V = SimdDecoder

  const CONTROL_MARK: seq<byte> := [0x3D, 0x79]
  const TERMINATOR: seq<byte> := [0x2E, 0x0D, 0x0A]

  // ----- backing up

  /** What decodeYenc tells its caller; consumed may have been moved back. */
  datatype Report = Report(consumed: int, state: State, body: bool)

  function BackUp(nSrc: nat, state: State, end: End): Report {
    match end
    case EndNone => if state == StateCRLFEQ then Report(nSrc - 1, StateCRLF, true) else Report(nSrc, state, true)
    case EndControl => Report(nSrc - 2, state, false)
    case EndArticle => Report(nSrc - 3, state, false)
  }

  /** One call, in the machine's terms: while the body goes on, the bytes not consumed take the
      state it kept to where the machine is, and that state never waits for what follows an `=`
      at a line's start. Where the machine stops, the marker it stopped at is given back. */
  ghost predicate Fed(q: State, slice: seq<byte>, out: seq<byte>, r: Report) {
    var t := Decode(q, slice);
    && out == t.out
    && r.body == t.Live?
    && (t.Live? ==>
          && 0 <= r.consumed <= |slice|
          && r.state != StateCRLFEQ
          && Decode(r.state, slice[r.consumed..]) == Live([], t.state))
    && (t.Halted? ==> r.consumed == t.used - (if t.end == EndControl then |CONTROL_MARK| else |TERMINATOR|))
  }

  lemma {:induction false} HaltedAt(q: State, src: seq<byte>, n: nat)
    requires n <= |src| && Run(q, src, n).Halted?
    ensures var t := Run(q, src, n);
      && 0 < t.used <= n
      && Run(q, src, t.used - 1).Live?
      && Step(Run(q, src, t.used - 1).state, src[t.used - 1]) == Stop(t.end, t.state)
  {
    hide Step;
    if Run(q, src, n - 1).Halted? {
      HaltedAt(q, src, n - 1);
    }
  }

  // The byte that led into a state named after it.
  lemma LedInto(q: State, src: seq<byte>, n: nat)
    requires n <= |src| && Run(q, src, n).Live?
    ensures var s := Run(q, src, n).state;
      && (s == StateCRLFEQ ==> (q == s && n == 0) || (0 < n && src[n - 1] == EQUALS))
      && (s == StateCRLFDTCR ==>
            (q == s && n == 0) || (0 < n && src[n - 1] == CR && Run(q, src, n - 1).state == StateCRLFDT))
      && (s == StateCRLFDT ==> (q == s && n == 0) || (0 < n && src[n - 1] == DOT))
  {
    if n > 0 {
      assert Run(q, src, n - 1).Live?;
    }
  }

  lemma LiveBefore(q: State, src: seq<byte>, n: nat)
    requires 0 < n <= |src| && Run(q, src, n).Live?
    ensures Run(q, src, n - 1).Live?
  {
  }

  // Replaying `=` at a line's start gets back to where the decoder was.
  lemma EqualsReplayed()
    ensures Decode(StateCRLF, [EQUALS]) == Live([], StateCRLFEQ)
  {
    assert Run(StateCRLF, [EQUALS], 1) == Advance(Run(StateCRLF, [EQUALS], 0), EQUALS, 1);
  }

  // A decoder waiting after `=` has nothing left over: its next byte would be emitted, or stop it.
  lemma NothingLeftAfterEquals(rest: seq<byte>, state: State)
    requires Decode(StateCRLFEQ, rest) == Live([], state)
    ensures rest == [] && state == StateCRLFEQ
  {
    assert rest != [] ==> rest[..1] + rest[1..] == rest;
    if rest != [] {
      assert Run(StateCRLFEQ, rest, 1) == Advance(Live([], StateCRLFEQ), rest[0], 1);
      RunPrefix(StateCRLFEQ, rest[..1], rest[1..], 1);
      DecodeConcat(StateCRLFEQ, rest[..1], rest[1..]);
    }
  }

  lemma BackUpOpen(q: State, slice: seq<byte>, nSrc: nat, out: seq<byte>, state: State)
    requires q != StateCRLFEQ && Decodes(q, slice, nSrc, out, state, EndNone)
    ensures Fed(q, slice, out, BackUp(nSrc, state, EndNone))
    ensures state == StateCRLFEQ ==> 0 < nSrc == |slice| && slice[nSrc - 1] == EQUALS && Decode(q, slice).state == StateCRLFEQ
  {
    if state == StateCRLFEQ {
      NothingLeftAfterEquals(slice[nSrc..], Decode(q, slice).state);
      LedInto(q, slice, |slice|);
      assert slice[nSrc - 1..] == [EQUALS];
      EqualsReplayed();
    }
  }

  /** decodeYenc's adjustments keep faith with the machine, whatever decoder it called. */
  lemma BackUpKeepsFaith(q: State, slice: seq<byte>, nSrc: nat, out: seq<byte>, state: State, end: End)
    requires q != StateCRLFEQ && Decodes(q, slice, nSrc, out, state, end)
    ensures Fed(q, slice, out, BackUp(nSrc, state, end))
  {
    if end == EndNone {
      BackUpOpen(q, slice, nSrc, out, state);
    } else {
      HaltedAt(q, slice, |slice|);
    }
  }

  // What may be left of a slice that does not end the body.
  predicate Leftover(rest: seq<byte>) {
    rest == [] || rest == [EQUALS] || rest == NEWLINE
  }

  /** Either decoder's promises, as far as progress needs them. */
  ghost predicate HoldsBackNewlines(q: State, slice: seq<byte>, nSrc: nat, state: State) {
    && (nSrc < |slice| ==> slice[nSrc..] == NEWLINE && state == StateCRLF)
    && (slice == NEWLINE && G.ScansCr(q) ==> nSrc == 0)
  }

  /** What one call leaves while the body goes on, and that it decodes no more than it consumes. */
  lemma BackUpLeaves(q: State, slice: seq<byte>, nSrc: nat, out: seq<byte>, state: State)
    requires q != StateCRLFEQ && Decodes(q, slice, nSrc, out, state, EndNone) && HoldsBackNewlines(q, slice, nSrc, state)
    ensures var consumed := BackUp(nSrc, state, EndNone).consumed;
      && 0 <= consumed <= |slice|
      && Leftover(slice[consumed..])
      && |out| <= consumed
  {
    BackUpOpen(q, slice, nSrc, out, state);
    if state == StateCRLFEQ {
      assert slice[nSrc - 1..] == [EQUALS];
      OutNoLongerThanUsed(q, slice, nSrc - 1);
    } else if nSrc == |slice| {
      assert slice[nSrc..] == [];
    }
  }

  // An `=` at a line's start decodes to nothing.
  lemma EqualsIsSilent(q: State, src: seq<byte>, n: nat)
    requires 0 < n <= |src| && Run(q, src, n).Live? && Run(q, src, n).state == StateCRLFEQ
    ensures |Run(q, src, n).out| < n
  {
    OutNoLongerThanUsed(q, src, n - 1);
  }

  /** A control line's two bytes decode to nothing. */
  lemma ControlIsSilent(q: State, slice: seq<byte>)
    requires q != StateCRLFEQ && Decode(q, slice).Halted? && Decode(q, slice).end == EndControl
    ensures |Decode(q, slice).out| + 2 <= Decode(q, slice).used <= |slice|
  {
    hide Step;
    HaltedAt(q, slice, |slice|);
    var used := Decode(q, slice).used;
    RunHalted(q, slice, used, |slice|);
    StopsAfter(Run(q, slice, used - 1).state, slice[used - 1]);
    EqualsIsSilent(q, slice, used - 1);
  }

  // What comes right before an end.
  lemma StopsAfter(q: State, c: byte)
    ensures Step(q, c).Stop? ==>
      match Step(q, c).end
      case EndControl => q == StateCRLFEQ && c == LETTER_Y
      case EndArticle => q == StateCRLFDTCR && c == LF
      case EndNone => false
  {
  }

  /** At a control line both bytes of its `=y` are in this slice, and are given back. */
  lemma ControlGivenBack(q: State, slice: seq<byte>)
    requires q != StateCRLFEQ && Decode(q, slice).Halted? && Decode(q, slice).end == EndControl
    ensures 2 <= Decode(q, slice).used <= |slice|
    ensures slice[Decode(q, slice).used - 2..Decode(q, slice).used] == [0x3D, 0x79] == CONTROL_MARK
  {
    hide Step;
    HaltedAt(q, slice, |slice|);
    var used := Decode(q, slice).used;
    StopsAfter(Run(q, slice, used - 1).state, slice[used - 1]);
    LedInto(q, slice, used - 1);
  }

  /** The terminator is not wholly in this slice exactly when its first bytes came before it. */
  predicate TerminatorSplit(q: State, slice: seq<byte>) {
    || (q == StateCRLFDTCR && 0 < |slice| && slice[0] == LF)
    || (q == StateCRLFDT && 1 < |slice| && slice[0] == CR && slice[1] == LF)
  }

  lemma SplitHalts(q: State, slice: seq<byte>)
    requires TerminatorSplit(q, slice)
    ensures Decode(q, slice).Halted? && Decode(q, slice).end == EndArticle && Decode(q, slice).used < 3
  {
    if q == StateCRLFDTCR {
      assert Run(q, slice, 1) == Advance(Live([], q), slice[0], 1);
      RunHalted(q, slice, 1, |slice|);
    } else {
      assert Run(q, slice, 1) == Advance(Live([], q), slice[0], 1);
      assert Run(q, slice, 2) == Advance(Live([], StateCRLFDTCR), slice[1], 2);
      RunHalted(q, slice, 2, |slice|);
    }
  }

  /** Giving back the terminator's three bytes goes below the slice's start exactly when the
      terminator was split over two slices; otherwise they are the bytes given back. */
  lemma TerminatorGivenBack(q: State, slice: seq<byte>)
    requires Decode(q, slice).Halted? && Decode(q, slice).end == EndArticle
    ensures Decode(q, slice).used < 3 <==> TerminatorSplit(q, slice)
    ensures !TerminatorSplit(q, slice) ==>
      && 3 <= Decode(q, slice).used <= |slice|
      && slice[Decode(q, slice).used - 3..Decode(q, slice).used] == [0x2E, 0x0D, 0x0A] == TERMINATOR
  {
    hide Run, Step;
    HaltedAt(q, slice, |slice|);
    var used := Decode(q, slice).used;
    StopsAfter(Run(q, slice, used - 1).state, slice[used - 1]);
    LedInto(q, slice, used - 1);
    RunEmpty(q, slice);
    if 1 < used {
      LiveBefore(q, slice, used - 1);
      LedInto(q, slice, used - 2);
    }
    if TerminatorSplit(q, slice) {
      SplitHalts(q, slice);
    }
  }

  /** For one: a slice holding only the terminator's last byte makes decodeYenc report -2. */
  lemma SplitExample()
    ensures Decodes(StateCRLFDTCR, [LF], 1, [], StateCRLF, EndArticle)
    ensures BackUp(1, StateCRLF, EndArticle).consumed == -2
  {
    assert Run(StateCRLFDTCR, [LF], 1) == Advance(Run(StateCRLFDTCR, [LF], 0), LF, 1);
  }

  // ----- progress

  /** Slices of which decodeYenc can use nothing: a lone `=` at a line's start, and a lone CR LF
      that is not part of an escape or a terminator. */
  predicate IsStuck(q: State, slice: seq<byte>) {
    || (slice == [EQUALS] && (q == StateCRLF || q == StateCRLFDT))
    || (slice == NEWLINE && G.ScansCr(q))
  }

  lemma NewlineMoves(q: State)
    ensures Run(q, NEWLINE, 1) == Advance(Live([], q), CR, 1)
    ensures Run(q, NEWLINE, 2) == Advance(Run(q, NEWLINE, 1), LF, 2)
    ensures Decode(q, NEWLINE) == Run(q, NEWLINE, 2)
  {
  }

  lemma ProgressUnlessStuck(q: State, slice: seq<byte>, nSrc: nat, out: seq<byte>, state: State)
    requires q != StateCRLFEQ && slice != []
    requires Decodes(q, slice, nSrc, out, state, EndNone) && HoldsBackNewlines(q, slice, nSrc, state)
    ensures BackUp(nSrc, state, EndNone).consumed == 0 <==> IsStuck(q, slice)
    ensures BackUp(nSrc, state, EndNone).consumed == 0 ==> BackUp(nSrc, state, EndNone).state == StateCRLF
  {
    BackUpOpen(q, slice, nSrc, out, state);
    if state == StateCRLFEQ && nSrc == 1 {
      assert slice == [EQUALS];
      assert Run(q, slice, 1) == Advance(Live([], q), EQUALS, 1);
    }
    if nSrc == 0 {
      assert slice[0..] == slice;
      NewlineMoves(q);
    }
    if slice == [EQUALS] && (q == StateCRLF || q == StateCRLFDT) {
      assert Run(q, slice, 1) == Advance(Live([], q), EQUALS, 1);
      assert slice[1..] == [];
    }
  }

  /** For one: an `=` alone at a line's start, and a CR LF alone after anything. */
  lemma StuckExample()
    ensures Decodes(StateCRLF, [EQUALS], 1, [], StateCRLFEQ, EndNone)
    ensures BackUp(1, StateCRLFEQ, EndNone) == Report(0, StateCRLF, true)
    ensures Decodes(StateNone, NEWLINE, 0, [], StateCRLF, EndNone)
    ensures BackUp(0, StateCRLF, EndNone) == Report(0, StateCRLF, true)
  {
    EqualsReplayed();
    NewlineMoves(StateNone);
    NewlineMoves(StateCRLF);
    assert [EQUALS][1..] == [] && NEWLINE[0..] == NEWLINE;
  }

  /** A stuck slice decodes to nothing and does not end the body. */
  lemma StuckIsSilent(q: State, slice: seq<byte>, out: seq<byte>, r: Report)
    requires IsStuck(q, slice) && Fed(q, slice, out, r)
    ensures out == [] && r.body && Decode(q, slice).Live?
  {
    if slice == [EQUALS] {
      assert Run(q, slice, 1) == Advance(Live([], q), EQUALS, 1);
    } else {
      NewlineMoves(q);
    }
  }

  // ----- over a whole stream

  /** What holds between calls: of the stream whose first pos bytes have been consumed, contents
      is decoded, and the rest still decodes from state as it would have in one go. */
  ghost predicate Onward(stream: seq<byte>, pos: nat, contents: seq<byte>, state: State) {
    && pos <= |stream|
    && state != StateCRLFEQ
    && Decode(StateCRLF, stream) == After(contents, pos, Decode(state, stream[pos..]))
  }

  lemma OnwardStart(stream: seq<byte>)
    ensures Onward(stream, 0, [], StateCRLF)
  {
    assert stream[0..] == stream;
    AfterNothing(Decode(StateCRLF, stream));
  }

  lemma AfterNothing(t: Trace)
    ensures After([], 0, t) == t
  {
    assert [] + t.out == t.out;
  }

  /** More of the stream arrives. */
  lemma OnwardArrives(stream: seq<byte>, more: seq<byte>, pos: nat, contents: seq<byte>, state: State)
    requires Onward(stream, pos, contents, state)
    ensures Onward(stream + more, pos, contents, state)
  {
    DecodeConcat(StateCRLF, stream, more);
    DecodeConcat(state, stream[pos..], more);
    assert (stream + more)[pos..] == stream[pos..] + more;
    var t := Decode(state, stream[pos..]);
    if t.Live? {
      AfterAfter(contents, pos, t.out, |stream[pos..]|, Decode(t.state, more));
    }
  }

  /** The body is over: contents is all the stream decodes to, and the marker that ended it
      begins at position at. */
  ghost predicate Ended(stream: seq<byte>, contents: seq<byte>, at: int) {
    var t := Decode(StateCRLF, stream);
    && t.Halted?
    && t.out == contents
    && at == t.used - (if t.end == EndControl then |CONTROL_MARK| else |TERMINATOR|)
  }

  /** One call on any leading part of what has not been consumed. */
  lemma OnwardFed(stream: seq<byte>, pos: nat, contents: seq<byte>, q: State, n: nat, out: seq<byte>, r: Report)
    requires Onward(stream, pos, contents, q) && pos + n <= |stream|
    requires Fed(q, stream[pos..pos + n], out, r)
    ensures r.body ==> Onward(stream, pos + r.consumed, contents + out, r.state)
    ensures !r.body ==> Ended(stream, contents + out, pos + r.consumed)
  {
    var slice, rest := stream[pos..pos + n], stream[pos + n..];
    assert stream[pos..] == slice + rest;
    DecodeConcat(q, slice, rest);
    if r.body {
      DecodeConcat(r.state, slice[r.consumed..], rest);
      assert slice[r.consumed..] + rest == stream[pos + r.consumed..];
      OnwardNext(contents, pos, out, r.consumed, n, Decode(Decode(q, slice).state, rest));
    }
  }

  lemma FedBounds(q: State, slice: seq<byte>, out: seq<byte>, r: Report)
    requires Fed(q, slice, out, r)
    ensures r.consumed <= |slice| && (r.body ==> 0 <= r.consumed)
  {
    if !r.body {
      HaltedAt(q, slice, |slice|);
    }
  }

  // The stream ends in a terminator.
  ghost predicate SplitSomewhere(stream: seq<byte>) {
    Decode(StateCRLF, stream).Halted? && Decode(StateCRLF, stream).end == EndArticle
  }

  lemma SplitFed(q: State, slice: seq<byte>, out: seq<byte>, r: Report)
    requires q != StateCRLFEQ && Fed(q, slice, out, r) && !r.body && r.consumed < 0
    ensures TerminatorSplit(q, slice) && Decode(q, slice).Halted? && Decode(q, slice).end == EndArticle
  {
    hide TerminatorSplit, Run;
    HaltedAt(q, slice, |slice|);
    if Decode(q, slice).end == EndControl {
      ControlGivenBack(q, slice);
    } else {
      TerminatorGivenBack(q, slice);
    }
  }

  /** Giving back too much takes a terminator split over two slices; a control line never is. */
  lemma SplitIsSomewhere(stream: seq<byte>, pos: nat, contents: seq<byte>, q: State, n: nat, out: seq<byte>, r: Report)
    requires Onward(stream, pos, contents, q) && pos + n <= |stream|
    requires Fed(q, stream[pos..pos + n], out, r) && !r.body && r.consumed < 0
    ensures SplitSomewhere(stream) && TerminatorSplit(q, stream[pos..pos + n])
  {
    hide TerminatorSplit, Fed, Decode;
    var slice, rest := stream[pos..pos + n], stream[pos + n..];
    assert stream[pos..] == slice + rest;
    SplitFed(q, slice, out, r);
    DecodeConcat(q, slice, rest);
  }

  // Two ways to have reached the same trace.
  lemma OnwardNext(contents: seq<byte>, pos: nat, out: seq<byte>, consumed: nat, n: nat, t: Trace)
    requires consumed <= n
    ensures After(contents, pos, After(out, n, t)) == After(contents + out, pos + consumed, After([], n - consumed, t))
  {
    AfterAfter(contents, pos, out, n, t);
    AfterAfter(contents + out, pos + consumed, [], n - consumed, t);
    assert (contents + out) + [] == contents + out;
  }

  /** Where the control line begins is where the next call of the line reader looks. */
  lemma ControlBegins(stream: seq<byte>, contents: seq<byte>, at: int)
    requires Ended(stream, contents, at) && Decode(StateCRLF, stream).end == EndControl
    ensures 0 <= at <= |stream| - 2 && stream[at..at + 2] == CONTROL_MARK
  {
    ControlGivenBack(StateCRLF, stream);
  }

  /** With everything consumed but bytes that decode to nothing, the stream has not ended, and all
      it decodes to is there. */
  lemma AllDecoded(stream: seq<byte>, pos: nat, contents: seq<byte>, state: State)
    requires Onward(stream, pos, contents, state)
    requires Decode(state, stream[pos..]).Live? && Decode(state, stream[pos..]).out == []
    ensures Decode(StateCRLF, stream).Live? && Decode(StateCRLF, stream).out == contents
  {
    assert contents + [] == contents;
  }

  lemma AllConsumed(stream: seq<byte>, contents: seq<byte>, state: State)
    requires Onward(stream, |stream|, contents, state)
    ensures Decode(StateCRLF, stream).Live? && Decode(StateCRLF, stream).out == contents
  {
    assert stream[|stream|..] == [];
    AllDecoded(stream, |stream|, contents, state);
  }

  /** What has been decoded is never more than the whole stream decodes to. */
  lemma OnwardLength(stream: seq<byte>, pos: nat, contents: seq<byte>, state: State)
    requires Onward(stream, pos, contents, state)
    ensures |contents| <= |Decode(StateCRLF, stream).out|
  {
  }

  // ----- the response

  const MAX_PART_SIZE := 10 * 1024 * 1024
  const MIN_BUFFER_SIZE := 1024

  function Min(a: int, b: int): int { if a < b then a else b }

  function Max(a: int, b: int): int { if a < b then b else a }

  class Response {
    // Data: null until the first call, then a buffer of which len bytes are used
    var data: array?<byte>
    var len: nat
    var state: State
    var body: bool
    var crc: Crc.reg
    var bytesProduced: nat
    // as the headers have set them
    const partSize: int
    const fileSize: int
    // the build's choice of decoder, and its table
    const vector: bool
    const lut: array2<byte>

    /** The table has been filled in, if it is used. */
    ghost predicate Ready()
      reads lut
    {
      vector ==> CompactLut.IsCompactLut(lut)
    }

    ghost predicate Valid()
      reads `data, `len
    {
      if data == null then len == 0 else len <= data.Length
    }

    ghost function Contents(): (s: seq<byte>)
      requires Valid()
      reads `data, `len, data
    {
      if data == null then [] else data[..len]
    }

    /** What the metadata says of the contents. */
    ghost predicate Accounted()
      requires Valid()
      reads `data, `len, `crc, `bytesProduced, data
    {
      crc == Crc.Update(0, Contents()) && bytesProduced == |Contents()|
    }

    constructor (partSize: int, fileSize: int, vector: bool, lut: array2<byte>)
      ensures Valid() && Contents() == [] && Accounted() && body && state == StateCRLF && data == null
      ensures this.partSize == partSize && this.fileSize == fileSize && this.vector == vector && this.lut == lut
    {
      data, len, state, body, crc, bytesProduced := null, 0, StateCRLF, true, 0, 0;
      this.partSize, this.fileSize, this.vector, this.lut := partSize, fileSize, vector, lut;
      new;
      Crc.InvertedTwice(0);
    }

    // The size of the data, as the headers have it.
    function Claimed(): int
    {
      if partSize <= 0 then fileSize else partSize
    }

    /** computeExpectedSize: what the headers claim and 64 bytes more, within fixed bounds. */
    function ComputeExpectedSize(): (expected: int)
      ensures 1024 <= expected <= 10_485_760
      ensures var claimed := if partSize >= 1 then partSize else fileSize;
        && (claimed + 64 <= expected || expected == 10_485_760)
        && (expected <= claimed + 64 || expected == 1024)
    {
      Min(Max(Min(Claimed(), MAX_PART_SIZE) + 64, MIN_BUFFER_SIZE), MAX_PART_SIZE)
    }

    /** The buffer, once there is one, holds what the headers claim. */
    ghost predicate Sized()
      reads `data
    {
      data != null ==> ComputeExpectedSize() <= data.Length
    }

    // The capacity of the buffer a new response decodes into.
    ghost function FirstCapacity(pooled: array?<byte>): (c: nat) {
      if pooled != null && ComputeExpectedSize() <= pooled.Length then pooled.Length else ComputeExpectedSize()
    }

    // The capacity of the buffer there is, or of the one there will be.
    ghost function Capacity(pooled: array?<byte>): (c: nat)
      reads `data
    {
      if data != null then data.Length else FirstCapacity(pooled)
    }

    /** How much of so many bytes is decoded in one call. */
    ghost function Portion(pooled: array?<byte>, length: nat): (n: nat)
      requires Valid()
      reads `data, `len
      ensures n <= length && (0 < length ==> 0 < n)
    {
      var space := Capacity(pooled) - len;
      if 0 < space < length then space else length
    }

    /** grow */
    method Grow(n: nat)
      requires Valid() && data != null
      modifies this`data
      ensures Valid() && data != null && data.Length == (if old(data.Length) < n then Max(n, 2 * old(data.Length)) else old(data.Length))
      ensures Contents() == old(Contents()) && (data == old(data) || fresh(data))
    {
      if data.Length < n {
        var size := if n < 2 * data.Length then 2 * data.Length else n;
        var newData := new byte[size](i => 0);
        forall i | 0 <= i < len {
          newData[i] := data[i];
        }
        assert newData[..len] == data[..len];
        data := newData;
      }
    }

    /** ensureData: how much of buf can be decoded into Data. Where some room is left but not enough
        for all of buf, that room is all that is used; the buffer grows only when it is full. */
    method EnsureData(pooled: array?<byte>, buf: seq<byte>) returns (n: nat)
      requires Valid() && Sized() && buf != []
      modifies this`data
      ensures Valid() && Sized() && data != null && Contents() == old(Contents())
      ensures n == old(Portion(pooled, |buf|)) && len + n <= data.Length
      ensures data.Length
        == if old(Capacity(pooled)) == len then Max(len + |buf|, 2 * len) else old(Capacity(pooled))
      ensures data == old(data) || data == pooled || fresh(data)
    {
      if data == null {
        var expected := ComputeExpectedSize();
        if pooled == null || pooled.Length < expected {
          data := new byte[expected];
        } else {
          data := pooled;
        }
        assert data[..0] == [];
      }
      var space := data.Length - len;
      if space >= |buf| {
        n := |buf|;
      } else if space > 0 {
        n := space;
      } else {
        // more than the headers declared
        Grow(len + |buf|);
        n := |buf|;
      }
    }

    // decodeIncremental, as the build has it. The vector decoder depends on where the slice lies
    // in memory, which may be anywhere.
    method DecodeIncremental(slice: seq<byte>) returns (nSrc: nat, nOut: nat, next: State, end: End)
      requires Ready() && data != null && len + |slice| <= data.Length
      modifies data
      ensures nOut <= |slice| && data[..len] == old(data[..len])
      ensures Decodes(state, slice, nSrc, data[len..len + nOut], next, end)
      ensures end == EndNone ==> HoldsBackNewlines(state, slice, nSrc, next)
    {
      hide Decodes, G.ScansCr, CompactLut.IsCompactLut;
      if vector {
        var alignment: nat :| 1 <= alignment <= V.WIDTH;
        nSrc, nOut, next, end := V.DecodeSimd(data, len, lut, slice, state, alignment);
      } else {
        nSrc, nOut, next, end := G.DecodeGeneric(data, len, slice, state);
      }
    }

    // The decoder's output becomes part of the data.
    method Absorb(slice: seq<byte>) returns (nSrc: nat, end: End, ghost out: seq<byte>)
      requires Valid() && Accounted() && Ready() && data != null && len + |slice| <= data.Length && slice != []
      modifies `len, `state, `crc, `bytesProduced, data
      ensures Valid() && Accounted() && Contents() == old(Contents()) + out
      ensures Decodes(old(state), slice, nSrc, out, state, end)
      ensures end == EndNone ==> HoldsBackNewlines(old(state), slice, nSrc, state)
    {
      hide Decodes, HoldsBackNewlines, CompactLut.IsCompactLut, Crc.Update;
      ghost var before := Contents();
      var nOut;
      nSrc, nOut, state, end := DecodeIncremental(slice);
      out := data[len..len + nOut];
      assert data[..len + nOut] == before + out;
      Crc.UpdateConcat(0, before, out);
      if nOut > 0 {
        crc := Crc.UpdateCrc(crc, data[len..len + nOut]);
        bytesProduced := bytesProduced + nOut;
        len := len + nOut;
      }
    }

    // What the caller is told to give again.
    method GiveBack(nSrc: nat, end: End) returns (consumed: int)
      requires body
      modifies `state, `body
      ensures Report(consumed, state, body) == BackUp(nSrc, old(state), end)
    {
      consumed := nSrc;
      match end
      case EndNone =>
        if state == StateCRLFEQ {
          state := StateCRLF;
          consumed := consumed - 1;
        }
      case EndControl =>
        body := false;
        consumed := consumed - 2;
      case EndArticle =>
        body := false;
        consumed := consumed - 3;
    }

    // One call of the decoder, and what it reports.
    method DecodeSlice(slice: seq<byte>) returns (consumed: int, ghost out: seq<byte>)
      requires Valid() && Accounted() && Ready() && body && state != StateCRLFEQ
      requires data != null && len + |slice| <= data.Length && slice != []
      modifies `len, `state, `crc, `bytesProduced, `body, data
      ensures Valid() && Accounted() && Contents() == old(Contents()) + out
      ensures Fed(old(state), slice, out, Report(consumed, state, body))
      ensures body ==> 0 <= consumed <= |slice| && Leftover(slice[consumed..]) && |out| <= consumed
      ensures body ==> (consumed == 0 <==> IsStuck(old(state), slice))
      ensures body && consumed == 0 ==> state == StateCRLF
    {
      hide Decodes, IsStuck, HoldsBackNewlines, Leftover, Crc.Update, Fed;
      ghost var q := state;
      var nSrc, end;
      nSrc, end, out := Absorb(slice);
      BackUpKeepsFaith(q, slice, nSrc, out, state, end);
      if end == EndNone {
        ProgressUnlessStuck(q, slice, nSrc, out, state);
        BackUpLeaves(q, slice, nSrc, out, state);
      }
      consumed := GiveBack(nSrc, end);
    }

    /** decodeYenc. The slice is the part of buf that was decoded. */
    method DecodeYenc(pooled: array?<byte>, buf: seq<byte>)
      returns (consumed: int, ghost slice: seq<byte>, ghost out: seq<byte>)
      requires Valid() && Sized() && Accounted() && Ready() && body && state != StateCRLFEQ
      modifies this, data, pooled
      ensures Valid() && Sized() && Accounted() && Contents() == old(Contents()) + out
      ensures data == old(data) || data == pooled || fresh(data)
      ensures slice == buf[..old(Portion(pooled, |buf|))]
      ensures Fed(old(state), slice, out, Report(consumed, state, body))
      ensures buf != [] ==> data != null
      ensures data != null ==> old(len) + |slice| <= data.Length
      ensures slice != buf ==> data != null && old(len) + |slice| == data.Length
      ensures old(len) < old(Capacity(pooled)) ==> Capacity(pooled) == old(Capacity(pooled))
      ensures body ==> 0 <= consumed <= |slice| && Leftover(slice[consumed..]) && |out| <= consumed
      ensures slice != [] && body ==> (consumed == 0 <==> IsStuck(old(state), slice))
      ensures slice != [] && body && consumed == 0 ==> state == StateCRLF
    {
      hide IsStuck, Leftover, CompactLut.IsCompactLut, Crc.Update, Fed;
      slice, out := [], [];
      if |buf| == 0 {
        assert Contents() + [] == Contents();
        NothingFed(state);
        return 0, slice, out;
      }
      var n := EnsureData(pooled, buf);
      slice := buf[..n];
      consumed, out := DecodeSlice(buf[..n]);
    }
  }

  lemma NothingFed(q: State)
    requires q != StateCRLFEQ
    ensures Fed(q, [], [], Report(0, q, true)) && Leftover([])
  {
    assert Decode(q, []) == Live([], q);
  }
}
