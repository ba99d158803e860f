/** decodeSIMD: the driver around the 64-byte kernel. */
module SimdDecoder {
  import opened Bytes
  import opened YencMachine
  import opened MachineWindows
  import opened Avx2Decoder
  import CompactLut
  import GenericDecoder

  const WIDTH := 64

  // ----- composing calls

  /** What the decoder has done once it has consumed n bytes and emitted out, wherever it resumes
      from state q1: the rest decodes as the machine decodes it. */
  ghost predicate Upto(q: State, src: seq<byte>, n: nat, out: seq<byte>, q1: State) {
    && n <= |src| && |out| <= n
    && Decode(q, src) == After(out, n, Decode(q1, src[n..]))
  }

  lemma UptoStart(q: State, src: seq<byte>)
    ensures Upto(q, src, 0, [], q)
  {
    assert src[0..] == src;
    assert [] + Decode(q, src).out == Decode(q, src).out;
  }

  lemma UptoThen(q: State, src: seq<byte>, n: nat, out: seq<byte>, q1: State, m: nat, more: seq<byte>, q2: State)
    requires Upto(q, src, n, out, q1) && Upto(q1, src[n..], m, more, q2)
    ensures Upto(q, src, n + m, out + more, q2)
  {
    AfterAfter(out, n, more, m, Decode(q2, src[n..][m..]));
    assert src[n..][m..] == src[n + m..];
  }

  /** A call that ends, or decodes all that is left, settles the whole. */
  lemma UptoFinish(q: State, src: seq<byte>, n: nat, out: seq<byte>, q1: State,
      m: nat, more: seq<byte>, state: State, end: End)
    requires Upto(q, src, n, out, q1) && Decodes(q1, src[n..], m, more, state, end)
    ensures Decodes(q, src, n + m, out + more, state, end)
  {
    assert src[n..][m..] == src[n + m..];
  }

  /** A call over a prefix that does not end leaves the decoder at its own cursor. */
  lemma PrefixUpto(q: State, src: seq<byte>, a: nat, n: nat, out: seq<byte>, state: State)
    requires a <= |src| && Decodes(q, src[..a], n, out, state, EndNone)
    ensures Upto(q, src, n, out, state)
  {
    assert src == src[..a] + src[a..];
    Resume(q, src[..a], n, out, state, EndNone, src[a..]);
    assert src[..a][n..] + src[a..] == src[n..];
  }

  lemma PrefixEnds(q: State, src: seq<byte>, a: nat, n: nat, out: seq<byte>, state: State, end: End)
    requires a <= |src| && end != EndNone && Decodes(q, src[..a], n, out, state, end)
    ensures Decodes(q, src, n, out, state, end)
  {
    assert src == src[..a] + src[a..];
    Resume(q, src[..a], n, out, state, end, src[a..]);
  }

  // ----- entering and leaving the kernel

  // bytes.HasPrefix(src[i:], {a, b})
  predicate HasPair(src: seq<byte>, i: nat, a: byte, b: byte) {
    i + 2 <= |src| && src[i] == a && src[i + 1] == b
  }

  lemma DotThenEnd(entry: State, src: seq<byte>, i: nat)
    requires i + 2 <= |src| && Run(entry, src, i) == Live([], StateCRLFDT)
    ensures HasPair(src, i, CR, LF) ==> Decodes(entry, src, i + 2, [], StateCRLF, EndArticle)
    ensures HasPair(src, i, EQUALS, LETTER_Y) ==> Decodes(entry, src, i + 2, [], StateNone, EndControl)
  {
    if HasPair(src, i, CR, LF) {
      assert Run(entry, src, i + 1) == Live([], StateCRLFDTCR);
      RunHalted(entry, src, i + 2, |src|);
    } else if HasPair(src, i, EQUALS, LETTER_Y) {
      assert Run(entry, src, i + 1) == Live([], StateCRLFEQ);
      RunHalted(entry, src, i + 2, |src|);
    }
  }

  lemma NewlineThenControl(entry: State, src: seq<byte>, i: nat)
    requires i + 2 <= |src| && Run(entry, src, i) == Live([], StateCRLF)
    requires HasPair(src, i, EQUALS, LETTER_Y)
    ensures Decodes(entry, src, i + 2, [], StateNone, EndControl)
  {
    assert Run(entry, src, i + 1) == Live([], StateCRLFEQ);
    RunHalted(entry, src, i + 2, |src|);
  }

  lemma OneByteEnds(entry: State, src: seq<byte>)
    requires 1 <= |src| && Step(entry, src[0]).Stop? && Step(entry, src[0]).end != EndNone
    ensures Decodes(entry, src, 1, [], Step(entry, src[0]).next, Step(entry, src[0]).end)
  {
    assert Run(entry, src, 1) == Advance(Run(entry, src, 0), src[0], 1);
    RunHalted(entry, src, 1, |src|);
  }

  /** The driver's own look for a terminator, or a dot to drop, that began before src. */
  method EntryChecks(src: seq<byte>, entry: State)
    returns (ended: bool, nSrc: nat, state: State, end: End, nextMask: nat)
    requires 4 <= |src|
    ensures ended ==> end != EndNone && Decodes(entry, src, nSrc, [], state, end)
    ensures !ended ==> state == entry && !Pending(entry, src, 0) && nextMask <= 2
    ensures !ended ==> CarriedIn(entry, src, 0, MinMaskOf(nextMask), Escaping(entry))
  {
    hide Decodes, Run;
    ended, nSrc, state, end, nextMask := false, 0, entry, EndNone, 0;
    RunEmpty(entry, src);
    RunNext(entry, src, 0, [], entry);
    match entry {
      case StateCRLF =>
        if src[0] == DOT {
          nextMask := 1;
          DotThenEnd(entry, src, 1);
          if HasPair(src, 1, CR, LF) {
            return true, 3, StateCRLF, EndArticle, nextMask;
          }
          if HasPair(src, 1, EQUALS, LETTER_Y) {
            return true, 3, StateNone, EndControl, nextMask;
          }
        } else if HasPair(src, 0, EQUALS, LETTER_Y) {
          NewlineThenControl(entry, src, 0);
          return true, 2, StateNone, EndControl, nextMask;
        }
      case StateCR =>
        if HasPair(src, 0, LF, DOT) {
          nextMask := 2;
          RunNext(entry, src, 1, [], StateCRLF);
          DotThenEnd(entry, src, 2);
          if HasPair(src, 2, CR, LF) {
            return true, 4, StateCRLF, EndArticle, nextMask;
          }
          if HasPair(src, 2, EQUALS, LETTER_Y) {
            return true, 4, StateNone, EndControl, nextMask;
          }
        } else if src[0] == LF && HasPair(src, 1, EQUALS, LETTER_Y) {
          NewlineThenControl(entry, src, 1);
          return true, 3, StateNone, EndControl, nextMask;
        }
      case StateCRLFDT =>
        DotThenEnd(entry, src, 0);
        if HasPair(src, 0, CR, LF) {
          return true, 2, StateCRLF, EndArticle, nextMask;
        }
        if HasPair(src, 0, EQUALS, LETTER_Y) {
          return true, 2, StateNone, EndControl, nextMask;
        }
      case StateCRLFDTCR =>
        if src[0] == LF {
          OneByteEnds(entry, src);
          return true, 1, StateCRLF, EndArticle, nextMask;
        }
      case StateCRLFEQ =>
        if src[0] == LETTER_Y {
          OneByteEnds(entry, src);
          return true, 1, StateNone, EndControl, nextMask;
        }
      case _ =>
    }
  }

  /** The state the scalar decoder is resumed in after the kernel. */
  function ResumeState(escFirst: bv64, nextMask: nat): State {
    if escFirst > 0 then StateEQ
    else if nextMask == 1 then StateCRLF
    else if nextMask == 2 then StateCR
    else StateNone
  }

  lemma {:induction false} SameFrom(q: State, k: State, src: seq<byte>, n: nat, m: nat)
    requires n <= m <= |src| && Run(q, src, n) == Run(k, src, n)
    ensures Run(q, src, m) == Run(k, src, m)
  {
    if n < m {
      SameFrom(q, k, src, n, m - 1);
    }
  }

  /** That state forgets what the kernel did not keep, but on these bytes it cannot matter. */
  lemma Handover(q: State, src: seq<byte>, escFirst: bv64, nextMask: nat)
    requires 4 <= |src| && !Pending(q, src, 0) && nextMask <= 2
    requires escFirst == 0 || escFirst == 1
    requires CarriedIn(q, src, 0, MinMaskOf(nextMask), escFirst == 1)
    ensures Decode(ResumeState(escFirst, nextMask), src) == Decode(q, src)
  {
    var k := ResumeState(escFirst, nextMask);
    var n := if q == StateCR then 3 else 2;
    RunEmpty(q, src);
    RunEmpty(k, src);
    RunNext(q, src, 0, [], q);
    RunNext(k, src, 0, [], k);
    assert Run(q, src, n) == Run(k, src, n);
    SameFrom(q, k, src, n, |src|);
  }

  lemma ShiftedView(src: seq<byte>, c: nat, q: State, min: MinMask, carry: bool)
    requires c + 4 <= |src|
    ensures Pending(q, src[c..], 0) == Pending(q, src, c)
    ensures CarriedIn(q, src[c..], 0, min, carry) == CarriedIn(q, src, c, min, carry)
  {
  }

  /** Leaving the kernel: the scalar decoder takes over in step with the machine. */
  lemma KernelUpto(entry: State, src: seq<byte>, c: nat, out: seq<byte>, escFirst: bv64, nextMask: nat)
    requires c + 4 <= |src| && nextMask <= 2
    requires InStep(entry, src, c, out, escFirst, MinMaskOf(nextMask))
    ensures Upto(entry, src, c, out, ResumeState(escFirst, nextMask))
  {
    var q := Run(entry, src, c).state;
    assert src == src[..c] + src[c..];
    RunPrefix(entry, src[..c], src[c..], c);
    DecodeConcat(entry, src[..c], src[c..]);
    OutNoLongerThanUsed(entry, src, c);
    ShiftedView(src, c, q, MinMaskOf(nextMask), escFirst == 1);
    Handover(q, src[c..], escFirst, nextMask);
  }

  lemma StartsInStep(entry: State, src: seq<byte>, nextMask: nat)
    requires 4 <= |src| && nextMask <= 2 && !Pending(entry, src, 0)
    requires CarriedIn(entry, src, 0, MinMaskOf(nextMask), Escaping(entry))
    ensures InStep(entry, src, 0, [], if Escaping(entry) then 1 else 0, MinMaskOf(nextMask))
  {
  }

  /** The driver's middle part: terminator checks, then the kernel. */
  method DecodeAligned(dest: array<byte>, base: nat, lut: array2<byte>, src: seq<byte>, entry: State)
    returns (ended: bool, nSrc: nat, nOut: nat, state: State, end: End)
    requires 4 <= |src| && base + |src| <= dest.Length
    requires CompactLut.IsCompactLut(lut)
    modifies dest
    ensures nOut <= nSrc <= |src|
    ensures ended ==> end != EndNone && Decodes(entry, src, nSrc, dest[base..base + nOut], state, end)
    ensures !ended ==> nSrc + 4 <= |src| && Upto(entry, src, nSrc, dest[base..base + nOut], state)
    ensures forall k :: 0 <= k < dest.Length && !(base <= k < base + nSrc) ==> dest[k] == old(dest[k])
  {
    hide CompactLut.IsCompactLut, InStep, CarriedIn, Pending, Run;
    var nextMask;
    ended, nSrc, state, end, nextMask := EntryChecks(src, entry);
    nOut := 0;
    assert dest[base..base] == [];
    if ended {
      return;
    }
    var escFirst: bv64 := 0;
    if state == StateEQ || state == StateCRLFEQ {
      escFirst := 1;
    }
    StartsInStep(entry, src, nextMask);
    nSrc, nOut, escFirst, nextMask := DecodeBlocks(dest, base, lut, src, escFirst, nextMask, entry);
    KernelUpto(entry, src, nSrc, dest[base..base + nOut], escFirst, nextMask);
    state := ResumeState(escFirst, nextMask);
  }

  /** The bytes before the first aligned one go through the scalar decoder. */
  method DecodeToAlignment(dest: array<byte>, base: nat, src: seq<byte>, entry: State, alignment: nat)
    returns (nSrc: nat, nOut: nat, state: State, end: End)
    requires alignment <= |src| && base + |src| <= dest.Length
    modifies dest
    ensures nOut <= nSrc <= alignment <= nSrc + 2 || end != EndNone
    ensures nOut <= nSrc <= |src|
    ensures end != EndNone ==> Decodes(entry, src, nSrc, dest[base..base + nOut], state, end)
    ensures end == EndNone ==> Upto(entry, src, nSrc, dest[base..base + nOut], state)
    ensures forall k :: 0 <= k < dest.Length && !(base <= k < base + |src|) ==> dest[k] == old(dest[k])
  {
    nSrc, nOut, state, end := GenericDecoder.DecodeGeneric(dest, base, src[..alignment], entry);
    if end == EndNone {
      PrefixUpto(entry, src, alignment, nSrc, dest[base..base + nOut], state);
    } else {
      PrefixEnds(entry, src, alignment, nSrc, dest[base..base + nOut], state, end);
    }
  }

  /** The kernel's part of a call that has come to cursor from. */
  method DecodeMiddle(dest: array<byte>, base: nat, lut: array2<byte>, src: seq<byte>, ghost entry: State,
      from: nat, produced: nat, resume: State)
    returns (ended: bool, nSrc: nat, nOut: nat, state: State, end: End)
    requires produced <= from && from + 4 <= |src| && base + |src| <= dest.Length
    requires CompactLut.IsCompactLut(lut)
    requires Upto(entry, src, from, dest[base..base + produced], resume)
    modifies dest
    ensures from <= nSrc <= |src| && nOut <= nSrc
    ensures ended ==> end != EndNone && Decodes(entry, src, nSrc, dest[base..base + nOut], state, end)
    ensures !ended ==> nSrc + 4 <= |src| && Upto(entry, src, nSrc, dest[base..base + nOut], state)
    ensures forall k :: 0 <= k < dest.Length && !(base <= k < base + |src|) ==> dest[k] == old(dest[k])
  {
    hide Decodes, Upto, CompactLut.IsCompactLut;
    ghost var out := dest[base..base + produced];
    var c, p;
    ended, c, p, state, end := DecodeAligned(dest, base + produced, lut, src[from..], resume);
    nSrc, nOut := from + c, produced + p;
    assert dest[base..base + produced] == out;
    Joined(dest, base, produced, p);
    if ended {
      UptoFinish(entry, src, from, out, resume, c, dest[base + produced..base + nOut], state, end);
    } else {
      UptoThen(entry, src, from, out, resume, c, dest[base + produced..base + nOut], state);
    }
  }

  /** The scalar loop over what is left. */
  method DecodeRest(dest: array<byte>, base: nat, src: seq<byte>, ghost entry: State,
      from: nat, produced: nat, resume: State)
    returns (nSrc: nat, nOut: nat, state: State, end: End)
    requires produced <= from <= |src| && base + |src| <= dest.Length
    requires Upto(entry, src, from, dest[base..base + produced], resume)
    modifies dest
    ensures nOut <= |src|
    ensures Decodes(entry, src, nSrc, dest[base..base + nOut], state, end)
    ensures end == EndNone && nSrc < |src| ==> src[nSrc..] == NEWLINE && state == StateCRLF
    ensures forall k :: 0 <= k < dest.Length && !(base <= k < base + |src|) ==> dest[k] == old(dest[k])
  {
    hide Decodes, Upto;
    ghost var out := dest[base..base + produced];
    var c, p;
    c, p, state, end := GenericDecoder.DecodeGeneric(dest, base + produced, src[from..], resume);
    assert dest[base..base + produced] == out;
    Joined(dest, base, produced, p);
    UptoFinish(entry, src, from, out, resume, c, dest[base + produced..base + produced + p], state, end);
    nSrc, nOut := from + c, produced + p;
    assert c <= |src[from..]| ==> src[nSrc..] == src[from..][c..];
  }

  /** decodeSIMD. alignment is the distance from src to the next multiple of 64 in memory, 64
      itself when src starts on one. Whatever it is, the call promises what decodeGeneric's does. */
  method DecodeSimd(dest: array<byte>, base: nat, lut: array2<byte>, src: seq<byte>, entry: State, alignment: nat)
    returns (nSrc: nat, nOut: nat, state: State, end: End)
    requires base + |src| <= dest.Length && 1 <= alignment <= WIDTH
    requires CompactLut.IsCompactLut(lut)
    modifies dest
    ensures nOut <= |src|
    ensures Decodes(entry, src, nSrc, dest[base..base + nOut], state, end)
    ensures end == EndNone && nSrc < |src| ==> src[nSrc..] == NEWLINE && state == StateCRLF
    ensures |src| == 2 && src[0] == CR && src[1] == LF && GenericDecoder.ScansCr(entry) ==> nSrc == 0
    ensures forall k :: 0 <= k < dest.Length && !(base <= k < base + |src|) ==> dest[k] == old(dest[k])
  {
    hide Decodes, Upto, CompactLut.IsCompactLut;
    var length := |src|;
    if length <= WIDTH * 2 {
      nSrc, nOut, state, end := GenericDecoder.DecodeGeneric(dest, base, src, entry);
      return;
    }
    nSrc, nOut, state, end := 0, 0, entry, EndNone;
    UptoStart(entry, src);
    assert dest[base..base] == [];
    if alignment != WIDTH {
      length := length - alignment;
      nSrc, nOut, state, end := DecodeToAlignment(dest, base, src, entry, alignment);
      if end != EndNone {
        return;
      }
    }
    if length > WIDTH - 1 + 3 + 1 {
      var from, ended := nSrc, false;
      ended, nSrc, nOut, state, end := DecodeMiddle(dest, base, lut, src, entry, nSrc, nOut, state);
      if ended {
        return;
      }
      length := length - (nSrc - from);
    }
    // never false: the kernel leaves at least four bytes, the prefix at most two
    if length > 0 {
      nSrc, nOut, state, end := DecodeRest(dest, base, src, entry, nSrc, nOut, state);
    } else {
      assert false;
    }
  }
}
