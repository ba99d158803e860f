/** What a block decoder can tell about the machine by looking at a few bytes around a position,
    without having run it. */
module MachineWindows {
  import opened Bytes
  import opened YencMachine

  predicate Escaping(q: State) { q == StateEQ || q == StateCRLFEQ }

  // ----- terminators, by lookahead

  predicate EndAfterDot(src: seq<byte>, i: nat)
    requires i + 2 <= |src|
  {
    (src[i] == CR && src[i + 1] == LF) || (src[i] == EQUALS && src[i + 1] == LETTER_Y)
  }

  predicate EndAfterNewline(src: seq<byte>, i: nat)
    requires i + 3 <= |src|
  {
    (src[i] == EQUALS && src[i + 1] == LETTER_Y) || (src[i] == DOT && EndAfterDot(src, i + 1))
  }

  /** One of CR LF `.` CR LF, CR LF `=y` and CR LF `.=y` starts at i. */
  predicate EndsAt(src: seq<byte>, i: nat)
    requires i + 5 <= |src|
  {
    src[i] == CR && src[i + 1] == LF && EndAfterNewline(src, i + 2)
  }

  /** The bytes from i on complete a terminator whose CR is already behind the machine. */
  predicate Pending(q: State, src: seq<byte>, i: nat)
    requires i + 4 <= |src|
  {
    match q
    case StateCR => src[i] == LF && EndAfterNewline(src, i + 1)
    case StateCRLF => EndAfterNewline(src, i)
    case StateCRLFDT => EndAfterDot(src, i)
    case StateCRLFDTCR => src[i] == LF
    case StateCRLFEQ => src[i] == LETTER_Y
    case _ => false
  }

  /** With no terminator pending and none starting here, the machine moves on and still has
      none pending. */
  lemma NoEndYet(q: State, src: seq<byte>, i: nat)
    requires i + 5 <= |src| && !Pending(q, src, i) && !EndsAt(src, i)
    ensures Step(q, src[i]).Go? && !Pending(Step(q, src[i]).next, src, i + 1)
  {
  }

  // ----- what a step emits and where it leads, coarsely

  function Emitted(escaped: bool, stuffed: bool, c: byte): seq<byte> {
    if escaped then [c - ESCAPED_SHIFT]
    else if stuffed || c == CR || c == LF || c == EQUALS then []
    else [c - SHIFT]
  }

  lemma StepSeen(q: State, c: byte)
    requires Step(q, c).Go?
    ensures Step(q, c).emit == Emitted(Escaping(q), q == StateCRLF && c == DOT, c)
    ensures var next := Step(q, c).next;
      && (Escaping(next) <==> !Escaping(q) && c == EQUALS)
      && (next == StateCRLF <==> q == StateCR && c == LF)
      && (next == StateCR ==> c == CR)
      && (c == CR ==> next == StateCR || next == StateCRLFDTCR)
  {
  }

  // A dot the machine drops because it starts a line.
  predicate StuffedDot(q: State, src: seq<byte>, i: nat)
    requires i < |src|
  {
    q == StateCRLF && src[i] == DOT
  }

  // A CR LF `.` starts at i.
  predicate NewlineDot(src: seq<byte>, i: nat)
    requires i + 3 <= |src|
  {
    src[i] == CR && src[i + 1] == LF && src[i + 2] == DOT
  }

  /** What the bytes just before i say about the state there. */
  ghost predicate Seen(q: State, src: seq<byte>, at: nat, i: nat)
    requires at <= i <= |src|
  {
    && (at + 1 <= i && q == StateCR ==> src[i - 1] == CR)
    && (at + 1 <= i && src[i - 1] == CR ==> q == StateCR || q == StateCRLFDTCR)
    && (at + 2 <= i ==> (q == StateCRLF <==> src[i - 2] == CR && src[i - 1] == LF))
  }

  lemma SeenNext(q: State, src: seq<byte>, at: nat, i: nat)
    requires at <= i < |src| && Seen(q, src, at, i) && Step(q, src[i]).Go?
    ensures Seen(Step(q, src[i]).next, src, at, i + 1)
  {
    StepSeen(q, src[i]);
  }
}
