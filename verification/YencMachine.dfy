/** The meaning of incremental yEnc decoding, one byte at a time.

    The seven states and the two ends are the decoder's own (decoder.go). A byte
    either moves the machine, emitting at most one decoded byte, or stops it. */
module YencMachine {
  import opened Bytes

  datatype State =
    | StateCRLF | StateEQ | StateCR | StateNone
    | StateCRLFDT | StateCRLFDTCR | StateCRLFEQ

  datatype End = EndNone | EndControl | EndArticle

  datatype Move =
    | Go(emit: seq<byte>, next: State)
    | Stop(end: End, next: State)

  /** A byte with nothing special before it. */
  function Plain(c: byte): Move {
    if c == CR then Go([], StateCR)
    else if c == LF then Go([], StateNone)
    else if c == EQUALS then Go([], StateEQ)
    else Go([c - SHIFT], StateNone)
  }

  /** A byte after the escape character: always emitted, but a CR still counts as one. */
  function Unescape(c: byte): Move {
    Go([c - ESCAPED_SHIFT], if c == CR then StateCR else StateNone)
  }

  function Step(q: State, c: byte): Move {
    match q
    case StateNone => Plain(c)
    case StateEQ => Unescape(c)
    case StateCR => if c == LF then Go([], StateCRLF) else Plain(c)
    case StateCRLF =>
      if c == DOT then Go([], StateCRLFDT)
      else if c == EQUALS then Go([], StateCRLFEQ)
      else Plain(c)
    case StateCRLFDT =>
      if c == CR then Go([], StateCRLFDTCR)
      else if c == EQUALS then Go([], StateCRLFEQ)
      else Plain(c)
    case StateCRLFDTCR => if c == LF then Stop(EndArticle, StateCRLF) else Plain(c)
    case StateCRLFEQ => if c == LETTER_Y then Stop(EndControl, StateNone) else Unescape(c)
  }

  datatype Trace =
    | Live(out: seq<byte>, state: State)
    | Halted(out: seq<byte>, state: State, end: End, used: nat)

  /** The trace one byte later, when c is the n-th byte read. */
  function Advance(t: Trace, c: byte, n: nat): Trace {
    match t
    case Halted(_, _, _, _) => t
    case Live(out, state) =>
      match Step(state, c)
      case Go(emit, next) => Live(out + emit, next)
      case Stop(end, next) => Halted(out, next, end, n)
  }

  /** The machine started in q, after the first n bytes of src. */
  function Run(q: State, src: seq<byte>, n: nat): Trace
    requires n <= |src|
  {
    if n == 0 then Live([], q) else Advance(Run(q, src, n - 1), src[n - 1], n)
  }

  /** The machine over the whole of src. */
  function Decode(q: State, src: seq<byte>): Trace {
    Run(q, src, |src|)
  }

  /** What a trace becomes when the machine had already emitted out over used bytes. */
  function After(out: seq<byte>, used: nat, t: Trace): Trace {
    match t
    case Live(o, state) => Live(out + o, state)
    case Halted(o, state, end, u) => Halted(out + o, state, end, used + u)
  }

  /** What every decoder promises for one call over src, entered in q. Either it met the
      machine's end at the machine's own position; or it emitted all the machine emits over
      src, and the bytes it left unconsumed move the state it returned, silently, to the
      state the machine is in. */
  ghost predicate Decodes(q: State, src: seq<byte>, nSrc: nat, out: seq<byte>, state: State, end: End) {
    && nSrc <= |src|
    && |out| <= nSrc
    && (if end == EndNone then
          && Decode(q, src).Live?
          && Decode(q, src).out == out
          && Decode(state, src[nSrc..]) == Live([], Decode(q, src).state)
        else
          Decode(q, src) == Halted(out, state, end, nSrc))
  }

  // ----- how runs compose

  lemma RunEmpty(q: State, src: seq<byte>)
    ensures Run(q, src, 0) == Live([], q)
  {
  }

  lemma RunNext(q: State, src: seq<byte>, n: nat, out: seq<byte>, state: State)
    requires n < |src| && Run(q, src, n) == Live(out, state)
    ensures Run(q, src, n + 1) == Advance(Live(out, state), src[n], n + 1)
  {
  }

  lemma {:induction false} RunPrefix(q: State, a: seq<byte>, b: seq<byte>, n: nat)
    requires n <= |a|
    ensures Run(q, a + b, n) == Run(q, a, n)
  {
    if n > 0 {
      RunPrefix(q, a, b, n - 1);
      assert (a + b)[n - 1] == a[n - 1];
    }
  }

  lemma AdvanceAfter(out: seq<byte>, used: nat, t: Trace, c: byte, n: nat)
    ensures Advance(After(out, used, t), c, used + n) == After(out, used, Advance(t, c, n))
  {
    if t.Live? && Step(t.state, c).Go? {
      assert (out + t.out) + Step(t.state, c).emit == out + (t.out + Step(t.state, c).emit);
    }
  }

  lemma AfterAfter(o1: seq<byte>, n1: nat, o2: seq<byte>, n2: nat, t: Trace)
    ensures After(o1, n1, After(o2, n2, t)) == After(o1 + o2, n1 + n2, t)
  {
    assert o1 + (o2 + t.out) == (o1 + o2) + t.out;
  }

  lemma {:induction false} RunConcat(q: State, a: seq<byte>, b: seq<byte>, k: nat)
    requires k <= |b|
    ensures match Decode(q, a)
      case Live(out, state) => Run(q, a + b, |a| + k) == After(out, |a|, Run(state, b, k))
      case Halted(_, _, _, _) => Run(q, a + b, |a| + k) == Decode(q, a)
  {
    RunPrefix(q, a, b, |a|);
    if k > 0 {
      RunConcat(q, a, b, k - 1);
      assert (a + b)[|a| + k - 1] == b[k - 1];
      if Decode(q, a).Live? {
        AdvanceAfter(Decode(q, a).out, |a|, Run(Decode(q, a).state, b, k - 1), b[k - 1], k);
      }
    }
  }

  lemma DecodeConcat(q: State, a: seq<byte>, b: seq<byte>)
    ensures match Decode(q, a)
      case Live(out, state) => Decode(q, a + b) == After(out, |a|, Decode(state, b))
      case Halted(_, _, _, _) => Decode(q, a + b) == Decode(q, a)
  {
    RunConcat(q, a, b, |b|);
  }

  lemma {:induction false} RunHalted(q: State, src: seq<byte>, n: nat, m: nat)
    requires n <= m <= |src|
    requires Run(q, src, n).Halted?
    ensures Run(q, src, m) == Run(q, src, n)
  {
    if n < m {
      RunHalted(q, src, n, m - 1);
    }
  }

  lemma {:induction false} OutNoLongerThanUsed(q: State, src: seq<byte>, n: nat)
    requires n <= |src|
    ensures |Run(q, src, n).out| <= n
    ensures Run(q, src, n).Halted? ==> |Run(q, src, n).out| < Run(q, src, n).used <= n
  {
    if n > 0 {
      OutNoLongerThanUsed(q, src, n - 1);
    }
  }

  /** One call's promise is enough to resume: whatever follows src, decoding it all at once is
      what the call delivered followed by decoding the unconsumed bytes and the rest. */
  lemma Resume(q: State, src: seq<byte>, nSrc: nat, out: seq<byte>, state: State, end: End, rest: seq<byte>)
    requires Decodes(q, src, nSrc, out, state, end)
    ensures end == EndNone ==>
      Decode(q, src + rest) == After(out, nSrc, Decode(state, src[nSrc..] + rest))
    ensures end != EndNone ==>
      Decode(q, src + rest) == Halted(out, state, end, nSrc)
  {
    DecodeConcat(q, src, rest);
    if end == EndNone {
      DecodeConcat(state, src[nSrc..], rest);
      assert out + [] == out;
      assert [] + Decode(Decode(q, src).state, rest).out == Decode(Decode(q, src).state, rest).out;
    }
  }

  /** Two decoders that keep the promise deliver the same bytes and the same end; at an end they
      agree on everything, and otherwise whatever follows decodes alike from where each stopped. */
  lemma DecodersAgree(q: State, src: seq<byte>, n1: nat, out1: seq<byte>, s1: State, e1: End,
      n2: nat, out2: seq<byte>, s2: State, e2: End, rest: seq<byte>)
    requires Decodes(q, src, n1, out1, s1, e1) && Decodes(q, src, n2, out2, s2, e2)
    ensures out1 == out2 && e1 == e2
    ensures e1 != EndNone ==> n1 == n2 && s1 == s2
    ensures e1 == EndNone ==> After(out1, n1, Decode(s1, src[n1..] + rest)) == After(out2, n2, Decode(s2, src[n2..] + rest))
  {
    Resume(q, src, n1, out1, s1, e1, rest);
    Resume(q, src, n2, out2, s2, e2, rest);
  }
}
