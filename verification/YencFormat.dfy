/** What a yEnc body means, byte position by byte position and in plain numbers: which bytes are
    escaped, which are dropped, where the body ends. Nothing here refers to a decoder's states; the
    machine is proved to compute it. */
module YencFormat {
  import opened Bytes
  import opened YencMachine

  // ----- the meaning of a position

  /** At the start of the body, or right after 13 10. */
  predicate LineStart(s: seq<byte>, i: nat)
    requires i <= |s|
  {
    i == 0 || (2 <= i && s[i - 2] == 13 && s[i - 1] == 10)
  }

  /** A 46 that starts a line: it is dropped. */
  predicate Stuffed(s: seq<byte>, i: nat)
    requires i <= |s|
  {
    i < |s| && s[i] == 46 && LineStart(s, i)
  }

  /** At a line's start, a dropped 46 not counted. */
  predicate ContentStart(s: seq<byte>, i: nat)
    requires i <= |s|
  {
    LineStart(s, i) || (0 < i && Stuffed(s, i - 1))
  }

  /** After a 61 that is not itself after such a 61. */
  predicate Escaped(s: seq<byte>, i: nat)
    requires i <= |s|
  {
    0 < i && s[i - 1] == 61 && !Escaped(s, i - 1)
  }

  /** 61 121 at a line's start ends the body with its n-th byte. */
  predicate ControlEnds(s: seq<byte>, n: nat)
    requires n <= |s|
  {
    2 <= n && s[n - 2] == 61 && s[n - 1] == 121 && ContentStart(s, n - 2)
  }

  /** And so does a line that is 46 and nothing else. */
  predicate ArticleEnds(s: seq<byte>, n: nat)
    requires n <= |s|
  {
    3 <= n && s[n - 3] == 46 && s[n - 2] == 13 && s[n - 1] == 10 && LineStart(s, n - 3)
  }

  predicate Ends(s: seq<byte>, n: nat)
    requires n <= |s|
  {
    ControlEnds(s, n) || ArticleEnds(s, n)
  }

  /** No end up to and with the n-th byte. */
  predicate Goes(s: seq<byte>, n: nat)
    requires n <= |s|
  {
    forall k :: 0 <= k <= n ==> !Ends(s, k)
  }

  /** What a byte stands for, in arithmetic modulo 256. */
  function Meaning(s: seq<byte>, i: nat): seq<byte>
    requires i < |s|
  {
    if Escaped(s, i) then [s[i] - 106]
    else if s[i] == 13 || s[i] == 10 || s[i] == 61 || Stuffed(s, i) then []
    else [s[i] - 42]
  }

  function Meanings(s: seq<byte>, n: nat): seq<byte>
    requires n <= |s|
  {
    if n == 0 then [] else Meanings(s, n - 1) + Meaning(s, n - 1)
  }

  // ----- the machine computes it

  // The state after n bytes, if there was no end.
  function StateAfter(s: seq<byte>, n: nat): State
    requires n <= |s|
  {
    if Escaped(s, n) then if ContentStart(s, n - 1) then StateCRLFEQ else StateEQ
    else if LineStart(s, n) then StateCRLF
    else if 0 < n && Stuffed(s, n - 1) then StateCRLFDT
    else if 2 <= n && s[n - 1] == 13 && Stuffed(s, n - 2) then StateCRLFDTCR
    else if 0 < n && s[n - 1] == 13 then StateCR
    else StateNone
  }

  // A byte at a line's start is not escaped.
  lemma StartNotEscaped(s: seq<byte>, i: nat)
    requires i <= |s| && ContentStart(s, i)
    ensures !Escaped(s, i)
  {
  }

  // What one step does, where there has been no end.
  predicate Steps(s: seq<byte>, n: nat)
    requires n < |s|
  {
    var move := Step(StateAfter(s, n), s[n]);
    if ControlEnds(s, n + 1) then move == Stop(EndControl, StateNone)
    else if ArticleEnds(s, n + 1) then move == Stop(EndArticle, StateCRLF)
    else move == Go(Meaning(s, n), StateAfter(s, n + 1))
  }

  lemma EscapedSteps(s: seq<byte>, n: nat)
    requires n < |s| && Escaped(s, n)
    ensures Steps(s, n)
  {
    if ContentStart(s, n - 1) {
      StartNotEscaped(s, n - 1);
    }
  }

  lemma StartSteps(s: seq<byte>, n: nat)
    requires n < |s| && !Ends(s, n) && !Escaped(s, n) && ContentStart(s, n)
    ensures Steps(s, n)
  {
  }

  lemma OtherSteps(s: seq<byte>, n: nat)
    requires n < |s| && !Ends(s, n) && !Escaped(s, n) && !ContentStart(s, n)
    ensures Steps(s, n)
  {
  }

  lemma StepMeans(s: seq<byte>, n: nat)
    requires n < |s| && !Ends(s, n)
    ensures Steps(s, n)
  {
    hide Steps;
    if Escaped(s, n) {
      EscapedSteps(s, n);
    } else if ContentStart(s, n) {
      StartSteps(s, n);
    } else {
      OtherSteps(s, n);
    }
  }

  /** Without an end, the machine emits what the bytes stand for. */
  lemma {:induction false} MachineMeans(s: seq<byte>, n: nat)
    requires n <= |s| && Goes(s, n)
    ensures Run(StateCRLF, s, n) == Live(Meanings(s, n), StateAfter(s, n))
  {
    hide Meaning, StateAfter, Step, Ends;
    if n == 0 {
      StartMeans(s);
    } else {
      MachineMeans(s, n - 1);
      NotYet(s, n);
      StepMeans(s, n - 1);
    }
  }

  lemma StartMeans(s: seq<byte>)
    ensures StateAfter(s, 0) == StateCRLF
  {
  }

  lemma NotYet(s: seq<byte>, n: nat)
    requires n <= |s| && !Ends(s, n)
    ensures !ControlEnds(s, n) && !ArticleEnds(s, n)
  {
  }

  /** It decodes a body to what its bytes stand for, up to the first end and no further: it goes on
      exactly while there is none, and stops right after the first. */
  lemma DecodeMeans(s: seq<byte>)
    ensures Decode(StateCRLF, s).Live? <==> Goes(s, |s|)
    ensures Decode(StateCRLF, s).Live? ==> Decode(StateCRLF, s).out == Meanings(s, |s|)
    ensures Decode(StateCRLF, s).Halted? ==>
      var t := Decode(StateCRLF, s);
      && 0 < t.used <= |s|
      && Goes(s, t.used - 1) && t.out == Meanings(s, t.used - 1)
      && (t.end == EndControl <==> ControlEnds(s, t.used))
      && (t.end == EndArticle <==> ArticleEnds(s, t.used))
      && t.end != EndNone
  {
    hide Run, Ends, Meanings;
    if Goes(s, |s|) {
      MachineMeans(s, |s|);
    } else {
      var n := FirstEnd(s, |s|);
      EndMeans(s, n);
      RunHalted(StateCRLF, s, n, |s|);
    }
  }

  lemma {:induction false} FirstEnd(s: seq<byte>, n: nat) returns (first: nat)
    requires n <= |s| && !Goes(s, n)
    ensures 0 < first <= n && Ends(s, first) && Goes(s, first - 1)
  {
    NoneAtStart(s);
    first := n;
    if !Goes(s, n - 1) {
      first := FirstEnd(s, n - 1);
    }
  }

  lemma NoneAtStart(s: seq<byte>)
    ensures Goes(s, 0)
  {
  }

  lemma EndMeans(s: seq<byte>, n: nat)
    requires 0 < n <= |s| && Ends(s, n) && Goes(s, n - 1)
    ensures Run(StateCRLF, s, n) == if ControlEnds(s, n) then Halted(Meanings(s, n - 1), StateNone, EndControl, n)
      else Halted(Meanings(s, n - 1), StateCRLF, EndArticle, n)
    ensures ControlEnds(s, n) <==> !ArticleEnds(s, n)
  {
    hide Meanings, Goes, StateAfter, Step;
    MachineMeans(s, n - 1);
    StepMeans(s, n - 1);
  }

  // ----- every state is one of a body that has begun

  /** Bytes that mean nothing and lead to a state. */
  function Entry(q: State): seq<byte> {
    match q
    case StateCRLF => []
    case StateEQ => [10, 61]
    case StateCR => [13]
    case StateNone => [10]
    case StateCRLFDT => [46]
    case StateCRLFDTCR => [46, 13]
    case StateCRLFEQ => [61]
  }

  /** So what is decoded from any state is part of what is decoded from the start. */
  lemma EnteredMeans(q: State, s: seq<byte>)
    ensures Decode(StateCRLF, Entry(q) + s) == After([], |Entry(q)|, Decode(q, s))
  {
    EntryLeads(q);
    DecodeConcat(StateCRLF, Entry(q), s);
  }

  lemma EntryLeads(q: State)
    ensures Decode(StateCRLF, Entry(q)) == Live([], q)
  {
    var e := Entry(q);
    RunEmpty(StateCRLF, e);
    if |e| > 0 {
      RunNext(StateCRLF, e, 0, [], StateCRLF);
    }
    if |e| > 1 {
      RunNext(StateCRLF, e, 1, [], Run(StateCRLF, e, 1).state);
    }
  }
}
