/** Where the AVX2 encoding kernel stops. It takes 64 bytes at a time, from a line's start or from
    the last batch's end; the columns of the eager encoder tell where lines end. */
module Avx2Cursor {
  import opened Bytes
  import opened ColumnEncoder

  const CHUNK := 64

  // The column before byte n.
  function ColumnAt(lineSize: nat, start: nat, src: seq<byte>, n: nat): nat
    requires n <= |src|
  {
    EncodeEagerly(lineSize, start, src, n).col
  }

  /** How far into the batch at `at` its line's last byte is, from k on; CHUNK + 1 if it is not
      within reach. It is, just past the batch, if all of the batch fits before the last column. */
  function LineEnd(lineSize: nat, start: nat, src: seq<byte>, at: nat, k: nat): (r: nat)
    requires at + CHUNK < |src| && k <= CHUNK && 1 <= lineSize
    ensures k <= r <= CHUNK + 1
    decreases CHUNK - k
  {
    if k == CHUNK then if ColumnAt(lineSize, start, src, at + CHUNK) == lineSize - 1 then CHUNK else CHUNK + 1
    else if ColumnAt(lineSize, start, src, at + k + 1) == 0 then k
    else LineEnd(lineSize, start, src, at, k + 1)
  }

  /** The byte the kernel stops before, when it is about to take the batch at `at`. A batch at a
      line's start has been loaded with the line's end before it; any other needs 129 bytes. */
  function Stops(lineSize: nat, start: nat, src: seq<byte>, at: nat, loaded: bool): (stop: nat)
    requires 1 <= lineSize && at <= |src| && (loaded ==> at + CHUNK < |src|)
    ensures at <= stop <= |src|
    decreases |src| - at
  {
    if !loaded && |src| < at + 2 * CHUNK + 1 then at
    else
      var k := LineEnd(lineSize, start, src, at, 0);
      if k > CHUNK then Stops(lineSize, start, src, at + CHUNK, false)
      else if |src| <= at + k + CHUNK + 1 then at + k + 1
      else Stops(lineSize, start, src, at + k + 1, true)
  }

  lemma StopsShort(lineSize: nat, start: nat, src: seq<byte>, at: nat)
    requires 1 <= lineSize && at <= |src|
    ensures |src| < at + 2 * CHUNK + 1 ==> Stops(lineSize, start, src, at, false) == at
  {
  }

  lemma StopsNext(lineSize: nat, start: nat, src: seq<byte>, at: nat, loaded: bool)
    requires 1 <= lineSize && at + CHUNK < |src| && (loaded || at + 2 * CHUNK + 1 <= |src|)
    ensures var k := LineEnd(lineSize, start, src, at, 0);
      Stops(lineSize, start, src, at, loaded)
      == if k > CHUNK then Stops(lineSize, start, src, at + CHUNK, false)
        else if |src| <= at + k + CHUNK + 1 then at + k + 1
        else Stops(lineSize, start, src, at + k + 1, true)
  {
  }

  /** The bytes taken before the vector loop: one inside a line, then the end of a line that is
      due or the break that was, then the first byte of a line. */
  function PrologueLength(lineSize: nat, col: nat, c: byte): (n: nat)
    requires 2 <= lineSize
    ensures n <= 3
  {
    var n := if 0 < col < lineSize - 1 then 1 else 0;
    var reached := if n == 1 then col + |Mid(c)| else col;
    if reached == 0 then 1
    else if reached < lineSize - 1 then n
    else if reached == lineSize - 1 then n + 2
    else n + 1
  }

  /** How many bytes of src the kernel takes. */
  function Taken(lineSize: nat, col: nat, src: seq<byte>): (n: nat)
    ensures n <= |src|
  {
    if |src| <= CHUNK + 1 || lineSize < 16 then 0
    else Stops(lineSize, col, src, PrologueLength(lineSize, col, src[0]), false)
  }

  /** The kernel takes everything. */
  predicate TakesAll(lineSize: nat, col: nat, src: seq<byte>) {
    src != [] && Taken(lineSize, col, src) == |src|
  }

  // ----- the same, told from the end of the input

  // The start of byte b's line, as far as the vector loop sees it: from its first batch on.
  function LineStart(lineSize: nat, start: nat, src: seq<byte>, from: nat, b: nat): (s: nat)
    requires from <= b <= |src|
    ensures from <= s <= b
    decreases b
  {
    if b == from || ColumnAt(lineSize, start, src, b) == 0 then b
    else LineStart(lineSize, start, src, from, b - 1)
  }

  /** A batch that was not loaded with a line's end starts at b: inside a line, before its last
      column, and a multiple of 64 bytes from where the line starts. */
  predicate BatchAt(lineSize: nat, start: nat, src: seq<byte>, from: nat, b: nat) {
    && from <= b <= |src|
    && ColumnAt(lineSize, start, src, b) != 0 && ColumnAt(lineSize, start, src, b) + 1 != lineSize
    && (b - LineStart(lineSize, start, src, from, b)) % CHUNK == 0
  }

  // No line ends between byte a and byte b.
  predicate SameLine(lineSize: nat, start: nat, src: seq<byte>, a: nat, b: nat)
    requires b <= |src|
  {
    forall i :: a < i <= b ==> ColumnAt(lineSize, start, src, i) != 0
  }

  /** The last 65 bytes are a whole line. */
  predicate EndsInLine(lineSize: nat, start: nat, src: seq<byte>) {
    && CHUNK < |src|
    && ColumnAt(lineSize, start, src, |src| - CHUNK - 1) == 0
    && ColumnAt(lineSize, start, src, |src| - 1) + 1 == lineSize
    && SameLine(lineSize, start, src, |src| - CHUNK - 1, |src| - 1)
  }

  /** No batch starts among the 63 bytes before that line, where there is no room for it. */
  predicate NoneTooLate(lineSize: nat, start: nat, src: seq<byte>, from: nat) {
    forall b: nat :: |src| < b + 2 * CHUNK + 1 && b + CHUNK + 1 < |src| ==> !BatchAt(lineSize, start, src, from, b)
  }

  // ----- lines

  lemma {:induction false} LineEndIs(lineSize: nat, start: nat, src: seq<byte>, at: nat, k: nat)
    requires at + CHUNK < |src| && k <= CHUNK && 1 <= lineSize && SameLine(lineSize, start, src, at, at + k)
    ensures var r := LineEnd(lineSize, start, src, at, k);
      && SameLine(lineSize, start, src, at, at + if r < CHUNK then r else CHUNK)
      && (r < CHUNK ==> ColumnAt(lineSize, start, src, at + r + 1) == 0)
      && (CHUNK <= r ==> (r == CHUNK <==> ColumnAt(lineSize, start, src, at + CHUNK) == lineSize - 1))
    decreases CHUNK - k
  {
    hide ColumnAt;
    if k < CHUNK && ColumnAt(lineSize, start, src, at + k + 1) != 0 {
      LineEndIs(lineSize, start, src, at, k + 1);
    }
  }

  // And it is the only place there can be.
  lemma {:induction false} LineEndWhere(lineSize: nat, start: nat, src: seq<byte>, at: nat, k: nat, l: nat)
    requires at + CHUNK < |src| && k <= CHUNK && k <= l <= CHUNK + 1 && 1 <= lineSize
    requires SameLine(lineSize, start, src, at, at + if l < CHUNK then l else CHUNK)
    requires l < CHUNK ==> ColumnAt(lineSize, start, src, at + l + 1) == 0
    requires CHUNK <= l ==> (l == CHUNK <==> ColumnAt(lineSize, start, src, at + CHUNK) + 1 == lineSize)
    ensures LineEnd(lineSize, start, src, at, k) == l
    decreases CHUNK - k
  {
    hide ColumnAt;
    if k < CHUNK && k < l {
      LineEndWhere(lineSize, start, src, at, k + 1, l);
    }
  }

  /** A byte in the last column ends its line. */
  lemma LastColumnEnds(lineSize: nat, start: nat, src: seq<byte>, n: nat)
    requires n < |src| && 2 <= lineSize && ColumnAt(lineSize, start, src, n) + 1 == lineSize
    ensures ColumnAt(lineSize, start, src, n + 1) == 0
  {
  }

  /** Inside a line a byte takes one column or two. */
  lemma {:induction false} ColumnGrows(lineSize: nat, start: nat, src: seq<byte>, n: nat, k: nat)
    requires n + k <= |src| && 2 <= lineSize && ColumnAt(lineSize, start, src, n) == 0
    requires SameLine(lineSize, start, src, n, n + k)
    ensures k <= ColumnAt(lineSize, start, src, n + k) <= 2 * k
    ensures ColumnAt(lineSize, start, src, n + k) < lineSize
  {
    if k > 0 {
      ColumnGrows(lineSize, start, src, n, k - 1);
    }
  }

  lemma {:induction false} LineStartIs(lineSize: nat, start: nat, src: seq<byte>, from: nat, b: nat)
    requires from <= b <= |src|
    ensures var s := LineStart(lineSize, start, src, from, b);
      SameLine(lineSize, start, src, s, b) && (s == from || ColumnAt(lineSize, start, src, s) == 0)
    decreases b
  {
    hide ColumnAt;
    if b != from && ColumnAt(lineSize, start, src, b) != 0 {
      LineStartIs(lineSize, start, src, from, b - 1);
    }
  }

  lemma {:induction false} SameStart(lineSize: nat, start: nat, src: seq<byte>, from: nat, a: nat, b: nat)
    requires from <= a <= b <= |src| && SameLine(lineSize, start, src, a, b)
    ensures LineStart(lineSize, start, src, from, b) == LineStart(lineSize, start, src, from, a)
    decreases b
  {
    hide ColumnAt;
    if a < b {
      SameStart(lineSize, start, src, from, a, b - 1);
    }
  }

  // ----- the walk

  /** Where the kernel may be about to take a batch. */
  predicate AboutTo(lineSize: nat, start: nat, src: seq<byte>, from: nat, at: nat, loaded: bool) {
    && from <= at <= |src|
    && (if loaded then ColumnAt(lineSize, start, src, at) == 0 && at + CHUNK < |src|
        else BatchAt(lineSize, start, src, from, at))
  }

  // Its next batch, and how it stands to the one before.
  lemma NextBatch(lineSize: nat, start: nat, src: seq<byte>, from: nat, at: nat, loaded: bool)
    requires 2 <= lineSize && AboutTo(lineSize, start, src, from, at, loaded) && at + CHUNK < |src|
    ensures var k := LineEnd(lineSize, start, src, at, 0);
      && SameLine(lineSize, start, src, at, at + if k < CHUNK then k else CHUNK)
      && (k <= CHUNK ==> ColumnAt(lineSize, start, src, at + k + 1) == 0)
      && (k > CHUNK ==> AboutTo(lineSize, start, src, from, at + CHUNK, false))
      && (k == CHUNK ==> ColumnAt(lineSize, start, src, at + CHUNK) + 1 == lineSize)
  {
    hide ColumnAt, LineEnd, LineStart;
    LineEndIs(lineSize, start, src, at, 0);
    var k := LineEnd(lineSize, start, src, at, 0);
    if k == CHUNK {
      LastColumnEnds(lineSize, start, src, at + CHUNK);
    }
    if k > CHUNK {
      BatchOffset(lineSize, start, src, from, at, loaded);
      SameStart(lineSize, start, src, from, at, at + CHUNK);
      MoreChunks(at - LineStart(lineSize, start, src, from, at));
    }
  }

  lemma BatchOffset(lineSize: nat, start: nat, src: seq<byte>, from: nat, at: nat, loaded: bool)
    requires AboutTo(lineSize, start, src, from, at, loaded)
    ensures (at - LineStart(lineSize, start, src, from, at)) % CHUNK == 0
  {
  }

  lemma MoreChunks(d: nat)
    requires d % CHUNK == 0
    ensures (d + CHUNK) % CHUNK == 0
  {
  }

  /** If the last 65 bytes are a line and no batch comes too late, the walk ends with the input. */
  lemma {:induction false} WalkReachesEnd(lineSize: nat, start: nat, src: seq<byte>, from: nat, at: nat, loaded: bool)
    requires 2 <= lineSize && AboutTo(lineSize, start, src, from, at, loaded) && at + CHUNK + 1 <= |src|
    requires EndsInLine(lineSize, start, src) && NoneTooLate(lineSize, start, src, from)
    ensures Stops(lineSize, start, src, at, loaded) == |src|
    decreases |src| - at
  {
    hide ColumnAt, LineEnd, BatchAt;
    if !loaded {
      NotThere(lineSize, start, src, from, at);
    }
    NextBatch(lineSize, start, src, from, at, loaded);
    var k := LineEnd(lineSize, start, src, at, 0);
    if k > CHUNK {
      NotThere(lineSize, start, src, from, at + CHUNK);
      WalkReachesEnd(lineSize, start, src, from, at + CHUNK, false);
    } else if at + k + CHUNK + 1 < |src| {
      WalkReachesEnd(lineSize, start, src, from, at + k + 1, true);
    }
  }

  // A batch inside a line is neither at the last line's start nor at its last byte.
  lemma NotThere(lineSize: nat, start: nat, src: seq<byte>, from: nat, at: nat)
    requires EndsInLine(lineSize, start, src) && at <= |src| && BatchAt(lineSize, start, src, from, at)
    ensures at != |src| - CHUNK - 1 && at != |src| - 1
  {
  }

  /** The walk ends with the input only over a last line of 65 bytes. */
  lemma {:induction false} EndIsLine(lineSize: nat, start: nat, src: seq<byte>, from: nat, at: nat, loaded: bool)
    requires 2 <= lineSize && AboutTo(lineSize, start, src, from, at, loaded) && at < |src|
    requires Stops(lineSize, start, src, at, loaded) == |src|
    ensures EndsInLine(lineSize, start, src) && at + CHUNK + 1 <= |src|
    decreases |src| - at
  {
    hide ColumnAt, LineEnd, BatchAt;
    NextBatch(lineSize, start, src, from, at, loaded);
    var k := LineEnd(lineSize, start, src, at, 0);
    if k > CHUNK {
      EndIsLine(lineSize, start, src, from, at + CHUNK, false);
    } else if at + k + CHUNK + 1 < |src| {
      EndIsLine(lineSize, start, src, from, at + k + 1, true);
    }
  }

  /** A batch too late stops the walk before the input's end. */
  lemma {:induction false} LateStops(lineSize: nat, start: nat, src: seq<byte>, from: nat, at: nat, loaded: bool, b: nat)
    requires 2 <= lineSize && AboutTo(lineSize, start, src, from, at, loaded) && at <= b
    requires BatchAt(lineSize, start, src, from, b) && |src| < b + 2 * CHUNK + 1 && b + CHUNK + 1 < |src|
    ensures Stops(lineSize, start, src, at, loaded) < |src|
    decreases |src| - at
  {
    hide ColumnAt, LineEnd, LineStart;
    if !loaded && |src| < at + 2 * CHUNK + 1 {
      return;
    }
    NextBatch(lineSize, start, src, from, at, loaded);
    var k := LineEnd(lineSize, start, src, at, 0);
    if b <= at + CHUNK && b <= at + k {
      SameStart(lineSize, start, src, from, at, b);
      BatchOffset(lineSize, start, src, from, at, loaded);
      WholeChunks(at - LineStart(lineSize, start, src, from, at), b - at);
    }
    if k > CHUNK {
      LateStops(lineSize, start, src, from, at + CHUNK, false, b);
    } else if at + k + CHUNK + 1 < |src| {
      LateStops(lineSize, start, src, from, at + k + 1, true, b);
    }
  }

  lemma WholeChunks(d: nat, e: nat)
    requires d % CHUNK == 0 && (d + e) % CHUNK == 0 && e <= CHUNK
    ensures e == 0 || e == CHUNK
  {
  }

  // ----- the whole kernel

  /** What comes before the vector loop leaves it inside a line. */
  lemma PrologueInside(lineSize: nat, col: nat, src: seq<byte>)
    requires 16 <= lineSize && 3 <= |src|
    ensures var n := PrologueLength(lineSize, col, src[0]);
      0 < n && 0 < ColumnAt(lineSize, col, src, n) < lineSize - 1
  {
    hide First, Mid, Last;
    ColumnsFrom(lineSize, col, src, 0);
    ColumnsFrom(lineSize, col, src, 1);
    ColumnsFrom(lineSize, col, src, 2);
  }

  lemma ColumnsFrom(lineSize: nat, col: nat, src: seq<byte>, n: nat)
    requires n < |src|
    ensures ColumnAt(lineSize, col, src, n + 1)
      == Settle(lineSize, EncodeByte(lineSize, At(ColumnAt(lineSize, col, src, n)), src[n])).col
    ensures ColumnAt(lineSize, col, src, 0) == col
  {
  }

  /** On which inputs the kernel takes everything: those whose last 65 bytes are a whole line, with
      no batch due among the 63 bytes before it. */
  lemma TakesAllWhen(lineSize: nat, col: nat, src: seq<byte>)
    ensures TakesAll(lineSize, col, src) <==>
      && 16 <= lineSize && CHUNK + 1 < |src|
      && PrologueLength(lineSize, col, src[0]) + CHUNK + 1 <= |src|
      && EndsInLine(lineSize, col, src)
      && NoneTooLate(lineSize, col, src, PrologueLength(lineSize, col, src[0]))
  {
    if 16 <= lineSize && CHUNK + 1 < |src| {
      var from := PrologueLength(lineSize, col, src[0]);
      hide PrologueLength, ColumnAt, Stops, EndsInLine, NoneTooLate;
      PrologueInside(lineSize, col, src);
      if Stops(lineSize, col, src, from, false) == |src| {
        EndIsLine(lineSize, col, src, from, from, false);
        NotLate(lineSize, col, src, from);
      } else if EndsInLine(lineSize, col, src) && NoneTooLate(lineSize, col, src, from) && from + CHUNK + 1 <= |src| {
        WalkReachesEnd(lineSize, col, src, from, from, false);
      }
    }
  }

  lemma NotLate(lineSize: nat, start: nat, src: seq<byte>, from: nat)
    requires 2 <= lineSize && AboutTo(lineSize, start, src, from, from, false)
    requires Stops(lineSize, start, src, from, false) == |src|
    ensures NoneTooLate(lineSize, start, src, from)
  {
    hide Stops, BatchAt;
    forall b: nat | |src| < b + 2 * CHUNK + 1 && b + CHUNK + 1 < |src| && BatchAt(lineSize, start, src, from, b)
      ensures false
    {
      NotBefore(lineSize, start, src, from, b);
      LateStops(lineSize, start, src, from, from, false, b);
    }
  }

  lemma NotBefore(lineSize: nat, start: nat, src: seq<byte>, from: nat, b: nat)
    requires BatchAt(lineSize, start, src, from, b)
    ensures from <= b
  {
  }

  /** So only with lines of 65 to 129 columns. */
  lemma TakesAllOnly(lineSize: nat, col: nat, src: seq<byte>)
    requires TakesAll(lineSize, col, src)
    ensures 65 <= lineSize <= 129 && EndsInLine(lineSize, col, src)
  {
    hide TakesAll, ColumnAt, NoneTooLate, PrologueLength;
    TakesAllWhen(lineSize, col, src);
    ColumnGrows(lineSize, col, src, |src| - CHUNK - 1, CHUNK);
  }

  // ----- an input it takes everything of

  lemma {:induction false} ZeroColumns(n: nat)
    requires n <= 130
    ensures ColumnAt(65, 0, Zeros(130), n) == n % 65
  {
    if n > 0 {
      hide Zeros;
      ZeroColumns(n - 1);
      ColumnsFrom(65, 0, Zeros(130), n - 1);
      NextColumn(n - 1);
    } else {
      ColumnsFrom(65, 0, Zeros(130), 0);
    }
  }

  /** And one it leaves a tail of, though its last 65 bytes are such a line: it has one byte too few
      for the first batch. */
  lemma LeavesExample()
    ensures EndsInLine(65, 1, Zeros(129)) && !TakesAll(65, 1, Zeros(129))
  {
    hide Stops;
    var src := Zeros(129);
    forall n | 0 <= n <= 129
      ensures ColumnAt(65, 1, src, n) == (n + 1) % 65
    {
      LaterColumns(n);
    }
    StopsShort(65, 1, src, PrologueLength(65, 1, src[0]));
  }

  lemma {:induction false} LaterColumns(n: nat)
    requires n <= 129
    ensures ColumnAt(65, 1, Zeros(129), n) == (n + 1) % 65
  {
    if n > 0 {
      hide Zeros;
      LaterColumns(n - 1);
      ColumnsFrom(65, 1, Zeros(129), n - 1);
      NextColumn(n);
    } else {
      ColumnsFrom(65, 1, Zeros(129), 0);
    }
  }

  lemma NextColumn(n: nat)
    ensures (n + 1) % 65 == if n % 65 == 64 then 0 else n % 65 + 1
  {
  }

  /** For one: 130 zeros in lines of 65 columns. */
  lemma TakesAllExample()
    ensures TakesAll(65, 0, Zeros(130))
  {
    hide ColumnAt, TakesAll, LineStart;
    var src := Zeros(130);
    forall n | 0 <= n <= 130
      ensures ColumnAt(65, 0, src, n) == n % 65
    {
      ZeroColumns(n);
    }
    forall b: nat | 1 < b < 65
      ensures !BatchAt(65, 0, src, 1, b)
    {
      SameStart(65, 0, src, 1, 1, b);
      LineStartIs(65, 0, src, 1, 1);
    }
    TakesAllWhen(65, 0, src);
  }
}
