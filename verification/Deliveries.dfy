/** What a reader delivers, and the books of a call that reads it: what has been read, fed and lost,
    and where deliveries end. */
module Deliveries {
  import opened Bytes
  import opened YencMachine
  import R = ResponseBody

  // ----- the reader

  /** One delivery of the network: some bytes, perhaps none, and perhaps an error with them. */
  datatype Delivery = Delivery(bytes: seq<byte>, fails: bool)

  /** All bytes still to come. */
  function Flat(coming: seq<Delivery>): seq<byte> {
    if coming == [] then [] else coming[0].bytes + Flat(coming[1..])
  }

  /** The bytes of the deliveries before the first that fails. */
  function Safe(coming: seq<Delivery>): seq<byte> {
    if coming == [] || coming[0].fails then [] else coming[0].bytes + Safe(coming[1..])
  }

  /** The bytes up to the first error: those before the first delivery that fails, and its own. */
  function Reach(coming: seq<Delivery>): seq<byte> {
    if coming == [] then [] else if coming[0].fails then coming[0].bytes else coming[0].bytes + Reach(coming[1..])
  }

  // What comes after the first error.
  function Beyond(coming: seq<Delivery>): seq<Delivery> {
    if coming == [] then [] else if coming[0].fails then coming[1..] else Beyond(coming[1..])
  }

  ghost function Size(coming: seq<Delivery>): nat {
    if coming == [] then 0 else 1 + |coming[0].bytes| + Size(coming[1..])
  }

  /** One read into so much space: a delivery, or as much of it as fits. Its error comes with its
      last piece, and an error again when nothing more will come. */
  ghost predicate Takes(before: seq<Delivery>, space: nat, bytes: seq<byte>, err: bool, after: seq<Delivery>) {
    if before == [] then bytes == [] && err && after == []
    else
      var head := before[0];
      if |head.bytes| <= space then bytes == head.bytes && err == head.fails && after == before[1..]
      else bytes == head.bytes[..space] && !err && after == [head.(bytes := head.bytes[space..])] + before[1..]
  }

  lemma TakesScript(before: seq<Delivery>, space: nat, bytes: seq<byte>, err: bool, after: seq<Delivery>)
    requires 0 < space && Takes(before, space, bytes, err, after)
    ensures Flat(before) == bytes + Flat(after)
    ensures err ==> Safe(before) == [] && Reach(before) == bytes && Beyond(before) == after
    ensures !err ==> Reach(before) == bytes + Reach(after) && Beyond(before) == Beyond(after)
    ensures !err ==> Safe(before) == bytes + Safe(after) || (Safe(before) == [] && Safe(after) == [])
    ensures !err ==> (Safe(before) == Reach(before) <==> Safe(after) == Reach(after))
    ensures err || Size(after) < Size(before)
  {
    if before == [] {
    } else if |before[0].bytes| <= space {
      SameAfter(bytes, Safe(after), Reach(after));
    } else {
      PieceLeft(before[0], before[1..], space);
      assert after[1..] == before[1..];
      SameAfter(before[0].bytes, Safe(before[1..]), Reach(before[1..]));
      SameAfter(after[0].bytes, Safe(before[1..]), Reach(before[1..]));
    }
  }

  lemma SameAfter(front: seq<byte>, a: seq<byte>, b: seq<byte>)
    ensures front + a == front + b <==> a == b
  {
    assert (front + a)[|front|..] == a && (front + b)[|front|..] == b;
  }

  // A delivery that does not fit, and what is left of it.
  lemma PieceLeft(head: Delivery, later: seq<Delivery>, space: nat)
    requires space < |head.bytes|
    ensures var bytes, left := head.bytes[..space], head.bytes[space..];
      && head.bytes == bytes + left
      && head.bytes + Flat(later) == bytes + (left + Flat(later))
      && head.bytes + Reach(later) == bytes + (left + Reach(later))
      && head.bytes + Safe(later) == bytes + (left + Safe(later))
  {
    hide *;
  }

  class Reader {
    var coming: seq<Delivery>

    constructor (coming: seq<Delivery>)
      ensures this.coming == coming
    {
      this.coming := coming;
    }

    method Read(dest: array<byte>, from: nat) returns (n: nat, err: bool)
      requires from < dest.Length
      modifies this, dest
      ensures from + n <= dest.Length && dest[..from] == old(dest[..from])
      ensures Takes(old(coming), dest.Length - from, dest[from..from + n], err, coming)
    {
      if coming == [] {
        return 0, true;
      }
      var head, space := coming[0], dest.Length - from;
      n := if |head.bytes| <= space then |head.bytes| else space;
      forall i | 0 <= i < n {
        dest[from + i] := head.bytes[i];
      }
      assert dest[from..from + n] == head.bytes[..n];
      if n == |head.bytes| {
        coming, err := coming[1..], head.fails;
      } else {
        coming, err := [head.(bytes := head.bytes[n..])] + coming[1..], false;
      }
    }
  }

  // ----- what has been read

  /** Without an error so far: what has been read and what is to come is what there was, no byte
      before the first error has been passed over, and the error has not been met: if it comes with
      bytes, some of them are still to come. */
  ghost predicate Tally(script: seq<Delivery>, seen: seq<byte>, coming: seq<Delivery>, stream: seq<byte>) {
    && seen <= stream
    && seen + Flat(script) == stream + Flat(coming)
    && seen + Reach(script) == stream + Reach(coming)
    && Beyond(script) == Beyond(coming)
    && seen + Safe(script) <= stream + Safe(coming)
    && (Safe(script) == Reach(script) <==> Safe(coming) == Reach(coming))
  }

  /** After the first error: the bytes that came with it are those of the stream that fed has not. */
  ghost predicate Lost(script: seq<Delivery>, seen: seq<byte>, coming: seq<Delivery>, fed: seq<byte>, stream: seq<byte>) {
    && fed <= stream
    && seen + Safe(script) <= fed
    && seen + Reach(script) == stream
    && Beyond(script) == coming
    && seen + Flat(script) == stream + Flat(coming)
    && (Safe(script) != Reach(script) ==> fed != stream)
  }

  lemma TallyStart(script: seq<Delivery>, seen: seq<byte>)
    ensures Tally(script, seen, script, seen)
  {
  }

  lemma TallyReads(script: seq<Delivery>, seen: seq<byte>, coming: seq<Delivery>, stream: seq<byte>,
      space: nat, bytes: seq<byte>, err: bool, after: seq<Delivery>)
    requires Tally(script, seen, coming, stream) && 0 < space && Takes(coming, space, bytes, err, after)
    ensures !err ==> Tally(script, seen, after, stream + bytes)
    ensures err ==> Lost(script, seen, after, stream, stream + bytes)
  {
    hide Takes, Flat, Safe, Reach, Beyond;
    TakesScript(coming, space, bytes, err, after);
    assert stream + (bytes + Flat(after)) == (stream + bytes) + Flat(after);
    assert stream + (bytes + Reach(after)) == (stream + bytes) + Reach(after);
    assert stream + (bytes + Safe(after)) == (stream + bytes) + Safe(after);
    assert stream + [] == stream && (stream + bytes) + [] == stream + bytes;
  }

  // ----- where reads begin and end

  /** The first delivery that fails fits into a buffer of so many bytes: of those read before it at
      most `left` are still in the way, or two if another delivery comes first. */
  ghost predicate FailureFits(coming: seq<Delivery>, left: nat, size: nat) {
    if coming == [] then true
    else if coming[0].fails then left + |coming[0].bytes| <= size
    else FailureFits(coming[1..], 2, size)
  }

  // Every delivery does.
  predicate AllFit(coming: seq<Delivery>, size: nat) {
    forall i :: 0 <= i < |coming| ==> 2 + |coming[i].bytes| <= size
  }

  lemma {:induction false} AllFitFailure(coming: seq<Delivery>, left: nat, size: nat)
    requires AllFit(coming, size) && left <= 2
    ensures FailureFits(coming, left, size)
  {
    if coming != [] && !coming[0].fails {
      AllFitFailure(coming[1..], 2, size);
    }
  }

  /** A delivery ends where n bytes of the stream have come, when `from` have come already. */
  predicate Boundary(coming: seq<Delivery>, from: nat, n: nat)
    ensures Boundary(coming, from, n) ==> from <= n
  {
    n == from || (coming != [] && Boundary(coming[1..], from + |coming[0].bytes|, n))
  }

  /** One call of feedUntilDone: what the reader will bring; what had been read before, and how much
      of that consumed; how many bytes the read buffer takes, and Data; and how many are in Data. */
  datatype Call = Call(script: seq<Delivery>, seen: seq<byte>, at: nat, size: nat, capacity: nat, len: nat) {
    /** All that comes without an error. */
    function Given(): seq<byte> { seen + Safe(script) }

    /** All that comes up to and with the first error. */
    function Within(): seq<byte> { seen + Reach(script) }

    /** The delivery with the first error is read at once. */
    ghost predicate Prompt() {
      3 <= size && FailureFits(script, if at == |seen| then 0 else 2, size)
    }

    /** Every delivery is read at once, and Data takes all that is ever read. */
    ghost predicate Ample() {
      3 <= size && AllFit(script, size) && at == len == 0 && |seen + Flat(script)| <= capacity
    }

    /** A delivery ends inside a terminator that ends where `used` bytes have come. */
    predicate Splits(used: nat) {
      3 <= used && (Boundary(script, |seen|, used - 1) || Boundary(script, |seen|, used - 2))
    }
  }

  /** For a Prompt call: nothing has been read of the delivery with the first error. */
  ghost predicate Punctual(call: Call, coming: seq<Delivery>, stream: seq<byte>, pos: nat) {
    && stream + Safe(coming) == call.Given()
    && FailureFits(coming, if pos == |stream| then 0 else 2, call.size)
  }

  /** For an Ample call: deliveries have been read whole, the last of them after mark, and but for
      the bytes left over all before mark has been consumed. */
  ghost predicate Marked(call: Call, coming: seq<Delivery>, stream: seq<byte>, pos: nat, mark: nat) {
    && pos <= mark <= |stream|
    && R.Leftover(stream[pos..mark])
    && Decode(StateCRLF, stream[..mark]).Live?
    && AllFit(coming, call.size)
    && (mark == 0 || Boundary(call.script, |call.seen|, mark))
    && (forall n: nat :: mark < n && Boundary(call.script, |call.seen|, n) ==> Boundary(coming, |stream|, n))
    && (forall n: nat :: Boundary(coming, |stream|, n) ==> Boundary(call.script, |call.seen|, n))
  }

  /** What is known of a call under way, when Data takes `capacity` bytes and holds `len`, and is
      perhaps cut short. */
  ghost predicate OnTrack(call: Call, coming: seq<Delivery>, stream: seq<byte>, pos: nat, len: nat, capacity: nat,
      cut: bool)
  {
    && (call.Prompt() ==> Punctual(call, coming, stream, pos) || cut)
    && (capacity == call.capacity || call.capacity <= len)
    && (call.Ample() ==> len + |stream| + |Flat(coming)| <= capacity + pos)
    && (call.Ample() ==> exists mark: nat :: Marked(call, coming, stream, pos, mark))
  }

  lemma TrackStart(call: Call, cut: bool)
    requires call.at <= |call.seen|
    ensures OnTrack(call, call.script, call.seen, call.at, call.len, call.capacity, cut)
  {
    if call.Ample() {
      assert call.seen[..0] == [] && call.seen[0..0] == [];
      assert Marked(call, call.script, call.seen, 0, 0);
    }
  }

  lemma PunctualReads(call: Call, coming: seq<Delivery>, stream: seq<byte>, pos: nat, space: nat, bytes: seq<byte>,
      err: bool, after: seq<Delivery>)
    requires 3 <= call.size && Punctual(call, coming, stream, pos) && Takes(coming, space, bytes, err, after)
    requires pos <= |stream| <= pos + 2 && call.size <= space + (|stream| - pos)
    ensures if err then stream == call.Given() else Punctual(call, after, stream + bytes, pos)
  {
    assert stream + [] == stream;
    if coming != [] {
      var head := coming[0];
      if |head.bytes| <= space {
        assert stream + (head.bytes + Safe(after)) == (stream + head.bytes) + Safe(after);
        if !err {
          FitsSooner(after, call.size);
        }
      } else {
        assert after[1..] == coming[1..];
        assert !head.fails;
        PieceLeft(head, coming[1..], space);
        assert stream + (bytes + Safe(after)) == (stream + bytes) + Safe(after);
      }
    }
  }

  lemma MarkedReads(call: Call, coming: seq<Delivery>, stream: seq<byte>, pos: nat, space: nat, bytes: seq<byte>,
      after: seq<Delivery>)
    requires Marked(call, coming, stream, pos, |stream|) && Takes(coming, space, bytes, false, after)
    requires |stream| <= pos + 2 && call.size <= space + (|stream| - pos)
    ensures Marked(call, after, stream + bytes, pos, |stream|) && |Flat(coming)| == |bytes| + |Flat(after)|
  {
    hide R.Leftover;
    assert coming != [] && |coming[0].bytes| <= space;
    assert (stream + bytes)[..|stream|] == stream[..|stream|];
    assert (stream + bytes)[pos..|stream|] == stream[pos..|stream|];
    assert forall n: nat :: Boundary(coming, |stream|, n) <==> n == |stream| || Boundary(after, |stream + bytes|, n);
    assert forall i :: 0 <= i < |after| ==> after[i] == coming[i + 1];
  }

  // A read that does not fail.
  lemma TrackReads(call: Call, coming: seq<Delivery>, stream: seq<byte>, pos: nat, len: nat, capacity: nat, cut: bool,
      space: nat, bytes: seq<byte>, after: seq<Delivery>)
    requires OnTrack(call, coming, stream, pos, len, capacity, cut) && Takes(coming, space, bytes, false, after)
    requires pos <= |stream| && (cut ==> capacity + pos < len + |stream|)
    requires !cut && 3 <= call.size ==> |stream| <= pos + 2 && call.size <= space + (|stream| - pos)
    requires call.Ample() ==> Marked(call, coming, stream, pos, |stream|)
    ensures OnTrack(call, after, stream + bytes, pos, len, capacity, cut)
  {
    hide Punctual, Marked, Takes, FailureFits, AllFit, Flat;
    if call.Prompt() && !cut {
      PunctualReads(call, coming, stream, pos, space, bytes, false, after);
    }
    if call.Ample() {
      MarkedReads(call, coming, stream, pos, space, bytes, after);
    }
  }

  // A read that does.
  lemma TrackFails(call: Call, coming: seq<Delivery>, stream: seq<byte>, pos: nat, len: nat, capacity: nat, cut: bool,
      space: nat, bytes: seq<byte>, after: seq<Delivery>)
    requires OnTrack(call, coming, stream, pos, len, capacity, cut) && Takes(coming, space, bytes, true, after)
    requires pos <= |stream| && (cut ==> capacity + pos < len + |stream|)
    requires !cut && 3 <= call.size ==> |stream| <= pos + 2 && call.size <= space + (|stream| - pos)
    ensures call.Prompt() && !cut ==> stream == call.Given()
    ensures call.Ample() ==> !cut
  {
    hide Punctual, Marked, Takes, FailureFits, AllFit, Flat;
    if call.Prompt() && !cut {
      PunctualReads(call, coming, stream, pos, space, bytes, true, after);
    }
  }

  lemma TrackStays(call: Call, coming: seq<Delivery>, stream: seq<byte>, pos: nat, len: nat, capacity: nat, cut: bool,
      newCut: bool)
    requires OnTrack(call, coming, stream, pos, len, capacity, cut) && (cut ==> newCut)
    ensures OnTrack(call, coming, stream, pos, len, capacity, newCut)
  {
  }

  /** A read, in the books. */
  lemma ReadInBooks(call: Call, coming: seq<Delivery>, stream: seq<byte>, pos: nat, len: nat, capacity: nat, cut: bool,
      space: nat, bytes: seq<byte>, err: bool, after: seq<Delivery>, newCut: bool)
    requires Tally(call.script, call.seen, coming, stream) && OnTrack(call, coming, stream, pos, len, capacity, cut)
    requires 0 < space && Takes(coming, space, bytes, err, after)
    requires pos <= |stream| && (cut ==> newCut && capacity + pos < len + |stream|)
    requires !cut && 3 <= call.size ==> |stream| <= pos + 2 && call.size <= space + (|stream| - pos)
    requires call.Ample() ==> Marked(call, coming, stream, pos, |stream|)
    ensures if err then
        && Lost(call.script, call.seen, after, stream, stream + bytes)
        && (call.Prompt() && !cut ==> stream == call.Given()) && (call.Ample() ==> !cut)
      else
        && Tally(call.script, call.seen, after, stream + bytes) && Size(after) < Size(coming)
        && OnTrack(call, after, stream + bytes, pos, len, capacity, newCut)
  {
    hide Tally, Lost, Takes, OnTrack, Size, Marked;
    TallyReads(call.script, call.seen, coming, stream, space, bytes, err, after);
    TakesScript(coming, space, bytes, err, after);
    if err {
      TrackFails(call, coming, stream, pos, len, capacity, cut, space, bytes, after);
    } else {
      TrackReads(call, coming, stream, pos, len, capacity, cut, space, bytes, after);
      TrackStays(call, after, stream + bytes, pos, len, capacity, cut, newCut);
    }
  }

  lemma CutIsNotAmple(call: Call, coming: seq<Delivery>, stream: seq<byte>, pos: nat, len: nat, capacity: nat, cut: bool)
    requires OnTrack(call, coming, stream, pos, len, capacity, cut) && (cut ==> capacity + pos < len + |stream|)
    ensures call.Ample() ==> !cut
  {
  }

  // With nothing left unconsumed the mark is at the end.
  lemma MarkedHere(call: Call, coming: seq<Delivery>, stream: seq<byte>, len: nat, capacity: nat, cut: bool)
    requires OnTrack(call, coming, stream, |stream|, len, capacity, cut)
    ensures call.Ample() ==> Marked(call, coming, stream, |stream|, |stream|)
  {
  }

  lemma MarkedFeeds(call: Call, coming: seq<Delivery>, stream: seq<byte>, pos: nat, mark: nat, next: nat)
    requires Marked(call, coming, stream, pos, mark) && pos <= next <= |stream|
    requires R.Leftover(stream[next..]) && Decode(StateCRLF, stream).Live?
    ensures Marked(call, coming, stream, next, |stream|)
  {
    hide R.Leftover, Decode;
    assert stream[..|stream|] == stream && stream[next..|stream|] == stream[next..];
    assert Boundary(coming, |stream|, |stream|);
  }

  /** Of a feed: how much Data may have grown by, and what is left over of what was decoded whole. */
  ghost predicate FedOn(stream: seq<byte>, pos: nat, len: nat, capacity: nat, next: int, newLen: nat, newCapacity: nat,
      done: bool)
  {
    && len <= newLen
    && capacity <= newCapacity && (newCapacity == capacity || capacity <= newLen)
    && (!done && len + |stream| <= capacity + pos ==>
          pos <= next <= |stream| && newLen + pos <= len + next
          && R.Leftover(stream[next..]) && Decode(StateCRLF, stream).Live?)
    && (done && Decode(StateCRLF, stream).Halted? && Decode(StateCRLF, stream).end == EndControl ==>
          newLen + 2 <= newCapacity)
  }

  // A feed that does not end the body.
  lemma TrackFeeds(call: Call, coming: seq<Delivery>, stream: seq<byte>, pos: nat, len: nat, capacity: nat, cut: bool,
      next: nat, newLen: nat, newCapacity: nat, newCut: bool)
    requires OnTrack(call, coming, stream, pos, len, capacity, cut) && pos <= next <= |stream| && (cut ==> newCut)
    requires FedOn(stream, pos, len, capacity, next, newLen, newCapacity, false)
    ensures OnTrack(call, coming, stream, next, newLen, newCapacity, newCut)
    ensures call.Ample() ==> Marked(call, coming, stream, next, |stream|)
  {
    hide Marked, R.Leftover, Decode, AllFit;
    if call.Ample() {
      var mark: nat :| Marked(call, coming, stream, pos, mark);
      MarkedFeeds(call, coming, stream, pos, mark, next);
      RoomKept(call, coming, stream, pos, len, capacity, next, newLen, newCapacity);
    }
    if call.Prompt() && Punctual(call, coming, stream, pos) && pos < next == |stream| {
      FitsSooner(coming, call.size);
    }
  }

  lemma RoomKept(call: Call, coming: seq<Delivery>, stream: seq<byte>, pos: nat, len: nat, capacity: nat,
      next: nat, newLen: nat, newCapacity: nat)
    requires len + |stream| + |Flat(coming)| <= capacity + pos && pos <= next <= |stream|
    requires FedOn(stream, pos, len, capacity, next, newLen, newCapacity, false)
    requires capacity == call.capacity || call.capacity <= len
    ensures newLen + |stream| + |Flat(coming)| <= newCapacity + next
  {
  }

  lemma FitsSooner(coming: seq<Delivery>, size: nat)
    requires FailureFits(coming, 2, size)
    ensures FailureFits(coming, 0, size)
  {
  }

  /** How a call that ends the body may end: before anything is read of the delivery with the first
      error; in Data two bytes larger than a body before a control line, unless the body outgrew
      what Data took; and with too much given back where a delivery ends inside the terminator. */
  ghost predicate Ending(call: Call, stream: seq<byte>, len: nat, split: bool) {
    var t := Decode(StateCRLF, stream);
    && t.Halted?
    && (call.Prompt() ==> stream <= call.Given())
    && (t.end == EndControl ==> len + 2 <= call.capacity || call.capacity <= len)
    && (call.Ample() && t.end == EndArticle ==> (split <==> call.Splits(t.used)))
  }

  // A feed that does.
  lemma TrackEnds(call: Call, coming: seq<Delivery>, stream: seq<byte>, pos: nat, len: nat, capacity: nat,
      contents: seq<byte>, consumed: int, newLen: nat, newCapacity: nat)
    requires OnTrack(call, coming, stream, pos, len, capacity, false) && R.Ended(stream, contents, pos + consumed)
    requires FedOn(stream, pos, len, capacity, pos + consumed, newLen, newCapacity, true)
    ensures Ending(call, stream, newLen, consumed < 0)
  {
    hide Marked, Decode, AllFit, FailureFits;
    var t := Decode(StateCRLF, stream);
    if call.Ample() && t.end == EndArticle {
      var mark: nat :| Marked(call, coming, stream, pos, mark);
      MarkedEnds(call, coming, stream, pos, mark);
    }
    if call.Prompt() {
      assert stream <= stream + Safe(coming);
    }
  }

  lemma MarkedEnds(call: Call, coming: seq<Delivery>, stream: seq<byte>, pos: nat, mark: nat)
    requires Marked(call, coming, stream, pos, mark)
    requires Decode(StateCRLF, stream).Halted? && Decode(StateCRLF, stream).end == EndArticle
    ensures var used := Decode(StateCRLF, stream).used; used < pos + 3 <==> call.Splits(used)
  {
    hide Decode;
    var used := Decode(StateCRLF, stream).used;
    R.TerminatorGivenBack(StateCRLF, stream);
    MarkBefore(stream, mark);
    LeftoverEnds(stream, pos, mark);
    if mark == used - 1 || mark == used - 2 {
      assert stream[mark - 1] == stream[used - 3..used][mark - 1 - (used - 3)];
    }
  }

  lemma LeftoverEnds(stream: seq<byte>, pos: nat, mark: nat)
    requires pos < mark <= |stream| ==> R.Leftover(stream[pos..mark])
    ensures pos < mark <= |stream| ==> stream[mark - 1] == EQUALS || stream[mark - 1] == LF
  {
    if pos < mark <= |stream| {
      assert stream[mark - 1] == stream[pos..mark][mark - 1 - pos];
    }
  }

  lemma MarkBefore(stream: seq<byte>, mark: nat)
    requires mark <= |stream| && Decode(StateCRLF, stream[..mark]).Live? && Decode(StateCRLF, stream).Halted?
    ensures mark < Decode(StateCRLF, stream).used <= |stream|
  {
    hide Run;
    assert stream == stream[..mark] + stream[mark..];
    DecodeConcat(StateCRLF, stream[..mark], stream[mark..]);
    var q := Decode(StateCRLF, stream[..mark]).state;
    OutNoLongerThanUsed(q, stream[mark..], |stream[mark..]|);
    OutNoLongerThanUsed(StateCRLF, stream, |stream|);
  }

  // An end stays where it is, whatever follows it or comes of what precedes it.
  lemma EndStays(front: seq<byte>, whole: seq<byte>)
    requires front <= whole
    ensures Decode(StateCRLF, front).Halted? ==> Decode(StateCRLF, whole) == Decode(StateCRLF, front)
    ensures |Decode(StateCRLF, front).out| <= |Decode(StateCRLF, whole).out|
  {
    DecodeConcat(StateCRLF, front, whole[|front|..]);
    assert front + whole[|front|..] == whole;
  }
}
