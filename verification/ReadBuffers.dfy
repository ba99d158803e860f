/** readBuffer: the bytes read and not yet consumed, as a window that moves through a buffer. */
module ReadBuffers {
  import opened Bytes
  import opened YencMachine
  import opened Deliveries
  import CompactLut
  import Crc = Crc32
  import R = ResponseBody

  const DEFAULT_SIZE := 32 * 1024
  const MAX_SIZE := 8 * 1024 * 1024

  // ----- the buffer

  // OutOfRange: the decoder gave back more than it had been given, which the slicing that follows
  // does not accept.
  datatype Outcome = Done | ReadFailed | OutOfRange

  class ReadBuffer {
    var buf: array<byte>
    var start: nat
    var end: nat

    ghost predicate Valid()
      reads this
    {
      start <= end <= buf.Length && (start == end ==> end == 0)
    }

    /** The bytes read and not consumed. */
    ghost function Window(): (w: seq<byte>)
      requires Valid()
      reads this, buf
    {
      buf[start..end]
    }

    constructor (size: nat)
      ensures Valid() && Window() == [] && fresh(buf) && buf.Length == size
    {
      buf := new byte[size];
      start, end := 0, 0;
    }

    // The buffer's size, once init has made one.
    ghost function Capacity(): nat
      reads `buf
    {
      if buf.Length == 0 then DEFAULT_SIZE else buf.Length
    }

    method Init()
      requires Valid()
      modifies `buf
      ensures Valid() && Window() == old(Window()) && 0 < buf.Length == old(Capacity())
      ensures buf == old(buf) || fresh(buf)
    {
      if buf.Length == 0 {
        buf := new byte[DEFAULT_SIZE];
      }
    }

    /** advance: the first bytes of the window are done with. */
    method Advance(consumed: int)
      requires Valid() && consumed <= end - start
      modifies `start, `end
      ensures Valid() && Window() == old(Window())[if consumed < 0 then 0 else consumed..]
      ensures old(start) < old(end) && 0 < consumed ==> |Window()| < old(|Window()|)
    {
      if consumed <= 0 {
        return;
      }
      start := start + consumed;
      if start >= end {
        start, end := 0, 0;
      }
    }

    /** The window's bytes, copied down to the buffer's start; the two stretches may overlap. */
    method MoveDown()
      requires start <= end <= buf.Length
      modifies buf
      ensures buf[..end - start] == old(buf[start..end])
    {
      ghost var window := buf[start..end];
      var i := 0;
      while i < end - start
        invariant 0 <= i <= end - start
        invariant forall k :: 0 <= k < i ==> buf[k] == window[k]
        invariant forall k :: i <= k < buf.Length ==> buf[k] == old(buf[k])
      {
        buf[i] := buf[start + i];
        i := i + 1;
      }
    }

    /** compact: the window moves to the start of the buffer. */
    method Compact()
      requires Valid()
      modifies `start, `end, buf
      ensures Valid() && Window() == old(Window()) && start == 0
    {
      if start == 0 || start == end {
        return;
      }
      MoveDown();
      end := end - start;
      start := 0;
    }

    /** ensureWriteSpace: it fails exactly when the window fills a buffer of the largest size. */
    method EnsureWriteSpace() returns (ok: bool)
      requires Valid()
      modifies this, buf
      ensures Valid() && Window() == old(Window())
      ensures ok ==> end < buf.Length
      ensures ok <==> !(old(|Window()|) == old(buf.Length) && 8_388_608 <= old(buf.Length))
      // it grows only when the window fills it, to twice the size and at most 8 MiB
      ensures ok && old(|Window()|) == old(buf.Length) ==>
        buf.Length == R.Min(2 * (if old(buf.Length) == 0 then 32_768 else old(buf.Length)), 8_388_608)
      ensures old(|Window()|) < old(buf.Length) ==> buf == old(buf)
      ensures old(end < buf.Length) ==> buf == old(buf) && end == old(end)
      ensures old(buf.Length) <= buf.Length
      ensures !ok ==> buf == old(buf)
      ensures buf == old(buf) || fresh(buf)
    {
      if end < buf.Length {
        return true;
      }
      if start > 0 {
        Compact();
        if end < buf.Length {
          return true;
        }
      }
      var cur := buf.Length;
      if cur == 0 {
        cur := DEFAULT_SIZE;
      }
      var newLen := cur * 2;
      if newLen > MAX_SIZE {
        newLen := MAX_SIZE;
      }
      if newLen <= buf.Length {
        return false;
      }
      var nb := new byte[newLen];
      forall i | 0 <= i < end - start {
        nb[i] := buf[start + i];
      }
      assert nb[..end - start] == buf[start..end];
      end := end - start;
      start := 0;
      buf := nb;
      ok := true;
    }

    // The read into what is left of the buffer.
    method ReadInto(r: Reader) returns (err: bool, ghost bytes: seq<byte>)
      requires Valid() && end < buf.Length
      modifies `end, buf, r
      ensures Valid() && Window() == old(Window()) + bytes
      ensures Takes(old(r.coming), old(buf.Length - end), bytes, err, r.coming)
    {
      hide Takes;
      ghost var window := Window();
      var n;
      n, err := r.Read(buf, end);
      bytes := buf[end..end + n];
      assert buf[start..end] == window;
      Joined(buf, start, end - start, n);
      if n > 0 {
        end := end + n;
      }
    }

    /** readMore: what the reader gave is appended, also when it reports an error with it. Only a
        full buffer of the largest size keeps it from reading. */
    method ReadMore(r: Reader) returns (err: bool, ghost full: bool, ghost space: nat, ghost bytes: seq<byte>)
      requires Valid()
      modifies this, buf, r
      ensures Valid() && Window() == old(Window()) + bytes
      ensures buf == old(buf) || fresh(buf)
      ensures full <==> old(|Window()|) == old(buf.Length) && MAX_SIZE <= old(buf.Length)
      ensures full ==> err && bytes == [] && r.coming == old(r.coming) && buf == old(buf)
      ensures !full ==> 0 < space && Takes(old(r.coming), space, bytes, err, r.coming)
      ensures old(end < buf.Length) ==> space == old(buf.Length - end)
      ensures old(buf.Length) <= buf.Length
    {
      hide Takes;
      space, bytes := buf.Length, [];
      var ok := EnsureWriteSpace();
      full := !ok;
      if !ok {
        return true, full, space, bytes;
      }
      space := buf.Length - end;
      err, bytes := ReadInto(r);
    }

    /** response.feed, for a response whose body is being decoded. */
    method Feed(response: R.Response, pooled: array?<byte>, ghost stream: seq<byte>, ghost pos: nat)
      returns (consumed: int, done: bool)
      requires Valid() && Feeds(response, pooled) && response.body
      requires R.Onward(stream, pos, response.Contents(), response.state) && Window() == stream[pos..]
      modifies response, response.data, pooled
      ensures Feeds(response, pooled) && Window() == old(Window())
      ensures response.data == old(response.data) || response.data == pooled || fresh(response.data)
      ensures done <==> !response.body
      ensures consumed <= |Window()| && pos <= |stream|
      ensures !done ==> 0 <= consumed && R.Onward(stream, pos + consumed, response.Contents(), response.state)
      ensures done ==> R.Ended(stream, response.Contents(), pos + consumed)
      ensures done && consumed < 0 ==> R.SplitSomewhere(stream)
      ensures !done && consumed == 0 ==> NothingLeft(response, stream, pos)
      ensures old(CutShort(response, stream, pos)) ==> !done && consumed == 0 && CutShort(response, stream, pos)
      ensures FedOn(stream, pos, old(response.len), old(response.Capacity(pooled)), pos + consumed,
        response.len, response.Capacity(pooled), done)
    {
      hide R.Ended, R.Onward, R.Fed, R.SplitSomewhere, R.Leftover, NothingLeft, R.IsStuck, CutShort, FedOn;
      ghost var contents, q := response.Contents(), response.state;
      ghost var cut, capacity := CutShort(response, stream, pos), response.Capacity(pooled);
      OnwardState(stream, pos, contents, q);
      if cut {
        CutPortion(response, pooled, stream, pos);
      }
      ghost var slice, out;
      consumed, slice, out := response.DecodeYenc(pooled, buf[start..end]);
      done := !response.body;
      ghost var report := R.Report(consumed, response.state, response.body);
      AfterFeed(response, stream, pos, contents, q, slice, out, report);
      FeedKept(stream, pos, contents, q, slice, out, report, |contents|, capacity, response.len, response.Capacity(pooled));
      if cut {
        R.StuckIsSilent(q, slice, out, report);
        StillCutShort(response, stream, pos, slice);
      }
    }

    static lemma FeedKept(stream: seq<byte>, pos: nat, contents: seq<byte>, q: State, slice: seq<byte>, out: seq<byte>,
        report: R.Report, len: nat, capacity: nat, newLen: nat, newCapacity: nat)
      requires R.Onward(stream, pos, contents, q) && pos <= |stream| && slice <= stream[pos..]
      requires R.Fed(q, slice, out, report) && len <= capacity
      requires newLen == len + |out| && (len < capacity ==> newCapacity == capacity)
      requires len + |slice| <= newCapacity
      requires slice != stream[pos..] ==> len + |slice| == newCapacity && len < capacity + |slice|
      requires report.body ==>
        0 <= report.consumed <= |slice| && R.Leftover(slice[report.consumed..]) && |out| <= report.consumed
      ensures FedOn(stream, pos, len, capacity, pos + report.consumed, newLen, newCapacity, !report.body)
    {
      hide R.Leftover, Decode;
      if slice == stream[pos..] {
        assert report.body ==> slice[report.consumed..] == stream[pos + report.consumed..];
      } else {
        assert stream[pos..] == slice + stream[pos + |slice|..];
      }
      DecodeConcat(q, slice, stream[pos + |slice|..]);
      assert stream[pos..] == slice + stream[pos + |slice|..];
      if !report.body && Decode(q, slice).end == EndControl {
        R.ControlIsSilent(q, slice);
      }
    }

    static lemma AfterFeed(response: R.Response, stream: seq<byte>, pos: nat, contents: seq<byte>, q: State,
        slice: seq<byte>, out: seq<byte>, report: R.Report)
      requires response.Valid() && R.Onward(stream, pos, contents, q) && pos <= |stream| && slice <= stream[pos..]
      requires response.Contents() == contents + out && R.Fed(q, slice, out, report)
      requires report.state == response.state && report.body == response.body
      requires slice == [] ==> stream[pos..] == []
      requires slice != [] && report.body ==> (report.consumed == 0 <==> R.IsStuck(q, slice))
      requires slice != [] && report.body && report.consumed == 0 ==> report.state == StateCRLF
      requires slice != stream[pos..] ==> response.data != null && |contents| + |slice| == response.data.Length
      ensures report.consumed <= |stream| - pos
      ensures report.body ==>
        0 <= report.consumed && R.Onward(stream, pos + report.consumed, response.Contents(), response.state)
      ensures !report.body ==> R.Ended(stream, response.Contents(), pos + report.consumed)
      ensures !report.body && report.consumed < 0 ==> R.SplitSomewhere(stream)
      ensures report.body && report.consumed == 0 ==> NothingLeft(response, stream, pos)
    {
      hide R.Ended, R.Onward, R.Fed, R.SplitSomewhere, NothingLeft, R.IsStuck;
      R.FedBounds(q, slice, out, report);
      assert stream[pos..pos + |slice|] == slice;
      R.OnwardFed(stream, pos, contents, q, |slice|, out, report);
      if !report.body && report.consumed < 0 {
        R.SplitIsSomewhere(stream, pos, contents, q, |slice|, out, report);
      }
      if report.body && report.consumed == 0 {
        Stuck(response, stream, pos, contents, q, slice, out, report);
      }
    }

    /** All that the stream decodes to is in the response, and the stream has not ended. */
    static ghost predicate Drained(response: R.Response, stream: seq<byte>)
      requires response.Valid()
      reads response, response.data
    {
      Decode(StateCRLF, stream).Live? && response.Contents() == Decode(StateCRLF, stream).out
    }

    /** Data has room for one or two bytes only, and the stream goes on with an `=` or a CR LF there
        and something after it. */
    static ghost predicate CutShort(response: R.Response, stream: seq<byte>, pos: nat)
      requires response.Valid()
      reads response, response.data
    {
      && response.data != null && response.state == StateCRLF && pos <= |stream|
      && var space := response.data.Length - response.len;
        space < |stream| - pos && R.IsStuck(StateCRLF, stream[pos..pos + space])
    }

    // Why a feed may have consumed nothing.
    static ghost predicate NothingLeft(response: R.Response, stream: seq<byte>, pos: nat)
      requires response.Valid()
      reads response, response.data
    {
      (Drained(response, stream) && |stream| <= pos + 2) || CutShort(response, stream, pos)
    }

    static lemma Stuck(response: R.Response, stream: seq<byte>, pos: nat, contents: seq<byte>, q: State,
        slice: seq<byte>, out: seq<byte>, report: R.Report)
      requires response.Valid() && R.Onward(stream, pos, contents, q) && slice <= stream[pos..]
      requires response.Contents() == contents + out
      requires R.Fed(q, slice, out, report) && report.consumed == 0 && report.body && report.state == response.state
      requires slice == [] ==> stream[pos..] == []
      requires slice != [] ==> R.IsStuck(q, slice) && response.state == StateCRLF
      requires slice != stream[pos..] ==> response.data != null && |contents| + |slice| == response.data.Length
      ensures NothingLeft(response, stream, pos)
    {
      assert contents + [] == contents;
      if slice == [] {
        R.AllConsumed(stream, contents, q);
      } else {
        R.StuckIsSilent(q, slice, out, report);
        if slice == stream[pos..] {
          R.AllDecoded(stream, pos, contents, q);
        } else {
          assert stream[pos..pos + |slice|] == slice;
        }
      }
    }

    // What a feed of a response that is cut short decodes.
    static lemma CutPortion(response: R.Response, pooled: array?<byte>, stream: seq<byte>, pos: nat)
      requires response.Valid() && CutShort(response, stream, pos)
      ensures response.state == StateCRLF && response.len < response.Capacity(pooled) == response.data.Length
      ensures R.IsStuck(StateCRLF, stream[pos..][..response.Portion(pooled, |stream[pos..]|)])
      ensures response.Portion(pooled, |stream[pos..]|) == response.data.Length - response.len < |stream| - pos
    {
      var space := response.data.Length - response.len;
      assert stream[pos..][..space] == stream[pos..pos + space];
    }

    static lemma StillCutShort(response: R.Response, stream: seq<byte>, pos: nat, slice: seq<byte>)
      requires response.Valid() && response.data != null && response.state == StateCRLF && pos <= |stream|
      requires |slice| == response.data.Length - response.len < |stream| - pos
      requires slice == stream[pos..][..|slice|] && R.IsStuck(StateCRLF, slice)
      ensures CutShort(response, stream, pos)
    {
      assert stream[pos..pos + |slice|] == slice;
    }

    /** Once cut short, reading on does not help: the room left is for the same stuck bytes. */
    static lemma CutShortStays(response: R.Response, stream: seq<byte>, longer: seq<byte>, pos: nat)
      requires response.Valid() && CutShort(response, stream, pos) && stream <= longer
      ensures CutShort(response, longer, pos)
    {
      var space := response.data.Length - response.len;
      assert longer[pos..pos + space] == stream[pos..pos + space];
    }

    /** It takes a buffer smaller than the body: where the whole body and three bytes fit, no
        response is ever cut short. */
    static lemma RoomForAll(response: R.Response, stream: seq<byte>, pos: nat)
      requires response.Valid() && response.Sized() && CutShort(response, stream, pos)
      requires R.Onward(stream, pos, response.Contents(), response.state)
      ensures response.ComputeExpectedSize() <= |Decode(StateCRLF, stream).out| + 2
    {
      R.OnwardLength(stream, pos, response.Contents(), response.state);
    }

    // The response and the buffer do not share storage.
    ghost predicate Feeds(response: R.Response, pooled: array?<byte>)
      reads `buf, response, response.data, response.lut
    {
      && buf != response.data && buf != pooled
      && response.Valid() && response.Sized() && response.Accounted() && response.Ready()
    }

    /** Between feeds: what has been read and not consumed is the window, and the response has
        decoded all the rest. */
    ghost predicate InStep(response: R.Response, pooled: array?<byte>, stream: seq<byte>, pos: nat)
      reads this, buf, response, response.data, response.lut
    {
      && Valid() && Feeds(response, pooled) && response.body
      && R.Onward(stream, pos, response.Contents(), response.state)
      && pos <= |stream| && Window() == stream[pos..]
    }

    /** After the body: the window begins with the marker that ended it. */
    ghost predicate Finished(response: R.Response, pooled: array?<byte>, stream: seq<byte>, pos: nat)
      reads this, buf, response, response.data, response.lut
    {
      && Valid() && Feeds(response, pooled) && !response.body
      && R.Ended(stream, response.Contents(), pos)
      && pos <= |stream| && Window() == stream[pos..]
    }

    method FeedAndAdvance(response: R.Response, pooled: array?<byte>, ghost stream: seq<byte>, ghost pos: nat)
      returns (consumed: int, done: bool)
      requires InStep(response, pooled, stream, pos)
      modifies `start, `end, response, response.data, pooled
      ensures Valid() && |Window()| <= old(|Window()|)
      ensures !done ==> 0 <= consumed && InStep(response, pooled, stream, pos + consumed)
      ensures !done && 0 < consumed ==> 0 <= end - start < old(end - start)
      ensures !done && (consumed == 0 || start == end) ==> NothingLeft(response, stream, pos + consumed)
      ensures old(CutShort(response, stream, pos)) ==> !done && consumed == 0 && CutShort(response, stream, pos)
      ensures done && 0 <= consumed ==> Finished(response, pooled, stream, pos + consumed)
      ensures done ==> !response.body && Feeds(response, pooled) && R.Ended(stream, response.Contents(), pos + consumed)
      ensures done && consumed < 0 ==> R.SplitSomewhere(stream)
      ensures FedOn(stream, pos, old(response.len), old(response.Capacity(pooled)), pos + consumed,
        response.len, response.Capacity(pooled), done)
      ensures response.data == old(response.data) || response.data == pooled || fresh(response.data)
    {
      hide R.Ended, R.Onward, R.SplitSomewhere, CutShort, FedOn;
      consumed, done := Feed(response, pooled, stream, pos);
      assert Window() == stream[pos..];
      if consumed > 0 {
        assert stream[pos..][consumed..] == stream[pos + consumed..];
        Advance(consumed);
        if !done && start == end {
          R.AllConsumed(stream, response.Contents(), response.state);
        }
      }
    }

    ghost predicate Full()
      requires Valid()
      reads this, buf
    {
      |Window()| == buf.Length && MAX_SIZE <= buf.Length
    }

    /** Between feeds of one call, also: the books are kept. */
    ghost predicate Going(call: Call, r: Reader, response: R.Response, pooled: array?<byte>, stream: seq<byte>, pos: nat)
      reads this, buf, r, response, response.data, response.lut
    {
      && InStep(response, pooled, stream, pos)
      && Tally(call.script, call.seen, r.coming, stream)
      && call.size <= buf.Length
      && OnTrack(call, r.coming, stream, pos, response.len, response.Capacity(pooled), CutShort(response, stream, pos))
    }

    /** How a call may fail: no more can be read. The response has decoded all that was read before
        the error, unless it was cut short; what came with the error is left in the window. */
    ghost predicate Failed(call: Call, r: Reader, response: R.Response, pooled: array?<byte>,
        stream: seq<byte>, pos: nat, fed: seq<byte>)
      reads this, buf, r, response, response.data, response.lut
    {
      && InStep(response, pooled, stream, pos)
      && (Drained(response, fed) || CutShort(response, fed, pos))
      && (|| Lost(call.script, call.seen, r.coming, fed, stream)
          || (Tally(call.script, call.seen, r.coming, stream) && fed == stream && Full() && CutShort(response, fed, pos)))
      && (call.Prompt() && !CutShort(response, fed, pos) ==> fed == call.Given())
      && (call.Ample() ==> !CutShort(response, fed, pos))
    }

    /** How feedUntilDone may end: at the end of the body; where the decoder gave back too much; or
        with a read that failed. */
    ghost predicate Concluded(outcome: Outcome, call: Call, r: Reader, response: R.Response, pooled: array?<byte>,
        stream: seq<byte>, pos: nat, fed: seq<byte>)
      reads this, buf, r, response, response.data, response.lut
    {
      match outcome
      case Done =>
        && Finished(response, pooled, stream, pos)
        && Tally(call.script, call.seen, r.coming, stream) && Ending(call, stream, response.len, false)
      case OutOfRange =>
        && !response.body && R.SplitSomewhere(stream)
        && Tally(call.script, call.seen, r.coming, stream) && Ending(call, stream, response.len, true)
      case ReadFailed => Failed(call, r, response, pooled, stream, pos, fed)
    }

    // Cut short: Data does not take what has been read.
    static lemma CutIsNotRoomy(response: R.Response, pooled: array?<byte>, stream: seq<byte>, pos: nat)
      requires response.Valid() && CutShort(response, stream, pos)
      ensures response.Capacity(pooled) + pos < response.len + |stream|
    {
    }

    // readMore, seen from the decoder.
    method ReadOn(r: Reader, response: R.Response, pooled: array?<byte>, ghost call: Call,
        ghost stream: seq<byte>, ghost pos: nat)
      returns (err: bool, ghost longer: seq<byte>)
      requires Going(call, r, response, pooled, stream, pos) && NothingLeft(response, stream, pos) && start == 0
      requires call.Ample() ==> Marked(call, r.coming, stream, pos, |stream|)
      modifies this, buf, r
      ensures if err then Failed(call, r, response, pooled, longer, pos, stream)
        else Going(call, r, response, pooled, longer, pos)
      ensures stream <= longer && (buf == old(buf) || fresh(buf))
      ensures err || Size(r.coming) < old(Size(r.coming))
      ensures !err && CutShort(response, stream, pos) ==> CutShort(response, longer, pos)
    {
      hide R.Onward, Tally, Lost, Takes, Drained, CutShort, Marked, Punctual, FailureFits, AllFit, OnTrack, Size;
      ghost var coming, cut := r.coming, CutShort(response, stream, pos);
      ghost var full, space, bytes;
      err, full, space, bytes := ReadMore(r);
      longer := stream + bytes;
      R.OnwardArrives(stream, bytes, pos, response.Contents(), response.state);
      assert longer[pos..] == stream[pos..] + bytes;
      if cut {
        CutShortStays(response, stream, longer, pos);
        CutIsNotRoomy(response, pooled, stream, pos);
      }
      if full {
        assert longer == stream;
        CutIsNotAmple(call, coming, stream, pos, response.len, response.Capacity(pooled), cut);
      } else {
        ReadInBooks(call, coming, stream, pos, response.len, response.Capacity(pooled), cut, space, bytes, err, r.coming,
          CutShort(response, longer, pos));
      }
    }

    // Something to feed, if there is anything.
    method ReadIfEmpty(r: Reader, response: R.Response, pooled: array?<byte>, ghost call: Call,
        ghost stream: seq<byte>, ghost pos: nat)
      returns (err: bool, ghost longer: seq<byte>)
      requires Going(call, r, response, pooled, stream, pos)
      modifies this, buf, r
      ensures if err then Failed(call, r, response, pooled, longer, pos, stream)
        else Going(call, r, response, pooled, longer, pos)
      ensures stream <= longer && (buf == old(buf) || fresh(buf))
      ensures err || Size(r.coming) < old(Size(r.coming))
        || (r.coming == old(r.coming) && start == old(start) && end == old(end) && start < end)
      ensures !err && CutShort(response, stream, pos) ==> CutShort(response, longer, pos)
    {
      hide R.Onward, Tally, Failed, Marked, OnTrack, CutShort, Size;
      err, longer := false, stream;
      if start == end {
        R.AllConsumed(stream, response.Contents(), response.state);
        MarkedHere(call, r.coming, stream, response.len, response.Capacity(pooled), CutShort(response, stream, pos));
        start, end := 0, 0;
        err, longer := ReadOn(r, response, pooled, call, stream, pos);
      }
    }

    // The decoder needs more than there is.
    method NeedMore(r: Reader, response: R.Response, pooled: array?<byte>, ghost call: Call, consumed: int,
        ghost stream: seq<byte>, ghost pos: nat)
      returns (err: bool, ghost longer: seq<byte>)
      requires Going(call, r, response, pooled, stream, pos) && NothingLeft(response, stream, pos)
      requires call.Ample() ==> Marked(call, r.coming, stream, pos, |stream|)
      requires consumed == 0 || start == end
      modifies this, buf, r
      ensures if err then Failed(call, r, response, pooled, longer, pos, stream)
        else Going(call, r, response, pooled, longer, pos)
      ensures stream <= longer && (buf == old(buf) || fresh(buf))
      ensures err || Size(r.coming) < old(Size(r.coming))
      ensures !err && CutShort(response, stream, pos) ==> CutShort(response, longer, pos)
    {
      hide R.Onward, Tally, Failed, Marked, OnTrack, CutShort, NothingLeft, Size;
      if consumed == 0 && end - start > 0 {
        Compact();
      }
      err, longer := ReadOn(r, response, pooled, call, stream, pos);
    }

    // Feeding and advancing, with the books.
    method FeedWindow(r: Reader, response: R.Response, pooled: array?<byte>, ghost call: Call,
        ghost stream: seq<byte>, ghost pos: nat)
      returns (consumed: int, done: bool)
      requires Going(call, r, response, pooled, stream, pos)
      modifies `start, `end, response, response.data, pooled
      ensures Valid() && |Window()| <= old(|Window()|)
      ensures !done ==> 0 <= consumed && Going(call, r, response, pooled, stream, pos + consumed)
      ensures !done && call.Ample() ==> Marked(call, r.coming, stream, pos + consumed, |stream|)
      ensures !done && 0 < consumed ==> 0 <= end - start < old(end - start)
      ensures !done && (consumed == 0 || start == end) ==> NothingLeft(response, stream, pos + consumed)
      ensures old(CutShort(response, stream, pos)) ==> !done && consumed == 0 && CutShort(response, stream, pos)
      ensures done && 0 <= consumed ==> Concluded(Done, call, r, response, pooled, stream, pos + consumed, stream)
      ensures done && consumed < 0 ==> Concluded(OutOfRange, call, r, response, pooled, stream, pos, stream)
      ensures response.data == old(response.data) || response.data == pooled || fresh(response.data)
    {
      hide R.Ended, R.Onward, R.SplitSomewhere, CutShort, FedOn, Tally, OnTrack, Marked, NothingLeft, Ending;
      ghost var len, capacity, cut := response.len, response.Capacity(pooled), CutShort(response, stream, pos);
      consumed, done := FeedAndAdvance(response, pooled, stream, pos);
      if done {
        TrackEnds(call, r.coming, stream, pos, len, capacity, response.Contents(), consumed,
          response.len, response.Capacity(pooled));
      } else {
        TrackFeeds(call, r.coming, stream, pos, len, capacity, cut, pos + consumed,
          response.len, response.Capacity(pooled), CutShort(response, stream, pos + consumed));
      }
    }

    // The loop's body, once there is something to feed.
    method FeedOrRead(r: Reader, response: R.Response, pooled: array?<byte>, ghost call: Call,
        ghost stream: seq<byte>, ghost pos: nat)
      returns (over: bool, outcome: Outcome, ghost longer: seq<byte>, ghost next: nat)
      requires Going(call, r, response, pooled, stream, pos)
      modifies this, buf, r, response, response.data, pooled
      ensures if over then Concluded(outcome, call, r, response, pooled, longer, next, stream)
        else Going(call, r, response, pooled, longer, next)
      ensures !over ==>
        (Size(r.coming) < old(Size(r.coming)) || (r.coming == old(r.coming) && 0 <= end - start < old(end - start)))
      ensures old(CutShort(response, stream, pos)) ==>
        if over then outcome == ReadFailed else CutShort(response, longer, next)
      ensures buf == old(buf) || fresh(buf)
      ensures response.data == old(response.data) || response.data == pooled || fresh(response.data)
    {
      hide R.Onward, Tally, OnTrack, Marked, CutShort, NothingLeft, Failed, Finished, Ending, R.SplitSomewhere, Size;
      over, outcome, longer, next := true, ReadFailed, stream, pos;
      var consumed, done := FeedWindow(r, response, pooled, call, stream, pos);
      if done && consumed < 0 {
        outcome := OutOfRange;
        return;
      }
      next := pos + consumed;
      if done {
        outcome := Done;
        return;
      }
      if consumed > 0 && start < end {
        over := false;
        return;
      }
      over, longer := NeedMore(r, response, pooled, call, consumed, stream, next);
    }

    // Once round the loop.
    method FeedOnce(r: Reader, response: R.Response, pooled: array?<byte>, ghost call: Call,
        ghost stream: seq<byte>, ghost pos: nat)
      returns (over: bool, outcome: Outcome, ghost longer: seq<byte>, ghost next: nat, ghost fed: seq<byte>)
      requires Going(call, r, response, pooled, stream, pos)
      modifies this, buf, r, response, response.data, pooled
      ensures if over then Concluded(outcome, call, r, response, pooled, longer, next, fed)
        else Going(call, r, response, pooled, longer, next)
      ensures !over ==>
        (Size(r.coming) < old(Size(r.coming)) || (r.coming == old(r.coming) && 0 <= end - start < old(end - start)))
      ensures old(CutShort(response, stream, pos)) ==>
        if over then outcome == ReadFailed else CutShort(response, longer, next)
      ensures buf == old(buf) || fresh(buf)
      ensures response.data == old(response.data) || response.data == pooled || fresh(response.data)
    {
      hide R.Onward, Tally, OnTrack, CutShort, Failed, Finished, Ending, R.SplitSomewhere, Size;
      over, outcome, next, fed := true, ReadFailed, pos, stream;
      var err;
      err, longer := ReadIfEmpty(r, response, pooled, call, stream, pos);
      if err {
        return;
      }
      fed := longer;
      over, outcome, longer, next := FeedOrRead(r, response, pooled, call, longer, pos);
    }

    /** feedUntilDone, as far as the end of a body. The stream is all that has been read, before
        the call or in it; of what was read before, the first `at` bytes had been consumed. */
    method FeedUntilDone(r: Reader, response: R.Response, pooled: array?<byte>, ghost seen: seq<byte>, ghost at: nat)
      returns (outcome: Outcome, ghost stream: seq<byte>, ghost pos: nat, ghost fed: seq<byte>)
      requires InStep(response, pooled, seen, at)
      modifies this, buf, r, response, response.data, pooled
      ensures Concluded(outcome,
        old(Call(r.coming, seen, at, Capacity(), response.Capacity(pooled), response.len)),
        r, response, pooled, stream, pos, fed)
      // what is cut short stays so
      ensures old(CutShort(response, seen, at)) ==> outcome == ReadFailed
      ensures response.data == old(response.data) || response.data == pooled || fresh(response.data)
    {
      hide R.Onward, Tally, OnTrack, CutShort, Failed, Finished, Ending, R.SplitSomewhere, Size;
      ghost var cut := CutShort(response, seen, at);
      ghost var call := Call(r.coming, seen, at, Capacity(), response.Capacity(pooled), response.len);
      outcome, stream, pos, fed := ReadFailed, seen, at, seen;
      Init();
      TallyStart(r.coming, seen);
      TrackStart(call, cut);
      var over := false;
      while !over
        invariant if over then Concluded(outcome, call, r, response, pooled, stream, pos, fed)
          else Going(call, r, response, pooled, stream, pos)
        invariant cut ==> if over then outcome == ReadFailed else CutShort(response, stream, pos)
        invariant fresh(buf) || buf == old(buf)
        invariant response.data == old(response.data) || response.data == pooled || fresh(response.data)
        decreases !over, Size(r.coming), end - start
      {
        over, outcome, stream, pos, fed := FeedOnce(r, response, pooled, call, stream, pos);
      }
    }
  }

  // What was given without an error is in the stream, or will be.
  ghost function Reached(call: Call, coming: seq<Delivery>, stream: seq<byte>): (g: seq<byte>)
    ensures stream <= g
  {
    if Tally(call.script, call.seen, coming, stream) then stream + Safe(coming) else stream
  }

  lemma ReachedHolds(rb: ReadBuffer, outcome: Outcome, call: Call, r: Reader, response: R.Response, pooled: array?<byte>,
      stream: seq<byte>, pos: nat, fed: seq<byte>)
    requires rb.Concluded(outcome, call, r, response, pooled, stream, pos, fed)
    ensures call.Given() <= Reached(call, r.coming, stream)
  {
    hide Ending, R.Ended, R.Onward, Decode;
  }

  /** However the stream was cut into reads: where the bytes that come without an error hold a
      control line, the call delivers their one-shot decoding with its checksum and length, and
      leaves the window at that line's `=y`, unless the response is cut short; and it is not where
      its buffer, sized from the headers, takes three bytes more than the body. */
  lemma BodyDelivered(rb: ReadBuffer, outcome: Outcome, call: Call, r: Reader, response: R.Response, pooled: array?<byte>,
      stream: seq<byte>, pos: nat, fed: seq<byte>)
    requires rb.Concluded(outcome, call, r, response, pooled, stream, pos, fed)
    requires Decode(StateCRLF, call.Given()).Halted? && Decode(StateCRLF, call.Given()).end == EndControl
    ensures response.Valid()
    ensures outcome == Done || (outcome == ReadFailed && ReadBuffer.CutShort(response, fed, pos))
    ensures var t := Decode(StateCRLF, call.Given());
      && (|t.out| + 3 <= response.ComputeExpectedSize() ==> outcome == Done)
      && (outcome == Done ==>
            && response.Contents() == t.out
            && response.crc == Crc.Update(0, t.out) && response.bytesProduced == |t.out|
            && rb.Valid() && R.CONTROL_MARK <= rb.Window())
  {
    hide Tally, Lost, Safe, Flat, Reach, Decode, ReadBuffer.CutShort, R.Onward, Reached, Ending;
    var reached := Reached(call, r.coming, stream);
    ReachedHolds(rb, outcome, call, r, response, pooled, stream, pos, fed);
    EndStays(call.Given(), reached);
    EndStays(stream, reached);
    if outcome == ReadFailed {
      FedHolds(rb, call, r, response, pooled, stream, pos, fed);
      CutAtMost(rb, call, r, response, pooled, stream, pos, fed);
    } else {
      R.ControlBegins(stream, response.Contents(), pos);
      assert stream[pos..][..2] == stream[pos..pos + 2];
    }
  }

  // Where the read failed, all that came without an error had been fed.
  lemma FedHolds(rb: ReadBuffer, call: Call, r: Reader, response: R.Response, pooled: array?<byte>,
      stream: seq<byte>, pos: nat, fed: seq<byte>)
    requires rb.Failed(call, r, response, pooled, stream, pos, fed)
    requires Decode(StateCRLF, call.Given()).Halted?
    ensures response.Valid() && ReadBuffer.CutShort(response, fed, pos) && fed <= stream
  {
    hide Decode;
    if Lost(call.script, call.seen, r.coming, fed, stream) {
      EndStays(call.Given(), fed);
    }
  }

  lemma CutAtMost(rb: ReadBuffer, call: Call, r: Reader, response: R.Response, pooled: array?<byte>,
      stream: seq<byte>, pos: nat, fed: seq<byte>)
    requires rb.Failed(call, r, response, pooled, stream, pos, fed)
    requires response.Valid() && ReadBuffer.CutShort(response, fed, pos) && fed <= stream
    ensures response.ComputeExpectedSize() <= |Decode(StateCRLF, stream).out| + 2
  {
    ReadBuffer.CutShortStays(response, fed, stream, pos);
    ReadBuffer.RoomForAll(response, stream, pos);
  }

  /** Where not even the bytes that come with the first error complete an end, the read fails. */
  lemma NothingDelivered(rb: ReadBuffer, outcome: Outcome, call: Call, r: Reader, response: R.Response, pooled: array?<byte>,
      stream: seq<byte>, pos: nat, fed: seq<byte>)
    requires rb.Concluded(outcome, call, r, response, pooled, stream, pos, fed)
    requires Decode(StateCRLF, call.Within()).Live?
    ensures outcome == ReadFailed
  {
    hide Decode;
    if outcome != ReadFailed {
      EndStays(stream, call.Within());
    }
  }

  /** Exactly when an end is found, where the delivery with the first error is read at once: when the
      bytes before that delivery hold one. Otherwise those are the bytes decoded. Only a response that
      is cut short is an exception. */
  lemma DeliveredWhen(rb: ReadBuffer, outcome: Outcome, call: Call, r: Reader, response: R.Response, pooled: array?<byte>,
      stream: seq<byte>, pos: nat, fed: seq<byte>)
    requires rb.Concluded(outcome, call, r, response, pooled, stream, pos, fed) && call.Prompt()
    ensures outcome == ReadFailed ==> response.Valid()
    ensures var t := Decode(StateCRLF, call.Given());
      || (outcome == ReadFailed && ReadBuffer.CutShort(response, fed, pos))
      || (&& (outcome != ReadFailed <==> t.Halted?)
          && (outcome == ReadFailed ==> fed == call.Given() && response.Contents() == t.out))
  {
    hide Decode;
    if outcome != ReadFailed {
      EndStays(stream, call.Given());
    }
  }

  /** And where every delivery is read at once and Data takes all that is read: a terminator gives
      back too much exactly when a delivery ends inside it. */
  lemma ArticleWhen(rb: ReadBuffer, outcome: Outcome, call: Call, r: Reader, response: R.Response, pooled: array?<byte>,
      stream: seq<byte>, pos: nat, fed: seq<byte>)
    requires rb.Concluded(outcome, call, r, response, pooled, stream, pos, fed) && call.Ample()
    requires Decode(StateCRLF, call.Given()).Halted? && Decode(StateCRLF, call.Given()).end == EndArticle
    ensures outcome == if call.Splits(Decode(StateCRLF, call.Given()).used) then OutOfRange else Done
  {
    hide Decode, Boundary;
    AllFitFailure(call.script, if call.at == |call.seen| then 0 else 2, call.size);
    DeliveredWhen(rb, outcome, call, r, response, pooled, stream, pos, fed);
    if outcome != ReadFailed {
      EndStays(stream, call.Given());
    }
  }

  /** A body that would leave room for one byte is never delivered, however it comes. */
  lemma NeverDelivered(rb: ReadBuffer, outcome: Outcome, call: Call, r: Reader, response: R.Response, pooled: array?<byte>,
      stream: seq<byte>, pos: nat, fed: seq<byte>)
    requires rb.Concluded(outcome, call, r, response, pooled, stream, pos, fed)
    requires Decode(StateCRLF, call.Given()).Halted? && Decode(StateCRLF, call.Given()).end == EndControl
    requires |Decode(StateCRLF, call.Given()).out| + 1 == call.capacity
    ensures outcome == ReadFailed && response.Valid() && ReadBuffer.CutShort(response, fed, pos)
  {
    hide Decode, Tally, Reached, ReadBuffer.CutShort, R.Onward;
    BodyDelivered(rb, outcome, call, r, response, pooled, stream, pos, fed);
    if outcome == Done {
      var reached := Reached(call, r.coming, stream);
      ReachedHolds(rb, outcome, call, r, response, pooled, stream, pos, fed);
      EndStays(call.Given(), reached);
      EndStays(stream, reached);
    }
  }

  /** A response from its first byte: Decoder.Next, for a body. */
  method DecodeBody(rb: ReadBuffer, r: Reader, partSize: int, fileSize: int, vector: bool, lut: array2<byte>,
      pooled: array?<byte>)
    returns (response: R.Response, outcome: Outcome, ghost call: Call, ghost stream: seq<byte>, ghost pos: nat,
      ghost fed: seq<byte>)
    requires rb.Valid() && rb.buf != pooled && (vector ==> CompactLut.IsCompactLut(lut))
    modifies rb, rb.buf, r, pooled
    ensures fresh(response) && response.partSize == partSize && response.fileSize == fileSize
    ensures response.vector == vector && response.lut == lut
    ensures call
      == Call(old(r.coming), old(rb.Window()), 0, old(rb.Capacity()), response.FirstCapacity(pooled), 0)
    ensures rb.Concluded(outcome, call, r, response, pooled, stream, pos, fed)
    ensures var t := Decode(StateCRLF, call.Given());
      t.Halted? && t.end == EndControl && |t.out| + 3 <= response.ComputeExpectedSize() ==>
        && outcome == Done && response.Valid() && response.Contents() == t.out
        && response.crc == Crc.Update(0, t.out) && response.bytesProduced == |t.out|
        && rb.Valid() && R.CONTROL_MARK <= rb.Window()
  {
    hide Decode, Safe, Crc.Update, R.Onward, CompactLut.IsCompactLut;
    response := new R.Response(partSize, fileSize, vector, lut);
    ghost var seen := rb.Window();
    call := Call(r.coming, seen, 0, rb.Capacity(), response.FirstCapacity(pooled), 0);
    R.OnwardStart(seen);
    assert seen[0..] == seen;
    outcome, stream, pos, fed := rb.FeedUntilDone(r, response, pooled, seen, 0);
    if Decode(StateCRLF, call.Given()).Halted? && Decode(StateCRLF, call.Given()).end == EndControl {
      BodyDelivered(rb, outcome, call, r, response, pooled, stream, pos, fed);
    }
  }

  /** For one: an empty body, delivered all at once and together with an error, is lost. */
  method LossExample(lut: array2<byte>) returns (response: R.Response, outcome: Outcome)
    ensures Decode(StateCRLF, NEWLINE + R.CONTROL_MARK) == Halted([], StateNone, EndControl, 4)
    ensures outcome == ReadFailed && response.Valid() && response.body && response.Contents() == []
  {
    hide R.Onward;
    EmptyBody();
    var r := new Reader([Delivery(NEWLINE + R.CONTROL_MARK, true)]);
    var rb := new ReadBuffer(1024);
    ghost var call, stream, pos, fed;
    response, outcome, call, stream, pos, fed := DecodeBody(rb, r, 0, 0, false, lut, null);
    assert call.Given() == [];
    DeliveredWhen(rb, outcome, call, r, response, null, stream, pos, fed);
  }

  lemma EmptyBody()
    ensures Decode(StateCRLF, NEWLINE + R.CONTROL_MARK) == Halted([], StateNone, EndControl, 4)
  {
    var s := NEWLINE + R.CONTROL_MARK;
    RunNext(StateCRLF, s, 0, [], StateCRLF);
    RunNext(StateCRLF, s, 1, [], StateCR);
    RunNext(StateCRLF, s, 2, [], StateCRLF);
    RunNext(StateCRLF, s, 3, [], StateCRLFEQ);
  }

  /** For one: a terminator alone, in one delivery and in two. */
  method SplitRunExample(lut: array2<byte>) returns (whole: Outcome, halves: Outcome)
    ensures whole == Done && halves == OutOfRange
  {
    var response;
    whole, response := TerminatorIn([Delivery(R.TERMINATOR, false)], lut);
    var halved := [Delivery([DOT], false), Delivery(NEWLINE, false)];
    assert halved[1..] == [Delivery(NEWLINE, false)] && halved[1..][1..] == [];
    assert Safe(halved[1..]) == Flat(halved[1..]) == NEWLINE;
    halves, response := TerminatorIn(halved, lut);
  }

  method TerminatorIn(script: seq<Delivery>, lut: array2<byte>) returns (outcome: Outcome, response: R.Response)
    requires Safe(script) == Flat(script) == R.TERMINATOR && AllFit(script, 1024)
    ensures outcome == if Boundary(script, 0, 1) || Boundary(script, 0, 2) then OutOfRange else Done
  {
    hide R.Onward, Decode, Boundary, Safe, Flat;
    Terminates();
    var r := new Reader(script);
    var rb := new ReadBuffer(1024);
    ghost var call, stream, pos, fed;
    response, outcome, call, stream, pos, fed := DecodeBody(rb, r, 0, 0, false, lut, null);
    assert call.Given() == R.TERMINATOR;
    ArticleWhen(rb, outcome, call, r, response, null, stream, pos, fed);
  }

  lemma Terminates()
    ensures Decode(StateCRLF, R.TERMINATOR) == Halted([], StateCRLF, EndArticle, 3)
  {
    RunNext(StateCRLF, R.TERMINATOR, 0, [], StateCRLF);
    RunNext(StateCRLF, R.TERMINATOR, 1, [], StateCRLFDT);
    RunNext(StateCRLF, R.TERMINATOR, 2, [], StateCRLFDTCR);
  }

  lemma OnwardState(stream: seq<byte>, pos: nat, contents: seq<byte>, q: State)
    requires R.Onward(stream, pos, contents, q)
    ensures q != StateCRLFEQ && pos <= |stream|
  {
  }
}
