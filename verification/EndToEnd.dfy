/** From one end of the codec to the other. */
module EndToEnd {
  import opened Bytes
  import opened YencMachine
  import B = ReadBuffers
  import Crc = Crc32
  import Cursor = Avx2Cursor
  import D = Deliveries
  import E = ColumnEncoder
  import H = YencHeaders
  import Laws = EncodingLaws
  import R = ResponseBody
  import S = SimdEncoder
  import W = EncoderWriter

  /** What the vector encoder writes from column 0 decodes back, with an extra line break or not. */
  lemma VectorRoundTrip(lineSize: nat, src: seq<byte>, doEnd: bool, out: seq<byte>, col: nat)
    requires 1 <= lineSize && src != [] && S.Promised(lineSize, 0, src, doEnd, out, col)
    ensures Decode(StateCRLF, out + Laws.CONTROL) == Halted(src, StateNone, EndControl, |out| + 4)
  {
    hide Decode, E.EncodeAll, Laws.Closed, Cursor.TakesAll;
    Laws.RoundTrip(lineSize, src, doEnd);
    if Cursor.TakesAll(lineSize, 0, src) {
      var w := E.EncodeAll(lineSize, E.At(0), src);
      WholeDecodes(lineSize, src);
      Laws.NewlineDecodes(StateNone);
      DecodeConcat(StateCRLF, w.out, NEWLINE);
      Laws.ControlStops(StateCRLF);
      DecodeConcat(StateCRLF, out, Laws.CONTROL);
      assert src + [] == src;
    }
  }

  lemma WholeDecodes(lineSize: nat, src: seq<byte>)
    requires src != []
    ensures Decode(StateCRLF, E.EncodeAll(lineSize, E.At(0), src).out) == Live(src, StateNone)
  {
    Laws.EncodedDecodes(lineSize, E.At(0), src, |src|, StateCRLF);
    assert src[..|src|] == src;
  }

  /** A closed encoder's body, trailer and whatever follows, as far as the bytes that come without
      an error reach, and that is past the trailer's `=y`; read in whatever pieces. The response
      holds the bytes written, with the checksum and the length the encoder counted, and what is
      left to be read starts with the trailer. Only a buffer too small for three bytes more than
      were written can cut it short; with room for just one more it always does. */
  lemma WrittenIsRead(e: W.Encoder, rb: B.ReadBuffer, outcome: B.Outcome, call: D.Call, r: D.Reader,
      response: R.Response, pooled: array?<byte>, stream: seq<byte>, rest: seq<byte>, pos: nat, fed: seq<byte>)
    requires e.Valid() && !e.raw
    requires rb.Concluded(outcome, call, r, response, pooled, stream, pos, fed)
    requires var closed := W.ClosedBody(e.body, e.endByte);
      && call.Given() <= closed + H.Trailer(e.meta, e.crc) + rest
      && |closed + Laws.CONTROL| <= |call.Given()|
    ensures response.Valid()
    ensures outcome == B.Done || (outcome == B.ReadFailed && B.ReadBuffer.CutShort(response, fed, pos))
    ensures |e.payload| + 3 <= response.ComputeExpectedSize() ==> outcome == B.Done
    ensures |e.payload| + 1 == call.capacity ==> outcome == B.ReadFailed
    ensures outcome == B.Done ==>
      && response.Contents() == e.payload && response.crc == e.crc && response.bytesProduced == e.processed
      && rb.Valid() && R.CONTROL_MARK <= rb.Window()
  {
    hide Decode, W.Carries, W.ClosedBody, H.Trailer, Crc.Update, D.Safe, B.ReadBuffer.CutShort, E.IsFull;
    var closed := W.ClosedBody(e.body, e.endByte);
    W.ClosedCarries(e.lineLength, e.body, e.endByte, e.column, e.payload, []);
    assert Laws.CONTROL + [] == Laws.CONTROL;
    H.TrailerBegins(e.meta, e.crc);
    BeginsWith(closed, Laws.CONTROL, H.Trailer(e.meta, e.crc), rest, call.Given());
    D.EndStays(closed + Laws.CONTROL, call.Given());
    B.BodyDelivered(rb, outcome, call, r, response, pooled, stream, pos, fed);
    if |e.payload| + 1 == call.capacity {
      B.NeverDelivered(rb, outcome, call, r, response, pooled, stream, pos, fed);
    }
  }

  /** And the response's verdict on it is Close's: with the header's lines read before the body and the
      trailer's after it, the part is accepted exactly if as many bytes were written as declared. */
  lemma PartAccepted(e: W.Encoder, rb: B.ReadBuffer, call: D.Call, r: D.Reader,
      response: R.Response, pooled: array?<byte>, stream: seq<byte>, rest: seq<byte>, pos: nat, fed: seq<byte>)
    requires e.Valid() && !e.raw && e.meta.Valid() && H.Written64(e.meta) && H.Wide(e.lineLength)
    requires rb.Concluded(B.Done, call, r, response, pooled, stream, pos, fed)
    requires var closed := W.ClosedBody(e.body, e.endByte);
      && call.Given() <= closed + H.Trailer(e.meta, e.crc) + rest
      && |closed + Laws.CONTROL| <= |call.Given()|
    ensures var before := H.Read(H.Read(H.NOTHING, H.BeginLine(e.meta, e.lineLength)), H.PartLine(e.meta));
      var known := H.Read(before, H.EndLine(e.meta, e.crc));
      && known.expectedCrc == response.crc as nat
      && H.VerdictOn(known, response.bytesProduced, response.crc as nat)
        == if e.processed == e.meta.partSize then H.Fine else H.DataCorruption
  {
    hide Decode, W.Carries, W.ClosedBody, Crc.Update, D.Safe, H.Read, H.BeginLine, H.PartLine, H.EndLine, H.Trailer;
    WrittenIsRead(e, rb, B.Done, call, r, response, pooled, stream, rest, pos, fed);
    H.BeginReads(H.NOTHING, e.meta, e.lineLength);
    var k := H.Read(H.NOTHING, H.BeginLine(e.meta, e.lineLength));
    H.PartReads(k, e.meta);
    H.EndReads(H.Read(k, H.PartLine(e.meta)), e.meta, e.crc);
  }

  lemma BeginsWith(front: seq<byte>, mark: seq<byte>, tail: seq<byte>, rest: seq<byte>, given: seq<byte>)
    requires mark <= tail && given <= front + tail + rest && |front + mark| <= |given|
    ensures front + mark <= given
  {
    assert front + mark <= front + tail + rest;
  }

  /** Where the headers tell the part's size: there is room for a part three bytes below the largest
      size or smaller. A part one byte below that size is cut short in a buffer made for it. */
  lemma HonestHeaders(response: R.Response, size: nat)
    requires response.Claimed() == size
    ensures size + 3 <= R.MAX_PART_SIZE ==> size + 3 <= response.ComputeExpectedSize()
    ensures size + 1 == R.MAX_PART_SIZE ==> size + 1 == response.FirstCapacity(null)
  {
  }

  /** For one: 1023 zeros, in a response whose headers claim 900 bytes, delivered in one piece
      together with the control line. */
  method CutShortExample(lut: array2<byte>) returns (response: R.Response, outcome: B.Outcome)
    ensures Decode(StateCRLF, E.EncodeAll(128, E.At(0), Zeros(1023)).out + Laws.CONTROL).out == Zeros(1023)
    ensures outcome == B.ReadFailed && response.Valid() && response.body
  {
    hide Decode, R.Onward, E.Encode, B.ReadBuffer.CutShort;
    var src := Zeros(1023);
    var body := E.EncodeAll(128, E.At(0), src).out + Laws.CONTROL;
    Laws.RoundTrip(128, src, false);
    var script := [D.Delivery(body, false)];
    assert script[1..] == [] && D.Safe(script) == body + [] == body;
    var r := new D.Reader(script);
    var rb := new B.ReadBuffer(4096);
    ghost var call, stream, pos, fed;
    response, outcome, call, stream, pos, fed := B.DecodeBody(rb, r, 900, 900, false, lut, null);
    assert call.Given() == [] + body == body;
    B.NeverDelivered(rb, outcome, call, r, response, null, stream, pos, fed);
  }
}
