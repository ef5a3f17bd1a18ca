// What a whole session means to the client: framing both ways, independence of how TCP cuts the
// bytes, and what becomes of the images it sent.
module EndToEnd {
  import opened Bytes
  import opened Proto
  import opened Encoder
  import opened Admission
  import opened Reply
  import opened Serve
  import opened Session
  import Ring
  import Segment

  // --- requests ---

  type HdrBytes = b: seq<Byte> | |b| == HDR_LEN witness seq(HDR_LEN, _ => 0)

  /** A request as any client may send it; its reserved header bytes need not be zero. */
  datatype Raw = Raw(hdr: HdrBytes, payload: seq<Byte>)

  ghost predicate InStep(r: Raw) {
    UnpackHdr(r.hdr).magic == MAGIC && |r.payload| == UnpackHdr(r.hdr).payloadLen
  }

  function Wire(rs: seq<Raw>): seq<Byte> {
    if rs == [] then [] else rs[0].hdr + rs[0].payload + Wire(rs[1..])
  }

  function FramesOf(rs: seq<Raw>): seq<Frame> {
    if rs == [] then [] else [Frame(UnpackHdr(rs[0].hdr), rs[0].payload)] + FramesOf(rs[1..])
  }

  /** Requests sent back to back are taken apart exactly where they were put together, whatever
      follows them. */
  lemma {:induction false} RequestsStayInStep(rs: seq<Raw>, tail: seq<Byte>)
    requires forall k | 0 <= k < |rs| :: InStep(rs[k])
    ensures Parse(Wire(rs) + tail) == Parsed(FramesOf(rs) + Parse(tail).frames, Parse(tail).end)
  {
    hide UnpackHdr, Parse, InStep;
    if rs == [] {
      assert Wire(rs) + tail == tail && FramesOf(rs) + Parse(tail).frames == Parse(tail).frames;
    } else {
      RequestsStayInStep(rs[1..], tail);
      Associate(rs[0].hdr + rs[0].payload, Wire(rs[1..]), tail);
      FirstRequest(rs[0], Wire(rs[1..]) + tail);
      Associate([Frame(UnpackHdr(rs[0].hdr), rs[0].payload)], FramesOf(rs[1..]), Parse(tail).frames);
    }
  }

  lemma FirstRequest(r: Raw, rest: seq<Byte>)
    requires InStep(r)
    ensures var next := Parse(rest);
            Parse(r.hdr + r.payload + rest) == Parsed([Frame(UnpackHdr(r.hdr), r.payload)] + next.frames, next.end)
  {
    hide UnpackHdr, Parse;
    TwoParts(r.hdr, r.payload, rest);
    ParseNext(r.hdr + r.payload + rest, Frame(UnpackHdr(r.hdr), r.payload));
  }

  lemma TwoParts(hdr: seq<Byte>, payload: seq<Byte>, rest: seq<Byte>)
    ensures var all := hdr + payload + rest; var n := |hdr| + |payload|;
            all[..|hdr|] == hdr && all[|hdr|..n] == payload && all[n..] == rest
  {
  }

  /** Every frame the server takes has the right magic and all of its payload. */
  lemma {:induction false} FramesWhole(input: seq<Byte>, k: nat)
    requires k < |Parse(input).frames|
    ensures var f := Parse(input).frames[k]; f.h.magic == MAGIC && |f.payload| == f.h.payloadLen
    decreases |input|
  {
    hide UnpackHdr;
    if k > 0 {
      var h := UnpackHdr(input[..HDR_LEN]);
      FramesWhole(input[HDR_LEN..][h.payloadLen..], k - 1);
    }
  }

  /** What the server makes of any bytes at all: requests back to back, as far as they go, and then nothing,
      a header with another magic, or a request cut short. */
  lemma {:induction false} TakesApart(input: seq<Byte>) returns (rs: seq<Raw>, tail: seq<Byte>)
    ensures input == Wire(rs) + tail && forall k | 0 <= k < |rs| :: InStep(rs[k])
    ensures Parse(input).frames == FramesOf(rs)
    ensures match Parse(input).end
            case Closed => tail == []
            case BadMagic(h) => |tail| >= 20 && h == UnpackHdr(tail[..20]) && h.magic != 0x4F4A_4C53
            case CutShort =>
              && tail != []
              && (|tail| < 20 || (UnpackHdr(tail[..20]).magic == 0x4F4A_4C53
                                  && |tail| < 20 + UnpackHdr(tail[..20]).payloadLen))
    decreases |input|
  {
    hide UnpackHdr;
    var p := Parse(input);
    if p.frames == [] {
      rs, tail := [], input;
      assert Wire(rs) + tail == tail;
    } else {
      var h := UnpackHdr(input[..HDR_LEN]);
      var first := Raw(input[..HDR_LEN], input[HDR_LEN..][..h.payloadLen]);
      var rest := input[HDR_LEN..][h.payloadLen..];
      var later;
      later, tail := TakesApart(rest);
      rs := [first] + later;
      assert rs[1..] == later;
      FirstAndRest(first, later, tail, input);
    }
  }

  lemma FirstAndRest(first: Raw, later: seq<Raw>, tail: seq<Byte>, input: seq<Byte>)
    requires |input| >= |first.hdr| + |first.payload| && input[..|first.hdr|] == first.hdr
    requires input[|first.hdr|..][..|first.payload|] == first.payload
    requires input[|first.hdr|..][|first.payload|..] == Wire(later) + tail
    ensures input == Wire([first] + later) + tail
  {
    hide UnpackHdr;
    var rs := [first] + later;
    assert rs[1..] == later;
    assert Wire(rs) == first.hdr + first.payload + Wire(later);
    var rest := input[|first.hdr|..];
    assert input == first.hdr + (first.payload + (Wire(later) + tail));
  }

  /** How a connection ends: in order only behind the last whole request; with one refusal of status 1 to a
      header with another magic; and else without a word. */
  lemma EndSays(end: End)
    ensures EndCode(end) == 0 <==> end.Closed?
    ensures !end.Closed? ==> EndCode(end) == -1
    ensures end.BadMagic? ==>
              |EndReply(end)| == 20
              && UnpackHdr(EndReply(end)) == end.h.(magic := 0x4F4A_4C53, version := 1, kind := 2, status := 1,
                                                    payloadLen := 0)
    ensures !end.BadMagic? ==> EndReply(end) == []
  {
    hide UnpackHdr, ErrorReply;
    if end.BadMagic? {
      ErrorFramed(end.h, ST_BAD_MAGIC);
    }
  }

  // --- responses ---

  /** A response whose header tells its length. */
  ghost predicate WellFramed(r: seq<Byte>) {
    && |r| >= HDR_LEN && UnpackHdr(r[..HDR_LEN]).magic == MAGIC
    && |r| == HDR_LEN + UnpackHdr(r[..HDR_LEN]).payloadLen
  }

  lemma Headed(h: Hdr, payload: seq<Byte>)
    ensures UnpackHdr((PackHdr(h) + payload)[..HDR_LEN]) == h
    ensures WellFramed(PackHdr(h) + payload) <==> h.magic == MAGIC && h.payloadLen == |payload|
  {
    hide PackHdr, UnpackHdr;
    UnpackPack(h);
    assert (PackHdr(h) + payload)[..HDR_LEN] == PackHdr(h);
  }

  lemma ErrorFramed(req: Hdr, status: Byte)
    ensures WellFramed(ErrorReply(req, status)) && |ErrorReply(req, status)| == HDR_LEN
    ensures UnpackHdr(ErrorReply(req, status)) ==
            req.(magic := MAGIC, version := VERSION, kind := ENCODE_RESP, status := status, payloadLen := 0)
  {
    hide PackHdr, UnpackHdr;
    var h := req.(magic := MAGIC, version := VERSION, kind := ENCODE_RESP, status := status, payloadLen := 0);
    Headed(h, []);
    UnpackPack(h);
    assert PackHdr(h) + [] == PackHdr(h);
  }

  /** The length field of a stream reply is true exactly when the reply fits it. */
  lemma StreamFramed(req: Hdr, status: Byte, images: seq<seq<Byte>>)
    requires req.magic == MAGIC
    ensures WellFramed(StreamReply(req, status, images)) <==> TotalBytes(images) < TWO_32
    ensures |StreamReply(req, status, images)| == HDR_LEN + TotalBytes(images)
  {
    hide PackHdr, UnpackHdr, Table, Flat, WellFramed;
    TableLen(images);
    var h := req.(kind := STREAM_RESP, status := status, payloadLen := Wrap32(TotalBytes(images)));
    Headed(h, Table(images) + Flat(images));
    Associate(PackHdr(h), Table(images), Flat(images));
  }

  /** The images of an admitted loopback stream. */
  lemma LoopImages(f: Frame)
    requires Check(Loopback, f.h) == ST_OK && IsStream(f.h) && |f.payload| == f.h.payloadLen
    ensures var images := Pieces(f.payload, Expect(f.h));
            && |images| == ImageCount(f.h) > 0 && Flat(images) == f.payload
            && forall k | 0 <= k < |images| :: |images[k]| == Expect(f.h) > 0
  {
    hide Expect, Pieces, Check;
    LoopbackStream(f.h);
    var size, count := Expect(f.h), ImageCount(f.h);
    CutIs(f.payload, size, count);
    forall k | 0 <= k < count
      ensures |Pieces(f.payload, size)[k]| == size
    {
      CutAt(f.payload, size, count, k);
    }
    if count == 0 {
      assert f.h.payloadLen == 0;
      NotEmpty(f.h);
    }
  }

  lemma NotEmpty(h: Hdr)
    requires Check(Loopback, h) == ST_OK && IsStream(h)
    ensures h.payloadLen != 0
  {
    hide Expect;
  }

  /** The response is too long for its 32-bit length field. */
  predicate Oversized(reply: seq<Byte>) {
    |reply| >= HDR_LEN + TWO_32
  }

  /** Every answer is one response with a true length, unless that does not fit its field. In loopback it
      does not for exactly the streams whose table of lengths pushes them over 32 bits; on a board only
      for streams beyond FitsReply. */
  lemma AnswerFramed(t: Target, e: Encoder, f: Frame, reply: seq<Byte>, trusted: bool)
    requires Answers(t, e, f, reply, trusted) && f.h.magic == MAGIC && |f.payload| == f.h.payloadLen
    ensures WellFramed(reply) <==> !Oversized(reply)
    ensures t.Loopback? ==>
              (Oversized(reply) <==>
               Check(t, f.h) == ST_OK && IsStream(f.h) && 4 * ImageCount(f.h) + f.h.payloadLen >= TWO_32)
    ensures t.Hardware? && FitsReply(f.h) ==> !Oversized(reply)
  {
    hide Check, WellFramed, HwAnswer, ErrorReply, StreamReply, PackHdr, Expect, ImageCount, Pieces, Flat;
    if Check(t, f.h) != ST_OK {
      ErrorFramed(f.h, Check(t, f.h));
    } else if t.Loopback? {
      if IsStream(f.h) {
        LoopImages(f);
        StreamFramed(f.h, ST_OK, Pieces(f.payload, Expect(f.h)));
      } else {
        Headed(f.h.(kind := ENCODE_RESP, status := ST_OK), f.payload);
      }
    } else {
      HwFramed(t.board, e, f, reply, trusted);
    }
  }

  /** A loopback stream that gets there: its images are one pixel each, its table four times as long. */
  lemma LoopbackOverflow()
    ensures var h := Hdr(MAGIC, VERSION, STREAM_REQ, 0, 1, 1, 8, 0, 0xF000_0000);
            Check(Loopback, h) == ST_OK && IsStream(h) && 4 * ImageCount(h) + h.payloadLen >= TWO_32
  {
  }

  lemma HwFramed(b: Board, e: Encoder, f: Frame, reply: seq<Byte>, trusted: bool)
    requires Check(Hardware(b), f.h) == ST_OK && f.h.magic == MAGIC
    requires HwAnswer(b, e, f, reply, trusted)
    ensures WellFramed(reply) <==> !Oversized(reply)
    ensures FitsReply(f.h) ==> !Oversized(reply)
  {
    hide Check, WellFramed, ErrorReply, StreamReply, PackHdr, Expect, ImageCount, SlotBytes, SlotRoom,
         HonestStream, CutSingle, Flat;
    if reply == ErrorReply(f.h, ST_HW_ERROR) {
      ErrorFramed(f.h, ST_HW_ERROR);
    } else if reply == ErrorReply(f.h, ST_HW_TIMEOUT) {
      ErrorFramed(f.h, ST_HW_TIMEOUT);
    } else if IsStream(f.h) {
      var status, images :| SentStream(e, f, reply, status, images, trusted);
      FlatBound(images, SlotRoom(SlotBytes(Expect(f.h))));
      EachPlus(ImageCount(f.h), SlotRoom(SlotBytes(Expect(f.h))), 4);
      StreamFramed(f.h, status, images);
    } else {
      var packet :| SentSingle(b, e, f, reply, packet, trusted);
      var h := Hdr(MAGIC, VERSION, ENCODE_RESP, ST_OK, f.h.width, f.h.height, f.h.bitness, 0, Wrap32(|packet|));
      Headed(h, packet);
    }
  }

  lemma EachPlus(n: nat, x: nat, y: nat)
    ensures n * (x + y) == n * x + n * y
  {
  }

  /** On a board the condition is exact: whatever was wrong before, an answer can be too long exactly if it
      fails; and then, for images of true size, so can an exact OK answer of a board in order, with an
      encoder whose packets fill their descriptors. */
  lemma FitsExactly(b: Board, e: Encoder, f: Frame)
    requires Check(Hardware(b), f.h) == ST_OK && IsStream(f.h) && f.h.magic == MAGIC
    requires |f.payload| == f.h.payloadLen
    ensures FitsReply(f.h) <==> forall reply :: HwAnswer(b, e, f, reply, false) ==> !Oversized(reply)
    ensures Expect(f.h) == TrueImageBytes(f.h) ==>
              (FitsReply(f.h) <==> forall c, reply :: Causal(c) && HwAnswer(b, c, f, reply, true) ==> !Oversized(reply))
  {
    hide Check, WellFramed, HwAnswer, Oversized, FitsReply, Expect, TrueImageBytes, Causal;
    forall c: Encoder, reply, trusted | FitsReply(f.h) && HwAnswer(b, c, f, reply, trusted)
      ensures !Oversized(reply)
    {
      HwFramed(b, c, f, reply, trusted);
    }
    if !FitsReply(f.h) {
      var any := LongAnswer(b, e, f);
      if Expect(f.h) == TrueImageBytes(f.h) {
        var c, reply := LongHonest(b, f);
      }
    }
  }

  lemma TooMany(b: Board, h: Hdr)
    requires Check(Hardware(b), h) == ST_OK && IsStream(h) && !FitsReply(h)
    ensures SlotRoom(SlotBytes(Expect(h))) > 0 && SlotBytes(Expect(h)) < TWO_32
  {
    hide Check, Expect, ImageCount, SlotBytes;
    WideSlot(b, h);
    AdmittedStream(b, h);
    var n := ImageCount(h);
    ShortRoom(SlotBytes(Expect(h)));
    if SlotRoom(SlotBytes(Expect(h))) == 0 {
      SlotIs(Expect(h));
      NotMasked(SlotBytes(Expect(h)));
      FewLarge(n, Expect(h));
    }
  }

  lemma FewLarge(n: nat, image: nat)
    requires image >= 53680539 && n * image < TWO_32
    ensures n * (0 + 4) < TWO_32
  {
    Ring.MulMono(53680539, image, n);
  }

  lemma NotMasked(slot: nat)
    requires SlotRoom(slot) == 0 && slot > 0
    ensures slot >= Ring.LEN_SPAN
  {
  }

  /** As many images of the full room of a slot as the request asks for. */
  lemma LongReply(b: Board, f: Frame, images: seq<seq<Byte>>)
    requires Check(Hardware(b), f.h) == ST_OK && IsStream(f.h) && f.h.magic == MAGIC && !FitsReply(f.h)
    requires |images| == ImageCount(f.h)
    requires forall k | 0 <= k < |images| :: |images[k]| == SlotRoom(SlotBytes(Expect(f.h)))
    ensures Oversized(StreamReply(f.h, ST_OK, images))
  {
    hide Check, Expect, ImageCount, SlotBytes, SlotRoom, StreamReply, Flat, WellFramed;
    StreamFramed(f.h, ST_OK, images);
    FlatAlike(images, SlotRoom(SlotBytes(Expect(f.h))));
    EachPlus(ImageCount(f.h), SlotRoom(SlotBytes(Expect(f.h))), 4);
  }

  lemma LongAnswer(b: Board, e: Encoder, f: Frame) returns (reply: seq<Byte>)
    requires Check(Hardware(b), f.h) == ST_OK && IsStream(f.h) && f.h.magic == MAGIC && !FitsReply(f.h)
    ensures HwAnswer(b, e, f, reply, false) && Oversized(reply)
  {
    hide Check, Expect, ImageCount, SlotBytes, SlotRoom, StreamReply, Oversized, FitsReply, HonestStream, ErrorReply;
    var room := SlotRoom(SlotBytes(Expect(f.h)));
    var images := seq(ImageCount(f.h), k requires 0 <= k < ImageCount(f.h) => seq(room, i requires 0 <= i < room => 0));
    reply := StreamReply(f.h, ST_OK, images);
    LongReply(b, f, images);
    assert SentStream(e, f, reply, ST_OK, images, false);
  }

  lemma LongHonest(b: Board, f: Frame) returns (c: Encoder, reply: seq<Byte>)
    requires Check(Hardware(b), f.h) == ST_OK && IsStream(f.h) && f.h.magic == MAGIC && !FitsReply(f.h)
    requires |f.payload| == f.h.payloadLen && Expect(f.h) == TrueImageBytes(f.h)
    ensures Causal(c) && HwAnswer(b, c, f, reply, true) && Oversized(reply)
  {
    hide Check, Expect, TrueImageBytes, ImageCount, SlotBytes, SlotRoom, StreamReply, Oversized, FitsReply, ErrorReply,
         Causal, PacketBytes, ImageBytes, AllPackets, FrameDims, Padding, IsImage;
    var room := SlotRoom(SlotBytes(Expect(f.h)));
    TooMany(b, f.h);
    AdmittedStream(b, f.h);
    FrameImage(f.h);
    c := Padding(room);
    var images := AllPackets(c, f);
    var n, d := ImageCount(f.h), FrameDims(f.h);
    PacketListed(c, f, 0);
    forall k | 0 <= k < n
      ensures |images[k]| == room && IsImage(c, d, f.payload, k, images[k])
    {
      PacketListed(c, f, k);
      ImageSize(d, f.payload, k);
      Padded(room, d, Image(d, f.payload, k));
      ItIsImage(c, d, f.payload, k, images[k]);
    }
    Padded(room, d, Image(d, f.payload, 0));
    assert ClosedExactly(c, d, f.payload, images, n);
    reply := StreamReply(f.h, ST_OK, images);
    LongReply(b, f, images);
    assert SentStream(c, f, reply, ST_OK, images, true);
  }

  lemma Padded(n: nat, d: Dims, image: seq<Byte>)
    requires n > 0 && |image| == ImageBytes(d) > 0
    ensures Causal(Padding(n)) && |PacketBytes(Padding(n), d, image)| == n
  {
    hide Padding, Causal, ImageBytes, Packet;
    CausalCores(n, d, image);
  }

  lemma ItIsImage(e: Encoder, d: Dims, pixels: seq<Byte>, k: nat, bytes: seq<Byte>)
    requires (k + 1) * ImageBytes(d) <= |pixels| && bytes == PacketBytes(e, d, Image(d, pixels, k))
    ensures IsImage(e, d, pixels, k, bytes)
  {
  }

  /** The responses in the server's output, as a client that trusts their lengths separates them. */
  function Responses(output: seq<Byte>): seq<seq<Byte>>
    decreases |output|
  {
    if |output| < HDR_LEN || |output| < HDR_LEN + UnpackHdr(output[..HDR_LEN]).payloadLen then []
    else
      var n := HDR_LEN + UnpackHdr(output[..HDR_LEN]).payloadLen;
      [output[..n]] + Responses(output[n..])
  }

  lemma FirstResponse(r: seq<Byte>, rest: seq<Byte>)
    requires WellFramed(r)
    ensures Responses(r + rest) == [r] + Responses(rest)
  {
    hide UnpackHdr;
    var all := r + rest;
    assert all[..HDR_LEN] == r[..HDR_LEN] && all[..|r|] == r && all[|r|..] == rest;
  }

  /** Responses of true length come out one by one, in order. */
  lemma {:induction false} ResponsesStayInStep(replies: seq<seq<Byte>>)
    requires forall k | 0 <= k < |replies| :: WellFramed(replies[k])
    ensures Responses(Flat(replies)) == replies
  {
    hide UnpackHdr, Responses, WellFramed;
    if replies == [] {
      NoResponse();
    } else {
      ResponsesStayInStep(replies[1..]);
      FirstResponse(replies[0], Flat(replies[1..]));
      assert replies == [replies[0]] + replies[1..];
    }
  }

  lemma NoResponse()
    ensures Responses([]) == []
  {
  }

  /** Whatever is taken off as a response has the length that its header tells. */
  lemma {:induction false} ResponsesTrue(output: seq<Byte>, k: nat)
    requires k < |Responses(output)|
    ensures var r := Responses(output)[k]; |r| >= HDR_LEN && |r| == HDR_LEN + UnpackHdr(r[..HDR_LEN]).payloadLen
    decreases |output|
  {
    hide UnpackHdr;
    var n := HDR_LEN + UnpackHdr(output[..HDR_LEN]).payloadLen;
    assert output[..n][..HDR_LEN] == output[..HDR_LEN];
    if k > 0 {
      ResponsesTrue(output[n..], k - 1);
    }
  }

  /** The whole session through the client's eyes: as many responses as frames, in order, exactly if none
      is too long for its length field. */
  lemma SessionInStep(t: Target, e: Encoder, input: seq<Byte>, replies: seq<seq<Byte>>, upTo: nat)
    requires AllAnswered(t, e, Parse(input).frames, replies, upTo)
    ensures |replies| == |Parse(input).frames|
    ensures Responses(Flat(replies)) == replies <==> forall k | 0 <= k < |replies| :: !Oversized(replies[k])
    ensures t.Hardware? ==>
              forall k | 0 <= k < |replies| :: FitsReply(Parse(input).frames[k].h) ==> !Oversized(replies[k])
  {
    hide Parse, Answers, WellFramed, Check, Responses, UnpackHdr, FitsReply, Expect, ImageCount;
    var frames := Parse(input).frames;
    forall k | 0 <= k < |replies|
      ensures WellFramed(replies[k]) <==> !Oversized(replies[k])
      ensures t.Hardware? && FitsReply(frames[k].h) ==> !Oversized(replies[k])
    {
      FramesWhole(input, k);
      AnswerFramed(t, e, frames[k], replies[k], k < upTo);
    }
    if forall k | 0 <= k < |replies| :: !Oversized(replies[k]) {
      ResponsesStayInStep(replies);
    }
    if Responses(Flat(replies)) == replies {
      forall k | 0 <= k < |replies|
        ensures !Oversized(replies[k])
      {
        ResponsesTrue(Flat(replies), k);
      }
    }
  }

  // --- independence of history ---

  /** The same request answered OK twice by the board gets the same bytes: neither the throttle, nor
      the history of the board, nor any timing shows. */
  lemma OkAnswersAgree(b: Board, e: Encoder, f: Frame, r1: seq<Byte>, r2: seq<Byte>)
    requires Answers(Hardware(b), e, f, r1, true) && Answers(Hardware(b), e, f, r2, true)
    requires Succeeded(r1) && Succeeded(r2)
    ensures r1 == r2
  {
    hide Check, HwAnswer, Succeeded, ErrorReply;
    if Check(Hardware(b), f.h) != ST_OK {
      return;
    }
    OkAnswer(b, e, f, r1);
    OkAnswer(b, e, f, r2);
  }

  /** The stream of all packets of all images. */
  function AllPackets(e: Encoder, f: Frame): seq<seq<Byte>>
    requires ImageCount(f.h) * ImageBytes(FrameDims(f.h)) <= |f.payload|
  {
    seq<seq<Byte>>(ImageCount(f.h), k requires 0 <= k < ImageCount(f.h) =>
      (Within(k, ImageCount(f.h), ImageBytes(FrameDims(f.h)));
        PacketBytes(e, FrameDims(f.h), Image(FrameDims(f.h), f.payload, k))))
  }

  lemma Within(k: nat, n: nat, size: nat)
    requires k < n
    ensures (k + 1) * size <= n * size
  {
    Ring.MulMono(k + 1, n, size);
  }

  lemma ErrorFails(req: Hdr, status: Byte)
    requires status != ST_OK
    ensures !Succeeded(ErrorReply(req, status))
  {
    hide UnpackHdr, ErrorReply, WellFramed;
    ErrorFramed(req, status);
    var r := ErrorReply(req, status);
    assert r[..HDR_LEN] == r;
  }

  /** An honest OK answer has no freedom left. */
  lemma OkAnswer(b: Board, e: Encoder, f: Frame, reply: seq<Byte>)
    requires HwAnswer(b, e, f, reply, true) && Succeeded(reply)
    ensures if IsStream(f.h)
            then ImageCount(f.h) * ImageBytes(FrameDims(f.h)) <= |f.payload|
              && reply == StreamReply(f.h, ST_OK, AllPackets(e, f))
            else reply == SingleReply(f.h, SentPart(PacketBytes(e, FrameDims(f.h), f.payload)))
  {
    hide ErrorReply, StreamReply, SingleReply, PackHdr, UnpackHdr, PacketBytes, ImageCount, Expect, ImageBytes,
         SlotBytes, SlotRoom, SentPart;
    ErrorFails(f.h, ST_HW_ERROR);
    ErrorFails(f.h, ST_HW_TIMEOUT);
    if IsStream(f.h) {
      var status, images :| SentStream(e, f, reply, status, images, true);
      StreamStatus(f.h, status, images);
      AllClosed(e, f, images);
    }
  }

  lemma StreamStatus(req: Hdr, status: Byte, images: seq<seq<Byte>>)
    requires Succeeded(StreamReply(req, status, images))
    ensures status == ST_OK
  {
    hide PackHdr, UnpackHdr, Table, Flat;
    var h := req.(kind := STREAM_RESP, status := status, payloadLen := Wrap32(TotalBytes(images)));
    Headed(h, Table(images) + Flat(images));
    Associate(PackHdr(h), Table(images), Flat(images));
  }

  lemma AllClosed(e: Encoder, f: Frame, images: seq<seq<Byte>>)
    requires HonestStream(e, FrameDims(f.h), f.payload, ImageCount(f.h), ST_OK, images)
    ensures ImageCount(f.h) * ImageBytes(FrameDims(f.h)) <= |f.payload| && images == AllPackets(e, f)
  {
    hide PacketBytes, ImageCount, ImageBytes, FrameDims, IsImage, AllPackets;
    var d, n := FrameDims(f.h), ImageCount(f.h);
    var closed: nat :| ClosedExactly(e, d, f.payload, images, closed) && closed == n;
    if n > 0 {
      ItsPacket(e, d, f.payload, n - 1, images[n - 1]);
    }
    assert |AllPackets(e, f)| == n by {
      if n > 0 {
        PacketListed(e, f, 0);
      } else {
        NoPackets(e, f);
      }
    }
    forall k | 0 <= k < n
      ensures images[k] == AllPackets(e, f)[k]
    {
      PacketListed(e, f, k);
      ItsPacket(e, d, f.payload, k, images[k]);
    }
  }

  lemma NoPackets(e: Encoder, f: Frame)
    requires ImageCount(f.h) == 0
    ensures ImageCount(f.h) * ImageBytes(FrameDims(f.h)) == 0 && AllPackets(e, f) == []
  {
    hide ImageCount, ImageBytes;
  }

  lemma ItsPacket(e: Encoder, d: Dims, pixels: seq<Byte>, k: nat, bytes: seq<Byte>)
    requires IsImage(e, d, pixels, k, bytes)
    ensures (k + 1) * ImageBytes(d) <= |pixels| && bytes == PacketBytes(e, d, Image(d, pixels, k))
  {
  }

  lemma PacketListed(e: Encoder, f: Frame, k: nat)
    requires ImageCount(f.h) * ImageBytes(FrameDims(f.h)) <= |f.payload| && k < ImageCount(f.h)
    ensures (k + 1) * ImageBytes(FrameDims(f.h)) <= |f.payload|
    ensures |AllPackets(e, f)| == ImageCount(f.h)
    ensures AllPackets(e, f)[k] == PacketBytes(e, FrameDims(f.h), Image(FrameDims(f.h), f.payload, k))
  {
    hide PacketBytes, ImageCount, ImageBytes, FrameDims;
    Within(k, ImageCount(f.h), ImageBytes(FrameDims(f.h)));
  }

  // --- what the headers of responses say ---

  lemma Behind(h: Hdr, payload: seq<Byte>)
    ensures var r := PackHdr(h) + payload; UnpackHdr(r[..20]) == h && r[20..] == payload
  {
    hide PackHdr, UnpackHdr;
    Headed(h, payload);
  }

  /** A response is of type 2 for a single image and for a refusal, of type 4 for a stream; it has the
      width, height and bitness of its request, and its own status and length. */
  lemma HeadersEcho(req: Hdr, status: Byte, packet: seq<Byte>, images: seq<seq<Byte>>)
    ensures UnpackHdr(SingleReply(req, packet)[..20])
            == Hdr(0x4F4A_4C53, 1, 2, 0, req.width, req.height, req.bitness, 0, |packet| % 0x1_0000_0000)
    ensures SingleReply(req, packet)[20..] == packet
    ensures UnpackHdr(StreamReply(req, status, images)[..20])
            == req.(kind := 4, status := status, payloadLen := (4 * |images| + |Flat(images)|) % 0x1_0000_0000)
    ensures UnpackHdr(ErrorReply(req, status)[..20])
            == req.(magic := 0x4F4A_4C53, version := 1, kind := 2, status := status, payloadLen := 0)
    ensures |ErrorReply(req, status)| == 20
  {
    hide PackHdr, UnpackHdr, Table, Flat;
    Behind(Hdr(MAGIC, VERSION, ENCODE_RESP, ST_OK, req.width, req.height, req.bitness, 0, Wrap32(|packet|)), packet);
    var h := req.(kind := STREAM_RESP, status := status, payloadLen := Wrap32(TotalBytes(images)));
    Behind(h, Table(images) + Flat(images));
    Associate(PackHdr(h), Table(images), Flat(images));
    ErrorFramed(req, status);
    assert ErrorReply(req, status)[..20] == ErrorReply(req, status);
  }

  /** Loopback answers a single image with type 2, status 0 and the request's other fields. */
  lemma LoopEchoes(f: Frame)
    requires !IsStream(f.h)
    ensures UnpackHdr(LoopReply(f)[..20]) == f.h.(kind := 2, status := 0) && LoopReply(f)[20..] == f.payload
  {
    hide PackHdr, UnpackHdr;
    Behind(f.h.(kind := ENCODE_RESP, status := ST_OK), f.payload);
  }

  // --- one image, to the client's file ---

  /** The client of a single image gets back from loopback exactly what it sent. */
  lemma SingleLoopback(f: Frame)
    requires Check(Loopback, f.h) == 0 && !IsStream(f.h) && f.h.magic == 0x4F4A_4C53 && |f.payload| == f.h.payloadLen
    ensures SingleVerdict(LoopReply(f)) == Saved(f.payload)
  {
    hide LoopReply, UnpackHdr, Check;
    LoopEchoes(f);
    LoopLength(f);
    SavesExactly(LoopReply(f), f.payload);
  }

  lemma LoopLength(f: Frame)
    requires !IsStream(f.h)
    ensures |LoopReply(f)| == 20 + |f.payload|
  {
    hide PackHdr;
  }

  lemma SingleRefused(req: Hdr, status: Byte)
    requires status != 0
    ensures SingleVerdict(ErrorReply(req, status)) == Refused(status)
  {
    hide UnpackHdr, ErrorReply, SingleReply, StreamReply;
    HeadersEcho(req, status, [], []);
  }

  lemma SingleSaved(req: Hdr, packet: seq<Byte>)
    requires |packet| < TWO_32
    ensures SingleVerdict(SingleReply(req, packet)) == Saved(packet)
  {
    hide UnpackHdr, ErrorReply, PackHdr, StreamReply;
    HeadersEcho(req, 0, packet, []);
    assert |SingleReply(req, packet)| == 20 + |packet|;
    SavesExactly(SingleReply(req, packet), packet);
  }

  /** The client of a single image learns of a hardware failure, or saves this packet, which the rx buffer
      held: up to its length modulo 2^32, and so all of it exactly if it is shorter than 2^32 bytes. */
  ghost predicate SavedOrFailed(b: Board, packet: seq<Byte>, v: Outcome) {
    || v == Refused(8) || v == Refused(9)
    || (&& |packet| <= b.rxSize && v == Saved(packet[..|packet| % 0x1_0000_0000])
        && (v == Saved(packet) <==> |packet| < 0x1_0000_0000))
  }

  lemma NeverLost(b: Board, packet: seq<Byte>, v: Outcome)
    ensures SavedOrFailed(b, packet, v) ==> !v.Lost?
  {
  }

  /** From an admitted single frame and a trusted answer to the client's file: the encoder's packet of
      exactly these pixels, or the status of a failure. */
  lemma SingleEndToEnd(b: Board, e: Encoder, f: Frame, reply: seq<Byte>)
    requires Check(Hardware(b), f.h) == 0 && !IsStream(f.h) && HwAnswer(b, e, f, reply, true)
    ensures SavedOrFailed(b, PacketBytes(e, FrameDims(f.h), f.payload), SingleVerdict(reply))
    ensures SingleVerdict(reply).Saved? ==> |f.payload| == ImageBytes(FrameDims(f.h))
  {
    hide Check, SingleVerdict, ErrorReply, SingleReply, PacketBytes, ImageBytes, FrameDims, SentPart, SavedOrFailed;
    FailureSeen(b, f.h, PacketBytes(e, FrameDims(f.h), f.payload));
    if reply != ErrorReply(f.h, ST_HW_ERROR) && reply != ErrorReply(f.h, ST_HW_TIMEOUT) {
      var sent :| SentSingle(b, e, f, reply, sent, true);
      PartSaved(b, f.h, PacketBytes(e, FrameDims(f.h), f.payload));
    }
  }

  lemma FailureSeen(b: Board, req: Hdr, packet: seq<Byte>)
    ensures SingleVerdict(ErrorReply(req, 8)) == Refused(8) && SingleVerdict(ErrorReply(req, 9)) == Refused(9)
    ensures SavedOrFailed(b, packet, Refused(8)) && SavedOrFailed(b, packet, Refused(9))
  {
    hide SingleVerdict, ErrorReply;
    SingleRefused(req, 8);
    SingleRefused(req, 9);
  }

  lemma PartSaved(b: Board, req: Hdr, packet: seq<Byte>)
    requires |packet| <= b.rxSize
    ensures SavedOrFailed(b, packet, SingleVerdict(SingleReply(req, SentPart(packet))))
  {
    hide SingleVerdict, SingleReply;
    Wrapped(|packet|);
    SingleSaved(req, SentPart(packet));
    if |packet| < TWO_32 {
      assert SentPart(packet) == packet;
    }
  }

  // --- the client's images ---

  function Numbered(images: seq<seq<Byte>>, index: nat): (files: seq<File>)
    ensures |files| == |images|
    ensures forall k | 0 <= k < |images| :: files[k] == File(index + k, images[k])
  {
    seq<File>(|images|, k requires 0 <= k < |images| => File(index + k, images[k]))
  }

  /** When the closed images come first, the client writes exactly those. */
  lemma {:induction false} ClosedFirst(images: seq<seq<Byte>>, closed: nat, index: nat)
    requires closed <= |images|
    requires forall k | 0 <= k < closed :: images[k] != []
    requires forall k | closed <= k < |images| :: images[k] == []
    ensures Nonempty(images, index) == Numbered(images[..closed], index)
    decreases |images|
  {
    if images != [] {
      ClosedFirst(images[1..], if closed == 0 then 0 else closed - 1, index + 1);
      if closed > 0 {
        assert images[..closed][1..] == images[1..][..closed - 1];
        assert Numbered(images[..closed], index)
            == [File(index, images[0])] + Numbered(images[1..][..closed - 1], index + 1);
      }
    }
  }

  /** A client gets back from a loopback server exactly the images it sent, exactly when the reply
      fits its length field. */
  lemma LoopbackIdentity(f: Frame)
    requires Check(Loopback, f.h) == ST_OK && IsStream(f.h)
    requires f.h.magic == MAGIC && |f.payload| == f.h.payloadLen && ImageCount(f.h) < MAX_FILES
    ensures var images := Pieces(f.payload, Expect(f.h));
            && Flat(images) == f.payload
            && (ClientVerdict(ImageCount(f.h), LoopReply(f)) == Complete(Numbered(images, 0))
                <==> 4 * ImageCount(f.h) + f.h.payloadLen < TWO_32)
  {
    hide Check, Expect, ImageCount, Pieces, ClientVerdict, StreamReply, Flat, Nonempty;
    LoopImages(f);
    var images := Pieces(f.payload, Expect(f.h));
    ReplyRoundTrip(f.h, ST_OK, images);
    ClosedFirst(images, |images|, 0);
    assert images[..|images|] == images;
  }

  lemma ImageSize(d: Dims, pixels: seq<Byte>, k: nat)
    requires (k + 1) * ImageBytes(d) <= |pixels|
    ensures |Image(d, pixels, k)| == ImageBytes(d)
  {
  }

  lemma FrameImage(h: Hdr)
    requires Expect(h) > 0
    ensures ImageBytes(FrameDims(h)) == TrueImageBytes(h) > 0
  {
    ExpectIs(h);
  }

  lemma PacketNotEmpty(e: Encoder, d: Dims, image: seq<Byte>)
    requires Causal(e) && |image| == ImageBytes(d) > 0
    ensures PacketBytes(e, d, image) != []
  {
    hide ImageBytes;
    assert FramedBy(e.beats(d, image), true);
    ItemsOfFramedBeats(e.beats(d, image), true);
  }

  /** Files are the packets of the first images, in order. */
  ghost predicate FirstPackets(e: Encoder, d: Dims, pixels: seq<Byte>, files: seq<File>) {
    forall k | 0 <= k < |files| ::
      (k + 1) * ImageBytes(d) <= |pixels| && files[k] == File(k, PacketBytes(e, d, Image(d, pixels, k)))
  }

  /** What the client learns from the answer to a stream: of a failure, or the packet of each image. Even
      after a failure every file is the whole packet of its own image. */
  ghost predicate HonestVerdict(e: Encoder, f: Frame, v: Verdict) {
    match v
    case Malformed => false
    case Rejected(st) => st == ST_HW_ERROR || st == ST_HW_TIMEOUT
    case Failed(st, files) =>
      (st == ST_HW_ERROR || st == ST_HW_TIMEOUT)
      && |files| <= ImageCount(f.h) && FirstPackets(e, FrameDims(f.h), f.payload, files)
    case Complete(files) =>
      |files| == ImageCount(f.h) && FirstPackets(e, FrameDims(f.h), f.payload, files)
  }

  /** The strongest statement about a stream, from the frame the server takes to the client's files. A
      reply too long for its length field never passes for a result. */
  lemma StreamEndToEnd(b: Board, e: Encoder, f: Frame, reply: seq<Byte>)
    requires Causal(e) && Check(Hardware(b), f.h) == ST_OK && IsStream(f.h) && ImageCount(f.h) < MAX_FILES
    requires f.h.magic == MAGIC && |f.payload| == f.h.payloadLen
    requires HwAnswer(b, e, f, reply, true)
    ensures var v := ClientVerdict(ImageCount(f.h), reply);
            if Oversized(reply) then v.Malformed? || v.Rejected? else HonestVerdict(e, f, v)
    ensures FitsReply(f.h) ==> !Oversized(reply)
  {
    hide Check, Causal, ClientVerdict, ErrorReply, StreamReply, Expect, ImageCount, ImageBytes, SlotBytes, Flat,
         FirstPackets, HonestStream, WellFramed, HwAnswer;
    ErrorVerdict(ImageCount(f.h), f.h, ST_HW_ERROR);
    ErrorVerdict(ImageCount(f.h), f.h, ST_HW_TIMEOUT);
    ErrorFramed(f.h, ST_HW_ERROR);
    ErrorFramed(f.h, ST_HW_TIMEOUT);
    HwFramed(b, e, f, reply, true);
    if reply != ErrorReply(f.h, ST_HW_ERROR) && reply != ErrorReply(f.h, ST_HW_TIMEOUT) {
      SentVerdict(b, e, f, reply);
    }
  }

  lemma ShortRoom(slot: nat)
    ensures SlotRoom(slot) < Ring.LEN_SPAN
  {
  }

  lemma SentVerdict(b: Board, e: Encoder, f: Frame, reply: seq<Byte>)
    requires Causal(e) && Check(Hardware(b), f.h) == ST_OK && IsStream(f.h) && ImageCount(f.h) < MAX_FILES
    requires f.h.magic == MAGIC && |f.payload| == f.h.payloadLen
    requires HwAnswer(b, e, f, reply, true) && reply != ErrorReply(f.h, ST_HW_ERROR)
             && reply != ErrorReply(f.h, ST_HW_TIMEOUT)
    ensures var v := ClientVerdict(ImageCount(f.h), reply);
            if Oversized(reply) then v.Malformed? || v.Rejected? else HonestVerdict(e, f, v)
  {
    hide Check, Causal, ClientVerdict, ErrorReply, StreamReply, Expect, ImageCount, ImageBytes, SlotBytes, Flat,
         FirstPackets, HonestStream, WellFramed;
    var status, images :| SentStream(e, f, reply, status, images, true);
    AdmittedStream(b, f.h);
    StreamFramed(f.h, status, images);
    ShortRoom(SlotBytes(Expect(f.h)));
    ReplyRoundTrip(f.h, status, images);
    FrameImage(f.h);
    HonestFiles(e, FrameDims(f.h), f.payload, ImageCount(f.h), status, images);
  }

  /** An OK answer is a result to the client, or nothing it understands. */
  lemma OkVerdict(count: nat, reply: seq<Byte>)
    requires Succeeded(reply)
    ensures var v := ClientVerdict(count, reply); v.Malformed? || v.Complete?
  {
    hide UnpackHdr, Lens, Sum, Files;
  }

  /** What lies behind a response does not change how the client sees it. */
  lemma VerdictIgnoresRest(count: nat, r: seq<Byte>, rest: seq<Byte>)
    requires WellFramed(r)
    ensures ClientVerdict(count, r + rest) == ClientVerdict(count, r)
  {
    hide UnpackHdr, Lens, Sum, Files;
    var all := r + rest;
    assert all[..HDR_LEN] == r[..HDR_LEN];
    var n := UnpackHdr(r[..HDR_LEN]).payloadLen;
    assert all[HDR_LEN..] == r[HDR_LEN..] + rest && |r[HDR_LEN..]| == n;
    if 4 * count <= n {
      assert all[HDR_LEN..][..4 * count] == r[HDR_LEN..][..4 * count];
      assert all[HDR_LEN..][4 * count..n] == r[HDR_LEN..][4 * count..n];
    }
  }

  lemma BehindFirst(replies: seq<seq<Byte>>, tail: seq<Byte>, k: nat)
    requires k < |replies|
    ensures |Flat(replies[..k])| <= |Flat(replies) + tail|
    ensures (Flat(replies) + tail)[|Flat(replies[..k])|..] == replies[k] + (Flat(replies[k + 1..]) + tail)
  {
    hide Flat;
    var before, rest := Flat(replies[..k]), Flat(replies[k..]);
    FlatSplit(replies, k);
    Segment.FlatHead(replies[k..], tail);
    assert replies[k..][0] == replies[k] && replies[k..][1..] == replies[k + 1..];
    Associate(before, rest, tail);
    assert (before + (rest + tail))[|before|..] == rest + tail;
  }

  /** The session as its client lives it: reading response after response from what the server sent, it
      comes to the k-th, and that tells the truth about the k-th request. */
  lemma KthVerdict(b: Board, e: Encoder, input: seq<Byte>, replies: seq<seq<Byte>>, upTo: nat, k: nat, tail: seq<Byte>)
    requires Causal(e) && AllAnswered(Hardware(b), e, Parse(input).frames, replies, upTo) && k < upTo && k < |replies|
    requires forall i | 0 <= i <= k :: FitsReply(Parse(input).frames[i].h) || !Oversized(replies[i])
    ensures Responses(Flat(replies[..k])) == replies[..k] && |Flat(replies[..k])| <= |Flat(replies) + tail|
    ensures var f := Parse(input).frames[k];
            var v := ClientVerdict(ImageCount(f.h), (Flat(replies) + tail)[|Flat(replies[..k])|..]);
            && (Check(Hardware(b), f.h) != ST_OK ==> v == Rejected(Check(Hardware(b), f.h)))
            && (Check(Hardware(b), f.h) == ST_OK && IsStream(f.h) && ImageCount(f.h) < MAX_FILES ==>
                  HonestVerdict(e, f, v))
  {
    hide Parse, Answers, WellFramed, Check, Responses, Flat, HonestVerdict, ClientVerdict, Causal, Oversized,
         ImageCount, FitsReply;
    var frames := Parse(input).frames;
    forall i | 0 <= i <= k
      ensures WellFramed(replies[i]) && !Oversized(replies[i])
      ensures |frames[i].payload| == frames[i].h.payloadLen && frames[i].h.magic == MAGIC
    {
      FramesWhole(input, i);
      AnswerFramed(Hardware(b), e, frames[i], replies[i], i < upTo);
    }
    ResponsesStayInStep(replies[..k]);
    BehindFirst(replies, tail, k);
    VerdictIgnoresRest(ImageCount(frames[k].h), replies[k], Flat(replies[k + 1..]) + tail);
    TrustedVerdict(b, e, frames[k], replies[k]);
  }

  lemma TrustedVerdict(b: Board, e: Encoder, f: Frame, reply: seq<Byte>)
    requires Causal(e) && Answers(Hardware(b), e, f, reply, true) && !Oversized(reply)
    requires f.h.magic == MAGIC && |f.payload| == f.h.payloadLen
    ensures var v := ClientVerdict(ImageCount(f.h), reply);
            && (Check(Hardware(b), f.h) != ST_OK ==> v == Rejected(Check(Hardware(b), f.h)))
            && (Check(Hardware(b), f.h) == ST_OK && IsStream(f.h) && ImageCount(f.h) < MAX_FILES ==>
                  HonestVerdict(e, f, v))
  {
    hide Check, HonestVerdict, ClientVerdict, Causal, Oversized, ImageCount, HwAnswer, ErrorReply;
    if Check(Hardware(b), f.h) != ST_OK {
      ErrorVerdict(ImageCount(f.h), f.h, Check(Hardware(b), f.h));
    } else if IsStream(f.h) && ImageCount(f.h) < MAX_FILES {
      StreamEndToEnd(b, e, f, reply);
    }
  }

  lemma ErrorVerdict(count: nat, req: Hdr, status: Byte)
    requires status != ST_OK
    ensures ClientVerdict(count, ErrorReply(req, status)) == Rejected(status)
  {
    hide UnpackHdr, ErrorReply;
    ErrorFramed(req, status);
    var r := ErrorReply(req, status);
    assert r[..HDR_LEN] == r;
  }

  lemma HonestFiles(e: Encoder, d: Dims, pixels: seq<Byte>, count: nat, status: Byte, images: seq<seq<Byte>>)
    requires Causal(e) && ImageBytes(d) > 0 && HonestStream(e, d, pixels, count, status, images)
    ensures status == ST_OK || status == ST_HW_ERROR || status == ST_HW_TIMEOUT
    ensures var files := Nonempty(images, 0);
            && |files| <= count && (status == ST_OK ==> |files| == count)
            && FirstPackets(e, d, pixels, files)
  {
    hide Causal, ImageBytes, PacketBytes, Nonempty, IsImage;
    var closed: nat :| ClosedExactly(e, d, pixels, images, closed) && (status == ST_OK ==> closed == count);
    forall k | 0 <= k < closed
      ensures images[k] != []
    {
      ItsPacket(e, d, pixels, k, images[k]);
      ImageSize(d, pixels, k);
      PacketNotEmpty(e, d, Image(d, pixels, k));
    }
    ClosedFirst(images, closed, 0);
    var files := Nonempty(images, 0);
    forall k | 0 <= k < |files|
      ensures (k + 1) * ImageBytes(d) <= |pixels| && files[k] == File(k, PacketBytes(e, d, Image(d, pixels, k)))
    {
      ItsPacket(e, d, pixels, k, images[k]);
      assert files[k] == File(0 + k, images[..closed][k]);
    }
  }
}
