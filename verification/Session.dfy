// serve_connection: one TCP connection, any number of requests, accepted or not.
module Session {
  import opened Bytes
  import opened Proto
  import opened Socket
  import opened Encoder
  import opened Fabric
  import opened Admission
  import opened Driver
  import opened Reply
  import opened Serve
  import Ring

  /** A request as it lies in the byte stream. */
  datatype Frame = Frame(h: Hdr, payload: seq<Byte>)

  datatype End =
    | Closed               // EOF between requests
    | CutShort             // EOF inside a header or payload
    | BadMagic(h: Hdr)     // not our stream

  datatype Parsed = Parsed(frames: seq<Frame>, end: End)

  /** The requests in a byte stream. It knows nothing of how the bytes arrive or how they are answered. */
  function Parse(input: seq<Byte>): Parsed
    decreases |input|
  {
    if input == [] then Parsed([], Closed)
    else if |input| < HDR_LEN then Parsed([], CutShort)
    else
      var h := UnpackHdr(input[..HDR_LEN]);
      var rest := input[HDR_LEN..];
      if h.magic != MAGIC then Parsed([], BadMagic(h))
      else if |rest| < h.payloadLen then Parsed([], CutShort)
      else
        var next := Parse(rest[h.payloadLen..]);
        Parsed([Frame(h, rest[..h.payloadLen])] + next.frames, next.end)
  }

  function ErrorReply(req: Hdr, status: Byte): seq<Byte> {
    PackHdr(req.(magic := MAGIC, version := VERSION, kind := ENCODE_RESP, status := status, payloadLen := 0))
  }

  /** The images of a stream payload, cut at the claimed size. */
  function Pieces(payload: seq<Byte>, size: nat): seq<seq<Byte>>
    decreases |payload|
  {
    if size == 0 || |payload| < size then [] else [payload[..size]] + Pieces(payload[size..], size)
  }

  function LoopReply(f: Frame): seq<Byte> {
    if IsStream(f.h) then StreamReply(f.h, ST_OK, Pieces(f.payload, Expect(f.h)))
    else PackHdr(f.h.(kind := ENCODE_RESP, status := ST_OK)) + f.payload
  }

  function FrameDims(h: Hdr): Dims {
    Dims(h.width, h.height, BytesPerPixel(h.bitness))
  }

  /** A stream reply with one entry for each image, none longer than a descriptor takes; if nothing went
      wrong before, honest. */
  ghost predicate SentStream(e: Encoder, f: Frame, reply: seq<Byte>, status: Byte, images: seq<seq<Byte>>,
                             trusted: bool) {
    && reply == StreamReply(f.h, status, images)
    && |images| == ImageCount(f.h) && (forall k | 0 <= k < |images| :: |images[k]| <= SlotRoom(SlotBytes(Expect(f.h))))
    && (trusted ==> HonestStream(e, FrameDims(f.h), f.payload, ImageCount(f.h), status, images)
                    && (status == ST_OK ==> SlotBytes(Expect(f.h)) < TWO_32))
  }

  /** A packet that the rx buffer held, cut to a length that a uint32_t tells. */
  ghost predicate SentSingle(b: Board, e: Encoder, f: Frame, reply: seq<Byte>, packet: seq<Byte>, trusted: bool) {
    && reply == SingleReply(f.h, packet) && |packet| < TWO_32
    && (trusted ==> |PacketBytes(e, FrameDims(f.h), f.payload)| <= b.rxSize
                    && CutSingle(e, FrameDims(f.h), f.h, f.payload, reply))
  }

  /** On a board with less than 4 GiB of rx buffer it is not cut. */
  lemma SmallBoardExact(b: Board, e: Encoder, f: Frame, reply: seq<Byte>, packet: seq<Byte>)
    requires SentSingle(b, e, f, reply, packet, true) && b.rxSize < TWO_32
    ensures ExactSingle(e, FrameDims(f.h), f.h, f.payload, reply)
  {
    hide PacketBytes, SingleReply, ImageBytes;
    CutIsExact(e, FrameDims(f.h), f.h, f.payload, reply);
  }

  /** What the hardware may answer: a status, or what the encoder makes of the pixels. */
  ghost predicate HwAnswer(b: Board, e: Encoder, f: Frame, reply: seq<Byte>, trusted: bool) {
    || reply == ErrorReply(f.h, ST_HW_ERROR)
    || reply == ErrorReply(f.h, ST_HW_TIMEOUT)
    || (if IsStream(f.h)
        then exists status, images :: SentStream(e, f, reply, status, images, trusted)
        else exists packet :: SentSingle(b, e, f, reply, packet, trusted))
  }

  /** The one response to a frame. */
  ghost predicate Answers(t: Target, e: Encoder, f: Frame, reply: seq<Byte>, trusted: bool) {
    if Check(t, f.h) != ST_OK then reply == ErrorReply(f.h, Check(t, f.h))
    else if t.Loopback? then reply == LoopReply(f)
    else HwAnswer(t.board, e, f, reply, trusted)
  }

  /** An answer that owns up to a failure: no OK, whatever it lists. */
  ghost predicate Broke(f: Frame, reply: seq<Byte>) {
    || reply == ErrorReply(f.h, ST_HW_ERROR)
    || reply == ErrorReply(f.h, ST_HW_TIMEOUT)
    || (IsStream(f.h) && exists status, images :: status != ST_OK && reply == StreamReply(f.h, status, images))
  }

  ghost predicate Succeeded(reply: seq<Byte>) {
    |reply| >= HDR_LEN && UnpackHdr(reply[..HDR_LEN]).status == ST_OK
  }

  lemma StatusSent(h: Hdr, rest: seq<Byte>)
    ensures Succeeded(PackHdr(h) + rest) <==> h.status == ST_OK
  {
    hide PackHdr, UnpackHdr;
    UnpackPack(h);
    assert (PackHdr(h) + rest)[..HDR_LEN] == PackHdr(h);
  }

  lemma OkSucceeds(req: Hdr, packet: seq<Byte>, images: seq<seq<Byte>>)
    ensures Succeeded(SingleReply(req, packet)) && Succeeded(StreamReply(req, ST_OK, images))
  {
    hide PackHdr, UnpackHdr, Table, Flat, Succeeded;
    var single := Hdr(MAGIC, VERSION, ENCODE_RESP, ST_OK, req.width, req.height, req.bitness, 0, Wrap32(|packet|));
    StatusSent(single, packet);
    var h := req.(kind := STREAM_RESP, status := ST_OK, payloadLen := Wrap32(TotalBytes(images)));
    StatusSent(h, Table(images) + Flat(images));
    Associate(PackHdr(h), Table(images), Flat(images));
  }

  /** When nothing fails, a frame that is admitted and that the board can do is answered OK, unless the
      request that begins with action `at` does not finish in time. */
  ghost predicate Fulfilled(drv: Driver, f: Frame, reply: seq<Byte>, at: nat) {
    Check(Hardware(drv.board), f.h) == ST_OK
    && Feasible(drv.e, drv.m, drv.board, FrameDims(f.h), f.h, f.payload) ==>
      Succeeded(reply) || Overdue(drv, FrameDims(f.h), f.h, f.payload, at)
  }

  /** The same, of a request that begins with some action from `from` to `to`. */
  ghost predicate FulfilledIn(drv: Driver, f: Frame, reply: seq<Byte>, from: nat, to: nat) {
    exists at :: from <= at <= to && Fulfilled(drv, f, reply, at)
  }

  ghost predicate AllFulfilled(drv: Driver, frames: seq<Frame>, replies: seq<seq<Byte>>, from: nat, to: nat) {
    |frames| == |replies| && forall k | 0 <= k < |frames| :: FulfilledIn(drv, frames[k], replies[k], from, to)
  }

  lemma FulfilledWider(drv: Driver, frames: seq<Frame>, replies: seq<seq<Byte>>, a: nat, b: nat, from: nat, to: nat)
    requires AllFulfilled(drv, frames, replies, a, b) && from <= a && b <= to
    ensures AllFulfilled(drv, frames, replies, from, to)
  {
    hide Fulfilled;
  }

  lemma OneMoreFulfilled(drv: Driver, frames: seq<Frame>, replies: seq<seq<Byte>>, f: Frame, reply: seq<Byte>,
                    from: nat, mid: nat, to: nat)
    requires AllFulfilled(drv, frames, replies, from, mid) && Fulfilled(drv, f, reply, mid) && from <= mid <= to
    ensures AllFulfilled(drv, frames + [f], replies + [reply], from, to)
  {
    hide Fulfilled;
    assert FulfilledIn(drv, f, reply, from, to);
    forall k | 0 <= k < |frames|
      ensures FulfilledIn(drv, frames[k], replies[k], from, to)
    {
    }
  }

  /** What a connection from action `from` to action `to` has shown of the hardware: how many answers are to
      be trusted, what hung, and, where nothing fails, that all was done. */
  ghost predicate Record(drv: Driver, quiet: bool, calm: bool, clean: bool, frames: seq<Frame>,
                         replies: seq<seq<Byte>>, upTo: nat, from: nat, to: nat) {
    && from <= to && upTo <= |frames| == |replies|
    && (!clean ==> HangsIn(drv.script, from, to))
    && (quiet ==> if clean then upTo == |frames| else upTo < |frames| && Broke(frames[upTo], replies[upTo]))
    && (calm ==> AllFulfilled(drv, frames, replies, from, to))
  }

  lemma EmptyRecord(drv: Driver, quiet: bool, calm: bool, from: nat)
    ensures Record(drv, quiet, calm, true, [], [], 0, from, from)
  {
    hide Broke, HangsIn, FulfilledIn;
  }

  lemma OneMoreRecord(drv: Driver, quiet: bool, calm: bool, clean: bool, frames: seq<Frame>, replies: seq<seq<Byte>>,
                      upTo: nat, from: nat, mid: nat, to: nat, f: Frame, reply: seq<Byte>, still: bool)
    requires Record(drv, quiet, calm, clean, frames, replies, upTo, from, mid) && mid <= to
    requires !still ==> HangsIn(drv.script, mid, to) && Broke(f, reply)
    requires calm ==> Fulfilled(drv, f, reply, mid)
    ensures Record(drv, quiet, calm, clean && still, frames + [f], replies + [reply],
                   if quiet && clean && still then upTo + 1 else upTo, from, to)
  {
    hide HangsIn, Broke, Fulfilled, AllFulfilled;
    HangsWider(drv.script, from, from, mid, to);
    HangsWider(drv.script, from, mid, to, to);
    if calm {
      OneMoreFulfilled(drv, frames, replies, f, reply, from, mid, to);
    }
  }

  /** The connection ends without another answer. */
  lemma LastRecord(drv: Driver, quiet: bool, calm: bool, clean: bool, frames: seq<Frame>, replies: seq<seq<Byte>>,
                   upTo: nat, from: nat, mid: nat, to: nat, still: bool)
    requires Record(drv, quiet, calm, clean, frames, replies, upTo, from, mid) && mid <= to
    requires !still ==> HangsIn(drv.script, mid, to)
    ensures upTo <= |frames| == |replies| && from <= to
    ensures !(clean && still) ==> HangsIn(drv.script, from, to)
    ensures quiet && clean ==> upTo == |frames|
    ensures quiet && upTo < |frames| ==> !clean && Broke(frames[upTo], replies[upTo])
    ensures ResetsWork(drv.script, from) ==> clean && still
    ensures calm ==> AllFulfilled(drv, frames, replies, from, to)
  {
    hide HangsIn, Broke, AllFulfilled, ResetsWork;
    WorkingNeverHangs(drv.script, from);
    HangsWider(drv.script, from, from, mid, to);
    HangsWider(drv.script, from, mid, to, to);
    if calm {
      FulfilledWider(drv, frames, replies, from, mid, from, to);
    }
  }

  /** Where resets work everything stays clean. */
  lemma CleanRecord(drv: Driver, quiet: bool, calm: bool, clean: bool, frames: seq<Frame>, replies: seq<seq<Byte>>,
                    upTo: nat, from: nat, to: nat)
    requires Record(drv, quiet, calm, clean, frames, replies, upTo, from, to)
    ensures upTo <= |frames| && (quiet && clean ==> upTo == |frames|)
    ensures Calm(drv.script, from) ==> clean && Calm(drv.script, to)
  {
    hide HangsIn, Broke, AllFulfilled, ResetsWork, Calm;
    CalmWorks(drv.script, from);
    WorkingNeverHangs(drv.script, from);
    CalmLater(drv.script, from, to);
  }

  function EndReply(end: End): seq<Byte> {
    if end.BadMagic? then ErrorReply(end.h, ST_BAD_MAGIC) else []
  }

  function EndCode(end: End): int {
    if end.Closed? then 0 else -1
  }

  function LoopAnswer(f: Frame): seq<Byte> {
    if Check(Loopback, f.h) != ST_OK then ErrorReply(f.h, Check(Loopback, f.h)) else LoopReply(f)
  }

  function LoopAnswers(frames: seq<Frame>): (replies: seq<seq<Byte>>)
    ensures |replies| == |frames| && forall k | 0 <= k < |frames| :: replies[k] == LoopAnswer(frames[k])
  {
    seq<seq<Byte>>(|frames|, k requires 0 <= k < |frames| => LoopAnswer(frames[k]))
  }

  /** All that a loopback server sends in a session: a function of the bytes it is sent. */
  function LoopSession(input: seq<Byte>): seq<Byte> {
    Flat(LoopAnswers(Parse(input).frames)) + EndReply(Parse(input).end)
  }

  method SendError(conn: Conn, req: Hdr, status: Byte) returns (rc: int)
    modifies conn`output, conn`writePlan
    ensures rc == 0 || rc == -1
    ensures old(Unbroken(conn.writePlan)) ==> Unbroken(conn.writePlan) && rc == 0
    ensures rc == 0 ==> conn.output == old(conn.output) + ErrorReply(req, status)
  {
    hide PackHdr;
    var buf := new Byte[HDR_LEN];
    HdrPack(buf, req.(magic := MAGIC, version := VERSION, kind := ENCODE_RESP, status := status, payloadLen := 0));
    assert buf[0..HDR_LEN] == buf[..];
    rc := conn.SendFull(buf, 0, HDR_LEN);
  }

  // --- loopback ---

  /** Cutting and gluing are inverse. */
  lemma {:induction false} CutIs(payload: seq<Byte>, size: nat, count: nat)
    requires size > 0 && |payload| == count * size
    ensures |Pieces(payload, size)| == count && Flat(Pieces(payload, size)) == payload
    decreases count
  {
    if count > 0 {
      CutStep(payload, size, count);
      CutIs(payload[size..], size, count - 1);
      var head, rest := payload[..size], Pieces(payload[size..], size);
      assert ([head] + rest)[1..] == rest;
      assert head + payload[size..] == payload;
    }
  }

  lemma {:induction false} CutAt(payload: seq<Byte>, size: nat, count: nat, i: nat)
    requires size > 0 && |payload| == count * size && i < count == |Pieces(payload, size)|
    ensures 0 <= i * size && i * size + size <= |payload|
    ensures Pieces(payload, size)[i] == payload[i * size..i * size + size]
    decreases count
  {
    CutStep(payload, size, count);
    if i > 0 {
      var rest := payload[size..];
      CutIs(rest, size, count - 1);
      CutAt(rest, size, count - 1, i - 1);
      assert i * size == (i - 1) * size + size;
      assert rest[(i - 1) * size..(i - 1) * size + size] == payload[i * size..i * size + size];
    } else {
      assert i * size == 0;
    }
  }

  lemma CutStep(payload: seq<Byte>, size: nat, count: nat)
    requires size > 0 && count > 0 && |payload| == count * size
    ensures |payload| >= size && |payload[size..]| == (count - 1) * size
  {
    assert count * size == (count - 1) * size + size;
    Ring.MulMono(0, count - 1, size);
  }

  lemma LoopbackStream(h: Hdr)
    requires Check(Loopback, h) == ST_OK && IsStream(h)
    ensures Expect(h) > 0 && h.payloadLen / Expect(h) * Expect(h) == h.payloadLen
  {
    hide Expect;
    assert Expect(h) != 0 && h.payloadLen != 0 && h.payloadLen % Expect(h) == 0;
    Divides(h.payloadLen, Expect(h));
  }

  lemma SlotsAreCut(base: seq<Byte>, pixels: seq<Byte>, size: nat, count: nat, lens: seq<U32>)
    requires size > 0 && |pixels| == count * size && pixels <= base
    requires |lens| == count && forall i | 0 <= i < count :: lens[i] == size
    ensures forall i | 0 <= i < count :: 0 <= i * size && i * size + lens[i] <= |base|
    ensures Slots(base, size, lens) == Pieces(pixels, size)
  {
    hide Pieces;
    CutIs(pixels, size, count);
    forall i | 0 <= i < count
      ensures 0 <= i * size && i * size + size <= |base| && base[i * size..i * size + size] == Pieces(pixels, size)[i]
    {
      CutAt(pixels, size, count, i);
    }
  }

  method LoopbackReply(conn: Conn, req: Hdr, payload: array<Byte>) returns (rc: int)
    requires Check(Loopback, req) == ST_OK && req.payloadLen <= payload.Length
    modifies conn`output, conn`writePlan
    ensures rc == 0 || rc == -1
    ensures old(Unbroken(conn.writePlan)) ==> Unbroken(conn.writePlan) && rc == 0
    ensures rc == 0 ==> conn.output == old(conn.output) + LoopReply(Frame(req, payload[..req.payloadLen]))
  {
    hide Check, Expect, StreamReply, Pieces;
    if IsStream(req) {
      LoopbackStream(req);
      var size := Expect(req);
      var count := req.payloadLen / size;
      var lens := new U32[count](_ => size);
      SlotsAreCut(payload[..], payload[..req.payloadLen], size, count, lens[..]);
      rc := StreamSend(conn, req, ST_OK, payload, size, lens);
    } else {
      rc := EchoSingle(conn, req, payload);
    }
  }

  method EchoSingle(conn: Conn, req: Hdr, payload: array<Byte>) returns (rc: int)
    requires req.payloadLen <= payload.Length
    modifies conn`output, conn`writePlan
    ensures rc == 0 || rc == -1
    ensures old(Unbroken(conn.writePlan)) ==> Unbroken(conn.writePlan) && rc == 0
    ensures rc == 0 ==>
              conn.output == old(conn.output)
                             + (PackHdr(req.(kind := ENCODE_RESP, status := ST_OK)) + payload[..req.payloadLen])
  {
    hide PackHdr;
    ghost var start := conn.output;
    var hdrBuf := new Byte[HDR_LEN];
    HdrPack(hdrBuf, req.(kind := ENCODE_RESP, status := ST_OK));
    rc := conn.SendFull(hdrBuf, 0, HDR_LEN);
    if rc != 0 {
      return -1;
    }
    assert hdrBuf[0..HDR_LEN] == hdrBuf[..];
    rc := conn.SendFull(payload, 0, req.payloadLen);
    if rc != 0 {
      return -1;
    }
    assert payload[0..req.payloadLen] == payload[..req.payloadLen];
    assert (start + hdrBuf[..]) + payload[..req.payloadLen] == start + (hdrBuf[..] + payload[..req.payloadLen]);
  }

  // --- one request ---

  /** A rejected request: skip its payload, send its status. */
  method Refuse(conn: Conn, req: Hdr, status: Byte) returns (rc: int)
    modifies conn
    ensures rc == 0 || rc == -1
    ensures old(conn.Sound()) ==> conn.Sound() && (rc == 0 <==> req.payloadLen <= |old(conn.input)|)
    ensures old(conn.Sound()) && rc != 0 ==> conn.output == old(conn.output)
    ensures rc == 0 ==> req.payloadLen <= |old(conn.input)| && conn.input == old(conn.input)[req.payloadLen..]
                        && conn.output == old(conn.output) + ErrorReply(req, status)
  {
    hide ErrorReply;
    rc := conn.Drain(req.payloadLen);
    if rc != 0 {
      return -1;
    }
    rc := SendError(conn, req, status);
  }

  method Echo(conn: Conn, req: Hdr, buf: array<Byte>) returns (rc: int)
    requires Check(Loopback, req) == ST_OK && req.payloadLen <= buf.Length
    modifies conn, buf
    ensures rc == 0 || rc == -1
    ensures old(conn.Sound()) ==> conn.Sound() && (rc == 0 <==> req.payloadLen <= |old(conn.input)|)
    ensures old(conn.Sound()) && rc != 0 ==> conn.output == old(conn.output)
    ensures rc == 0 ==> req.payloadLen <= |old(conn.input)| && conn.input == old(conn.input)[req.payloadLen..]
                        && conn.output == old(conn.output) + LoopReply(Frame(req, old(conn.input)[..req.payloadLen]))
  {
    hide Check, LoopReply;
    rc := conn.RecvFull(buf, 0, req.payloadLen);
    if rc != 0 {
      return -1;
    }
    assert buf[..req.payloadLen] == buf[0..req.payloadLen];
    rc := LoopbackReply(conn, req, buf);
  }

  /** An admitted request on the board: its pixels into the tx buffer, then its reply. */
  method Encode(conn: Conn, drv: Driver, req: Hdr) returns (rc: int, ghost reply: seq<Byte>, ghost clean: bool)
    requires drv.Valid() && Check(Hardware(drv.board), req) == ST_OK
    modifies conn, drv, drv.tx, drv.rx, drv.desc
    ensures drv.Valid()
    ensures rc == 0 || rc == -1
    ensures clean && old(Quiet(drv.hw)) ==> Quiet(drv.hw)
    ensures !clean ==> HangsIn(drv.script, old(drv.at), drv.at)
    ensures drv.at >= old(drv.at)
    ensures old(conn.Sound()) ==> conn.Sound() && (rc == 0 <==> req.payloadLen <= |old(conn.input)|)
    ensures old(conn.Sound()) && rc != 0 ==> conn.output == old(conn.output)
    ensures rc == 0 ==> req.payloadLen <= |old(conn.input)| && conn.input == old(conn.input)[req.payloadLen..]
                        && conn.output == old(conn.output) + reply
                        && HwAnswer(drv.board, drv.e, Frame(req, old(conn.input)[..req.payloadLen]), reply,
                                    clean && old(Quiet(drv.hw)))
                        && (!clean ==> Broke(Frame(req, old(conn.input)[..req.payloadLen]), reply))
    ensures rc == 0 && Calm(drv.script, old(drv.at)) && old(Quiet(drv.hw)) ==>
              Fulfilled(drv, Frame(req, old(conn.input)[..req.payloadLen]), reply, old(drv.at))
  {
    hide Check, HwAnswer, Causal, Broke, HungReset, Fulfilled, Calm;
    reply, clean := [], true;
    PayloadInTx(drv.board, req);
    ghost var pixels := if req.payloadLen <= |conn.input| then conn.input[..req.payloadLen] else [];
    rc := conn.RecvFull(drv.tx, 0, req.payloadLen);
    if rc != 0 {
      return -1, reply, clean;
    }
    assert drv.tx[..req.payloadLen] == drv.tx[0..req.payloadLen];
    if IsStream(req) {
      rc, reply, clean := EncodeStream(conn, drv, req, pixels);
    } else {
      rc, reply, clean := EncodeSingle(conn, drv, req, pixels);
    }
  }

  lemma PayloadInTx(b: Board, req: Hdr)
    requires Check(Hardware(b), req) == ST_OK
    ensures req.payloadLen <= b.txSize
  {
    hide Check;
    if IsStream(req) {
      AdmittedStream(b, req);
    } else {
      AdmittedSingle(b, req);
    }
  }

  lemma DimsOfFrame(drv: Driver, req: Hdr)
    requires Check(Hardware(drv.board), req) == ST_OK
    ensures drv.DimsOf(req.width, req.height) == FrameDims(req)
  {
    assert req.bitness == drv.board.bitness;
  }

  method EncodeSingle(conn: Conn, drv: Driver, req: Hdr, ghost pixels: seq<Byte>)
      returns (rc: int, ghost reply: seq<Byte>, ghost clean: bool)
    requires drv.Valid() && Check(Hardware(drv.board), req) == ST_OK && !IsStream(req)
    requires req.payloadLen <= drv.tx.Length && pixels == drv.tx[..req.payloadLen]
    modifies drv, drv.desc, drv.rx, conn`output, conn`writePlan
    ensures drv.Valid()
    ensures rc == 0 || rc == -1
    ensures clean && old(Quiet(drv.hw)) ==> Quiet(drv.hw)
    ensures !clean ==> HangsIn(drv.script, old(drv.at), drv.at)
    ensures drv.at >= old(drv.at)
    ensures old(Unbroken(conn.writePlan)) ==> Unbroken(conn.writePlan) && rc == 0
    ensures rc == 0 ==> conn.output == old(conn.output) + reply
                        && HwAnswer(drv.board, drv.e, Frame(req, pixels), reply, clean && old(Quiet(drv.hw)))
                        && (!clean ==> Broke(Frame(req, pixels), reply))
    ensures rc == 0 && Calm(drv.script, old(drv.at)) && old(Quiet(drv.hw)) ==>
              Fulfilled(drv, Frame(req, pixels), reply, old(drv.at))
  {
    hide Check, Causal, ErrorReply, SingleReply, CutSingle, HungReset, Feasible, Overdue, Calm, Succeeded;
    ghost var packet;
    DimsOfFrame(drv, req);
    rc, clean, packet := EncodeAndReply(conn, drv, req);
    reply := SingleReply(req, packet);
    OkSucceeds(req, packet, []);
    if rc == 0 {
      assert SentSingle(drv.board, drv.e, Frame(req, pixels), reply, packet, clean && old(Quiet(drv.hw)));
    } else if rc > 0 {
      reply := ErrorReply(req, rc);
      rc := SendError(conn, req, rc);
    }
  }

  method EncodeStream(conn: Conn, drv: Driver, req: Hdr, ghost pixels: seq<Byte>)
      returns (rc: int, ghost reply: seq<Byte>, ghost clean: bool)
    requires drv.Valid() && Check(Hardware(drv.board), req) == ST_OK && IsStream(req)
    requires req.payloadLen <= drv.tx.Length && pixels == drv.tx[..req.payloadLen]
    modifies drv, drv.desc, drv.rx, conn`output, conn`writePlan
    ensures drv.Valid()
    ensures rc == 0 || rc == -1
    ensures clean && old(Quiet(drv.hw)) ==> Quiet(drv.hw)
    ensures !clean ==> HangsIn(drv.script, old(drv.at), drv.at)
    ensures drv.at >= old(drv.at)
    ensures old(Unbroken(conn.writePlan)) ==> Unbroken(conn.writePlan) && rc == 0
    ensures rc == 0 ==> conn.output == old(conn.output) + reply
                        && HwAnswer(drv.board, drv.e, Frame(req, pixels), reply, clean && old(Quiet(drv.hw)))
                        && (!clean ==> Broke(Frame(req, pixels), reply))
    ensures rc == 0 && Calm(drv.script, old(drv.at)) && old(Quiet(drv.hw)) ==>
              Fulfilled(drv, Frame(req, pixels), reply, old(drv.at))
  {
    hide Check, Causal, ErrorReply, StreamReply, HonestStream, SlotBytes, SlotRoom, Expect, ImageCount, HungReset,
         Feasible, Overdue, Calm, Succeeded;
    ghost var status, images;
    DimsOfFrame(drv, req);
    rc, clean, status, images := StreamAndReply(conn, drv, req, ImageCount(req));
    reply := StreamReply(req, status, images);
    OkSucceeds(req, [], images);
    if rc == 0 {
      assert SentStream(drv.e, Frame(req, pixels), reply, status, images, clean && old(Quiet(drv.hw)));
    } else if rc > 0 {
      reply := ErrorReply(req, rc);
      rc := SendError(conn, req, rc);
    }
  }

  // --- the session ---

  /** The first `upTo` frames were answered over hardware that every reset so far had reached. */
  ghost predicate AllAnswered(t: Target, e: Encoder, frames: seq<Frame>, replies: seq<seq<Byte>>, upTo: nat) {
    |replies| == |frames| && forall k | 0 <= k < |frames| :: Answers(t, e, frames[k], replies[k], k < upTo)
  }

  /** Bookkeeping of the loop: the frames answered so far, with their answers, and what is left. */
  ghost predicate Accounted(t: Target, e: Encoder, all: seq<Byte>, left: seq<Byte>, sent: seq<Byte>, done: seq<Frame>,
                           replies: seq<seq<Byte>>, upTo: nat) {
    && Parse(all) == Parsed(done + Parse(left).frames, Parse(left).end)
    && sent == Flat(replies)
    && AllAnswered(t, e, done, replies, upTo)
  }

  lemma StartAccounted(t: Target, e: Encoder, all: seq<Byte>)
    ensures Accounted(t, e, all, all, [], [], [], 0)
  {
    hide Answers;
    assert [] + Parse(all).frames == Parse(all).frames;
  }

  /** `left` starts with the frame f. */
  ghost predicate Next(left: seq<Byte>, f: Frame) {
    && |left| >= HDR_LEN + f.h.payloadLen
    && f.h == UnpackHdr(left[..HDR_LEN]) && f.h.magic == MAGIC
    && f.payload == left[HDR_LEN..HDR_LEN + f.h.payloadLen]
  }

  lemma ParseNext(left: seq<Byte>, f: Frame)
    requires Next(left, f)
    ensures |left| >= HDR_LEN + f.h.payloadLen
    ensures var rest := Parse(left[HDR_LEN + f.h.payloadLen..]);
            Parse(left) == Parsed([f] + rest.frames, rest.end)
  {
    hide UnpackHdr;
    var rest := left[HDR_LEN..];
    assert rest[f.h.payloadLen..] == left[HDR_LEN + f.h.payloadLen..] && rest[..f.h.payloadLen] == f.payload;
  }

  /** One more frame taken and answered. */
  lemma OneMore(t: Target, e: Encoder, all: seq<Byte>, left: seq<Byte>, sent: seq<Byte>, done: seq<Frame>,
                replies: seq<seq<Byte>>, upTo: nat, f: Frame, reply: seq<Byte>, now: nat)
    requires Accounted(t, e, all, left, sent, done, replies, upTo)
    requires Next(left, f) && Answers(t, e, f, reply, now > |done|)
    requires now == upTo <= |done| || (now == upTo + 1 && upTo == |done|)
    ensures Accounted(t, e, all, left[HDR_LEN + f.h.payloadLen..], sent + reply, done + [f], replies + [reply], now)
  {
    hide Answers, Parse, Next, Flat;
    ParseNext(left, f);
    var next := Parse(left[HDR_LEN + f.h.payloadLen..]);
    assert done + ([f] + next.frames) == (done + [f]) + next.frames;
    FlatSnoc(replies, reply);
    assert AllAnswered(t, e, done, replies, upTo);
  }

  /** How the bytes end when no whole frame is left. */
  function EndOf(left: seq<Byte>): End {
    if left == [] then Closed
    else if |left| >= HDR_LEN && UnpackHdr(left[..HDR_LEN]).magic != MAGIC then BadMagic(UnpackHdr(left[..HDR_LEN]))
    else CutShort
  }

  lemma Finish(t: Target, e: Encoder, all: seq<Byte>, left: seq<Byte>, sent: seq<Byte>, done: seq<Frame>,
               replies: seq<seq<Byte>>, upTo: nat)
    requires Accounted(t, e, all, left, sent, done, replies, upTo)
    requires |left| >= HDR_LEN && UnpackHdr(left[..HDR_LEN]).magic == MAGIC ==>
               |left| < HDR_LEN + UnpackHdr(left[..HDR_LEN]).payloadLen
    ensures Parse(all) == Parsed(done, EndOf(left)) && sent == Flat(replies) && AllAnswered(t, e, done, replies, upTo)
  {
    hide UnpackHdr, Flat, AllAnswered;
    assert done + [] == done;
  }

  lemma Weaken(b: Board, e: Encoder, f: Frame, reply: seq<Byte>, was: bool, now: bool)
    requires HwAnswer(b, e, f, reply, was) && (now ==> was)
    ensures HwAnswer(b, e, f, reply, now)
  {
    hide ErrorReply, StreamReply, SingleReply, HonestStream, CutSingle, ImageCount, SlotBytes, SlotRoom, Expect;
    if reply != ErrorReply(f.h, ST_HW_ERROR) && reply != ErrorReply(f.h, ST_HW_TIMEOUT) {
      if IsStream(f.h) {
        var status, images :| SentStream(e, f, reply, status, images, was);
        assert SentStream(e, f, reply, status, images, now);
      } else {
        var packet :| SentSingle(b, e, f, reply, packet, was);
        assert SentSingle(b, e, f, reply, packet, now);
      }
    }
  }

  /** What happens to one frame after its header: rejected, echoed or encoded. */
  method AnswerFrame(conn: Conn, t: Target, drv: Driver, req: Hdr, loopBuf: array<Byte>)
      returns (rc: int, buf: array<Byte>, ghost reply: seq<Byte>, ghost clean: bool)
    requires t.Hardware? ==> drv.Valid() && drv.board == t.board
    modifies conn, drv, drv.tx, drv.rx, drv.desc, loopBuf
    ensures buf == loopBuf || fresh(buf)
    ensures t.Hardware? ==> drv.Valid() && (clean && old(Quiet(drv.hw)) ==> Quiet(drv.hw))
    ensures t.Loopback? ==> clean && drv.hw == old(drv.hw)
    ensures !clean ==> HangsIn(drv.script, old(drv.at), drv.at)
    ensures drv.at >= old(drv.at)
    ensures rc == 0 || rc == -1
    ensures old(conn.Sound()) ==> conn.Sound() && (rc == 0 <==> req.payloadLen <= |old(conn.input)|)
    ensures old(conn.Sound()) && rc != 0 ==> conn.output == old(conn.output)
    ensures rc == 0 ==> req.payloadLen <= |old(conn.input)| && conn.input == old(conn.input)[req.payloadLen..]
                        && conn.output == old(conn.output) + reply
                        && Answers(t, drv.e, Frame(req, old(conn.input)[..req.payloadLen]), reply,
                                   clean && old(Quiet(drv.hw)))
                        && (!clean ==> Broke(Frame(req, old(conn.input)[..req.payloadLen]), reply))
    ensures rc == 0 && t.Hardware? && Calm(drv.script, old(drv.at)) && old(Quiet(drv.hw)) ==>
              Fulfilled(drv, Frame(req, old(conn.input)[..req.payloadLen]), reply, old(drv.at))
  {
    hide Check, ErrorReply, LoopReply, Causal, HwAnswer, Broke, HungReset, Feasible, Overdue, Calm, Succeeded;
    ghost var payload := if req.payloadLen <= |conn.input| then conn.input[..req.payloadLen] else [];
    buf, reply, clean := loopBuf, [], true;
    var st := Check(t, req);
    if st != ST_OK {
      rc := Refuse(conn, req, st);
      reply := ErrorReply(req, st);
    } else if t.Loopback? {
      if loopBuf.Length < req.payloadLen {
        buf := new Byte[req.payloadLen];
      }
      rc := Echo(conn, req, buf);
      reply := LoopReply(Frame(req, payload));
    } else {
      rc, reply, clean := Encode(conn, drv, req);
    }
  }

  lemma WeakenAnswer(t: Target, e: Encoder, f: Frame, reply: seq<Byte>, was: bool, now: bool)
    requires Answers(t, e, f, reply, was) && (now ==> was)
    ensures Answers(t, e, f, reply, now)
  {
    hide HwAnswer, Check, ErrorReply, LoopReply;
    if Check(t, f.h) == ST_OK && t.Hardware? {
      Weaken(t.board, e, f, reply, was, now);
    }
  }

  /** One whole connection. With a socket that only cuts and interrupts, the server takes exactly the
      frames in the stream, each with 20 + payload_len bytes, accepted or not, and answers each with
      one response in order; bad magic gets one error response and ends the session. On a quiet board
      whose resets work every answer is exact or an honest failure. Otherwise the first `upTo` are: the
      recovery of frame `upTo` hung, and its answer does not say OK. When nothing at all fails, every
      admitted frame that the board can do is answered OK, unless its run is not over in time. */
  method ServeConnection(conn: Conn, t: Target, drv: Driver)
      returns (rc: int, ghost frames: seq<Frame>, ghost replies: seq<seq<Byte>>, ghost upTo: nat, ghost clean: bool)
    requires t.Hardware? ==> drv.Valid() && drv.board == t.board
    modifies conn, drv, drv.tx, drv.rx, drv.desc
    ensures t.Hardware? ==> drv.Valid()
    ensures old(Quiet(drv.hw)) && ResetsWork(drv.script, old(drv.at)) ==> clean && upTo == |frames|
    ensures clean && old(Quiet(drv.hw)) ==> Quiet(drv.hw) && upTo == |frames|
    ensures !clean ==> HangsIn(drv.script, old(drv.at), drv.at)
    ensures drv.at >= old(drv.at) && upTo <= |frames| == |replies|
    ensures old(Quiet(drv.hw)) && upTo < |frames| ==> !clean && Broke(frames[upTo], replies[upTo])
    ensures old(conn.Sound()) ==>
              var p := Parse(old(conn.input));
              && frames == p.frames && AllAnswered(t, drv.e, frames, replies, upTo)
              && conn.output == old(conn.output) + Flat(replies) + EndReply(p.end)
              && rc == EndCode(p.end)
    ensures t.Hardware? && old(Quiet(drv.hw)) && Calm(drv.script, old(drv.at)) ==>
              AllFulfilled(drv, frames, replies, old(drv.at), drv.at)
    ensures old(conn.Sound()) && t.Loopback? ==> conn.output == old(conn.output) + LoopSession(old(conn.input))
  {
    hide Check, UnpackHdr, Parse, ErrorReply, LoopReply, Accounted, Flat, Causal, AllAnswered, Answers, Broke,
         HungReset, LoopSession, HangsIn, ResetsWork, Driver.Valid, Quiet, Fulfilled, AllFulfilled, Calm, Record,
         EndOf, EndCode, EndReply;
    ghost var start, all, sound := conn.output, conn.input, conn.Sound();
    ghost var sent: seq<Byte> := [];
    var loopBuf := new Byte[0];
    rc, frames, replies, upTo, clean := 0, [], [], 0, true;
    ghost var from := drv.at;
    ghost var quiet := Quiet(drv.hw);
    ghost var calm := t.Hardware? && quiet && Calm(drv.script, from);
    StartAccounted(t, drv.e, all);
    EmptyRecord(drv, quiet, calm, from);
    while true
      invariant t.Hardware? ==> drv.Valid()
      invariant clean && quiet ==> Quiet(drv.hw)
      invariant Record(drv, quiet, calm, clean, frames, replies, upTo, from, drv.at)
      invariant fresh(loopBuf)
      invariant sound ==> conn.Sound() && conn.output == start + sent
      invariant sound ==> Accounted(t, drv.e, all, conn.input, sent, frames, replies, upTo)
      decreases |conn.input|
    {
      ghost var left := conn.input;
      CleanRecord(drv, quiet, calm, clean, frames, replies, upTo, from, drv.at);
      var hdrRaw := new Byte[HDR_LEN];
      rc := conn.RecvFull(hdrRaw, 0, HDR_LEN);
      if rc != 0 {
        LastRecord(drv, quiet, calm, clean, frames, replies, upTo, from, drv.at, drv.at, true);
        if sound {
          Ended(t, drv.e, all, left, start, sent, frames, replies, upTo);
        }
        rc := if rc == 1 then 0 else rc;
        return;
      }
      assert hdrRaw[..] == hdrRaw[0..HDR_LEN];
      var req := UnpackHdr(hdrRaw[..]);
      if req.magic != MAGIC {
        LastRecord(drv, quiet, calm, clean, frames, replies, upTo, from, drv.at, drv.at, true);
        if sound {
          Ended(t, drv.e, all, left, start, sent, frames, replies, upTo);
        }
        var ignored := SendError(conn, req, ST_BAD_MAGIC);
        rc := -1;
        return;
      }
      ghost var body, quietNow := conn.input, Quiet(drv.hw);
      ghost var reply, stillClean;
      ghost var mid := drv.at;
      rc, loopBuf, reply, stillClean := AnswerFrame(conn, t, drv, req, loopBuf);
      if rc != 0 {
        LastRecord(drv, quiet, calm, clean, frames, replies, upTo, from, mid, drv.at, stillClean);
        if sound {
          Ended(t, drv.e, all, left, start, sent, frames, replies, upTo);
        }
        clean := clean && stillClean;
        return;
      }
      ghost var f := Frame(req, body[..req.payloadLen]);
      ghost var now := if quiet && clean && stillClean then upTo + 1 else upTo;
      OneMoreRecord(drv, quiet, calm, clean, frames, replies, upTo, from, mid, drv.at, f, reply, stillClean);
      if sound {
        TakeOne(t, drv.e, all, left, body, sent, frames, replies, upTo, f, reply, stillClean && quietNow, now);
        Associate(start, sent, reply);
      }
      frames, replies, sent, upTo, clean := frames + [f], replies + [reply], sent + reply, now, clean && stillClean;
    }
  }

  /** Finish, as the server's output shows it. */
  lemma Ended(t: Target, e: Encoder, all: seq<Byte>, left: seq<Byte>, start: seq<Byte>, sent: seq<Byte>,
              done: seq<Frame>, replies: seq<seq<Byte>>, upTo: nat)
    requires Accounted(t, e, all, left, sent, done, replies, upTo)
    requires |left| >= HDR_LEN && UnpackHdr(left[..HDR_LEN]).magic == MAGIC ==>
               |left| < HDR_LEN + UnpackHdr(left[..HDR_LEN]).payloadLen
    ensures Parse(all) == Parsed(done, EndOf(left)) && sent == Flat(replies) && AllAnswered(t, e, done, replies, upTo)
    ensures t.Loopback? ==> start + sent + EndReply(EndOf(left)) == start + LoopSession(all)
    ensures EndCode(EndOf(left)) == if left == [] then 0 else -1
    ensures EndReply(EndOf(left)) ==
            if |left| >= HDR_LEN && UnpackHdr(left[..HDR_LEN]).magic != MAGIC
            then ErrorReply(UnpackHdr(left[..HDR_LEN]), ST_BAD_MAGIC) else []
  {
    EndedSo(left);
    hide UnpackHdr, Flat, AllAnswered, Accounted, EndReply, EndOf, LoopAnswer, EndCode, ErrorReply;
    Finish(t, e, all, left, sent, done, replies, upTo);
    if t.Loopback? {
      LoopAnswered(e, done, replies, upTo);
      Associate(start, sent, EndReply(EndOf(left)));
    }
  }

  lemma EndedSo(left: seq<Byte>)
    ensures EndCode(EndOf(left)) == if left == [] then 0 else -1
    ensures EndReply(EndOf(left)) ==
            if |left| >= HDR_LEN && UnpackHdr(left[..HDR_LEN]).magic != MAGIC
            then ErrorReply(UnpackHdr(left[..HDR_LEN]), ST_BAD_MAGIC) else []
  {
    hide UnpackHdr, ErrorReply;
  }

  /** Loopback answers depend on the frames alone. */
  lemma LoopAnswered(e: Encoder, frames: seq<Frame>, replies: seq<seq<Byte>>, upTo: nat)
    requires AllAnswered(Loopback, e, frames, replies, upTo)
    ensures replies == LoopAnswers(frames)
  {
    hide Check, ErrorReply, LoopReply;
    forall k | 0 <= k < |frames|
      ensures replies[k] == LoopAnswer(frames[k])
    {
      assert Answers(Loopback, e, frames[k], replies[k], k < upTo);
    }
  }

  lemma TakeOne(t: Target, e: Encoder, all: seq<Byte>, left: seq<Byte>, body: seq<Byte>, sent: seq<Byte>,
                done: seq<Frame>, replies: seq<seq<Byte>>, upTo: nat, f: Frame, reply: seq<Byte>,
                trusted: bool, now: nat)
    requires Accounted(t, e, all, left, sent, done, replies, upTo)
    requires |left| >= HDR_LEN && body == left[HDR_LEN..] && f.h == UnpackHdr(left[..HDR_LEN]) && f.h.magic == MAGIC
    requires f.h.payloadLen <= |body| && f.payload == body[..f.h.payloadLen]
    requires Answers(t, e, f, reply, trusted) && (now > |done| ==> trusted)
    requires now == upTo <= |done| || (now == upTo + 1 && upTo == |done|)
    ensures Accounted(t, e, all, body[f.h.payloadLen..], sent + reply, done + [f], replies + [reply], now)
  {
    hide UnpackHdr, Answers, Accounted, Next;
    TookFrame(left, body, f);
    WeakenAnswer(t, e, f, reply, trusted, now > |done|);
    OneMore(t, e, all, left, sent, done, replies, upTo, f, reply, now);
  }

  lemma TookFrame(left: seq<Byte>, body: seq<Byte>, f: Frame)
    requires |left| >= HDR_LEN && body == left[HDR_LEN..] && f.h == UnpackHdr(left[..HDR_LEN]) && f.h.magic == MAGIC
    requires f.h.payloadLen <= |body| && f.payload == body[..f.h.payloadLen]
    ensures Next(left, f) && |left| >= HDR_LEN + f.h.payloadLen
    ensures body[f.h.payloadLen..] == left[HDR_LEN + f.h.payloadLen..]
  {
    hide UnpackHdr;
  }
}
