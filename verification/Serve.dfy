// encode_and_reply and stream_and_reply: from admitted pixels in the tx buffer to bytes on the wire.
module Serve {
  import opened Bytes
  import opened Proto
  import opened Socket
  import opened Ring
  import opened Encoder
  import opened Fabric
  import opened Sink
  import opened Run
  import opened Evidence
  import opened Admission
  import opened Safety
  import opened Health
  import opened Driver
  import opened Launch
  import opened Reply
  import opened Prepare
  import Gate
  import Segment

  function PacketBytes(e: Encoder, d: Dims, image: seq<Byte>): seq<Byte> {
    Untag(Packet(e, d, image))
  }

  /** Header and bitstream of one image. */
  function SingleReply(req: Hdr, packet: seq<Byte>): seq<Byte> {
    PackHdr(Hdr(MAGIC, VERSION, ENCODE_RESP, ST_OK, req.width, req.height, req.bitness, 0, Wrap32(|packet|))) + packet
  }

  /** The reply is the whole packet of the whole image, and its length field is true. */
  ghost predicate ExactSingle(e: Encoder, d: Dims, req: Hdr, pixels: seq<Byte>, reply: seq<Byte>) {
    && |pixels| == ImageBytes(d)
    && |PacketBytes(e, d, pixels)| < TWO_32
    && reply == SingleReply(req, PacketBytes(e, d, pixels))
  }

  /** The bytes that leave of a packet: the sum of the counts is a uint32_t. */
  function SentPart(packet: seq<Byte>): seq<Byte> {
    Wrapped(|packet|);
    packet[..Wrap32(|packet|)]
  }

  /** The reply holds the first bytes of the packet of the whole image: its length modulo 2^32. */
  ghost predicate CutSingle(e: Encoder, d: Dims, req: Hdr, pixels: seq<Byte>, reply: seq<Byte>) {
    && |pixels| == ImageBytes(d)
    && reply == SingleReply(req, SentPart(PacketBytes(e, d, pixels)))
  }

  /** It holds all of the packet exactly if the packet is shorter than 2^32 bytes. */
  lemma CutIsExact(e: Encoder, d: Dims, req: Hdr, pixels: seq<Byte>, reply: seq<Byte>)
    requires CutSingle(e, d, req, pixels, reply)
    ensures ExactSingle(e, d, req, pixels, reply) <==> |PacketBytes(e, d, pixels)| < TWO_32
    ensures reply == SingleReply(req, PacketBytes(e, d, pixels)) <==> |PacketBytes(e, d, pixels)| < TWO_32
  {
    hide PackHdr, PacketBytes, ImageBytes;
    var packet := PacketBytes(e, d, pixels);
    Wrapped(|packet|);
    assert |SingleReply(req, packet)| == HDR_LEN + |packet|;
    assert |SingleReply(req, SentPart(packet))| == HDR_LEN + Wrap32(|packet|);
    if |packet| < TWO_32 {
      assert SentPart(packet) == packet;
    }
  }

  lemma Wrapped(n: nat)
    ensures Wrap32(n) <= n && (Wrap32(n) == n <==> n < TWO_32)
  {
  }

  /** How that fails in the code: an image that a board with 6 GiB of rx buffer admits. If its packet
      has 2^32 bytes, as that of some encoder does, the reply says OK and holds none of them. */
  lemma TruncatedImage(e: Encoder, pixels: seq<Byte>, reply: seq<Byte>)
    ensures Check(Hardware(WIDE_RX), HUGE_IMAGE) == ST_OK && !IsStream(HUGE_IMAGE)
    ensures |pixels| == HUGE_IMAGE.payloadLen ==> exists c :: Causal(c) && |PacketBytes(c, HUGE_DIMS, pixels)| == TWO_32
    ensures |PacketBytes(e, HUGE_DIMS, pixels)| == TWO_32 && CutSingle(e, HUGE_DIMS, HUGE_IMAGE, pixels, reply) ==>
              reply == SingleReply(HUGE_IMAGE, []) && !ExactSingle(e, HUGE_DIMS, HUGE_IMAGE, pixels, reply)
  {
    hide PackHdr, Packet;
    if |pixels| == HUGE_IMAGE.payloadLen {
      CausalCores(TWO_32, HUGE_DIMS, pixels);
    }
  }

  const WIDE_RX := Board(8, 65535, 65535, 0x1_0000_0000, 0x1_8000_0000, 0x10_0000)
  const HUGE_IMAGE := Hdr(MAGIC, VERSION, ENCODE_REQ, 0, 65535, 65535, 8, 0, 0xFFFE_0001)
  const HUGE_DIMS := Dims(65535, 65535, 1)

  /** The k-th image is whole in `pixels`, and `bytes` is its packet. */
  ghost predicate IsImage(e: Encoder, d: Dims, pixels: seq<Byte>, k: nat, bytes: seq<Byte>) {
    (k + 1) * ImageBytes(d) <= |pixels| && bytes == PacketBytes(e, d, Image(d, pixels, k))
  }

  /** The first `closed` images are exactly the packets of the first images, the rest are empty. */
  ghost predicate ClosedExactly(e: Encoder, d: Dims, pixels: seq<Byte>, images: seq<seq<Byte>>, closed: nat) {
    && closed <= |images|
    && (forall k | 0 <= k < closed :: IsImage(e, d, pixels, k, images[k]))
    && (forall k | closed <= k < |images| :: images[k] == [])
  }

  /** What a stream reply may say: only whole packets, in order, and OK only if all are there. */
  ghost predicate HonestStream(e: Encoder, d: Dims, pixels: seq<Byte>, count: nat, status: Byte,
                               images: seq<seq<Byte>>) {
    && |images| == count
    && (status == ST_OK || status == ST_HW_ERROR || status == ST_HW_TIMEOUT)
    && exists closed :: ClosedExactly(e, d, pixels, images, closed) && (status == ST_OK ==> closed == count)
  }

  // --- looks at the same run at different times ---

  /** The run still goes on, or was stopped by a DMA reset. */
  ghost predicate Standing(j: Job, hw: Hw) {
    Good(j, hw) || (Told(j, hw) && Quiet(hw) && hw.s2mm.phase != Running)
  }

  lemma StandingTold(j: Job, hw: Hw)
    requires Standing(j, hw)
    ensures Told(j, hw)
  {
    hide Good, Told;
    if Good(j, hw) {
      GoodTold(j, hw);
    }
  }

  /** A later look shows every descriptor closed by now with the same status. */
  lemma LaterStanding(j: Job, hw: Hw, evs: seq<Event>)
    requires Standing(j, hw)
    ensures var late := Steps(j.e, j.m, hw, evs);
            && Standing(j, late)
            && |late.descs| == |hw.descs| && |late.rx| == |hw.rx| && (Quiet(hw) ==> Quiet(late))
            && |Cutting(j, hw).done| <= j.sink.count && j.sink.first + j.sink.count <= |hw.descs|
            && forall k | 0 <= k < |Cutting(j, hw).done| :: StatusOf(j.sink, late, k) == StatusOf(j.sink, hw, k)
  {
    hide Good, Told, Steps, Cutting;
    var late := Steps(j.e, j.m, hw, evs);
    StandingTold(j, hw);
    QuietSteps(j.e, j.m, hw, evs);
    TracksOf(j, hw);
    if Good(j, hw) {
      StepsKeep(j, hw, evs);
      StandingTold(j, late);
      TracksOf(j, late);
      forall k | 0 <= k < |Cutting(j, hw).done|
        ensures StatusOf(j.sink, late, k) == StatusOf(j.sink, hw, k)
      {
        EofPersists(j, hw, late, k);
      }
    } else {
      StoppedTold(j, hw, late);
    }
  }

  lemma TracksOf(j: Job, hw: Hw)
    requires Told(j, hw)
    ensures Tracks(j.m, j.sink, hw, Cutting(j, hw))
    ensures |Cutting(j, hw).done| <= j.sink.count && j.sink.first + j.sink.count <= |hw.descs|
  {
    hide Cutting;
  }

  lemma LaterEof(j: Job, hw: Hw, evs: seq<Event>, k: nat)
    requires Standing(j, hw) && k < j.sink.count && j.sink.first + j.sink.count <= |hw.descs|
    requires IsEof(StatusOf(j.sink, hw, k))
    ensures var late := Steps(j.e, j.m, hw, evs);
            |late.descs| == |hw.descs| && StatusOf(j.sink, late, k) == StatusOf(j.sink, hw, k)
  {
    hide Standing, Steps, IsEof, Cutting;
    LaterStanding(j, hw, evs);
    StandingTold(j, hw);
    TracksOf(j, hw);
    EofMeans(j.m, j.sink, hw, Cutting(j, hw), k);
  }

  lemma LaterFirstEof(j: Job, hw: Hw, evs: seq<Event>, i: nat)
    requires Standing(j, hw) && j.sink.first + j.sink.count <= |hw.descs|
    requires FirstEofAt(Statuses(j.sink, hw.descs), i)
    ensures var late := Steps(j.e, j.m, hw, evs);
            && |late.descs| == |hw.descs|
            && FirstEofAt(Statuses(j.sink, late.descs), i)
            && SumCounts(Statuses(j.sink, late.descs)[..i + 1]) == SumCounts(Statuses(j.sink, hw.descs)[..i + 1])
  {
    hide Standing, Steps, IsEof, Cutting, SumCounts;
    var late := Steps(j.e, j.m, hw, evs);
    LaterStanding(j, hw, evs);
    StandingTold(j, hw);
    TracksOf(j, hw);
    FirstEofSegment(j, hw, Cutting(j, hw), i);
    var a, b := Statuses(j.sink, hw.descs), Statuses(j.sink, late.descs);
    forall k | 0 <= k <= i
      ensures b[k] == a[k]
    {
      assert StatusOf(j.sink, late, k) == StatusOf(j.sink, hw, k);
    }
    assert b[..i + 1] == a[..i + 1];
  }

  // --- one image ---

  /** At the first TLAST the rx buffer starts with the packet of the pixels, and their image is whole. */
  lemma SingleExact(j: Job, hw: Hw, i: nat)
    requires Told(j, hw) && j.sink.chunk < LEN_SPAN && 0 < |j.pixels| <= ImageBytes(j.d)
    requires j.sink.first + j.sink.count <= |hw.descs| && FirstEofAt(Statuses(j.sink, hw.descs), i)
    ensures var packet := PacketBytes(j.e, j.d, j.pixels);
            && |j.pixels| == ImageBytes(j.d)
            && SumCounts(Statuses(j.sink, hw.descs)[..i + 1]) == |packet| <= |hw.rx|
            && hw.rx[..|packet|] == packet
  {
    hide Told, IsEof, SumCounts, Packets, Packet, ImageBytes, Statuses;
    SingleTold(j, hw, i);
    PacketsAre(j.e, j.d, j.pixels, 0);
    assert (0 + 1) * ImageBytes(j.d) == ImageBytes(j.d) && 0 * ImageBytes(j.d) == 0;
    assert Image(j.d, j.pixels, 0) == j.pixels;
  }

  /** Both modes begin alike: the run of an admitted request, from the pixels in the CPU's tx view. */
  method Begin(drv: Driver, req: Hdr, rxLen: nat, rxChunk: U32) returns (rc: int, s2mm: Plan, ghost j: Job)
    requires drv.Valid() && Check(Hardware(drv.board), req) == ST_OK
    requires req.payloadLen <= drv.tx.Length && rxLen <= drv.rx.Length
    modifies drv, drv.desc
    ensures drv.Valid()
    ensures rc == 0 || rc == -1
    ensures rc != 0 && old(Quiet(drv.hw)) ==> Quiet(drv.hw)
    ensures rc == 0 ==> ItsJob(drv, req, j) && j.sink == s2mm && Safe(j, drv.hw)
    ensures rc == 0 ==>
              && s2mm == Plan(drv.m.descBase, 0, Chunks(rxLen, rxChunk), drv.m.rxBase, rxLen, rxChunk, false)
              && rxChunk > 0 && s2mm.Valid() && s2mm.count <= drv.desc.Length
    ensures rc == 0 && old(Quiet(drv.hw)) ==> Good(j, drv.hw)
    ensures rc == 0 ==>
              Gate.RunsAt(drv.hw.gate, if req.kind == 3 && req.readyPct > 0 then req.readyPct as nat else 100)
    ensures Calm(drv.script, old(drv.at)) ==>
              && Calm(drv.script, drv.at)
              && (rc == 0 <==> Wired(drv.m, drv.board, rxLen, rxChunk, req.payloadLen) && rxChunk > 0)
              && (rc == 0 ==> drv.at == old(drv.at) + LAUNCH)
    ensures rc == 0 && Calm(drv.script, old(drv.at)) && old(Quiet(drv.hw)) && Roomy(s2mm) ==>
              Live(j, drv.hw, PctOf(req))
    ensures drv.now >= old(drv.now) && drv.at >= old(drv.at)
  {
    hide Check, Causal, Good, Safe, Chunks, Calm, Wired, HandedOver, Steps, Roomy, Live;
    AdmittedFits(drv, req);
    AdmittedPct(drv.board, req);
    var mm2s;
    ghost var s, between;
    rc, s2mm, mm2s, s, between := Start(drv, req.width, req.height, PctOf(req), req.payloadLen, rxLen, rxChunk);
    j := Job(drv.e, drv.m, drv.DimsOf(req.width, req.height), drv.tx[..req.payloadLen], s2mm, mm2s);
    if rc == 0 {
      Gate.ThresholdRuns(drv.hw.gate, PctOf(req));
    }
  }

  /** The ready percentage that the gate is set to. */
  function PctOf(req: Hdr): nat {
    if IsStream(req) && req.readyPct != 0 then req.readyPct as nat else 100
  }

  lemma AdmittedPct(b: Board, req: Hdr)
    requires Check(Hardware(b), req) == ST_OK
    ensures 1 <= PctOf(req) <= 100 && PctOf(req) * 65536 / 100 < 0x2_0000
  {
    hide Check;
    if IsStream(req) {
      AdmittedStream(b, req);
    }
  }

  ghost predicate ItsJob(drv: Driver, req: Hdr, j: Job)
    reads drv.tx
  {
    && req.payloadLen <= drv.tx.Length
    && j.e == drv.e && j.m == drv.m && j.d == drv.DimsOf(req.width, req.height) && j.pixels == drv.tx[..req.payloadLen]
  }

  /** A single image on the board, from pixels in the CPU's tx view to a checked reply. Whatever ran
      before on a quiet board, whatever the fabric does meanwhile and however the socket cuts: an OK
      reply is the encoder's packet up to its length modulo 2^32, and anything else sends nothing and a
      status. */
  method EncodeAndReply(conn: Conn, drv: Driver, req: Hdr) returns (rc: int, ghost clean: bool, ghost packet: seq<Byte>)
    requires drv.Valid() && Check(Hardware(drv.board), req) == ST_OK && !IsStream(req)
    modifies drv, drv.desc, drv.rx, conn`output, conn`writePlan
    ensures drv.Valid()
    ensures rc == 0 || rc == -1 || rc == ST_HW_ERROR || rc == ST_HW_TIMEOUT
    ensures old(Unbroken(conn.writePlan)) ==> Unbroken(conn.writePlan) && rc != -1
    ensures rc > 0 ==> conn.output == old(conn.output)
    ensures clean && old(Quiet(drv.hw)) ==> Quiet(drv.hw)
    ensures (rc == 0 ==> clean) && (!clean ==> HangsIn(drv.script, old(drv.at), drv.at))
    ensures drv.at >= old(drv.at)
    ensures rc == 0 ==> |packet| < TWO_32 && conn.output == old(conn.output) + SingleReply(req, packet)
    ensures rc == 0 && old(Quiet(drv.hw)) ==>
              var d := drv.DimsOf(req.width, req.height);
              && |PacketBytes(drv.e, d, drv.tx[..req.payloadLen])| <= drv.rx.Length
              && CutSingle(drv.e, d, req, drv.tx[..req.payloadLen], SingleReply(req, packet))
    ensures rc == ST_HW_TIMEOUT && clean ==> CoreEmpty(drv.m, drv.hw, drv.DimsOf(req.width, req.height))
    ensures rc == ST_HW_TIMEOUT ==> drv.now / 1000 > old(drv.now) / 1000 + drv.timeoutMs
    ensures Calm(drv.script, old(drv.at)) && old(Quiet(drv.hw)) && FitsBoard(drv, req) ==>
              && rc != ST_HW_ERROR
              && (rc == ST_HW_TIMEOUT ==>
                    Overdue(drv, drv.DimsOf(req.width, req.height), req, drv.tx[..req.payloadLen], old(drv.at)))
  {
    hide Check, Causal, Good, Safe, PacketBytes, ImageBytes, Chunks, PackHdr, Calm, Sane, Wired, SingleReply,
         HungReset, Roomy, FitsBoard, PacketFits, Overdue, InTime, Live, UnderWay,
         CoreEmpty;
    AdmittedSingle(drv.board, req);
    AdmittedDims(drv, req);
    AdmittedRange(drv.board, req);
    clean, packet := true, [];
    var s2mm, outBytes;
    ghost var j;
    rc, s2mm, j := Begin(drv, req, drv.rx.Length, DESC_CHUNK);
    FitsSingle(drv, req);
    if rc != 0 {
      return ST_HW_ERROR, clean, packet;
    }
    ShortIsRoomy(s2mm);
    ghost var begun, from := drv.hw, drv.at;
    SingleUnderWay(drv, req, j, begun);
    rc, outBytes, clean := AwaitSingle(drv, req, s2mm, j);
    if rc != 0 {
      ItIsOverdue(drv, req, j, begun, from);
      return;
    }
    packet := drv.rx[..outBytes];
    rc := SendSingle(conn, drv, req, outBytes);
  }

  lemma FitsSingle(drv: Driver, req: Hdr)
    requires !IsStream(req)
    ensures FitsBoard(drv, req) ==> Wired(drv.m, drv.board, drv.board.rxSize, DESC_CHUNK, req.payloadLen)
  {
    hide Wired, PacketBytes, ImageBytes;
  }

  lemma SingleUnderWay(drv: Driver, req: Hdr, j: Job, hw: Hw)
    requires ItsJob(drv, req, j) && !IsStream(req) && j.sink.len == drv.board.rxSize
    requires j.sink.count > 0 && j.sink.chunk < LEN_SPAN
    ensures FitsBoard(drv, req) && Live(j, hw, PctOf(req)) ==>
              PacketFits(j) && Sane(j, hw) && UnderWay(req, j, hw)
  {
    hide Wired, PacketBytes, ImageBytes, Good, Sane, Roomy;
  }

  lemma LiveParts(j: Job, hw: Hw, pct: nat)
    requires Live(j, hw, pct)
    ensures Good(j, hw) && Sane(j, hw) && Roomy(j.sink)
  {
    hide Good, Sane, Roomy;
  }

  /** Wait, recover on failure, add up the counts, take the bitstream over from DRAM. */
  method AwaitSingle(drv: Driver, req: Hdr, s2mm: Plan, ghost j: Job)
      returns (rc: int, outBytes: U32, ghost clean: bool)
    requires drv.Valid() && j.e == drv.e && j.m == drv.m && j.sink == s2mm
    requires Safe(j, drv.hw) && s2mm.count > 0 && s2mm.chunk < LEN_SPAN && s2mm.first + s2mm.count <= drv.desc.Length
    requires 0 < |j.pixels| <= ImageBytes(j.d)
    modifies drv, drv.desc, drv.rx
    ensures drv.Valid()
    ensures rc == 0 || rc == ST_HW_ERROR || rc == ST_HW_TIMEOUT
    ensures rc == 0 ==> outBytes <= drv.rx.Length
    ensures clean && old(Good(j, drv.hw)) ==> Quiet(drv.hw)
    ensures (rc == 0 ==> clean) && (!clean ==> HangsIn(drv.script, old(drv.at), drv.at))
    ensures drv.at >= old(drv.at)
    ensures rc == 0 && old(Good(j, drv.hw)) ==>
              var packet := PacketBytes(j.e, j.d, j.pixels);
              |j.pixels| == ImageBytes(j.d) && |packet| <= drv.rx.Length && drv.rx[..outBytes] == SentPart(packet)
    ensures rc == ST_HW_TIMEOUT && clean
            && 4 <= req.width <= drv.board.maxWidth && 1 <= req.height <= drv.board.maxHeight ==>
              CoreEmpty(drv.m, drv.hw, drv.DimsOf(req.width, req.height))
    ensures rc == ST_HW_TIMEOUT ==> drv.now / 1000 > old(drv.now) / 1000 + drv.timeoutMs
    ensures rc == ST_HW_TIMEOUT ==>
              !InTime(OneTlast, Watch(drv.e, drv.m, s2mm, old(drv.hw), old(drv.at)), drv.script, drv.timeoutMs)
    ensures Calm(drv.script, old(drv.at)) && old(Good(j, drv.hw) && Sane(j, drv.hw)) && PacketFits(j) ==>
              rc != ST_HW_ERROR
  {
    hide Causal, Steps, Good, Safe, Standing, FirstEofAt, Statuses, SumCounts, PacketBytes, ImageBytes, Calm, Sane,
         PacketFits, NoSinkFault, ErrAt, NoneSpoke, IsCmplt, HungReset, Roomy, InTime, CoreEmpty;
    clean := true;
    outBytes := 0;
    ghost var start := drv.hw;
    ghost var snap, before, after;
    rc, snap, before, after := drv.Wait(Receiving, s2mm, drv.timeoutMs);
    StepsSafe(j, start, before);
    StepsSafe(j, snap, after);
    QuietSteps(drv.e, drv.m, start, before);
    QuietSteps(drv.e, drv.m, snap, after);
    if Good(j, start) {
      StepsKeep(j, start, before);
      if Sane(j, start) && PacketFits(j) && NoSinkFault(before) {
        SafeRoomy(j, start);
        StepsSane(j, start, before);
        NothingWrongSingle(j, snap);
      }
    }
    if rc != 0 {
      clean := drv.Recover(req.width, req.height, j);
      return if rc == -2 then ST_HW_TIMEOUT else ST_HW_ERROR, outBytes, clean;
    }
    ghost var i :| CleanEofAt(Statuses(s2mm, snap.descs), i);
    SameStatuses(s2mm, drv.desc[..], snap.descs);
    outBytes := drv.RingBytes(s2mm, i);
    BytesInBuffer(j, snap, i);

    ghost var seen := drv.hw;
    ghost var evs;
    rc, evs := drv.SyncRxForCpu(outBytes);
    QuietSteps(drv.e, drv.m, seen, evs);
    if Good(j, start) {
      LooksAgree(j, snap, seen, drv.hw, after, evs, i);
    }
    if rc != 0 {
      rc := ST_HW_ERROR;
    } else if Good(j, start) {
      SamePart(drv.rx[..], drv.hw.rx, PacketBytes(j.e, j.d, j.pixels), outBytes);
    }
  }

  /** However the counts wrap, they stay inside the rx buffer. */
  lemma BytesInBuffer(j: Job, hw: Hw, i: nat)
    requires Safe(j, hw) && j.sink.chunk < LEN_SPAN && FirstEofAt(Statuses(j.sink, hw.descs), i)
    ensures Wrap32(SumCounts(Statuses(j.sink, hw.descs)[..i + 1])) <= |hw.rx|
  {
    hide RingAt, Statuses, SumCounts, SinkPlan, Cutting, Landed, Unfinished, BytesAt;
    TotalInBuffer(j, hw, i);
    Wrapped(SumCounts(Statuses(j.sink, hw.descs)[..i + 1]));
  }

  lemma SamePart(view: seq<Byte>, rx: seq<Byte>, packet: seq<Byte>, n: nat)
    requires n == Wrap32(|packet|) && |packet| <= |rx| == |view| && rx[..|packet|] == packet && view[..n] == rx[..n]
    ensures n <= |view| && view[..n] == SentPart(packet)
  {
    Wrapped(|packet|);
    assert rx[..n] == rx[..|packet|][..n];
  }

  lemma SafeRoomy(j: Job, hw: Hw)
    requires Safe(j, hw) && j.sink.chunk < LEN_SPAN
    ensures Roomy(j.sink)
  {
    hide Tracks, Apart, Plan.Valid, Roomy;
    ShortIsRoomy(j.sink);
  }

  /** The pixels are one whole image, and its packet fits the receive ring. */
  ghost predicate PacketFits(j: Job) {
    |j.pixels| == ImageBytes(j.d) > 0 && |PacketBytes(j.e, j.d, j.pixels)| <= j.sink.len
  }

  /** Then no snapshot of a sane run gives axidma_wait a reason to fail. */
  lemma NothingWrongSingle(j: Job, hw: Hw)
    requires Good(j, hw) && Sane(j, hw) && PacketFits(j) && j.sink.chunk < LEN_SPAN
    requires j.sink.count > 0 && j.sink.first + j.sink.count <= |hw.descs|
    ensures var sts := Statuses(j.sink, hw.descs);
            && hw.s2mm.phase != Faulted
            && !(exists i :: ErrAt(sts, i))
            && !(NoneSpoke(sts, j.sink.count) && IsCmplt(sts[j.sink.count - 1]))
  {
    hide Good, Told, Sane, IsErr, IsEof, IsCmplt, Packets, Partial, ImageBytes;
    GoodTold(j, hw);
    SaneNoErr(j, hw);
    var sts := Statuses(j.sink, hw.descs);
    forall i | 0 <= i < j.sink.count
      ensures !IsErr(sts[i])
    {
      assert sts[i] == StatusOf(j.sink, hw, i);
    }
    if NoneSpoke(sts, j.sink.count) && IsCmplt(sts[j.sink.count - 1]) {
      forall i | 0 <= i < j.sink.count
        ensures !IsEof(StatusOf(j.sink, hw, i))
      {
        assert !IsEof(sts[i]);
      }
      OutgrownRing(j, hw);
      FirstIsWhole(j.e, j.d, j.pixels);
    }
  }

  lemma FirstIsWhole(e: Encoder, d: Dims, pixels: seq<Byte>)
    requires |pixels| == ImageBytes(d) > 0
    ensures |Packets(e, d, pixels)| > 0 && Packets(e, d, pixels)[0] == Packet(e, d, pixels)
  {
    hide ImageBytes, Packet;
    assert pixels[..ImageBytes(d)] == pixels;
  }

  /** From the snapshot to the later hand-over of the rx buffer: same total, exact bytes, MM2S done. */
  lemma LooksAgree(j: Job, snap: Hw, seen: Hw, late: Hw, after: seq<Event>, evs: seq<Event>, i: nat)
    requires Good(j, snap) && j.sink.chunk < LEN_SPAN && 0 < |j.pixels| <= ImageBytes(j.d)
    requires j.sink.first + j.sink.count <= |snap.descs| && FirstEofAt(Statuses(j.sink, snap.descs), i)
    requires seen == Steps(j.e, j.m, snap, after) && late == Steps(j.e, j.m, seen, evs)
    ensures Quiet(late)
    ensures var packet := PacketBytes(j.e, j.d, j.pixels);
            && |j.pixels| == ImageBytes(j.d)
            && SumCounts(Statuses(j.sink, snap.descs)[..i + 1]) == |packet| <= |late.rx|
            && late.rx[..|packet|] == packet
  {
    hide Good, Steps, FirstEofAt, Statuses, SumCounts, PacketBytes, ImageBytes, Told;
    assert Standing(j, snap);
    StepsConcat(j.e, j.m, snap, after, evs);
    LaterStanding(j, snap, after + evs);
    LaterFirstEof(j, snap, after + evs, i);
    StandingTold(j, late);
    SingleExact(j, late, i);
    FirstEofIsQuiet(j, snap, i);
  }

  lemma AdmittedDims(drv: Driver, req: Hdr)
    requires Check(Hardware(drv.board), req) == ST_OK
    ensures ImageBytes(drv.DimsOf(req.width, req.height)) == TrueImageBytes(req) >= Expect(req)
  {
    ExpectIs(req);
    assert req.bitness == drv.board.bitness;
  }

  lemma AdmittedFits(drv: Driver, req: Hdr)
    requires Check(Hardware(drv.board), req) == ST_OK
    ensures drv.DimsFit(req.width, req.height)
  {
    hide Expect, ImageCount, SlotBytes, PerImage;
  }

  lemma AdmittedRange(b: Board, req: Hdr)
    requires Check(Hardware(b), req) == ST_OK
    ensures 4 <= req.width <= b.maxWidth && 1 <= req.height <= b.maxHeight
  {
    hide Check;
    AdmitsExactly(Hardware(b), req);
  }

  method SendSingle(conn: Conn, drv: Driver, req: Hdr, outBytes: U32) returns (rc: int)
    requires outBytes <= drv.rx.Length
    modifies conn`output, conn`writePlan
    ensures rc == 0 || rc == -1
    ensures old(Unbroken(conn.writePlan)) ==> Unbroken(conn.writePlan) && rc == 0
    ensures rc == 0 ==> conn.output == old(conn.output) + SingleReply(req, drv.rx[..outBytes])
  {
    hide PackHdr;
    ghost var start := conn.output;
    var hdrBuf := new Byte[HDR_LEN];
    HdrPack(hdrBuf, Hdr(MAGIC, VERSION, ENCODE_RESP, ST_OK, req.width, req.height, req.bitness, 0, outBytes));
    rc := conn.SendFull(hdrBuf, 0, HDR_LEN);
    if rc != 0 {
      return -1;
    }
    assert hdrBuf[0..HDR_LEN] == hdrBuf[..];
    rc := conn.SendFull(drv.rx, 0, outBytes);
    if rc != 0 {
      return -1;
    }
    assert drv.rx[0..outBytes] == drv.rx[..outBytes];
    assert (start + hdrBuf[..]) + drv.rx[..outBytes] == start + (hdrBuf[..] + drv.rx[..outBytes]);
  }

  // --- a stream of images ---

  lemma LeadAtLeast(sts: seq<U32>, n: nat)
    requires n <= |sts| && forall k | 0 <= k < n :: IsEof(sts[k])
    ensures n <= LeadEof(sts)
  {
    hide IsEof;
    if n > 0 {
      LeadAtLeast(sts[1..], n - 1);
    }
  }

  /** The verdict of axidma_wait_packets, both ways: it succeeds on exactly the snapshots in which
      every packet closed. */
  lemma PacketsVerdict(j: Job, hw: Hw)
    requires Told(j, hw) && j.sink.first + j.sink.count <= |hw.descs|
    ensures var sts := Statuses(j.sink, hw.descs); var n := j.sink.count;
            (n > 0 && IsCmplt(sts[n - 1]) && EachOnTlast(sts, n)) <==> (n > 0 && LeadEof(sts) == n)
  {
    hide IsErr, IsEof, IsCmplt, Cutting, Tracks, LeadEof;
    var p, g := j.sink, Cutting(j, hw);
    var sts := Statuses(p, hw.descs);
    var n := p.count;
    TracksOf(j, hw);
    LeadsAgree(j.m, p, hw, g);
    forall k | 0 <= k < n
      ensures IsEof(sts[k]) ==> !IsErr(sts[k]) && IsCmplt(sts[k])
      ensures k < |g.done| ==> IsCmplt(sts[k])
      ensures k >= |g.done| ==> IsErr(sts[k]) || !IsCmplt(sts[k])
    {
      EofMeans(j.m, p, hw, g, k);
      EofNoErr(j, hw, g, k);
    }
    if n > 0 && IsCmplt(sts[n - 1]) && EachOnTlast(sts, n) {
      assert |g.done| == n;
      LeadEofIs(sts, n);
    }
    if LeadEof(sts) == n {
      EofsOfLead(sts, n);
    }
  }

  lemma EofNoErr(j: Job, hw: Hw, g: Segment.Seg, k: nat)
    requires Tracks(j.m, j.sink, hw, g) && k < j.sink.count
    ensures IsEof(StatusOf(j.sink, hw, k)) ==> !IsErr(StatusOf(j.sink, hw, k))
  {
    hide RingAt, BytesAt;
    if k < |g.done| {
      assert Landed(j.sink, hw, k, g.done[k]);
    } else {
      assert Unfinished(StatusOf(j.sink, hw, k), k == |g.done| && hw.s2mm.phase != Running);
    }
  }

  lemma {:induction false} EofsOfLead(sts: seq<U32>, n: nat)
    requires n <= LeadEof(sts)
    ensures n <= |sts| && forall k | 0 <= k < n :: IsEof(sts[k])
  {
    hide IsEof;
    if n > 0 {
      EofsOfLead(sts[1..], n - 1);
      forall k | 0 < k < n
        ensures IsEof(sts[k])
      {
        assert sts[k] == sts[1..][k - 1];
      }
    }
  }

  /** The loop that fills `lens`, over as many descriptors as images: counts as long as they report a
      TLAST, zero from there on. */
  method CollectLens(drv: Driver, p: Plan, count: nat) returns (lens: array<U32>, closed: nat)
    requires p.first + count <= drv.desc.Length
    ensures fresh(lens) && Collected(Statuses(p.(count := count), drv.desc[..]), lens[..], closed)
  {
    hide IsEof, CountOf, LeadEof;
    lens := new U32[count](_ => 0);
    closed := 0;
    ghost var sts := Statuses(p.(count := count), drv.desc[..]);
    while closed < count
      invariant closed <= count
      invariant forall k | 0 <= k < closed :: IsEof(sts[k])
      invariant forall k | 0 <= k < count :: lens[k] == if k < closed then CountOf(sts[k]) else 0
    {
      var st := drv.desc[p.first + closed].status;
      assert st == sts[closed];
      if !IsEof(st) {
        break;
      }
      lens[closed] := CountOf(st);
      closed := closed + 1;
    }
    LeadEofIs(sts, closed);
  }

  /** What that loop makes of the status words it looks at. */
  predicate Collected(sts: seq<U32>, lens: seq<U32>, closed: nat) {
    && |lens| == |sts| && closed == LeadEof(sts) <= |sts|
    && forall k | 0 <= k < |sts| :: lens[k] == if k < closed then CountOf(sts[k]) else 0
  }

  /** The images that leave: from statuses read in one look and bytes handed over in a later one. */
  lemma StreamExact(j: Job, look: Hw, evs: seq<Event>, late: Hw, closed: nat, k: nat)
    requires Standing(j, look) && late == Steps(j.e, j.m, look, evs)
    requires j.sink.first + j.sink.count <= |look.descs| && ImageBytes(j.d) > 0
    requires k < closed <= LeadEof(Statuses(j.sink, look.descs)) && closed <= j.sink.count
    ensures (k + 1) * ImageBytes(j.d) <= |j.pixels|
    ensures HoldsPacket(j.sink, late.rx, k, Statuses(j.sink, look.descs)[k], Packet(j.e, j.d, Image(j.d, j.pixels, k)))
  {
    hide Standing, Steps, IsEof, LeadEof, Told, Packets, Packet, ImageBytes, HoldsPacket;
    LaterStanding(j, look, evs);
    var a, b := Statuses(j.sink, look.descs), Statuses(j.sink, late.descs);
    EofsOfLead(a, closed);
    forall i | 0 <= i < closed
      ensures b[i] == a[i]
    {
      assert IsEof(a[i]) && a[i] == StatusOf(j.sink, look, i);
      LaterEof(j, look, evs, i);
      assert StatusOf(j.sink, late, i) == StatusOf(j.sink, look, i);
    }
    LeadAtLeast(b, closed);
    StandingTold(j, late);
    StreamTold(j, late);
    PacketsAre(j.e, j.d, j.pixels, k);
  }

  /** A descriptor a slot; or, where the cast of the slot cut it short, more descriptors than the one
      image of the stream. */
  predicate Slotted(p: Plan, count: nat, slot: nat) {
    && p.first == 0 && 0 < count <= p.count && p.len == count * slot
    && 0 < p.chunk == Wrap32(slot)
    && (if slot < TWO_32 then p.count == count else count == 1 < p.count)
  }

  /** What the waiting side of a stream is about: `count` slots of `slot` bytes from the start of rx. */
  ghost predicate StreamJob(drv: Driver, j: Job, count: nat, slot: nat)
    reads drv
  {
    && drv.Valid() && j.e == drv.e && j.m == drv.m
    && Slotted(j.sink, count, slot) && j.sink.count <= drv.desc.Length && count * slot <= drv.rx.Length
    && ImageBytes(j.d) > 0 && |j.pixels| <= count * ImageBytes(j.d)
  }

  /** Where the images lie, and how much of each a descriptor takes. */
  lemma SlottedRoom(p: Plan, count: nat, slot: nat, k: nat)
    requires p.Valid() && Slotted(p, count, slot) && k < count
    ensures Off(p, k) == k * slot && Cap(p, k) == SlotRoom(slot) <= slot
    ensures 0 <= k * slot && k * slot + slot <= count * slot
  {
    hide Plan.Valid;
    MulMono(k + 1, count, slot);
    MulMono(0, k, slot);
    assert (k + 1) * slot == k * slot + slot;
    if slot < TWO_32 {
      WholeCap(p, k);
    } else {
      FirstCap(p);
      WideRoom(slot);
    }
  }

  lemma WideRoom(slot: nat)
    ensures SlotRoom(Wrap32(slot)) == SlotRoom(slot)
  {
  }

  lemma FirstCap(p: Plan)
    requires p.Valid() && p.count > 1
    ensures Cap(p, 0) == SlotRoom(p.chunk)
  {
    hide Piece;
    LastPiece(p, 0);
  }

  /** An honest success needs a descriptor for each image and no more. */
  lemma NoneLeftOver(j: Job, hw: Hw, count: nat, slot: nat)
    requires Told(j, hw) && Slotted(j.sink, count, slot) && j.sink.count <= |hw.descs|
    requires ImageBytes(j.d) > 0 && |j.pixels| <= count * ImageBytes(j.d)
    requires LeadEof(Statuses(j.sink, hw.descs)) == j.sink.count
    ensures slot < TWO_32
  {
    hide Told, LeadEof, Statuses, ImageBytes, Packets, HoldsPacket;
    StreamTold(j, hw);
    if slot >= TWO_32 {
      PacketsAre(j.e, j.d, j.pixels, 1);
    }
  }

  /** Wait for all packets, recover if that failed, then look again, whatever the verdict, and list
      what closed. */
  method AwaitStream(drv: Driver, req: Hdr, s2mm: Plan, count: nat, slot: nat, ghost j: Job)
      returns (rc: int, status: Byte, lens: array<U32>, ghost clean: bool)
    requires StreamJob(drv, j, count, slot) && j.sink == s2mm && Safe(j, drv.hw)
    modifies drv, drv.desc, drv.rx
    ensures drv.Valid() && fresh(lens)
    ensures rc == 0 || rc == ST_HW_ERROR
    ensures status == ST_OK || status == ST_HW_ERROR || status == ST_HW_TIMEOUT
    ensures clean && old(Good(j, drv.hw)) ==> Quiet(drv.hw)
    ensures (status == ST_OK ==> clean) && (!clean ==> HangsIn(drv.script, old(drv.at), drv.at))
    ensures drv.at >= old(drv.at)
    ensures rc == 0 ==>
              && lens.Length == count
              && (forall k | 0 <= k < count :: 0 <= k * slot && k * slot + lens[k] <= drv.rx.Length)
              && (forall k | 0 <= k < count :: lens[k] <= SlotRoom(slot))
    ensures rc == 0 && clean && old(Good(j, drv.hw)) ==>
              HonestStream(j.e, j.d, j.pixels, count, status, Slots(drv.rx[..], slot, lens[..]))
    ensures status == ST_OK && old(Good(j, drv.hw)) ==> slot < TWO_32
    ensures rc == 0 && clean && old(Good(j, drv.hw)) ==> Lists(drv.hw.descs, lens[..])
    ensures status == ST_HW_TIMEOUT ==>
              !InTime(EveryTlast, Watch(drv.e, drv.m, s2mm, old(drv.hw), old(drv.at)), drv.script, drv.timeoutMs)
    ensures status == ST_HW_TIMEOUT ==> drv.now / 1000 > old(drv.now) / 1000 + drv.timeoutMs
    ensures Calm(drv.script, old(drv.at)) ==> rc == 0
    ensures Calm(drv.script, old(drv.at)) && old(Good(j, drv.hw) && Sane(j, drv.hw)) && PacketsFit(j) ==>
              status != ST_HW_ERROR
  {
    hide Causal, Good, Safe, Standing, ImageBytes, HonestStream, Calm, Sane, PacketsFit, HungReset, InTime, Lists;
    ghost var good := Good(j, drv.hw);
    status, clean := WaitStream(drv, req, s2mm, count, slot, j);
    rc, lens := LookStream(drv, s2mm, count, slot, status, j, good && clean);
  }

  method WaitStream(drv: Driver, req: Hdr, s2mm: Plan, count: nat, slot: nat, ghost j: Job)
      returns (status: Byte, ghost clean: bool)
    requires StreamJob(drv, j, count, slot) && j.sink == s2mm && Safe(j, drv.hw)
    modifies drv, drv.desc
    ensures StreamJob(drv, j, count, slot) && Safe(j, drv.hw)
    ensures status == ST_OK || status == ST_HW_ERROR || status == ST_HW_TIMEOUT
    ensures clean && old(Good(j, drv.hw)) ==> Standing(j, drv.hw) && Quiet(drv.hw)
    ensures clean && old(Good(j, drv.hw)) && status != ST_OK ==> drv.hw.s2mm.phase != Running
    ensures (status == ST_OK ==> clean) && (!clean ==> HangsIn(drv.script, old(drv.at), drv.at))
    ensures drv.at >= old(drv.at)
    ensures status == ST_OK && old(Good(j, drv.hw)) ==>
              LeadEof(Statuses(s2mm, drv.hw.descs)) == s2mm.count && slot < TWO_32
    ensures status != ST_OK && clean
            && 4 <= req.width <= drv.board.maxWidth && 1 <= req.height <= drv.board.maxHeight ==>
              CoreEmpty(drv.m, drv.hw, drv.DimsOf(req.width, req.height))
    ensures status == ST_HW_TIMEOUT ==>
              !InTime(EveryTlast, Watch(drv.e, drv.m, s2mm, old(drv.hw), old(drv.at)), drv.script, drv.timeoutMs)
    ensures status == ST_HW_TIMEOUT ==> drv.now / 1000 > old(drv.now) / 1000 + drv.timeoutMs
    ensures Calm(drv.script, old(drv.at)) ==> Calm(drv.script, drv.at)
    ensures Calm(drv.script, old(drv.at)) && old(Good(j, drv.hw) && Sane(j, drv.hw)) && PacketsFit(j) ==>
              status != ST_HW_ERROR
  {
    hide Causal, Steps, Good, Safe, Standing, Statuses, ImageBytes, EachOnTlast, LeadEof, IsCmplt, Told, Calm, Sane,
         PacketsFit, NoSinkFault, BadAt, HungReset, Roomy, InTime, CoreEmpty;
    clean, status := true, ST_OK;
    ghost var start := drv.hw;
    ghost var good := Good(j, start);
    var rc;
    ghost var snap, before, after;
    rc, snap, before, after := drv.WaitPackets(s2mm, drv.timeoutMs);
    StepsSafe(j, start, before);
    StepsSafe(j, snap, after);
    QuietSteps(drv.e, drv.m, start, before);
    QuietSteps(drv.e, drv.m, snap, after);
    if good {
      StepsKeep(j, start, before);
      StepsKeep(j, snap, after);
      if Sane(j, start) && PacketsFit(j) && NoSinkFault(before) {
        FitsRoomy(j, start);
        StepsSane(j, start, before);
        NothingWrongStream(j, snap);
      }
    }
    if rc != 0 {
      status := if rc == -2 then ST_HW_TIMEOUT else ST_HW_ERROR;
      clean := drv.Recover(req.width, req.height, j);
    } else if good {
      MulMono(count, s2mm.count, ImageBytes(j.d));
      WaitedQuiet(j, snap, after, s2mm.count);
      AllStillClosed(j, snap, after, s2mm.count);
      GoodTold(j, drv.hw);
      NoneLeftOver(j, drv.hw, count, slot);
    }
    StandingEither(j, drv.hw);
  }

  /** The pixels are `count` whole images, and each packet fits the descriptor of its slot. */
  ghost predicate PacketsFit(j: Job) {
    && 0 < SlotRoom(j.sink.chunk) && j.sink.len == j.sink.count * j.sink.chunk && ImageBytes(j.d) > 0
    && |j.pixels| == j.sink.count * ImageBytes(j.d)
    && forall k | 0 <= k < |Packets(j.e, j.d, j.pixels)| :: |Packets(j.e, j.d, j.pixels)[k]| <= SlotRoom(j.sink.chunk)
  }

  lemma FitsRoomy(j: Job, hw: Hw)
    requires PacketsFit(j) && Good(j, hw)
    ensures Roomy(j.sink)
  {
    hide Packets, ImageBytes, Tracks, Flows, Feeds, Causal, SourcePlan, Plan.Valid, Cap;
    WholeRoomy(j.sink);
  }

  lemma WholeRoomy(p: Plan)
    requires p.Valid() && p.len == p.count * p.chunk && SlotRoom(p.chunk) > 0
    ensures Roomy(p)
  {
    hide Plan.Valid, Cap, SlotRoom;
    forall i | 0 <= i < p.count
      ensures Cap(p, i) > 0
    {
      WholeCap(p, i);
    }
  }

  lemma {:induction false} WholeImages(e: Encoder, d: Dims, pixels: seq<Byte>, n: nat)
    requires Causal(e) && ImageBytes(d) > 0 && |pixels| == n * ImageBytes(d)
    ensures |Packets(e, d, pixels)| == n && Partial(e, d, pixels) == []
    decreases n
  {
    hide Packet, ImageBytes;
    if n == 0 {
      assert e.beats(d, []) == [];
      assert pixels == [];
    } else {
      MulMono(1, n, ImageBytes(d));
      assert n * ImageBytes(d) == (n - 1) * ImageBytes(d) + ImageBytes(d);
      hide Causal;
      WholeImages(e, d, pixels[ImageBytes(d)..], n - 1);
    }
  }

  lemma WholeCap(p: Plan, i: nat)
    requires p.Valid() && i < p.count && p.len == p.count * p.chunk
    ensures Cap(p, i) == SlotRoom(p.chunk)
  {
    hide Piece;
    LastPiece(p, i);
    assert p.count * p.chunk == (p.count - 1) * p.chunk + p.chunk;
  }

  /** Then no snapshot of a sane run gives axidma_wait_packets a reason to fail. */
  lemma NothingWrongStream(j: Job, hw: Hw)
    requires Good(j, hw) && Sane(j, hw) && PacketsFit(j) && j.sink.first + j.sink.count <= |hw.descs|
    ensures hw.s2mm.phase != Faulted && !(exists i :: BadAt(Statuses(j.sink, hw.descs), i))
  {
    hide Good, Told, Sane, IsErr, IsEof, IsCmplt, Packets, ImageBytes, Cap, BadAt, Partial, Statuses;
    GoodTold(j, hw);
    SaneNoErr(j, hw);
    if i: nat :| BadAt(Statuses(j.sink, hw.descs), i) {
      BadIsFull(j, hw, i);
      Outgrown(j, hw, i);
      CapHere(j, hw, i);
      WholeImages(j.e, j.d, j.pixels, j.sink.count);
    }
  }

  lemma CapHere(j: Job, hw: Hw, i: nat)
    requires Told(j, hw) && PacketsFit(j) && i < j.sink.count
    ensures Cap(j.sink, i) == SlotRoom(j.sink.chunk) > 0 && Causal(j.e)
  {
    hide Tracks, Cap, Causal, Packets, ImageBytes, Plan.Valid;
    WholeCap(j.sink, i);
  }

  lemma BadIsFull(j: Job, hw: Hw, i: nat)
    requires Told(j, hw) && j.sink.first + j.sink.count <= |hw.descs| && BadAt(Statuses(j.sink, hw.descs), i)
    requires forall k | 0 <= k < j.sink.count :: !IsErr(StatusOf(j.sink, hw, k))
    ensures i < j.sink.count && IsCmplt(StatusOf(j.sink, hw, i)) && !IsEof(StatusOf(j.sink, hw, i))
    ensures forall k | 0 <= k < i :: IsEof(StatusOf(j.sink, hw, k))
  {
    hide IsErr, IsEof, IsCmplt, Tracks, Cutting;
    var g, sts := Cutting(j, hw), Statuses(j.sink, hw.descs);
    TracksOf(j, hw);
    EofMeans(j.m, j.sink, hw, g, i);
    assert sts[i] == StatusOf(j.sink, hw, i);
    forall k | 0 <= k < i
      ensures IsEof(StatusOf(j.sink, hw, k))
    {
      assert sts[k] == StatusOf(j.sink, hw, k);
      EofMeans(j.m, j.sink, hw, g, k);
    }
  }

  /** The second look, after a success or a recovery: statuses, then the bytes under them. */
  method LookStream(drv: Driver, s2mm: Plan, count: nat, slot: nat, status: Byte, ghost j: Job, ghost told: bool)
      returns (rc: int, lens: array<U32>)
    requires StreamJob(drv, j, count, slot) && j.sink == s2mm && Safe(j, drv.hw)
    requires status == ST_OK || status == ST_HW_ERROR || status == ST_HW_TIMEOUT
    requires told ==> Standing(j, drv.hw) && Quiet(drv.hw)
    requires told && status == ST_OK ==> LeadEof(Statuses(s2mm, drv.hw.descs)) == s2mm.count
    requires told && status != ST_OK ==> drv.hw.s2mm.phase != Running
    modifies drv, drv.desc, drv.rx
    ensures drv.Valid() && fresh(lens)
    ensures rc == 0 || rc == ST_HW_ERROR
    ensures told ==> Quiet(drv.hw)
    ensures rc == 0 ==>
              && lens.Length == count
              && (forall k | 0 <= k < count :: 0 <= k * slot && k * slot + lens[k] <= drv.rx.Length)
              && (forall k | 0 <= k < count :: lens[k] <= SlotRoom(slot))
    ensures rc == 0 && told ==> HonestStream(j.e, j.d, j.pixels, count, status, Slots(drv.rx[..], slot, lens[..]))
    ensures rc == 0 && told ==> Lists(drv.hw.descs, lens[..])
    ensures Calm(drv.script, old(drv.at)) ==> rc == 0
    ensures drv.now >= old(drv.now) && drv.at >= old(drv.at)
  {
    hide Causal, Steps, Safe, Standing, Statuses, ImageBytes, LeadEof, CountOf, IsEof, HonestStream, Calm, Lists;
    ghost var mid := drv.hw;
    lens := new U32[0];
    ghost var toLook, toLate;
    rc, toLook := drv.SyncDescsForCpu(0, count);
    ghost var look := drv.hw;
    StepsSafe(j, mid, toLook);
    QuietSteps(drv.e, drv.m, mid, toLook);
    if rc != 0 {
      return ST_HW_ERROR, lens;
    }
    rc, toLate := drv.SyncRxForCpu(count * slot);
    QuietSteps(drv.e, drv.m, look, toLate);
    if rc != 0 {
      return ST_HW_ERROR, lens;
    }
    var closed;
    lens, closed := CollectLens(drv, s2mm, count);
    SameStatuses(s2mm.(count := count), drv.desc[..], look.descs);
    SlotsInside(j, look, lens[..], closed, count, slot, drv.rx.Length);
    if told {
      LaterStanding(j, mid, toLook);
      if status == ST_OK {
        LaterAllClosed(j, mid, toLook, s2mm.count);
        CollectedLeads(s2mm, look.descs, lens[..], closed, count);
      }
      CollectedLists(s2mm.(count := count), look.descs, lens[..], closed);
      ListStays(j, look, drv.hw, toLate, lens[..], status);
      HonestImages(j, look, toLate, drv.hw, drv.rx[..], lens[..], closed, count, slot, status);
    }
  }

  lemma StandingEither(j: Job, hw: Hw)
    ensures Good(j, hw) || (Told(j, hw) && Quiet(hw) && hw.s2mm.phase != Running) ==> Standing(j, hw)
  {
    hide Good, Told;
  }

  /** A successful wait leaves MM2S with nothing to do, now and later. */
  lemma WaitedQuiet(j: Job, snap: Hw, after: seq<Event>, count: nat)
    requires Good(j, snap) && 0 < count == j.sink.count && j.sink.first + count <= |snap.descs|
    requires ImageBytes(j.d) > 0 && |j.pixels| <= count * ImageBytes(j.d)
    requires var sts := Statuses(j.sink, snap.descs); IsCmplt(sts[count - 1]) && EachOnTlast(sts, count)
    ensures Quiet(Steps(j.e, j.m, snap, after))
  {
    hide Good, Told, Steps, Statuses, EachOnTlast, LeadEof, IsCmplt, ImageBytes;
    GoodTold(j, snap);
    PacketsVerdict(j, snap);
    DoneIsQuiet(j, snap, count);
    QuietSteps(j.e, j.m, snap, after);
  }

  lemma AllStillClosed(j: Job, snap: Hw, after: seq<Event>, count: nat)
    requires Good(j, snap) && 0 < count == j.sink.count && j.sink.first + count <= |snap.descs|
    requires var sts := Statuses(j.sink, snap.descs); IsCmplt(sts[count - 1]) && EachOnTlast(sts, count)
    ensures var late := Steps(j.e, j.m, snap, after);
            |late.descs| == |snap.descs| && LeadEof(Statuses(j.sink, late.descs)) == count
  {
    hide Good, Told, Steps, EachOnTlast, LeadEof, IsCmplt, Statuses;
    GoodTold(j, snap);
    PacketsVerdict(j, snap);
    StandingEither(j, snap);
    LaterAllClosed(j, snap, after, count);
  }

  lemma LaterAllClosed(j: Job, hw: Hw, evs: seq<Event>, count: nat)
    requires Standing(j, hw) && 0 < count == j.sink.count && j.sink.first + count <= |hw.descs|
    requires LeadEof(Statuses(j.sink, hw.descs)) == count
    ensures var late := Steps(j.e, j.m, hw, evs);
            |late.descs| == |hw.descs| && LeadEof(Statuses(j.sink, late.descs)) == count
  {
    hide Standing, Steps, LeadEof, IsEof;
    LaterStanding(j, hw, evs);
    var late := Steps(j.e, j.m, hw, evs);
    var a, b := Statuses(j.sink, hw.descs), Statuses(j.sink, late.descs);
    EofsOfLead(a, count);
    forall k | 0 <= k < count
      ensures IsEof(b[k])
    {
      assert IsEof(a[k]) && a[k] == StatusOf(j.sink, hw, k);
      LaterEof(j, hw, evs, k);
      assert b[k] == StatusOf(j.sink, late, k);
    }
    LeadEofIs(b, count);
  }

  /** The first `count` status words among all of the ring. */
  lemma CollectedLeads(p: Plan, descs: seq<Desc>, lens: seq<U32>, closed: nat, count: nat)
    requires count <= p.count && p.first + p.count <= |descs|
    requires Collected(Statuses(p.(count := count), descs), lens, closed)
    ensures closed <= LeadEof(Statuses(p, descs))
    ensures forall k | 0 <= k < closed :: IsEof(Statuses(p, descs)[k]) && lens[k] == CountOf(Statuses(p, descs)[k])
    ensures LeadEof(Statuses(p, descs)) == p.count ==> closed == count
  {
    hide IsEof, CountOf, LeadEof;
    var few, sts := Statuses(p.(count := count), descs), Statuses(p, descs);
    assert forall k | 0 <= k < count :: few[k] == sts[k];
    EofsOfLead(few, closed);
    LeadAtLeast(sts, closed);
    if LeadEof(sts) == p.count {
      EofsOfLead(sts, p.count);
      LeadAtLeast(few, count);
    }
  }

  /** The first descriptors up to k report a TLAST each. */
  predicate ClosedTo(descs: seq<Desc>, k: nat)
    requires k < |descs|
  {
    forall i | 0 <= i <= k :: IsEof(descs[i].status)
  }

  /** What a stream lists: every image up to the first descriptor without a TLAST, with its count. */
  ghost predicate Lists(descs: seq<Desc>, lens: seq<U32>) {
    && |lens| <= |descs|
    && forall k | 0 <= k < |lens| :: lens[k] == if ClosedTo(descs, k) then descs[k].status % 0x400_0000 else 0
  }

  lemma CollectedLists(p: Plan, descs: seq<Desc>, lens: seq<U32>, closed: nat)
    requires p.first == 0 && |lens| == p.count <= |descs| && Collected(Statuses(p, descs), lens, closed)
    ensures Lists(descs, lens)
  {
    hide IsEof, LeadEof;
    var sts := Statuses(p, descs);
    EofsOfLead(sts, closed);
    forall k | 0 <= k < |lens|
      ensures lens[k] == if ClosedTo(descs, k) then descs[k].status % 0x400_0000 else 0
    {
      assert sts[k] == descs[k].status;
      if k < closed {
        forall i | 0 <= i <= k
          ensures IsEof(descs[i].status)
        {
          assert sts[i] == descs[i].status;
        }
      } else if ClosedTo(descs, k) {
        forall i | 0 <= i <= k
          ensures IsEof(sts[i])
        {
          assert sts[i] == descs[i].status;
        }
        LeadAtLeast(sts, k + 1);
      }
    }
  }

  /** The list stays true: nothing that it depends on changes after the look. */
  lemma ListStays(j: Job, look: Hw, late: Hw, evs: seq<Event>, lens: seq<U32>, status: Byte)
    requires Standing(j, look) && late == Steps(j.e, j.m, look, evs) && Lists(look.descs, lens)
    requires j.sink.first == 0 && |lens| <= j.sink.count <= |look.descs|
    requires if status == ST_OK then LeadEof(Statuses(j.sink, look.descs)) == j.sink.count
             else Quiet(look) && look.s2mm.phase != Running
    ensures Lists(late.descs, lens)
  {
    hide Standing, Steps, IsEof, LeadEof;
    if status == ST_OK {
      LaterStanding(j, look, evs);
      EofsOfLead(Statuses(j.sink, look.descs), j.sink.count);
      forall k | 0 <= k < |lens|
        ensures late.descs[k].status == look.descs[k].status && IsEof(look.descs[k].status)
      {
        assert Statuses(j.sink, look.descs)[k] == StatusOf(j.sink, look, k);
        LaterEof(j, look, evs, k);
        assert StatusOf(j.sink, late, k) == late.descs[k].status;
      }
    } else {
      QuietSteps(j.e, j.m, look, evs);
    }
  }

  /** Clean or not, every slice to send lies inside the rx buffer, and is not longer than the masked
      length of its slot. */
  lemma SlotsInside(j: Job, look: Hw, lens: seq<U32>, closed: nat, count: nat, slot: nat, size: nat)
    requires Safe(j, look) && Slotted(j.sink, count, slot) && |look.rx| == size && count * slot <= size
    requires j.sink.count <= |look.descs| && Collected(Statuses(j.sink.(count := count), look.descs), lens, closed)
    ensures forall k | 0 <= k < count :: 0 <= k * slot && k * slot + lens[k] <= count * slot
    ensures forall k | 0 <= k < count :: lens[k] <= SlotRoom(slot)
  {
    hide Safe, LeadEof, CountOf, IsEof, Plan.Valid, Cap, Off, SlotRoom;
    SafeSink(j, look);
    CollectedLeads(j.sink, look.descs, lens, closed, count);
    forall k | 0 <= k < count
      ensures 0 <= k * slot && k * slot + lens[k] <= count * slot && lens[k] <= SlotRoom(slot)
    {
      SlottedRoom(j.sink, count, slot, k);
      if k < closed {
        assert Statuses(j.sink, look.descs)[k] == StatusOf(j.sink, look, k);
        CountInSlot(j, look, k);
      }
    }
  }

  lemma SafeSink(j: Job, hw: Hw)
    requires Safe(j, hw)
    ensures j.sink.Valid() && j.sink.first + j.sink.count <= |hw.descs|
  {
    hide RingAt, Cutting, Landed, Unfinished, BytesAt, Apart, Plan.Valid;
  }

  lemma HonestImages(j: Job, look: Hw, evs: seq<Event>, late: Hw, rx: seq<Byte>, lens: seq<U32>,
                     closed: nat, count: nat, slot: nat, status: Byte)
    requires Standing(j, look) && late == Steps(j.e, j.m, look, evs)
    requires Slotted(j.sink, count, slot) && ImageBytes(j.d) > 0 && j.sink.count <= |look.descs|
    requires Collected(Statuses(j.sink.(count := count), look.descs), lens, closed)
    requires forall k | 0 <= k < count :: 0 <= k * slot && k * slot + lens[k] <= count * slot
    requires count * slot <= |rx| == |late.rx| && rx[..count * slot] == late.rx[..count * slot]
    requires status == ST_OK ==> closed == count
    requires status == ST_OK || status == ST_HW_ERROR || status == ST_HW_TIMEOUT
    ensures HonestStream(j.e, j.d, j.pixels, count, status, Slots(rx, slot, lens))
  {
    hide Standing, Steps, LeadEof, CountOf, IsEof, IsImage, Slotted;
    var images := Slots(rx, slot, lens);
    SlottedOff(j.sink, count, slot);
    CollectedLeads(j.sink, look.descs, lens, closed, count);
    forall k | 0 <= k < closed
      ensures IsImage(j.e, j.d, j.pixels, k, images[k])
    {
      OneImage(j, look, evs, late, rx, closed, count, slot, k, lens[k]);
    }
    forall k | closed <= k < count
      ensures images[k] == []
    {
      assert lens[k] == 0;
    }
    assert ClosedExactly(j.e, j.d, j.pixels, images, closed);
  }

  lemma OneImage(j: Job, look: Hw, evs: seq<Event>, late: Hw, rx: seq<Byte>, closed: nat, count: nat, slot: nat,
                 k: nat, len: nat)
    requires Standing(j, look) && late == Steps(j.e, j.m, look, evs)
    requires Slotted(j.sink, count, slot) && j.sink.count <= |look.descs|
    requires ImageBytes(j.d) > 0 && k < closed <= LeadEof(Statuses(j.sink, look.descs)) && closed <= count
    requires len == CountOf(Statuses(j.sink, look.descs)[k])
    requires 0 <= k * slot && k * slot + len <= count * slot <= |rx| == |late.rx|
    requires rx[..count * slot] == late.rx[..count * slot]
    ensures IsImage(j.e, j.d, j.pixels, k, rx[k * slot..k * slot + len])
  {
    hide Standing, Steps, LeadEof, CountOf, IsEof, Packet, ImageBytes, Told;
    StreamExact(j, look, evs, late, closed, k);
    SlottedOff(j.sink, count, slot);
    SameSlice(rx, late.rx, k * slot, len, count * slot);
  }

  lemma SlottedOff(p: Plan, count: nat, slot: nat)
    requires Slotted(p, count, slot)
    ensures p.first == 0 && count <= p.count && forall k | 0 <= k < count :: Off(p, k) == k * slot
  {
  }

  lemma SameSlice(a: seq<Byte>, b: seq<Byte>, from: nat, n: nat, size: nat)
    requires from + n <= size <= |a| == |b| && a[..size] == b[..size]
    ensures a[from..from + n] == b[from..from + n]
  {
    assert a[from..from + n] == a[..size][from..from + n];
    assert b[from..from + n] == b[..size][from..from + n];
  }

  /** An admitted stream that a working board can do: rings that can be built, whole images, and
      packets and slots of which each fits the other. */
  ghost predicate StreamFits(e: Encoder, m: Map, b: Board, d: Dims, req: Hdr, pixels: seq<Byte>) {
    var count, slot := ImageCount(req), SlotBytes(Expect(req));
    && slot < TWO_32 && 0 < SlotRoom(slot) && Wired(m, b, count * slot, slot, req.payloadLen)
    && ImageBytes(d) > 0 && |pixels| == count * ImageBytes(d)
    && forall k | 0 <= k < |Packets(e, d, pixels)| :: |Packets(e, d, pixels)[k]| <= SlotRoom(slot)
  }

  /** The same for any admitted request: a working board can do it. */
  ghost predicate Feasible(e: Encoder, m: Map, b: Board, d: Dims, req: Hdr, pixels: seq<Byte>) {
    if IsStream(req) then StreamFits(e, m, b, d, req, pixels)
    else && Wired(m, b, b.rxSize, DESC_CHUNK, req.payloadLen)
         && |pixels| == ImageBytes(d) > 0 && |PacketBytes(e, d, pixels)| <= b.rxSize
  }

  /** The rings of a stream can be built, and are not empty. */
  ghost predicate StreamWired(m: Map, b: Board, req: Hdr) {
    && StreamChunk(req) > 0
    && Wired(m, b, ImageCount(req) * SlotBytes(Expect(req)), StreamChunk(req), req.payloadLen)
  }

  ghost predicate FitsBoard(drv: Driver, req: Hdr)
    reads drv.tx
  {
    && req.payloadLen <= drv.tx.Length
    && Feasible(drv.e, drv.m, drv.board, drv.DimsOf(req.width, req.height), req, drv.tx[..req.payloadLen])
  }

  /** How many actions it takes to start a request when nothing fails. */
  const LAUNCH: nat := 7

  /** The run of a request, with nothing wrong and nothing that does not fit. */
  ghost predicate UnderWay(req: Hdr, j: Job, hw: Hw) {
    && j.sink.count > 0 && Live(j, hw, PctOf(req))
    && (if IsStream(req) then PacketsFit(j) else PacketFits(j) && j.sink.chunk < LEN_SPAN)
  }

  function GoalOf(req: Hdr): Goal {
    if IsStream(req) then EveryTlast else OneTlast
  }

  /** Such a run on these pixels, of which the wait does not see the end in time. */
  ghost predicate RanLate(drv: Driver, d: Dims, req: Hdr, pixels: seq<Byte>, at: nat, j: Job, hw: Hw) {
    && j.e == drv.e && j.m == drv.m && j.d == d && j.pixels == pixels && UnderWay(req, j, hw)
    && !InTime(GoalOf(req), Watch(j.e, j.m, j.sink, hw, at + LAUNCH), drv.script, drv.timeoutMs)
  }

  /** The request that begins with action `at` starts such a run. */
  ghost predicate Overdue(drv: Driver, d: Dims, req: Hdr, pixels: seq<Byte>, at: nat) {
    exists j, hw :: RanLate(drv, d, req, pixels, at, j, hw)
  }

  lemma ItIsOverdue(drv: Driver, req: Hdr, j: Job, hw: Hw, from: nat)
    requires ItsJob(drv, req, j)
    ensures && from >= LAUNCH && UnderWay(req, j, hw)
            && !InTime(GoalOf(req), Watch(drv.e, drv.m, j.sink, hw, from), drv.script, drv.timeoutMs) ==>
              Overdue(drv, j.d, req, j.pixels, from - LAUNCH)
  {
    hide UnderWay, InTime;
    if from >= LAUNCH && UnderWay(req, j, hw)
       && !InTime(GoalOf(req), Watch(drv.e, drv.m, j.sink, hw, from), drv.script, drv.timeoutMs) {
      assert RanLate(drv, j.d, req, j.pixels, from - LAUNCH, j, hw);
    }
  }

  /** Admission and an aligned descriptor buffer whose half can describe the rx buffer in 32 MiB pieces
      are all that the ring builder asks for, in both modes, unless the cast cuts a slot down to a chunk
      that takes too many descriptors. */
  lemma AdmittedWired(m: Map, b: Board, req: Hdr)
    requires Check(Hardware(b), req) == ST_OK
    requires m.descBase % DESC_BYTES == 0 && b.descSize / 2 % DESC_BYTES == 0
    requires Chunks(b.rxSize, DESC_CHUNK) * DESC_BYTES <= b.descSize / 2
    ensures !IsStream(req) ==> Wired(m, b, b.rxSize, DESC_CHUNK, req.payloadLen)
    ensures IsStream(req) ==>
              var slot := SlotBytes(Expect(req));
              Wired(m, b, ImageCount(req) * slot, StreamChunk(req), req.payloadLen) <==>
              slot <= TWO_32 || Chunks(slot, slot - TWO_32) * DESC_BYTES <= b.descSize / 2
  {
    hide Check, Chunks, SlotBytes, Expect, ImageCount, StreamChunk;
    PayloadFits(b, req);
    RingsFit(b, req, b.descSize / 2);
    if IsStream(req) {
      AdmittedStream(b, req);
      WideSlot(b, req);
      MulMono(1, ImageCount(req), SlotBytes(Expect(req)));
    }
  }

  /** How that fails in the code: an admitted stream whose slot has 2^32 bytes. The chunk is 0, and the
      server reports a hardware error that has nothing to do with the hardware. */
  lemma ZeroChunk()
    ensures Check(Hardware(WIDE_RX.(rxSize := TWO_32)), WIDE_STREAM) == ST_OK && IsStream(WIDE_STREAM)
    ensures SlotBytes(Expect(WIDE_STREAM)) == TWO_32 && StreamChunk(WIDE_STREAM) == 0
  {
    assert TrueImageBytes(WIDE_STREAM) == 0xCCCC_C000;
    assert ImageCount(WIDE_STREAM) == 1 && PerImage(WIDE_STREAM) == 0xCCCC_C000;
    assert SlotBytes(0xCCCC_C000) == TWO_32;
    hide SlotBytes, PerImage, TrueImageBytes;
  }

  const WIDE_STREAM := Hdr(MAGIC, VERSION, STREAM_REQ, 0, 52480, 65472, 8, 0, 0xCCCC_C000)

  /** The receive ring of an admitted stream. */
  lemma SlottedIs(b: Board, req: Hdr, p: Plan)
    requires Check(Hardware(b), req) == ST_OK && IsStream(req)
    requires p.first == 0 && p.len == ImageCount(req) * SlotBytes(Expect(req))
    requires p.chunk == StreamChunk(req) > 0 && p.count == Chunks(p.len, p.chunk)
    ensures Slotted(p, ImageCount(req), SlotBytes(Expect(req)))
  {
    hide Check, Chunks, SlotBytes, Expect, ImageCount;
    AdmittedStream(b, req);
    SlotIs(Expect(req));
    WideSlot(b, req);
    if SlotBytes(Expect(req)) < TWO_32 {
      WholeChunks(ImageCount(req), SlotBytes(Expect(req)));
    } else {
      WideChunks(SlotBytes(Expect(req)));
    }
  }

  /** The Pynq-Z2 board meets those conditions: its rings can be built for every admitted request. */
  lemma PynqWired(m: Map, bitness: nat, maxWidth: nat, maxHeight: nat, req: Hdr)
    requires m.descBase == 0x0FFC_0000
    requires Check(Hardware(Pynq(bitness, maxWidth, maxHeight)), req) == ST_OK
    ensures var b := Pynq(bitness, maxWidth, maxHeight);
            var slot := SlotBytes(Expect(req));
            if IsStream(req) then Wired(m, b, ImageCount(req) * slot, slot, req.payloadLen)
            else Wired(m, b, b.rxSize, DESC_CHUNK, req.payloadLen)
  {
    hide Check, Wired, SlotBytes, Expect, ImageCount;
    AdmittedWired(m, Pynq(bitness, maxWidth, maxHeight), req);
    if IsStream(req) {
      AdmittedStream(Pynq(bitness, maxWidth, maxHeight), req);
      SlotBelow(ImageCount(req), SlotBytes(Expect(req)), Pynq(bitness, maxWidth, maxHeight).rxSize);
    }
  }

  /** stream_and_reply up to the reply: one reset, one run, and what closed in it. */
  method RunStream(drv: Driver, req: Hdr, count: nat)
      returns (rc: int, status: Byte, lens: array<U32>, ghost clean: bool)
    requires drv.Valid() && Check(Hardware(drv.board), req) == ST_OK && IsStream(req) && count == ImageCount(req)
    modifies drv, drv.desc, drv.rx
    ensures drv.Valid() && fresh(lens)
    ensures rc == 0 || rc == ST_HW_ERROR
    ensures status == ST_OK || status == ST_HW_ERROR || status == ST_HW_TIMEOUT
    ensures clean && old(Quiet(drv.hw)) ==> Quiet(drv.hw)
    ensures (status == ST_OK ==> clean) && (!clean ==> HangsIn(drv.script, old(drv.at), drv.at))
    ensures drv.at >= old(drv.at)
    ensures rc == 0 ==>
              var slot := SlotBytes(Expect(req));
              && lens.Length == count
              && (forall k | 0 <= k < count :: 0 <= k * slot && k * slot + lens[k] <= drv.rx.Length)
              && (forall k | 0 <= k < count :: lens[k] <= SlotRoom(slot))
    ensures rc == 0 && clean && old(Quiet(drv.hw)) ==>
              HonestStream(drv.e, drv.DimsOf(req.width, req.height), drv.tx[..req.payloadLen], count, status,
                           Slots(drv.rx[..], SlotBytes(Expect(req)), lens[..]))
    ensures rc == 0 && status == ST_OK && old(Quiet(drv.hw)) ==> SlotBytes(Expect(req)) < TWO_32
    ensures Calm(drv.script, old(drv.at)) ==>
              (rc != ST_HW_ERROR <==> StreamWired(drv.m, drv.board, req))
    ensures StreamChunk(req) == 0 ==> rc == ST_HW_ERROR
    ensures rc == 0 && clean && old(Quiet(drv.hw)) ==> Lists(drv.hw.descs, lens[..])
    ensures status == ST_HW_TIMEOUT ==> drv.now / 1000 > old(drv.now) / 1000 + drv.timeoutMs
    ensures Calm(drv.script, old(drv.at)) && old(Quiet(drv.hw)) && FitsBoard(drv, req) ==>
              && rc != ST_HW_ERROR && status != ST_HW_ERROR
              && (status == ST_HW_TIMEOUT ==>
                    Overdue(drv, drv.DimsOf(req.width, req.height), req, drv.tx[..req.payloadLen], old(drv.at)))
  {
    hide Check, Causal, Good, Safe, ImageBytes, Chunks, HonestStream, SlotBytes, Expect, ImageCount, Calm, Sane,
         Wired, PacketsFit, FitsBoard, Slots, Slotted, HungReset, Roomy, SlotRoom, Overdue, InTime, Live, UnderWay,
         Lists;
    AdmittedStream(drv.board, req);
    AdmittedDims(drv, req);
    SlotIs(Expect(req));
    status, lens, clean := ST_OK, new U32[0], true;
    var slot := SlotBytes(req.payloadLen / count);
    var s2mm;
    ghost var j;
    rc, s2mm, j := Begin(drv, req, count * slot, Wrap32(slot));
    FitsWired(drv, req);
    if rc != 0 {
      rc := ST_HW_ERROR;
      return;
    }
    EnoughImages(count, Expect(req), ImageBytes(j.d), req.payloadLen);
    SlottedIs(drv.board, req, s2mm);
    ghost var begun, from := drv.hw, drv.at;
    StreamUnderWay(drv, req, j, begun);
    rc, status, lens, clean := AwaitStream(drv, req, s2mm, count, slot, j);
    ItIsOverdue(drv, req, j, begun, from);
  }

  lemma FitsWired(drv: Driver, req: Hdr)
    requires IsStream(req)
    ensures FitsBoard(drv, req) ==>
              var slot := SlotBytes(Expect(req));
              && slot < TWO_32 && StreamChunk(req) == slot > 0
              && Wired(drv.m, drv.board, ImageCount(req) * slot, slot, req.payloadLen)
  {
    hide Wired, Packets, SlotBytes, ImageCount, Expect, ImageBytes;
  }

  /** A stream on the board. From a quiet one the reply lists whole packets of the first images, in
      order, unless its recovery hung, and then it does not say OK; OK means that all are there. A board
      that does not fail, with packets that fit, never reports a hardware error. */
  method StreamAndReply(conn: Conn, drv: Driver, req: Hdr, count: nat)
      returns (rc: int, ghost clean: bool, ghost status: Byte, ghost images: seq<seq<Byte>>)
    requires drv.Valid() && Check(Hardware(drv.board), req) == ST_OK && IsStream(req) && count == ImageCount(req)
    modifies drv, drv.desc, drv.rx, conn`output, conn`writePlan
    ensures drv.Valid()
    ensures rc == 0 || rc == -1 || rc == ST_HW_ERROR
    ensures old(Unbroken(conn.writePlan)) ==> Unbroken(conn.writePlan) && rc != -1
    ensures rc > 0 ==> conn.output == old(conn.output)
    ensures status == ST_OK || status == ST_HW_ERROR || status == ST_HW_TIMEOUT
    ensures clean && old(Quiet(drv.hw)) ==> Quiet(drv.hw)
    ensures (status == ST_OK ==> clean) && (!clean ==> HangsIn(drv.script, old(drv.at), drv.at))
    ensures drv.at >= old(drv.at)
    ensures rc == 0 ==> conn.output == old(conn.output) + StreamReply(req, status, images)
    ensures rc == 0 ==>
              |images| == count && forall k | 0 <= k < count :: |images[k]| <= SlotRoom(SlotBytes(Expect(req)))
    ensures rc == 0 && clean && old(Quiet(drv.hw)) ==>
              HonestStream(drv.e, drv.DimsOf(req.width, req.height), drv.tx[..req.payloadLen], count, status, images)
    ensures rc == 0 && clean && old(Quiet(drv.hw)) ==>
              count <= |drv.hw.descs|
              && forall k | 0 <= k < count ::
                   |images[k]| == if ClosedTo(drv.hw.descs, k) then drv.hw.descs[k].status % 0x400_0000 else 0
    ensures rc == 0 && status == ST_OK && old(Quiet(drv.hw)) ==> SlotBytes(Expect(req)) < TWO_32
    ensures Calm(drv.script, old(drv.at)) ==>
              (rc != ST_HW_ERROR <==> StreamWired(drv.m, drv.board, req))
    ensures StreamChunk(req) == 0 ==> rc == ST_HW_ERROR
    ensures status == ST_HW_TIMEOUT ==> drv.now / 1000 > old(drv.now) / 1000 + drv.timeoutMs
    ensures Calm(drv.script, old(drv.at)) && old(Quiet(drv.hw)) && FitsBoard(drv, req) ==>
              && rc != ST_HW_ERROR && status != ST_HW_ERROR
              && (status == ST_HW_TIMEOUT ==>
                    Overdue(drv, drv.DimsOf(req.width, req.height), req, drv.tx[..req.payloadLen], old(drv.at)))
  {
    hide Check, Causal, StreamReply, HonestStream, SlotBytes, Expect, ImageCount, Calm, FitsBoard, HungReset,
         SlotRoom, Overdue, StreamWired;
    images := [];
    var st, lens;
    rc, st, lens, clean := RunStream(drv, req, count);
    status := st;
    if rc != 0 {
      return;
    }
    var slot := SlotBytes(Expect(req));
    images := Slots(drv.rx[..], slot, lens[..]);
    rc := StreamSend(conn, req, st, drv.rx, slot, lens);
  }

  lemma StreamUnderWay(drv: Driver, req: Hdr, j: Job, hw: Hw)
    requires ItsJob(drv, req, j) && IsStream(req)
    requires j.sink.Valid() && Slotted(j.sink, ImageCount(req), SlotBytes(Expect(req)))
    ensures FitsBoard(drv, req) ==> PacketsFit(j) && Roomy(j.sink)
    ensures FitsBoard(drv, req) && Live(j, hw, PctOf(req)) ==> Sane(j, hw) && UnderWay(req, j, hw)
  {
    hide Wired, Packets, SlotBytes, ImageCount, Expect, ImageBytes, SlotRoom, Good, Sane, Roomy, Plan.Valid;
    if FitsBoard(drv, req) {
      WholeRoomy(j.sink);
    }
  }

  lemma SlotBelow(count: nat, slot: nat, size: nat)
    requires count > 0 && count * slot <= size
    ensures slot <= size
  {
    MulMono(1, count, slot);
  }

  lemma EnoughImages(count: nat, claimed: nat, image: nat, len: nat)
    requires 0 < claimed <= image && count * claimed == len
    ensures image > 0 && len <= count * image
  {
    MulMono(claimed, image, count);
  }
}
