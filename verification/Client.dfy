// The client's run_stream around the wire: from PGM files to a request, and from the server's answer
// to bitstream files.
module Client {
  import opened Bytes
  import opened Proto
  import opened Encoder
  import opened Admission
  import opened Reply
  import opened Session
  import opened EndToEnd
  import opened Socket
  import opened Driver
  import Pgm
  import Ring
  import Serve
  import Fabric

  /** The picture in a file; one that does not load counts as empty. */
  function PictureIn(file: seq<Byte>): Pgm.Picture {
    if Pgm.Loading(file).Loaded? then Pgm.Loading(file).pic else Pgm.Picture(0, 0, 0, [])
  }

  function PixelsOf(files: seq<seq<Byte>>): (images: seq<seq<Byte>>)
    ensures |images| == |files| && forall k | 0 <= k < |files| :: images[k] == PictureIn(files[k]).pixels
  {
    seq<seq<Byte>>(|files|, k requires 0 <= k < |files| => PictureIn(files[k]).pixels)
  }

  /** The file loads, and has the width, height, bitness and byte count of the first. */
  ghost predicate Alike(first: seq<Byte>, file: seq<Byte>) {
    var a, b := PictureIn(first), PictureIn(file);
    && Pgm.Loading(file).Loaded?
    && b.width == a.width && b.height == a.height && b.bitness == a.bitness && |b.pixels| == |a.pixels|
  }

  /** All files load, and any two of the pictures have the same width, height, bitness and byte count. */
  ghost predicate AllAlike(files: seq<seq<Byte>>) {
    && files != []
    && (forall k | 0 <= k < |files| :: Pgm.Loading(files[k]).Loaded?)
    && forall i, k | 0 <= i < |files| && 0 <= k < |files| ::
         var a, b := PictureIn(files[i]), PictureIn(files[k]);
         a.width == b.width && a.height == b.height && a.bitness == b.bitness && |a.pixels| == |b.pixels|
  }

  /** Comparing each with the first finds that out. */
  lemma AllAlikeIff(files: seq<seq<Byte>>)
    requires files != []
    ensures AllAlike(files) <==> forall k | 0 <= k < |files| :: Alike(files[0], files[k])
  {
    hide Pgm.Loading;
    if AllAlike(files) {
      forall k | 0 <= k < |files|
        ensures Alike(files[0], files[k])
      {
      }
    }
    if forall k | 0 <= k < |files| :: Alike(files[0], files[k]) {
      forall i, k | 0 <= i < |files| && 0 <= k < |files|
        ensures PictureIn(files[i]).width == PictureIn(files[k]).width
                && PictureIn(files[i]).height == PictureIn(files[k]).height
                && PictureIn(files[i]).bitness == PictureIn(files[k]).bitness
                && |PictureIn(files[i]).pixels| == |PictureIn(files[k]).pixels|
      {
        assert Alike(files[0], files[i]) && Alike(files[0], files[k]);
      }
      forall k | 0 <= k < |files|
        ensures Pgm.Loading(files[k]).Loaded?
      {
        assert Alike(files[0], files[k]);
      }
    }
  }

  /** The header of a stream request; its length field is a uint32_t product. */
  function StreamRequest(first: Pgm.Picture, readyPct: Byte, count: nat): Hdr {
    Hdr(MAGIC, VERSION, STREAM_REQ, 0, first.width, first.height, first.bitness, readyPct,
      Wrap32(|first.pixels| * count))
  }

  function RequestFor(files: seq<seq<Byte>>, readyPct: Byte): Hdr
    requires files != []
  {
    StreamRequest(PictureIn(files[0]), readyPct, |files|)
  }

  /** Loading file i leaves its buffer, and every file before it has loaded. */
  ghost predicate OverrunAt(files: seq<seq<Byte>>, i: nat) {
    i < |files| && Pgm.Loading(files[i]).Overrun? && forall k | 0 <= k < i :: Alike(files[0], files[k])
  }

  /** The client gets to a picture that its swap loop does not keep inside the buffer. */
  ghost predicate Overruns(files: seq<seq<Byte>>) {
    exists i :: OverrunAt(files, i)
  }

  /** Loads the files into one buffer, refusing one that does not load or differs from the first, unless
      one of them overruns its own buffer. */
  method Collect(files: seq<seq<Byte>>, readyPct: Byte)
      returns (overran: bool, ok: bool, req: Hdr, pixels: array<Byte>)
    requires files != []
    ensures fresh(pixels)
    ensures overran <==> Overruns(files)
    ensures overran ==> !ok
    ensures !overran ==> (ok <==> AllAlike(files))
    ensures ok ==> req == RequestFor(files, readyPct) && pixels[..] == Flat(PixelsOf(files))
  {
    hide Flat, Pgm.Loading, PixelsOf, Wrap32, AllAlike;
    AllAlikeIff(files);
    var first := Pgm.Picture(0, 0, 0, []);
    overran, pixels := false, new Byte[0];
    NothingFlat(files);
    for i := 0 to |files|
      invariant forall k | 0 <= k < i :: Alike(files[0], files[k])
      invariant i > 0 ==> first == PictureIn(files[0]) && pixels.Length == |files| * |first.pixels|
      invariant fresh(pixels)
      invariant 0 <= i * |first.pixels| <= pixels.Length && pixels[..i * |first.pixels|] == Flat(PixelsOf(files[..i]))
    {
      var load := Pgm.PgmLoad(files[i]);
      if load.Overrun? {
        assert OverrunAt(files, i);
        return true, false, StreamRequest(first, readyPct, 0), pixels;
      }
      if !load.Loaded? {
        assert !Alike(files[0], files[i]);
        NoneOverruns(files, i);
        return false, false, StreamRequest(first, readyPct, 0), pixels;
      }
      var pic := load.pic;
      if i == 0 {
        first := pic;
        Ring.MulMono(0, |files|, |first.pixels|);
        pixels := new Byte[|files| * |first.pixels|];
      } else if pic.width != first.width || pic.height != first.height || pic.bitness != first.bitness
             || |pic.pixels| != |first.pixels| {
        assert !Alike(files[0], files[i]);
        NoneOverruns(files, i);
        return false, false, StreamRequest(first, readyPct, 0), pixels;
      }
      assert Alike(files[0], files[i]);
      Room(i, |files|, |first.pixels|);
      CopyIn(pixels, i * |first.pixels|, pic.pixels);
      NextPixels(files, i);
    }
    assert files[..|files|] == files;
    assert pixels[..|files| * |first.pixels|] == pixels[..];
    NoneOverruns(files, |files|);
    ok, req := true, StreamRequest(first, readyPct, |files|);
  }

  /** A file that the client refuses, or none at all, is the last that it looks at. */
  lemma NoneOverruns(files: seq<seq<Byte>>, n: nat)
    requires n <= |files| && forall k | 0 <= k < n :: Alike(files[0], files[k])
    requires n < |files| ==> !Alike(files[0], files[n]) && !Pgm.Loading(files[n]).Overrun?
    ensures !Overruns(files)
  {
    hide Pgm.Loading;
    forall i: nat
      ensures !OverrunAt(files, i)
    {
    }
  }

  /** memcpy. */
  method CopyIn(buf: array<Byte>, off: nat, data: seq<Byte>)
    requires off + |data| <= buf.Length
    modifies buf
    ensures buf[..off + |data|] == old(buf[..off]) + data
  {
    forall k | 0 <= k < |data| {
      buf[off + k] := data[k];
    }
  }

  lemma NextPixels(files: seq<seq<Byte>>, i: nat)
    requires i < |files|
    ensures Flat(PixelsOf(files[..i + 1])) == Flat(PixelsOf(files[..i])) + PictureIn(files[i]).pixels
  {
    hide Flat, Pgm.Loading;
    assert PixelsOf(files[..i + 1]) == PixelsOf(files[..i]) + [PictureIn(files[i]).pixels];
    FlatSnoc(PixelsOf(files[..i]), PictureIn(files[i]).pixels);
  }

  lemma NothingFlat(files: seq<seq<Byte>>)
    ensures Flat(PixelsOf(files[..0])) == []
  {
  }

  lemma Room(i: nat, n: nat, size: nat)
    requires i < n
    ensures 0 <= i * size && i * size + size == (i + 1) * size <= n * size
  {
    Ring.MulMono(i + 1, n, size);
    Ring.MulMono(0, i, size);
  }

  /** Gluing equal images and cutting again gives them back. */
  lemma {:induction false} GluedThenCut(images: seq<seq<Byte>>, size: nat)
    requires size > 0 && forall k | 0 <= k < |images| :: |images[k]| == size
    ensures Pieces(Flat(images), size) == images
  {
    if images != [] {
      GluedThenCut(images[1..], size);
      var all := Flat(images);
      assert all[..size] == images[0] && all[size..] == Flat(images[1..]);
      assert images == [images[0]] + images[1..];
    }
  }

  lemma Quotient(n: nat, size: nat)
    requires size > 0
    ensures n * size < TWO_32 ==> Wrap32(n * size) / size == n
    ensures n * size >= TWO_32 ==> Wrap32(n * size) / size < n
  {
    if n * size < TWO_32 {
      QuotientIs(n * size, size, n);
    } else {
      QuotientBelow(Wrap32(n * size), n, size);
    }
  }

  lemma QuotientBelow(x: nat, n: nat, size: nat)
    requires size > 0 && x < n * size
    ensures x / size < n
  {
    var q := x / size;
    assert x == q * size + x % size;
    if q >= n {
      Ring.MulMono(n, q, size);
    }
  }

  lemma EachFits(files: seq<seq<Byte>>, readyPct: Byte)
    requires files != [] && AllAlike(files)
    ensures var req := RequestFor(files, readyPct);
            && ImageBytes(FrameDims(req)) == Expect(req) > 0
            && forall k | 0 <= k < |files| :: |PixelsOf(files)[k]| == Expect(req)
  {
    hide Pgm.Loading, Expect, TrueImageBytes, PixelsOf, Wrap32, AllAlike;
    AllAlikeIff(files);
    var req := RequestFor(files, readyPct);
    assert Alike(files[0], files[0]);
    Pgm.LoadedFits(files[0], req);
    FrameImage(req);
    forall k | 0 <= k < |files|
      ensures |PixelsOf(files)[k]| == Expect(req)
    {
      assert Alike(files[0], files[k]);
    }
  }

  /** The request says what the client means exactly when its pixels fit a 32-bit length: the server
      then counts as many images and cuts out the same ones. Beyond that it names fewer images. */
  lemma RequestMeans(files: seq<seq<Byte>>, readyPct: Byte)
    requires files != [] && AllAlike(files)
    ensures var req := RequestFor(files, readyPct); var all := Flat(PixelsOf(files));
            && Expect(req) > 0 && |all| == |files| * Expect(req)
            && (ImageCount(req) == |files| <==> |all| < TWO_32)
            && (|all| < TWO_32 ==> req.payloadLen == |all| && Pieces(all, Expect(req)) == PixelsOf(files))
            && (|all| >= TWO_32 ==> ImageCount(req) < |files|)
  {
    hide Expect, Flat, Pieces, Wrap32, PixelsOf, PictureIn, AllAlike, FrameDims;
    var req := RequestFor(files, readyPct);
    var size := Expect(req);
    EachFits(files, readyPct);
    FirstSize(files, size);
    FlatAlike(PixelsOf(files), size);
    GluedThenCut(PixelsOf(files), size);
    Quotient(|files|, size);
    assert |files| * size == size * |files|;
    Unwrapped(|files| * size);
  }

  lemma FirstSize(files: seq<seq<Byte>>, size: nat)
    requires files != [] && forall k | 0 <= k < |files| :: |PixelsOf(files)[k]| == size
    ensures |PictureIn(files[0]).pixels| == size
  {
    hide Pgm.Loading;
    assert |PixelsOf(files)[0]| == size;
  }

  lemma Unwrapped(x: nat)
    ensures x < TWO_32 ==> Wrap32(x) == x
  {
  }

  lemma ImageIsSlice(d: Dims, pixels: seq<Byte>, count: nat, k: nat)
    requires ImageBytes(d) > 0 && |pixels| == count * ImageBytes(d) && k < count
    ensures (k + 1) * ImageBytes(d) <= |pixels| && |Pieces(pixels, ImageBytes(d))| == count
    ensures Image(d, pixels, k) == Pieces(pixels, ImageBytes(d))[k]
  {
    hide Pieces, ImageBytes;
    Ring.MulMono(k + 1, count, ImageBytes(d));
    CutIs(pixels, ImageBytes(d), count);
    CutAt(pixels, ImageBytes(d), count, k);
    assert (k + 1) * ImageBytes(d) == k * ImageBytes(d) + ImageBytes(d);
  }

  /** The encoder's packet of a picture, at the picture's own width, height and depth. */
  function PicturePacket(e: Encoder, pic: Pgm.Picture): seq<Byte> {
    Serve.PacketBytes(e, Dims(pic.width, pic.height, if pic.bitness <= 8 then 1 else 2), pic.pixels)
  }

  /** The bitstreams of the pictures in the client's own files, numbered from 0. */
  ghost predicate TheirPackets(e: Encoder, files: seq<seq<Byte>>, out: seq<File>) {
    && |out| <= |files|
    && forall k | 0 <= k < |out| :: out[k] == File(k, PicturePacket(e, PictureIn(files[k])))
  }

  /** What the client writes, in terms of the files it read. */
  ghost predicate TheirVerdict(e: Encoder, files: seq<seq<Byte>>, v: Verdict) {
    match v
    case Malformed => false
    case Rejected(st) => st == ST_HW_ERROR || st == ST_HW_TIMEOUT
    case Failed(st, out) => (st == ST_HW_ERROR || st == ST_HW_TIMEOUT) && TheirPackets(e, files, out)
    case Complete(out) => |out| == |files| && TheirPackets(e, files, out)
  }

  /** Pictures that fit together in one request, and an answer that is exact or an honest failure: the
      client learns of the failure, or it writes the encoder's packet of each picture it read; after a
      failure it still writes only whole packets of its own pictures. */
  lemma FilesToFiles(b: Board, e: Encoder, files: seq<seq<Byte>>, readyPct: Byte, reply: seq<Byte>)
    requires files != [] && AllAlike(files) && |files| < MAX_FILES && Causal(e)
    requires |Flat(PixelsOf(files))| < TWO_32 && Check(Hardware(b), RequestFor(files, readyPct)) == ST_OK
    requires HwAnswer(b, e, Frame(RequestFor(files, readyPct), Flat(PixelsOf(files))), reply, true)
    ensures var v := ClientVerdict(|files|, reply);
            if Oversized(reply) then v.Malformed? || v.Rejected?
            else TheirVerdict(e, files, v)
    ensures FitsReply(RequestFor(files, readyPct)) ==> !Oversized(reply)
  {
    hide Check, Expect, ImageCount, HwAnswer, ClientVerdict, Causal, Flat, FirstPackets, TheirPackets, PixelsOf,
         PictureIn, FrameDims, AllAlike, ImageBytes, Pieces, Wrap32, Oversized;
    var req := RequestFor(files, readyPct);
    var f := Frame(req, Flat(PixelsOf(files)));
    RequestMeans(files, readyPct);
    EachFits(files, readyPct);
    StreamEndToEnd(b, e, f, reply);
    forall out | |out| <= |files| && FirstPackets(e, FrameDims(req), f.payload, out)
      ensures TheirPackets(e, files, out)
    {
      AreTheirs(e, files, readyPct, f.payload, out);
    }
  }

  lemma AreTheirs(e: Encoder, files: seq<seq<Byte>>, readyPct: Byte, pixels: seq<Byte>, out: seq<File>)
    requires files != [] && AllAlike(files)
    requires var d := FrameDims(RequestFor(files, readyPct));
             && |out| <= |files| && FirstPackets(e, d, pixels, out)
             && ImageBytes(d) > 0 && |pixels| == |files| * ImageBytes(d)
             && Pieces(pixels, ImageBytes(d)) == PixelsOf(files)
    ensures TheirPackets(e, files, out)
  {
    hide ImageBytes, Pieces, Serve.PacketBytes, PictureIn, AllAlike, FrameDims;
    var d := FrameDims(RequestFor(files, readyPct));
    forall k | 0 <= k < |out|
      ensures out[k] == File(k, PicturePacket(e, PictureIn(files[k])))
    {
      ImageIsSlice(d, pixels, |files|, k);
      OwnDims(e, files, readyPct, k);
    }
  }

  /** The dimensions in the request are those of every picture. */
  lemma OwnDims(e: Encoder, files: seq<seq<Byte>>, readyPct: Byte, k: nat)
    requires AllAlike(files) && k < |files|
    ensures Serve.PacketBytes(e, FrameDims(RequestFor(files, readyPct)), PixelsOf(files)[k])
            == PicturePacket(e, PictureIn(files[k]))
  {
    hide Pgm.Loading, Serve.PacketBytes, Wrap32;
    assert PictureIn(files[k]).width == PictureIn(files[0]).width;
  }

  /** What the request says: type 3, the dimensions and depth of the pictures, and the percentage. */
  lemma RequestSays(files: seq<seq<Byte>>, readyPct: Byte)
    requires files != [] && AllAlike(files)
    ensures var h := RequestFor(files, readyPct);
            && h.magic == 0x4F4A_4C53 && h.version == 1 && h.kind == 3 && h.status == 0 && h.readyPct == readyPct
            && h.payloadLen as nat == |Flat(PixelsOf(files))| % 0x1_0000_0000
            && forall k | 0 <= k < |files| ::
                 var p := PictureIn(files[k]); h.width == p.width && h.height == p.height && h.bitness == p.bitness
  {
    hide Pgm.Loading, Flat, PixelsOf, PictureIn;
    AllAlikeIff(files);
    var size := |PictureIn(files[0]).pixels|;
    forall k | 0 <= k < |files|
      ensures |PixelsOf(files)[k]| == size
    {
      assert Alike(files[0], files[k]);
    }
    FlatAlike(PixelsOf(files), size);
    assert |files| * size == size * |files|;
    forall k | 0 <= k < |files|
      ensures var h, p := RequestFor(files, readyPct), PictureIn(files[k]);
              h.width == p.width && h.height == p.height && h.bitness == p.bitness
    {
      assert Alike(files[0], files[k]);
    }
  }

  /** How the kernels at both ends cut and interrupt the two directions of a connection. */
  datatype Net = Net(clientWrites: seq<IoEvent>, serverReads: seq<IoEvent>, serverWrites: seq<IoEvent>,
                     clientReads: seq<IoEvent>)

  ghost predicate Up(net: Net) {
    Unbroken(net.clientWrites) && Unbroken(net.serverReads) && Unbroken(net.serverWrites) && Unbroken(net.clientReads)
  }

  lemma OneRequest(h: Hdr, pixels: seq<Byte>)
    requires h.magic == MAGIC && |pixels| == h.payloadLen
    ensures Parse(PackHdr(h) + pixels) == Parsed([Frame(h, pixels)], Closed)
  {
    hide PackHdr, UnpackHdr, Parse;
    UnpackPack(h);
    var r := Raw(PackHdr(h), pixels);
    RequestsStayInStep([r], []);
    NoFrame();
    assert Wire([r]) == r.hdr + r.payload + Wire([r][1..]) && Wire([r][1..]) == [];
    assert PackHdr(h) + pixels + [] + [] == PackHdr(h) + pixels;
    assert FramesOf([r]) == [Frame(UnpackHdr(r.hdr), r.payload)] + FramesOf([r][1..]) && FramesOf([r][1..]) == [];
  }

  lemma NoFrame()
    ensures Parse([]) == Parsed([], Closed)
  {
  }

  /** One request over a new connection to a server on a quiet board: the client sends header and pixels,
      the server serves the connection, and what it sends comes back; every read and write is cut and
      interrupted at will. The one reply is to be trusted. */
  method Exchange(req: Hdr, pixels: array<Byte>, drv: Driver, net: Net) returns (reply: seq<Byte>)
    requires req.magic == MAGIC && req.payloadLen <= pixels.Length && Up(net)
    requires drv.Valid() && Fabric.Quiet(drv.hw) && ResetsWork(drv.script, drv.at)
    modifies drv, drv.tx, drv.rx, drv.desc
    ensures drv.Valid() && Fabric.Quiet(drv.hw) && drv.at >= old(drv.at)
    ensures pixels !in [drv.tx, drv.rx] ==> pixels[..] == old(pixels[..])
    ensures Answers(Hardware(drv.board), drv.e, Frame(req, old(pixels[..req.payloadLen])), reply, true)
    ensures Calm(drv.script, old(drv.at)) ==>
              FulfilledIn(drv, Frame(req, old(pixels[..req.payloadLen])), reply, old(drv.at), drv.at)
  {
    hide Parse, Answers, HungReset, HangsIn, ResetsWork, PackHdr, UnpackHdr, Broke, LoopSession, Calm, FulfilledIn;
    var hdrRaw := new Byte[HDR_LEN];
    HdrPack(hdrRaw, req);
    var up := new Conn([], [], net.clientWrites);
    var rc := up.SendFull(hdrRaw, 0, HDR_LEN);
    assert hdrRaw[0..HDR_LEN] == hdrRaw[..];
    rc := up.SendFull(pixels, 0, req.payloadLen);
    assert up.output == PackHdr(req) + pixels[..req.payloadLen];
    OneRequest(req, pixels[..req.payloadLen]);
    var accepted := new Conn(up.output, net.serverReads, net.serverWrites);
    ghost var frames, replies, upTo, clean;
    ghost var from, f := drv.at, Frame(req, pixels[..req.payloadLen]);
    rc, frames, replies, upTo, clean := ServeConnection(accepted, Hardware(drv.board), drv);
    OneReply(replies, accepted.output);
    assert Answers(Hardware(drv.board), drv.e, frames[0], replies[0], 0 < upTo);
    if Calm(drv.script, from) {
      FirstFulfilled(drv, frames, replies, from, drv.at);
    }
    reply := accepted.output;
  }

  lemma FirstFulfilled(drv: Driver, frames: seq<Frame>, replies: seq<seq<Byte>>, from: nat, to: nat)
    requires AllFulfilled(drv, frames, replies, from, to) && |frames| > 0
    ensures |replies| == |frames| && FulfilledIn(drv, frames[0], replies[0], from, to)
  {
    hide FulfilledIn;
  }

  /** run_stream against a server on a quiet board: the client collects its files and sends a request,
      the server serves the connection, the client reads the answer, and every read and write is cut and
      interrupted at will. Of a picture that overruns its buffer nothing is promised. */
  method RunStream(files: seq<seq<Byte>>, readyPct: Byte, drv: Driver, net: Net) returns (ok: bool, v: Verdict)
    requires files != [] && |files| < MAX_FILES && Up(net)
    requires drv.Valid() && Fabric.Quiet(drv.hw) && ResetsWork(drv.script, drv.at)
    modifies drv, drv.tx, drv.rx, drv.desc
    ensures drv.Valid() && Fabric.Quiet(drv.hw)
    ensures !Overruns(files) ==> (ok <==> AllAlike(files))
    ensures ok && |Flat(PixelsOf(files))| < TWO_32 ==>
              var req := RequestFor(files, readyPct);
              var st := Check(Hardware(drv.board), req);
              if st != ST_OK then v == Rejected(st)
              else || TheirVerdict(drv.e, files, v)
                   || (!FitsReply(req) && (v.Malformed? || v.Rejected?))
    ensures ok && |Flat(PixelsOf(files))| < TWO_32 && Calm(drv.script, old(drv.at)) ==>
              var f := Frame(RequestFor(files, readyPct), Flat(PixelsOf(files)));
              Check(Hardware(drv.board), f.h) == ST_OK && CanDo(drv, f) && FitsReply(f.h) ==>
                v.Complete? || WasOverdue(drv, f, old(drv.at), drv.at)
    ensures ok && |Flat(PixelsOf(files))| >= TWO_32 ==> v.Malformed? || v.Rejected?
  {
    hide Pgm.Loading, PixelsOf, PictureIn, Flat, AllAlike, Check, HungReset, ResetsWork, Causal, ClientVerdict,
         TheirVerdict, Answers, Wrap32, FrameDims, Expect, ImageCount, Pieces, Calm, FulfilledIn, WasOverdue, CanDo,
         FitsReply;
    var overran, req, pixels;
    overran, ok, req, pixels := Collect(files, readyPct);
    v := Malformed;
    if !ok {
      return;
    }
    RequestMeans(files, readyPct);
    ghost var all, from := pixels[..], drv.at;
    var reply := Exchange(req, pixels, drv, net);
    var down := new Conn(reply, net.clientReads, []);
    v := ReadResponse(down, |files|);
    if |all| < TWO_32 {
      assert all[..req.payloadLen] == all;
      TheReply(drv.board, drv.e, files, readyPct, reply);
      if Calm(drv.script, from) {
        InOrder(drv, Frame(req, all), |files|, reply, from, drv.at);
        NotMalformed(drv.e, files, v);
      }
    } else {
      NeverWhole(drv.board, drv.e, Frame(req, all[..req.payloadLen]), |files|, reply);
    }
  }

  /** Nothing in the frame is too much for the board. */
  ghost predicate CanDo(drv: Driver, f: Frame) {
    Serve.Feasible(drv.e, drv.m, drv.board, FrameDims(f.h), f.h, f.payload)
  }

  /** The run of the frame, begun with some action from `from` to `to`, is not over in time. */
  ghost predicate WasOverdue(drv: Driver, f: Frame, from: nat, to: nat) {
    exists at :: from <= at <= to && Serve.Overdue(drv, FrameDims(f.h), f.h, f.payload, at)
  }

  lemma NotMalformed(e: Encoder, files: seq<seq<Byte>>, v: Verdict)
    ensures TheirVerdict(e, files, v) ==> !v.Malformed?
  {
    hide TheirPackets;
  }

  lemma InOrder(drv: Driver, f: Frame, count: nat, reply: seq<Byte>, from: nat, to: nat)
    requires FulfilledIn(drv, f, reply, from, to)
    ensures Check(Hardware(drv.board), f.h) == ST_OK && CanDo(drv, f) ==>
              var v := ClientVerdict(count, reply);
              v.Malformed? || v.Complete? || WasOverdue(drv, f, from, to)
  {
    hide Check, ClientVerdict, Serve.Feasible, Serve.Overdue, Succeeded;
    if Succeeded(reply) {
      OkVerdict(count, reply);
    }
  }

  /** A request that names fewer images than the client has gets no answer that passes for a result. */
  lemma NeverWhole(b: Board, e: Encoder, f: Frame, count: nat, reply: seq<Byte>)
    requires Answers(Hardware(b), e, f, reply, true)
    requires IsStream(f.h) && ImageCount(f.h) < count < MAX_FILES
    ensures var v := ClientVerdict(count, reply); v.Malformed? || v.Rejected?
  {
    hide Check, ClientVerdict, ErrorReply, StreamReply, SlotRoom, SlotBytes, Expect, ImageCount,
         Serve.HonestStream;
    ErrorVerdict(count, f.h, ST_HW_ERROR);
    ErrorVerdict(count, f.h, ST_HW_TIMEOUT);
    if Check(Hardware(b), f.h) != ST_OK {
      ErrorVerdict(count, f.h, Check(Hardware(b), f.h));
    } else if reply != ErrorReply(f.h, ST_HW_ERROR) && reply != ErrorReply(f.h, ST_HW_TIMEOUT) {
      var status, images :| SentStream(e, f, reply, status, images, true);
      ShortRoom(SlotBytes(Expect(f.h)));
      FewerImages(count, f.h, status, images);
    }
  }

  lemma OneReply(replies: seq<seq<Byte>>, output: seq<Byte>)
    requires |replies| == 1 && output == [] + Flat(replies) + EndReply(Closed)
    ensures output == replies[0]
  {
    assert Flat(replies[1..]) == [];
  }

  lemma TheReply(b: Board, e: Encoder, files: seq<seq<Byte>>, readyPct: Byte, reply: seq<Byte>)
    requires files != [] && AllAlike(files) && |files| < MAX_FILES && Causal(e) && |Flat(PixelsOf(files))| < TWO_32
    requires Answers(Hardware(b), e, Frame(RequestFor(files, readyPct), Flat(PixelsOf(files))), reply, true)
    ensures var req := RequestFor(files, readyPct);
            var st := Check(Hardware(b), req);
            var v := ClientVerdict(|files|, reply);
            if st != ST_OK then v == Rejected(st)
            else || TheirVerdict(e, files, v)
                 || (!FitsReply(req) && (v.Malformed? || v.Rejected?))
  {
    hide Pgm.Loading, PixelsOf, PictureIn, Flat, AllAlike, Check, Causal, ClientVerdict, TheirVerdict, HwAnswer,
         ErrorReply, Oversized, FrameDims, RequestFor;
    var req := RequestFor(files, readyPct);
    if Check(Hardware(b), req) != ST_OK {
      ErrorVerdict(|files|, req, Check(Hardware(b), req));
    } else {
      FilesToFiles(b, e, files, readyPct, reply);
    }
  }

  // --- a single image ---

  /** -b: a bitness for the same samples, or none. */
  predicate Compatible(pic: Pgm.Picture, bits: int) {
    || bits == 0
    || (&& pic.bitness as int <= bits <= 16
        && !(|pic.pixels| == pic.width as nat * pic.height as nat && bits > 8))
  }

  /** An override is taken exactly if it holds the samples and they still have as many bytes. */
  lemma CompatibleIff(file: seq<Byte>, bits: int)
    requires Pgm.Loading(file).Loaded?
    ensures var pic := Pgm.Loading(file).pic;
            Compatible(pic, bits) <==>
              bits == 0 || (pic.bitness as int <= bits <= 16 && (bits <= 8 <==> pic.bitness <= 8))
  {
    hide Pgm.Loading;
    var pic := Pgm.Loading(file).pic;
    Pgm.LoadedFits(file, SingleRequest(pic));
    SampleBytes(pic);
  }

  lemma SampleBytes(pic: Pgm.Picture)
    requires pic.width > 0 && pic.height > 0
    requires |pic.pixels| == pic.width as nat * pic.height as nat * BytesPerPixel(pic.bitness)
    ensures |pic.pixels| == pic.width as nat * pic.height as nat <==> pic.bitness <= 8
  {
    Ring.MulMono(1, pic.width, pic.height);
  }

  function Override(pic: Pgm.Picture, bits: int): Pgm.Picture
    requires Compatible(pic, bits)
  {
    if bits == 0 then pic else pic.(bitness := bits)
  }

  function SingleRequest(pic: Pgm.Picture): Hdr {
    Hdr(MAGIC, VERSION, ENCODE_REQ, 0, pic.width, pic.height, pic.bitness, 0, Wrap32(|pic.pixels|))
  }

  /** What the request says: type 1, and the dimensions, the depth and the byte count of the picture. It has
      the byte count that the server expects, which the override does not change, so only the board's
      limits can refuse it. */
  lemma SingleRequestSays(file: seq<Byte>, bits: int)
    requires Pgm.Loading(file).Loaded? && Compatible(Pgm.Loading(file).pic, bits)
    ensures var pic := Pgm.Loading(file).pic;
            var h := SingleRequest(Override(pic, bits));
            && h == Hdr(0x4F4A_4C53, 1, 1, 0, pic.width, pic.height, if bits == 0 then pic.bitness else bits, 0,
                        |pic.pixels|)
            && h.payloadLen as nat == TrueImageBytes(h) == ImageBytes(FrameDims(h)) > 0
            && FrameDims(h) == Dims(pic.width, pic.height, if pic.bitness <= 8 then 1 else 2)
            && Proper(h)
  {
    hide Pgm.Loading;
    var pic := Pgm.Loading(file).pic;
    var own := SingleRequest(pic);
    Pgm.LoadedFits(file, own);
    ExpectIs(own);
    SamplesKeep(pic, bits);
  }

  lemma SamplesKeep(pic: Pgm.Picture, bits: int)
    requires Compatible(pic, bits) && 8 <= pic.bitness <= 16 && pic.width > 0 && pic.height > 0
    requires |pic.pixels| == pic.width as nat * pic.height as nat * BytesPerPixel(pic.bitness) < TWO_32
    ensures 8 <= Override(pic, bits).bitness <= 16
    ensures BytesPerPixel(Override(pic, bits).bitness) == BytesPerPixel(pic.bitness)
  {
    Ring.MulMono(1, pic.width, pic.height);
  }

  /** The client's main with one image and one round: it loads the file, exchanges a request, and saves
      the bitstream. */
  method RunSingle(file: seq<Byte>, bits: int, drv: Driver, net: Net) returns (ok: bool, v: Outcome)
    requires Up(net)
    requires drv.Valid() && Fabric.Quiet(drv.hw) && ResetsWork(drv.script, drv.at)
    modifies drv, drv.tx, drv.rx, drv.desc
    ensures drv.Valid() && Fabric.Quiet(drv.hw)
    ensures !Pgm.Loading(file).Overrun? ==>
              (ok <==> Pgm.Loading(file).Loaded? && Compatible(Pgm.Loading(file).pic, bits))
    ensures ok ==> Pgm.Loading(file).Loaded? && Compatible(Pgm.Loading(file).pic, bits)
    ensures ok ==>
              var pic := Pgm.Loading(file).pic;
              var packet := PicturePacket(drv.e, pic);
              var st := Check(Hardware(drv.board), SingleRequest(Override(pic, bits)));
              if st != 0 then v == Refused(st) else SavedOrFailed(drv.board, packet, v)
    ensures ok && Calm(drv.script, old(drv.at)) ==>
              var pic := Override(Pgm.Loading(file).pic, bits);
              var f := Frame(SingleRequest(pic), pic.pixels);
              Check(Hardware(drv.board), f.h) == 0 && CanDo(drv, f) ==>
                v.Saved? || WasOverdue(drv, f, old(drv.at), drv.at)
  {
    hide Pgm.Loading, Check, HungReset, ResetsWork, SingleVerdict, Answers, FrameDims, Calm, FulfilledIn, WasOverdue,
         CanDo, PicturePacket, Compatible, SavedOrFailed, Causal, TrueImageBytes, Proper, ImageBytes, Driver.Valid;
    v := Lost;
    var load := Pgm.PgmLoad(file);
    ok := load.Loaded? && Compatible(load.pic, bits);
    if !ok {
      return;
    }
    SingleRequestSays(file, bits);
    var pic := Override(load.pic, bits);
    var req := SingleRequest(pic);
    var pixels := new Byte[|pic.pixels|];
    CopyIn(pixels, 0, pic.pixels);
    assert pixels[..] == pic.pixels && pixels[..req.payloadLen] == pic.pixels;
    ghost var from := drv.at;
    var reply := Exchange(req, pixels, drv, net);
    var down := new Conn(reply, net.clientReads, []);
    v := ReadSingle(down);
    TheOutcome(drv.board, drv.e, load.pic, Frame(req, pic.pixels), reply);
    SingleInOrder(drv, load.pic, Frame(req, pic.pixels), reply, from, drv.at);
  }

  lemma TheOutcome(b: Board, e: Encoder, pic: Pgm.Picture, f: Frame, reply: seq<Byte>)
    requires Answers(Hardware(b), e, f, reply, true) && !IsStream(f.h) && f.payload == pic.pixels
    requires FrameDims(f.h) == Dims(pic.width, pic.height, if pic.bitness <= 8 then 1 else 2)
    ensures var packet := PicturePacket(e, pic);
            var st := Check(Hardware(b), f.h);
            var v := SingleVerdict(reply);
            if st != 0 then v == Refused(st) else SavedOrFailed(b, packet, v)
  {
    hide Check, HwAnswer, SingleVerdict, ErrorReply, Serve.PacketBytes, FrameDims, ImageBytes, SavedOrFailed;
    if Check(Hardware(b), f.h) != 0 {
      SingleRefused(f.h, Check(Hardware(b), f.h));
    } else {
      SingleEndToEnd(b, e, f, reply);
    }
  }

  lemma SingleInOrder(drv: Driver, pic: Pgm.Picture, f: Frame, reply: seq<Byte>, from: nat, to: nat)
    requires Check(Hardware(drv.board), f.h) == 0 ==>
               SavedOrFailed(drv.board, PicturePacket(drv.e, pic), SingleVerdict(reply))
    requires Calm(drv.script, from) ==> FulfilledIn(drv, f, reply, from, to)
    ensures Calm(drv.script, from) && Check(Hardware(drv.board), f.h) == 0 && CanDo(drv, f) ==>
              SingleVerdict(reply).Saved? || WasOverdue(drv, f, from, to)
  {
    hide Check, Serve.Feasible, Serve.Overdue, UnpackHdr, Serve.PacketBytes, SavedOrFailed, Calm;
    NeverLost(drv.board, PicturePacket(drv.e, pic), SingleVerdict(reply));
  }
}
