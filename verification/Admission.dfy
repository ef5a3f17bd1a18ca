// The checks serve_connection makes before it touches payload or hardware, in 32-bit arithmetic,
// and what they guarantee to the code behind them.
module Admission {
  import opened Bytes
  import opened Proto
  import opened Ring

  const MIN_WIDTH: nat := 4
  const MIN_HEIGHT: nat := 1

  /** What the server knows of its hardware. */
  datatype Board = Board(bitness: nat, maxWidth: nat, maxHeight: nat, txSize: nat, rxSize: nat, descSize: nat)

  datatype Target = Loopback | Hardware(board: Board)

  predicate IsStream(h: Hdr) {
    h.kind == STREAM_REQ
  }

  function TrueImageBytes(h: Hdr): nat {
    h.width as nat * h.height as nat * BytesPerPixel(h.bitness)
  }

  /** `expect`: a uint32_t product. */
  function Expect(h: Hdr): U32 {
    Wrap32(TrueImageBytes(h))
  }

  function ImageCount(h: Hdr): nat {
    if IsStream(h) && Expect(h) != 0 then h.payloadLen / Expect(h) else 1
  }

  /** Room for incompressible output, rounded up to a page. */
  function SlotBytes(image: nat): nat {
    (image + image / 4 + 4096 + 4095) / 4096 * 4096
  }

  function Check(t: Target, h: Hdr): Byte {
    if h.version != VERSION then ST_BAD_VERSION
    else if h.kind != ENCODE_REQ && h.kind != STREAM_REQ then ST_BAD_TYPE
    else if IsStream(h) && h.readyPct > 100 then ST_BAD_READY
    else if h.bitness < 8 || h.bitness > 16 then ST_BAD_BITNESS
    else if (if IsStream(h) then Expect(h) == 0 || h.payloadLen == 0 || h.payloadLen % Expect(h) != 0
             else h.payloadLen != Expect(h)) then ST_SIZE_MISMATCH
    else match t
         case Loopback => ST_OK
         case Hardware(b) => CheckBoard(b, h)
  }

  /** payload_len / count, which is never reached with a zero count. */
  function PerImage(h: Hdr): nat {
    if ImageCount(h) == 0 then 0 else h.payloadLen / ImageCount(h)
  }

  function CheckBoard(b: Board, h: Hdr): Byte {
    if h.bitness != b.bitness then ST_BAD_BITNESS
    else if h.width < MIN_WIDTH || h.width > b.maxWidth || h.height < MIN_HEIGHT || h.height > b.maxHeight
    then ST_BAD_DIMS
    else if h.payloadLen > b.txSize || h.payloadLen + h.payloadLen / 4 + 4096 > b.rxSize then ST_TOO_LARGE
    else if IsStream(h) && (ImageCount(h) * SlotBytes(PerImage(h)) > b.rxSize
                            || ImageCount(h) * DESC_BYTES > b.descSize / 2)
    then ST_TOO_LARGE
    else ST_OK
  }

  // --- which requests are admitted ---

  /** The bytes of one image as the 32-bit product has them. */
  function Claimed(h: Hdr): nat {
    h.width as nat * h.height as nat * (if h.bitness <= 8 then 1 else 2) % 0x1_0000_0000
  }

  /** The payload is n images, at least one. */
  predicate Holds(h: Hdr, n: nat) {
    n > 0 && Claimed(h) > 0 && h.payloadLen as nat == n * Claimed(h)
  }

  /** A request that the protocol allows: type 1 with one image, or type 3 with some whole images and a
      percentage. */
  ghost predicate Proper(h: Hdr) {
    && h.version == 1 && 8 <= h.bitness <= 16
    && (|| (h.kind == 1 && h.payloadLen as nat == Claimed(h))
        || (h.kind == 3 && h.readyPct <= 100 && exists n: nat :: Holds(h, n)))
  }

  /** n slots of whole pages, each with a quarter and a page to spare, in the rx buffer, and n
      descriptors in half of theirs. */
  ghost predicate SlotsFit(b: Board, h: Hdr, n: nat, pages: nat) {
    && 4096 * pages >= Claimed(h) + Claimed(h) / 4 + 4096
    && n * (4096 * pages) <= b.rxSize && n * 64 <= b.descSize / 2
  }

  /** The board can take it. */
  ghost predicate Takes(b: Board, h: Hdr) {
    && h.bitness == b.bitness && 4 <= h.width <= b.maxWidth && 1 <= h.height <= b.maxHeight
    && h.payloadLen <= b.txSize && h.payloadLen + h.payloadLen / 4 + 4096 <= b.rxSize
    && (h.kind == 3 ==> exists n: nat, pages: nat :: Holds(h, n) && SlotsFit(b, h, n, pages))
  }

  /** The server admits exactly the proper requests that its board can take. */
  lemma AdmitsExactly(t: Target, h: Hdr)
    ensures Check(t, h) == 0 <==> Proper(h) && (t.Hardware? ==> Takes(t.board, h))
  {
    hide SlotBytes, ImageCount, PerImage, TrueImageBytes, Holds, SlotsFit;
    ClaimedIs(h);
    if h.kind == 3 {
      CountsImages(h);
    }
    if t.Hardware? && Check(Loopback, h) == 0 {
      BoardAdmits(t.board, h);
    }
  }

  lemma ClaimedIs(h: Hdr)
    ensures Claimed(h) == Expect(h)
  {
  }

  /** A nonzero payload divides into images exactly if some number of them makes it up; that number is
      the server's count. */
  lemma CountsImages(h: Hdr)
    requires h.kind == 3
    ensures (Expect(h) != 0 && h.payloadLen != 0 && h.payloadLen % Expect(h) == 0) <==> exists n: nat :: Holds(h, n)
    ensures forall n: nat | Holds(h, n) :: n == ImageCount(h) && PerImage(h) == Expect(h)
  {
    hide Expect;
    ClaimedIs(h);
    if Expect(h) != 0 && h.payloadLen != 0 && h.payloadLen % Expect(h) == 0 {
      Divides(h.payloadLen, Expect(h));
      assert Holds(h, h.payloadLen / Expect(h));
    }
    forall n: nat | Holds(h, n)
      ensures Expect(h) != 0 && h.payloadLen != 0 && h.payloadLen % Expect(h) == 0
      ensures n == ImageCount(h) && PerImage(h) == Expect(h)
    {
      MulMono(1, n, Expect(h));
      QuotientIs(h.payloadLen, Expect(h), n);
      QuotientIs(h.payloadLen, n, Expect(h));
      RemainderNone(n, Expect(h));
    }
  }

  lemma RemainderNone(n: nat, size: nat)
    requires size > 0
    ensures n * size % size == 0
  {
    var q, r := n * size / size, n * size % size;
    assert n * size == q * size + r && (q + 1) * size == q * size + size;
    if q < n {
      MulMono(q + 1, n, size);
    } else {
      MulMono(n, q, size);
    }
  }

  lemma BoardAdmits(b: Board, h: Hdr)
    requires Check(Loopback, h) == 0
    ensures CheckBoard(b, h) == 0 <==> Takes(b, h)
  {
    hide SlotBytes, ImageCount, PerImage, TrueImageBytes, Holds, SlotsFit, Expect;
    if h.kind == 3 {
      CountsImages(h);
      var n: nat :| Holds(h, n);
      SlotsFitIff(b, h, n);
    }
  }

  /** The slot is the least number of pages that will do. */
  lemma SlotsFitIff(b: Board, h: Hdr, n: nat)
    ensures n * SlotBytes(Expect(h)) <= b.rxSize && n * DESC_BYTES <= b.descSize / 2 <==>
              exists pages: nat :: SlotsFit(b, h, n, pages)
  {
    hide Expect;
    ClaimedIs(h);
    var least := SlotBytes(Expect(h)) / 4096;
    assert SlotBytes(Expect(h)) == 4096 * least;
    if n * SlotBytes(Expect(h)) <= b.rxSize && n * DESC_BYTES <= b.descSize / 2 {
      assert SlotsFit(b, h, n, least);
    }
    if pages: nat :| SlotsFit(b, h, n, pages) {
      MulMono(least, pages, 4096);
      MulMono(4096 * least, 4096 * pages, n);
    }
  }

  /** Every refusal names a fault that the request has: its version, its type, its percentage, its
      bitness, its length, its dimensions, or its size. */
  lemma RefusalNames(t: Target, h: Hdr)
    ensures var st := Check(t, h);
            && (st == 2 <==> h.version != 1)
            && (st == 3 ==> h.kind != 1 && h.kind != 3)
            && (st == 10 ==> h.kind == 3 && h.readyPct > 100)
            && (st == 5 ==> h.bitness < 8 || h.bitness > 16 || (t.Hardware? && h.bitness != t.board.bitness))
            && (st == 6 ==> if h.kind == 3 then !exists n: nat :: Holds(h, n) else h.payloadLen as nat != Claimed(h))
            && (st == 4 ==> t.Hardware? && !(4 <= h.width <= t.board.maxWidth && 1 <= h.height <= t.board.maxHeight))
            && (st == 7 ==> t.Hardware? && (h.payloadLen > t.board.txSize
                                            || h.payloadLen + h.payloadLen / 4 + 4096 > t.board.rxSize
                                            || (h.kind == 3 && !exists n: nat, pages: nat ::
                                                  Holds(h, n) && SlotsFit(t.board, h, n, pages))))
            && st in {0, 2, 3, 4, 5, 6, 7, 10}
  {
    hide SlotBytes, ImageCount, PerImage, TrueImageBytes, Holds, SlotsFit, Expect;
    ClaimedIs(h);
    if h.kind == 3 {
      CountsImages(h);
    }
    if t.Hardware? && Check(Loopback, h) == 0 {
      BoardAdmits(t.board, h);
    }
  }

  lemma QuotientPositive(a: nat, b: nat)
    requires 0 < b <= a
    ensures a / b > 0
  {
    assert a == a / b * b + a % b;
  }

  // --- the 32-bit product ---

  function Pow2(k: nat): (n: nat)
    ensures n > 0
  {
    if k == 0 then 1 else 2 * Pow2(k - 1)
  }

  /** A factor of a power of two is one itself. */
  lemma {:induction false} FactorOfPow2(a: nat, b: nat, k: nat) returns (i: nat)
    requires a * b == Pow2(k)
    ensures i <= k && a == Pow2(i)
    decreases k
  {
    if k == 0 {
      OneTimesOne(a, b);
      i := 0;
    } else if a % 2 == 0 {
      Halve(a, b);
      i := FactorOfPow2(a / 2, b, k - 1);
      i := i + 1;
    } else {
      OddTimes(a, b);
      Halve(b, a);
      i := FactorOfPow2(a, b / 2, k - 1);
    }
  }

  lemma OneTimesOne(a: nat, b: nat)
    requires a * b == 1
    ensures a == 1
  {
    if a > 1 {
      MulMono(2, a, b);
    }
  }

  lemma Halve(a: nat, b: nat)
    requires a % 2 == 0
    ensures a * b == 2 * (a / 2 * b) && b * a == 2 * (b * (a / 2))
  {
    assert a == 2 * (a / 2);
  }

  lemma OddTimes(a: nat, b: nat)
    requires a % 2 == 1
    ensures a * b % 2 == b % 2
  {
    var h := a / 2;
    assert a * b == 2 * (h * b) + b;
  }

  lemma {:induction false} Pow2Monotone(i: nat, k: nat)
    requires i <= k
    ensures Pow2(i) <= Pow2(k)
    decreases k
  {
    if i < k {
      Pow2Monotone(i, k - 1);
    }
  }

  lemma {:induction false} Pow2Sum(i: nat, k: nat)
    ensures Pow2(i + k) == Pow2(i) * Pow2(k)
  {
    hide Pow2;
    Pow2Step(i);
    if i == 0 {
      assert 0 + k == k;
    } else {
      Pow2Sum(i - 1, k);
      Pow2Step(i + k);
      DoubleFirst(Pow2(i - 1), Pow2(k));
    }
  }

  lemma Pow2Step(i: nat)
    ensures Pow2(i) == if i == 0 then 1 else 2 * Pow2(i - 1)
  {
  }

  lemma DoubleFirst(a: nat, b: nat)
    ensures 2 * (a * b) == (2 * a) * b
  {
  }

  lemma PowerTable()
    ensures Pow2(15) == 0x8000 && Pow2(16) == 0x1_0000 && Pow2(31) == 0x8000_0000
  {
    assert Pow2(7) == 128 && Pow2(8) == 256;
    Pow2Sum(8, 7);
    Pow2Sum(8, 8);
    Pow2Sum(16, 15);
  }

  lemma SmallPower(w: U16, i: nat)
    requires w == Pow2(i)
    ensures w <= 0x8000
  {
    hide Pow2;
    PowerTable();
    if i <= 15 {
      Pow2Monotone(i, 15);
    } else {
      Pow2Monotone(16, i);
    }
  }

  /** No two 16-bit numbers multiply to 2^31: each would have to be a power of two. */
  lemma NoProduct31(w: U16, h: U16)
    ensures w as nat * h as nat != 0x8000_0000
  {
    hide Pow2;
    PowerTable();
    if w as nat * h as nat == Pow2(31) {
      var i := FactorOfPow2(w, h, 31);
      var k := FactorOfPow2(h, w, 31);
      SmallPower(w, i);
      SmallPower(h, k);
      MulMono(w, 0x8000, h);
    }
  }

  lemma PixelBound(w: U16, h: U16)
    ensures 0 <= w as nat * h as nat <= 65535 * 65535
    ensures w as nat * h as nat == 0 <==> w == 0 || h == 0
  {
    MulMono(w, 65535, h);
    MulMono(h, 65535, 65535);
    if w > 0 && h > 0 {
      MulMono(1, w, h);
    }
  }

  /** The wrapped product vanishes only where the true one does, so no admitted stream divides by
      zero; and it is the true product exactly when that fits 32 bits, which at bitness 8 is always. */
  lemma ExpectIs(h: Hdr)
    ensures Expect(h) == 0 <==> h.width == 0 || h.height == 0
    ensures Expect(h) == TrueImageBytes(h) <==> TrueImageBytes(h) < TWO_32
    ensures TrueImageBytes(h) < TWO_32 <==> h.bitness <= 8 || h.width as nat * h.height as nat < 0x8000_0000
    ensures TrueImageBytes(h) >= TWO_32 ==> Expect(h) == TrueImageBytes(h) - TWO_32
  {
    hide TrueImageBytes, Wrap32;
    PixelBound(h.width, h.height);
    NoProduct31(h.width, h.height);
    var px := h.width as nat * h.height as nat;
    PixelsByDepth(h, px);
    WrapsOnce(TrueImageBytes(h), px, h.bitness > 8);
  }

  lemma PixelsByDepth(h: Hdr, px: nat)
    requires px == h.width as nat * h.height as nat
    ensures TrueImageBytes(h) == if h.bitness > 8 then 2 * px else px
  {
  }

  lemma WrapsOnce(bytes: nat, px: nat, deep: bool)
    requires bytes == (if deep then 2 * px else px) && px <= 65535 * 65535 && px != 0x8000_0000
    ensures Wrap32(bytes) == 0 <==> px == 0
    ensures bytes < TWO_32 <==> !deep || px < 0x8000_0000
    ensures Wrap32(bytes) == if bytes < TWO_32 then bytes else bytes - TWO_32
  {
  }

  // --- slots ---

  /** A slot is a page multiple with at least a quarter and a page of headroom; it stays below the
      26-bit descriptor length exactly up to images of 53680538 bytes. */
  lemma SlotIs(image: nat)
    ensures SlotBytes(image) % 4096 == 0
    ensures image + image / 4 + 4096 <= SlotBytes(image) < image + image / 4 + 4096 + 4096
    ensures SlotBytes(image) < LEN_SPAN <==> image <= 53680538
  {
  }

  /** Slots for all images together leave at least the room that the whole-payload check asks for. */
  lemma StreamCheckSubsumes(count: nat, image: nat)
    requires count >= 1
    ensures count * SlotBytes(image) >= count * image + (count * image) / 4 + 4096
  {
    hide SlotBytes;
    SlotIs(image);
    RoomForAll(count, image, image / 4, image % 4, SlotBytes(image));
  }

  lemma RoomForAll(count: nat, image: nat, q: nat, r: nat, slot: nat)
    requires count >= 1 && image == 4 * q + r && r <= 3 && slot >= image + q + 4096
    ensures count * slot >= count * image + (count * image) / 4 + 4096
  {
    AtLeast(count, image, q, slot);
    InQuarters(count, image, q, r);
    MulMono(r, 3, count);
    QuarterFits(count, count * image, count * q, count * r, r);
  }

  lemma AtLeast(count: nat, image: nat, q: nat, slot: nat)
    requires slot >= image + q + 4096
    ensures count * slot >= count * image + count * q + 4096 * count
  {
    MulMono(image + q + 4096, slot, count);
    Distribute(count, image, q, 4096);
  }

  lemma InQuarters(count: nat, image: nat, q: nat, r: nat)
    requires image == 4 * q + r
    ensures count * image == 4 * (count * q) + count * r
  {
    Distribute(count, 4 * q, r, 0);
    Distribute(count, q, 0, 0);
  }

  lemma QuarterFits(count: nat, ci: nat, cq: nat, cr: nat, r: nat)
    requires count >= 1 && ci == 4 * cq + cr && cr <= 3 * count && r <= 3 && (count == 1 ==> cr == r)
    ensures ci + cq + 4096 * count >= ci + ci / 4 + 4096
  {
    assert ci / 4 == cq + cr / 4;
  }

  lemma Distribute(c: nat, x: nat, y: nat, z: nat)
    ensures c * (x + y + z) == c * x + c * y + c * z
    ensures c * (4 * x) == 4 * (c * x)
  {
  }

  // --- what admission hands to the code behind it ---

  lemma Divides(a: nat, b: nat)
    requires b > 0 && a > 0 && a % b == 0
    ensures a / b > 0 && a / b * b == a && a / (a / b) == b
  {
    var q := a / b;
    assert a == q * b;
    QuotientPositive(a, b);
    assert a == b * q + 0;
    QuotientIs(a, q, b);
  }

  lemma QuotientIs(a: nat, q: nat, b: nat)
    requires q > 0 && a == b * q
    ensures a / q == b
  {
    var r := a / q;
    assert a == r * q + a % q;
    assert (r + 1) * q == r * q + q && (b + 1) * q == b * q + q;
    if r < b {
      MulMono(r + 1, b, q);
    } else if r > b {
      MulMono(b + 1, r, q);
    }
  }

  lemma StreamChecks(b: Board, h: Hdr)
    requires Check(Hardware(b), h) == ST_OK && IsStream(h)
    ensures Expect(h) != 0 && h.payloadLen != 0 && h.payloadLen % Expect(h) == 0 && h.readyPct <= 100
    ensures ImageCount(h) == h.payloadLen / Expect(h)
    ensures ImageCount(h) * SlotBytes(PerImage(h)) <= b.rxSize && ImageCount(h) * DESC_BYTES <= b.descSize / 2
    ensures h.payloadLen <= b.txSize
  {
    hide SlotBytes, PerImage;
  }

  /** An admitted stream is a whole, nonzero number of `expect`-sized images, in slots that fit. */
  lemma AdmittedStream(b: Board, h: Hdr)
    requires Check(Hardware(b), h) == ST_OK && IsStream(h)
    ensures var n := ImageCount(h);
            && n > 0 && Expect(h) > 0 && n * Expect(h) == h.payloadLen && h.payloadLen / n == Expect(h)
            && n * SlotBytes(Expect(h)) <= b.rxSize
            && n * DESC_BYTES <= b.descSize / 2
            && h.payloadLen <= b.txSize && h.readyPct <= 100
  {
    hide Check, Expect, ImageCount, SlotBytes;
    StreamChecks(b, h);
    Divides(h.payloadLen, Expect(h));
  }

  lemma AdmittedSingle(b: Board, h: Hdr)
    requires Check(Hardware(b), h) == ST_OK && !IsStream(h)
    ensures 0 < h.payloadLen == Expect(h) <= b.txSize && h.payloadLen + h.payloadLen / 4 + 4096 <= b.rxSize
  {
    hide Check, Expect;
    ExpectIs(h);
    SingleChecks(b, h);
  }

  lemma SingleChecks(b: Board, h: Hdr)
    requires Check(Hardware(b), h) == ST_OK && !IsStream(h)
    ensures h.payloadLen == Expect(h) <= b.txSize && h.payloadLen + h.payloadLen / 4 + 4096 <= b.rxSize
    ensures h.width > 0 && h.height > 0
  {
    hide Expect;
  }

  /** The bytes that a descriptor of one slot takes: its length has 26 bits. */
  function SlotRoom(slot: nat): nat {
    slot % LEN_SPAN
  }

  /** The chunk of a stream's receive ring: stream_and_reply casts the slot to uint32_t. */
  function StreamChunk(h: Hdr): U32 {
    Wrap32(SlotBytes(Expect(h)))
  }

  /** A slot that leaves 32 bits belongs to a stream of one image, and the cast leaves less than it. */
  lemma WideSlot(b: Board, h: Hdr)
    requires Check(Hardware(b), h) == ST_OK && IsStream(h)
    ensures var slot := SlotBytes(Expect(h));
            if slot < TWO_32 then StreamChunk(h) == slot
            else ImageCount(h) == 1 && StreamChunk(h) == slot - TWO_32 < slot
  {
    hide Check, Expect, ImageCount, SlotBytes;
    AdmittedStream(b, h);
    SlotIs(Expect(h));
    if SlotBytes(Expect(h)) >= TWO_32 && ImageCount(h) >= 2 {
      MulMono(2, ImageCount(h), Expect(h));
    }
  }

  /** Both rings fit: the receive ring of a single image in its half, and any transmit ring, because
      the payload is never longer than the rx buffer. A stream gets one descriptor an image exactly if
      its slot stays below 32 bits; one of 2^32 bytes gets none. */
  lemma RingsFit(b: Board, h: Hdr, half: nat)
    requires Check(Hardware(b), h) == ST_OK
    requires half == b.descSize / 2 && Chunks(b.rxSize, DESC_CHUNK) * DESC_BYTES <= half
    ensures h.payloadLen > 0
    ensures Chunks(h.payloadLen, DESC_CHUNK) * DESC_BYTES <= half <= b.descSize - half
    ensures IsStream(h) ==>
              var n := ImageCount(h); var slot := SlotBytes(Expect(h));
              && slot > 0 && n * DESC_BYTES <= half
              && (Chunks(n * slot, StreamChunk(h)) == n <==> slot < TWO_32)
              && (Chunks(n * slot, StreamChunk(h)) == 0 <==> slot == TWO_32)
  {
    hide Check, Expect, ImageCount, SlotBytes, Chunks;
    PayloadFits(b, h);
    ChunksMono(h.payloadLen, b.rxSize);
    if IsStream(h) {
      AdmittedStream(b, h);
      SlotIs(Expect(h));
      WideSlot(b, h);
      if SlotBytes(Expect(h)) < TWO_32 {
        WholeChunks(ImageCount(h), SlotBytes(Expect(h)));
      } else {
        WideChunks(SlotBytes(Expect(h)));
      }
    }
  }

  /** A slot beyond 32 bits is cut into more than one descriptor, or none. */
  lemma WideChunks(slot: nat)
    requires TWO_32 <= slot < 2 * TWO_32
    ensures var chunk := slot - TWO_32;
            if chunk == 0 then Chunks(slot, chunk) == 0 else Chunks(slot, chunk) > 1
  {
    hide Chunks;
    var chunk := slot - TWO_32;
    if chunk > 0 {
      ChunkBounds(slot, chunk);
    } else {
      NoChunks(slot);
    }
  }

  lemma PayloadFits(b: Board, h: Hdr)
    requires Check(Hardware(b), h) == ST_OK
    ensures 0 < h.payloadLen <= b.rxSize
  {
    hide Expect, SlotBytes, PerImage, ImageCount;
    if !IsStream(h) {
      AdmittedSingle(b, h);
    }
  }

  lemma ChunksMono(a: nat, b: nat)
    requires a <= b
    ensures Chunks(a, DESC_CHUNK) <= Chunks(b, DESC_CHUNK)
  {
  }

  lemma WholeChunks(n: nat, slot: nat)
    requires n > 0 && slot > 0
    ensures n * slot > 0 && Chunks(n * slot, slot) == n
  {
    hide Chunks;
    MulMono(1, n, slot);
    ChunkBounds(n * slot, slot);
    var k := Chunks(n * slot, slot);
    assert (n - 1) * slot == n * slot - slot;
    if k < n {
      MulMono(k, n - 1, slot);
    } else if k > n {
      MulMono(n, k - 1, slot);
    }
  }

  /** Slots are disjoint and inside the rx buffer. */
  lemma SlotsDisjoint(b: Board, h: Hdr, i: nat, k: nat)
    requires Check(Hardware(b), h) == ST_OK && IsStream(h) && i < k < ImageCount(h)
    ensures var slot := SlotBytes(Expect(h));
            i * slot + slot <= k * slot && k * slot + slot <= b.rxSize && (i * slot) % 4096 == 0
  {
    hide Check, Expect, ImageCount, SlotBytes;
    AdmittedStream(b, h);
    var slot := SlotBytes(Expect(h));
    SlotIs(Expect(h));
    MulMono(i + 1, k, slot);
    MulMono(k + 1, ImageCount(h), slot);
    assert (i + 1) * slot == i * slot + slot && (k + 1) * slot == k * slot + slot;
    Pages(i, slot);
  }

  lemma Pages(i: nat, slot: nat)
    requires slot % 4096 == 0
    ensures (i * slot) % 4096 == 0
  {
    assert i * slot == i * (slot / 4096) * 4096;
  }

  /** A length and a full descriptor for each image still add up to less than 2^32 bytes. */
  predicate FitsReply(h: Hdr) {
    ImageCount(h) * (SlotRoom(SlotBytes(Expect(h))) + 4) < TWO_32
  }

  /** With an rx buffer of up to 4094 MiB that holds for every admitted stream: no slot is shorter than
      two pages, so the table of lengths is at most a 2048th of the slots. */
  lemma ReplyFits(b: Board, h: Hdr)
    requires Check(Hardware(b), h) == ST_OK && IsStream(h) && b.rxSize <= 0xFFE0_0000
    ensures FitsReply(h)
  {
    hide Check, Expect, ImageCount, SlotBytes;
    AdmittedStream(b, h);
    SlotIs(Expect(h));
    TwoPages(SlotBytes(Expect(h)));
    UnderTheField(ImageCount(h), SlotBytes(Expect(h)), SlotRoom(SlotBytes(Expect(h))));
  }

  lemma UnderTheField(n: nat, slot: nat, room: nat)
    requires 8192 <= slot && room <= slot && n * slot <= 0xFFE0_0000
    ensures n * (room + 4) < TWO_32
  {
    MulMono(8192, slot, n);
    MulMono(room, slot, n);
    assert n * (room + 4) == n * room + 4 * n;
  }

  lemma TwoPages(slot: nat)
    requires slot % 4096 == 0 && slot > 4096
    ensures slot >= 8192
  {
  }

  /** A board of 4095 MiB of rx buffer admits a stream that breaks it: 524033 images of four pixels. */
  lemma ReplyOverflow()
    ensures Check(Hardware(Board(8, 65535, 65535, 0x800_0000, 0xFFF0_0000, 0x800_0000)), TINY_STREAM) == ST_OK
    ensures IsStream(TINY_STREAM) && !FitsReply(TINY_STREAM) && Expect(TINY_STREAM) == TrueImageBytes(TINY_STREAM)
  {
    assert TrueImageBytes(TINY_STREAM) == 4;
    assert ImageCount(TINY_STREAM) == 524033 && PerImage(TINY_STREAM) == 4;
    assert SlotBytes(4) == 8192;
    hide SlotBytes, PerImage, TrueImageBytes, ImageCount;
  }

  const TINY_STREAM := Hdr(MAGIC, VERSION, STREAM_REQ, 0, 4, 1, 8, 0, 2_096_132)

  // --- the Pynq-Z2 board ---

  /** The buffers of openjls.dtso: 128 MiB of pixels, 128 MiB of bitstream, 256 KiB of descriptors. */
  function Pynq(bitness: nat, maxWidth: nat, maxHeight: nat): Board {
    Board(bitness, maxWidth, maxHeight, 0x800_0000, 0x800_0000, 0x4_0000)
  }

  /** On that board an 8000 by 8000 image is admitted as a stream although its slot does not fit the
      26-bit length: its descriptor keeps room for less than a quarter of the image. */
  lemma PynqAdmitsPastSpan()
    ensures var h := Hdr(MAGIC, VERSION, STREAM_REQ, 0, 8000, 8000, 8, 0, 64_000_000);
            && Check(Hardware(Pynq(8, 8000, 8000)), h) == ST_OK
            && SlotBytes(Expect(h)) > LEN_SPAN && SlotBytes(Expect(h)) % LEN_SPAN < Expect(h) / 4
  {
    var h := Hdr(MAGIC, VERSION, STREAM_REQ, 0, 8000, 8000, 8, 0, 64_000_000);
    assert TrueImageBytes(h) == 64_000_000;
    assert ImageCount(h) == 1 && PerImage(h) == 64_000_000;
    assert SlotBytes(64_000_000) == 80_007_168;
  }
}
