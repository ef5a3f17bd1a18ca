// Scatter/gather descriptors of axidma.h and the ring that axidma_ring_build lays out.
module Ring {
  import opened Bytes

  const DESC_BYTES: nat := 64
  const LEN_SPAN: nat := 0x400_0000       // one more than the 26-bit length mask
  const BIT_EOF: nat := 0x400_0000
  const BIT_SOF: nat := 0x800_0000
  const BIT_ERR0: nat := 0x1000_0000      // lowest of the three error bits
  const BIT_CMPLT: nat := 0x8000_0000
  const DESC_CHUNK: nat := 0x200_0000     // 32 MiB

  /** The words the engine and the driver use; the others are written as zero and never read. */
  datatype Desc = Desc(nxt: U32, nxtMsb: U32, buf: U32, bufMsb: U32, control: U32, status: U32)

  function CountOf(st: U32): (n: nat)
    ensures n < LEN_SPAN
  {
    st % LEN_SPAN
  }

  predicate IsEof(st: U32) { st / BIT_EOF % 2 == 1 }
  predicate IsErr(st: U32) { st / BIT_ERR0 % 8 != 0 }
  predicate IsCmplt(st: U32) { st / BIT_CMPLT % 2 == 1 }

  function Addr64(lo: U32, hi: U32): nat { hi * TWO_32 + lo }
  function NextOf(d: Desc): nat { Addr64(d.nxt, d.nxtMsb) }
  function BufOf(d: Desc): nat { Addr64(d.buf, d.bufMsb) }
  function LenOf(d: Desc): nat { d.control % LEN_SPAN }
  predicate HasEof(d: Desc) { d.control / BIT_EOF % 2 == 1 }
  predicate HasSof(d: Desc) { d.control / BIT_SOF % 2 == 1 }
  function Lo(x: nat): U32 { x % TWO_32 }
  function Hi(x: nat): U32 { x / TWO_32 % TWO_32 }

  /** What the engine writes back when it finishes a descriptor. */
  function DoneStatus(n: nat, eof: bool): (st: U32)
    requires n < LEN_SPAN
    ensures CountOf(st) == n && IsCmplt(st) && !IsErr(st) && (IsEof(st) <==> eof)
  {
    n + (if eof then BIT_EOF else 0) + BIT_CMPLT
  }

  /** What the engine writes back when a transfer faults: one or more error bits, no TLAST. */
  function FaultStatus(code: nat): (st: U32)
    requires 0 < code < 8
    ensures IsErr(st) && !IsEof(st)
  {
    code * BIT_ERR0
  }

  /** The status word bit by bit: a count of 26 bits, RXEOF in bit 26, three error bits from 28, Cmplt in
      bit 31. */
  lemma StatusBits(st: U32)
    ensures CountOf(st) == st % 0x400_0000 && LEN_SPAN == 0x400_0000
    ensures IsEof(st) <==> st / 0x400_0000 % 2 == 1
    ensures IsErr(st) <==> st / 0x1000_0000 % 8 != 0
    ensures IsCmplt(st) <==> st >= 0x8000_0000
  {
  }

  /** A ring: `count` descriptors from index `first` of the descriptor buffer, mapping
      [buf, buf + len) in pieces of `chunk`. */
  datatype Plan = Plan(phys: nat, first: nat, count: nat, buf: nat, len: nat, chunk: nat, frame: bool) {
    ghost predicate Valid() {
      && 0 < chunk && 0 < len && 0 < count
      && (count - 1) * chunk < len <= count * chunk
      && phys + DESC_BYTES * count <= TWO_32 * TWO_32
      && buf + len <= TWO_32 * TWO_32
    }
  }

  /** Descriptors for `len` bytes. C leaves a division by a zero chunk undefined; AArch64's gives zero. */
  function Chunks(len: nat, chunk: nat): nat {
    if chunk == 0 then 0 else (len + chunk - 1) / chunk
  }

  /** Bytes of piece i before the length mask. */
  function Piece(p: Plan, i: nat): nat {
    var left := p.len - i * p.chunk;
    if left > p.chunk then p.chunk else if left < 0 then 0 else left
  }

  function Cap(p: Plan, i: nat): (n: nat)
    ensures n < LEN_SPAN
  {
    Piece(p, i) % LEN_SPAN
  }

  function Caps(p: Plan): seq<nat> {
    seq(p.count, i requires 0 <= i < p.count => Cap(p, i))
  }

  function RingDesc(p: Plan, i: nat): Desc
    requires i < p.count
  {
    var next := if i == p.count - 1 then p.phys else p.phys + (i + 1) * DESC_BYTES;
    var addr := p.buf + i * p.chunk;
    var framing := if !p.frame then 0
                   else (if i == 0 then BIT_SOF else 0) + (if i == p.count - 1 then BIT_EOF else 0);
    Desc(Lo(next), Hi(next), Lo(addr), Hi(addr), Cap(p, i) + framing, 0)
  }

  /** Checks the region, then fills the ring in place. Refusals touch nothing; neither does a zero chunk,
      which passes the checks and yields a ring without descriptors. */
  method RingBuild(desc: array<Desc>, dbPhys: nat, descOff: nat, descCap: nat,
                   bufPhys: nat, len: nat, chunk: U32, frame: bool) returns (rc: int, p: Plan)
    requires descOff + descCap <= DESC_BYTES * desc.Length
    requires dbPhys + descOff + descCap <= TWO_32 * TWO_32 && bufPhys + len <= TWO_32 * TWO_32
    modifies desc
    ensures rc == 0 <==> len > 0 && descOff % DESC_BYTES == 0 && dbPhys % DESC_BYTES == 0
                         && Chunks(len, chunk) * DESC_BYTES <= descCap
    ensures rc != 0 ==> rc == -1 && desc[..] == old(desc[..])
    ensures rc == 0 ==> p.phys % 64 == 0
    ensures rc == 0 ==>
              && p == Plan(dbPhys + descOff, descOff / DESC_BYTES, Chunks(len, chunk), bufPhys, len, chunk, frame)
              && (p.Valid() <==> chunk > 0) && p.first + p.count <= desc.Length && DESC_BYTES * p.count <= descCap
              && (forall i | 0 <= i < p.count :: desc[p.first + i] == RingDesc(p, i))
              && (forall k | 0 <= k < desc.Length && !(p.first <= k < p.first + p.count) :: desc[k] == old(desc[k]))
  {
    hide RingDesc, Chunks;
    p := Plan(dbPhys + descOff, descOff / DESC_BYTES, 0, bufPhys, len, chunk, frame);
    if len == 0 {
      return -1, p;
    }
    if descOff % DESC_BYTES != 0 || (dbPhys + descOff) % DESC_BYTES != 0 {
      return -1, p;
    }
    var nchunks := Chunks(len, chunk);
    if chunk > 0 {
      ChunkBounds(len, chunk);
    } else {
      NoChunks(len);
    }
    if nchunks * DESC_BYTES > descCap {
      return -1, p;
    }
    p := p.(count := nchunks);
    if nchunks > 0 {
      FillRing(desc, p);
    }
    return 0, p;
  }

  /** The loop of axidma_ring_build, carrying the address and the bytes that remain. */
  method FillRing(desc: array<Desc>, p: Plan)
    requires p.Valid() && p.first + p.count <= desc.Length
    modifies desc
    ensures forall i | 0 <= i < p.count :: desc[p.first + i] == RingDesc(p, i)
    ensures forall k | 0 <= k < desc.Length && !(p.first <= k < p.first + p.count) :: desc[k] == old(desc[k])
  {
    hide Lo, Hi, RingDesc, Piece, Plan.Valid;
    var remaining, addr := p.len, p.buf;
    for i := 0 to p.count
      invariant 0 <= remaining && (i < p.count ==> addr == p.buf + i * p.chunk && remaining == p.len - i * p.chunk)
      invariant forall j | 0 <= j < i :: desc[p.first + j] == RingDesc(p, j)
      invariant forall k | 0 <= k < desc.Length && !(p.first <= k < p.first + i) :: desc[k] == old(desc[k])
    {
      PieceIs(p, i);
      var thisLen := if remaining > p.chunk then p.chunk else remaining;
      var next := if i == p.count - 1 then p.phys else p.phys + (i + 1) * DESC_BYTES;
      var ctrl := thisLen % LEN_SPAN;
      var dsc := Desc(Lo(next), Hi(next), Lo(addr), Hi(addr), 0, 0);
      if p.frame {
        if i == 0 {
          ctrl := ctrl + BIT_SOF;
        }
        if i == p.count - 1 {
          ctrl := ctrl + BIT_EOF;
        }
      }
      DescIs(p, i, thisLen, dsc.(control := ctrl));
      desc[p.first + i] := dsc.(control := ctrl);
      addr := addr + thisLen;
      remaining := remaining - thisLen;
    }
  }

  lemma PieceIs(p: Plan, i: nat)
    requires p.Valid() && i < p.count
    ensures p.chunk > 0 && (i + 1) * p.chunk == i * p.chunk + p.chunk
    ensures Piece(p, i) == if p.len - i * p.chunk > p.chunk then p.chunk else p.len - i * p.chunk
    ensures 0 < Piece(p, i) <= p.len - i * p.chunk
    ensures i < p.count - 1 ==> Piece(p, i) == p.chunk && p.len - (i + 1) * p.chunk == p.len - i * p.chunk - p.chunk
  {
    LastPiece(p, i);
  }

  lemma DescIs(p: Plan, i: nat, thisLen: nat, d: Desc)
    requires p.Valid() && i < p.count && thisLen == Piece(p, i)
    requires var next := if i == p.count - 1 then p.phys else p.phys + (i + 1) * DESC_BYTES;
             var addr := p.buf + i * p.chunk;
             d == Desc(Lo(next), Hi(next), Lo(addr), Hi(addr), d.control, 0)
    requires d.control == thisLen % LEN_SPAN
                          + (if p.frame && i == 0 then BIT_SOF else 0)
                          + (if p.frame && i == p.count - 1 then BIT_EOF else 0)
    ensures d == RingDesc(p, i)
  {
    hide Lo, Hi, Piece;
  }

  lemma NoChunks(len: nat)
    ensures Chunks(len, 0) == 0
  {
  }

  lemma ChunkBounds(len: nat, chunk: nat)
    requires len > 0 && chunk > 0
    ensures var n := Chunks(len, chunk); n > 0 && (n - 1) * chunk < len <= n * chunk
  {
    var n := Chunks(len, chunk);
    assert n * chunk <= len + chunk - 1 < n * chunk + chunk;
    assert (n - 1) * chunk == n * chunk - chunk;
  }

  /** Every piece but the last is a whole chunk; the last is what remains, at most a chunk. */
  lemma LastPiece(p: Plan, i: nat)
    requires p.Valid() && i < p.count
    ensures 0 < Piece(p, i) == (if i < p.count - 1 then p.chunk else p.len - i * p.chunk) <= p.chunk
    ensures (i + 1) * p.chunk == i * p.chunk + p.chunk
    ensures i * p.chunk + Piece(p, i) <= p.len
  {
    assert (i + 1) * p.chunk == i * p.chunk + p.chunk;
    if i < p.count - 1 {
      MulMono(i + 1, p.count - 1, p.chunk);
    }
  }

  lemma MulMono(a: int, b: int, c: nat)
    requires a <= b
    ensures a * c <= b * c
  {
    assert (b - a) * c >= 0;
    assert b * c == a * c + (b - a) * c;
  }

  lemma SplitWord(x: nat)
    requires x < TWO_32 * TWO_32
    ensures Addr64(Lo(x), Hi(x)) == x
  {
  }

  lemma ControlReads(cap: nat, control: nat)
    requires cap < LEN_SPAN
    requires control in {cap, cap + BIT_EOF, cap + BIT_SOF, cap + BIT_SOF + BIT_EOF}
    ensures control % LEN_SPAN == cap
  {
  }

  lemma CapWhole(p: Plan, i: nat)
    requires p.Valid() && i < p.count && (p.chunk < LEN_SPAN || p.len < LEN_SPAN)
    ensures Cap(p, i) == Piece(p, i)
  {
    hide Piece;
    LastPiece(p, i);
    assert 0 <= i * p.chunk;
  }

  function NextAddr(p: Plan, i: nat): nat {
    if i == p.count - 1 then p.phys else p.phys + (i + 1) * DESC_BYTES
  }

  lemma DescFields(p: Plan, i: nat)
    requires i < p.count
    ensures var d := RingDesc(p, i); var addr := p.buf + i * p.chunk;
            && d.nxt == Lo(NextAddr(p, i)) && d.nxtMsb == Hi(NextAddr(p, i))
            && d.buf == Lo(addr) && d.bufMsb == Hi(addr)
            && d.control % LEN_SPAN == Cap(p, i)
  {
    hide Lo, Hi, Cap;
    ControlReads(Cap(p, i), RingDesc(p, i).control);
  }

  /** The engine decodes back what the driver encoded: 64-bit pointers and a 26-bit length. */
  lemma DescReads(p: Plan, i: nat)
    requires p.Valid() && i < p.count
    ensures NextOf(RingDesc(p, i)) == NextAddr(p, i)
    ensures BufOf(RingDesc(p, i)) == p.buf + i * p.chunk
    ensures LenOf(RingDesc(p, i)) == Cap(p, i)
  {
    hide Lo, Hi, Addr64, Piece, RingDesc, Cap;
    DescFields(p, i);
    LastPiece(p, i);
    SplitWord(NextAddr(p, i));
    SplitWord(p.buf + i * p.chunk);
  }

  function TotalLen(p: Plan, n: nat): nat {
    if n == 0 then 0 else TotalLen(p, n - 1) + Cap(p, n - 1)
  }

  lemma CapMasks(p: Plan, i: nat)
    requires p.Valid() && i < p.count
    ensures Cap(p, i) <= Piece(p, i)
    ensures p.chunk < LEN_SPAN || p.len < LEN_SPAN ==> Cap(p, i) == Piece(p, i)
    ensures i == 0 && p.chunk >= LEN_SPAN && p.len >= LEN_SPAN ==> Cap(p, i) < Piece(p, i)
  {
    hide Piece;
    LastPiece(p, i);
    if p.chunk < LEN_SPAN || p.len < LEN_SPAN {
      CapWhole(p, i);
    }
  }

  function Covered(p: Plan, n: nat): int {
    if n == p.count then p.len else n * p.chunk
  }

  lemma CoveredStep(p: Plan, n: nat)
    requires p.Valid() && n < p.count
    ensures Covered(p, n + 1) == Covered(p, n) + Piece(p, n)
    ensures Covered(p, 0) == 0
  {
    hide Piece;
    LastPiece(p, n);
  }

  /** The first n descriptors cover their pieces, unless a piece of 2^26 bytes or more was masked. */
  lemma {:induction false} TotalLenAt(p: Plan, n: nat)
    requires p.Valid() && n <= p.count
    ensures TotalLen(p, n) <= Covered(p, n)
    ensures p.chunk < LEN_SPAN || p.len < LEN_SPAN ==> TotalLen(p, n) == Covered(p, n)
    ensures n > 0 && p.chunk >= LEN_SPAN && p.len >= LEN_SPAN ==> TotalLen(p, n) < Covered(p, n)
  {
    hide Piece, Cap, Covered, Plan.Valid;
    if n == 0 {
      CoveredAtZero(p);
    } else {
      TotalLenAt(p, n - 1);
      CapMasks(p, n - 1);
      CoveredStep(p, n - 1);
    }
  }

  lemma CoveredAtZero(p: Plan)
    requires p.Valid()
    ensures Covered(p, 0) == 0
  {
  }

  /** A framed ring is one frame: SOF on its first descriptor, EOF on its last, nowhere else. */
  lemma FrameMarks(p: Plan, i: nat)
    requires p.Valid() && i < p.count
    ensures HasSof(RingDesc(p, i)) <==> p.frame && i == 0
    ensures HasEof(RingDesc(p, i)) <==> p.frame && i == p.count - 1
  {
    hide Lo, Hi, Cap;
    MarksRead(Cap(p, i), p.frame && i == 0, p.frame && i == p.count - 1);
  }

  /** Bit 27 of the control word is set on the first descriptor of the ring alone, bit 26 on the last. */
  predicate FrameMark(p: Plan, descs: seq<Desc>, i: nat)
    requires i < p.count && p.first + p.count <= |descs|
  {
    var control := descs[p.first + i].control;
    (control / 0x800_0000 % 2 == 1 <==> i == 0) && (control / 0x400_0000 % 2 == 1 <==> i == p.count - 1)
  }

  /** Neither bit is set. */
  predicate NoMark(p: Plan, descs: seq<Desc>, i: nat)
    requires i < p.count && p.first + p.count <= |descs|
  {
    var control := descs[p.first + i].control;
    control / 0x800_0000 % 2 == 0 && control / 0x400_0000 % 2 == 0
  }

  /** The descriptors of the ring are one frame, from the first to the last. */
  ghost predicate OneFrame(p: Plan, descs: seq<Desc>) {
    p.first + p.count <= |descs| && forall i | 0 <= i < p.count :: FrameMark(p, descs, i)
  }

  /** No descriptor of the ring starts or ends a frame. */
  ghost predicate Unframed(p: Plan, descs: seq<Desc>) {
    p.first + p.count <= |descs| && forall i | 0 <= i < p.count :: NoMark(p, descs, i)
  }

  lemma RingFraming(p: Plan, descs: seq<Desc>)
    requires p.Valid() && p.first + p.count <= |descs|
    requires forall i | 0 <= i < p.count :: descs[p.first + i].control == RingDesc(p, i).control
    ensures if p.frame then OneFrame(p, descs) else Unframed(p, descs)
  {
    hide RingDesc, Plan.Valid;
    forall i | 0 <= i < p.count
      ensures if p.frame then FrameMark(p, descs, i) else NoMark(p, descs, i)
    {
      assert descs[p.first + i].control == RingDesc(p, i).control;
      FrameMarks(p, i);
    }
  }

  lemma MarksRead(cap: nat, sof: bool, eof: bool)
    requires cap < LEN_SPAN
    ensures var c := cap + (if sof then BIT_SOF else 0) + (if eof then BIT_EOF else 0);
            (c / BIT_SOF % 2 == 1 <==> sof) && (c / BIT_EOF % 2 == 1 <==> eof)
  {
  }

  ghost predicate Tiles(p: Plan, i: nat)
    requires i < p.count
  {
    && 0 < LenOf(RingDesc(p, i))
    && BufOf(RingDesc(p, i)) + LenOf(RingDesc(p, i))
       == if i + 1 < p.count then BufOf(RingDesc(p, i + 1)) else p.buf + p.len
  }

  /** The descriptors tile the buffer in order, each nonempty and ending where the next starts, and
      the lengths add up to all of it, exactly when no piece reaches 2^26 bytes. */
  lemma Tiling(p: Plan)
    requires p.Valid()
    ensures p.chunk < LEN_SPAN || p.len < LEN_SPAN <==> TotalLen(p, p.count) == p.len
    ensures p.chunk < LEN_SPAN || p.len < LEN_SPAN ==>
              BufOf(RingDesc(p, 0)) == p.buf && forall i | 0 <= i < p.count :: Tiles(p, i)
  {
    hide RingDesc, BufOf, LenOf, TotalLen, Cap;
    TotalLenAt(p, p.count);
    DescReads(p, 0);
    if p.chunk < LEN_SPAN || p.len < LEN_SPAN {
      forall i | 0 <= i < p.count
        ensures Tiles(p, i)
      {
        PieceTiles(p, i);
      }
    }
  }

  lemma PieceTiles(p: Plan, i: nat)
    requires p.Valid() && i < p.count && (p.chunk < LEN_SPAN || p.len < LEN_SPAN)
    ensures Tiles(p, i)
  {
    hide RingDesc, BufOf, LenOf, Piece, Cap;
    DescReads(p, i);
    LastPiece(p, i);
    CapWhole(p, i);
    if i + 1 < p.count {
      DescReads(p, i + 1);
    } else {
      assert i * p.chunk == (p.count - 1) * p.chunk;
    }
  }

  /** The descriptor addresses an engine meets from `cur`, stopping after `tail`; `fuel` bounds the walk. */
  function Visits(p: Plan, cur: nat, tail: nat, fuel: nat): seq<nat>
    decreases fuel
  {
    if fuel == 0 then []
    else if cur == tail then [cur]
    else if cur < p.phys || (cur - p.phys) % DESC_BYTES != 0 || (cur - p.phys) / DESC_BYTES >= p.count then [cur]
    else [cur] + Visits(p, NextOf(RingDesc(p, (cur - p.phys) / DESC_BYTES)), tail, fuel - 1)
  }

  function TailOf(p: Plan): nat
    requires p.count > 0
  {
    p.phys + (p.count - 1) * DESC_BYTES
  }

  function AddrsFrom(p: Plan, i: nat): seq<nat>
    decreases p.count - i
  {
    if i >= p.count then [] else [p.phys + i * DESC_BYTES] + AddrsFrom(p, i + 1)
  }

  /** From CURDESC the next pointers lead to every descriptor once, in order, and end at TAILDESC:
      more fuel than descriptors changes nothing. */
  lemma {:induction false} WalkFrom(p: Plan, i: nat, fuel: nat)
    requires p.Valid() && i < p.count && fuel >= p.count - i
    ensures Visits(p, p.phys + i * DESC_BYTES, TailOf(p), fuel) == AddrsFrom(p, i)
    decreases p.count - i
  {
    hide RingDesc, NextOf, Plan.Valid;
    if i < p.count - 1 {
      DescReads(p, i);
      WalkFrom(p, i + 1, fuel - 1);
    } else {
      assert AddrsFrom(p, i + 1) == [];
    }
  }
}
