// The programmable logic and DRAM as one state machine: the two DMA channels (Xilinx PG021),
// the encoder core, the ready gate, and the three buffers as the bus sees them. An environment
// picks every event, so every interleaving, stall and fault is some event list.
module Fabric {
  import opened Bytes
  import opened Ring
  import opened Encoder
  import Gate

  datatype Phase = Halted | Running | Idle | Faulted

  /** One DMA channel; `framed`, which matters to MM2S, while it is inside a frame. The *Reg fields hold what
      the driver has written so far. */
  datatype Chan = Chan(
    phase: Phase, cur: nat, tail: nat, fill: nat, framed: bool,
    curLoReg: U32, curHiReg: U32, tailHiReg: U32, runReg: bool)

  const RESET_CHAN := Chan(Halted, 0, 0, 0, false, 0, 0, 0, false)

  /** Pixels fed and beats put out since the last core reset. */
  datatype Core = Core(dims: Dims, fed: seq<Byte>, emitted: nat)

  /** Bus addresses of the three buffers. */
  datatype Map = Map(txBase: nat, rxBase: nat, descBase: nat)

  /** `delivered` is a history variable: the beats S2MM took since it was last started. */
  datatype Hw = Hw(
    mm2s: Chan, s2mm: Chan, core: Core, gate: Gate.State,
    tx: seq<Byte>, rx: seq<Byte>, descs: seq<Desc>, delivered: seq<Beat>)

  datatype Event =
    | MoveByte                            // MM2S moves one byte into the core
    | Clock(svalid: bool, mready: bool)   // one edge of the stream between core, gate and S2MM
    | SourceFault(code: nat)              // MM2S stops on a bus error
    | SinkFault(code: nat)                // S2MM stops on a bus error

  predicate Quiet(hw: Hw) {
    hw.mm2s.phase != Running
  }

  /** Index of the descriptor at bus address `cur`, or -1 if there is none. */
  function DescIndex(m: Map, n: nat, cur: nat): (k: int)
    ensures -1 <= k < n
  {
    if cur < m.descBase || (cur - m.descBase) % DESC_BYTES != 0 || (cur - m.descBase) / DESC_BYTES >= n then -1
    else (cur - m.descBase) / DESC_BYTES
  }

  function FinishDesc(c: Chan, d: Desc): Chan {
    if c.cur == c.tail then c.(phase := Idle) else c.(cur := NextOf(d), fill := 0)
  }

  /** MM2S stops at its tail only if that ends the frame it is in. */
  function FinishSource(c: Chan, d: Desc): Chan {
    if c.cur == c.tail then c.(phase := if HasEof(d) then Idle else Faulted, framed := !HasEof(d))
    else c.(cur := NextOf(d), fill := 0, framed := !HasEof(d))
  }

  function Mark(descs: seq<Desc>, k: int, st: U32): seq<Desc>
    requires k < |descs|
  {
    if k < 0 then descs else descs[k := descs[k].(status := st)]
  }

  /** S2MM stores one byte, closing the descriptor when it is full or the packet ends. Bytes that
      arrive when no descriptor is left are dropped. */
  function StoreItem(m: Map, hw: Hw, it: Item): Hw {
    if hw.s2mm.phase != Running then hw
    else
      var k := DescIndex(m, |hw.descs|, hw.s2mm.cur);
      if k < 0 then hw.(s2mm := hw.s2mm.(phase := Faulted))
      else
        var d := hw.descs[k];
        var n := hw.s2mm.fill + 1;
        var a := BufOf(d) + hw.s2mm.fill - m.rxBase;
        if n > LenOf(d) || !(0 <= a < |hw.rx|) then
          hw.(s2mm := hw.s2mm.(phase := Faulted), descs := Mark(hw.descs, k, FaultStatus(1)))
        else if it.last || n == LenOf(d) then
          hw.(rx := hw.rx[a := it.b], descs := Mark(hw.descs, k, DoneStatus(n, it.last)),
              s2mm := FinishDesc(hw.s2mm, d))
        else
          hw.(rx := hw.rx[a := it.b], s2mm := hw.s2mm.(fill := n))
  }

  function StoreItems(m: Map, hw: Hw, items: seq<Item>): Hw
    decreases |items|
  {
    if items == [] then hw else StoreItems(m, StoreItem(m, hw, items[0]), items[1..])
  }

  /** A frame starts with SOF, and nothing inside one has it. */
  predicate Framing(c: Chan, d: Desc) {
    c.fill == 0 ==> (HasSof(d) <==> !c.framed)
  }

  /** MM2S reads one byte and feeds it to the core. Descriptors that are not framed make it fault. */
  function FeedByte(m: Map, hw: Hw): Hw {
    if hw.mm2s.phase != Running then hw
    else
      var k := DescIndex(m, |hw.descs|, hw.mm2s.cur);
      if k < 0 then hw.(mm2s := hw.mm2s.(phase := Faulted))
      else
        var d := hw.descs[k];
        var n := hw.mm2s.fill + 1;
        var a := BufOf(d) + hw.mm2s.fill - m.txBase;
        if n > LenOf(d) || !(0 <= a < |hw.tx|) || !Framing(hw.mm2s, d) then
          hw.(mm2s := hw.mm2s.(phase := Faulted), descs := Mark(hw.descs, k, FaultStatus(1)))
        else
          var fed := hw.core.(fed := hw.core.fed + [hw.tx[a]]);
          if n == LenOf(d) then
            hw.(core := fed, descs := Mark(hw.descs, k, DoneStatus(n, false)), mm2s := FinishSource(hw.mm2s, d))
          else
            hw.(core := fed, mm2s := hw.mm2s.(fill := n, framed := true))
  }

  /** The gate's pins at one edge. The core offers its next available beat when `svalid` lets it;
      a running S2MM is ready when `mready` lets it; the interconnect takes every write response. */
  function Pins(e: Encoder, hw: Hw, svalid: bool, mready: bool, write: bool, v: U32): Gate.In {
    var avail := Avail(e, hw.core.dims, hw.core.fed);
    var offers := svalid && hw.core.emitted < |avail|;
    Gate.In(true, write, write, v, true, false, true,
            offers, if offers then avail[hw.core.emitted] else Gate.Beat([], [], false),
            mready && hw.s2mm.phase == Running)
  }

  /** One stream clock edge, with a THRESH write of v if `write`. */
  function Edge(e: Encoder, m: Map, hw: Hw, svalid: bool, mready: bool, write: bool, v: U32): Hw {
    var i := Pins(e, hw, svalid, mready, write, v);
    var out := Gate.Given1(hw.gate, i);
    StoreItems(m, hw, Items(out)).(
      gate := Gate.Step(hw.gate, i),
      core := hw.core.(emitted := hw.core.emitted + |Gate.Taken1(hw.gate, i)|),
      delivered := hw.delivered + out)
  }

  function ErrCode(c: nat): (r: nat)
    ensures 0 < r < 8
  {
    1 + c % 7
  }

  function Step(e: Encoder, m: Map, hw: Hw, ev: Event): Hw {
    match ev
    case MoveByte => FeedByte(m, hw)
    case Clock(svalid, mready) => Edge(e, m, hw, svalid, mready, false, 0)
    case SourceFault(c) =>
      if hw.mm2s.phase != Running then hw
      else hw.(mm2s := hw.mm2s.(phase := Faulted),
               descs := Mark(hw.descs, DescIndex(m, |hw.descs|, hw.mm2s.cur), FaultStatus(ErrCode(c))))
    case SinkFault(c) =>
      if hw.s2mm.phase != Running then hw
      else hw.(s2mm := hw.s2mm.(phase := Faulted),
               descs := Mark(hw.descs, DescIndex(m, |hw.descs|, hw.s2mm.cur), FaultStatus(ErrCode(c))))
  }

  function Steps(e: Encoder, m: Map, hw: Hw, evs: seq<Event>): Hw
    decreases |evs|
  {
    if evs == [] then hw else Steps(e, m, Step(e, m, hw, evs[0]), evs[1..])
  }

  lemma {:induction false} StepsConcat(e: Encoder, m: Map, hw: Hw, a: seq<Event>, b: seq<Event>)
    ensures Steps(e, m, hw, a + b) == Steps(e, m, Steps(e, m, hw, a), b)
    decreases |a|
  {
    hide Step;
    if a == [] {
      assert a + b == b;
    } else {
      assert (a + b)[1..] == a[1..] + b;
      StepsConcat(e, m, Step(e, m, hw, a[0]), a[1..], b);
    }
  }

  // --- what the driver's register writes do ---

  /** The whole engine halts and forgets; either channel's reset bit does it. */
  function ResetDma(hw: Hw): Hw {
    hw.(mm2s := RESET_CHAN, s2mm := RESET_CHAN)
  }

  /** APPLY: the core samples the dimensions and drops everything it holds. */
  function ResetCore(hw: Hw, d: Dims): Hw {
    hw.(core := Core(d, [], 0))
  }

  /** A THRESH write: an edge that drains an old write response, then the edge that takes the write. */
  function WriteThresh(e: Encoder, m: Map, hw: Hw, v: U32, ev: Event): Hw {
    var a := if ev.Clock? then ev else Clock(false, false);
    Edge(e, m, Edge(e, m, hw, a.svalid, a.mready, false, 0), a.svalid, a.mready, true, v)
  }

  datatype Reg = CurLo | CurHi | Control | Status | TailHi | TailLo

  function WriteReg(c: Chan, r: Reg, v: U32): Chan {
    match r
    case CurLo => if c.phase == Halted then c.(curLoReg := v) else c
    case CurHi => if c.phase == Halted then c.(curHiReg := v) else c
    case Control => c.(runReg := v % 2 == 1)
    case Status => c                    // acknowledges interrupt bits only
    case TailHi => c.(tailHiReg := v)
    case TailLo =>
      if c.runReg && c.phase == Halted
      then c.(phase := Running, cur := Addr64(c.curLoReg, c.curHiReg), tail := Addr64(v, c.tailHiReg), fill := 0,
              framed := false)
      else c
  }

  const CR_RUN: U32 := 0x5001   // RS, IOC_IRQ and ERR_IRQ
  const SR_ACK: U32 := 0x5000

  /** The six writes of axidma_sg_start, in order. */
  function SgStart(c: Chan, first: nat, tail: nat): Chan {
    var c1 := WriteReg(c, CurLo, Lo(first));
    var c2 := WriteReg(c1, CurHi, Hi(first));
    var c3 := WriteReg(c2, Control, CR_RUN);
    var c4 := WriteReg(c3, Status, SR_ACK);
    var c5 := WriteReg(c4, TailHi, Hi(tail));
    WriteReg(c5, TailLo, Lo(tail))
  }

  /** They set a halted channel running at the first descriptor, with the whole 64-bit addresses. */
  lemma SgStartIs(c: Chan, first: nat, tail: nat)
    requires c.phase == Halted && first < TWO_32 * TWO_32 && tail < TWO_32 * TWO_32
    ensures var r := SgStart(c, first, tail);
            r.phase == Running && r.cur == first && r.tail == tail && r.fill == 0 && !r.framed
  {
    hide Lo, Hi, Addr64;
    SplitWord(first);
    SplitWord(tail);
  }

  function StartSink(hw: Hw, first: nat, tail: nat): Hw {
    hw.(s2mm := SgStart(hw.s2mm, first, tail), delivered := [])
  }

  function StartSource(hw: Hw, first: nat, tail: nat): Hw {
    hw.(mm2s := SgStart(hw.mm2s, first, tail))
  }

  // --- what the cache hand-overs do: DRAM takes or gives a range of the CPU's view ---

  function FlushTx(hw: Hw, bytes: seq<Byte>): Hw
    requires |bytes| <= |hw.tx|
  {
    hw.(tx := bytes + hw.tx[|bytes|..])
  }

  function FlushDescs(hw: Hw, descs: seq<Desc>): Hw {
    hw.(descs := descs)
  }
}
