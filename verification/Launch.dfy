// Everything the server does for a request up to the moment both DMA channels run.
module Launch {
  import opened Bytes
  import opened Ring
  import opened Encoder
  import opened Fabric
  import opened Sink
  import opened Run
  import opened Prepare
  import opened Driver
  import opened Safety
  import opened Health
  import Gate
  import Admission

  /** A run under way in which neither channel has failed. */
  ghost predicate Live(j: Job, hw: Hw, pct: nat) {
    && Good(j, hw) && Sane(j, hw) && Roomy(j.sink)
    && Seeded(hw.gate, pct)
    && (hw.mm2s.phase == Running || hw.mm2s.phase == Idle)
  }

  /** Core and gate are empty, and DRAM holds the pixels. */
  ghost predicate Loaded(m: Map, hw: Hw, d: Dims, pixels: seq<Byte>) {
    && CoreEmpty(m, hw, d) && !hw.gate.valid
    && |pixels| <= |hw.tx| && hw.tx[..|pixels|] == pixels
  }

  lemma LoadedStays(e: Encoder, m: Map, hw: Hw, d: Dims, pixels: seq<Byte>, evs: seq<Event>)
    requires Causal(e) && Loaded(m, hw, d, pixels)
    ensures Loaded(m, Steps(e, m, hw, evs), d, pixels)
  {
    hide Causal, CoreEmpty;
    EmptySteps(e, m, hw, d, evs);
    QuietSteps(e, m, hw, evs);
  }

  lemma FlushLoads(m: Map, hw: Hw, d: Dims, pixels: seq<Byte>)
    requires CoreEmpty(m, hw, d) && !hw.gate.valid && |pixels| <= |hw.tx|
    ensures Loaded(m, FlushTx(hw, pixels), d, pixels) && |FlushTx(hw, pixels).tx| == |hw.tx|
  {
    hide DescIndex;
  }

  lemma ResetLoaded(m: Map, hw: Hw, d: Dims, pixels: seq<Byte>)
    requires Loaded(m, hw, d, pixels)
    ensures Loaded(m, ResetDma(hw), d, pixels)
  {
  }

  ghost predicate Halt(hw: Hw) {
    hw.mm2s == RESET_CHAN && hw.s2mm == RESET_CHAN
  }

  lemma FlushReady(j: Job, hw: Hw, descs: seq<Desc>)
    requires Causal(j.e) && Loaded(j.m, hw, j.d, j.pixels) && Halt(hw)
    requires SinkPlan(j.m, j.sink, |hw.rx|) && SourcePlan(j.m, j.source, |j.pixels|, |hw.tx|)
    requires j.sink.first + j.sink.count <= j.source.first
    requires Fresh(j.sink, descs) && Fresh(j.source, descs)
    ensures Ready(j, FlushDescs(hw, descs))
  {
    hide Causal, Fresh, SinkPlan, SourcePlan;
  }

  lemma StartedSane(j: Job, hw: Hw)
    requires Ready(j, hw)
    ensures Sane(j, StartSink(hw, j.sink.phys, TailOf(j.sink)))
  {
    hide Causal, SgStart, CoreEmpty, Fresh;
    SgStartIs(hw.s2mm, j.sink.phys, TailOf(j.sink));
  }

  lemma SourceRuns(j: Job, hw: Hw)
    requires hw.mm2s == RESET_CHAN && j.source.Valid()
    ensures StartSource(hw, j.source.phys, TailOf(j.source)).mm2s.phase == Running
  {
    hide SgStart;
    SgStartIs(hw.mm2s, j.source.phys, TailOf(j.source));
  }

  lemma SourceSane(j: Job, hw: Hw)
    requires Sane(j, hw) && j.source.Valid()
    ensures Sane(j, StartSource(hw, j.source.phys, TailOf(j.source)))
  {
    hide SgStart;
  }

  // --- one request up to the start, as a function of the state it finds ---

  /** What the fabric does around the actions before axidma_sg_start, and at the THRESH write. */
  datatype Prelude = Prelude(
    pre: seq<Event>, post: seq<Event>, gate: seq<Event>, edge: Event,
    tx: seq<Event>, dma: seq<Event>, descs: seq<Event>)

  /** The state after configure, gate, pixels to DRAM and DMA reset, in the source's order. */
  function Cleared(e: Encoder, m: Map, hw: Hw, d: Dims, v: U32, pixels: seq<Byte>, s: Prelude): (r: Hw)
    requires |pixels| <= |hw.tx|
  {
    var applied := Steps(e, m, ResetCore(Steps(e, m, hw, s.pre), d), s.post);
    var gated := WriteThresh(e, m, Steps(e, m, applied, s.gate), v, s.edge);
    var loaded := Steps(e, m, gated, s.tx);
    RoomStays(e, m, hw, d, v, s);
    ResetDma(Steps(e, m, FlushTx(loaded, pixels), s.dma))
  }

  lemma RoomStays(e: Encoder, m: Map, hw: Hw, d: Dims, v: U32, s: Prelude)
    ensures var applied := Steps(e, m, ResetCore(Steps(e, m, hw, s.pre), d), s.post);
            var gated := WriteThresh(e, m, Steps(e, m, applied, s.gate), v, s.edge);
            |Steps(e, m, gated, s.tx).tx| == |hw.tx|
  {
    hide Steps, WriteThresh;
    var before := ResetCore(Steps(e, m, hw, s.pre), d);
    var applied := Steps(e, m, before, s.post);
    var ran := Steps(e, m, applied, s.gate);
    QuietSteps(e, m, hw, s.pre);
    QuietSteps(e, m, before, s.post);
    QuietSteps(e, m, applied, s.gate);
    WriteLeaves(e, m, ran, v, s.edge);
    QuietSteps(e, m, WriteThresh(e, m, ran, v, s.edge), s.tx);
  }

  lemma ClearedBefore(e: Encoder, m: Map, hw: Hw, d: Dims, v: U32, pixels: seq<Byte>, s: Prelude, evs: seq<Event>)
    requires |pixels| <= |hw.tx|
    ensures Cleared(e, m, hw, d, v, pixels, s.(descs := evs)) == Cleared(e, m, hw, d, v, pixels, s)
  {
    hide Steps, WriteThresh;
  }

  /** The state in which S2MM is started: the rings are handed over too. */
  function HandedOver(e: Encoder, m: Map, hw: Hw, d: Dims, v: U32, pixels: seq<Byte>, descs: seq<Desc>, s: Prelude): Hw
    requires |pixels| <= |hw.tx|
  {
    FlushDescs(Steps(e, m, Cleared(e, m, hw, d, v, pixels, s), s.descs), descs)
  }

  /** The order works, whatever the fabric does meanwhile, exactly when MM2S has nothing to feed at the
      beginning: then the core is empty when S2MM starts. The gate always is. */
  lemma StartsEmptyIff(e: Encoder, m: Map, hw: Hw, d: Dims, v: U32, pixels: seq<Byte>, descs: seq<Desc>)
    requires Causal(e) && |pixels| <= |hw.tx|
    ensures (forall s: Prelude :: HandedOver(e, m, hw, d, v, pixels, descs, s).core == Core(d, [], 0)) <==>
              !CanFeed(m, hw)
  {
    hide Steps, CanFeed, Cleared, Causal;
    if CanFeed(m, hw) {
      var s := FeedOnce();
      FedOnce(e, m, hw, d, v, pixels, descs);
      assert HandedOver(e, m, hw, d, v, pixels, descs, s).core.fed != [];
    } else {
      forall s: Prelude
        ensures HandedOver(e, m, hw, d, v, pixels, descs, s).core == Core(d, [], 0)
      {
        StartsEmpty(e, m, hw, d, v, pixels, s);
      }
    }
  }

  lemma StartsEmpty(e: Encoder, m: Map, hw: Hw, d: Dims, v: U32, pixels: seq<Byte>, s: Prelude)
    requires Causal(e) && |pixels| <= |hw.tx| && !CanFeed(m, hw)
    ensures Steps(e, m, Cleared(e, m, hw, d, v, pixels, s), s.descs).core == Core(d, [], 0)
  {
    hide Steps, CanFeed, Causal, WriteThresh;
    var before := Steps(e, m, hw, s.pre);
    NeverFeeds(e, m, hw, s.pre);
    ResetFeedsAlike(m, before, d);
    var applied := Steps(e, m, ResetCore(before, d), s.post);
    EmptySteps(e, m, ResetCore(before, d), d, s.post);
    EmptySteps(e, m, applied, d, s.gate);
    var ran := Steps(e, m, applied, s.gate);
    WriteEmpties(e, m, ran, d, v, s.edge);
    var gated := WriteThresh(e, m, ran, v, s.edge);
    EmptySteps(e, m, gated, d, s.tx);
    var loaded := Steps(e, m, gated, s.tx);
    RoomStays(e, m, hw, d, v, s);
    FlushLoads(m, loaded, d, pixels);
    var full := FlushTx(loaded, pixels);
    EmptySteps(e, m, full, d, s.dma);
    var halted := ResetDma(Steps(e, m, full, s.dma));
    HaltedEmpty(m, Steps(e, m, full, s.dma), d);
    EmptySteps(e, m, halted, d, s.descs);
  }

  lemma HaltedEmpty(m: Map, hw: Hw, d: Dims)
    requires CoreEmpty(m, hw, d)
    ensures CoreEmpty(m, ResetDma(hw), d)
  {
  }

  lemma ResetFeedsAlike(m: Map, hw: Hw, d: Dims)
    ensures CanFeed(m, ResetCore(hw, d)) == CanFeed(m, hw)
  {
  }

  lemma {:induction false} NeverFeeds(e: Encoder, m: Map, hw: Hw, evs: seq<Event>)
    requires !CanFeed(m, hw)
    ensures !CanFeed(m, Steps(e, m, hw, evs))
    decreases |evs|
  {
    hide Step, CanFeed;
    if evs != [] {
      CannotFeedStays(e, m, hw, evs[0]);
      NeverFeeds(e, m, Step(e, m, hw, evs[0]), evs[1..]);
    }
  }

  /** MM2S moves one byte right after APPLY, and nothing else happens. */
  function FeedOnce(): Prelude {
    Prelude([], [MoveByte], [], Clock(false, false), [], [], [])
  }

  lemma FedOnce(e: Encoder, m: Map, hw: Hw, d: Dims, v: U32, pixels: seq<Byte>, descs: seq<Desc>)
    requires |pixels| <= |hw.tx| && CanFeed(m, hw)
    ensures var k := DescIndex(m, |hw.descs|, hw.mm2s.cur);
            && 0 <= BufOf(hw.descs[k]) + hw.mm2s.fill - m.txBase < |hw.tx|
            && HandedOver(e, m, hw, d, v, pixels, descs, FeedOnce()).core.fed
               == [hw.tx[BufOf(hw.descs[k]) + hw.mm2s.fill - m.txBase]]
  {
    hide WriteThresh, LenOf, BufOf, DescIndex, FinishDesc, DoneStatus, FaultStatus;
    var hw0 := ResetCore(hw, d);
    assert [MoveByte][1..] == [];
    assert Steps(e, m, hw0, [MoveByte]) == FeedByte(m, hw0);
    WriteFeedless(e, m, FeedByte(m, hw0), v, Clock(false, false));
    RoomStays(e, m, hw, d, v, FeedOnce());
  }

  lemma WriteFeedless(e: Encoder, m: Map, hw: Hw, v: U32, ev: Event)
    ensures WriteThresh(e, m, hw, v, ev).core.fed == hw.core.fed
  {
    hide StoreItems, Items, Avail;
  }

  /** How that fails in the code: hw_recover goes on after a DMA reset that did not complete. From every
      moment of a run in which MM2S is still at work, such a recovery leaves a state from which the next
      request can start with a pixel of the old request in its core. */
  lemma StalePixel(j: Job, hw: Hw, d0: Dims, d: Dims, v: U32, pixels: seq<Byte>, descs: seq<Desc>)
    requires Good(j, hw) && hw.mm2s.phase == Running && |pixels| <= |hw.tx|
    ensures |hw.core.fed| < |j.pixels|
    ensures var left := Recovered(j.e, j.m, hw, d0, false, Recovery([], [], true, []));
            && CanFeed(j.m, left) && |left.tx| == |hw.tx|
            && HandedOver(j.e, j.m, left, d, v, pixels, descs, FeedOnce()).core.fed == [j.pixels[|hw.core.fed|]]
  {
    hide CanFeed, HandedOver, Tracks, Flows, RingAt, Causal, SinkPlan, LenOf, BufOf, FinishDesc, DescIndex;
    var left := Recovered(j.e, j.m, hw, d0, false, Recovery([], [], true, []));
    RunningFeeds(j, hw);
    ResetFeedsAlike(j.m, hw, d0);
    FeedIs(j, hw);
    FedOnce(j.e, j.m, left, d, v, pixels, descs);
  }

  // --- the methods ---

  /** The first four actions: configure, gate, pixels to DRAM, DMA reset, in the source's order.
      From a quiet MM2S, success leaves core, gate and engine empty over the new pixels. */
  method Clear(drv: Driver, width: nat, height: nat, readyPct: nat, len: nat) returns (rc: int, ghost s: Prelude)
    requires drv.Valid() && readyPct <= 255 && len <= drv.tx.Length
    modifies drv
    ensures drv.Valid()
    ensures rc == 0 || rc == -1
    ensures old(Quiet(drv.hw)) ==> Quiet(drv.hw)
    ensures rc == 0 ==> Halt(drv.hw) && Seeded(drv.hw.gate, readyPct)
    ensures rc == 0 ==>
              drv.hw == Cleared(drv.e, drv.m, old(drv.hw), drv.DimsOf(width, height), Gate.Threshold(readyPct),
                                drv.tx[..len], s)
    ensures rc == 0 && old(Quiet(drv.hw)) ==>
              Loaded(drv.m, drv.hw, drv.DimsOf(width, height), drv.tx[..len])
    ensures Calm(drv.script, old(drv.at)) ==>
              && Calm(drv.script, drv.at)
              && (rc == 0 <==> drv.DimsFit(width, height) && readyPct * 65536 / 100 < 0x2_0000)
              && (rc == 0 ==> drv.at == old(drv.at) + 5)
    ensures drv.now >= old(drv.now) && drv.at >= old(drv.at)
  {
    hide Causal, CoreEmpty, Steps, Loaded, Calm, Seeded, WriteThresh, HungReset;
    ghost var quiet := Quiet(drv.hw);
    ghost var d := drv.DimsOf(width, height);
    ghost var pre, post, applied;
    s := Prelude([], [], [], MoveByte, [], [], []);
    rc, pre, post, applied := drv.Configure(width, height);
    if rc != 0 {
      return -1, s;
    }
    s := s.(pre := pre, post := post);
    ghost var evs, edge;
    rc, evs, edge := drv.GateSet(readyPct, d);
    if rc != 0 {
      return -1, s;
    }
    s := s.(gate := evs, edge := edge);
    ghost var before := drv.hw;
    rc, evs := drv.SyncTxForDevice(len);
    QuietSteps(drv.e, drv.m, before, evs);
    StepsSeeded(drv.e, drv.m, before, evs, readyPct);
    if quiet {
      EmptySteps(drv.e, drv.m, before, d, evs);
      FlushLoads(drv.m, Steps(drv.e, drv.m, before, evs), d, drv.tx[..len]);
    }
    if rc != 0 {
      return -1, s;
    }
    s := s.(tx := evs);
    before := drv.hw;
    rc, evs := drv.Reset();
    s := s.(dma := evs);
    QuietSteps(drv.e, drv.m, before, evs);
    StepsSeeded(drv.e, drv.m, before, evs, readyPct);
    if quiet {
      LoadedStays(drv.e, drv.m, before, d, drv.tx[..len], evs);
      ResetLoaded(drv.m, Steps(drv.e, drv.m, before, evs), d, drv.tx[..len]);
    }
  }

  /** Both rings, in the two halves of the descriptor buffer. */
  method BuildRings(drv: Driver, rxLen: nat, rxChunk: U32, len: nat) returns (rc: int, s2mm: Plan, mm2s: Plan)
    requires drv.Valid() && len <= drv.tx.Length && rxLen <= drv.rx.Length
    modifies drv.desc
    ensures rc == 0 || rc == -1
    ensures var half := drv.board.descSize / 2;
            rc == 0 <==> && rxLen > 0 && len > 0
                         && drv.m.descBase % DESC_BYTES == 0 && half % DESC_BYTES == 0
                         && Chunks(rxLen, rxChunk) * DESC_BYTES <= half
                         && Chunks(len, DESC_CHUNK) * DESC_BYTES <= drv.board.descSize - half
    ensures rc == 0 ==>
              && s2mm == Plan(drv.m.descBase, 0, Chunks(rxLen, rxChunk), drv.m.rxBase, rxLen, rxChunk, false)
              && mm2s == Plan(drv.m.descBase + drv.board.descSize / 2, drv.board.descSize / 2 / 64,
                              Chunks(len, 0x200_0000), drv.m.txBase, len, 0x200_0000, true)
              && (SinkPlan(drv.m, s2mm, |drv.hw.rx|) <==> rxChunk > 0) && SourcePlan(drv.m, mm2s, len, |drv.hw.tx|)
              && s2mm.first + s2mm.count <= mm2s.first && mm2s.first + mm2s.count <= drv.desc.Length
              && Fresh(s2mm, drv.desc[..]) && Fresh(mm2s, drv.desc[..])
              && Unframed(s2mm, drv.desc[..]) && OneFrame(mm2s, drv.desc[..])
              && s2mm.phys % 64 == 0 && mm2s.phys % 64 == 0
  {
    hide RingDesc, Causal, Chunks;
    var half := drv.board.descSize / 2;
    rc, s2mm := RingBuild(drv.desc, drv.m.descBase, 0, half, drv.m.rxBase, rxLen, rxChunk, false);
    mm2s := s2mm;
    if rc != 0 {
      return -1, s2mm, mm2s;
    }
    var rest := drv.board.descSize - half;
    rc, mm2s := RingBuild(drv.desc, drv.m.descBase, half, rest, drv.m.txBase, len, DESC_CHUNK, true);
    if rc != 0 {
      return -1, s2mm, mm2s;
    }
    ChunkedOrNot(rxLen, rxChunk);
    FreshFraming(s2mm, drv.desc[..]);
    FreshFraming(mm2s, drv.desc[..]);
  }

  lemma FreshFraming(p: Plan, descs: seq<Desc>)
    requires Fresh(p, descs) && (p.count > 0 ==> p.Valid())
    ensures if p.frame then OneFrame(p, descs) else Unframed(p, descs)
  {
    hide RingDesc, Plan.Valid;
    if p.count > 0 {
      forall i | 0 <= i < p.count
        ensures descs[p.first + i].control == RingDesc(p, i).control
      {
        assert descs[p.first + i] == RingDesc(p, i);
      }
      RingFraming(p, descs);
    }
  }

  /** What the ring builder asks for: aligned buffers, and room for both rings. */
  ghost predicate Wired(m: Map, b: Admission.Board, rxLen: nat, rxChunk: nat, len: nat) {
    var half := b.descSize / 2;
    && rxLen > 0 && len > 0
    && m.descBase % DESC_BYTES == 0 && half % DESC_BYTES == 0
    && Chunks(rxLen, rxChunk) * DESC_BYTES <= half
    && Chunks(len, DESC_CHUNK) * DESC_BYTES <= b.descSize - half
  }

  /** Clear, build and hand over the rings: everything before axidma_sg_start. */
  method Load(drv: Driver, width: nat, height: nat, readyPct: nat, len: nat, rxLen: nat, rxChunk: U32)
      returns (rc: int, s2mm: Plan, mm2s: Plan, ghost s: Prelude)
    requires drv.Valid() && readyPct <= 255
    requires len <= drv.tx.Length && rxLen <= drv.rx.Length
    modifies drv, drv.desc
    ensures drv.Valid()
    ensures rc == 0 || rc == -1
    ensures rc == 0 ==> rxLen > 0
    ensures old(Quiet(drv.hw)) ==> Quiet(drv.hw)
    ensures rc == 0 ==>
              && s2mm == Plan(drv.m.descBase, 0, Chunks(rxLen, rxChunk), drv.m.rxBase, rxLen, rxChunk, false)
              && (SinkPlan(drv.m, s2mm, |drv.hw.rx|) <==> rxChunk > 0) && SourcePlan(drv.m, mm2s, len, |drv.hw.tx|)
              && s2mm.first + s2mm.count <= mm2s.first && mm2s.first + mm2s.count <= drv.desc.Length
              && Fresh(s2mm, drv.hw.descs) && Fresh(mm2s, drv.hw.descs)
              && Unframed(s2mm, drv.hw.descs) && OneFrame(mm2s, drv.hw.descs)
    ensures rc == 0 ==> Halt(drv.hw) && Seeded(drv.hw.gate, readyPct)
    ensures rc == 0 ==>
              drv.hw == HandedOver(drv.e, drv.m, old(drv.hw), drv.DimsOf(width, height), Gate.Threshold(readyPct),
                                   drv.tx[..len], drv.desc[..], s)
    ensures rc == 0 && rxChunk > 0 && old(Quiet(drv.hw)) ==>
              Ready(Job(drv.e, drv.m, drv.DimsOf(width, height), drv.tx[..len], s2mm, mm2s), drv.hw)
    ensures Calm(drv.script, old(drv.at)) ==>
              && Calm(drv.script, drv.at)
              && (rc == 0 <==> && drv.DimsFit(width, height) && readyPct * 65536 / 100 < 0x2_0000
                               && Wired(drv.m, drv.board, rxLen, rxChunk, len))
              && (rc == 0 ==> drv.at == old(drv.at) + 6)
    ensures drv.now >= old(drv.now) && drv.at >= old(drv.at)
  {
    hide Causal, CoreEmpty, Steps, Loaded, Fresh, Ready, Chunks, Calm, Seeded, Cleared, SinkPlan, SourcePlan,
         OneFrame, Unframed;
    ghost var start, quiet := drv.hw, Quiet(drv.hw);
    ghost var d := drv.DimsOf(width, height);
    s2mm := Plan(0, 0, 0, 0, 0, 0, false);
    mm2s := s2mm;
    rc, s := Clear(drv, width, height, readyPct, len);
    if rc != 0 {
      return;
    }
    rc, s2mm, mm2s := BuildRings(drv, rxLen, rxChunk, len);
    if rc != 0 {
      return;
    }
    ghost var j := Job(drv.e, drv.m, d, drv.tx[..len], s2mm, mm2s);
    ghost var evs;
    ghost var before := drv.hw;
    rc, evs := drv.SyncDescsForDevice();
    ghost var ran := Steps(drv.e, drv.m, before, evs);
    ClearedBefore(drv.e, drv.m, start, d, Gate.Threshold(readyPct), drv.tx[..len], s, evs);
    s := s.(descs := evs);
    QuietSteps(drv.e, drv.m, before, evs);
    StepsSeeded(drv.e, drv.m, before, evs, readyPct);
    if rc == 0 && rxChunk > 0 && quiet {
      LoadedStays(drv.e, drv.m, before, d, j.pixels, evs);
      FlushReady(j, ran, drv.desc[..]);
    }
  }

  lemma ChunkedOrNot(len: nat, chunk: nat)
    requires len > 0
    ensures Chunks(len, chunk) > 0 <==> chunk > 0
  {
    hide Chunks;
    NoChunks(len);
    if chunk > 0 {
      ChunkBounds(len, chunk);
    }
  }

  /** Load, start S2MM, then MM2S; axidma_sg_start refuses a ring without descriptors. Once both run over
      a fabric that was quiet before, the run is good: it starts with nothing of any earlier request in
      it. It is safe in any case. */
  method Start(drv: Driver, width: nat, height: nat, readyPct: nat, len: nat, rxLen: nat, rxChunk: U32)
      returns (rc: int, s2mm: Plan, mm2s: Plan, ghost s: Prelude, ghost between: seq<Event>)
    requires drv.Valid() && readyPct <= 255
    requires len <= drv.tx.Length && rxLen <= drv.rx.Length
    modifies drv, drv.desc
    ensures drv.Valid()
    ensures rc == 0 || rc == -1
    ensures rc != 0 && old(Quiet(drv.hw)) ==> Quiet(drv.hw)
    ensures rc == 0 ==>
              && s2mm == Plan(drv.m.descBase, 0, Chunks(rxLen, rxChunk), drv.m.rxBase, rxLen, rxChunk, false)
              && rxChunk > 0 && s2mm.Valid() && s2mm.count <= drv.desc.Length && mm2s.count > 0
              && Unframed(s2mm, drv.hw.descs) && OneFrame(mm2s, drv.hw.descs)
    ensures rc == 0 ==>
              var ready := HandedOver(drv.e, drv.m, old(drv.hw), drv.DimsOf(width, height), Gate.Threshold(readyPct),
                                      drv.tx[..len], drv.desc[..], s);
              drv.hw == StartSource(Steps(drv.e, drv.m, StartSink(ready, s2mm.phys, TailOf(s2mm)), between),
                                    mm2s.phys, TailOf(mm2s))
    ensures rc == 0 ==> Safe(Job(drv.e, drv.m, drv.DimsOf(width, height), drv.tx[..len], s2mm, mm2s), drv.hw)
    ensures rc == 0 && old(Quiet(drv.hw)) ==>
              Good(Job(drv.e, drv.m, drv.DimsOf(width, height), drv.tx[..len], s2mm, mm2s), drv.hw)
    ensures Calm(drv.script, old(drv.at)) ==>
              && Calm(drv.script, drv.at)
              && (rc == 0 <==> && drv.DimsFit(width, height) && readyPct * 65536 / 100 < 0x2_0000
                               && Wired(drv.m, drv.board, rxLen, rxChunk, len) && rxChunk > 0)
              && (rc == 0 ==> drv.at == old(drv.at) + 7)
    ensures rc == 0 && Calm(drv.script, old(drv.at)) && old(Quiet(drv.hw)) && Roomy(s2mm) ==>
              Live(Job(drv.e, drv.m, drv.DimsOf(width, height), drv.tx[..len], s2mm, mm2s), drv.hw, readyPct)
    ensures rc == 0 ==> Seeded(drv.hw.gate, readyPct) && (old(Quiet(drv.hw)) ==> drv.hw.mm2s.phase == Running)
    ensures drv.now >= old(drv.now) && drv.at >= old(drv.at)
  {
    hide Causal, CoreEmpty, Steps, Fresh, Ready, Good, Safe, SgStart, Chunks, Calm, Sane, Seeded, HandedOver, Roomy,
         OneFrame, Unframed;
    ghost var quiet := Quiet(drv.hw);
    between := [];
    rc, s2mm, mm2s, s := Load(drv, width, height, readyPct, len, rxLen, rxChunk);
    if rc != 0 {
      return;
    }
    ChunkedOrNot(rxLen, rxChunk);
    if s2mm.count <= 0 {
      return -1, s2mm, mm2s, s, between;
    }
    ghost var j := Job(drv.e, drv.m, drv.DimsOf(width, height), drv.tx[..len], s2mm, mm2s);
    ghost var ready := drv.hw;
    StartSafe(j, ready);
    drv.hw := StartSink(drv.hw, s2mm.phys, TailOf(s2mm));
    if quiet {
      SinkStarts(j, ready);
      StartedSane(j, ready);
    }
    ghost var before := drv.hw;
    var p := drv.Advance();
    between := p.events;
    CalmMeans(p);
    StepsSeeded(drv.e, drv.m, before, between, readyPct);
    StepsSafe(j, before, between);
    SourceStartSafe(j, drv.hw);
    if quiet {
      WaitingStays(j, before, between);
      SourceStarts(j, drv.hw);
      if NoSinkFault(between) && Roomy(s2mm) {
        StepsSane(j, before, between);
        SourceSane(j, drv.hw);
      }
      SourceRuns(j, drv.hw);
    }
    drv.hw := StartSource(drv.hw, mm2s.phys, TailOf(mm2s));
    SafeFraming(j, drv.hw);
  }

  /** The engine never touches the marks. */
  lemma SafeFraming(j: Job, hw: Hw)
    requires Safe(j, hw) && j.sink.Valid()
    ensures if j.sink.frame then OneFrame(j.sink, hw.descs) else Unframed(j.sink, hw.descs)
    ensures if j.source.frame then OneFrame(j.source, hw.descs) else Unframed(j.source, hw.descs)
  {
    hide RingDesc, Cutting, Landed, Unfinished, BytesAt, Plan.Valid;
    BareFraming(j.sink, hw.descs);
    BareFraming(j.source, hw.descs);
  }

  lemma BareFraming(p: Plan, descs: seq<Desc>)
    requires RingAt(p, descs) && p.Valid()
    ensures if p.frame then OneFrame(p, descs) else Unframed(p, descs)
  {
    hide RingDesc, Plan.Valid;
    forall i | 0 <= i < p.count
      ensures descs[p.first + i].control == RingDesc(p, i).control
    {
      assert Bare(descs[p.first + i]) == RingDesc(p, i);
    }
    RingFraming(p, descs);
  }
}
