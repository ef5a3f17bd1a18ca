// The order hw_configure, gate_set, axidma_reset, then start: why nothing of an earlier request
// is left in core, gate or engine when S2MM starts.
module Prepare {
  import opened Bytes
  import opened Ring
  import opened Encoder
  import opened Segment
  import opened Fabric
  import opened Sink
  import opened Run
  import opened Xorshift
  import Gate

  /** MM2S would hand the core a byte at its next move. */
  ghost predicate CanFeed(m: Map, hw: Hw) {
    && hw.mm2s.phase == Running
    && var k := DescIndex(m, |hw.descs|, hw.mm2s.cur);
       && k >= 0
       && hw.mm2s.fill + 1 <= LenOf(hw.descs[k])
       && 0 <= BufOf(hw.descs[k]) + hw.mm2s.fill - m.txBase < |hw.tx|
       && Framing(hw.mm2s, hw.descs[k])
  }

  /** The core holds nothing and nobody feeds it. */
  ghost predicate CoreEmpty(m: Map, hw: Hw, d: Dims) {
    hw.core == Core(d, [], 0) && !CanFeed(m, hw)
  }

  lemma StepSizes(e: Encoder, m: Map, hw: Hw, ev: Event)
    ensures var hw' := Step(e, m, hw, ev);
            && hw'.tx == hw.tx && |hw'.rx| == |hw.rx| && SameBare(hw.descs, hw'.descs)
            && hw'.core.dims == hw.core.dims
            && (hw.mm2s.phase != Running ==> hw'.mm2s == hw.mm2s && hw'.core.fed == hw.core.fed)
            && (!CanFeed(m, hw) ==> hw'.core.fed == hw.core.fed)
            && (ev != MoveByte && !ev.SourceFault? ==> hw'.mm2s == hw.mm2s)
            && (hw.s2mm.phase != Running ==>
                  hw'.s2mm == hw.s2mm && hw'.rx == hw.rx && hw'.delivered == hw.delivered)
            && (hw.s2mm.phase != Running && hw.mm2s.phase != Running ==> hw'.descs == hw.descs)
  {
    hide DescIndex, FinishDesc, BufOf, LenOf, DoneStatus, FaultStatus, Avail, Items, Gate.Step, ErrCode;
    match ev
    case Clock(svalid, mready) =>
      hide StoreItem;
      var out := Gate.Given1(hw.gate, Pins(e, hw, svalid, mready, false, 0));
      StoreTouches(m, hw, Items(out));
      if hw.s2mm.phase != Running {
        assert out == [];
        DeliverNothing(m, hw);
      }
    case MoveByte =>
    case SourceFault(c) =>
    case SinkFault(c) =>
  }

  /** An MM2S that cannot move a byte never gets able to by itself. */
  lemma CannotFeedStays(e: Encoder, m: Map, hw: Hw, ev: Event)
    requires !CanFeed(m, hw)
    ensures !CanFeed(m, Step(e, m, hw, ev))
  {
    StepSizes(e, m, hw, ev);
    var hw' := Step(e, m, hw, ev);
    if ev.MoveByte? || ev.SourceFault? {
    } else if hw.mm2s.phase == Running {
      hide Step, DescIndex;
      var k := DescIndex(m, |hw.descs|, hw.mm2s.cur);
      if k >= 0 {
        assert Bare(hw'.descs[k]) == Bare(hw.descs[k]);
        assert LenOf(hw'.descs[k]) == LenOf(Bare(hw'.descs[k])) && BufOf(hw'.descs[k]) == BufOf(Bare(hw'.descs[k]));
        assert LenOf(hw.descs[k]) == LenOf(Bare(hw.descs[k])) && BufOf(hw.descs[k]) == BufOf(Bare(hw.descs[k]));
      }
    }
  }

  /** An empty core offers no beat, so an edge puts nothing into the gate. */
  lemma NothingOffered(e: Encoder, m: Map, hw: Hw, d: Dims, svalid: bool, mready: bool, write: bool, v: U32)
    requires Causal(e) && hw.core == Core(d, [], 0)
    ensures var hw' := Edge(e, m, hw, svalid, mready, write, v);
            hw'.core == hw.core && (!hw.gate.valid ==> !hw'.gate.valid)
  {
    hide StoreItems, Items;
    assert Avail(e, d, []) == [];
    StoreTouches(m, hw, Items(Gate.Given1(hw.gate, Pins(e, hw, svalid, mready, write, v))));
  }

  lemma EmptyStays(e: Encoder, m: Map, hw: Hw, d: Dims, ev: Event)
    requires Causal(e) && CoreEmpty(m, hw, d)
    ensures var hw' := Step(e, m, hw, ev);
            CoreEmpty(m, hw', d) && (!hw.gate.valid ==> !hw'.gate.valid)
  {
    hide CanFeed, Causal;
    CannotFeedStays(e, m, hw, ev);
    StepSizes(e, m, hw, ev);
    match ev
    case Clock(svalid, mready) => NothingOffered(e, m, hw, d, svalid, mready, false, 0);
    case MoveByte =>
    case SourceFault(c) =>
    case SinkFault(c) =>
  }

  /** What any run leaves alone when MM2S is not running, and more when S2MM is not either. */
  lemma {:induction false} QuietSteps(e: Encoder, m: Map, hw: Hw, evs: seq<Event>)
    ensures var hw' := Steps(e, m, hw, evs);
            && hw'.tx == hw.tx && |hw'.rx| == |hw.rx| && |hw'.descs| == |hw.descs|
            && (Quiet(hw) ==> hw'.mm2s == hw.mm2s)
            && (Quiet(hw) && hw.s2mm.phase != Running ==>
                  hw'.s2mm == hw.s2mm && hw'.rx == hw.rx && hw'.descs == hw.descs && hw'.delivered == hw.delivered)
    decreases |evs|
  {
    hide Step, SameBare, CanFeed;
    if evs != [] {
      StepSizes(e, m, hw, evs[0]);
      SameBareSize(hw.descs, Step(e, m, hw, evs[0]).descs);
      QuietSteps(e, m, Step(e, m, hw, evs[0]), evs[1..]);
    }
  }

  lemma SameBareSize(a: seq<Desc>, b: seq<Desc>)
    requires SameBare(a, b)
    ensures |a| == |b|
  {
  }

  lemma {:induction false} EmptySteps(e: Encoder, m: Map, hw: Hw, d: Dims, evs: seq<Event>)
    requires Causal(e) && CoreEmpty(m, hw, d)
    ensures var hw' := Steps(e, m, hw, evs);
            CoreEmpty(m, hw', d) && (!hw.gate.valid ==> !hw'.gate.valid)
    decreases |evs|
  {
    hide Step, Causal, CoreEmpty;
    if evs != [] {
      EmptyStays(e, m, hw, d, evs[0]);
      EmptySteps(e, m, Step(e, m, hw, evs[0]), d, evs[1..]);
    }
  }

  /** Throughout a run MM2S can feed the core for as long as it runs. */
  lemma RunningFeeds(j: Job, hw: Hw)
    requires Good(j, hw)
    ensures CanFeed(j.m, hw) <==> hw.mm2s.phase == Running
  {
    hide Causal, DescIndex, LenOf, BufOf, FinishDesc, RingAt, SinkPlan, SourcePlan, Tracks, Flows;
    if hw.mm2s.phase == Running {
      FeedIs(j, hw);
    }
  }

  /** The THRESH write empties the gate and reads back what was written. */
  lemma WriteEmpties(e: Encoder, m: Map, hw: Hw, d: Dims, v: U32, ev: Event)
    requires Causal(e) && CoreEmpty(m, hw, d)
    ensures var hw' := WriteThresh(e, m, hw, v, ev);
            && CoreEmpty(m, hw', d) && !hw'.gate.valid && hw'.gate.thresh == v % 0x2_0000
            && hw'.tx == hw.tx && |hw'.rx| == |hw.rx| && |hw'.descs| == |hw.descs| && hw'.mm2s == hw.mm2s
  {
    hide StoreItems, Items, CanFeed, Avail;
    var a := if ev.Clock? then ev else Clock(false, false);
    var hw1 := Edge(e, m, hw, a.svalid, a.mready, false, 0);
    var hw2 := Edge(e, m, hw1, a.svalid, a.mready, true, v);
    NothingOffered(e, m, hw, d, a.svalid, a.mready, false, 0);
    NothingOffered(e, m, hw1, d, a.svalid, a.mready, true, v);
    EdgeFeedless(e, m, hw, a.svalid, a.mready, false, 0);
    EdgeFeedless(e, m, hw1, a.svalid, a.mready, true, v);
  }

  lemma EdgeFeedless(e: Encoder, m: Map, hw: Hw, svalid: bool, mready: bool, write: bool, v: U32)
    ensures var hw' := Edge(e, m, hw, svalid, mready, write, v);
            && hw'.mm2s == hw.mm2s && hw'.tx == hw.tx && |hw'.rx| == |hw.rx| && |hw'.descs| == |hw.descs|
            && CanFeed(m, hw') == CanFeed(m, hw)
  {
    hide StoreItems, Items, Avail, DescIndex, Gate.Step;
    StoreTouches(m, hw, Items(Gate.Given1(hw.gate, Pins(e, hw, svalid, mready, write, v))));
    var hw' := Edge(e, m, hw, svalid, mready, write, v);
    var k := DescIndex(m, |hw.descs|, hw.mm2s.cur);
    if k >= 0 {
      assert Bare(hw'.descs[k]) == Bare(hw.descs[k]);
      assert LenOf(hw'.descs[k]) == LenOf(Bare(hw'.descs[k])) && BufOf(hw'.descs[k]) == BufOf(Bare(hw'.descs[k]));
      assert LenOf(hw.descs[k]) == LenOf(Bare(hw.descs[k])) && BufOf(hw.descs[k]) == BufOf(Bare(hw.descs[k]));
    }
  }

  // --- the generator behind the gate ---

  /** The gate runs at `pct` percent, and its generator somewhere on the orbit of the seed. */
  ghost predicate Seeded(g: Gate.State, pct: nat) {
    g.thresh == Gate.Threshold(pct) && exists k: nat :: g.random == Orbit(SEED, k)
  }

  lemma EdgeSeeded(g: Gate.State, i: Gate.In, pct: nat)
    requires Seeded(g, pct) && Gate.Undisturbed(g, i)
    ensures Seeded(Gate.Step(g, i), pct)
  {
    hide Next, Gate.Step, Gate.Undisturbed;
    var k: nat :| g.random == Orbit(SEED, k);
    Gate.UndisturbedEdge(g, i);
    assert Gate.Step(g, i).random == Orbit(SEED, k + 1);
  }

  lemma {:induction false} StepsSeeded(e: Encoder, m: Map, hw: Hw, evs: seq<Event>, pct: nat)
    requires Seeded(hw.gate, pct)
    ensures Seeded(Steps(e, m, hw, evs).gate, pct)
    decreases |evs|
  {
    hide Step, Seeded;
    if evs != [] {
      StepSeeded(e, m, hw, evs[0], pct);
      StepsSeeded(e, m, Step(e, m, hw, evs[0]), evs[1..], pct);
    }
  }

  lemma StepSeeded(e: Encoder, m: Map, hw: Hw, ev: Event, pct: nat)
    requires Seeded(hw.gate, pct)
    ensures Seeded(Step(e, m, hw, ev).gate, pct)
  {
    hide Seeded, StoreItems, Items, Avail, Gate.Step, DescIndex, Mark, FaultStatus;
    if ev.Clock? {
      EdgeSeeded(hw.gate, Pins(e, hw, ev.svalid, ev.mready, false, 0), pct);
    }
  }

  /** A THRESH write reseeds the generator. */
  lemma WriteSeeds(e: Encoder, m: Map, hw: Hw, pct: nat, ev: Event)
    requires Gate.Threshold(pct) < 0x2_0000
    ensures Seeded(WriteThresh(e, m, hw, Gate.Threshold(pct), ev).gate, pct)
  {
    hide StoreItems, Items, Avail, Next, Draw;
    var v := Gate.Threshold(pct);
    var a := if ev.Clock? then ev else Clock(false, false);
    var hw1 := Edge(e, m, hw, a.svalid, a.mready, false, 0);
    StoreTouches(m, hw, Items(Gate.Given1(hw.gate, Pins(e, hw, a.svalid, a.mready, false, 0))));
    StoreTouches(m, hw1, Items(Gate.Given1(hw1.gate, Pins(e, hw1, a.svalid, a.mready, true, v))));
    assert WriteThresh(e, m, hw, v, ev).gate.random == SEED == Orbit(SEED, 0);
  }

  // --- both rings in DRAM, both channels reset ---

  ghost predicate Fresh(p: Plan, descs: seq<Desc>) {
    p.first + p.count <= |descs| && forall i | 0 <= i < p.count :: descs[p.first + i] == RingDesc(p, i)
  }

  /** Everything is ready to start: the state before axidma_sg_start. */
  ghost predicate Ready(j: Job, hw: Hw) {
    && JobOk(j, hw)
    && CoreEmpty(j.m, hw, j.d) && !hw.gate.valid
    && |j.pixels| <= |hw.tx| && hw.tx[..|j.pixels|] == j.pixels
    && hw.mm2s == RESET_CHAN && hw.s2mm == RESET_CHAN
    && Fresh(j.sink, hw.descs) && Fresh(j.source, hw.descs)
  }

  lemma FreshRing(p: Plan, hw: Hw)
    requires Fresh(p, hw.descs)
    ensures RingAt(p, hw.descs) && forall i | 0 <= i < p.count :: StatusOf(p, hw, i) == 0
  {
    hide Lo, Hi, Cap;
    forall i | 0 <= i < p.count
      ensures Bare(hw.descs[p.first + i]) == RingDesc(p, i) && StatusOf(p, hw, i) == 0
    {
      assert hw.descs[p.first + i] == RingDesc(p, i);
    }
  }

  /** Starting S2MM on a prepared fabric begins a run with nothing delivered and nothing in flight. */
  lemma SinkStarts(j: Job, hw: Hw)
    requires Ready(j, hw)
    ensures var hw' := StartSink(hw, j.sink.phys, TailOf(j.sink));
            Good(j, hw') && hw'.mm2s == RESET_CHAN && hw'.core.fed == []
  {
    hide Causal, SgStart, CanFeed, RingAt, Tracks, TakeAll;
    var p := j.sink;
    var hw' := StartSink(hw, p.phys, TailOf(p));
    SgStartIs(hw.s2mm, p.phys, TailOf(p));
    FreshRing(p, hw');
    FreshRing(j.source, hw');
    EmptyAvail(j.e, j.d);
    TakeNothing(Caps(p));
    StartTracks(j.m, p, hw');
  }

  lemma EmptyAvail(e: Encoder, d: Dims)
    requires Causal(e)
    ensures Avail(e, d, []) == []
  {
  }

  lemma TakeNothing(caps: seq<nat>)
    ensures TakeAll(caps, START, Items([])) == START
  {
  }

  lemma StartTracks(m: Map, p: Plan, hw: Hw)
    requires SinkPlan(m, p, |hw.rx|) && RingAt(p, hw.descs)
    requires forall i | 0 <= i < p.count :: StatusOf(p, hw, i) == 0
    requires hw.s2mm.cur == p.phys && hw.s2mm.tail == TailOf(p) && hw.s2mm.fill == 0
    ensures Tracks(m, p, hw, START)
  {
    assert Off(p, 0) == 0 * p.chunk == 0;
    NothingAt(p, hw.rx, 0);
  }

  /** Until MM2S starts too, the run stays at its beginning. */
  lemma WaitingStays(j: Job, hw: Hw, evs: seq<Event>)
    requires Good(j, hw) && hw.mm2s == RESET_CHAN && hw.core.fed == []
    ensures var hw' := Steps(j.e, j.m, hw, evs);
            Good(j, hw') && hw'.mm2s == RESET_CHAN && hw'.core.fed == []
    decreases |evs|
  {
    hide Good, Step;
    if evs != [] {
      StepKeeps(j, hw, evs[0]);
      StepSizes(j.e, j.m, hw, evs[0]);
      WaitingStays(j, Step(j.e, j.m, hw, evs[0]), evs[1..]);
    }
  }

  lemma SourceStarts(j: Job, hw: Hw)
    requires Good(j, hw) && hw.mm2s == RESET_CHAN && hw.core.fed == []
    ensures Good(j, StartSource(hw, j.source.phys, TailOf(j.source)))
  {
    hide Causal, SgStart, Tracks, Avail, TakeAll, Items, RingAt, SinkPlan;
    var p := j.source;
    var hw' := StartSource(hw, p.phys, TailOf(p));
    SgStartIs(hw.mm2s, p.phys, TailOf(p));
    TracksSame(j.m, j.sink, hw, hw', Cutting(j, hw));
  }
}
