// What holds of a started receive ring even when the upstream went wrong: no assumption on the
// core, the pixels or a clean start. It bounds every count the CPU will act on.
module Safety {
  import opened Bytes
  import opened Ring
  import opened Encoder
  import opened Segment
  import opened Fabric
  import opened Sink
  import opened Run
  import opened Evidence
  import opened Prepare
  import Gate

  /** MM2S, if it runs, is somewhere in its own ring. */
  ghost predicate Apart(p: Plan, hw: Hw) {
    && RingAt(p, hw.descs)
    && (hw.mm2s.phase == Running ==>
          && hw.mm2s.tail == p.phys + (p.count - 1) * DESC_BYTES
          && exists i | 0 <= i < p.count :: hw.mm2s.cur == p.phys + i * DESC_BYTES)
  }

  ghost predicate Safe(j: Job, hw: Hw) {
    && SinkPlan(j.m, j.sink, |hw.rx|)
    && j.source.Valid() && j.source.phys == j.m.descBase + DESC_BYTES * j.source.first
    && j.sink.first + j.sink.count <= j.source.first
    && Apart(j.source, hw)
    && Tracks(j.m, j.sink, hw, Cutting(j, hw))
  }

  lemma SourceIndex(j: Job, hw: Hw) returns (i: nat)
    requires Safe(j, hw) && hw.mm2s.phase == Running
    ensures i < j.source.count && j.source.first + j.source.count <= |hw.descs|
    ensures hw.mm2s.cur == j.source.phys + i * DESC_BYTES && hw.mm2s.tail == TailOf(j.source)
    ensures DescIndex(j.m, |hw.descs|, hw.mm2s.cur) == j.source.first + i
    ensures NextOf(hw.descs[j.source.first + i]) == NextAddr(j.source, i)
  {
    hide RingDesc, Tracks, SinkPlan, Lo, Hi, Addr64;
    i :| 0 <= i < j.source.count && hw.mm2s.cur == j.source.phys + i * DESC_BYTES;
    var d := hw.descs[j.source.first + i];
    assert Bare(d) == RingDesc(j.source, i);
    assert NextOf(d) == NextOf(Bare(d));
    DescReads(j.source, i);
  }

  lemma FeedSafe(j: Job, hw: Hw)
    requires Safe(j, hw)
    ensures Safe(j, FeedByte(j.m, hw))
  {
    if hw.mm2s.phase == Running {
      hide Tracks, SinkPlan, RingAt, DescIndex, BufOf, LenOf, NextOf, DoneStatus, FaultStatus, TakeAll, Items,
           Plan.Valid;
      var i := SourceIndex(j, hw);
      var hw' := FeedByte(j.m, hw);
      assert SameBare(hw.descs, hw'.descs);
      BareKeepsRing(j.source, hw.descs, hw'.descs);
      TracksFrame(j.m, j.sink, hw, hw', Cutting(j, hw));
      if hw'.mm2s.phase == Running && hw'.mm2s.cur != hw.mm2s.cur {
        assert hw'.mm2s.cur == j.source.phys + (i + 1) * DESC_BYTES;
      }
    }
  }

  lemma FaultsSafe(j: Job, hw: Hw, c: nat)
    requires Safe(j, hw)
    ensures Safe(j, Step(j.e, j.m, hw, SourceFault(c))) && Safe(j, Step(j.e, j.m, hw, SinkFault(c)))
  {
    hide Tracks, SinkPlan, RingAt, DescIndex, FaultStatus, TakeAll, Items, ErrCode, Plan.Valid;
    if hw.mm2s.phase == Running {
      var i := SourceIndex(j, hw);
      var hw' := Step(j.e, j.m, hw, SourceFault(c));
      assert SameBare(hw.descs, hw'.descs);
      BareKeepsRing(j.source, hw.descs, hw'.descs);
      TracksFrame(j.m, j.sink, hw, hw', Cutting(j, hw));
    }
    if hw.s2mm.phase == Running {
      var g := Cutting(j, hw);
      CurrentDesc(j.m, j.sink, hw, g);
      StopTracks(j.m, j.sink, hw, g, j.sink.first + |g.done|, ErrCode(c));
      var hw' := Step(j.e, j.m, hw, SinkFault(c));
      assert SameBare(hw.descs, hw'.descs);
      BareKeepsRing(j.source, hw.descs, hw'.descs);
    }
  }

  lemma EdgeSafe(j: Job, hw: Hw, svalid: bool, mready: bool)
    requires Safe(j, hw)
    ensures Safe(j, Edge(j.e, j.m, hw, svalid, mready, false, 0))
  {
    hide Avail, StoreItems, Items, Gate.Step, Tracks, RingAt, SinkPlan, Cutting, Plan.Valid;
    var out := Gate.Given1(hw.gate, Pins(j.e, hw, svalid, mready, false, 0));
    var hw' := Edge(j.e, j.m, hw, svalid, mready, false, 0);
    StoreTouches(j.m, hw, Items(out));
    DeliverTracks(j, hw, out, hw');
    BareKeepsRing(j.source, hw.descs, hw'.descs);
  }

  lemma StepSafe(j: Job, hw: Hw, ev: Event)
    requires Safe(j, hw)
    ensures Safe(j, Step(j.e, j.m, hw, ev))
  {
    hide Safe, Edge, FeedByte;
    match ev
    case MoveByte => FeedSafe(j, hw);
    case Clock(svalid, mready) => EdgeSafe(j, hw, svalid, mready);
    case SourceFault(c) => FaultsSafe(j, hw, c);
    case SinkFault(c) => FaultsSafe(j, hw, c);
  }

  /** Every run keeps it. */
  lemma {:induction false} StepsSafe(j: Job, hw: Hw, evs: seq<Event>)
    requires Safe(j, hw)
    ensures Safe(j, Steps(j.e, j.m, hw, evs))
    decreases |evs|
  {
    hide Safe, Step;
    if evs != [] {
      StepSafe(j, hw, evs[0]);
      StepsSafe(j, Step(j.e, j.m, hw, evs[0]), evs[1..]);
    }
  }

  /** So do both resets. */
  lemma ResetsSafe(j: Job, hw: Hw, d: Dims)
    requires Safe(j, hw)
    ensures Safe(j, ResetDma(hw)) && Safe(j, ResetCore(hw, d))
  {
    hide Tracks, SinkPlan, RingAt, TakeAll, Items, Plan.Valid;
    ResetTracks(j.m, j.sink, hw, Cutting(j, hw));
    TracksSame(j.m, j.sink, hw, ResetCore(hw, d), Cutting(j, hw));
  }

  lemma ResetTracks(m: Map, p: Plan, hw: Hw, g: Seg)
    requires Tracks(m, p, hw, g)
    ensures Tracks(m, p, ResetDma(hw), g)
  {
    hide RingAt, BytesAt, Landed;
    var hw' := ResetDma(hw);
    forall i | |g.done| <= i < p.count
      ensures Unfinished(StatusOf(p, hw', i), i == |g.done|)
    {
      assert Unfinished(StatusOf(p, hw, i), i == |g.done| && hw.s2mm.phase != Running);
    }
    forall i | 0 <= i < |g.done|
      ensures Landed(p, hw', i, g.done[i])
    {
      LandedFrame(p, hw, hw', i, g.done[i]);
    }
  }

  lemma ResetTold(j: Job, hw: Hw)
    requires Told(j, hw)
    ensures Told(j, ResetDma(hw)) && Quiet(ResetDma(hw))
  {
    hide Tracks, Avail, TakeAll, Items, Causal, SinkPlan, SourcePlan;
    ResetTracks(j.m, j.sink, hw, Cutting(j, hw));
  }

  /** A freshly built and started pair of rings is safe, whatever the core was fed before. */
  lemma StartSafe(j: Job, hw: Hw)
    requires SinkPlan(j.m, j.sink, |hw.rx|) && j.source.Valid()
    requires j.source.phys == j.m.descBase + DESC_BYTES * j.source.first
    requires j.sink.first + j.sink.count <= j.source.first
    requires Fresh(j.sink, hw.descs) && Fresh(j.source, hw.descs)
    requires hw.mm2s == RESET_CHAN && hw.s2mm == RESET_CHAN
    ensures Safe(j, StartSink(hw, j.sink.phys, TailOf(j.sink)))
  {
    hide SgStart, RingAt, Tracks, TakeAll;
    var p := j.sink;
    var hw' := StartSink(hw, p.phys, TailOf(p));
    SgStartIs(hw.s2mm, p.phys, TailOf(p));
    FreshRing(p, hw');
    FreshRing(j.source, hw');
    TakeNothing(Caps(p));
    StartTracks(j.m, p, hw');
  }

  lemma SourceStartSafe(j: Job, hw: Hw)
    requires Safe(j, hw) && hw.mm2s == RESET_CHAN
    ensures Safe(j, StartSource(hw, j.source.phys, TailOf(j.source)))
  {
    hide SgStart, Tracks, TakeAll, Items, RingAt, SinkPlan;
    var p := j.source;
    var hw' := StartSource(hw, p.phys, TailOf(p));
    SgStartIs(hw.mm2s, p.phys, TailOf(p));
    assert hw'.mm2s.cur == p.phys + 0 * DESC_BYTES;
    TracksSame(j.m, j.sink, hw, hw', Cutting(j, hw));
  }

  /** A count reported with a TLAST never reaches past its slot or the rx buffer. */
  lemma CountInSlot(j: Job, hw: Hw, i: nat)
    requires Safe(j, hw) && i < j.sink.count && IsEof(StatusOf(j.sink, hw, i))
    ensures Off(j.sink, i) + CountOf(StatusOf(j.sink, hw, i)) <= |hw.rx|
    ensures CountOf(StatusOf(j.sink, hw, i)) <= Cap(j.sink, i)
  {
    hide Tracks, Cap, TakeAll, Items, IsEof, SinkPlan;
    var g := Cutting(j, hw);
    EofMeans(j.m, j.sink, hw, g, i);
    CuttingCuts(j, hw);
    assert Closed(g.done[i], Caps(j.sink)[i]);
    Room(j.m, j.sink, |hw.rx|, i);
  }

  /** The counts up to the first TLAST never add up to more than the rx buffer. */
  lemma TotalInBuffer(j: Job, hw: Hw, i: nat)
    requires Safe(j, hw) && j.sink.chunk < LEN_SPAN && FirstEofAt(Statuses(j.sink, hw.descs), i)
    ensures SumCounts(Statuses(j.sink, hw.descs)[..i + 1]) <= |hw.rx|
  {
    hide Tracks, TakeAll, Items, IsEof, SinkPlan, Cut, Flat;
    var g := Cutting(j, hw);
    FirstEofSegment(j, hw, g, i);
    CuttingCuts(j, hw);
    BackToBack(j.m, j.sink, hw, g, Items(hw.delivered), i, i + 1);
  }
}
