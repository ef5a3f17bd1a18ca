// One job on the fabric, from start to finish, under every event list: the invariant that ties
// pixels in DRAM, core, gate and receive ring together, and what the status words then prove.
module Run {
  import opened Bytes
  import opened Ring
  import opened Encoder
  import opened Segment
  import opened Fabric
  import opened Sink
  import Gate

  /** What one request asks of the hardware. */
  datatype Job = Job(e: Encoder, m: Map, d: Dims, pixels: seq<Byte>, sink: Plan, source: Plan)

  ghost predicate SourcePlan(m: Map, p: Plan, pixels: nat, txSize: nat) {
    && p.Valid()
    && p.phys == m.descBase + DESC_BYTES * p.first
    && p.buf == m.txBase
    && p.len == pixels <= txSize
    && p.chunk == DESC_CHUNK && p.frame
  }

  ghost predicate JobOk(j: Job, hw: Hw) {
    && Causal(j.e)
    && SinkPlan(j.m, j.sink, |hw.rx|)
    && SourcePlan(j.m, j.source, |j.pixels|, |hw.tx|)
    && j.sink.first + j.sink.count <= j.source.first
  }

  /** MM2S has fed the core a prefix of the pixels in DRAM and stands right behind it. */
  ghost predicate Feeds(j: Job, hw: Hw) {
    var p := j.source;
    && RingAt(p, hw.descs)
    && |j.pixels| <= |hw.tx| && hw.tx[..|j.pixels|] == j.pixels
    && hw.core.dims == j.d
    && hw.core.fed <= j.pixels
    && (hw.mm2s.phase == Running ==>
          && |hw.core.fed| < |j.pixels|
          && hw.mm2s.cur == p.phys + |hw.core.fed| / DESC_CHUNK * DESC_BYTES
          && hw.mm2s.tail == p.phys + (p.count - 1) * DESC_BYTES
          && hw.mm2s.fill == |hw.core.fed| % DESC_CHUNK
          && (hw.mm2s.framed <==> |hw.core.fed| > 0))
    && (hw.mm2s.phase == Idle ==> hw.core.fed == j.pixels)
  }

  /** Every beat the core put out is delivered or held, in order, and nothing else is. */
  ghost predicate Flows(j: Job, hw: Hw) {
    var avail := Avail(j.e, hw.core.dims, hw.core.fed);
    && hw.core.emitted <= |avail|
    && hw.delivered + Gate.Held(hw.gate) == avail[..hw.core.emitted]
  }

  function Cutting(j: Job, hw: Hw): Seg {
    TakeAll(Caps(j.sink), START, Items(hw.delivered))
  }

  ghost predicate Good(j: Job, hw: Hw) {
    && JobOk(j, hw)
    && Feeds(j, hw)
    && Flows(j, hw)
    && Tracks(j.m, j.sink, hw, Cutting(j, hw))
  }

  // --- frames ---

  /** Nothing but status words changed in the descriptor buffer. */
  ghost predicate SameBare(a: seq<Desc>, b: seq<Desc>) {
    |a| == |b| && forall k | 0 <= k < |a| :: Bare(a[k]) == Bare(b[k])
  }

  lemma BareKeepsRing(p: Plan, a: seq<Desc>, b: seq<Desc>)
    requires RingAt(p, a) && SameBare(a, b)
    ensures RingAt(p, b)
  {
    forall i | 0 <= i < p.count
      ensures Bare(b[p.first + i]) == RingDesc(p, i)
    {
      assert Bare(a[p.first + i]) == RingDesc(p, i);
    }
  }

  lemma MarkIsBare(descs: seq<Desc>, k: int, st: U32)
    requires k < |descs|
    ensures SameBare(descs, Mark(descs, k, st))
    ensures forall i | 0 <= i < |descs| && i != k :: Mark(descs, k, st)[i] == descs[i]
  {
  }

  lemma TracksFrame(m: Map, p: Plan, hw: Hw, hw': Hw, g: Seg)
    requires Tracks(m, p, hw, g)
    requires hw'.rx == hw.rx && hw'.s2mm == hw.s2mm && |hw'.descs| == |hw.descs|
    requires forall k | p.first <= k < p.first + p.count :: hw'.descs[k] == hw.descs[k]
    ensures Tracks(m, p, hw', g)
  {
    hide Landed, Unfinished, BytesAt, RingDesc;
    forall i | 0 <= i < p.count
      ensures Bare(hw'.descs[p.first + i]) == RingDesc(p, i)
    {
      assert Bare(hw.descs[p.first + i]) == RingDesc(p, i);
    }
    forall i | 0 <= i < |g.done|
      ensures Landed(p, hw', i, g.done[i])
    {
      LandedFrame(p, hw, hw', i, g.done[i]);
    }
    assert forall i | 0 <= i < p.count :: StatusOf(p, hw', i) == StatusOf(p, hw, i);
  }

  lemma LandedFrame(p: Plan, hw: Hw, hw': Hw, i: nat, s: seq<Item>)
    requires Landed(p, hw, i, s) && hw'.rx == hw.rx && |hw'.descs| == |hw.descs|
    requires hw'.descs[p.first + i] == hw.descs[p.first + i]
    ensures Landed(p, hw', i, s)
  {
    hide BytesAt, DoneStatus;
  }

  /** Storing bytes changes the channel, the rx buffer and status words, nothing else. */
  ghost predicate OnlySink(hw: Hw, hw': Hw) {
    && hw' == hw.(s2mm := hw'.s2mm, rx := hw'.rx, descs := hw'.descs)
    && SameBare(hw.descs, hw'.descs) && |hw'.rx| == |hw.rx|
  }

  lemma StoreItemTouches(m: Map, hw: Hw, it: Item)
    ensures OnlySink(hw, StoreItem(m, hw, it))
  {
    hide DescIndex, FinishDesc, BufOf, LenOf, DoneStatus, FaultStatus;
  }

  lemma OnlySinkTwice(a: Hw, b: Hw, c: Hw)
    requires OnlySink(a, b) && OnlySink(b, c)
    ensures OnlySink(a, c)
  {
  }

  lemma {:induction false} StoreTouches(m: Map, hw: Hw, items: seq<Item>)
    ensures OnlySink(hw, StoreItems(m, hw, items))
    decreases |items|
  {
    hide StoreItem;
    if items != [] {
      hide OnlySink;
      StoreItemTouches(m, hw, items[0]);
      StoreTouches(m, StoreItem(m, hw, items[0]), items[1..]);
      OnlySinkTwice(hw, StoreItem(m, hw, items[0]), StoreItems(m, hw, items));
    }
  }

  // --- MM2S ---

  /** A running MM2S reads exactly the next pixel byte. */
  lemma FeedIs(j: Job, hw: Hw)
    requires JobOk(j, hw) && Feeds(j, hw) && hw.mm2s.phase == Running
    ensures var p := j.source; var n := |hw.core.fed|; var k := p.first + n / DESC_CHUNK;
            && p.first <= k < p.first + p.count && k < |hw.descs|
            && DescIndex(j.m, |hw.descs|, hw.mm2s.cur) == k
            && var d := hw.descs[k];
               && BufOf(d) + hw.mm2s.fill - j.m.txBase == n
               && hw.mm2s.fill + 1 <= LenOf(d) && Framing(hw.mm2s, d)
               && (hw.mm2s.fill + 1 == LenOf(d) ==>
                     if n + 1 == |j.pixels| then FinishSource(hw.mm2s, d) == hw.mm2s.(phase := Idle, framed := false)
                     else (n + 1) % DESC_CHUNK == 0 && n + 1 < |j.pixels|
                          && FinishSource(hw.mm2s, d) ==
                             hw.mm2s.(cur := p.phys + (n + 1) / DESC_CHUNK * DESC_BYTES, fill := 0, framed := true))
               && (hw.mm2s.fill + 1 < LenOf(d) ==>
                     && n + 1 < |j.pixels|
                     && (n + 1) / DESC_CHUNK == n / DESC_CHUNK && (n + 1) % DESC_CHUNK == hw.mm2s.fill + 1)
  {
    hide RingDesc, Cap, Lo, Hi, Addr64, Piece, Causal;
    var p := j.source;
    var n := |hw.core.fed|;
    var i := n / DESC_CHUNK;
    assert i < p.count;
    var d := hw.descs[p.first + i];
    assert Bare(d) == RingDesc(p, i);
    assert LenOf(d) == LenOf(Bare(d)) && BufOf(d) == BufOf(Bare(d)) && NextOf(d) == NextOf(Bare(d));
    assert HasSof(d) == HasSof(Bare(d)) && HasEof(d) == HasEof(Bare(d));
    FrameMarks(p, i);
    DescReads(p, i);
    LastPiece(p, i);
    CapWhole(p, i);
  }

  lemma FeedFeeds(j: Job, hw: Hw)
    requires JobOk(j, hw) && Feeds(j, hw) && hw.mm2s.phase == Running
    ensures var hw' := FeedByte(j.m, hw); var n := |hw.core.fed|;
            && n < |j.pixels| && hw'.core == hw.core.(fed := hw.core.fed + [j.pixels[n]])
            && hw' == hw.(mm2s := hw'.mm2s, core := hw'.core, descs := hw'.descs)
            && |hw'.descs| == |hw.descs|
            && (forall k | 0 <= k < |hw.descs| && k < j.source.first :: hw'.descs[k] == hw.descs[k])
            && Feeds(j, hw')
  {
    hide Causal, DescIndex, FinishSource, Framing, BufOf, LenOf, DoneStatus, RingAt, SinkPlan, SourcePlan;
    FeedIs(j, hw);
    var hw' := FeedByte(j.m, hw);
    var n := |hw.core.fed|;
    assert hw.tx[n] == j.pixels[n];
    assert hw'.core.fed == j.pixels[..n + 1];
    assert SameBare(hw.descs, hw'.descs);
    BareKeepsRing(j.source, hw.descs, hw'.descs);
  }

  lemma FeedKeeps(j: Job, hw: Hw)
    requires Good(j, hw)
    ensures Good(j, FeedByte(j.m, hw)) && FeedByte(j.m, hw).delivered == hw.delivered
  {
    if hw.mm2s.phase == Running {
      FeedFeeds(j, hw);
      hide Causal, FeedByte, Tracks, Avail, SinkPlan, SourcePlan, TakeAll;
      AvailGrows(j.e, j.d, hw.core.fed, j.pixels[|hw.core.fed|]);
      TracksFrame(j.m, j.sink, hw, FeedByte(j.m, hw), Cutting(j, hw));
    }
  }

  lemma SourceFaultKeeps(j: Job, hw: Hw, c: nat)
    requires Good(j, hw)
    ensures var hw' := Step(j.e, j.m, hw, SourceFault(c)); Good(j, hw') && hw'.delivered == hw.delivered
  {
    if hw.mm2s.phase == Running {
      hide Causal, DescIndex, FaultStatus, Tracks, Avail, RingAt, SinkPlan, SourcePlan, Gate.Held, TakeAll, ErrCode;
      FeedIs(j, hw);
      var hw' := Step(j.e, j.m, hw, SourceFault(c));
      MarkIsBare(hw.descs, DescIndex(j.m, |hw.descs|, hw.mm2s.cur), FaultStatus(ErrCode(c)));
      hide Mark, SameBare;
      BareKeepsRing(j.source, hw.descs, hw'.descs);
      TracksFrame(j.m, j.sink, hw, hw', Cutting(j, hw));
    }
  }

  // --- S2MM ---

  lemma SinkFaultKeeps(j: Job, hw: Hw, c: nat)
    requires Good(j, hw)
    ensures var hw' := Step(j.e, j.m, hw, SinkFault(c)); Good(j, hw') && hw'.delivered == hw.delivered
  {
    if hw.s2mm.phase == Running {
      hide Causal, DescIndex, FaultStatus, Tracks, Avail, RingAt, SinkPlan, SourcePlan, Gate.Held, TakeAll, ErrCode;
      var g := Cutting(j, hw);
      CurrentDesc(j.m, j.sink, hw, g);
      var k := j.sink.first + |g.done|;
      StopTracks(j.m, j.sink, hw, g, k, ErrCode(c));
      var hw' := Step(j.e, j.m, hw, SinkFault(c));
      MarkIsBare(hw.descs, k, FaultStatus(ErrCode(c)));
      hide Mark, SameBare;
      BareKeepsRing(j.source, hw.descs, hw'.descs);
    }
  }

  lemma CuttingCuts(j: Job, hw: Hw)
    ensures Cut(Caps(j.sink), Cutting(j, hw), Items(hw.delivered))
  {
    hide Cut, TakeAll;
    StartCuts(Caps(j.sink));
    TakeAllCuts(Caps(j.sink), START, [], Items(hw.delivered));
    assert [] + Items(hw.delivered) == Items(hw.delivered);
  }

  /** Delivering beats to a running S2MM stores them as the cutter does. */
  lemma DeliverTracks(j: Job, hw: Hw, out: seq<Beat>, hw': Hw)
    requires SinkPlan(j.m, j.sink, |hw.rx|) && Tracks(j.m, j.sink, hw, Cutting(j, hw))
    requires out != [] ==> hw.s2mm.phase == Running
    requires var st := StoreItems(j.m, hw, Items(out));
             hw'.s2mm == st.s2mm && hw'.rx == st.rx && hw'.descs == st.descs
    requires hw'.delivered == hw.delivered + out
    ensures Tracks(j.m, j.sink, hw', Cutting(j, hw')) && |hw'.rx| == |hw.rx|
  {
    hide Tracks, TakeAll, StoreItems, Cut, SinkPlan, Caps, Items;
    var st := StoreItems(j.m, hw, Items(out));
    if out == [] {
      DeliverNothing(j.m, hw);
      assert hw'.delivered == hw.delivered;
      TracksSame(j.m, j.sink, hw, hw', Cutting(j, hw));
    } else {
      CuttingCuts(j, hw);
      StoreAllTracks(j.m, j.sink, hw, Cutting(j, hw), Items(hw.delivered), Items(out));
      ItemsConcat(hw.delivered, out);
      TakeAllConcat(Caps(j.sink), START, Items(hw.delivered), Items(out));
      TracksSame(j.m, j.sink, st, hw', Cutting(j, hw'));
    }
  }

  lemma DeliverNothing(m: Map, hw: Hw)
    ensures StoreItems(m, hw, Items([])) == hw
  {
  }

  lemma TracksSame(m: Map, p: Plan, hw: Hw, hw': Hw, g: Seg)
    requires Tracks(m, p, hw, g) && hw'.rx == hw.rx && hw'.s2mm == hw.s2mm && hw'.descs == hw.descs
    ensures Tracks(m, p, hw', g)
  {
    hide RingAt;
    TracksFrame(m, p, hw, hw', g);
  }

  // --- the gate between core and S2MM ---

  /** A beat the gate takes is the core's next one. */
  lemma TakenIsNext(e: Encoder, hw: Hw, svalid: bool, mready: bool)
    requires hw.core.emitted <= |Avail(e, hw.core.dims, hw.core.fed)|
    ensures var avail := Avail(e, hw.core.dims, hw.core.fed);
            var taken := Gate.Taken1(hw.gate, Pins(e, hw, svalid, mready, false, 0));
            && hw.core.emitted + |taken| <= |avail|
            && avail[..hw.core.emitted] + taken == avail[..hw.core.emitted + |taken|]
  {
    hide Avail;
  }

  lemma EdgeFlows(j: Job, hw: Hw, svalid: bool, mready: bool)
    requires Flows(j, hw)
    ensures var hw' := Edge(j.e, j.m, hw, svalid, mready, false, 0);
            Flows(j, hw') && hw.delivered <= hw'.delivered
  {
    hide Avail, StoreItems, Items, Gate.Step, Gate.Taken1, Gate.Given1, Gate.Held;
    var i := Pins(j.e, hw, svalid, mready, false, 0);
    var lost := Gate.EdgeConserves(hw.gate, i);
    assert lost == [];
    var out, taken := Gate.Given1(hw.gate, i), Gate.Taken1(hw.gate, i);
    var held' := Gate.Held(Gate.Step(hw.gate, i));
    assert out + lost + held' == out + held';
    StoreTouches(j.m, hw, Items(out));
    TakenIsNext(j.e, hw, svalid, mready);
    Regroup(hw.delivered, Gate.Held(hw.gate), taken, out, held');
  }

  lemma Regroup<T>(a: seq<T>, held: seq<T>, taken: seq<T>, out: seq<T>, held': seq<T>)
    requires held + taken == out + held'
    ensures (a + out) + held' == (a + held) + taken
  {
    assert (a + out) + held' == a + (out + held');
    assert (a + held) + taken == a + (held + taken);
  }

  lemma EdgeKeeps(j: Job, hw: Hw, svalid: bool, mready: bool)
    requires Good(j, hw)
    ensures var hw' := Edge(j.e, j.m, hw, svalid, mready, false, 0);
            Good(j, hw') && hw.delivered <= hw'.delivered
  {
    hide Avail, Causal, StoreItems, Items, Gate.Step, Tracks, RingAt, SinkPlan, SourcePlan, Cutting, Flows;
    var out := Gate.Given1(hw.gate, Pins(j.e, hw, svalid, mready, false, 0));
    var hw' := Edge(j.e, j.m, hw, svalid, mready, false, 0);
    EdgeFlows(j, hw, svalid, mready);
    StoreTouches(j.m, hw, Items(out));
    DeliverTracks(j, hw, out, hw');
    BareKeepsRing(j.source, hw.descs, hw'.descs);
  }

  /** Every step of the fabric keeps the invariant, and delivered beats stay delivered. */
  lemma StepKeeps(j: Job, hw: Hw, ev: Event)
    requires Good(j, hw)
    ensures Good(j, Step(j.e, j.m, hw, ev)) && hw.delivered <= Step(j.e, j.m, hw, ev).delivered
  {
    hide Good, Edge, FeedByte;
    match ev
    case MoveByte => FeedKeeps(j, hw);
    case Clock(svalid, mready) => EdgeKeeps(j, hw, svalid, mready);
    case SourceFault(c) => SourceFaultKeeps(j, hw, c);
    case SinkFault(c) => SinkFaultKeeps(j, hw, c);
  }

  /** So does every run. */
  lemma {:induction false} StepsKeep(j: Job, hw: Hw, evs: seq<Event>)
    requires Good(j, hw)
    ensures Good(j, Steps(j.e, j.m, hw, evs)) && hw.delivered <= Steps(j.e, j.m, hw, evs).delivered
    decreases |evs|
  {
    hide Good, Step;
    if evs != [] {
      StepKeeps(j, hw, evs[0]);
      StepsKeep(j, Step(j.e, j.m, hw, evs[0]), evs[1..]);
    }
  }
}
